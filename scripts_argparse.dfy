/**
 * Command-line value validators of the developer scripts
 * (Src/Scripts/argparse_helpers.py): integer parsing, the int-or-float
 * dispatch of `str2num` and its signed variants, range checks, and the
 * listing of an argument parser's non-flag names.
 */
module ScriptsArgparse {
  import opened Common

  // -------------------------------------------------------- integer parsing

  /** `str2int`: exactly the strings `isdigit()` accepts, read as decimal. */
  function Str2Int(val: string): (r: Result<nat>)
    ensures r.Ok? <==> IsDigits(val)
    ensures r.Ok? ==> r.value == DigitsValue(val)
    ensures r.Err? ==> r.error == ExpectedIntParse
  {
    if !IsDigits(val) then Err(ExpectedIntParse) else Ok(DigitsValue(val))
  }

  /** `str2posint`: a leading '-' is rejected first; otherwise as `str2int`. */
  function Str2PosInt(val: string): (r: Result<nat>)
    ensures StartsWith(val, "-") ==> r == Err(ExpectedPosIntParse)
    ensures !StartsWith(val, "-") ==> r == Str2Int(val)
  {
    if StartsWith(val, "-") then Err(ExpectedPosIntParse) else Str2Int(val)
  }

  /** `str2negint`: without a leading '-' it raises the positive-int exception; with it, `str2int`. */
  function Str2NegInt(val: string): (r: Result<nat>)
    ensures !StartsWith(val, "-") ==> r == Err(ExpectedPosIntParse)
    ensures StartsWith(val, "-") ==> r == Str2Int(val)
  {
    if !StartsWith(val, "-") then Err(ExpectedPosIntParse) else Str2Int(val)
  }

  /** `str2negint` never returns a value. */
  lemma Str2NegIntNeverSucceeds(val: string)
    ensures Str2NegInt(val).Err?
  {
    if StartsWith(val, "-") {
      assert val[0] == '-';
    }
  }

  /** `str2posint` accepts exactly the digit strings. */
  lemma Str2PosIntIffDigits(val: string)
    ensures Str2PosInt(val).Ok? <==> IsDigits(val)
  {
    if StartsWith(val, "-") {
      assert val[0] == '-';
    }
  }

  // ---------------------------------------------------------- int or float

  /** What `str2num` returns: an int, or the float read from a decimal lexeme. */
  datatype Num = IntNum(v: nat) | FloatNum(lexeme: string)

  /** The pattern `\d+(?:\.\d+)?` matched against the whole string. */
  predicate MatchesFloatPattern(s: string) {
    IsDigits(s) || exists i :: 0 <= i < |s| && s[i] == '.' && IsDigits(s[..i]) && IsDigits(s[i + 1..])
  }

  /** `str2float`: the float of a string matching the decimal pattern. */
  function Str2Float(val: string): (r: Result<Num>)
    ensures r.Ok? <==> MatchesFloatPattern(val)
    ensures r.Ok? ==> r == Ok(FloatNum(val))
    ensures r.Err? ==> r.error == ExpectedFloatParse
  {
    if MatchesFloatPattern(val) then Ok(FloatNum(val)) else Err(ExpectedFloatParse)
  }

  function Str2PosFloat(val: string): (r: Result<Num>)
    ensures StartsWith(val, "-") ==> r == Err(ExpectedPosFloatParse)
    ensures !StartsWith(val, "-") ==> r == Str2Float(val)
  {
    if StartsWith(val, "-") then Err(ExpectedPosFloatParse) else Str2Float(val)
  }

  function Str2NegFloat(val: string): (r: Result<Num>)
    ensures !StartsWith(val, "-") ==> r == Err(ExpectedPosFloatParse)
    ensures StartsWith(val, "-") ==> r == Str2Float(val)
  {
    if !StartsWith(val, "-") then Err(ExpectedPosFloatParse) else Str2Float(val)
  }

  /**
   * The test `if val.find('.')`: Python's -1 for "absent" is truthy, so
   * only a '.' at index 0 makes it false.
   */
  predicate FindDotTruthy(val: string)
    ensures FindDotTruthy(val) <==> !(|val| > 0 && val[0] == '.')
  {
    Find(val, ".", 0, None) != Some(0)
  }

  function IntAsNum(r: Result<nat>): Result<Num> {
    match r
    case Ok(v) => Ok(IntNum(v))
    case Err(e) => Err(e)
  }

  /** `str2num`: the float branch when `val.find('.')` is truthy, else `str2int`. */
  function Str2Num(val: string): (r: Result<Num>)
    ensures FindDotTruthy(val) ==> r == Str2Float(val)
    ensures !FindDotTruthy(val) ==> r == IntAsNum(Str2Int(val))
  {
    if FindDotTruthy(val) then Str2Float(val) else IntAsNum(Str2Int(val))
  }

  function Str2PosNum(val: string): (r: Result<Num>)
    ensures FindDotTruthy(val) ==> r == Str2PosFloat(val)
    ensures !FindDotTruthy(val) ==> r == IntAsNum(Str2PosInt(val))
  {
    if FindDotTruthy(val) then Str2PosFloat(val) else IntAsNum(Str2PosInt(val))
  }

  function Str2NegNum(val: string): (r: Result<Num>)
    ensures FindDotTruthy(val) ==> r == Str2NegFloat(val)
    ensures !FindDotTruthy(val) ==> r == IntAsNum(Str2NegInt(val))
  {
    if FindDotTruthy(val) then Str2NegFloat(val) else IntAsNum(Str2NegInt(val))
  }

  /**
   * `str2num` never yields an int: plain digit strings come back as floats,
   * and a leading '.' sends the string to `str2int`, which refuses it. It
   * succeeds exactly on the decimal pattern.
   */
  lemma Str2NumIsFloatPattern(val: string)
    ensures Str2Num(val).Ok? <==> MatchesFloatPattern(val)
    ensures Str2Num(val).Ok? ==> Str2Num(val) == Ok(FloatNum(val))
  {
    if |val| > 0 && val[0] == '.' {
      assert !IsDigitChar(val[0]);
      assert !MatchesFloatPattern(val) by {
        forall i | 0 <= i < |val| && val[i] == '.'
          ensures !IsDigits(val[..i])
        {
          if i > 0 {
            assert val[..i][0] == '.';
          }
        }
      }
    }
  }

  /** `str2posnum` succeeds exactly on the decimal pattern too. */
  lemma Str2PosNumIsFloatPattern(val: string)
    ensures Str2PosNum(val).Ok? <==> MatchesFloatPattern(val)
  {
    Str2NumIsFloatPattern(val);
    if StartsWith(val, "-") {
      assert val[0] == '-';
      assert !IsDigitChar(val[0]);
      NoPatternWithoutLeadingDigit(val);
    }
  }

  lemma NoPatternWithoutLeadingDigit(val: string)
    requires |val| > 0 && !IsDigitChar(val[0])
    ensures !MatchesFloatPattern(val)
  {
    forall i | 0 <= i < |val| && val[i] == '.'
      ensures !IsDigits(val[..i])
    {
      if i > 0 {
        assert val[..i][0] == val[0];
      }
    }
  }

  /** `str2negnum` never returns a value. */
  lemma Str2NegNumNeverSucceeds(val: string)
    ensures Str2NegNum(val).Err?
  {
    Str2NegIntNeverSucceeds(val);
    if StartsWith(val, "-") {
      assert val[0] == '-';
      NoPatternWithoutLeadingDigit(val);
    }
  }

  // ----------------------------------------------------------------- ranges

  /** A Python `range`; only its `start` and `stop` are consulted. */
  datatype Range = Range(start: int, stop: int)

  /**
   * `num_in_range(val, r, lower_inclusive, upper_inclusive)` on ints: the
   * value back, or ArgumentTypeError. Both bounds inclusive means
   * `start <= v <= stop`; an exclusive lower bound means `start < v < stop`
   * whatever the upper flag says; an inclusive lower bound with an exclusive
   * upper one enforces no upper bound at all.
   */
  function NumInRange(v: int, r: Range, lowerInclusive: bool, upperInclusive: bool): (res: Result<int>)
    ensures res.Ok? ==> res.value == v
    ensures res.Err? ==> res.error == ArgumentTypeError
    ensures lowerInclusive && upperInclusive ==> (res.Ok? <==> r.start <= v <= r.stop)
    ensures !lowerInclusive ==> (res.Ok? <==> r.start < v < r.stop)
    ensures lowerInclusive && !upperInclusive ==> (res.Ok? <==> r.start <= v)
  {
    if (lowerInclusive && v < r.start) || (upperInclusive && v > r.stop)
       || (!lowerInclusive && v <= r.start) || (!lowerInclusive && v >= r.stop)
    then Err(ArgumentTypeError)
    else Ok(v)
  }

  /** `str2int_in_range`: `str2int`, then `num_in_range`. */
  function Str2IntInRange(val: string, r: Range, lowerInclusive: bool, upperInclusive: bool): (res: Result<int>)
    ensures res.Ok? <==> IsDigits(val) && NumInRange(DigitsValue(val), r, lowerInclusive, upperInclusive).Ok?
    ensures res.Ok? ==> res.value == DigitsValue(val)
  {
    match Str2Int(val)
    case Err(e) => Err(e)
    case Ok(v) => NumInRange(v, r, lowerInclusive, upperInclusive)
  }

  // -------------------------------------------------------- get_non_flags

  /** An argparse action: its option strings (none for a positional) and its dest. */
  datatype Action = Action(optionStrings: seq<string>, dest: string)

  /** `opt.removeprefix('-')`. */
  function RemovePrefixDash(opt: string): (r: string)
    ensures StartsWith(opt, "-") ==> r == opt[1..]
    ensures !StartsWith(opt, "-") ==> r == opt
  {
    if |opt| > 0 && opt[0] == '-' then opt[1..] else opt
  }

  /** `s.replace('-', '_')`. */
  function DashesToUnderscores(s: string): (r: string)
    ensures |r| == |s|
    ensures forall k :: 0 <= k < |s| ==> r[k] == (if s[k] == '-' then '_' else s[k])
  {
    if s == "" then "" else [if s[0] == '-' then '_' else s[0]] + DashesToUnderscores(s[1..])
  }

  function FlagNames(opts: seq<string>): seq<string> {
    if opts == [] then []
    else
      (if StartsWith(opts[0], "--") then [] else [DashesToUnderscores(RemovePrefixDash(opts[0]))])
      + FlagNames(opts[1..])
  }

  function AllOptionStrings(actions: seq<Action>): seq<string> {
    if actions == [] then [] else actions[0].optionStrings + AllOptionStrings(actions[1..])
  }

  function PositionalDests(actions: seq<Action>): seq<string> {
    if actions == [] then []
    else (if actions[0].optionStrings == [] then [actions[0].dest] else []) + PositionalDests(actions[1..])
  }

  /**
   * `get_non_flags(parser)`: every option string not starting with '--',
   * with one leading '-' dropped and '-' turned into '_', followed by the
   * dests of the positional actions.
   */
  function GetNonFlags(actions: seq<Action>): seq<string> {
    FlagNames(AllOptionStrings(actions)) + PositionalDests(actions)
  }

  /**
   * The flag part of `get_non_flags` lists, in order, the normalised form of
   * exactly the short option strings, and none of them contains a '-'.
   */
  lemma {:induction false} FlagNamesShape(opts: seq<string>)
    ensures forall x :: x in FlagNames(opts) ==> '-' !in x
    ensures forall x :: x in FlagNames(opts) <==>
      exists o :: o in opts && !StartsWith(o, "--") && x == DashesToUnderscores(RemovePrefixDash(o))
    ensures |FlagNames(opts)| <= |opts|
  {
    if opts != [] {
      FlagNamesShape(opts[1..]);
      var d := DashesToUnderscores(RemovePrefixDash(opts[0]));
      assert '-' !in d by {
        forall k | 0 <= k < |d| ensures d[k] != '-' { }
      }
      forall x | x in FlagNames(opts)
        ensures exists o :: o in opts && !StartsWith(o, "--") && x == DashesToUnderscores(RemovePrefixDash(o))
      {
        if x !in FlagNames(opts[1..]) {
          assert x == d && opts[0] in opts;
        } else {
          var o :| o in opts[1..] && !StartsWith(o, "--") && x == DashesToUnderscores(RemovePrefixDash(o));
          assert o in opts;
        }
      }
      forall x, o | o in opts && !StartsWith(o, "--") && x == DashesToUnderscores(RemovePrefixDash(o))
        ensures x in FlagNames(opts)
      {
        if o != opts[0] {
          assert o in opts[1..];
        }
      }
    }
  }

  /** Only actions without option strings contribute positional dests. */
  lemma {:induction false} PositionalDestsShape(actions: seq<Action>)
    ensures forall x :: x in PositionalDests(actions) <==>
      exists a :: a in actions && a.optionStrings == [] && x == a.dest
  {
    if actions != [] {
      PositionalDestsShape(actions[1..]);
      forall x | x in PositionalDests(actions)
        ensures exists a :: a in actions && a.optionStrings == [] && x == a.dest
      {
        if x !in PositionalDests(actions[1..]) {
          assert actions[0] in actions;
        } else {
          var a :| a in actions[1..] && a.optionStrings == [] && x == a.dest;
          assert a in actions;
        }
      }
      forall x, a | a in actions && a.optionStrings == [] && x == a.dest
        ensures x in PositionalDests(actions)
      {
        if a != actions[0] {
          assert a in actions[1..];
        }
      }
    }
  }

  lemma {:induction false} AllOptionStringsMembers(actions: seq<Action>)
    ensures forall o :: o in AllOptionStrings(actions) <==> exists a :: a in actions && o in a.optionStrings
  {
    if actions != [] {
      AllOptionStringsMembers(actions[1..]);
      forall o | o in AllOptionStrings(actions)
        ensures exists a :: a in actions && o in a.optionStrings
      {
        if o !in actions[0].optionStrings {
          assert o in AllOptionStrings(actions[1..]);
          var a :| a in actions[1..] && o in a.optionStrings;
          assert a in actions;
        }
      }
      forall o, a | a in actions && o in a.optionStrings
        ensures o in AllOptionStrings(actions)
      {
        if a != actions[0] {
          assert a in actions[1..];
        }
      }
    }
  }

  /**
   * A name is listed by `get_non_flags` exactly when it is the normalised
   * form of some action's short option string, or the dest of a positional
   * action; the normalised option names come first and hold no '-'.
   */
  lemma GetNonFlagsMembers(actions: seq<Action>, x: string)
    ensures x in GetNonFlags(actions) <==>
      (exists a, o :: a in actions && o in a.optionStrings && !StartsWith(o, "--")
                      && x == DashesToUnderscores(RemovePrefixDash(o)))
      || (exists a :: a in actions && a.optionStrings == [] && x == a.dest)
    ensures forall k :: 0 <= k < |FlagNames(AllOptionStrings(actions))| ==> '-' !in GetNonFlags(actions)[k]
  {
    var opts := AllOptionStrings(actions);
    AllOptionStringsMembers(actions);
    FlagNamesShape(opts);
    PositionalDestsShape(actions);
    if x in FlagNames(opts) {
      var o :| o in opts && !StartsWith(o, "--") && x == DashesToUnderscores(RemovePrefixDash(o));
      var a :| a in actions && o in a.optionStrings;
    }
    forall k | 0 <= k < |FlagNames(opts)|
      ensures '-' !in GetNonFlags(actions)[k]
    {
      assert GetNonFlags(actions)[k] == FlagNames(opts)[k];
    }
  }
}
