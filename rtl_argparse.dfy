/**
 * Command-line value validators of the RTL scripts
 * (Src/RTL/Scripts/argparse_helpers.py): integer and boolean parsing, the
 * bit-width option, and the packing of boolean flags into an int.
 */
module RtlArgparse {
  import opened Common
  import opened ExtendedEnums
  import BitFieldEnums

  // -------------------------------------------------------- integer parsing

  /** `str2int`: exactly the strings `isdigit()` accepts, read as decimal. */
  function Str2Int(val: string): (r: Result<nat>)
    ensures r.Ok? <==> IsDigits(val)
    ensures r.Ok? ==> r.value == DigitsValue(val)
    ensures r.Err? ==> r.error == ExpectedIntParse
  {
    if !IsDigits(val) then Err(ExpectedIntParse) else Ok(DigitsValue(val))
  }

  /** `str2posint`: a leading '-' is rejected first; otherwise as `str2int`. */
  function Str2PosInt(val: string): (r: Result<nat>)
    ensures StartsWith(val, "-") ==> r == Err(ExpectedPosIntParse)
    ensures !StartsWith(val, "-") ==> r == Str2Int(val)
  {
    if StartsWith(val, "-") then Err(ExpectedPosIntParse) else Str2Int(val)
  }

  /**
   * `str2negint`: a string without a leading '-' is rejected (with the
   * positive-int exception); one with it is handed to `str2int`.
   */
  function Str2NegInt(val: string): (r: Result<nat>)
    ensures !StartsWith(val, "-") ==> r == Err(ExpectedPosIntParse)
    ensures StartsWith(val, "-") ==> r == Str2Int(val)
  {
    if !StartsWith(val, "-") then Err(ExpectedPosIntParse) else Str2Int(val)
  }

  /** `str2negint` never returns a value: a leading '-' is not a digit. */
  lemma Str2NegIntNeverSucceeds(val: string)
    ensures Str2NegInt(val).Err?
  {
    if StartsWith(val, "-") {
      assert val[0] == '-';
    }
  }

  /** `str2posint` succeeds exactly on digit strings, and agrees with `str2int` there. */
  lemma Str2PosIntIffDigits(val: string)
    ensures Str2PosInt(val).Ok? <==> IsDigits(val)
    ensures IsDigits(val) ==> Str2PosInt(val) == Str2Int(val)
  {
    if StartsWith(val, "-") {
      assert val[0] == '-';
    }
  }

  /** `str2int` reads back what `str(n)` writes. */
  lemma Str2IntOfNatToString(n: nat)
    ensures Str2Int(NatToString(n)) == Ok(n)
  {
    NatToStringValue(n);
  }

  /**
   * The outcome of `str2float_with_atmost_n_floating_digits` as far as its
   * checks on `n` go: `n == 0` returns the value parsed as an int, and a
   * positive `n` goes on to a float pattern match.
   */
  datatype FloatDigitsOutcome = AsInt(v: nat) | MatchFloatPattern(n: nat)

  function Str2FloatWithAtMostNFloatingDigits(val: string, n: int): (r: Result<FloatDigitsOutcome>)
    ensures n == 0 ==> (r.Ok? <==> IsDigits(val))
    ensures n == 0 && r.Ok? ==> r.value == AsInt(DigitsValue(val))
    ensures n < 0 ==> r == Err(ValueError)
    ensures n > 0 ==> r == Ok(MatchFloatPattern(n))
  {
    if n == 0 then
      match Str2Int(val)
      case Ok(v) => Ok(AsInt(v))
      case Err(e) => Err(e)
    else if n < 1 then Err(ValueError)
    else Ok(MatchFloatPattern(n))
  }

  // -------------------------------------------------------------- booleans

  /** What `str2bool` may be handed: a bool already, or a string. */
  datatype BoolArg = BBool(b: bool) | BStr(s: string)

  const TrueWords: seq<string> := ["yes", "true", "t", "y", "1"]
  const FalseWords: seq<string> := ["no", "false", "f", "n", "0"]

  /** `str2bool`: bools pass through; strings are matched case-insensitively. */
  function Str2Bool(val: BoolArg): (r: Result<bool>)
    ensures val.BBool? ==> r == Ok(val.b)
    ensures val.BStr? ==> (r == Ok(true) <==> Lower(val.s) in TrueWords)
    ensures val.BStr? ==> (r == Ok(false) <==> Lower(val.s) in FalseWords)
    ensures r.Err? ==> r.error == ArgumentTypeError
  {
    match val
    case BBool(b) => Ok(b)
    case BStr(s) =>
      var l := Lower(s);
      if l in TrueWords then Ok(true)
      else if l in FalseWords then Ok(false)
      else Err(ArgumentTypeError)
  }

  /** `str(b)` for a Python bool. */
  function BoolText(b: bool): string {
    if b then "True" else "False"
  }

  /** What `str(b)` writes, `str2bool` reads back. */
  lemma Str2BoolOfBoolText(b: bool)
    ensures Str2Bool(BStr(BoolText(b))) == Ok(b)
  {
    if b {
      assert Lower("True") == "true";
    } else {
      assert Lower("False") == "false";
    }
  }

  // ------------------------------------------------------------- bit width

  /** What `str2bitwidth` may be handed. */
  datatype WidthArg = WStr(s: string) | WInt(v: int)

  function TypeMapping(isInt: bool, p: FloatPlatform): seq<Decl> {
    if isInt then IntStrNpMap else FloatStrNpMap(p)
  }

  /**
   * The integer path of `str2bitwidth`: widths outside [16, 128] are
   * rejected before the type map is consulted, then widths that are not
   * among its values; otherwise the value of the first member holding it.
   */
  function WidthFromInt(v: int, mapping: seq<Decl>): (r: Result<EnumValue>)
    ensures (v < 16 || v > 128) ==> r == Err(ArgumentTypeError)
    ensures 16 <= v <= 128 ==> (r.Ok? <==> AInt(v) in Values(mapping))
    ensures r.Err? ==> r.error == ArgumentTypeError
    ensures r.Ok? ==> exists m :: m in Members(mapping) && m.value == r.value && HasAtom(r.value, AInt(v))
  {
    if v < 16 || v > 128 then Err(ArgumentTypeError)
    else if !Contains(mapping, AnInt(v)) then Err(ArgumentTypeError)
    else
      ContainsIntIffLookup(mapping, v);
      Ok(GetMemberViaNameFromValue(mapping, v).value.value)
  }

  /**
   * `str2bitwidth(v, is_int)`: a digit string goes down the integer path; any
   * other string names a type (case-insensitively) and must be a field of the
   * float or int type map.
   */
  function Str2Bitwidth(v: WidthArg, isInt: bool, p: FloatPlatform): (r: Result<EnumValue>)
    ensures v.WInt? ==> r == WidthFromInt(v.v, TypeMapping(isInt, p))
    ensures v.WStr? && IsDigits(v.s) ==> r == WidthFromInt(DigitsValue(v.s), TypeMapping(isInt, p))
    ensures v.WStr? && !IsDigits(v.s) ==> (r.Ok? <==> Upper(Upper(v.s)) in Fields(TypeMapping(isInt, p)))
    ensures r.Err? ==> r.error == ArgumentTypeError
  {
    var mapping := TypeMapping(isInt, p);
    match v
    case WInt(i) => WidthFromInt(i, mapping)
    case WStr(s) =>
      if IsDigits(s) then
        Str2PosIntIffDigits(s);
        WidthFromInt(Str2PosInt(s).value, mapping)
      else
        var u := Upper(s);
        if !Contains(mapping, AStr(u)) then Err(ArgumentTypeError)
        else
          ContainsStrThenLookup(mapping, u);
          Ok(GetMemberViaValueFromName(mapping, u).value.value)
  }

  /** 32 as an int width names INT, the first member holding 32. */
  lemma Str2BitwidthInt32(p: FloatPlatform)
    ensures Str2Bitwidth(WInt(32), true, p) == Ok(DInt.value)
  {
    IntMapLookup32();
    ContainsIntIffLookup(IntStrNpMap, 32);
    assert TypeMapping(true, p) == IntStrNpMap;
  }

  lemma IntMapLookup32()
    ensures GetMemberViaNameFromValue(IntStrNpMap, 32) == Ok(DInt)
  {
    IntMapMembers();
    FirstByValue32([DInt8, DInt16, DInt, DInt64, DUInt8, DUInt16, DUInt, DUInt64]);
  }

  lemma FirstByValue32(ms: seq<Decl>)
    requires ms == [DInt8, DInt16, DInt, DInt64, DUInt8, DUInt16, DUInt, DUInt64]
    ensures FirstByValue(ms, 32) == Some(2)
  {
    assert HasAtom(ms[2].value, AInt(32)) by { assert ms[2].value.elems[0] == AInt(32); }
    assert !HasAtom(ms[0].value, AInt(32)) by { assert ms[0].value.elems == [AInt(8), AObj(Int8)]; }
    assert !HasAtom(ms[1].value, AInt(32)) by { assert ms[1].value.elems == [AInt(16), AObj(Int16)]; }
    assert ms[1..][1..] == ms[2..];
  }

  /** The alias name "int32" is refused: INT32 is not a field of the int type map. */
  lemma Str2BitwidthRefusesInt32Alias(p: FloatPlatform)
    ensures Str2Bitwidth(WStr("int32"), true, p) == Err(ArgumentTypeError)
  {
    IntMapAliasesHidden();
    UpperLiterals();
    assert !IsDigits("int32") by { assert !IsDigitChar("int32"[0]); }
  }

  // ------------------------------------------------------------ bools2bitstr

  /** Python's `|` on non-negative ints. */
  function Or(a: nat, b: nat): nat
    decreases a + b
  {
    if a == 0 then b
    else if b == 0 then a
    else 2 * Or(a / 2, b / 2) + (if a % 2 == 1 || b % 2 == 1 then 1 else 0)
  }

  /** Or-ing in a bit above all the bits of `x` adds it. */
  lemma {:induction false} OrHighBit(x: nat, i: nat)
    requires x < Pow2(i)
    ensures Or(x, Pow2(i)) == x + Pow2(i)
  {
    if x != 0 {
      assert i > 0;
      OrHighBit(x / 2, i - 1);
    }
  }

  /** Bit `k` of `x`: `(x >> k) & 1 == 1`. */
  predicate Bit(x: nat, k: nat) {
    if k == 0 then x % 2 == 1 else Bit(x / 2, k - 1)
  }

  /** The int whose bit `i` is `bs[i]`. */
  function PackLsb(bs: seq<bool>): nat {
    if bs == [] then 0 else (if bs[0] then 1 else 0) + 2 * PackLsb(bs[1..])
  }

  /** What `bools2bitstr(*args, in_first_msb)` computes. */
  function Bools2BitstrSpec(args: seq<bool>, inFirstMsb: bool): nat {
    PackLsb(if inFirstMsb then Reverse(args) else args)
  }

  /** `bools2bitstr`: `result |= int(a) << i` over the (reversed, when MSB-first) flags. */
  method Bools2Bitstr(args: seq<bool>, inFirstMsb: bool) returns (result: nat)
    ensures result == Bools2BitstrSpec(args, inFirstMsb)
  {
    var bs := if inFirstMsb then Reverse(args) else args;
    result := 0;
    var i := 0;
    while i < |bs|
      invariant 0 <= i <= |bs|
      invariant result == PackLsb(bs[..i])
    {
      PackLsbBound(bs[..i]);
      PackLsbSnoc(bs[..i], bs[i]);
      assert bs[..i] + [bs[i]] == bs[..i + 1];
      if bs[i] {
        OrHighBit(result, i);
        result := Or(result, Pow2(i));
      } else {
        result := Or(result, 0);
      }
      i := i + 1;
    }
    assert bs[..i] == bs;
  }

  /** Appending a flag adds its bit at the top. */
  lemma {:induction false} PackLsbSnoc(bs: seq<bool>, b: bool)
    ensures PackLsb(bs + [b]) == PackLsb(bs) + (if b then Pow2(|bs|) else 0)
  {
    if bs != [] {
      assert (bs + [b])[1..] == bs[1..] + [b];
      PackLsbSnoc(bs[1..], b);
    }
  }

  lemma {:induction false} PackLsbBound(bs: seq<bool>)
    ensures PackLsb(bs) < Pow2(|bs|)
  {
    if bs != [] {
      PackLsbBound(bs[1..]);
    }
  }

  lemma {:induction false} BitOfZero(k: nat)
    ensures !Bit(0, k)
  {
    if k > 0 {
      BitOfZero(k - 1);
    }
  }

  /** Bit `k` of the packed value is flag `k`, and no bit at or above `|bs|` is set. */
  lemma {:induction false} PackLsbBit(bs: seq<bool>, k: nat)
    ensures Bit(PackLsb(bs), k) <==> k < |bs| && bs[k]
  {
    if bs == [] {
      BitOfZero(k);
    } else if k > 0 {
      PackLsbBit(bs[1..], k - 1);
    }
  }

  /**
   * `bools2bitstr` sets exactly the bits of the True flags: flag `j` of `n`
   * is bit `n - 1 - j` when MSB-first and bit `j` otherwise, and the result
   * is below `2^n`.
   */
  lemma Bools2BitstrBits(args: seq<bool>, inFirstMsb: bool, j: nat)
    requires j < |args|
    ensures Bit(Bools2BitstrSpec(args, inFirstMsb), BitFieldEnums.ShiftOf(j, |args|, inFirstMsb)) == args[j]
    ensures Bools2BitstrSpec(args, inFirstMsb) < Pow2(|args|)
  {
    var bs := if inFirstMsb then Reverse(args) else args;
    PackLsbBit(bs, BitFieldEnums.ShiftOf(j, |args|, inFirstMsb));
    PackLsbBound(bs);
  }

  lemma {:induction false} PackLsbAllFalse(bs: seq<bool>)
    requires forall k :: 0 <= k < |bs| ==> !bs[k]
    ensures PackLsb(bs) == 0
  {
    if bs != [] {
      PackLsbAllFalse(bs[1..]);
    }
  }

  lemma {:induction false} PackLsbSingle(bs: seq<bool>, p: nat)
    requires p < |bs| && forall k :: 0 <= k < |bs| ==> (bs[k] <==> k == p)
    ensures PackLsb(bs) == Pow2(p)
  {
    if p == 0 {
      PackLsbAllFalse(bs[1..]);
    } else {
      PackLsbSingle(bs[1..], p - 1);
    }
  }

  /**
   * A lone True flag at position `j` packs to the value the bit-field
   * metaclass gives member `j` with initial value 1, in either bit order.
   */
  lemma LoneFlagMatchesBitField(args: seq<bool>, j: nat, inFirstMsb: bool)
    requires j < |args| && forall k :: 0 <= k < |args| ==> (args[k] <==> k == j)
    ensures Bools2BitstrSpec(args, inFirstMsb) == BitFieldEnums.ShiftedValue(1, j, |args|, inFirstMsb)
  {
    var bs := if inFirstMsb then Reverse(args) else args;
    PackLsbSingle(bs, BitFieldEnums.ShiftOf(j, |args|, inFirstMsb));
  }
}
