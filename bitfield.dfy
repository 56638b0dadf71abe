/**
 * The `_BitFieldEnumMeta` metaclass of the allocator's interpreter
 * (Src/Allocator/Interpreter/dataclass.py): members given as keyword
 * arguments of a class definition are checked against the class's ALLOWED
 * names and written into the class dictionary, member `i` of `n` taking its
 * initial value shifted left by its position.
 */
module BitFieldEnums {
  import opened Common

  /** A keyword-argument value: an int (bools included), or anything else. */
  datatype KwValue = KInt(v: int) | KOther

  /** An entry of the class dictionary: something from the class body, or a member value. */
  datatype Item = BodyItem | MemberValue(v: int)

  /**
   * The shift of member `i` of `n`: `n - 1 - i` when the first member is the
   * most significant bit, `i` otherwise.
   */
  function ShiftOf(i: nat, n: nat, inFirstMsb: bool): nat
    requires i < n
  {
    if inFirstMsb then n - 1 - i else i
  }

  /** `initial_value << shift` on Python ints. */
  function ShiftedValue(initial: int, i: nat, n: nat, inFirstMsb: bool): int
    requires i < n
  {
    initial * Pow2(ShiftOf(i, n, inFirstMsb))
  }

  predicate DistinctNames(kwargs: seq<(string, KwValue)>) {
    forall i, j :: 0 <= i < j < |kwargs| ==> kwargs[i].0 != kwargs[j].0
  }

  /**
   * The first loop of `_process_member_defs`: every upper-cased keyword must
   * be an allowed name. With no ALLOWED set (`None`) the `in` test itself
   * raises TypeError.
   */
  function CheckAllowed(allowed: Option<set<string>>, kwargs: seq<(string, KwValue)>): (r: Option<PyError>)
    ensures r == None <==> kwargs == [] || (allowed.Some? && forall k :: 0 <= k < |kwargs| ==> Upper(kwargs[k].0) in allowed.value)
    ensures r.Some? ==> r.value == (if allowed.None? then TypeError else NameError)
  {
    if kwargs == [] then None
    else if allowed.None? then Some(TypeError)
    else if Upper(kwargs[0].0) !in allowed.value then Some(NameError)
    else CheckAllowed(allowed, kwargs[1..])
  }

  /**
   * The second loop of `_process_member_defs` from member `i` on: a non-int
   * value raises TypeError and a name already in the dictionary raises
   * NameError, each leaving the members written before it in place.
   */
  function WriteMembers(entries: map<string, Item>, kwargs: seq<(string, KwValue)>, i: nat, inFirstMsb: bool)
    : (Option<PyError>, map<string, Item>)
    requires i <= |kwargs|
    decreases |kwargs| - i
  {
    if i == |kwargs| then (None, entries)
    else
      var (name, value) := kwargs[i];
      if value.KOther? then (Some(TypeError), entries)
      else if name in entries then (Some(NameError), entries)
      else
        var e := entries[name := MemberValue(ShiftedValue(value.v, i, |kwargs|, inFirstMsb))];
        WriteMembers(e, kwargs, i + 1, inFirstMsb)
  }

  /** The whole of `_process_member_defs`: the outcome and the class dictionary afterwards. */
  function ProcessMemberDefsSpec(allowed: Option<set<string>>, entries: map<string, Item>,
                                 kwargs: seq<(string, KwValue)>, inFirstMsb: bool): (Option<PyError>, map<string, Item>)
  {
    match CheckAllowed(allowed, kwargs)
    case Some(e) => (Some(e), entries)
    case None => WriteMembers(entries, kwargs, 0, inFirstMsb)
  }

  /** An enum class dictionary being built by the metaclass. */
  class ClassDict {
    var entries: map<string, Item>

    constructor (body: map<string, Item>)
      ensures entries == body
    {
      entries := body;
    }

    /**
     * `_process_member_defs(allowed_names, clsdict, in_first_msb, **kwargs)`:
     * keyword names are distinct because they come from a dict.
     */
    method ProcessMemberDefs(allowed: Option<set<string>>, kwargs: seq<(string, KwValue)>, inFirstMsb: bool)
      returns (err: Option<PyError>)
      requires DistinctNames(kwargs)
      modifies this
      ensures (err, entries) == ProcessMemberDefsSpec(allowed, old(entries), kwargs, inFirstMsb)
    {
      var k := 0;
      while k < |kwargs|
        invariant 0 <= k <= |kwargs|
        invariant CheckAllowed(allowed, kwargs) == CheckAllowed(allowed, kwargs[k..])
        invariant entries == old(entries)
      {
        if allowed.None? {
          return Some(TypeError);
        }
        if Upper(kwargs[k].0) !in allowed.value {
          return Some(NameError);
        }
        assert kwargs[k..][1..] == kwargs[k + 1..];
        k := k + 1;
      }
      var n := |kwargs|;
      var i := 0;
      while i < n
        invariant 0 <= i <= n
        invariant WriteMembers(old(entries), kwargs, 0, inFirstMsb) == WriteMembers(entries, kwargs, i, inFirstMsb)
      {
        var (name, value) := kwargs[i];
        if value.KOther? {
          return Some(TypeError);
        }
        if name in entries {
          return Some(NameError);
        }
        var finalValue;
        if inFirstMsb {
          finalValue := value.v * Pow2(n - 1 - i);
        } else {
          finalValue := value.v * Pow2(i);
        }
        entries := entries[name := MemberValue(finalValue)];
        i := i + 1;
      }
      err := None;
    }
  }

  /** A disallowed name is reported before anything is written: the dictionary is unchanged. */
  lemma {:induction false} DisallowedLeavesDictUnchanged(allowed: set<string>, entries: map<string, Item>,
                                                         kwargs: seq<(string, KwValue)>, inFirstMsb: bool, k: nat)
    requires k < |kwargs| && Upper(kwargs[k].0) !in allowed
    ensures ProcessMemberDefsSpec(Some(allowed), entries, kwargs, inFirstMsb) == (Some(NameError), entries)
  {
  }

  /**
   * On success every keyword becomes a member holding its shifted initial
   * value, and every other entry of the dictionary is kept.
   */
  lemma {:induction false} WriteMembersResult(entries: map<string, Item>, kwargs: seq<(string, KwValue)>, i: nat, inFirstMsb: bool)
    requires i <= |kwargs| && DistinctNames(kwargs)
    requires WriteMembers(entries, kwargs, i, inFirstMsb).0 == None
    ensures var e := WriteMembers(entries, kwargs, i, inFirstMsb).1;
      && (forall j :: i <= j < |kwargs| ==>
            (kwargs[j].1.KInt? && kwargs[j].0 !in entries && kwargs[j].0 in e
             && e[kwargs[j].0] == MemberValue(ShiftedValue(kwargs[j].1.v, j, |kwargs|, inFirstMsb))))
      && (forall name :: name in entries ==> name in e && e[name] == entries[name])
      && (forall name :: name in e ==> name in entries || exists j :: i <= j < |kwargs| && kwargs[j].0 == name)
    decreases |kwargs| - i
  {
    if i < |kwargs| {
      var (name, value) := kwargs[i];
      var e1 := entries[name := MemberValue(ShiftedValue(value.v, i, |kwargs|, inFirstMsb))];
      WriteMembersResult(e1, kwargs, i + 1, inFirstMsb);
      forall j | i < j < |kwargs|
        ensures kwargs[j].0 !in entries
      {
        assert kwargs[j].0 !in e1;
      }
    }
  }

  /**
   * A successful run yields exactly the keywords as new members, with
   * member `j` of `n` holding `initial << (n - 1 - j)` when MSB-first and
   * `initial << j` otherwise.
   */
  lemma ProcessMemberDefsSuccess(allowed: Option<set<string>>, entries: map<string, Item>,
                                 kwargs: seq<(string, KwValue)>, inFirstMsb: bool)
    requires DistinctNames(kwargs)
    requires ProcessMemberDefsSpec(allowed, entries, kwargs, inFirstMsb).0 == None
    ensures var e := ProcessMemberDefsSpec(allowed, entries, kwargs, inFirstMsb).1;
      && (forall j :: 0 <= j < |kwargs| ==>
            (kwargs[j].1.KInt? && kwargs[j].0 in e
             && e[kwargs[j].0] == MemberValue(kwargs[j].1.v * Pow2(ShiftOf(j, |kwargs|, inFirstMsb)))))
      && (forall name :: name in entries ==> name in e && e[name] == entries[name])
      && (forall name :: name in e ==> name in entries || exists j :: 0 <= j < |kwargs| && kwargs[j].0 == name)
  {
    assert CheckAllowed(allowed, kwargs) == None;
    WriteMembersResult(entries, kwargs, 0, inFirstMsb);
  }

  /** A definition that stops the second loop: a non-int value, or a name the class body already has. */
  predicate Blocks(entries: map<string, Item>, kw: (string, KwValue)) {
    kw.1.KOther? || kw.0 in entries
  }

  /** The error raised when the second loop stops at definition `j` (none when it runs to the end). */
  function StopError(kwargs: seq<(string, KwValue)>, j: nat): Option<PyError>
    requires j <= |kwargs|
  {
    if j == |kwargs| then None
    else if kwargs[j].1.KOther? then Some(TypeError)
    else Some(NameError)
  }

  /**
   * `e` is `entries` with definitions `i` to `j - 1` written as members and
   * nothing else changed.
   */
  predicate MembersWritten(entries: map<string, Item>, e: map<string, Item>, kwargs: seq<(string, KwValue)>,
                           i: nat, j: nat, inFirstMsb: bool)
    requires i <= j <= |kwargs|
  {
    && (forall k :: i <= k < j ==>
          (kwargs[k].1.KInt? && kwargs[k].0 in e
           && e[kwargs[k].0] == MemberValue(ShiftedValue(kwargs[k].1.v, k, |kwargs|, inFirstMsb))))
    && (forall name :: name in entries ==> name in e && e[name] == entries[name])
    && (forall name :: name in e ==> name in entries || exists k :: i <= k < j && kwargs[k].0 == name)
  }

  /** The first definition from `i` on that blocks, or `|kwargs|` when none does. */
  function FirstBlocked(entries: map<string, Item>, kwargs: seq<(string, KwValue)>, i: nat): (j: nat)
    requires i <= |kwargs|
    ensures i <= j <= |kwargs|
    ensures forall k :: i <= k < j ==> !Blocks(entries, kwargs[k])
    ensures j < |kwargs| ==> Blocks(entries, kwargs[j])
    decreases |kwargs| - i
  {
    if i == |kwargs| || Blocks(entries, kwargs[i]) then i else FirstBlocked(entries, kwargs, i + 1)
  }

  /**
   * The second loop stops at the first definition that blocks, raising
   * TypeError for a non-int value and NameError for a name of the class
   * body, with every definition before it already written. Names written
   * by the loop itself never block a later one, since keyword names are
   * distinct.
   */
  lemma {:induction false} WriteMembersUpTo(entries: map<string, Item>, kwargs: seq<(string, KwValue)>,
                                            i: nat, j: nat, inFirstMsb: bool)
    requires DistinctNames(kwargs) && i <= j <= |kwargs|
    requires forall k :: i <= k < j ==> !Blocks(entries, kwargs[k])
    requires j < |kwargs| ==> Blocks(entries, kwargs[j])
    ensures var r := WriteMembers(entries, kwargs, i, inFirstMsb);
      r.0 == StopError(kwargs, j) && MembersWritten(entries, r.1, kwargs, i, j, inFirstMsb)
    decreases |kwargs| - i
  {
    if i < j {
      var (name, value) := kwargs[i];
      var e1 := entries[name := MemberValue(ShiftedValue(value.v, i, |kwargs|, inFirstMsb))];
      forall k | i + 1 <= k < j
        ensures !Blocks(e1, kwargs[k])
      {
        assert !Blocks(entries, kwargs[k]);
      }
      WriteMembersUpTo(e1, kwargs, i + 1, j, inFirstMsb);
      WrittenAfterFirst(entries, WriteMembers(e1, kwargs, i + 1, inFirstMsb).1, kwargs, i, j, inFirstMsb);
    }
  }

  /** Writing definition `i` and then `i + 1` to `j - 1` writes `i` to `j - 1`. */
  lemma WrittenAfterFirst(entries: map<string, Item>, e: map<string, Item>, kwargs: seq<(string, KwValue)>,
                          i: nat, j: nat, inFirstMsb: bool)
    requires i < j <= |kwargs| && kwargs[i].1.KInt? && kwargs[i].0 !in entries
    requires MembersWritten(entries[kwargs[i].0 := MemberValue(ShiftedValue(kwargs[i].1.v, i, |kwargs|, inFirstMsb))],
                            e, kwargs, i + 1, j, inFirstMsb)
    ensures MembersWritten(entries, e, kwargs, i, j, inFirstMsb)
  {
    forall name | name in e
      ensures name in entries || exists k :: i <= k < j && kwargs[k].0 == name
    {
      if name !in entries && name == kwargs[i].0 {
        assert kwargs[i].0 == name;
      }
    }
  }

  /**
   * Every outcome of `_process_member_defs`: a failed name check leaves the
   * dictionary unchanged; otherwise the first blocking definition decides
   * the error, and the definitions before it are written. It succeeds
   * exactly when every name is allowed, every value is an int and no name
   * is already in the class body.
   */
  lemma ProcessMemberDefsOutcome(allowed: Option<set<string>>, entries: map<string, Item>,
                                 kwargs: seq<(string, KwValue)>, inFirstMsb: bool)
    requires DistinctNames(kwargs)
    ensures var r := ProcessMemberDefsSpec(allowed, entries, kwargs, inFirstMsb);
      && (CheckAllowed(allowed, kwargs).Some? ==> r == (CheckAllowed(allowed, kwargs), entries))
      && (CheckAllowed(allowed, kwargs).None? ==>
            var j := FirstBlocked(entries, kwargs, 0);
            r.0 == StopError(kwargs, j) && MembersWritten(entries, r.1, kwargs, 0, j, inFirstMsb))
      && (r.0 == None <==> CheckAllowed(allowed, kwargs).None? && forall k :: 0 <= k < |kwargs| ==> !Blocks(entries, kwargs[k]))
  {
    var j := FirstBlocked(entries, kwargs, 0);
    WriteMembersUpTo(entries, kwargs, 0, j, inFirstMsb);
  }

  /**
   * `__new__` processes members MSB-first; with every initial value 1 the
   * members are distinct powers of two below `2^n`.
   */
  lemma AllOnesDistinctPowers(n: nat, i: nat, j: nat)
    requires i < n && j < n && i != j
    ensures ShiftedValue(1, i, n, true) != ShiftedValue(1, j, n, true)
    ensures 1 <= ShiftedValue(1, i, n, true) < Pow2(n)
  {
    Pow2Strict(ShiftOf(i, n, true), n);
    if ShiftOf(i, n, true) < ShiftOf(j, n, true) {
      Pow2Strict(ShiftOf(i, n, true), ShiftOf(j, n, true));
    } else {
      Pow2Strict(ShiftOf(j, n, true), ShiftOf(i, n, true));
    }
  }

  lemma {:induction false} Pow2Strict(a: nat, b: nat)
    requires a < b
    ensures Pow2(a) < Pow2(b)
  {
    if a < b - 1 {
      Pow2Strict(a, b - 1);
    }
  }
}
