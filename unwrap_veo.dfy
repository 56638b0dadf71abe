/**
 * The `.veo` unwrapper (Src/Scripts/unwrap_veo.py and its copy
 * Src/RTL/Scripts/unwrap_veo.py, identical in everything modelled here):
 * the two argument validators, the module-name stripping, and the
 * serialisation of the port records read from a Vivado instantiation
 * template into a wrapper module with one declaration line per group of
 * ports sharing a direction and the presence of a packed range.
 */
module UnwrapVeo {
  import opened Common

  // ------------------------------------------------ argument validators

  /** `veo(v)`: the module argument must end in ".veo". */
  function Veo(v: string): (r: Result<string>)
    ensures r.Ok? <==> EndsWith(v, ".veo")
    ensures r.Ok? ==> r.value == v
    ensures r.Err? ==> r.error == ArgumentTypeError
  {
    if !EndsWith(v, ".veo") then Err(ArgumentTypeError) else Ok(v)
  }

  /**
   * `re.match(r'.*\.', v)`: without DOTALL, `.` stops at a newline, so this
   * holds when a '.' occurs before the first newline.
   */
  predicate DotBeforeNewline(v: string) {
    v != "" && v[0] != '\n' && (v[0] == '.' || DotBeforeNewline(v[1..]))
  }

  /** The regular expression finds a '.' preceded by no newline, and only then. */
  lemma {:induction false} DotBeforeNewlineMeaning(v: string)
    ensures DotBeforeNewline(v) <==> exists i :: 0 <= i < |v| && v[i] == '.' && '\n' !in v[..i]
  {
    if v != "" && v[0] != '\n' && v[0] != '.' {
      DotBeforeNewlineMeaning(v[1..]);
      if DotBeforeNewline(v) {
        var i :| 0 <= i < |v[1..]| && v[1..][i] == '.' && '\n' !in v[1..][..i];
        assert v[..i + 1] == [v[0]] + v[1..][..i];
        assert v[i + 1] == '.';
      }
      if exists i :: 0 <= i < |v| && v[i] == '.' && '\n' !in v[..i] {
        var i :| 0 <= i < |v| && v[i] == '.' && '\n' !in v[..i];
        assert i > 0;
        assert v[1..][..i - 1] == v[1..i];
        assert v[1..][i - 1] == '.';
      }
    } else if v != "" && v[0] == '\n' {
      forall i | 0 <= i < |v| && v[i] == '.'
        ensures '\n' in v[..i]
      {
        assert v[..i][0] == '\n';
      }
    } else if v != "" {
      assert v[..0] == "";
    }
  }

  /**
   * `out(v)`: a name with a '.' must be a .sv or .v file and is a file target
   * (`False`); any other name is a directory target (`True`).
   */
  function Out(v: string): (r: Result<(bool, string)>)
    ensures r.Ok? ==> r.value.1 == v
    ensures r.Ok? && r.value.0 <==> !DotBeforeNewline(v)
    ensures r.Err? <==> DotBeforeNewline(v) && !EndsWith(v, ".sv") && !EndsWith(v, ".v")
    ensures r.Err? ==> r.error == ArgumentTypeError
  {
    if DotBeforeNewline(v) then
      if !EndsWith(v, ".sv") && !EndsWith(v, ".v") then Err(ArgumentTypeError)
      else Ok((false, v))
    else Ok((true, v))
  }

  /**
   * On a single line, a target is a directory exactly when it holds no '.',
   * and an accepted file target names a .sv or .v file.
   */
  lemma OutOnOneLine(v: string)
    requires '\n' !in v
    ensures Out(v).Ok? && Out(v).value.0 <==> '.' !in v
    ensures Out(v).Ok? && !Out(v).value.0 ==> EndsWith(v, ".sv") || EndsWith(v, ".v")
  {
    DotBeforeNewlineMeaning(v);
    if '.' in v {
      var i :| 0 <= i < |v| && v[i] == '.';
      assert '\n' !in v[..i];
    }
  }

  /** A '.' after a newline is not seen: such a name is taken for a directory. */
  lemma OutMissesDotAfterNewline()
    ensures Out("out\nx.sv") == Ok((true, "out\nx.sv"))
  {
    assert "out\nx.sv"[1..] == "ut\nx.sv";
    assert "ut\nx.sv"[1..] == "t\nx.sv";
    assert "t\nx.sv"[1..] == "\nx.sv";
  }

  // ------------------------------------------------ module name

  /** The characters `str.strip('.veo')` removes from both ends. */
  const VeoChars: set<char> := {'.', 'v', 'e', 'o'}

  /** `str(args['n']).strip('.veo')`: the name the wrapper module and its output file get. */
  function ModuleStem(n: string): string {
    StripSet(n, VeoChars)
  }

  /**
   * The stem is what is left after dropping every leading and trailing '.',
   * 'v', 'e' and 'o' — a character set, not the ".veo" suffix.
   */
  lemma ModuleStemStripsCharacters(n: string)
    ensures var r := ModuleStem(n);
      && (r == "" || (r[0] !in VeoChars && r[|r| - 1] !in VeoChars))
      && exists pre, post :: n == pre + r + post && AllIn(pre, VeoChars) && AllIn(post, VeoChars)
  {
    StripSetEnds(n, VeoChars);
    var l := LStripSet(n, VeoChars);
    var r := RStripSet(l, VeoChars);
    LStripSetSuffix(n, VeoChars);
    RStripSetPrefix(l, VeoChars);
    LStripSetDropped(n, VeoChars);
    RStripSetDropped(l, VeoChars);
    var pre, post := n[..|n| - |l|], l[|r|..];
    assert n == pre + r + post;
  }

  /** The stripping eats into the name itself: "video.veo" names a module "id". */
  lemma ModuleStemOverStrips()
    ensures ModuleStem("video.veo") == "id"
  {
    var s0, s1 := "video.veo", "ideo.veo";
    assert s0[0] in VeoChars && s0[1..] == s1 && s1[0] !in VeoChars;
    assert LStripSet(s1, VeoChars) == s1;
    assert LStripSet(s0, VeoChars) == s1;
    TrailingVeoStripped();
  }

  /** The right strip of "ideo.veo" eats back to the 'd'. */
  lemma TrailingVeoStripped()
    ensures RStripSet("ideo.veo", VeoChars) == "id"
  {
    var w := "eo.veo";
    assert "ideo.veo" == "id" + w;
    assert forall k :: 0 <= k < |w| ==> w[k] in VeoChars;
    RStripSetOff("id", w, VeoChars);
  }

  // ------------------------------------------------ port records

  /**
   * One port annotation as the port regular expression splits it: each
   * optional group is `None` when it did not take part in the match.
   */
  datatype Port = Port(dir: string, qual: Option<string>, dtype: string, signed: Option<string>,
                       msb: Option<string>, lsb: Option<string>, name: string)

  /** The grouping key `(p['dir'], bool(p['msb']))`. */
  datatype SortKey = SortKey(dir: string, vector: bool)

  function KeyOf(p: Port): SortKey {
    SortKey(p.dir, p.msb.Some? && p.msb.value != "")
  }

  /** Python's `<` on `str`: lexicographic by code point. */
  predicate StrLess(a: string, b: string) {
    if a == "" then b != ""
    else if b == "" then false
    else if a[0] != b[0] then a[0] < b[0]
    else StrLess(a[1..], b[1..])
  }

  lemma {:induction false} StrLessIrreflexive(a: string)
    ensures !StrLess(a, a)
  {
    if a != "" {
      StrLessIrreflexive(a[1..]);
    }
  }

  lemma {:induction false} StrLessTransitive(a: string, b: string, c: string)
    requires StrLess(a, b) && StrLess(b, c)
    ensures StrLess(a, c)
  {
    if a != "" && a[0] == b[0] && b[0] == c[0] {
      StrLessTransitive(a[1..], b[1..], c[1..]);
    }
  }

  lemma {:induction false} StrLessTotal(a: string, b: string)
    ensures a == b || StrLess(a, b) || StrLess(b, a)
  {
    if a != "" && b != "" && a[0] == b[0] {
      StrLessTotal(a[1..], b[1..]);
      assert a == [a[0]] + a[1..] && b == [b[0]] + b[1..];
    }
  }

  /** Python's `<` on the key tuples: by direction text, then `False < True`. */
  predicate KeyLess(a: SortKey, b: SortKey) {
    StrLess(a.dir, b.dir) || (a.dir == b.dir && !a.vector && b.vector)
  }

  predicate KeyLeq(a: SortKey, b: SortKey) {
    !KeyLess(b, a)
  }

  /** The key order is a strict total order. */
  lemma KeyOrder(a: SortKey, b: SortKey, c: SortKey)
    ensures !KeyLess(a, a)
    ensures KeyLess(a, b) && KeyLess(b, c) ==> KeyLess(a, c)
    ensures a == b || KeyLess(a, b) || KeyLess(b, a)
  {
    StrLessIrreflexive(a.dir);
    StrLessTotal(a.dir, b.dir);
    if StrLess(a.dir, b.dir) && StrLess(b.dir, c.dir) {
      StrLessTransitive(a.dir, b.dir, c.dir);
    }
  }

  lemma KeyLeqTransitive(a: SortKey, b: SortKey, c: SortKey)
    requires KeyLeq(a, b) && KeyLeq(b, c)
    ensures KeyLeq(a, c)
  {
    KeyOrder(a, b, c);
    KeyOrder(c, a, b);
  }

  lemma KeyLessLeq(a: SortKey, b: SortKey, c: SortKey)
    requires KeyLess(a, b) && KeyLeq(b, c)
    ensures KeyLess(a, c)
  {
    KeyOrder(a, b, c);
    KeyOrder(b, c, a);
    KeyOrder(c, a, b);
  }

  // ------------------------------------------------ sorted(ports, key=_key)

  predicate SortedByKey(s: seq<Port>) {
    forall i, j :: 0 <= i < j < |s| ==> KeyLeq(KeyOf(s[i]), KeyOf(s[j]))
  }

  /** The ports of `s` whose key is `k`, in their order in `s`. */
  function OfKey(s: seq<Port>, k: SortKey): seq<Port> {
    if s == [] then [] else (if KeyOf(s[0]) == k then [s[0]] else []) + OfKey(s[1..], k)
  }

  /** Put `p` before the first port whose key is not below its own. */
  function Insert(p: Port, s: seq<Port>): seq<Port> {
    if s == [] then [p]
    else if KeyLess(KeyOf(s[0]), KeyOf(p)) then [s[0]] + Insert(p, s[1..])
    else [p] + s
  }

  /**
   * `sorted(ports, key=_key)`. Python's sort is stable, and a stable sort's
   * result is fixed by the keys, so insertion sort gives the same list.
   */
  function SortByKey(s: seq<Port>): seq<Port> {
    if s == [] then [] else Insert(s[0], SortByKey(s[1..]))
  }

  lemma {:induction false} InsertKeepsPorts(p: Port, s: seq<Port>)
    ensures multiset(Insert(p, s)) == multiset([p] + s)
  {
    if s != [] && KeyLess(KeyOf(s[0]), KeyOf(p)) {
      InsertKeepsPorts(p, s[1..]);
      assert s == [s[0]] + s[1..];
    }
  }

  lemma {:induction false} InsertKeepsKeyOrder(p: Port, s: seq<Port>, k: SortKey)
    ensures OfKey(Insert(p, s), k) == (if KeyOf(p) == k then [p] else []) + OfKey(s, k)
  {
    if s == [] {
      return;
    }
    var q := s[0];
    if KeyLess(KeyOf(q), KeyOf(p)) {
      var ins := Insert(p, s[1..]);
      InsertKeepsKeyOrder(p, s[1..], k);
      var r := [q] + ins;
      assert r[0] == q && r[1..] == ins;
      KeyOrder(KeyOf(q), KeyOf(p), KeyOf(q));
    } else {
      var r := [p] + s;
      assert r[0] == p && r[1..] == s;
    }
  }

  lemma SortedTail(s: seq<Port>)
    requires s != [] && SortedByKey(s)
    ensures SortedByKey(s[1..])
  {
    forall i, j | 0 <= i < j < |s[1..]|
      ensures KeyLeq(KeyOf(s[1..][i]), KeyOf(s[1..][j]))
    {
      assert s[1..][i] == s[i + 1] && s[1..][j] == s[j + 1];
    }
  }

  lemma SortedHeadBelow(s: seq<Port>)
    requires s != [] && SortedByKey(s)
    ensures forall j :: 0 <= j < |s[1..]| ==> KeyLeq(KeyOf(s[0]), KeyOf(s[1..][j]))
  {
    forall j | 0 <= j < |s[1..]|
      ensures KeyLeq(KeyOf(s[0]), KeyOf(s[1..][j]))
    {
      assert s[1..][j] == s[j + 1];
    }
  }

  lemma SortedCons(q: Port, t: seq<Port>)
    requires SortedByKey(t)
    requires forall j :: 0 <= j < |t| ==> KeyLeq(KeyOf(q), KeyOf(t[j]))
    ensures SortedByKey([q] + t)
  {
    var r := [q] + t;
    forall i, j | 0 <= i < j < |r|
      ensures KeyLeq(KeyOf(r[i]), KeyOf(r[j]))
    {
      assert r[j] == t[j - 1];
      if i > 0 {
        assert r[i] == t[i - 1];
      }
    }
  }

  /** A port not above any of `t` nor above `p` is not above any of `Insert(p, t)`. */
  lemma InsertStaysAbove(q: Port, p: Port, t: seq<Port>)
    requires KeyLess(KeyOf(q), KeyOf(p))
    requires forall j :: 0 <= j < |t| ==> KeyLeq(KeyOf(q), KeyOf(t[j]))
    ensures forall j :: 0 <= j < |Insert(p, t)| ==> KeyLeq(KeyOf(q), KeyOf(Insert(p, t)[j]))
  {
    var ins := Insert(p, t);
    InsertKeepsPorts(p, t);
    forall j | 0 <= j < |ins|
      ensures KeyLeq(KeyOf(q), KeyOf(ins[j]))
    {
      assert ins[j] in multiset([p] + t);
      if ins[j] == p {
        KeyOrder(KeyOf(q), KeyOf(p), KeyOf(q));
      } else {
        assert ins[j] in t;
        var m :| 0 <= m < |t| && t[m] == ins[j];
      }
    }
  }

  /** A port not below the first of sorted ports is not below any of them. */
  lemma BelowSortedHead(p: Port, s: seq<Port>)
    requires s != [] && SortedByKey(s) && KeyLeq(KeyOf(p), KeyOf(s[0]))
    ensures forall j :: 0 <= j < |s| ==> KeyLeq(KeyOf(p), KeyOf(s[j]))
  {
    forall j | 0 < j < |s|
      ensures KeyLeq(KeyOf(p), KeyOf(s[j]))
    {
      KeyLeqTransitive(KeyOf(p), KeyOf(s[0]), KeyOf(s[j]));
    }
  }

  lemma {:induction false} InsertIntoSorted(p: Port, s: seq<Port>)
    requires SortedByKey(s)
    ensures SortedByKey(Insert(p, s))
  {
    if s == [] {
      return;
    }
    var q := s[0];
    if KeyLess(KeyOf(q), KeyOf(p)) {
      SortedTail(s);
      SortedHeadBelow(s);
      InsertIntoSorted(p, s[1..]);
      InsertStaysAbove(q, p, s[1..]);
      SortedCons(q, Insert(p, s[1..]));
    } else {
      BelowSortedHead(p, s);
      SortedCons(p, s);
    }
  }

  /**
   * The sort orders the ports by key, keeps every port, and keeps the ports
   * of each key in their original order (stability).
   */
  lemma {:induction false} SortByKeyIsStableSort(s: seq<Port>)
    ensures SortedByKey(SortByKey(s))
    ensures multiset(SortByKey(s)) == multiset(s)
    ensures forall k :: OfKey(SortByKey(s), k) == OfKey(s, k)
  {
    if s != [] {
      SortByKeyIsStableSort(s[1..]);
      InsertIntoSorted(s[0], SortByKey(s[1..]));
      InsertKeepsPorts(s[0], SortByKey(s[1..]));
      forall k
        ensures OfKey(SortByKey(s), k) == OfKey(s, k)
      {
        InsertKeepsKeyOrder(s[0], SortByKey(s[1..]), k);
      }
      assert s == [s[0]] + s[1..];
    }
  }

  // ------------------------------------------------ itertools.groupby

  function Flatten(gs: seq<seq<Port>>): seq<Port> {
    if gs == [] then [] else gs[0] + Flatten(gs[1..])
  }

  /**
   * `gs` are the maximal runs of `s`: non-empty, one key each, neighbouring
   * runs with different keys, together spelling out `s`.
   */
  predicate IsGrouping(gs: seq<seq<Port>>, s: seq<Port>) {
    && (|gs| == 0 <==> |s| == 0)
    && (|gs| > 0 ==> |gs[0]| > 0 && gs[0][0] == s[0])
    && (forall i :: 0 <= i < |gs| ==> |gs[i]| > 0)
    && (forall i, j :: 0 <= i < |gs| && 0 <= j < |gs[i]| ==> KeyOf(gs[i][j]) == KeyOf(gs[i][0]))
    && (forall i :: 0 < i < |gs| ==> KeyOf(gs[i][0]) != KeyOf(gs[i - 1][0]))
    && Flatten(gs) == s
  }

  /**
   * `itertools.groupby(s, _key)`: the maximal runs of consecutive ports with
   * equal keys. The runs are non-empty, each has one key, neighbouring runs
   * have different keys, and together they spell out `s`.
   */
  function GroupBy(s: seq<Port>): (gs: seq<seq<Port>>)
    ensures |gs| == 0 <==> |s| == 0
    ensures |gs| > 0 ==> |gs[0]| > 0 && gs[0][0] == s[0]
    ensures forall i :: 0 <= i < |gs| ==> |gs[i]| > 0
    ensures forall i, j :: 0 <= i < |gs| && 0 <= j < |gs[i]| ==> KeyOf(gs[i][j]) == KeyOf(gs[i][0])
    ensures forall i :: 0 < i < |gs| ==> KeyOf(gs[i][0]) != KeyOf(gs[i - 1][0])
    ensures Flatten(gs) == s
  {
    if s == [] then []
    else
      var rest := GroupBy(s[1..]);
      if rest != [] && KeyOf(rest[0][0]) == KeyOf(s[0]) then
        var gs := [[s[0]] + rest[0]] + rest[1..];
        GroupingExtendRun(s, rest);
        gs
      else
        var gs := [[s[0]]] + rest;
        GroupingNewRun(s, rest);
        gs
  }

  /** A port with the key of the first run joins that run. */
  lemma GroupingExtendRun(s: seq<Port>, rest: seq<seq<Port>>)
    requires |s| > 0 && IsGrouping(rest, s[1..])
    requires rest != [] && KeyOf(rest[0][0]) == KeyOf(s[0])
    ensures IsGrouping([[s[0]] + rest[0]] + rest[1..], s)
  {
    var gs := [[s[0]] + rest[0]] + rest[1..];
    assert forall i :: 0 < i < |gs| ==> gs[i] == rest[i];
    assert gs[1..] == rest[1..] && rest == [rest[0]] + rest[1..];
    assert Flatten(gs) == [s[0]] + Flatten(rest);
    assert s == [s[0]] + s[1..];
  }

  /** A port with another key than the first run starts a run of its own. */
  lemma GroupingNewRun(s: seq<Port>, rest: seq<seq<Port>>)
    requires |s| > 0 && IsGrouping(rest, s[1..])
    requires !(rest != [] && KeyOf(rest[0][0]) == KeyOf(s[0]))
    ensures IsGrouping([[s[0]]] + rest, s)
  {
    var gs := [[s[0]]] + rest;
    assert gs[1..] == rest;
    assert s == [s[0]] + s[1..];
  }

  lemma {:induction false} OfKeyAbsent(s: seq<Port>, k: SortKey)
    requires forall j :: 0 <= j < |s| ==> KeyOf(s[j]) != k
    ensures OfKey(s, k) == []
  {
    if s != [] {
      OfKeyAbsent(s[1..], k);
    }
  }

  /**
   * The groups `gs` have strictly increasing keys, and each one is all the
   * ports of `s` with its key, in order.
   */
  predicate KeyClasses(gs: seq<seq<Port>>, s: seq<Port>) {
    && (forall i :: 0 <= i < |gs| ==> |gs[i]| > 0)
    && (forall i, j :: 0 <= i < j < |gs| ==> KeyLess(KeyOf(gs[i][0]), KeyOf(gs[j][0])))
    && (forall i :: 0 <= i < |gs| ==> gs[i] == OfKey(s, KeyOf(gs[i][0])))
  }

  /**
   * On sorted ports the runs have strictly increasing keys, so each run is
   * the whole class of ports with its key, in order.
   */
  lemma {:induction false} SortedGroupsAreKeyClasses(s: seq<Port>)
    requires SortedByKey(s)
    ensures KeyClasses(GroupBy(s), s)
  {
    if s == [] {
      return;
    }
    var x, t := s[0], s[1..];
    SortedTail(s);
    SortedGroupsAreKeyClasses(t);
    var rest := GroupBy(t);
    if rest != [] && KeyOf(rest[0][0]) == KeyOf(x) {
      MergedGroupsAreKeyClasses(x, t, rest);
      assert GroupBy(s) == [[x] + rest[0]] + rest[1..];
      assert s == [x] + t;
    } else {
      var kx := KeyOf(x);
      KeyOrder(kx, kx, kx);
      if rest != [] {
        assert rest[0][0] == t[0] && t[0] == s[1];
        KeyOrder(kx, KeyOf(t[0]), kx);
        SortedTailAbove(s);
      }
      OfKeyAbsent(t, kx);
      NewGroupsAreKeyClasses(x, t, rest);
      assert GroupBy(s) == [[x]] + rest;
      assert s == [x] + t;
    }
  }

  /** With a sorted tail, a port below the tail's first key is below all of the tail. */
  lemma SortedTailAbove(s: seq<Port>)
    requires |s| > 1 && SortedByKey(s) && KeyLess(KeyOf(s[0]), KeyOf(s[1]))
    ensures forall j :: 0 <= j < |s[1..]| ==> KeyLess(KeyOf(s[0]), KeyOf(s[1..][j]))
  {
    forall j | 0 <= j < |s[1..]|
      ensures KeyLess(KeyOf(s[0]), KeyOf(s[1..][j]))
    {
      assert s[1..][j] == s[j + 1];
      if j > 0 {
        assert KeyLeq(KeyOf(s[1]), KeyOf(s[j + 1]));
        KeyLessLeq(KeyOf(s[0]), KeyOf(s[1]), KeyOf(s[j + 1]));
      }
    }
  }

  /**
   * The step of `SortedGroupsAreKeyClasses` where the first port `x` starts a
   * group of its own, below every later group.
   */
  lemma NewGroupsAreKeyClasses(x: Port, t: seq<Port>, rest: seq<seq<Port>>)
    requires KeyClasses(rest, t)
    requires rest != [] ==> KeyLess(KeyOf(x), KeyOf(rest[0][0]))
    requires OfKey(t, KeyOf(x)) == []
    ensures KeyClasses([[x]] + rest, [x] + t)
  {
    var kx := KeyOf(x);
    var gs := [[x]] + rest;
    assert ([x] + t)[1..] == t;
    forall i, j | 0 <= i < j < |gs|
      ensures KeyLess(KeyOf(gs[i][0]), KeyOf(gs[j][0]))
    {
      assert gs[j] == rest[j - 1];
      if i > 0 {
        assert gs[i] == rest[i - 1];
      } else if j > 1 {
        KeyOrder(kx, KeyOf(rest[0][0]), KeyOf(rest[j - 1][0]));
      }
    }
    forall i | 0 <= i < |gs|
      ensures gs[i] == OfKey([x] + t, KeyOf(gs[i][0]))
    {
      if i > 0 {
        var ki := KeyOf(rest[i - 1][0]);
        assert gs[i] == rest[i - 1];
        if i > 1 {
          KeyOrder(kx, KeyOf(rest[0][0]), ki);
        }
        KeyOrder(kx, ki, kx);
        assert OfKey([x] + t, ki) == OfKey(t, ki);
      } else {
        assert OfKey([x] + t, kx) == [x] + OfKey(t, kx);
      }
    }
  }

  lemma MergedGroupsAreKeyClasses(x: Port, t: seq<Port>, rest: seq<seq<Port>>)
    requires KeyClasses(rest, t) && rest != [] && KeyOf(rest[0][0]) == KeyOf(x)
    ensures KeyClasses([[x] + rest[0]] + rest[1..], [x] + t)
  {
    var kx := KeyOf(x);
    var gs := [[x] + rest[0]] + rest[1..];
    assert ([x] + t)[1..] == t;
    assert gs[0][0] == x;
    forall i, j | 0 <= i < j < |gs|
      ensures KeyLess(KeyOf(gs[i][0]), KeyOf(gs[j][0]))
    {
      assert gs[j] == rest[j];
      if i > 0 {
        assert gs[i] == rest[i];
      } else {
        assert KeyLess(KeyOf(rest[0][0]), KeyOf(rest[j][0]));
      }
    }
    forall i | 0 <= i < |gs|
      ensures gs[i] == OfKey([x] + t, KeyOf(gs[i][0]))
    {
      if i > 0 {
        var ki := KeyOf(rest[i][0]);
        assert gs[i] == rest[i];
        assert KeyLess(kx, ki);
        KeyOrder(kx, ki, kx);
        assert OfKey([x] + t, ki) == OfKey(t, ki);
      } else {
        assert OfKey([x] + t, kx) == [x] + OfKey(t, kx);
      }
    }
  }

  /** `groupby(sorted(ports, key=_key), _key)`. */
  function Groups(ports: seq<Port>): (gs: seq<seq<Port>>)
    ensures forall i :: 0 <= i < |gs| ==> |gs[i]| > 0
  {
    GroupBy(SortByKey(ports))
  }

  /**
   * One declaration line per key present among the ports, in increasing key
   * order; each line's group is exactly the ports with that key in their
   * original order; and every port lands in exactly one group.
   */
  lemma DeclarationGroups(ports: seq<Port>)
    ensures var gs := Groups(ports);
      && (forall i, j :: 0 <= i < j < |gs| ==> KeyLess(KeyOf(gs[i][0]), KeyOf(gs[j][0])))
      && (forall i :: 0 <= i < |gs| ==> gs[i] == OfKey(ports, KeyOf(gs[i][0])))
      && multiset(Flatten(gs)) == multiset(ports)
  {
    var sorted := SortByKey(ports);
    var gs := Groups(ports);
    SortByKeyIsStableSort(ports);
    SortedGroupsAreKeyClasses(sorted);
    assert gs == GroupBy(sorted) && Flatten(gs) == sorted;
    forall i | 0 <= i < |gs|
      ensures gs[i] == OfKey(ports, KeyOf(gs[i][0]))
    {
      assert gs[i] == OfKey(sorted, KeyOf(gs[i][0]));
    }
  }

  // ------------------------------------------------ declaration lines

  /** A field of `g0`: stripped when present, a single space when missing. */
  function Field(v: Option<string>): string {
    if v.None? then " " else Strip(v.value)
  }

  /** `packed_vec`: "[msb:lsb] " unless the msb field rendered as a space. */
  function PackedRange(p: Port): string {
    if Field(p.msb) != " " then "[" + Field(p.msb) + ":" + Field(p.lsb) + "] " else ""
  }

  /** The type part of a group's line, taken from its first port. */
  function Declaration(p: Port): string {
    Strip(p.dir) + Field(p.qual) + Strip(p.dtype) + Field(p.signed) + PackedRange(p)
  }

  /**
   * A packed range is written exactly when the port has an msb, since a
   * stripped field is never a lone space.
   */
  lemma PackedRangeIffMsb(p: Port)
    ensures PackedRange(p) != "" <==> p.msb.Some?
    ensures p.msb.Some? ==> PackedRange(p) == "[" + Strip(p.msb.value) + ":" + Field(p.lsb) + "] "
  {
    if p.msb.Some? {
      StripSetEnds(p.msb.value, Whitespace);
      assert Field(p.msb) != " " by {
        if Field(p.msb) != "" {
          assert Field(p.msb)[0] != ' ';
        }
      }
    }
  }

  /** A string with no surrounding whitespace is its own `strip()`. */
  lemma StripUnchanged(s: string)
    requires s != "" && s[0] !in Whitespace && s[|s| - 1] !in Whitespace
    ensures Strip(s) == s
  {
    assert LStripSet(s, Whitespace) == s;
  }

  lemma StripTrailingSpace(s: string)
    requires s != "" && s[0] !in Whitespace && s[|s| - 1] !in Whitespace
    ensures Strip(s + " ") == s
  {
    assert (s + " ")[0] == s[0];
    assert LStripSet(s + " ", Whitespace) == s + " ";
    assert (s + " ")[..|s|] == s;
    assert RStripSet(s, Whitespace) == s;
  }

  /**
   * Missing qualifier and sign render as single spaces between direction and
   * type; a present msb adds the packed range.
   */
  lemma PlainPortDeclaration(dir: string, dtype: string, msb: string, lsb: string, name: string)
    requires dir != "" && dir[0] !in Whitespace && dir[|dir| - 1] !in Whitespace
    requires dtype != "" && dtype[0] !in Whitespace && dtype[|dtype| - 1] !in Whitespace
    requires msb != "" && msb[0] !in Whitespace && msb[|msb| - 1] !in Whitespace
    requires lsb != "" && lsb[0] !in Whitespace && lsb[|lsb| - 1] !in Whitespace
    ensures Declaration(Port(dir, None, dtype, None, Some(msb), Some(lsb), name))
         == dir + " " + dtype + " " + "[" + msb + ":" + lsb + "] "
  {
    var p := Port(dir, None, dtype, None, Some(msb), Some(lsb), name);
    StripUnchanged(dir);
    StripUnchanged(dtype);
    StripUnchanged(msb);
    StripUnchanged(lsb);
    PackedRangeIffMsb(p);
    assert PackedRange(p) == "[" + msb + ":" + lsb + "] ";
    assert Declaration(p) == dir + " " + dtype + " " + PackedRange(p);
  }

  /**
   * A qualifier or sign that is present is stripped and glued to its
   * neighbours; without an msb no packed range follows.
   */
  lemma PresentQualifierIsGlued(dir: string, qual: string, dtype: string, signed: string, name: string)
    requires dir != "" && dir[0] !in Whitespace && dir[|dir| - 1] !in Whitespace
    requires qual != "" && qual[0] !in Whitespace && qual[|qual| - 1] !in Whitespace
    requires dtype != "" && dtype[0] !in Whitespace && dtype[|dtype| - 1] !in Whitespace
    requires signed != "" && signed[0] !in Whitespace && signed[|signed| - 1] !in Whitespace
    ensures Declaration(Port(dir, Some(qual + " "), dtype, Some(signed), None, None, name))
         == dir + qual + dtype + signed
  {
    var p := Port(dir, Some(qual + " "), dtype, Some(signed), None, None, name);
    StripUnchanged(dir);
    StripTrailingSpace(qual);
    StripUnchanged(dtype);
    StripUnchanged(signed);
    PackedRangeIffMsb(p);
  }

  /** `', '.join(names)`. */
  function JoinNames(names: seq<string>): string {
    if |names| == 0 then ""
    else if |names| == 1 then names[0]
    else names[0] + ", " + JoinNames(names[1..])
  }

  /** The names of a group: the first one stripped with the rest of `g0`, the others as matched. */
  function NameList(g: seq<Port>): (r: seq<string>)
    requires |g| > 0
    ensures |r| == |g| && r[0] == Strip(g[0].name)
    ensures forall k :: 0 < k < |g| ==> r[k] == g[k].name
  {
    [Strip(g[0].name)] + seq(|g| - 1, k requires 0 <= k < |g| - 1 => g[k + 1].name)
  }

  /** `''.join(params)` for one group. */
  function GroupLine(g: seq<Port>): string
    requires |g| > 0
  {
    "\t" + Declaration(g[0]) + JoinNames(NameList(g)) + ","
  }

  /** Every group has a first port. */
  predicate NonEmptyGroups(gs: seq<seq<Port>>) {
    forall i :: 0 <= i < |gs| ==> |gs[i]| > 0
  }

  /** The lines of the groups, in order. */
  function GroupLines(gs: seq<seq<Port>>): (r: seq<string>)
    requires NonEmptyGroups(gs)
    ensures |r| == |gs|
  {
    if gs == [] then [] else GroupLines(gs[..|gs| - 1]) + [GroupLine(gs[|gs| - 1])]
  }

  /** `''.join(s.rsplit(',', 1))`: drop the last comma, if there is one. */
  function RemoveLastComma(s: string): string {
    var i := RFind(s, ',');
    if i < 0 then s else s[..i] + s[i + 1..]
  }

  /**
   * Without a comma the text is unchanged; otherwise exactly one comma goes,
   * the one after which no comma follows.
   */
  lemma RemoveLastCommaMeaning(s: string)
    ensures ',' !in s ==> RemoveLastComma(s) == s
    ensures ',' in s ==> var i := RFind(s, ',');
      && 0 <= i < |s| && s[i] == ',' && ',' !in s[i + 1..]
      && RemoveLastComma(s) == s[..i] + s[i + 1..]
  {
    var i := RFind(s, ',');
    if i >= 0 {
      var tail := s[i + 1..];
      forall x | x in tail
        ensures x != ','
      {
        var k :| 0 <= k < |tail| && tail[k] == x;
        assert x == s[i + 1 + k];
      }
    } else {
      forall k | 0 <= k < |s|
        ensures s[k] != ','
      {
      }
    }
  }

  /** The comma removed from `a + b` is `a`'s last character when `b` has none. */
  lemma RemoveLastCommaAtJoin(a: string, b: string)
    requires |a| > 0 && a[|a| - 1] == ','
    requires ',' !in b
    ensures RemoveLastComma(a + b) == a[..|a| - 1] + b
  {
    var s := a + b;
    var i := RFind(s, ',');
    assert s[|a| - 1] == ',';
    forall k | |a| <= k < |s|
      ensures s[k] != ','
    {
      assert s[k] == b[k - |a|];
    }
    assert i == |a| - 1;
    assert s[i + 1..] == b;
  }

  /**
   * The text `main` builds around the declaration `lines`: the module line,
   * the lines, ");" and "\nendmodule\n", joined by newlines, with the last
   * comma removed.
   */
  function Assemble(stem: string, lines: seq<string>): string {
    RemoveLastComma(Join(["module " + stem + " ("] + lines + [");", "\nendmodule\n"], '\n'))
  }

  /** The text written to the output file. */
  function UnwrappedText(stem: string, ports: seq<Port>): string {
    Assemble(stem, GroupLines(Groups(ports)))
  }

  /** What follows the last declaration line: ");" and "endmodule" after a blank line. */
  const Closing: string := "\n);\n\nendmodule\n"

  lemma ClosingLines()
    ensures "\n" + Join([");", "\nendmodule\n"], '\n') == Closing
  {
    assert [");", "\nendmodule\n"][1..] == ["\nendmodule\n"];
  }

  lemma ClosingHasNoComma()
    ensures ',' !in Closing
  {
    forall k | 0 <= k < |Closing|
      ensures Closing[k] != ','
    {
    }
  }

  /**
   * When the last declaration line ends in a comma, that comma is the one
   * removed: the text is the module line and the declaration lines, minus
   * that comma, then ");" and "endmodule" after a blank line.
   */
  lemma AssembledText(stem: string, lines: seq<string>)
    requires |lines| > 0 && EndsWith(lines[|lines| - 1], ",")
    ensures var a := Join(["module " + stem + " ("] + lines, '\n');
      && |a| > 0 && a[|a| - 1] == ','
      && Assemble(stem, lines) == a[..|a| - 1] + Closing
  {
    var head := ["module " + stem + " ("] + lines;
    var a := Join(head, '\n');
    var last := lines[|lines| - 1];
    JoinEndsWithLast(head, '\n');
    assert head[|head| - 1] == last;
    assert a[|a| - 1] == last[|last| - 1];
    RemoveClosingComma(head);
  }

  /** Joining the closing lines after text that ends in a comma removes exactly that comma. */
  lemma RemoveClosingComma(head: seq<string>)
    requires |head| > 0
    requires var a := Join(head, '\n'); |a| > 0 && a[|a| - 1] == ','
    ensures var a := Join(head, '\n');
      RemoveLastComma(Join(head + [");", "\nendmodule\n"], '\n')) == a[..|a| - 1] + Closing
  {
    var a := Join(head, '\n');
    var tail := Join([");", "\nendmodule\n"], '\n');
    JoinConcat(head, [");", "\nendmodule\n"], '\n');
    ClosingLines();
    ClosingHasNoComma();
    assert a + ['\n'] + tail == a + ("\n" + tail);
    RemoveLastCommaAtJoin(a, Closing);
  }

  /** Each line of `GroupLines` is the line of the group at the same place. */
  lemma {:induction false} GroupLinesAt(gs: seq<seq<Port>>, i: nat)
    requires i < |gs| && forall k :: 0 <= k < |gs| ==> |gs[k]| > 0
    ensures GroupLines(gs)[i] == GroupLine(gs[i])
  {
    if i < |gs| - 1 {
      GroupLinesAt(gs[..|gs| - 1], i);
    }
  }

  /**
   * There are declaration lines exactly when there are ports, and every one
   * of them ends in a comma, so with any port the comma removed is the last
   * line's.
   */
  lemma DeclarationLinesEndInComma(ports: seq<Port>)
    ensures var lines := GroupLines(Groups(ports));
      && (|lines| > 0 <==> |ports| > 0)
      && forall i :: 0 <= i < |lines| ==> EndsWith(lines[i], ",")
  {
    var gs := Groups(ports);
    SortByKeyIsStableSort(ports);
    assert |SortByKey(ports)| == |ports| by {
      assert |multiset(SortByKey(ports))| == |multiset(ports)|;
    }
    forall i | 0 <= i < |gs|
      ensures EndsWith(GroupLines(gs)[i], ",")
    {
      GroupLinesAt(gs, i);
    }
  }

  /** Every prefix of non-empty groups is made of non-empty groups. */
  lemma NonEmptyPrefix(gs: seq<seq<Port>>, n: nat)
    requires n <= |gs| && NonEmptyGroups(gs)
    ensures NonEmptyGroups(gs[..n])
  {
    forall k | 0 <= k < n
      ensures |gs[..n][k]| > 0
    {
      assert gs[..n][k] == gs[k];
    }
  }

  lemma GroupLinesSnoc(gs: seq<seq<Port>>, i: nat)
    requires i < |gs| && NonEmptyGroups(gs)
    ensures NonEmptyGroups(gs[..i]) && NonEmptyGroups(gs[..i + 1])
    ensures GroupLines(gs[..i + 1]) == GroupLines(gs[..i]) + [GroupLine(gs[i])]
  {
    NonEmptyPrefix(gs, i);
    NonEmptyPrefix(gs, i + 1);
    assert gs[..i + 1][..i] == gs[..i];
  }

  /** One more round of the loop below keeps its invariant. */
  lemma AppendGroupLineStep(raw0: seq<string>, raw: seq<string>, gs: seq<seq<Port>>, i: nat)
    requires i < |gs| && NonEmptyGroups(gs)
    requires NonEmptyGroups(gs[..i]) && raw == raw0 + GroupLines(gs[..i])
    ensures NonEmptyGroups(gs[..i + 1])
    ensures raw + [GroupLine(gs[i])] == raw0 + GroupLines(gs[..i + 1])
  {
    GroupLinesSnoc(gs, i);
    SnocAssoc(raw0, GroupLines(gs[..i]), GroupLine(gs[i]));
  }

  lemma SnocAssoc<T>(a: seq<T>, b: seq<T>, x: T)
    ensures a + b + [x] == a + (b + [x])
  {
  }

  /** The loop of `main` that appends one line per group to `raw_text`. */
  method AppendGroupLines(raw0: seq<string>, groups: seq<seq<Port>>) returns (raw: seq<string>)
    requires forall i :: 0 <= i < |groups| ==> |groups[i]| > 0
    ensures raw == raw0 + GroupLines(groups)
  {
    raw := raw0;
    for i := 0 to |groups|
      invariant NonEmptyGroups(groups[..i])
      invariant raw == raw0 + GroupLines(groups[..i])
    {
      var params := GroupLine(groups[i]);
      AppendGroupLineStep(raw0, raw, groups, i);
      raw := raw + [params];
    }
    assert groups[..|groups|] == groups;
  }

  /**
   * The serialising part of `main`: the module line, one line per group,
   * the closing lines, the join and the last-comma removal.
   */
  method Serialise(stem: string, ports: seq<Port>) returns (text: string)
    ensures text == UnwrappedText(stem, ports)
  {
    var groups := Groups(ports);
    var raw := AppendGroupLines(["module " + stem + " ("], groups);
    raw := raw + [");", "\nendmodule\n"];
    text := RemoveLastComma(Join(raw, '\n'));
  }

  // ------------------------------------------------ output location

  /** `os.path.join(a, b)`: an absolute `b` replaces `a`. */
  function PathJoin(a: string, b: string): string {
    if StartsWith(b, "/") then b
    else if a == "" || EndsWith(a, "/") then a + b
    else a + "/" + b
  }

  /** Where the text is written, for the validated `--o` target. */
  function OutputFile(stem: string, sv: bool, target: (bool, string), currentDir: string): string {
    if target.0 then PathJoin(target.1, stem + (if sv then ".sv" else ".v"))
    else PathJoin(currentDir, target.1)
  }

  /**
   * A directory target receives the stem with ".sv" under `-sv` and ".v"
   * otherwise; a file target is kept, taken relative to the current
   * directory unless it is absolute.
   */
  lemma OutputFileName(stem: string, sv: bool, target: (bool, string), currentDir: string)
    ensures target.0 && !StartsWith(stem, "/") ==> EndsWith(OutputFile(stem, sv, target, currentDir), stem + (if sv then ".sv" else ".v"))
    ensures !target.0 ==> EndsWith(OutputFile(stem, sv, target, currentDir), target.1)
    ensures !target.0 && StartsWith(target.1, "/") ==> OutputFile(stem, sv, target, currentDir) == target.1
  {
    var r := OutputFile(stem, sv, target, currentDir);
    var f := if target.0 then stem + (if sv then ".sv" else ".v") else target.1;
    var base := if target.0 then target.1 else currentDir;
    if !StartsWith(f, "/") {
      if base == "" || EndsWith(base, "/") {
        assert r == base + f;
      } else {
        assert r == (base + "/") + f;
      }
      assert r[|r| - |f|..] == f;
    }
    if target.0 && !StartsWith(stem, "/") {
      assert !StartsWith(f, "/") by {
        if |stem| == 0 {
          assert f[0] == '.';
        } else {
          assert f[..1] == stem[..1];
        }
      }
    }
  }

  /** A file accepted by `out` is written under a .sv or .v name. */
  lemma FileTargetIsVerilog(v: string, stem: string, sv: bool, currentDir: string)
    requires Out(v).Ok? && !Out(v).value.0
    ensures var f := OutputFile(stem, sv, Out(v).value, currentDir);
      EndsWith(f, ".sv") || EndsWith(f, ".v")
  {
    var f := OutputFile(stem, sv, Out(v).value, currentDir);
    OutputFileName(stem, sv, Out(v).value, currentDir);
    assert EndsWith(f, v);
    if EndsWith(v, ".sv") {
      assert f[|f| - 3..] == v[|v| - 3..];
    } else {
      assert f[|f| - 2..] == v[|v| - 2..];
    }
  }

  // ------------------------------------------------ main

  /**
   * `main` after argument parsing: `n` and `o` are the raw `--n` and `--o`
   * arguments, `ports` the records parsed from the template. It returns the
   * output path and the text written there.
   */
  method Unwrap(n: Option<string>, o: Option<string>, sv: bool, ports: seq<Port>, currentDir: string)
    returns (r: Result<(string, string)>)
    ensures r.Ok? <==> n.Some? && Veo(n.value).Ok? && (o.None? || Out(o.value).Ok?)
    ensures r.Err? ==> r.error == ArgumentTypeError
    ensures r.Ok? ==> var stem := ModuleStem(n.value);
      && r.value.1 == UnwrappedText(stem, ports)
      && r.value.0 == OutputFile(stem, sv, if o.None? then (true, currentDir) else Out(o.value).value, currentDir)
  {
    var target := (true, currentDir);
    if o.Some? {
      var checked := Out(o.value);
      if checked.Err? {
        return Err(checked.error);
      }
      target := checked.value;
    }
    if n.None? {
      return Err(ArgumentTypeError);
    }
    var name := Veo(n.value);
    if name.Err? {
      return Err(name.error);
    }
    var stem := ModuleStem(name.value);
    var text := Serialise(stem, ports);
    r := Ok((OutputFile(stem, sv, target, currentDir), text));
  }
}
