/**
 * What the two copies of the source-header writer (Src/Scripts/write_file_header.py
 * and Src/RTL/Scripts/write_file_header.py) share word for word: the
 * whitelist/blacklist path filter built on `fnmatch`, the test for a file that
 * already carries a generated header, the classification of a file into a
 * project module, the `{field}` substitution of the `//` header template, and
 * the two renderings of that template (a Python docstring, or `//` comment
 * lines).
 */
module FileHeaders {
  import opened Common

  // ------------------------------------------------------------- fnmatch

  /**
   * `fnmatch.fnmatch(name, pattern)` on a POSIX system (case-sensitive) for
   * patterns built from literal characters and '*', which is all the
   * whitelist and blacklist use.
   */
  function FnMatch(name: string, pattern: string): bool
    decreases |pattern|, |name|
  {
    if pattern == "" then name == ""
    else if pattern[0] == '*' then FnMatch(name, pattern[1..]) || (name != "" && FnMatch(name[1..], pattern))
    else name != "" && name[0] == pattern[0] && FnMatch(name[1..], pattern[1..])
  }

  /** A pattern without '*' matches exactly itself. */
  lemma {:induction false} LiteralMatch(name: string, lit: string)
    requires '*' !in lit
    ensures FnMatch(name, lit) <==> name == lit
  {
    if lit != "" && name != "" {
      assert lit[0] in lit;
      assert '*' !in lit[1..] by {
        forall c | c in lit[1..] ensures c in lit { }
      }
      LiteralMatch(name[1..], lit[1..]);
      assert name == [name[0]] + name[1..];
      assert lit == [lit[0]] + lit[1..];
    } else if lit != "" {
      assert lit[0] in lit;
    }
  }

  /** '*' alone matches every name. */
  lemma {:induction false} StarMatchesAll(name: string)
    ensures FnMatch(name, "*")
  {
    if name != "" {
      StarMatchesAll(name[1..]);
    }
  }

  /** `lit*` matches exactly the names starting with `lit`. */
  lemma {:induction false} LiteralThenStar(name: string, lit: string)
    requires '*' !in lit
    ensures FnMatch(name, lit + "*") <==> StartsWith(name, lit)
  {
    if lit == "" {
      assert lit + "*" == "*";
      StarMatchesAll(name);
    } else {
      var p := lit + "*";
      assert lit[0] in lit;
      assert p[0] == lit[0] && p[1..] == lit[1..] + "*";
      assert '*' !in lit[1..] by {
        forall c | c in lit[1..] ensures c in lit { }
      }
      if name != "" {
        LiteralThenStar(name[1..], lit[1..]);
        if StartsWith(name, lit) {
          assert name[1..][..|lit| - 1] == name[..|lit|][1..];
        }
        if name[0] == lit[0] && StartsWith(name[1..], lit[1..]) {
          assert name[..|lit|] == [name[0]] + name[1..][..|lit| - 1];
          assert lit == [lit[0]] + lit[1..];
        }
      }
    }
  }

  /** `*lit` matches exactly the names ending with `lit`. */
  lemma {:induction false} StarThenLiteral(name: string, lit: string)
    requires '*' !in lit
    ensures FnMatch(name, "*" + lit) <==> EndsWith(name, lit)
  {
    var p := "*" + lit;
    assert p[1..] == lit;
    LiteralMatch(name, lit);
    if name != "" {
      StarThenLiteral(name[1..], lit);
      if |lit| < |name| {
        assert name[|name| - |lit|..] == name[1..][|name| - 1 - |lit|..];
      }
    }
  }

  /** `WHITELISTED`, the file-name patterns (identical in both copies). */
  const Whitelisted: seq<string> := ["*.py", "*.sv", "*.v", "*.ipynb"]

  /** `BLACKLISTED`, the directory-name patterns (identical in both copies). */
  const Blacklisted: seq<string> := ["RTL.*", ".*", "obj_dir", "Ip"]

  /** Some pattern of the list matches `name`. */
  function AnyMatch(name: string, patterns: seq<string>): (r: bool)
    ensures r <==> exists k :: 0 <= k < |patterns| && FnMatch(name, patterns[k])
  {
    if patterns == [] then false
    else if FnMatch(name, patterns[0]) then true
    else
      var rest := AnyMatch(name, patterns[1..]);
      assert rest ==> exists k :: 0 < k < |patterns| && FnMatch(name, patterns[k]) by {
        if rest {
          var k :| 0 <= k < |patterns[1..]| && FnMatch(name, patterns[1..][k]);
          assert patterns[k + 1] == patterns[1..][k];
        }
      }
      assert !rest ==> forall k :: 0 < k < |patterns| ==> !FnMatch(name, patterns[k]) by {
        if !rest {
          forall k | 0 < k < |patterns| ensures !FnMatch(name, patterns[k]) {
            assert patterns[k] == patterns[1..][k - 1];
          }
        }
      }
      rest
  }

  /** The directory names the blacklist rejects. */
  predicate BlacklistedDirName(d: string) {
    StartsWith(d, "RTL.") || StartsWith(d, ".") || d == "obj_dir" || d == "Ip"
  }

  /** The file names the whitelist accepts. */
  predicate WhitelistedFileName(n: string) {
    EndsWith(n, ".py") || EndsWith(n, ".sv") || EndsWith(n, ".v") || EndsWith(n, ".ipynb")
  }

  lemma BlacklistMeaning(d: string)
    ensures AnyMatch(d, Blacklisted) <==> BlacklistedDirName(d)
  {
    LiteralThenStar(d, "RTL.");
    assert "RTL." + "*" == Blacklisted[0];
    LiteralThenStar(d, ".");
    assert "." + "*" == Blacklisted[1];
    LiteralMatch(d, Blacklisted[2]);
    LiteralMatch(d, Blacklisted[3]);
  }

  lemma WhitelistMeaning(n: string)
    ensures AnyMatch(n, Whitelisted) <==> WhitelistedFileName(n)
  {
    StarThenLiteral(n, ".py");
    assert "*" + ".py" == Whitelisted[0];
    StarThenLiteral(n, ".sv");
    assert "*" + ".sv" == Whitelisted[1];
    StarThenLiteral(n, ".v");
    assert "*" + ".v" == Whitelisted[2];
    StarThenLiteral(n, ".ipynb");
    assert "*" + ".ipynb" == Whitelisted[3];
  }

  // ---------------------------------------------------------- path filter

  /** A file path: absolute or relative, its directory components, and its final component. */
  datatype FsPath = FsPath(absolute: bool, dirs: seq<string>, name: string)

  /**
   * The `name` of each entry of `fp.parents`, nearest first: every directory,
   * then the root (or '.') whose name is empty.
   */
  function ParentNames(p: FsPath): (r: seq<string>)
    ensures |r| == |p.dirs| + 1 && r[|p.dirs|] == ""
    ensures forall k :: 0 <= k < |p.dirs| ==> r[k] == p.dirs[|p.dirs| - 1 - k]
  {
    Reverse(p.dirs) + [""]
  }

  /** Some name of the list matches some blacklist pattern. */
  function AnyBlacklisted(names: seq<string>, black: seq<string>): (r: bool)
    ensures r <==> exists k :: 0 <= k < |names| && AnyMatch(names[k], black)
  {
    if names == [] then false
    else if AnyMatch(names[0], black) then true
    else
      var rest := AnyBlacklisted(names[1..], black);
      assert rest ==> exists k :: 0 < k < |names| && AnyMatch(names[k], black) by {
        if rest {
          var k :| 0 <= k < |names[1..]| && AnyMatch(names[1..][k], black);
          assert names[k + 1] == names[1..][k];
        }
      }
      assert !rest ==> forall k :: 0 < k < |names| ==> !AnyMatch(names[k], black) by {
        if !rest {
          forall k | 0 < k < |names| ensures !AnyMatch(names[k], black) {
            assert names[k] == names[1..][k - 1];
          }
        }
      }
      rest
  }

  /**
   * `should_process_file(fp, whitelisted_patterns, blacklisted_dirs)`: a file
   * is taken when no ancestor directory name matches a blacklist pattern and
   * its own name matches a whitelist pattern.
   */
  function ShouldProcessFile(p: FsPath, white: seq<string>, black: seq<string>): (r: bool)
    ensures r <==> (forall k :: 0 <= k < |p.dirs| ==> !AnyMatch(p.dirs[k], black))
                   && !AnyMatch("", black) && AnyMatch(p.name, white)
  {
    var names := ParentNames(p);
    assert forall k :: 0 <= k < |p.dirs| ==> names[|p.dirs| - 1 - k] == p.dirs[k];
    !AnyBlacklisted(names, black) && AnyMatch(p.name, white)
  }

  /**
   * With the shipped lists: a file is processed exactly when no directory on
   * its path starts with "RTL." or ".", or is named "obj_dir" or "Ip", and
   * its name ends with ".py", ".sv", ".v" or ".ipynb". A blacklisted
   * directory wins over a whitelisted name.
   */
  lemma DefaultFilter(p: FsPath)
    ensures ShouldProcessFile(p, Whitelisted, Blacklisted) <==>
      (forall k :: 0 <= k < |p.dirs| ==> !BlacklistedDirName(p.dirs[k])) && WhitelistedFileName(p.name)
  {
    forall k | 0 <= k < |p.dirs| ensures AnyMatch(p.dirs[k], Blacklisted) <==> BlacklistedDirName(p.dirs[k]) {
      BlacklistMeaning(p.dirs[k]);
    }
    BlacklistMeaning("");
    WhitelistMeaning(p.name);
  }

  // ---------------------------------------------------- existing headers

  /** The text whose presence marks a generated header. */
  const License: string := "GNU GENERAL PUBLIC LICENSE"

  /** How many leading characters of a file are searched for `License`. */
  const HeaderWindow: nat := 1000

  /** `'GNU GENERAL PUBLIC LICENSE' in content[:1000]`. */
  function ContentHasHeader(content: string): bool {
    var window := if |content| <= HeaderWindow then content else content[..HeaderWindow];
    Find(window, License, 0, None).Some?
  }

  /** The header test holds exactly when the license text lies wholly within the first 1000 characters. */
  lemma HeaderSearchWindow(content: string)
    ensures ContentHasHeader(content) <==> exists i: nat :: i + |License| <= HeaderWindow && OccursAt(content, License, i)
  {
    FindInWindow(content, License, HeaderWindow);
  }

  /** Searching the first `w` characters finds `sub` exactly when it lies wholly within them. */
  lemma FindInWindow(content: string, sub: string, w: nat)
    ensures var window := if |content| <= w then content else content[..w];
      Find(window, sub, 0, None).Some? <==> exists i: nat :: i + |sub| <= w && OccursAt(content, sub, i)
  {
    var window := if |content| <= w then content else content[..w];
    var found := Find(window, sub, 0, None);
    if found.Some? {
      WindowOccurrence(content, window, sub, found.value);
    }
    if exists i: nat :: i + |sub| <= w && OccursAt(content, sub, i) {
      var i: nat :| i + |sub| <= w && OccursAt(content, sub, i);
      ContentOccurrence(content, window, sub, w, i);
    }
  }

  /** An occurrence in a prefix of the text is one in the text. */
  lemma WindowOccurrence(content: string, window: string, sub: string, i: nat)
    requires |window| <= |content| && window == content[..|window|] && OccursAt(window, sub, i)
    ensures OccursAt(content, sub, i)
  {
    assert window[i..i + |sub|] == content[i..i + |sub|];
  }

  /** An occurrence that ends within the first `w` characters is one in the window. */
  lemma ContentOccurrence(content: string, window: string, sub: string, w: nat, i: nat)
    requires window == if |content| <= w then content else content[..w]
    requires i + |sub| <= w && OccursAt(content, sub, i)
    ensures OccursAt(window, sub, i)
  {
    assert window[i..i + |sub|] == content[i..i + |sub|];
  }

  /** Text appended after a detected header does not hide it: a headed file stays headed. */
  lemma HeaderSurvivesAppend(a: string, b: string)
    requires ContentHasHeader(a)
    ensures ContentHasHeader(a + b)
  {
    HeaderSearchWindow(a);
    var i: nat :| i + |License| <= HeaderWindow && OccursAt(a, License, i);
    assert (a + b)[i..i + |License|] == a[i..i + |License|];
    assert OccursAt(a + b, License, i);
    HeaderSearchWindow(a + b);
  }

  /** A license line that ends after character 1000 is not seen: such a file counts as unheaded. */
  lemma LateLicenseMissed(pad: nat)
    requires pad + |License| > HeaderWindow
    ensures !ContentHasHeader(Repeat(' ', pad) + License)
  {
    var s := Repeat(' ', pad) + License;
    HeaderSearchWindow(s);
    forall i: nat | i + |License| <= HeaderWindow
      ensures !OccursAt(s, License, i)
    {
      assert s[i] == ' ';
      assert i + |License| <= |s| ==> s[i..i + |License|][0] != License[0];
    }
  }

  // ------------------------------------------------------ classification

  /** `PurePath.suffix`: from the last '.' of the name, when that '.' is neither first nor last. */
  function Suffix(name: string): (r: string)
    ensures r == "" || (2 <= |r| < |name| && r[0] == '.' && EndsWith(name, r) && '.' !in r[1..])
  {
    var i := RFind(name, '.');
    if 0 < i < |name| - 1 then
      assert name[i..][1..] == name[i + 1..];
      var tail := name[i + 1..];
      assert '.' !in tail by {
        forall j | 0 <= j < |tail| ensures tail[j] != '.' {
          assert tail[j] == name[i + 1 + j];
        }
      }
      name[i..]
    else ""
  }

  /** A name ending in `ext` (a '.' then no further '.') has `ext` as its suffix, if something precedes it. */
  lemma SuffixOfExtension(name: string, ext: string)
    requires 2 <= |ext| < |name| && ext[0] == '.' && '.' !in ext[1..] && EndsWith(name, ext)
    ensures Suffix(name) == ext
  {
    var i := |name| - |ext|;
    assert name[i] == ext[0];
    forall k | i < k < |name| ensures name[k] != '.' {
      assert name[k] == ext[k - i] == ext[1..][k - i - 1];
    }
    assert RFind(name, '.') == i;
    assert name[i..] == ext;
  }

  /** A directory given as a path (ALLOCATOR_DIR, CURRENT_DIR). */
  datatype DirPath = DirPath(absolute: bool, parts: seq<string>)

  /** `fp.is_relative_to(d)`: `d` is `fp` itself or one of its parents. */
  predicate IsRelativeTo(p: FsPath, d: DirPath) {
    var parts := p.dirs + [p.name];
    p.absolute == d.absolute && |d.parts| <= |parts| && parts[..|d.parts|] == d.parts
  }

  /** `fp.parent.name`. */
  function ParentName(p: FsPath): string {
    if p.dirs == [] then "" else p.dirs[|p.dirs| - 1]
  }

  /** The project module a file belongs to; an RTL file carries its design's name. */
  datatype ProjectModule = Rtl(rtlModule: string) | Allocator | Scripts | NoModule

  /**
   * The branch of `create_file_metadata`: the lower-cased suffix decides RTL
   * (.sv/.v, named after the parent directory); a .py file is ALLOCATOR when
   * it lies under the allocator directory, else SCRIPTS when it lies under
   * the scripts directory; everything else has no module.
   */
  function Classify(p: FsPath, allocatorDir: DirPath, currentDir: DirPath): (m: ProjectModule)
    ensures m.Rtl? <==> Lower(Suffix(p.name)) in {".sv", ".v"}
    ensures m.Rtl? ==> m.rtlModule == ParentName(p)
    ensures m.Allocator? <==> Lower(Suffix(p.name)) == ".py" && IsRelativeTo(p, allocatorDir)
    ensures m.Scripts? <==> Lower(Suffix(p.name)) == ".py" && !IsRelativeTo(p, allocatorDir) && IsRelativeTo(p, currentDir)
  {
    var ext := Lower(Suffix(p.name));
    if ext == ".sv" || ext == ".v" then Rtl(ParentName(p))
    else if ext == ".py" && IsRelativeTo(p, allocatorDir) then Allocator
    else if ext == ".py" && IsRelativeTo(p, currentDir) then Scripts
    else NoModule
  }

  /** A whitelisted SystemVerilog or Verilog file is RTL wherever it lies, named after its directory. */
  lemma VerilogIsRtl(p: FsPath, allocatorDir: DirPath, currentDir: DirPath)
    requires (EndsWith(p.name, ".sv") && |p.name| > 3) || (EndsWith(p.name, ".v") && |p.name| > 2)
    ensures Classify(p, allocatorDir, currentDir) == Rtl(ParentName(p))
  {
    if EndsWith(p.name, ".sv") && |p.name| > 3 {
      SuffixOfExtension(p.name, ".sv");
      assert Lower(".sv") == ".sv";
    } else {
      SuffixOfExtension(p.name, ".v");
      assert Lower(".v") == ".v";
    }
  }

  /** A notebook, though whitelisted, never gets a module. */
  lemma NotebookHasNoModule(p: FsPath, allocatorDir: DirPath, currentDir: DirPath)
    requires EndsWith(p.name, ".ipynb")
    ensures Classify(p, allocatorDir, currentDir) == NoModule
  {
    NotebookSuffix(p.name);
  }

  /** A notebook's lower-cased suffix is ".ipynb", or empty for a file named just ".ipynb". */
  lemma NotebookSuffix(name: string)
    requires EndsWith(name, ".ipynb")
    ensures Lower(Suffix(name)) == ".ipynb" || Lower(Suffix(name)) == ""
  {
    if |name| > 6 {
      SuffixOfExtension(name, ".ipynb");
      LowerWithoutCapitals(".ipynb");
    } else {
      BareNotebookSuffix(name);
      assert Lower("") == "";
    }
  }

  /** ".ipynb" itself has no suffix: its only '.' comes first. */
  lemma BareNotebookSuffix(n: string)
    requires EndsWith(n, ".ipynb") && |n| <= 6
    ensures Suffix(n) == ""
  {
    assert n == ".ipynb";
    assert n[0] == '.';
    assert forall k :: 1 <= k < 6 ==> n[k] != '.';
    assert RFind(n, '.') == 0;
  }

  /** The text `{module}` renders to: the module's name, or Python's "None". */
  function ModuleName(m: ProjectModule): string {
    match m
    case Rtl(_) => "RTL"
    case Allocator => "ALLOCATOR"
    case Scripts => "SCRIPTS"
    case NoModule => "None"
  }

  /** The text `{license_preamble}` renders to: RTL_PREAMBLE with the design name filled in twice, the fixed preambles, or "None". */
  function Preamble(m: ProjectModule): string {
    match m
    case Rtl(d) => RtlPreambleStart + d + RtlPreambleMiddle + d + RtlPreambleEnd
    case Allocator => AllocatorPreamble
    case Scripts => ScriptPreamble
    case NoModule => "None"
  }

  const RtlPreambleStart: string := "// It is intended to be used as part of the "

  const RtlPreambleMiddle: string :=
    " design where a README.md detailing the design should exist, conforming to the details provided\n"
    + "// under docs/CONTRIBUTING.md. The "

  const RtlPreambleEnd: string :=
    " module is covered by the GPL 3.0 License (see below.)\n//\n// The design is NOT COVERED UNDER ANY WARRANTY.\n//"

  const AllocatorPreamble: string :=
    "// It is intended to be used as part of the allocator design which is responsible for the soft-core, or offboard, management of the on-fabric components.\n"
    + "// Please refer to docs/whitepaper first, which provides a complete description of the project & it's motivations.\n"
    + "//\n// The design is NOT COVERED UNDER ANY WARRANTY.\n//"

  const ScriptPreamble: string :=
    "// It is intended to be run as a script for use with developer operations, automation / task assistance or as a wrapper for the RTL code.\n"
    + "//\n// The design is NOT COVERED UNDER ANY WARRANTY.\n//"

  /** `HEADER_W`. */
  const HeaderWidth: nat := 75

  /** Author and date, which the scripts read from git and the clock. */
  datatype MetaInfo = MetaInfo(authorName: string, authorEmail: string, year: nat)

  /**
   * The metadata entries both copies of `create_file_metadata` write, each
   * held as the text it renders to in the template; RTL files gain
   * inputs/outputs "N/A".
   */
  function BaseMetadata(p: FsPath, info: MetaInfo, m: ProjectModule, description: string): map<Field, string> {
    var md := map[
      FName := p.name,
      FileDescription := description,
      AuthorName := info.authorName,
      AuthorEmail := info.authorEmail,
      ModuleField := ModuleName(m),
      CopyrightYear := NatToString(info.year),
      Separator := Repeat('-', HeaderWidth - 3),
      LicensePreamble := Preamble(m)];
    if m.Rtl? then md[Inputs := "N/A"][Outputs := "N/A"] else md
  }

  /**
   * The metadata names the file, carries the given description, the module
   * and preamble of its classification and a separator of 72 dashes, and has
   * inputs/outputs "N/A" exactly for RTL files.
   */
  lemma BaseMetadataEntries(p: FsPath, info: MetaInfo, m: ProjectModule, description: string)
    ensures var md := BaseMetadata(p, info, m, description);
      && md[Separator] == Repeat('-', HeaderWidth - 3)
      && md[FName] == p.name && md[FileDescription] == description
      && md[ModuleField] == ModuleName(m) && md[LicensePreamble] == Preamble(m)
      && (Inputs in md <==> m.Rtl?) && (Outputs in md <==> m.Rtl?)
      && (m.Rtl? ==> md[Inputs] == "N/A" && md[Outputs] == "N/A")
      && Purpose !in md
  {
    var md := BaseMetadata(p, info, m, description);
    var sep, mn, pre := Repeat('-', HeaderWidth - 3), ModuleName(m), Preamble(m);
    var common := map[
      FName := p.name,
      FileDescription := description,
      AuthorName := info.authorName,
      AuthorEmail := info.authorEmail,
      ModuleField := mn,
      CopyrightYear := NatToString(info.year),
      Separator := sep,
      LicensePreamble := pre];
    assert md == if m.Rtl? then common[Inputs := "N/A"][Outputs := "N/A"] else common;
    MetadataDisplayEntries(p.name, description, info.authorName, info.authorEmail, mn,
                           NatToString(info.year), sep, pre, m.Rtl?);
  }

  /** Lookups in the metadata map display, over its entries as opaque strings. */
  lemma MetadataDisplayEntries(name: string, description: string, author: string, email: string,
                               mn: string, year: string, sep: string, pre: string, rtl: bool)
    ensures var common := map[
      FName := name, FileDescription := description, AuthorName := author, AuthorEmail := email,
      ModuleField := mn, CopyrightYear := year, Separator := sep, LicensePreamble := pre];
      var md := if rtl then common[Inputs := "N/A"][Outputs := "N/A"] else common;
      && md[Separator] == sep && md[FName] == name && md[FileDescription] == description
      && md[ModuleField] == mn && md[LicensePreamble] == pre
      && (Inputs in md <==> rtl) && (Outputs in md <==> rtl)
      && (rtl ==> md[Inputs] == "N/A" && md[Outputs] == "N/A")
      && Purpose !in md
  {
  }

  /** The metadata both copies build supplies every field the header template names. */
  lemma MetadataFillsTemplate(p: FsPath, info: MetaInfo, m: ProjectModule, description: string)
    ensures Keys(HeaderTemplate) <= BaseMetadata(p, info, m, description).Keys
  {
    TemplateKeys();
  }

  // ------------------------------------------------------------ template

  /** The metadata entries the scripts write (the YAML keys, one constructor each). */
  datatype Field =
    | FName | FileDescription | Purpose | AuthorName | AuthorEmail | ModuleField
    | CopyrightYear | Separator | LicensePreamble | Inputs | Outputs

  /** A piece of a `str.format` template: literal text or a `{key}` field. */
  datatype Piece = Text(s: string) | Slot(key: Field)

  /** The field names a template uses. */
  function Keys(t: seq<Piece>): set<Field> {
    set k | 0 <= k < |t| && t[k].Slot? :: t[k].key
  }

  /** `template.format(**md)`: every field replaced by its entry; a missing entry raises KeyError. */
  function Format(t: seq<Piece>, md: map<Field, string>): (r: Result<string>)
    ensures r.Ok? <==> Keys(t) <= md.Keys
    ensures r.Err? ==> r.error == KeyError
  {
    if t == [] then Ok("")
    else
      var rest := Format(t[1..], md);
      assert Keys(t) == Keys(t[..1]) + Keys(t[1..]) by {
        KeysAppend(t[..1], t[1..]);
        assert t[..1] + t[1..] == t;
      }
      match t[0]
      case Text(s) =>
        if rest.Err? then rest else Ok(s + rest.value)
      case Slot(key) =>
        if key !in md then Err(KeyError)
        else if rest.Err? then rest else Ok(md[key] + rest.value)
  }

  lemma KeysAppend(a: seq<Piece>, b: seq<Piece>)
    ensures Keys(a + b) == Keys(a) + Keys(b)
  {
    var ab := a + b;
    forall key | key in Keys(a) ensures key in Keys(ab) {
      var k :| 0 <= k < |a| && a[k].Slot? && a[k].key == key;
      assert ab[k] == a[k];
    }
    forall key | key in Keys(ab) ensures key in Keys(a) + Keys(b) {
      var k :| 0 <= k < |ab| && ab[k].Slot? && ab[k].key == key;
      if k >= |a| {
        assert b[k - |a|] == ab[k];
      }
    }
    forall key | key in Keys(b) ensures key in Keys(ab) {
      var k :| 0 <= k < |b| && b[k].Slot? && b[k].key == key;
      assert ab[k + |a|] == b[k];
    }
  }

  /** An entry the template does not name has no effect on the result. */
  lemma {:induction false} FormatIgnoresUnusedKey(t: seq<Piece>, md: map<Field, string>, key: Field, v: string)
    requires key !in Keys(t)
    ensures Format(t, md[key := v]) == Format(t, md)
  {
    if t != [] {
      KeysAppend(t[..1], t[1..]);
      assert t[..1] + t[1..] == t;
      FormatIgnoresUnusedKey(t[1..], md, key, v);
      if t[0].Slot? {
        assert t[..1][0] == t[0];
      }
    }
  }

  /** A template followed by literal text renders to its own rendering followed by that text. */
  lemma {:induction false} FormatAppendText(t: seq<Piece>, md: map<Field, string>, s: string)
    requires Keys(t) <= md.Keys
    ensures Format(t + [Text(s)], md) == Ok(Format(t, md).value + s)
  {
    if t == [] {
      assert t + [Text(s)] == [Text(s)];
      assert [Text(s)][1..] == [];
      assert Format([Text(s)], md) == Ok(s + "");
      assert s + "" == "" + s;
    } else {
      KeysAppend(t[..1], t[1..]);
      assert t[..1] + t[1..] == t;
      FormatAppendText(t[1..], md, s);
      assert (t + [Text(s)])[1..] == t[1..] + [Text(s)];
      assert (t + [Text(s)])[0] == t[0];
      if t[0].Slot? {
        var key := t[0].key;
        assert key in Keys(t);
        var f := Format(t[1..], md).value;
        assert Format(t, md) == Ok(md[key] + f);
        assert Format(t + [Text(s)], md) == Ok(md[key] + (f + s));
        assert md[key] + (f + s) == (md[key] + f) + s;
      } else {
        var f := Format(t[1..], md).value;
        assert Format(t, md) == Ok(t[0].s + f);
        assert Format(t + [Text(s)], md) == Ok(t[0].s + (f + s));
        assert t[0].s + (f + s) == (t[0].s + f) + s;
      }
    }
  }

  /** The `HEADER` template common to both copies, up to its closing separator. */
  const HeaderTemplate: seq<Piece> :=
    Template(OpeningRule, FilenameLabel, ProjectBlock, AuthorLabel, AuthorGap,
             SeparatorLead, CopyrightLabel, ModuleLead, ModuleTail, LicenseBlock)

  /** The template's layout, with its literal texts as parameters. */
  function Template(opening: string, filename: string, project: string, author: string, gap: string,
                    sepLead: string, copyright: string, moduleLead: string, moduleTail: string,
                    license: string): seq<Piece>
  {
    [Text(opening), Slot(Separator),
     Text(filename), Slot(FName),
     Text(project),
     Slot(FileDescription),
     Text(author), Slot(AuthorName), Text(gap), Slot(AuthorEmail),
     Text(sepLead), Slot(Separator),
     Text(copyright), Slot(CopyrightYear),
     Text(moduleLead), Slot(ModuleField),
     Text(moduleTail), Slot(LicensePreamble),
     Text(license),
     Slot(Separator)]
  }

  const OpeningRule: string := "//"
  const FilenameLabel: string := "\n// Filename: \t"
  const ProjectBlock: string := "\n//\n// Project:\tLLAC, intelligent hardware scheduler targeting common audio signal chains.\n//\n"
         + "// For more information see the repository: https://github.com/topologicalhurt/Thesis\n//\n// Purpose:\t"
  const AuthorLabel: string := "\n//\n// Author: "
  const AuthorGap: string := " "
  const SeparatorLead: string := "\n//\n//"
  const CopyrightLabel: string := "\n// Copyright (C) "
  const ModuleLead: string := ", LLAC project LLC\n//\n// This file is a part of the "
  const ModuleTail: string := " module\n"
  const LicenseBlock: string := "\n// LICENSE:     GNU GENERAL PUBLIC LICENSE Version 3, 29 June 2007\n"
         + "//              As defined by GNU GPL 3.0 https://www.gnu.org/licenses/gpl-3.0.html\n//\n"
         + "// A copy of this license is included at the root directory. It should've been provided to you\n"
         + "// Otherwise please consult: https://github.com/topologicalhurt/Thesis/blob/main/LICENSE\n//"

  /** The fields `HEADER` names. */
  lemma TemplateKeys()
    ensures Keys(HeaderTemplate) == {Separator, FName, FileDescription, AuthorName, AuthorEmail,
                                     CopyrightYear, ModuleField, LicensePreamble}
  {
    TemplateKeysPresent(OpeningRule, FilenameLabel, ProjectBlock, AuthorLabel, AuthorGap,
                        SeparatorLead, CopyrightLabel, ModuleLead, ModuleTail, LicenseBlock);
    TemplateKeysOnly(OpeningRule, FilenameLabel, ProjectBlock, AuthorLabel, AuthorGap,
                     SeparatorLead, CopyrightLabel, ModuleLead, ModuleTail, LicenseBlock);
  }

  lemma TemplateKeysPresent(opening: string, filename: string, project: string, author: string, gap: string,
                            sepLead: string, copyright: string, moduleLead: string, moduleTail: string,
                            license: string)
    ensures {Separator, FName, FileDescription, AuthorName, AuthorEmail, CopyrightYear, ModuleField, LicensePreamble}
            <= Keys(Template(opening, filename, project, author, gap, sepLead, copyright, moduleLead, moduleTail, license))
  {
    var t := Template(opening, filename, project, author, gap, sepLead, copyright, moduleLead, moduleTail, license);
    assert t[1].key == Separator && t[3].key == FName && t[5].key == FileDescription;
    assert t[7].key == AuthorName && t[9].key == AuthorEmail && t[13].key == CopyrightYear;
    assert t[15].key == ModuleField && t[17].key == LicensePreamble;
  }

  lemma TemplateKeysOnly(opening: string, filename: string, project: string, author: string, gap: string,
                         sepLead: string, copyright: string, moduleLead: string, moduleTail: string,
                         license: string)
    ensures Keys(Template(opening, filename, project, author, gap, sepLead, copyright, moduleLead, moduleTail, license))
            <= {Separator, FName, FileDescription, AuthorName, AuthorEmail, CopyrightYear, ModuleField, LicensePreamble}
  {
  }

  // ------------------------------------------------ docstring rendering

  /** One header line of the Python rendering: a leading "//" and the whitespace after it go. */
  function CleanLine(line: string): (r: string)
    ensures StartsWith(line, "//") ==> EndsWith(line, r) && |r| <= |line| - 2 && (r == "" || r[0] !in Whitespace)
    ensures !StartsWith(line, "//") ==> r == line
  {
    if StartsWith(line, "//") then LStripSetSuffix(line[2..], Whitespace); LStrip(line[2..]) else line
  }

  function CleanLines(lines: seq<string>): (r: seq<string>)
    ensures |r| == |lines|
  {
    seq(|lines|, k requires 0 <= k < |lines| => CleanLine(lines[k]))
  }

  /** The Python branch of `get_file_header`, for an already formatted header. */
  function PythonDocstring(header: string): string {
    "\"\"\"\n" + Join(CleanLines(Split(header, '\n')), '\n') + "\n\"\"\""
  }

  /** The loop of the Python branch: `cleaned_lines` is built line by line and joined. */
  method RenderPython(header: string) returns (r: string)
    ensures r == PythonDocstring(header)
  {
    var lines := Split(header, '\n');
    var cleaned: seq<string> := [];
    var i := 0;
    while i < |lines|
      invariant 0 <= i <= |lines|
      invariant cleaned == CleanLines(lines[..i])
    {
      var line := lines[i];
      if StartsWith(line, "//") {
        cleaned := cleaned + [LStrip(line[2..])];
      } else {
        cleaned := cleaned + [line];
      }
      assert lines[..i + 1][..i] == lines[..i];
      i := i + 1;
    }
    assert lines[..i] == lines;
    r := "\"\"\"\n" + Join(cleaned, '\n') + "\n\"\"\"";
  }

  /**
   * The Python header is the cleaned lines between a `"""` line and a
   * closing `"""`: it has exactly one body line per header line, each with
   * its "//" and the whitespace after it removed.
   */
  lemma PythonDocstringLines(header: string)
    ensures var r := PythonDocstring(header);
      && 8 <= |r| && r[..4] == "\"\"\"\n" && r[|r| - 4..] == "\n\"\"\""
      && Split(r[4..|r| - 4], '\n') == CleanLines(Split(header, '\n'))
  {
    var lines := Split(header, '\n');
    var cleaned := CleanLines(lines);
    forall k | 0 <= k < |cleaned| ensures '\n' !in cleaned[k] {
      if StartsWith(lines[k], "//") {
        assert '\n' !in lines[k];
        assert forall c :: c in cleaned[k] ==> c in lines[k];
      }
    }
    SplitJoin(cleaned, '\n');
    var r := PythonDocstring(header);
    assert r[4..|r| - 4] == Join(cleaned, '\n');
  }

  /** Splitting text that ends in the separator gives one more, empty, part. */
  lemma {:induction false} SplitAppendSep(s: string, sep: char)
    ensures Split(s + [sep], sep) == Split(s, sep) + [""]
  {
    if s == "" {
      assert s + [sep] == [sep];
      assert [sep][1..] == "";
    } else {
      assert (s + [sep])[0] == s[0];
      assert (s + [sep])[1..] == s[1..] + [sep];
      SplitAppendSep(s[1..], sep);
      if s[0] != sep {
        var rest := Split(s[1..], sep);
        assert (rest + [""])[0] == rest[0];
        assert (rest + [""])[1..] == rest[1..] + [""];
      }
    }
  }

  /** Joining with one more, empty, part adds a trailing separator. */
  lemma {:induction false} JoinAppendEmpty(parts: seq<string>, sep: char)
    requires |parts| >= 1
    ensures Join(parts + [""], sep) == Join(parts, sep) + [sep]
  {
    if |parts| == 1 {
      assert (parts + [""])[1..] == [""];
    } else {
      assert (parts + [""])[1..] == parts[1..] + [""];
      JoinAppendEmpty(parts[1..], sep);
    }
  }

  /**
   * A header that ends in a newline renders to a docstring whose last body
   * line is empty: the closing `"""` follows a blank line.
   */
  lemma PythonDocstringTrailingNewline(header: string)
    ensures PythonDocstring(header + "\n")
            == "\"\"\"\n" + Join(CleanLines(Split(header, '\n')), '\n') + "\n" + "\n\"\"\""
  {
    var lines := Split(header, '\n');
    SplitAppendSep(header, '\n');
    assert CleanLines(lines + [""]) == CleanLines(lines) + [""];
    JoinAppendEmpty(CleanLines(lines), '\n');
  }

  // ------------------------------------------------ comment rendering

  /** `'// ' + l` for each line `l`. */
  function Commented(lines: seq<string>): (r: seq<string>)
    ensures |r| == |lines| && forall k :: 0 <= k < |lines| ==> r[k] == "// " + lines[k]
  {
    seq(|lines|, k requires 0 <= k < |lines| => "// " + lines[k])
  }

  /**
   * One header line of the non-Python branch. `fill` stands for
   * `textwrap.fill(_, width=72)`, which is not part of this model.
   */
  function WrapLine(line: string, fill: string -> string): seq<string> {
    if Strip(line) == "//" then [line]
    else if StartsWith(line, "//") then
      var content := Strip(line[2..]);
      if content != "" then Commented(Split(fill(content), '\n')) else ["//"]
    else [line]
  }

  function WrapLines(lines: seq<string>, fill: string -> string): seq<string> {
    if lines == [] then [] else WrapLines(lines[..|lines| - 1], fill) + WrapLine(lines[|lines| - 1], fill)
  }

  /** The non-Python branch of `get_file_header`, for an already formatted header. */
  function CommentHeader(header: string, fill: string -> string): string {
    Join(WrapLines(Split(header, '\n'), fill), '\n')
  }

  /** The inner loop of the non-Python branch: each wrapped line is appended with a "// " prefix. */
  method AppendCommented(wrapped: seq<string>, parts: seq<string>) returns (r: seq<string>)
    ensures r == wrapped + Commented(parts)
  {
    r := wrapped;
    var j := 0;
    while j < |parts|
      invariant 0 <= j <= |parts|
      invariant r == wrapped + Commented(parts[..j])
    {
      r := r + ["// " + parts[j]];
      j := j + 1;
    }
    assert parts[..j] == parts;
  }

  /** The outer loop of the non-Python branch: `wrapped_lines` is built line by line and joined. */
  method RenderComment(header: string, fill: string -> string) returns (r: string)
    ensures r == CommentHeader(header, fill)
  {
    var lines := Split(header, '\n');
    var wrapped: seq<string> := [];
    var i := 0;
    while i < |lines|
      invariant 0 <= i <= |lines|
      invariant wrapped == WrapLines(lines[..i], fill)
    {
      var line := lines[i];
      assert lines[..i + 1][..i] == lines[..i];
      assert WrapLines(lines[..i + 1], fill) == wrapped + WrapLine(line, fill);
      if Strip(line) == "//" {
        wrapped := wrapped + [line];
      } else if StartsWith(line, "//") {
        var content := Strip(line[2..]);
        if content != "" {
          wrapped := AppendCommented(wrapped, Split(fill(content), '\n'));
        } else {
          wrapped := wrapped + ["//"];
        }
      } else {
        wrapped := wrapped + [line];
      }
      i := i + 1;
    }
    assert lines[..i] == lines;
    r := Join(wrapped, '\n');
  }

  /**
   * A line that starts with "//" and has nothing but whitespace after it
   * already strips to "//": the branch that would emit a bare "//" for it is
   * never taken, and such lines are kept as they are.
   */
  lemma BareCommentIsVerbatim(line: string, fill: string -> string)
    requires StartsWith(line, "//") && Strip(line[2..]) == ""
    ensures Strip(line) == "//" && WrapLine(line, fill) == [line]
  {
    var rest := line[2..];
    var l := LStripSet(rest, Whitespace);
    assert RStripSet(l, Whitespace) == "";
    assert |l| == 0;
    assert forall k :: 0 <= k < |rest| ==> rest[k] in Whitespace;
    assert line == "//" + rest;
    assert LStripSet(line, Whitespace) == line;
    RStripSetOff("//", rest, Whitespace);
  }

  /** A line the non-Python branch keeps as it is: a bare "//" or not a comment at all. */
  predicate KeptVerbatim(line: string) {
    Strip(line) == "//" || !StartsWith(line, "//")
  }

  /** Lines that are not comment text map to themselves, so a header made only of such lines comes back unchanged. */
  lemma {:induction false} VerbatimLines(lines: seq<string>, fill: string -> string)
    requires forall k :: 0 <= k < |lines| ==> KeptVerbatim(lines[k])
    ensures WrapLines(lines, fill) == lines
  {
    if lines != [] {
      var init, last := lines[..|lines| - 1], lines[|lines| - 1];
      assert forall k :: 0 <= k < |init| ==> init[k] == lines[k];
      VerbatimLines(init, fill);
      VerbatimLine(last, fill);
      assert WrapLines(lines, fill) == WrapLines(init, fill) + WrapLine(last, fill);
      FrontLast(lines);
    }
  }

  lemma VerbatimLine(line: string, fill: string -> string)
    requires KeptVerbatim(line)
    ensures WrapLine(line, fill) == [line]
  {
  }

  lemma VerbatimHeader(header: string, fill: string -> string)
    requires forall k :: 0 <= k < |Split(header, '\n')| ==> KeptVerbatim(Split(header, '\n')[k])
    ensures CommentHeader(header, fill) == header
  {
    VerbatimLines(Split(header, '\n'), fill);
    JoinSplit(header, '\n');
  }
}
