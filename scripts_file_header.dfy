/**
 * The source-header writer as kept under Src/Scripts/write_file_header.py:
 * its metadata takes a Python file's docstring as the description, its
 * `HEADER` ends with the closing separator, and writing a header replaces the
 * file's first docstring when the description is not "N/A".
 */
module ScriptsFileHeader {
  import opened Common
  import opened FileHeaders

  /** This copy's `HEADER`: the shared template, closing with the separator. */
  const Header: seq<Piece> := HeaderTemplate

  /**
   * `create_file_metadata(fp)`. A .py file whose content does not already
   * carry a header is described by its docstring; `docstring` stands for
   * what `extract_docstring_from_file` returns, `content` for the file's text.
   */
  function CreateFileMetadata(p: FsPath, info: MetaInfo, allocatorDir: DirPath, currentDir: DirPath,
                              content: string, docstring: Option<string>): map<Field, string>
  {
    BaseMetadata(p, info, Classify(p, allocatorDir, currentDir), Description(p, content, docstring))
  }

  /** The `file_description` entry: a .py file's own docstring when it has no header yet and the docstring is not empty. */
  function Description(p: FsPath, content: string, docstring: Option<string>): string {
    var existing := if Lower(Suffix(p.name)) == ".py" && !ContentHasHeader(content) then docstring else None;
    if existing.Some? && existing.value != "" then existing.value else "N/A"
  }

  /**
   * The description is a non-empty docstring only for an unheaded .py file,
   * and "N/A" otherwise; the metadata always fills the header template.
   */
  lemma MetadataDescription(p: FsPath, info: MetaInfo, allocatorDir: DirPath, currentDir: DirPath,
                            content: string, docstring: Option<string>)
    ensures var md := CreateFileMetadata(p, info, allocatorDir, currentDir, content, docstring);
      && Format(Header, md).Ok?
      && (md[FileDescription] == "N/A" || (Lower(Suffix(p.name)) == ".py" && !ContentHasHeader(content)
                                            && docstring == Some(md[FileDescription])))
      && (Lower(Suffix(p.name)) != ".py" || ContentHasHeader(content) ==> md[FileDescription] == "N/A")
  {
    var m := Classify(p, allocatorDir, currentDir);
    var d := Description(p, content, docstring);
    BaseMetadataEntries(p, info, m, d);
    MetadataFillsTemplate(p, info, m, d);
  }

  /** The text `get_file_header(metadata, file_path)` returns; only a suffix of exactly ".py" selects the docstring form. */
  function FileHeader(md: map<Field, string>, p: FsPath, fill: string -> string): Result<string> {
    match Format(Header, md)
    case Err(e) => Err(e)
    case Ok(h) => Ok(if Suffix(p.name) == ".py" then PythonDocstring(h) else CommentHeader(h, fill))
  }

  /** `get_file_header(metadata, file_path)`. */
  method GetFileHeader(md: map<Field, string>, p: FsPath, fill: string -> string) returns (r: Result<string>)
    ensures r == FileHeader(md, p, fill)
  {
    var formatted := Format(Header, md);
    if formatted.Err? {
      return Err(formatted.error);
    }
    if Suffix(p.name) == ".py" {
      var text := RenderPython(formatted.value);
      r := Ok(text);
    } else {
      var text := RenderComment(formatted.value, fill);
      r := Ok(text);
    }
  }

  /**
   * A file whose lower-cased suffix is ".py" but whose suffix is not exactly
   * ".py" is classified as Python code yet receives the `//` comment form.
   */
  lemma UpperCasePythonGetsCommentHeader(md: map<Field, string>, name: string, fill: string -> string)
    requires |name| > 3 && EndsWith(name, ".PY")
    ensures var p := FsPath(false, [], name);
      && Lower(Suffix(name)) == ".py"
      && (Format(Header, md).Ok? ==> FileHeader(md, p, fill) == Ok(CommentHeader(Format(Header, md).value, fill)))
  {
    SuffixOfExtension(name, ".PY");
    assert Lower(".PY") == ".py";
  }

  // ------------------------------------------------- docstring search

  const TripleDouble: string := "\"\"\""
  const TripleSingle: string := "'''"

  /** The end (exclusive) of the shortest `q ... q` that starts at `i`, if one does. */
  function ClosingAt(content: string, q: string, i: nat): (r: Option<nat>)
    requires |q| == 3
    ensures r.Some? ==> i + 6 <= r.value <= |content| && OccursAt(content, q, i) && OccursAt(content, q, r.value - 3)
  {
    if OccursAt(content, q, i) then
      match Find(content, q, i + 3, None)
      case Some(j) => Some(j + 3)
      case None => None
    else None
  }

  /**
   * `re.search(r'(""".*?"""|\'\'\'.*?\'\'\')', content, re.DOTALL)` from
   * index `i` on: the span of the leftmost match, where at each start the
   * double-quoted form is tried before the single-quoted one.
   */
  function FindDocstring(content: string, i: nat): (r: Option<(nat, nat)>)
    ensures r.Some? ==> var (s, e) := r.value;
      && i <= s && s + 6 <= e <= |content|
      && (ClosingAt(content, TripleDouble, s) == Some(e)
          || (ClosingAt(content, TripleDouble, s).None? && ClosingAt(content, TripleSingle, s) == Some(e)))
    ensures r.Some? ==> forall j :: i <= j < r.value.0 ==>
      ClosingAt(content, TripleDouble, j).None? && ClosingAt(content, TripleSingle, j).None?
    ensures r.None? ==> forall j :: i <= j ==>
      ClosingAt(content, TripleDouble, j).None? && ClosingAt(content, TripleSingle, j).None?
    decreases |content| - i
  {
    if i >= |content| then None
    else match ClosingAt(content, TripleDouble, i)
      case Some(e) => Some((i, e))
      case None =>
        match ClosingAt(content, TripleSingle, i)
        case Some(e) => Some((i, e))
        case None => FindDocstring(content, i + 1)
  }

  // ------------------------------------------------- writing headers

  /**
   * What `write_headers_to_files` does to one listed file whose text is
   * `content`: `None` when the file is left as it is, otherwise its new
   * text. Unless the description is "N/A", the first docstring of a ".py"
   * file is replaced by the header; otherwise the header, a blank line and
   * the old text are written.
   */
  function UpdatedContent(md: map<Field, string>, p: FsPath, content: string, fill: string -> string): Result<Option<string>> {
    if ContentHasHeader(content) then Ok(None)
    else
      match FileHeader(md, p, fill)
      case Err(e) => Err(e)
      case Ok(h) =>
        var replace := (FileDescription !in md || md[FileDescription] != "N/A") && Suffix(p.name) == ".py";
        Ok(Some(Rewritten(content, h, replace)))
  }

  /**
   * The new text for header `h` as its authors intend: the header takes the
   * place of the first docstring when `replace` holds and there is one, and
   * otherwise comes first, followed by a blank line. Either way it is
   * inserted as it is; `RewrittenAsWritten` is what the code does.
   */
  function Rewritten(content: string, h: string, replace: bool): string {
    var found := if replace then FindDocstring(content, 0) else None;
    match found
    case Some((s, e)) => content[..s] + h + content[e..]
    case None => h + "\n\n" + content
  }

  // ------------------------------------------------- replacement templates

  /** The one-letter escapes of a replacement template and the characters they stand for. */
  function CharEscape(c: char): (r: Option<char>)
    ensures r.Some? <==> c in "abfnrtv"
  {
    if c == 'a' then Some('\U{07}')
    else if c == 'b' then Some('\U{08}')
    else if c == 'f' then Some('\U{0c}')
    else if c == 'n' then Some('\n')
    else if c == 'r' then Some('\r')
    else if c == 't' then Some('\t')
    else if c == 'v' then Some('\U{0b}')
    else None
  }

  /** Prepends text to an expansion, which may lie outside the model. */
  function PrependText(pre: string, rest: Option<string>): Option<string> {
    match rest
    case Some(t) => Some(pre + t)
    case None => None
  }

  /**
   * The text a `regex.sub` replacement template stands for, given the text
   * the pattern matched (the docstring pattern's one group is the whole
   * match): a backslash pair is one backslash, `\a \b \f \n \r \t \v` are
   * control characters, and `\g<0>` and `\g<1>` insert the match. Other
   * escapes (numbered references, octal, hex and named characters, unknown
   * letters, a lone final backslash) are outside this model: `None`.
   */
  function Expand(template: string, matched: string): Option<string>
    decreases |template|
  {
    if template == "" then Some("")
    else if template[0] != '\\' then PrependText([template[0]], Expand(template[1..], matched))
    else if |template| >= 2 && template[1] == '\\' then PrependText("\\", Expand(template[2..], matched))
    else if |template| >= 2 && CharEscape(template[1]).Some? then
      PrependText([CharEscape(template[1]).value], Expand(template[2..], matched))
    else if StartsWith(template[1..], "g<0>") || StartsWith(template[1..], "g<1>") then
      PrependText(matched, Expand(template[5..], matched))
    else None
  }

  /** A template without backslashes stands for itself. */
  lemma {:induction false} ExpandLiteral(template: string, matched: string)
    requires '\\' !in template
    ensures Expand(template, matched) == Some(template)
    decreases |template|
  {
    if template != "" {
      ExpandLiteral(template[1..], matched);
      assert [template[0]] + template[1..] == template;
    }
  }

  /** A backslash-free prefix of a template is copied before the rest is expanded. */
  lemma {:induction false} ExpandPrefix(a: string, rest: string, matched: string)
    requires '\\' !in a
    ensures Expand(a + rest, matched) == PrependText(a, Expand(rest, matched))
    decreases |a|
  {
    if a != "" {
      var t := a + rest;
      assert t[0] == a[0] && t[1..] == a[1..] + rest;
      ExpandPrefix(a[1..], rest, matched);
      if Expand(rest, matched).Some? {
        assert [a[0]] + (a[1..] + Expand(rest, matched).value) == a + Expand(rest, matched).value;
      }
    } else {
      assert a + rest == rest;
      if Expand(rest, matched).Some? {
        assert a + Expand(rest, matched).value == Expand(rest, matched).value;
      }
    }
  }

  /**
   * The new text as `write_headers_to_files` writes it: in place of a
   * docstring, `re.sub` reads the header `h` as a replacement template, with
   * the docstring as the match. `None` where the header holds an escape
   * outside this model.
   */
  function RewrittenAsWritten(content: string, h: string, replace: bool): Option<string> {
    var found := if replace then FindDocstring(content, 0) else None;
    match found
    case Some((s, e)) =>
      (match Expand(h, content[s..e])
       case Some(x) => Some(content[..s] + x + content[e..])
       case None => None)
    case None => Some(h + "\n\n" + content)
  }

  /** A header without backslashes is written as it is: code and intent agree. */
  lemma RewrittenAsWrittenLiteral(content: string, h: string, replace: bool)
    requires '\\' !in h
    ensures RewrittenAsWritten(content, h, replace) == Some(Rewritten(content, h, replace))
  {
    var found := if replace then FindDocstring(content, 0) else None;
    if found.Some? {
      var (s, e) := found.value;
      ExpandLiteral(h, content[s..e]);
    }
  }

  /**
   * A header that holds a backslash followed by 'n' (as one does whose
   * description is a docstring documenting "\n") gets a line break there
   * when it replaces a docstring, so the text written is not the header
   * spliced in.
   */
  lemma EscapedHeaderDiffers(content: string, a: string, b: string)
    requires '\\' !in a && '\\' !in b
    requires FindDocstring(content, 0).Some?
    ensures var (s, e) := FindDocstring(content, 0).value;
      RewrittenAsWritten(content, a + "\\n" + b, true) == Some(content[..s] + a + "\n" + b + content[e..])
    ensures RewrittenAsWritten(content, a + "\\n" + b, true) != Some(Rewritten(content, a + "\\n" + b, true))
  {
    var (s, e) := FindDocstring(content, 0).value;
    var h := a + "\\n" + b;
    ExpandNewlineEscape(a, b, content[s..e]);
    assert content[..s] + (a + "\n" + b) + content[e..] == content[..s] + a + "\n" + b + content[e..];
    var written := content[..s] + a + "\n" + b + content[e..];
    assert |written| + 1 == |content[..s] + h + content[e..]|;
  }

  /** The escape `\n` between two backslash-free parts becomes a line break. */
  lemma ExpandNewlineEscape(a: string, b: string, matched: string)
    requires '\\' !in a && '\\' !in b
    ensures Expand(a + "\\n" + b, matched) == Some(a + "\n" + b)
  {
    assert a + "\\n" + b == a + ("\\n" + b);
    ExpandPrefix(a, "\\n" + b, matched);
    var tail := "\\n" + b;
    assert tail[0] == '\\' && tail[1] == 'n' && tail[2..] == b;
    ExpandLiteral(b, matched);
    assert Expand(tail, matched) == Some("\n" + b);
    assert a + ("\n" + b) == a + "\n" + b;
  }

  /** A file that already carries a header is left untouched. */
  lemma HeaderedFileUntouched(md: map<Field, string>, p: FsPath, content: string, fill: string -> string)
    requires ContentHasHeader(content)
    ensures UpdatedContent(md, p, content, fill) == Ok(None)
  {
  }

  /**
   * The rewritten text starts with the header when any docstring it replaces
   * opened the file.
   */
  lemma RewrittenStartsWithHeader(content: string, h: string, replace: bool) returns (t: string)
    requires replace && FindDocstring(content, 0).Some? ==> FindDocstring(content, 0).value.0 == 0
    ensures Rewritten(content, h, replace) == h + t
  {
    var found := if replace then FindDocstring(content, 0) else None;
    if found.Some? {
      var (s, e) := found.value;
      assert content[..s] == "";
      t := content[e..];
      assert content[..s] + h + t == h + t;
    } else {
      t := "\n\n" + content;
      assert h + "\n\n" + content == h + t;
    }
  }

  /**
   * Writing is idempotent when the new header is itself detected and any
   * replaced docstring opened the file: the next run leaves the file alone.
   */
  lemma RewrittenFileIsSkipped(md: map<Field, string>, p: FsPath, content: string, fill: string -> string)
    requires UpdatedContent(md, p, content, fill).Ok? && UpdatedContent(md, p, content, fill).value.Some?
    requires ContentHasHeader(FileHeader(md, p, fill).value)
    requires FindDocstring(content, 0).Some? ==> FindDocstring(content, 0).value.0 == 0
    ensures UpdatedContent(md, p, UpdatedContent(md, p, content, fill).value.value, fill) == Ok(None)
  {
    var h := FileHeader(md, p, fill).value;
    var replace := (FileDescription !in md || md[FileDescription] != "N/A") && Suffix(p.name) == ".py";
    var c := Rewritten(content, h, replace);
    assert UpdatedContent(md, p, content, fill).value.value == c;
    var t := RewrittenStartsWithHeader(content, h, replace);
    HeaderSurvivesAppend(h, t);
    HeaderedFileUntouched(md, p, c, fill);
  }
}
