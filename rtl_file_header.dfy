/**
 * The source-header writer as kept under Src/RTL/Scripts/write_file_header.py:
 * its metadata always says "N/A" for the description and the purpose, its
 * `HEADER` ends with a newline after the closing separator, and
 * `get_file_header` fills in a Python file's docstring on a copy of the
 * metadata.
 */
module RtlFileHeader {
  import opened Common
  import opened FileHeaders

  /** This copy's `HEADER`: the shared template, then a final newline. */
  const Header: seq<Piece> := HeaderTemplate + [Text("\n")]

  /** `create_file_metadata(fp)`. */
  function CreateFileMetadata(p: FsPath, info: MetaInfo, allocatorDir: DirPath, currentDir: DirPath): map<Field, string> {
    BaseMetadata(p, info, Classify(p, allocatorDir, currentDir), "N/A")[Purpose := "N/A"]
  }

  /**
   * The metadata carries description and purpose "N/A", a 72-dash separator,
   * inputs/outputs only for RTL files, and fills the header template.
   */
  lemma MetadataShape(p: FsPath, info: MetaInfo, allocatorDir: DirPath, currentDir: DirPath)
    ensures var md := CreateFileMetadata(p, info, allocatorDir, currentDir);
      && md[FileDescription] == "N/A" && md[Purpose] == "N/A"
      && md[Separator] == Repeat('-', HeaderWidth - 3)
      && (Inputs in md <==> Classify(p, allocatorDir, currentDir).Rtl?)
      && Format(Header, md).Ok?
  {
    var m := Classify(p, allocatorDir, currentDir);
    BaseMetadataEntries(p, info, m, "N/A");
    MetadataFillsTemplate(p, info, m, "N/A");
    HeaderKeys();
  }

  /** The header names the same fields as the shared template; in particular not the purpose. */
  lemma HeaderKeys()
    ensures Keys(Header) == Keys(HeaderTemplate) && Purpose !in Keys(Header)
  {
    KeysAppend(HeaderTemplate, [Text("\n")]);
    assert Keys([Text("\n")]) == {};
    TemplateKeys();
  }

  /** The purpose entry never reaches the header, whatever it holds. */
  lemma PurposeNeverRendered(md: map<Field, string>, v: string)
    ensures Format(Header, md[Purpose := v]) == Format(Header, md)
  {
    HeaderKeys();
    FormatIgnoresUnusedKey(Header, md, Purpose, v);
  }

  /**
   * The metadata `get_file_header` formats: a copy in which a non-empty
   * docstring of a Python file replaces a description of "N/A".
   */
  function WithDocstring(md: map<Field, string>, isPython: bool, docstring: Option<string>): map<Field, string> {
    if isPython && docstring.Some? && docstring.value != "" && FileDescription in md && md[FileDescription] == "N/A"
    then md[FileDescription := docstring.value]
    else md
  }

  /**
   * The copy has the same entries, all equal except the description, which
   * changes only when the file is Python, the docstring is non-empty and the
   * description was "N/A".
   */
  lemma WithDocstringChangesOnlyDescription(md: map<Field, string>, isPython: bool, docstring: Option<string>)
    ensures var r := WithDocstring(md, isPython, docstring);
      && r.Keys == md.Keys
      && (forall f :: f in md && f != FileDescription ==> r[f] == md[f])
      && (r != md ==> isPython && docstring.Some? && docstring.value != "" && md[FileDescription] == "N/A"
                      && r[FileDescription] == docstring.value)
  {
  }

  /** The text `get_file_header(metadata, file_path)` returns; `docstring` is what `extract_docstring_from_file` gives. */
  function FileHeader(md: map<Field, string>, p: FsPath, docstring: Option<string>, fill: string -> string): Result<string> {
    var isPython := Suffix(p.name) == ".py";
    match Format(Header, WithDocstring(md, isPython, docstring))
    case Err(e) => Err(e)
    case Ok(h) => Ok(if isPython then PythonDocstring(h) else CommentHeader(h, fill))
  }

  /** `get_file_header(metadata, file_path)`: the caller's metadata is a value and stays as it was. */
  method GetFileHeader(md: map<Field, string>, p: FsPath, docstring: Option<string>, fill: string -> string)
    returns (r: Result<string>)
    ensures r == FileHeader(md, p, docstring, fill)
  {
    var isPython := Suffix(p.name) == ".py";
    var metadata := md;
    if isPython {
      if docstring.Some? && docstring.value != "" && FileDescription in metadata && metadata[FileDescription] == "N/A" {
        metadata := metadata[FileDescription := docstring.value];
      }
    }
    var formatted := Format(Header, metadata);
    if formatted.Err? {
      return Err(formatted.error);
    }
    if isPython {
      var text := RenderPython(formatted.value);
      r := Ok(text);
    } else {
      var text := RenderComment(formatted.value, fill);
      r := Ok(text);
    }
  }

  /**
   * Because this copy's template ends in a newline, a Python header's
   * docstring closes after an empty line: it is the shared template's
   * docstring with one more, blank, body line.
   */
  lemma PythonHeaderEndsWithBlankLine(md: map<Field, string>, p: FsPath, docstring: Option<string>, fill: string -> string)
    requires Suffix(p.name) == ".py"
    requires Keys(HeaderTemplate) <= WithDocstring(md, true, docstring).Keys
    ensures var h := Format(HeaderTemplate, WithDocstring(md, true, docstring)).value;
      FileHeader(md, p, docstring, fill)
        == Ok("\"\"\"\n" + Join(CleanLines(Split(h, '\n')), '\n') + "\n" + "\n\"\"\"")
  {
    var h := Format(HeaderTemplate, WithDocstring(md, true, docstring)).value;
    FormatAppendText(HeaderTemplate, WithDocstring(md, true, docstring), "\n");
    PythonDocstringTrailingNewline(h);
  }

  /**
   * What `write_headers_to_files` does to one listed file whose text is
   * `content`: `None` when the license text lies within its first 1000
   * characters, otherwise the header, a blank line and the old text.
   */
  function UpdatedContent(md: map<Field, string>, p: FsPath, content: string, docstring: Option<string>,
                          fill: string -> string): Result<Option<string>> {
    if ContentHasHeader(content) then Ok(None)
    else
      match FileHeader(md, p, docstring, fill)
      case Err(e) => Err(e)
      case Ok(h) => Ok(Some(h + "\n\n" + content))
  }

  /**
   * A headed file is skipped; any other file keeps its whole text after the
   * new header, so once that header is itself detected the next run skips it.
   */
  lemma UpdatedContentSkipsHeadered(md: map<Field, string>, p: FsPath, content: string, docstring: Option<string>,
                                    fill: string -> string)
    ensures ContentHasHeader(content) ==> UpdatedContent(md, p, content, docstring, fill) == Ok(None)
    ensures var r := UpdatedContent(md, p, content, docstring, fill);
      r.Ok? && r.value.Some? ==> EndsWith(r.value.value, content)
    ensures var r := UpdatedContent(md, p, content, docstring, fill);
      (r.Ok? && r.value.Some? && ContentHasHeader(FileHeader(md, p, docstring, fill).value))
      ==> UpdatedContent(md, p, r.value.value, docstring, fill) == Ok(None)
  {
    var r := UpdatedContent(md, p, content, docstring, fill);
    if r.Ok? && r.value.Some? {
      var h := FileHeader(md, p, docstring, fill).value;
      assert r.value.value == (h + "\n\n") + content;
      if ContentHasHeader(h) {
        HeaderSurvivesAppend(h, "\n\n" + content);
        assert h + ("\n\n" + content) == r.value.value;
      }
    }
  }
}
