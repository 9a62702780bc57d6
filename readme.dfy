/** The readme file the generator writes, modelled as the text it holds. The
    program only ever truncates it once (initReadme) and then appends to it
    (addFolderHeading, readFile), so the file is a string field that the
    methods extend. */
module Readme {
  import opened JsString
  import opened Toc

  /** The heading that addFolderHeading appends for a folder: a blank line,
      a level-2 heading linking the folder, and two line ends. */
  function FolderHeading(baseName: string, encodedPath: string): (r: string)
    ensures |r| == |baseName| + |encodedPath| + 10
    ensures r[0] == '\n' && r[|r| - 2..] == "\n\n"
  {
    "\n## [" + baseName + "](" + encodedPath + ")\n\n"
  }

  /** Split into lines, a folder heading is an empty line, the heading line
      itself, and two empty lines. */
  lemma FolderHeadingLines(baseName: string, encodedPath: string)
    requires '\n' !in baseName && '\n' !in encodedPath
    ensures SplitLines(FolderHeading(baseName, encodedPath))
            == ["", "## [" + baseName + "](" + encodedPath + ")", "", ""]
  {
    var h := "## [" + baseName + "](" + encodedPath + ")";
    assert '\n' !in h;
    var tail := "" + "\n" + "";
    assert FolderHeading(baseName, encodedPath) == "" + "\n" + (h + "\n" + tail);
    SplitJoin("", h + "\n" + tail);
    SplitJoin(h, tail);
    SplitJoin("", "");
    SplitOneLine(h);
    SplitOneLine("");
  }

  class Document {
    /** The contents of the readme file. */
    var text: string

    /** The file starts with the table-of-contents header. */
    ghost predicate Valid()
      reads this
    {
      |InitialText()| <= |text| && text[..|InitialText()|] == InitialText()
    }

    /** initReadme: the file is emptied and then holds only the header line. */
    constructor Init()
      ensures text == InitialText()
      ensures Valid()
    {
      text := "";
      var output := "";
      if TocHeader != "" {
        output := TocHeader + "\n";
      }
      text := output;
    }

    /** addFolderHeading: the folder heading is appended and nothing else
        changes. */
    method AddFolderHeading(baseName: string, encodedPath: string)
      requires Valid()
      modifies this
      ensures text == old(text) + FolderHeading(baseName, encodedPath)
      ensures Valid()
    {
      text := text + "\n## [" + baseName + "](" + encodedPath + ")\n\n";
    }

    /** readFile: a file whose extension is ".md" has its table of contents
        appended; any other file leaves the readme as it was. */
    method ReadFile(extname: string, tokens: seq<Token>, encodedPath: string, renderedLength: int)
      requires Valid()
      requires WellFormed(tokens, encodedPath)
      modifies this
      ensures extname != ".md" ==> text == old(text)
      ensures extname == ".md" ==> text == old(text) + Rendered(tokens, encodedPath, renderedLength)
      ensures Valid()
    {
      if extname != ".md" {
        return;
      }
      var element := MakeElement(tokens, encodedPath, renderedLength);
      text := text + element;
    }
  }
}
