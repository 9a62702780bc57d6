/** The heading-to-bullet-list rendering of the table-of-contents generator
    (src/index.js): the bullet lookup, the heading text normaliser, the
    per-file outline renderer and the folder path normalisation. The markdown
    parser supplies the heading tokens; encodeURI(path) is given already
    encoded. */
module Toc {
  import opened JsString

  /** One heading of a markdown file as the parser reports it: its level,
      its raw text and its anchor slug. Levels are never negative (the
      indentation library rejects a negative count). */
  datatype Token = Token(lvl: nat, content: string, slug: string)

  /** The first line written to every generated README. */
  const TocHeader: string := "# Table of contents"

  /** The README's initial text: the header line when the header is not empty. */
  function InitialText(): (r: string)
    ensures r == "# Table of contents\n"
    ensures |r| > 0 && r[|r| - 1] == '\n' && '\n' !in r[..|r| - 1]
  {
    if TocHeader != "" then TocHeader + "\n" else ""
  }

  // ---------------------------------------------------------------------
  // getBullet

  /** The list marker for a heading level: a fixed table for levels 1 to 4
      and no marker at all for any other level. */
  function GetBullet(lvl: int): (r: string)
    ensures |r| <= 1
    ensures r != "" <==> 1 <= lvl <= 4
    ensures r != "" ==> r[0] in "-*+"
    ensures NoLineTerminator(r)
  {
    match lvl
    case 1 => "-"
    case 2 => "*"
    case 3 => "+"
    case 4 => "-"
    case _ => ""
  }

  /** The marker table of getBullet, level by level. */
  lemma BulletTable()
    ensures GetBullet(1) == "-" && GetBullet(2) == "*"
    ensures GetBullet(3) == "+" && GetBullet(4) == "-"
    ensures GetBullet(1) == GetBullet(4)
    ensures forall lvl :: !(1 <= lvl <= 4) ==> GetBullet(lvl) == ""
  {
  }

  /** Consecutive levels 1 to 4 get different markers, so nested lists are
      told apart; level 4 reuses the marker of level 1. */
  lemma BulletsAlternate(lvl: int)
    requires 1 <= lvl < 4
    ensures GetBullet(lvl) != GetBullet(lvl + 1)
  {
  }

  // ---------------------------------------------------------------------
  // clearContentHeading

  /** First step: when the text has a '(' it is cut just before the last
      one; otherwise it is unchanged. */
  function CutAtLastParen(s: string): (r: string)
    ensures '(' !in s ==> r == s
    ensures '(' in s ==> |r| < |s| && r == s[..|r|] && s[|r|] == '(' && '(' !in s[|r| + 1..]
    ensures IsSlice(r, s)
  {
    if '(' in s then
      var last := LastIndexOf(s, '(');
      SubstringInRange(s, 0, last);
      Substring(s, 0, last)
    else
      assert s == s[0..|s|];
      s
  }

  /** Second step: when the text has a '[', it becomes the substring from
      just after the first '[' up to the last ']', with substring's clamping
      and swapping of its arguments; otherwise it is unchanged. */
  function UnwrapBrackets(t: string): (r: string)
    ensures '[' !in t ==> r == t
    ensures '[' in t && IndexOf(t, '[') < LastIndexOf(t, ']') ==>
              r == t[IndexOf(t, '[') + 1..LastIndexOf(t, ']')]
    ensures '[' in t && ']' !in t ==> r == t[..IndexOf(t, '[') + 1]
    ensures '[' in t && ']' in t && LastIndexOf(t, ']') < IndexOf(t, '[') ==>
              r == t[LastIndexOf(t, ']')..IndexOf(t, '[') + 1]
    ensures IsSlice(r, t)
  {
    if '[' in t then
      Substring(t, IndexOf(t, '[') + 1, LastIndexOf(t, ']'))
    else
      assert t == t[0..|t|];
      t
  }

  /** The display text of a heading: the parenthetical cut first, then the
      link label unwrapped. The result is always a piece of the input. */
  function ClearContentHeading(s: string): (r: string)
    ensures '(' !in s && '[' !in s ==> r == s
    ensures '(' in s && '[' !in s ==>
              |r| < |s| && r == s[..|r|] && s[|r|] == '(' && '(' !in s[|r| + 1..]
    ensures IsSlice(r, s) && |r| <= |s|
    ensures forall c :: c in r ==> c in s
  {
    var t := CutAtLastParen(s);
    var r := UnwrapBrackets(t);
    SliceOfSlice(r, t, s);
    SliceKeepsChars(r, s);
    SliceKeepsChars(t, s);
    r
  }

  /** When, after the cut, the first '[' comes before the last ']', the
      display text is exactly what lies strictly between them. */
  lemma ClearUnwrapsLabel(s: string, f: nat, l: nat)
    requires var t := CutAtLastParen(s);
      f < l < |t| && t[f] == '[' && '[' !in t[..f] && t[l] == ']' && ']' !in t[l + 1..]
    ensures ClearContentHeading(s) == CutAtLastParen(s)[f + 1..l]
  {
    var t := CutAtLastParen(s);
    FirstIndexUnique(t, '[', f);
    LastIndexUnique(t, ']', l);
  }

  /** An unbalanced '[' (no ']' after the cut) keeps the prefix up to and
      including the first '['. */
  lemma ClearKeepsUnclosedBracket(s: string, f: nat)
    requires var t := CutAtLastParen(s);
      f < |t| && t[f] == '[' && '[' !in t[..f] && ']' !in t
    ensures ClearContentHeading(s) == CutAtLastParen(s)[..f + 1]
  {
    FirstIndexUnique(CutAtLastParen(s), '[', f);
  }

  /** A first occurrence found by hand is the one indexOf reports. */
  lemma FirstIndexUnique(t: string, c: char, f: nat)
    requires f < |t| && t[f] == c && c !in t[..f]
    ensures IndexOf(t, c) == f
  {
  }

  /** A last occurrence found by hand is the one lastIndexOf reports. */
  lemma LastIndexUnique(t: string, c: char, l: nat)
    requires l < |t| && t[l] == c && c !in t[l + 1..]
    ensures LastIndexOf(t, c) == l
  {
  }

  /** A trailing parenthetical is dropped, with the space before it kept. */
  lemma ClearExampleParenthetical()
    ensures ClearContentHeading("Title (anchor)") == "Title "
  {
    var s := "Title (anchor)";
    assert s[6] == '(';
    assert '(' !in s[7..] by { assert s[7..] == "anchor)"; }
    LastIndexUnique(s, '(', 6);
    var t := CutAtLastParen(s);
    assert t == s[..6] == "Title ";
    assert '[' !in t;
  }

  /** A heading that is a markdown link `[caption](url)` shows just its caption,
      whatever the caption holds, as long as the url has no '('. */
  lemma ClearLinkShowsLabel(caption: string, url: string)
    requires '(' !in url
    ensures ClearContentHeading("[" + caption + "](" + url + ")") == caption
  {
    var s := "[" + caption + "](" + url + ")";
    var n := |caption|;
    assert s[n + 2] == '(';
    assert s[n + 3..] == url + ")";
    LastIndexUnique(s, '(', n + 2);
    var t := CutAtLastParen(s);
    assert t == s[..n + 2] == "[" + caption + "]";
    assert t[..0] == [] && t[n + 2..] == [];
    ClearUnwrapsLabel(s, 0, n + 1);
    assert t[1..n + 1] == caption;
  }

  /** A markdown link loses its target first and its brackets second. */
  lemma ClearExampleLink()
    ensures ClearContentHeading("[Label](url)") == "Label"
  {
    var heading := "[Label](url)";
    var caption, url := "Label", "url";
    var s := "[" + caption + "](" + url + ")";
    assert |s| == |heading| == 12;
    assert forall k | 0 <= k < 12 :: s[k] == heading[k];
    assert s == heading;
    ClearLinkShowsLabel(caption, url);
  }

  /** An unclosed bracket keeps the text up to and including it. */
  lemma ClearExampleUnclosed()
    ensures ClearContentHeading("ab[c") == "ab["
  {
    FirstIndexUnique("ab[c", '[', 2);
  }

  // ---------------------------------------------------------------------
  // One rendered line

  /** The characters after which a JavaScript multiline regular expression
      starts a new line. */
  predicate IsLineTerminator(c: char) {
    c == '\n' || c == '\r' || c == '\U{2028}' || c == '\U{2029}'
  }

  predicate NoLineTerminator(s: string) {
    '\n' !in s && '\r' !in s && '\U{2028}' !in s && '\U{2029}' !in s
  }

  /** The characters the `\s` class of a JavaScript regular expression matches. */
  predicate IsJsSpace(c: char) {
    IsLineTerminator(c) ||
    c in " \t\U{B}\U{C}\U{A0}\U{FEFF}\U{1680}\U{202F}\U{205F}\U{3000}" ||
    '\U{2000}' <= c <= '\U{200A}'
  }

  /** What indent-string treats as one line to indent: a line that is not
      blank, optionally followed by one '\n' (the empty remainder after it is
      blank, and blank lines are left alone). */
  predicate IsIndentableLine(str: string) {
    var body := if |str| > 0 && str[|str| - 1] == '\n' then str[..|str| - 1] else str;
    NoLineTerminator(body) && exists k | 0 <= k < |body| :: !IsJsSpace(body[k])
  }

  /** count copies of unit, one after the other. */
  function Repeat(unit: string, count: nat): (r: string)
    ensures |r| == count * |unit|
    ensures forall c :: c in r ==> c in unit
  {
    if count == 0 then "" else unit + Repeat(unit, count - 1)
  }

  /** indentString(str, count, { indent }) on a single line: the line with
      count copies of indent in front. */
  function IndentString(str: string, count: nat, indent: string): (r: string)
    requires IsIndentableLine(str)
    ensures |r| == count * |indent| + |str|
    ensures r[|r| - |str|..] == str
    ensures forall k | 0 <= k < |r| - |str| :: r[k] in indent
  {
    Repeat(indent, count) + str
  }

  /** The line end of the token at position i: a newline unless i + 1
      equals the `length` property of the parse result. */
  function LineEnd(i: nat, renderedLength: int): (r: string)
    ensures r == "" <==> i + 1 == renderedLength
    ensures r != "" ==> r == "\n"
  {
    if i + 1 != renderedLength then "\n" else ""
  }

  /** The markdown link line `<bullet> [<display>](<path>#<slug>)`. */
  function Link(bullet: string, display: string, encodedPath: string, slug: string): string {
    bullet + " [" + display + "](" + encodedPath + "#" + slug + ")"
  }

  /** The markdown link for a token, before indentation and line end. */
  function LinkItem(tok: Token, encodedPath: string): string {
    Link(GetBullet(tok.lvl), ClearContentHeading(tok.content), encodedPath, tok.slug)
  }

  /** The visible text of a token's line: the link indented by two spaces
      per level. */
  function IndentedItem(tok: Token, encodedPath: string): string {
    Repeat("  ", tok.lvl) + LinkItem(tok, encodedPath)
  }

  /** The heading text, the slug and the encoded path are single lines. */
  predicate WellFormed(tokens: seq<Token>, encodedPath: string) {
    NoLineTerminator(encodedPath) &&
    forall i | 0 <= i < |tokens| ::
      NoLineTerminator(tokens[i].content) && NoLineTerminator(tokens[i].slug)
  }

  lemma JoinKeepsOneLine(a: string, b: string)
    requires NoLineTerminator(a) && NoLineTerminator(b)
    ensures NoLineTerminator(a + b)
  {
  }

  /** A link built from single-line parts is one line, shows a '[' right
      after the bullet and its space, and ends in ')'. */
  lemma LinkIsOneLine(bullet: string, display: string, encodedPath: string, slug: string)
    requires NoLineTerminator(bullet) && NoLineTerminator(display)
    requires NoLineTerminator(encodedPath) && NoLineTerminator(slug)
    ensures var link := Link(bullet, display, encodedPath, slug);
      NoLineTerminator(link) && link[|bullet| + 1] == '[' && link[|link| - 1] == ')'
  {
    var head := bullet + " [";
    var tail := "](" + encodedPath + "#" + slug + ")";
    assert NoLineTerminator(head) && head[|bullet| + 1] == '[';
    assert NoLineTerminator(tail);
    assert Link(bullet, display, encodedPath, slug) == head + display + tail;
    JoinKeepsOneLine(head, display);
    JoinKeepsOneLine(head + display, tail);
  }

  /** So indent-string indents it, line end included, as one line. */
  lemma LinkIsIndentable(
    bullet: string, display: string, encodedPath: string, slug: string, lineEnd: string)
    requires NoLineTerminator(bullet) && NoLineTerminator(display)
    requires NoLineTerminator(encodedPath) && NoLineTerminator(slug)
    requires lineEnd == "" || lineEnd == "\n"
    ensures IsIndentableLine(Link(bullet, display, encodedPath, slug) + lineEnd)
  {
    var link := Link(bullet, display, encodedPath, slug);
    LinkIsOneLine(bullet, display, encodedPath, slug);
    var str := link + lineEnd;
    assert (if |str| > 0 && str[|str| - 1] == '\n' then str[..|str| - 1] else str) == link;
    assert !IsJsSpace(link[|bullet| + 1]);
  }

  /** The display text of a single-line heading is a single line. */
  lemma DisplayIsOneLine(content: string)
    requires NoLineTerminator(content)
    ensures NoLineTerminator(ClearContentHeading(content))
  {
  }

  /** A token's link, line end included, is one line for indent-string. */
  lemma LineIsIndentable(tok: Token, encodedPath: string, lineEnd: string)
    requires NoLineTerminator(tok.content) && NoLineTerminator(tok.slug)
    requires NoLineTerminator(encodedPath)
    requires lineEnd == "" || lineEnd == "\n"
    ensures IsIndentableLine(LinkItem(tok, encodedPath) + lineEnd)
  {
    DisplayIsOneLine(tok.content);
    LinkIsIndentable(GetBullet(tok.lvl), ClearContentHeading(tok.content), encodedPath, tok.slug, lineEnd);
  }

  /** The string that makeElement appends for the token at position i. */
  function Line(tok: Token, i: nat, encodedPath: string, renderedLength: int): (r: string)
    requires NoLineTerminator(tok.content) && NoLineTerminator(tok.slug)
    requires NoLineTerminator(encodedPath)
    ensures r == IndentedItem(tok, encodedPath) + LineEnd(i, renderedLength)
  {
    var lineEnd := LineEnd(i, renderedLength);
    LineIsIndentable(tok, encodedPath, lineEnd);
    IndentString(LinkItem(tok, encodedPath) + lineEnd, tok.lvl, "  ")
  }

  // ---------------------------------------------------------------------
  // makeElement

  /** The strings makeElement appends, one per token, in token order. */
  function Lines(tokens: seq<Token>, encodedPath: string, renderedLength: int): (r: seq<string>)
    requires WellFormed(tokens, encodedPath)
    ensures |r| == |tokens|
  {
    seq(|tokens|, i requires 0 <= i < |tokens| => Line(tokens[i], i, encodedPath, renderedLength))
  }

  /** The whole output of makeElement: the lines joined in token order. */
  function Rendered(tokens: seq<Token>, encodedPath: string, renderedLength: int): string
    requires WellFormed(tokens, encodedPath)
  {
    Concat(Lines(tokens, encodedPath, renderedLength))
  }

  /** The forEach callback of makeElement: the string appended for the
      token at position i. */
  method MakeLine(token: Token, i: nat, encodedPath: string, renderedLength: int)
    returns (line: string)
    requires NoLineTerminator(token.content) && NoLineTerminator(token.slug)
    requires NoLineTerminator(encodedPath)
    ensures line == Line(token, i, encodedPath, renderedLength)
  {
    var lineEnd := if i + 1 != renderedLength then "\n" else "";
    var bullet := GetBullet(token.lvl);
    var content := ClearContentHeading(token.content);
    var str := bullet + " [" + content + "](" + encodedPath + "#" + token.slug + ")" + lineEnd;
    LineIsIndentable(token, encodedPath, lineEnd);
    line := IndentString(str, token.lvl, "  ");
  }

  /** makeElement(renderd, path): one line per token, appended in order to
      an initially empty string. */
  method MakeElement(tokens: seq<Token>, encodedPath: string, renderedLength: int)
    returns (output: string)
    requires WellFormed(tokens, encodedPath)
    ensures output == Rendered(tokens, encodedPath, renderedLength)
  {
    ghost var lines := Lines(tokens, encodedPath, renderedLength);
    output := "";
    for i := 0 to |tokens|
      invariant output == Concat(lines[..i])
    {
      var line := MakeLine(tokens[i], i, encodedPath, renderedLength);
      ConcatPrefix(lines, i);
      output := output + line;
    }
    assert lines[..|tokens|] == lines;
  }

  // ---------------------------------------------------------------------
  // What the rendered outline looks like

  /** The visible lines of the tokens, in token order. */
  function VisibleLines(tokens: seq<Token>, encodedPath: string): (r: seq<string>)
    ensures |r| == |tokens|
  {
    seq(|tokens|, i requires 0 <= i < |tokens| => IndentedItem(tokens[i], encodedPath))
  }

  /** A token's visible line holds no newline. */
  lemma ItemIsOneLine(tok: Token, encodedPath: string)
    requires NoLineTerminator(tok.content) && NoLineTerminator(tok.slug)
    requires NoLineTerminator(encodedPath)
    ensures '\n' !in IndentedItem(tok, encodedPath)
  {
    DisplayIsOneLine(tok.content);
    IndentedLinkIsOneLine(tok.lvl, ClearContentHeading(tok.content), encodedPath, tok.slug);
  }

  /** The indented link of single-line parts is one line. */
  lemma IndentedLinkIsOneLine(lvl: nat, display: string, encodedPath: string, slug: string)
    requires NoLineTerminator(display) && NoLineTerminator(encodedPath) && NoLineTerminator(slug)
    ensures '\n' !in Repeat("  ", lvl) + Link(GetBullet(lvl), display, encodedPath, slug)
  {
    LinkIsOneLine(GetBullet(lvl), display, encodedPath, slug);
    assert '\n' !in Repeat("  ", lvl);
  }

  /** Each appended string is the token's visible line and its line end. */
  lemma LinesShape(tokens: seq<Token>, encodedPath: string, renderedLength: int, i: nat)
    requires WellFormed(tokens, encodedPath) && i < |tokens|
    ensures Lines(tokens, encodedPath, renderedLength)[i]
            == VisibleLines(tokens, encodedPath)[i] + LineEnd(i, renderedLength)
    ensures '\n' !in VisibleLines(tokens, encodedPath)[i]
  {
    ItemIsOneLine(tokens[i], encodedPath);
  }

  /** makeElement emits exactly one line per token, the i-th line being the
      i-th token's link indented by its level. When no position matches the
      `length` property every line, the last one included, ends in a
      newline; when the `length` property equals the token count the last
      line has none. */
  lemma RenderedLines(tokens: seq<Token>, encodedPath: string, renderedLength: int)
    requires WellFormed(tokens, encodedPath)
    ensures !(1 <= renderedLength <= |tokens|) ==>
              SplitLines(Rendered(tokens, encodedPath, renderedLength))
              == VisibleLines(tokens, encodedPath) + [""]
    ensures 1 <= renderedLength == |tokens| ==>
              SplitLines(Rendered(tokens, encodedPath, renderedLength))
              == VisibleLines(tokens, encodedPath)
  {
    var n := |tokens|;
    var lines := Lines(tokens, encodedPath, renderedLength);
    var visible := VisibleLines(tokens, encodedPath);
    if !(1 <= renderedLength <= n) {
      forall i | 0 <= i < n ensures lines[i] == visible[i] + "\n" && '\n' !in visible[i] {
        LinesShape(tokens, encodedPath, renderedLength, i);
      }
      SplitConcatEachEnded(lines, visible);
    } else if renderedLength == n {
      forall i | 0 <= i < n - 1 ensures lines[i] == visible[i] + "\n" && '\n' !in visible[i] {
        LinesShape(tokens, encodedPath, renderedLength, i);
      }
      LinesShape(tokens, encodedPath, renderedLength, n - 1);
      SplitConcatLastOpen(lines, visible);
    }
  }

  /** Each appended string holds one newline, or none at the position that
      matches the `length` property. */
  lemma LineNewlines(tokens: seq<Token>, encodedPath: string, renderedLength: int, i: nat)
    requires WellFormed(tokens, encodedPath) && i < |tokens|
    ensures Count(Lines(tokens, encodedPath, renderedLength)[i], '\n')
            == if i + 1 == renderedLength then 0 else 1
  {
    LinesShape(tokens, encodedPath, renderedLength, i);
    CountJoin(VisibleLines(tokens, encodedPath)[i], LineEnd(i, renderedLength), '\n');
  }

  lemma {:induction false} PrefixNewlines(
    tokens: seq<Token>, encodedPath: string, renderedLength: int, k: nat)
    requires WellFormed(tokens, encodedPath) && k <= |tokens|
    ensures CountEach(Lines(tokens, encodedPath, renderedLength)[..k], '\n')
            == if 1 <= renderedLength <= k then k - 1 else k
  {
    if k > 0 {
      var lines := Lines(tokens, encodedPath, renderedLength);
      assert lines[..k][..k - 1] == lines[..k - 1];
      PrefixNewlines(tokens, encodedPath, renderedLength, k - 1);
      LineNewlines(tokens, encodedPath, renderedLength, k - 1);
    }
  }

  /** Every token contributes exactly one newline, except the one at the
      position that matches the `length` property, if any. */
  lemma RenderedNewlines(tokens: seq<Token>, encodedPath: string, renderedLength: int)
    requires WellFormed(tokens, encodedPath)
    ensures Count(Rendered(tokens, encodedPath, renderedLength), '\n')
            == if 1 <= renderedLength <= |tokens| then |tokens| - 1 else |tokens|
  {
    var lines := Lines(tokens, encodedPath, renderedLength);
    CountConcat(lines, '\n');
    PrefixNewlines(tokens, encodedPath, renderedLength, |tokens|);
    assert lines[..|tokens|] == lines;
  }

  /** Two tokens render as the first token's line followed by the second's. */
  lemma RenderedTwoTokens(t0: Token, t1: Token, encodedPath: string, renderedLength: int)
    requires NoLineTerminator(t0.content) && NoLineTerminator(t0.slug)
    requires NoLineTerminator(t1.content) && NoLineTerminator(t1.slug)
    requires NoLineTerminator(encodedPath)
    ensures WellFormed([t0, t1], encodedPath)
    ensures Rendered([t0, t1], encodedPath, renderedLength)
            == Line(t0, 0, encodedPath, renderedLength) + Line(t1, 1, encodedPath, renderedLength)
  {
    ConcatTwo(Lines([t0, t1], encodedPath, renderedLength));
  }

  /** A level-1 heading: two spaces, the '-' marker, and a newline. */
  lemma LineExampleLevelOne()
    ensures Line(Token(1, "A", "a"), 0, "doc.md", -1) == "  - [A](doc.md#a)\n"
  {
    var expected := "  - [A](doc.md#a)\n";
    var r := Repeat("  ", 1) + Link(GetBullet(1), ClearContentHeading("A"), "doc.md", "a") + LineEnd(0, -1);
    assert ClearContentHeading("A") == "A";
    assert Repeat("  ", 1) == "  ";
    assert |r| == |expected| == 18;
    assert forall k | 0 <= k < 18 :: r[k] == expected[k];
    assert r == expected;
  }

  /** A level-2 heading: four spaces, the '*' marker, and a newline. */
  lemma LineExampleLevelTwo()
    ensures Line(Token(2, "B", "b"), 1, "doc.md", -1) == "    * [B](doc.md#b)\n"
  {
    var expected := "    * [B](doc.md#b)\n";
    var r := Repeat("  ", 2) + Link(GetBullet(2), ClearContentHeading("B"), "doc.md", "b") + LineEnd(1, -1);
    assert ClearContentHeading("B") == "B";
    assert Repeat("  ", 2) == "    ";
    assert |r| == |expected| == 20;
    assert forall k | 0 <= k < 20 :: r[k] == expected[k];
    assert r == expected;
  }

  /** Two nested headings of "doc.md", with a `length` property that matches
      no position, so both lines end in a newline. */
  lemma RenderedExample()
    ensures Rendered([Token(1, "A", "a"), Token(2, "B", "b")], "doc.md", -1)
            == "  - [A](doc.md#a)\n" + "    * [B](doc.md#b)\n"
  {
    RenderedTwoTokens(Token(1, "A", "a"), Token(2, "B", "b"), "doc.md", -1);
    LineExampleLevelOne();
    LineExampleLevelTwo();
  }

  /** The number of spaces s starts with. */
  function LeadingSpaces(s: string): nat {
    if s != [] && s[0] == ' ' then 1 + LeadingSpaces(s[1..]) else 0
  }

  lemma {:induction false} RepeatSpaces(count: nat, x: string)
    ensures LeadingSpaces(Repeat("  ", count) + x) == 2 * count + LeadingSpaces(x)
  {
    var s := Repeat("  ", count) + x;
    if count == 0 {
      assert s == x;
    } else {
      var rest := Repeat("  ", count - 1) + x;
      assert s == "  " + rest;
      assert s[0] == ' ' && s[1..][0] == ' ';
      assert s[1..][1..] == rest;
      RepeatSpaces(count - 1, x);
    }
  }

  /** indent-string with a two-space unit adds exactly 2 * count leading
      spaces to the line. */
  lemma IndentStringSpaces(str: string, count: nat)
    requires IsIndentableLine(str)
    ensures LeadingSpaces(IndentString(str, count, "  ")) == 2 * count + LeadingSpaces(str)
  {
    RepeatSpaces(count, str);
  }

  /** A line's indentation gives back its heading level: 2 * lvl spaces,
      plus the space before '[' when the level has no bullet. */
  lemma LineRevealsLevel(tok: Token, encodedPath: string)
    ensures LeadingSpaces(IndentedItem(tok, encodedPath))
            == 2 * tok.lvl + (if 1 <= tok.lvl <= 4 then 0 else 1)
    ensures LeadingSpaces(IndentedItem(tok, encodedPath)) / 2 == tok.lvl
  {
    ItemSpaces(tok.lvl, ClearContentHeading(tok.content), encodedPath, tok.slug);
  }

  lemma ItemSpaces(lvl: nat, display: string, encodedPath: string, slug: string)
    ensures LeadingSpaces(Repeat("  ", lvl) + Link(GetBullet(lvl), display, encodedPath, slug))
            == 2 * lvl + (if 1 <= lvl <= 4 then 0 else 1)
  {
    var item := Link(GetBullet(lvl), display, encodedPath, slug);
    var bullet := GetBullet(lvl);
    if 1 <= lvl <= 4 {
      assert item[0] == bullet[0];
      LeadingSpacesAt(item, 0);
    } else {
      assert item[0] == ' ' && item[1] == '[';
      LeadingSpacesAt(item, 1);
    }
    RepeatSpaces(lvl, item);
  }

  /** n spaces followed by something else. */
  lemma {:induction false} LeadingSpacesAt(s: string, n: nat)
    requires n < |s| && s[n] != ' '
    requires forall k | 0 <= k < n :: s[k] == ' '
    ensures LeadingSpaces(s) == n
  {
    if n > 0 {
      LeadingSpacesAt(s[1..], n - 1);
    }
  }

  // ---------------------------------------------------------------------
  // readFolder

  /** The trailing-'/' normalisation at the top of readFolder. */
  function FolderPath(path: string): (r: string)
    ensures |r| > 0 && r[|r| - 1] == '/'
    ensures |path| > 0 && path[|path| - 1] == '/' ==> r == path
    ensures !(|path| > 0 && path[|path| - 1] == '/') ==> r == path + "/"
  {
    if |path| > 0 && path[|path| - 1] == '/' then path else path + "/"
  }

  /** Normalising twice is normalising once. */
  lemma FolderPathIdempotent(path: string)
    ensures FolderPath(FolderPath(path)) == FolderPath(path)
  {
  }

  /** The recursive call for a child directory passes a path that the
      normalisation leaves alone. */
  lemma FolderPathOfChild(parent: string, name: string)
    ensures FolderPath(FolderPath(parent) + name + "/") == FolderPath(parent) + name + "/"
  {
  }
}
