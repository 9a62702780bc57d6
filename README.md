# toc-generator: the heading-to-bullet-list renderer in Dafny

toc-generator reads markdown files and builds one README. For each file, the
README gets a nested table of contents made from that file's headings. This
project models the part of `src/index.js` that turns a file's heading tokens
into that bullet list, and proves what the list looks like.

- `getBullet` is the marker lookup for a heading level.
- `clearContentHeading` turns heading text into display text. It first cuts
  the text at the last `(`, then keeps what lies between the first `[` and the
  last `]`. This is done with JavaScript's `includes`, `indexOf`,
  `lastIndexOf` and `substring`, which follow ECMAScript 2015 sections
  21.1.3.7, 21.1.3.8, 21.1.3.9 and 21.1.3.19. `substring` clamps both of its
  arguments into range and swaps them when they are out of order.
- `makeElement` loops over the tokens. For each one it appends an indented
  markdown link line to an output string.
- Two smaller pieces are also modelled:
  - `readFolder` adds a trailing `/` to a folder path that lacks one;
  - the README starts with the header line `# Table of contents`.
- The README file is modelled as a class with a text field. `initReadme` sets
  it to the header line; `addFolderHeading` and `readFile` then append to it.

The model has three modules:

- `JsString` (`js_string.dfy`) holds the JavaScript string operations, plus
  `split("\n")` and joining, which are used to state facts about lines.
- `Toc` (`toc.dfy`) holds the bullet lookup, the heading normaliser, line
  rendering, `makeElement`, and the folder path normalisation.
  - `makeElement` is a method with a loop. It is proved equal to `Rendered`,
    which joins the per-token lines in token order.
  - The lemmas about `Rendered` describe the output: one line per token, its
    indentation, and its line ends.
- `Readme` (`readme.dfy`) is the README file as an append-only text.

Inputs that come from libraries or the file system are parameters:

- the heading tokens `{lvl, content, slug}` from the markdown parser;
- the already-encoded path `encodeURI(path)`;
- the `length` property of the parse result, as the integer
  `renderedLength` (a JavaScript `undefined` behaves like any integer outside
  `1..n`);
- the file's extension, as `path.extname` returns it;
- a folder's base name.

## Model

| member | source | states |
|---|---|---|
| JsString.IndexOf | src/index.js:126 | `indexOf` with a one-character argument: -1 exactly when the character is absent, otherwise a position holding it with no earlier occurrence |
| JsString.LastIndexOf | src/index.js:122 | `lastIndexOf`: -1 exactly when the character is absent, otherwise a position holding it with no later occurrence |
| JsString.Clamp | src/index.js:121-127 | an index argument of `substring` below 0 becomes 0, one above the length becomes the length, and one in range is kept |
| JsString.Substring | src/index.js:121-127 | `substring` with clamping and swapping always returns a contiguous piece of the string, never longer than it |
| JsString.SubstringInRange | src/index.js:121-127 | in-range, ordered arguments give the plain slice |
| JsString.SubstringSymmetric | src/index.js:126 | swapping the two arguments never changes the result |
| JsString.SubstringNegativeEnd | src/index.js:126 | a negative end, such as a -1 from `lastIndexOf`, gives the prefix up to the clamped start |
| Toc.InitialText | src/index.js:33-36 | the README starts as exactly `# Table of contents` and one newline, and that newline is its last and only line end |
| Toc.GetBullet | src/index.js:110-118 | at most one character; non-empty exactly for levels 1 to 4, and then one of `-`, `*`, `+`; never a line terminator |
| Toc.BulletTable | src/index.js:110-118 | level 1 gives `-`, 2 gives `*`, 3 gives `+`, 4 gives `-` (the same as level 1), and every other level gives the empty string |
| Toc.BulletsAlternate | src/index.js:111-115 | adjacent levels 1 to 4 get different markers |
| Toc.CutAtLastParen | src/index.js:121-123 | text without `(` is unchanged; otherwise the result is the prefix that stops right before a `(` with no `(` after it, so it is strictly shorter |
| Toc.UnwrapBrackets | src/index.js:125-127 | text without `[` is unchanged. Otherwise there are three cases: first `[` before the last `]` gives the text strictly between them; no `]` gives the prefix up to and including the first `[`; last `]` before the first `[` gives the text from that `]` through the `[`. Every result is a slice of the input |
| Toc.ClearContentHeading | src/index.js:120-130 | text with neither `(` nor `[` is unchanged; with `(` but no `[` the result is the prefix before the last `(`; every result is a slice of the input, no longer than it, made only of its characters |
| Toc.ClearUnwrapsLabel | src/index.js:121-127 | when, after the cut, the first `[` precedes the last `]`, the display text is exactly what lies between them |
| Toc.ClearKeepsUnclosedBracket | src/index.js:125-127 | when, after the cut, there is a `[` but no `]`, the display text is the prefix through the first `[` |
| Toc.ClearLinkShowsLabel | src/index.js:120-130 | a heading of the form `[caption](url)`, with no `(` in the url, displays exactly its caption, whatever the caption holds |
| Toc.FirstIndexUnique | src/index.js:126 | a first occurrence located by hand is the one `indexOf` returns |
| Toc.LastIndexUnique | src/index.js:122 | a last occurrence located by hand is the one `lastIndexOf` returns |
| Toc.ClearExampleParenthetical | src/index.js:120-130 | `Title (anchor)` becomes `Title ` |
| Toc.ClearExampleLink | src/index.js:120-130 | `[Label](url)` becomes `Label` |
| Toc.ClearExampleUnclosed | src/index.js:125-127 | `ab[c` becomes `ab[` |
| Toc.IndentString | src/index.js:140 | on one non-blank line, `indentString` puts `count` times the length of `indent` characters, all drawn from `indent`, in front of the line, and keeps the line intact after them |
| Toc.IndentStringSpaces | src/index.js:140 | with the two-space unit, the line gains exactly `2 · count` leading spaces |
| Toc.LineEnd | src/index.js:136 | the line end is empty exactly when `i + 1` equals the `length` property, and is a newline otherwise |
| Toc.LineIsIndentable | src/index.js:139-140 | every string passed to `indentString` is one non-blank line, optionally ending in a newline, so it is indented as a single line |
| Toc.Line | src/index.js:136-140 | the string appended for a token is `2·lvl` spaces, the bullet, ` [`, the display text, `](`, the encoded path, `#`, the slug, `)`, and the line end |
| Toc.Lines | src/index.js:135-141 | one appended string per token |
| Toc.MakeLine | src/index.js:135-141 | the forEach callback returns the string that `Line` specifies for that token and position |
| Toc.MakeElement | src/index.js:132-144 | the loop's output is the per-token lines joined in token order |
| Toc.ItemIsOneLine | src/index.js:139 | a token's indented link holds no newline |
| Toc.LinesShape | src/index.js:136-140 | each appended string is the token's visible line followed by its line end |
| Toc.RenderedLines | src/index.js:135-141 | split at newlines, the output is exactly the tokens' visible lines in token order. An empty line follows them when no position matches the `length` property, and none follows when that property equals the token count |
| Toc.RenderedNewlines | src/index.js:136 | the output has one newline per token, minus one when some position matches the `length` property |
| Toc.RenderedTwoTokens | src/index.js:132-144 | two tokens render as the first token's line followed by the second's |
| Toc.LineExampleLevelOne | src/index.js:136-140 | heading `A` at level 1 with slug `a` in `doc.md` becomes two spaces, `- [A](doc.md#a)` and a newline |
| Toc.LineExampleLevelTwo | src/index.js:136-140 | heading `B` at level 2 with slug `b` in `doc.md` becomes four spaces, `* [B](doc.md#b)` and a newline |
| Toc.RenderedExample | src/index.js:132-144 | those two headings render as the two lines in order, each ending in a newline when the `length` property matches no position |
| Toc.LineRevealsLevel | src/index.js:137-140 | a line starts with `2·lvl` spaces (plus one for levels without a bullet), so level 1 is indented by 2; halving the indentation gives back the level |
| Toc.FolderPath | src/index.js:87-89 | the normalised path ends in `/`; a path already ending in `/` is unchanged, any other gets one `/` appended |
| Toc.FolderPathIdempotent | src/index.js:87-89 | normalising twice is normalising once |
| Toc.FolderPathOfChild | src/index.js:99 | the path of a child directory passed to the recursive call, `fileWithPath + '/'`, is left unchanged by the normalisation |
| Readme.FolderHeading | src/index.js:83 | the folder heading starts with a newline and ends with two |
| Readme.FolderHeadingLines | src/index.js:83 | split at newlines, a folder heading is an empty line, the `## [name](path)` line, and two empty lines |
| Readme.Document.Init | src/index.js:26-39 | after `initReadme` the README holds exactly the header line |
| Readme.Document.AddFolderHeading | src/index.js:81-84 | the folder heading is appended and the header stays first |
| Readme.Document.ReadFile | src/index.js:146-152 | a `.md` file appends `makeElement`'s output, any other file changes nothing; the header stays first |

## Left out

- Command-line parsing, the argument-count check, process exit, console
  logging and the thrown "not a file" and "not a directory" errors are not
  modelled. They are plumbing with no logic.
- File-system calls are not modelled: `readdirSync`, `lstatSync` and
  `readFileSync`. The README file's text is a class field; its name
  (`--readmefile`) is not modelled.
- The directory walk of `readFolder` is left out. Its visiting order depends on
  the file system. Only its path normalisation and the path it passes to the
  recursive call are modelled.
- The `readdirSync` callback in `start` is never called, and it only logs.
- Markdown parsing and slug generation (Remarkable with the markdown-toc
  plugin, `render`) are not modelled. Tokens are an input.
- `encodeURI`, `path.basename` and `path.extname` are not modelled. Their
  results are parameters.
- Toc.IndentString: `indent-string` is modelled only on one non-blank line
  that may end in a newline. That is the only shape `makeElement` passes to it
  when the heading text, the slug and the encoded path have no line
  terminator; `WellFormed` requires this. Multi-line headings are not covered.
- Toc.Token: levels are natural numbers. `indent-string` throws on a negative
  count, and the parser never reports one.
- JsString.IndexOf: characters are Unicode scalar values, not UTF-16 code
  units. The searched characters are all in the Basic Multilingual Plane. The
  positions differ from JavaScript's only for text with astral characters,
  and the resulting slice is the same.

Two behaviours of the code worth knowing; the model follows the code:

- A heading with a `[` and no `]` never reads out of range.
  `lastIndexOf` gives -1, `substring` clamps it to 0 and swaps the
  arguments, so the text up to and including the first `[` is kept (see
  `Toc.ClearKeepsUnclosedBracket` and `Toc.ClearExampleUnclosed`).
- The last-line check compares `i + 1` with the `length` property of the
  parse result, not with a character count. It is the parameter
  `renderedLength`. `Toc.RenderedLines` and `Toc.RenderedNewlines` state the
  output for both cases: when the property matches no position, which gives a
  trailing newline after every line, and when it equals the token count.
