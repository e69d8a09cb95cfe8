# Clipboard to Markdown, modelled in Dafny

The extension has three clipboard commands.

- **Convert to Markdown** reads the clipboard's HTML, or failing that its text. It picks what to convert in a fixed order:
  1. the rich HTML;
  2. text that looks like HTML;
  3. tab-separated text, which it turns into an HTML table first.

  HTML that looks like a spreadsheet gets its first table row turned into header cells. All HTML is then cleaned of wrapper `<div>`s and `style`, `class` and `data-` attributes before an HTML-to-Markdown library converts it.
- **Convert to Plain Markdown** does the following in order:
  1. strips images, video, audio and iframes;
  2. runs a regular-expression HTML normaliser: icons, Google Docs wrappers, inline styles into `<strong>`/`<em>`, colspan expansion, link placeholders, attribute removal, cell and wrapper clean-up, and header promotion;
  3. converts the result with the same library;
  4. post-processes the Markdown.
- **Markdown to Rich Text** checks whether the text looks like Markdown. On Windows it prefixes the rendered HTML with a CF_HTML header of byte offsets.

A stand-alone conversion script, `test-convert.js`, carries an older copy of the normaliser and of the post-processing.

The model consists of six modules, one file each:

| file | module | models |
|---|---|---|
| `text.dfy` | `Text` | The JavaScript string built-ins the code uses (`trim`, `split`, `join`, `padStart`, `indexOf`, `lastIndexOf`, `String.replace` with a string pattern and `$` patterns, number printing). It also holds one global-replace engine: `Rewrite(s, i, m)` scans left to right and lets a matcher `m` decide, at each index, whether a match starts there, where it ends and what replaces it. `ReplaceAll` is a replace with the `g` flag, and `ReplaceFirst` is one without it. |
| `convert_to_markdown.dfy` | `ConvertToMarkdown` | `looksLikeHtml`, `isTsvContent`, `tsvToHtmlTable` (a method with its loops), the command's selection chain, `isSpreadsheetContent`, `convertFirstRowToHeaders`, `cleanHtml` |
| `plain_markdown.dfy` | `PlainMarkdown` | `convertInlineStylesToSemantic`, `expandColspanRowspan` (the callback's loop is a method), `cleanHtmlLightweight` (a method with the link placeholder list and the fixed-count pass loops), the media strip before it |
| `markdown_cleanup.dfy` | `MarkdownCleanup` | `postProcessMarkdown`, `removeMediaFromMarkdown` |
| `test_convert.dfy` | `TestConvert` | the script's `cleanHtmlLightweight` and `postProcessMarkdown`, compared with the extension's |
| `markdown_to_richtext.dfy` | `MarkdownToRichText` | `looksLikeMarkdown` (twelve patterns), the CF_HTML header and its offsets |

Each regular expression is modelled by a hand-written matcher that follows the JavaScript engine's backtracking order:

- A greedy `[^>]*` followed by a literal settles on the last occurrence of that literal before the first `>`.
- A lazy `.*?` stops at the first closing literal.
- `^` and `$` in multiline mode look at `\n`, `\r`, U+2028 and U+2029.
- `\s` is the full JavaScript white-space set.
- The `i` flag is modelled as ASCII case folding. This is exact here: every pattern's letters are ASCII, and JavaScript's folding without the `u` flag never maps a non-ASCII character to an ASCII one.

Where the code does not do what its comments say, the model keeps both versions. One definition is the code as written. The other is the evident intent, and the rest of the model uses that one. They are listed under Findings.

## Model

| member | source | states |
|---|---|---|
| `ConvertToMarkdown.LooksLikeHtmlProse` | src/convert-to-markdown.tsx:98-101 | Any `<` followed by optional white space, a letter and later a `>` counts as a tag, so the arithmetic prose `a < b > c` looks like HTML. |
| `ConvertToMarkdown.LooksLikeHtmlNeedsLetter` | src/convert-to-markdown.tsx:98-101 | A tag name must start with a letter: `1 < 2 > 0` does not look like HTML. |
| `ConvertToMarkdown.NoCloseNoHtml` | src/convert-to-markdown.tsx:98-101 | Text without a `>` never looks like HTML. |
| `ConvertToMarkdown.TagOpensAtIff` | src/convert-to-markdown.tsx:99 | The pattern matches at `i` exactly when the tag shape occurs there. The shape is `<`, then white space, then a letter and a maximal run of letters and digits. The character after the run is neither a word character nor missing, and a `>` comes later. |
| `ConvertToMarkdown.LooksLikeHtmlIff` | src/convert-to-markdown.tsx:98-101 | Text looks like HTML exactly when that tag shape occurs at some position. |
| `ConvertToMarkdown.TsvLines` | src/convert-to-markdown.tsx:119-120 | Splitting the trimmed text on newlines always gives at least one line. This is why `tsvToHtmlTable`'s empty-result branch is never taken. |
| `ConvertToMarkdown.TabbedCountTwo` | src/convert-to-markdown.tsx:110-112 | The filter counts at least two lines with a tab exactly when two distinct lines contain a tab. |
| `ConvertToMarkdown.IsTsvContentIff` | src/convert-to-markdown.tsx:106-113 | Text is TSV exactly when two distinct lines of the trimmed text contain a tab. The `lines.length < 2` guard is subsumed. |
| `ConvertToMarkdown.TsvToHtmlTable` | src/convert-to-markdown.tsx:118-148 | The string the method builds is the table `TsvTable(tsv)`: a header section from the first line, and a body section only when there are more lines. |
| `ConvertToMarkdown.AppendRows` | src/convert-to-markdown.tsx:133-144 | The loop appends one body row per line after the first, in order. |
| `ConvertToMarkdown.AppendRow` | src/convert-to-markdown.tsx:136-141 | One line is appended as `<tr>`, then one cell line per tab-separated field, then `</tr>`. |
| `ConvertToMarkdown.AppendCells` | src/convert-to-markdown.tsx:127-129 | The `forEach` appends one `<tag>field</tag>` line per field, in order. |
| `ConvertToMarkdown.TrimAll` | src/convert-to-markdown.tsx:128 | Every field is trimmed, and none is dropped or reordered. |
| `ConvertToMarkdown.HeaderWidth` | src/convert-to-markdown.tsx:122-129 | The table begins with `<table>`, `<thead>` and `<tr>`. Then comes one `<th>` line per trimmed field of the first line, so one cell per tab of that line, plus one. |
| `ConvertToMarkdown.BodyRowWidth` | src/convert-to-markdown.tsx:133-141 | Line `r` of the text becomes the body row between the rows of the lines before it and those after it. The row holds one `<td>` line per trimmed field of its own line, so one cell per tab plus one. Rows are not padded to the header's width. |
| `ConvertToMarkdown.TsvTableFrame` | src/convert-to-markdown.tsx:122-146 | The table starts with `<table>\n<thead>\n<tr>\n` and ends with `</table>`. It has no body section exactly when the text has a single line. |
| `ConvertToMarkdown.EmptyTsvTable` | src/convert-to-markdown.tsx:119-130 | Empty text gives a table holding one empty header cell, never the empty string. |
| `ConvertToMarkdown.SelectionPriority` | src/convert-to-markdown.tsx:166-198 | Exactly one of five outcomes holds, each stated as an if-and-only-if in priority order: non-empty HTML, text that looks like HTML, TSV text, other text, empty clipboard. The chosen outcome carries the clipboard field it came from. |
| `ConvertToMarkdown.ConvertibleSelections` | src/convert-to-markdown.tsx:166-208 | HTML reaches the conversion exactly when there is HTML, or text that looks like HTML or is TSV. |
| `ConvertToMarkdown.IsSpreadsheetContentIff` | src/convert-to-markdown.tsx:8-20 | HTML counts as a spreadsheet exactly in two cases. Either it holds `data-sheets-`, or after its leading white space it begins with `<table` (any case) and holds no block tag. In every other case it does not count. |
| `ConvertToMarkdown.StrippedBlockTags` | src/convert-to-markdown.tsx:15-18 | Collapsing white space and trimming neither create nor remove a block tag. |
| `ConvertToMarkdown.StrippedTableStart` | src/convert-to-markdown.tsx:15-17 | The collapsed and trimmed text starts `<table` exactly when the HTML does after its leading white space. |
| `ConvertToMarkdown.SheetsMarkerDecides` | src/convert-to-markdown.tsx:10-12 | A `data-sheets-` marker anywhere makes the HTML count as a spreadsheet. |
| `ConvertToMarkdown.PreCountsAsParagraph` | src/convert-to-markdown.tsx:15-19 | `<pre` followed by a `>` counts as a `<p` block tag (the name is not delimited), so such HTML is not "only a table". |
| `ConvertToMarkdown.TsvTableNotPromoted` | src/convert-to-markdown.tsx:25-37 | The table built from TSV text without `<table` comes out of the header promotion unchanged: its `<table>` is followed by `<thead>`, which the row pattern does not allow, and no other `<table` occurs. |
| `ConvertToMarkdown.HeaderPromotionWithTbody` | src/convert-to-markdown.tsx:25-37 | For `<table><tbody><tr>ROW</tr>…`, the first row's cells become header cells. The captured `<table><tbody>` prefix stays in front of the new `<thead>`, and the rest is untouched. |
| `ConvertToMarkdown.NoTableUnchanged` | src/convert-to-markdown.tsx:25-37 | HTML without `<table` (in any case) is returned unchanged. |
| `ConvertToMarkdown.SemanticContentAsWritten` | src/convert-to-markdown.tsx:45-48 | As written: when no semantic block with a closing tag starts anywhere, the whole HTML is kept. Otherwise the content is read from the first block start. It is a gap-free chain of blocks, and no block starts where it ends. |
| `ConvertToMarkdown.SemanticContent` | src/convert-to-markdown.tsx:45-48 | Corrected: the content is everything from the first block start on, or the whole HTML when no block starts. |
| `ConvertToMarkdown.ContentDropsLaterBlocks` | src/convert-to-markdown.tsx:45-48 | As written, `<p>a</p>\n<p>b</p>` keeps only `<p>a</p>`. The corrected extraction keeps both paragraphs. |
| `ConvertToMarkdown.SemanticContentIsSuffix` | src/convert-to-markdown.tsx:45-48 | The corrected extraction drops only a prefix of the HTML, and no block starts in that prefix. When a block occurs at all, the kept text begins with one, so every later block is kept. |
| `ConvertToMarkdown.LaterBlocksKept` | src/convert-to-markdown.tsx:45-48 | Corrected, every block that starts at or after the first block start is kept whole, at the same place in the content. |
| `ConvertToMarkdown.AsWrittenIsPrefix` | src/convert-to-markdown.tsx:45-48 | The as-written content is a prefix of the corrected content. |
| `ConvertToMarkdown.StripKeepsOtherMarkup` | src/convert-to-markdown.tsx:50-62 | Frame only: HTML in which none of `<div`, `</div>`, `style=`, `class=` and `data-` occurs (in any case) comes through the wrapper and attribute deletions unchanged. What the deletions do where those words occur is `TagAttributesStripped`. |
| `ConvertToMarkdown.AttrQuiet` | src/convert-to-markdown.tsx:55-59 | A quoted-attribute deletion finds nothing, and changes nothing, in text where the attribute's name occurs nowhere. |
| `ConvertToMarkdown.Survivors` | src/convert-to-markdown.tsx:55-62 | The kept attributes are exactly the given ones that are not a `style` in either quote, a `class` in double quotes or a `data-*` in double quotes. |
| `ConvertToMarkdown.QuotedHits` | src/convert-to-markdown.tsx:55-59 | At a plain attribute named `style` or `class` in the pattern's quote, `\s+NAME=q[^q]*q` matches exactly that attribute, from its leading white space to its closing quote. |
| `ConvertToMarkdown.QuotedMisses` | src/convert-to-markdown.tsx:55-59 | Inside any other plain attribute the same pattern matches at no position. |
| `ConvertToMarkdown.DataHits` | src/convert-to-markdown.tsx:62 | At a plain `data-*` attribute in double quotes, `\s+data-[a-z-]+="[^"]*"` matches exactly that attribute. |
| `ConvertToMarkdown.DataMisses` | src/convert-to-markdown.tsx:62 | Inside any other plain attribute the data pattern matches at no position. |
| `ConvertToMarkdown.PassOnAttr` | src/convert-to-markdown.tsx:55-62 | Each of the four attribute deletions, at a plain attribute, either matches from its start to its end (when it is one that deletion removes) or matches nowhere inside it. |
| `ConvertToMarkdown.TagUnderPass` | src/convert-to-markdown.tsx:55-62 | On an opening tag `<NAME attrs>`, one attribute deletion gives `<NAME kept>`, where `kept` is the attributes it does not remove, as written and in order. |
| `ConvertToMarkdown.TagKeptByDivPasses` | src/convert-to-markdown.tsx:51-52 | The `<div[^>]*>` and `</div>` deletions leave an opening tag other than a `div` unchanged. |
| `ConvertToMarkdown.TagAttributesStripped` | src/convert-to-markdown.tsx:50-62 | On `<NAME attrs>` (not a `div`, plain attributes), the deletions give `<NAME survivors>`: the `style`, `class` and `data-*` attributes go, every other attribute stays as written and in order, and an `href` or `id` always stays. |
| `ConvertToMarkdown.LinkTagAttributesStripped` | src/convert-to-markdown.tsx:50-62 | `<a class="x" style="y" href="u" id="i">` becomes `<a href="u" id="i">`. |
| `PlainMarkdown.BoldSpanWraps` | src/convert-to-plain-markdown.tsx:49-57 | `<span style="font-weight:bold">C</span>…` is replaced, up to the first `</span>`, by the callback's result for `C`. |
| `PlainMarkdown.BoldSpanChoice` | src/convert-to-plain-markdown.tsx:49 | The greedy `[^>]*` settles on the last `style="` of the opening tag. |
| `PlainMarkdown.BreaksOnlyIff` | src/convert-to-plain-markdown.tsx:53 | The scan for `^(<br\s*\/?>\|\s)*$` (any case) accepts a string exactly when it splits into break pieces. A piece is one white-space character, or `<br`, white space, an optional `/` and `>`. |
| `PlainMarkdown.WrapStyledBareIff` | src/convert-to-plain-markdown.tsx:52-56 | The callback returns its content unchanged exactly when the content splits into break pieces. |
| `PlainMarkdown.BreakContentIsBare` | src/convert-to-plain-markdown.tsx:52-56 | Examples: `<br>` and ` <BR /> ` are returned bare, and `x` becomes `<strong>x</strong>`. |
| `PlainMarkdown.RenameAt` | src/convert-to-plain-markdown.tsx:71-77 | `<NAME` followed by white space or `>` is renamed, keeping the captured character. The as-written replacement then adds a `>`. |
| `PlainMarkdown.RenameAddsBracket` | src/convert-to-plain-markdown.tsx:71 | As written, `<b>` becomes `<strong>>`. Corrected, it becomes `<strong>`. |
| `PlainMarkdown.RenameSplitsAttributes` | src/convert-to-plain-markdown.tsx:76 | As written, the attributes of `<i attrs>` end up outside the new tag: `<em >attrs>`. |
| `PlainMarkdown.RenameKeepsAttributes` | src/convert-to-plain-markdown.tsx:76 | Corrected, `<i attrs>` becomes `<em attrs>`. |
| `PlainMarkdown.RenameSparesLongerNames` | src/convert-to-plain-markdown.tsx:69-77 | Both versions leave a text unchanged when no `<NAME` in it is followed by white space or `>`. Each occurrence ends the text or goes on with some other character, as in `<br>`, `<img>` or `<b/>`. |
| `PlainMarkdown.DuplicateCell` | src/convert-to-plain-markdown.tsx:23-34 | The callback's push loop and `join("")` give the colspan rule's result. |
| `PlainMarkdown.JoinCopies` | src/convert-to-plain-markdown.tsx:34 | Joining equal pieces without a separator gives that many copies side by side. |
| `PlainMarkdown.CopiesBlock` | src/convert-to-plain-markdown.tsx:29-34 | The `k`-th block of the copies is exactly the cell. |
| `PlainMarkdown.ColspanCellsShape` | src/convert-to-plain-markdown.tsx:21-34 | A cell that looks like a header, or that spans four or more columns, gives one attribute-free cell. Otherwise it gives exactly `count` copies, and none for `colspan="0"`. |
| `PlainMarkdown.LineBreakLooksLikeHeader` | src/convert-to-plain-markdown.tsx:21 | `/<(strong\|b\|h\d)/` also matches `<br`, so any cell longer than 30 characters holding a line break counts as a header. |
| `PlainMarkdown.ColspanCellExpands` | src/convert-to-plain-markdown.tsx:14-36 | `<td colspan="D">C</td>` is replaced, up to the first `</td>`, by the colspan rule's result for `C` and the count `D`. |
| `PlainMarkdown.ProtectLinks` | src/convert-to-plain-markdown.tsx:108-117 | The replace with its pushing callback and counter gives the placeholder text and the recorded pairs of `ProtectFrom`. |
| `PlainMarkdown.ProtectedPairs` | src/convert-to-plain-markdown.tsx:112-117 | The `n`-th recorded pair carries marker `___LINK_n___` and a non-empty href without quotes. |
| `PlainMarkdown.LinkHrefClean` | src/convert-to-plain-markdown.tsx:112 | A matched href is non-empty and contains no quote. |
| `PlainMarkdown.LinkTagMatch` | src/convert-to-plain-markdown.tsx:112 | `<a ATTRS href="U">` matches as a whole and captures `U`, where `ATTRS` starts with white space and holds no `>` and `U` is non-empty and holds no quote (it may hold `>`). |
| `PlainMarkdown.MarkerOccursOnlyInItself` | src/convert-to-plain-markdown.tsx:113 | A marker occurs inside another marker only as that marker itself. For example, `___LINK_1___` is not part of `___LINK_12___`. |
| `PlainMarkdown.PlaceholderUntouched` | src/convert-to-plain-markdown.tsx:119-120 | Attribute removal leaves `<a>___LINK_k___` as it is. |
| `PlainMarkdown.AttributesDropped` | src/convert-to-plain-markdown.tsx:120 | A tag whose word-character name is followed by white space and at least one more character before `>` keeps only its name. |
| `PlainMarkdown.RestoreLinks` | src/convert-to-plain-markdown.tsx:123-125 | The `forEach` gives `RestoreFrom`: each pair replaces the first occurrence of its placeholder tag. |
| `PlainMarkdown.LinkKeepsOnlyHref` | src/convert-to-plain-markdown.tsx:107-125 | Placeholders, attribute removal and restoring together turn `<a ATTRS href="U">` into `<a href="U">`, where `ATTRS` starts with white space and holds no `>`, and `U` holds no quote and no `$` but may hold `>`. |
| `PlainMarkdown.CleanCellContent` | src/convert-to-plain-markdown.tsx:134-141 | The five-pass loop and the final collapse and trim give `CleanCell`. |
| `PlainMarkdown.CleanCellTidy` | src/convert-to-plain-markdown.tsx:141 | Cleaned cell content has no two white-space characters in a row, and none at either end. |
| `PlainMarkdown.CellHitTidy` | src/convert-to-plain-markdown.tsx:132-143 | A rewritten cell keeps its `td`/`th` name in both tags, and its content is tidy in the same sense. |
| `PlainMarkdown.RemoveWrappers` | src/convert-to-plain-markdown.tsx:146-151 | The ten-pass loop gives ten rounds of the wrapper pass. |
| `PlainMarkdown.GapCollapses` | src/convert-to-plain-markdown.tsx:154 | White space alone between a `>` and the next `<` is replaced by `><`. |
| `PlainMarkdown.PromotesFirstRow` | src/convert-to-plain-markdown.tsx:157-160 | Every `<table><tbody><tr>ROW</tr>` gets a `<thead>` holding `ROW` with its cells turned into header cells, and scanning resumes after it. |
| `PlainMarkdown.PromoteHeadersNoTable` | src/convert-to-plain-markdown.tsx:157-160 | Without the exact `<table><tbody><tr>` prefix nothing is promoted. |
| `PlainMarkdown.IconRemoved` | src/convert-to-plain-markdown.tsx:90 | The empty Font Awesome element `<i class="fa"></i>` disappears entirely. |
| `PlainMarkdown.MetaPrefixRemoved` | src/convert-to-plain-markdown.tsx:95 | Only the run of `<meta>` tags at the very start is removed. |
| `PlainMarkdown.DocsGuidAt` | src/convert-to-plain-markdown.tsx:96 | A leading `<b …>` whose opening tag names `docs-internal-guid` is removed up to its first `>`. |
| `PlainMarkdown.DocsGuidNeeded` | src/convert-to-plain-markdown.tsx:96 | The step changes the text exactly when the text opens with `<b` and the guid lies inside that first tag. Then exactly that opening tag is removed. |
| `PlainMarkdown.CleanHtmlLightweight` | src/convert-to-plain-markdown.tsx:86-163 | The method's steps, with the placeholder list and both pass loops, give `CleanLightweight`. That is the corrected pipeline, whose `<b`/`<i` renaming does not double the `>`. The pipeline as written is `CleanLightweightAsWritten`. |
| `PlainMarkdown.TagFreeOnlyTrimmed` | src/convert-to-plain-markdown.tsx:86-163 | Text without `<` only gets trimmed by the cleaner, in both versions. The media strip at lines 339-343 leaves it unchanged. |
| `Text.OpenTagDeleted` | src/convert-to-plain-markdown.tsx:340 | `<img…>` is deleted up to and including the first `>` after the name. |
| `Text.ElementDeleted` | src/convert-to-plain-markdown.tsx:341-343 | A `<video>`, `<audio>` or `<iframe>` element is deleted from its opening tag to the first closing tag, whatever lies between. |
| `MarkdownCleanup.LongTrailBecomesBreak` | src/convert-to-plain-markdown.tsx:193 | Three or more trailing blanks become exactly two spaces. |
| `MarkdownCleanup.LongTrailCapped` | src/convert-to-plain-markdown.tsx:193 | After that step no line ends in three blanks. |
| `MarkdownCleanup.LastBlankCut` | src/convert-to-plain-markdown.tsx:194 | On text with no three-blank line ends, `[ \t]{1}$` leaves no line ending in two blanks. |
| `MarkdownCleanup.PostProcessTrailing` | src/convert-to-plain-markdown.tsx:168-197 | As written, every line of the result ends in at most one blank. |
| `MarkdownCleanup.HardBreakLosesBlank` | src/convert-to-plain-markdown.tsx:194 | As written, a line ending in exactly two blanks loses the second one. |
| `MarkdownCleanup.HardBreakKept` | src/convert-to-plain-markdown.tsx:190-194 | Corrected, the two blanks of a hard line break stay. |
| `MarkdownCleanup.LoneBlankRemoved` | src/convert-to-plain-markdown.tsx:190-194 | Corrected, a single trailing blank is still removed. |
| `MarkdownCleanup.PostProcessLineEnds` | src/convert-to-plain-markdown.tsx:190-196 | Corrected, every line of the result ends in no blank or in exactly two. No line ends in three or more blanks, and none ends in exactly one. |
| `MarkdownCleanup.HardBreakExample` | src/convert-to-plain-markdown.tsx:168-197 | `a  \nb` comes out as `a \nb` as written, and unchanged when corrected. |
| `MarkdownCleanup.FixesLeavePlainText` | src/convert-to-plain-markdown.tsx:171-188 | Fixes 1 to 6 change nothing in text without `*`, `\`, `●`, digits or four newlines in a row. |
| `MarkdownCleanup.BlankLinesReturn` | src/convert-to-plain-markdown.tsx:187-194 | Fix 6 runs before Fix 7, so a blank line holding a space, once emptied, can leave four newlines in a row in the result. |
| `MarkdownCleanup.InlineImageRemoved` | src/convert-to-plain-markdown.tsx:205-206 | An inline image `![ALT](TARGET)` is matched whole and removed. |
| `MarkdownCleanup.NewlinesCollapsed` | src/convert-to-plain-markdown.tsx:215 | After `\n\n\n+` is collapsed, no three newlines follow each other. |
| `MarkdownCleanup.RemoveMediaShape` | src/convert-to-plain-markdown.tsx:202-218 | The result of `removeMediaFromMarkdown` has no three newlines in a row and neither starts nor ends with white space. |
| `TestConvert.CleanHtmlLightweight` | test-convert.js:38-92 | The script's cleaner is the extension's tail of steps, from colspan expansion to the final trim. |
| `TestConvert.TrailsRemoved` | test-convert.js:103 | After `[ \t]+$` no line ends in a space or tab. |
| `TestConvert.PostProcessNoTrailingBlank` | test-convert.js:94-105 | No line of the script's result ends in a space or tab. |
| `TestConvert.HardBreakCompared` | test-convert.js:94-105 | On `a  \nb` the three rules differ: the script drops both spaces, the extension as written drops one, and the corrected rule keeps both. |
| `TestConvert.BoldTagTail` | test-convert.js:38-92 | The script passes `<b>` through its cleaner unchanged. |
| `TestConvert.BoldTagStyles` | src/convert-to-plain-markdown.tsx:69-77 | The extension's corrected inline-style step turns `<b>` into `<strong>`. |
| `TestConvert.BoldTagStylesAsWritten` | src/convert-to-plain-markdown.tsx:69-77 | As written, the extension's inline-style step turns `<b>` into `<strong>>`. |
| `TestConvert.BoldTagCompared` | test-convert.js:38-92 | On `<b>`, the script keeps `<b>`. The extension's corrected prelude makes it `<strong>`, and its prelude as written makes it `<strong>>`. Either result then goes through the steps the two share. |
| `MarkdownToRichText.HeadingIff` | src/convert-markdown-to-richtext.tsx:10 | A heading matches at a line start exactly when one to six `#` are followed by white space. |
| `MarkdownToRichText.DelimitedIff` | src/convert-markdown-to-richtext.tsx:11-18 | `open [^c]+ close` matches exactly when a non-empty stretch free of `c` lies between the two. This covers bold, both italics and inline code. |
| `MarkdownToRichText.OrderedIff` | src/convert-markdown-to-richtext.tsx:16 | An ordered item matches at a line start exactly when a non-empty run of digits is followed by `.` and white space. |
| `MarkdownToRichText.TableRowIff` | src/convert-markdown-to-richtext.tsx:20 | A table row matches exactly when a line starts with `\|` and ends with a second `\|`, with at least one character between them. |
| `MarkdownToRichText.RuleIff` | src/convert-markdown-to-richtext.tsx:21 | A rule matches exactly when a line is made of three or more of `-`, `*`, `_`. |
| `MarkdownToRichText.MatchStartsWithMarker` | src/convert-markdown-to-richtext.tsx:9-22 | Every pattern match starts with one of the marker characters. |
| `MarkdownToRichText.LooksLikeMarkdownNeedsMarker` | src/convert-markdown-to-richtext.tsx:8-25 | Text that looks like Markdown contains at least one marker character. |
| `MarkdownToRichText.SnakeCaseLooksLikeMarkdown` | src/convert-markdown-to-richtext.tsx:13 | `foo_bar_baz` counts as Markdown, because `_bar_` is an italic span. |
| `MarkdownToRichText.ProductLooksLikeMarkdown` | src/convert-markdown-to-richtext.tsx:12 | `a * b * c` counts as Markdown, because `* b *` is an italic span. |
| `MarkdownToRichText.SentenceIsNotMarkdown` | src/convert-markdown-to-richtext.tsx:8-25 | `Hello, world.` does not count. |
| `MarkdownToRichText.PaddedDigits` | src/convert-markdown-to-richtext.tsx:133-136 | A zero-padded field reads back as its number, and is exactly ten characters below 10^10. |
| `MarkdownToRichText.Padded` | src/convert-markdown-to-richtext.tsx:133-136 | `String(n).padStart(10, "0")` is all digits, at least ten of them, and denotes `n`. |
| `MarkdownToRichText.HeaderLayout` | src/convert-markdown-to-richtext.tsx:131-137 | The header is the version line, then StartHTML, EndHTML, StartFragment and EndFragment with their padded values, each followed by CRLF. |
| `MarkdownToRichText.HeaderLengthIs` | src/convert-markdown-to-richtext.tsx:131-137 | While every value is below 10^10, the header is 105 characters long. |
| `MarkdownToRichText.FragmentOffsets` | src/convert-markdown-to-richtext.tsx:127-136 | StartFragment is at `<body` when present, and at the HTML's start otherwise. EndFragment is just after the last `</body>`, or at 6 past the start when there is none (`-1 + 7 > 0`). |
| `MarkdownToRichText.FragmentOffsetsFit` | src/convert-markdown-to-richtext.tsx:133-136 | HTML shorter than 10^10 - 200 characters keeps every offset below 10^10, so each field is ten digits. |
| `MarkdownToRichText.AsWrittenStartMisses` | src/convert-markdown-to-richtext.tsx:133-139 | As written, StartHTML..EndHTML is not the HTML: it starts eight characters into the 105-character header. |
| `MarkdownToRichText.CorrectedOffsetsLocate` | src/convert-markdown-to-richtext.tsx:125-139 | Counted from the header's real length, StartHTML..EndHTML is exactly the HTML. StartFragment points at `<body` and EndFragment just after the last `</body>`. |
| `MarkdownToRichText.OffsetsLocate` | src/convert-markdown-to-richtext.tsx:125-139 | Offsets counted from the length of whatever precedes the HTML point into the HTML. |

## Left out

- The clipboard, HUD and toast calls, and logging are left out: they are I/O. The model's inputs are the clipboard's optional `html` and `text` fields.
- Two clipboard fallbacks in the plain command are left out: they call foreign code. These are
  - the macOS `osascript` hex read, and
  - the Windows PowerShell script at src/convert-to-plain-markdown.tsx:243-331, with its temp files and the `StartFragment` extraction.
- The rich-text copy paths are left out for the same reason: `osascript`, `textutil`/`pbcopy`, the PowerShell `SetText` call and the temp files.
- The Turndown (HTML to Markdown) and `marked` (Markdown to HTML) libraries are left out: they are outside the repository.
  - The `convertToMarkdown` and `convertMarkdownToHtml` wrappers around them (src/convert-to-markdown.tsx:73-93 and src/convert-markdown-to-richtext.tsx:30-72) are left out with them, including the fixed CSS template.
- The conversion script's file reading, statistics and output file (test-convert.js:8-15 and 107-124) are left out: they are I/O.
- Unicode is simplified. One Dafny `char` stands for one UTF-16 code unit, and text outside the Basic Multilingual Plane is not modelled.
- `MarkdownToRichText.FragmentOffsets` counts characters, where the Windows clipboard format counts UTF-8 bytes. The source counts JavaScript string indices too, so the model follows the code here.
- The `startHtml` variable at src/convert-markdown-to-richtext.tsx:126 is computed but never used. The model has no counterpart.
- `MarkdownToRichText.HeaderLengthIs` and the other header lemmas hold only while every value is below 10^10, where `padStart` gives exactly ten digits. Longer values lengthen the header.
- `PlainMarkdown.LinkKeepsOnlyHref` requires the href to hold no `$`. With a `$`, the restoring `replace` reads `$` patterns in its replacement string, and `Text.Substitute` models that without a lemma about the outcome.
- `PlainMarkdown.LinkKeepsOnlyHref` covers a link tag on its own, not a link inside a larger document.
- `PlainMarkdown.TagFreeOnlyTrimmed` covers only text without markup. Documents with markup are described stage by stage by the other members, not by one end-to-end lemma.
- `ConvertToMarkdown.StripKeepsOtherMarkup` covers only the deletion steps of `cleanHtml`. No lemma is stated about its final blank-line collapse and trim.
- `ConvertToMarkdown.TagAttributesStripped` covers one opening tag with plain attributes: an attribute is white space, a name of letters, digits and `-`, `=`, and a value in quotes that holds no quote of its own kind, no `<div` or `</div>`, and no white space followed by `style=`, `class=` or `data-`. Outside that shape the deletions can cut across attributes. In `<a title='p style="q' href="u">`, the `style="` inside the single-quoted value starts a match that runs up to and including the href's opening quote, giving `<a title='pu">`. The model defines that behaviour (`StripWrappersAndAttributes`) but proves nothing about it. Tags named `div`, whole documents, and unquoted attributes are not covered by the lemma either.
- `ConvertToMarkdown.HeaderPromotionWithTbody` covers the `<table><tbody><tr>` shape only. The `<colgroup>` and `<caption>` alternatives are defined (`TryColgroup`, `TryCaption`) but carry no lemma.

## Findings

| source | as written | input that shows it | evidently intended | confidence | as-written member | corrected member |
|---|---|---|---|---|---|---|
| src/convert-to-plain-markdown.tsx:194 | `[ \t]{1}$` removes the last blank before every line end, so a two-space hard line break loses one space, although the comment says exactly two are kept | `"a  \nb"` becomes `"a \nb"` | remove a trailing blank only when it is the line's only trailing blank, keeping two-space breaks | not executed | `MarkdownCleanup.HardBreakExample` | `MarkdownCleanup.HardBreakKept` |
| src/convert-to-markdown.tsx:45-48 | the content group's lazy tail matches nothing, so the greedy `+` repeats only while the next block starts exactly where the last ended, and the extracted content stops at the first gap between blocks | `"<p>a</p>\n<p>b</p>"` keeps only `"<p>a</p>"` | keep everything from the first semantic block on | not executed | `ConvertToMarkdown.ContentDropsLaterBlocks` | `ConvertToMarkdown.SemanticContentIsSuffix` |
| src/convert-markdown-to-richtext.tsx:133 | StartHTML is hard-coded as 97, but the header written in front of the HTML is 105 characters long (five CRLF-terminated lines with ten-digit values), and every other offset is shifted from 97 too | any HTML of more than six characters whose seventh is not `\r`, such as `"<html><body>x</body></html>"` | offsets counted from the header's real length | not executed | `MarkdownToRichText.AsWrittenStartMisses` | `MarkdownToRichText.CorrectedOffsetsLocate` |
| src/convert-to-plain-markdown.tsx:71-77 | the replacement `"<strong$1>"` (and `"<em$1>"`) puts the captured white space or `>` back and then adds another `>` | `"<b>"` becomes `"<strong>>"`; `"<i class=x>"` becomes `"<em >class=x>"` | rename the tag and keep what followed the name: `<strong>`, `<em class=x>` | not executed | `PlainMarkdown.RenameSplitsAttributes` | `PlainMarkdown.RenameKeepsAttributes` |

The corrected definitions are the ones the rest of the model builds on:

- `MarkdownCleanup.PostProcess` uses the lone-blank rule.
- `ConvertToMarkdown.CleanHtml` uses `SemanticContent`.
- `MarkdownToRichText.ClipboardHtml` counts from `HeaderLength`.
- `PlainMarkdown.ConvertInlineStyles` uses `RenameOpen`.

The as-written versions sit beside them: `PostProcessAsWritten`, `CleanHtmlAsWritten`, `ClipboardHtmlAsWritten` and `RenameOpenAsWritten`.
