/** The clipboard-to-Markdown command's own logic: which clipboard representation
    is used, the TSV-to-table synthesis, spreadsheet sniffing, first-row header
    promotion and the HTML clean-up run before the HTML-to-Markdown library. */
module ConvertToMarkdown {
  import opened Text

  // ---------------------------------------------------------------------------
  // looksLikeHtml: /<\s*([a-z][a-z0-9]*)\b[^>]*>/i
  // ---------------------------------------------------------------------------

  predicate IsAlnum(c: char) { IsAsciiLetter(c) || IsDigit(c) }

  /** The end of the run of ASCII letters and digits starting at `i`. */
  function AlnumRunEnd(s: String, i: nat): (e: nat)
    requires i <= |s|
    ensures i <= e <= |s|
    ensures forall j :: i <= j < e ==> IsAlnum(s[j])
    ensures e < |s| ==> !IsAlnum(s[e])
    decreases |s| - i
  {
    if i < |s| && IsAlnum(s[i]) then AlnumRunEnd(s, i + 1) else i
  }

  /** The tag pattern matches at `i`: `<`, optional whitespace, a letter, then
      letters and digits up to a word boundary (so not followed by `_`), then
      anything up to a `>`. */
  predicate TagOpensAt(s: String, i: nat) {
    i < |s| && s[i] == '<' &&
    var j := SpaceRunEnd(s, i + 1);
    j < |s| && IsAsciiLetter(s[j]) &&
    var e := AlnumRunEnd(s, j + 1);
    e < |s| && s[e] != '_' && FindChar(s, e, '>') < |s|
  }

  predicate LooksLikeHtml(text: String) {
    exists i :: 0 <= i < |text| && TagOpensAt(text, i)
  }

  /** The tag pattern read position by position: `<` at `i`, white space up to a
      letter at `j`, letters and digits up to `e`, where no letter, digit or `_`
      stands, and a `>` at or after `e`. */
  predicate TagShape(s: String, i: nat, j: nat, e: nat) {
    i < j < e < |s| && s[i] == '<' && (forall t :: i < t < j ==> IsSpace(s[t]))
    && IsAsciiLetter(s[j]) && (forall t :: j < t < e ==> IsAlnum(s[t]))
    && !IsAlnum(s[e]) && s[e] != '_' && '>' in s[e..]
  }

  /** Where the tag pattern matches, as it is tried left to right, is exactly where
      the pattern's shape occurs. */
  lemma TagOpensAtIff(s: String, i: nat)
    ensures TagOpensAt(s, i) <==> exists j: nat, e: nat :: TagShape(s, i, j, e)
  {
    if TagOpensAt(s, i) {
      var j := SpaceRunEnd(s, i + 1);
      var e := AlnumRunEnd(s, j + 1);
      TagOpensShape(s, i);
      assert TagShape(s, i, j, e);
    }
    if j: nat, e: nat :| TagShape(s, i, j, e) {
      ShapeTagOpens(s, i, j, e);
    }
  }

  lemma TagOpensShape(s: String, i: nat)
    requires TagOpensAt(s, i)
    ensures TagShape(s, i, SpaceRunEnd(s, i + 1), AlnumRunEnd(s, SpaceRunEnd(s, i + 1) + 1))
  {
    var e := AlnumRunEnd(s, SpaceRunEnd(s, i + 1) + 1);
    var k := FindChar(s, e, '>');
    assert s[e..][k - e] == '>';
  }

  lemma ShapeTagOpens(s: String, i: nat, j: nat, e: nat)
    requires TagShape(s, i, j, e)
    ensures TagOpensAt(s, i)
  {
    var m :| e <= m < |s| && s[m] == '>' by {
      var d :| 0 <= d < |s[e..]| && s[e..][d] == '>';
      assert s[e + d] == '>';
    }
    assert !IsSpace(s[j]);
    assert SpaceRunEnd(s, i + 1) == j;
    assert AlnumRunEnd(s, j + 1) == e;
    assert FindChar(s, e, '>') <= m;
  }

  /** `looksLikeHtml` holds exactly when the shape occurs somewhere. */
  lemma LooksLikeHtmlIff(text: String)
    ensures LooksLikeHtml(text) <==> exists i: nat, j: nat, e: nat :: TagShape(text, i, j, e)
  {
    if LooksLikeHtml(text) {
      var i :| 0 <= i < |text| && TagOpensAt(text, i);
      TagOpensAtIff(text, i);
    }
    if i: nat, j: nat, e: nat :| TagShape(text, i, j, e) {
      TagOpensAtIff(text, i);
    }
  }

  /** Any `<`, then a letter, then later a `>` qualifies, even in arithmetic prose. */
  lemma LooksLikeHtmlProse()
    ensures LooksLikeHtml("a < b > c")
  {
    var s := "a < b > c";
    assert SpaceRunEnd(s, 3) == 4;
    assert AlnumRunEnd(s, 5) == 5;
    assert FindChar(s, 5, '>') == 6;
    assert TagOpensAt(s, 2);
  }

  /** The name must start with a letter: `<` followed by a digit is not a tag. */
  lemma LooksLikeHtmlNeedsLetter()
    ensures !LooksLikeHtml("1 < 2 > 0")
  {
    var s := "1 < 2 > 0";
    assert SpaceRunEnd(s, 3) == 4;
    forall i | 0 <= i < |s| ensures !TagOpensAt(s, i) {
      if i != 2 { assert s[i] != '<'; }
    }
  }

  /** Without a `>` after the name nothing looks like HTML. */
  lemma {:induction false} NoCloseNoHtml(text: String)
    requires '>' !in text
    ensures !LooksLikeHtml(text)
  {
    forall i | 0 <= i < |text| ensures !TagOpensAt(text, i) {
    }
  }

  // ---------------------------------------------------------------------------
  // isTsvContent
  // ---------------------------------------------------------------------------

  /** How many of `lines` contain a tab (`lines.filter(l => l.includes("\t")).length`). */
  function TabbedCount(lines: seq<String>): (n: nat)
    ensures n <= |lines|
  {
    if lines == [] then 0 else TabbedCount(lines[..|lines| - 1]) + (if '\t' in lines[|lines| - 1] then 1 else 0)
  }

  function TsvLines(text: String): (lines: seq<String>)
    ensures |lines| >= 1
  {
    Split(Trim(text), '\n')
  }

  predicate IsTsvContent(text: String) {
    var lines := TsvLines(text);
    if |lines| < 2 then false else TabbedCount(lines) >= 2
  }

  /** Two distinct lines of the list contain a tab. */
  ghost predicate TwoTabbedLines(lines: seq<String>) {
    exists i, j :: 0 <= i < j < |lines| && '\t' in lines[i] && '\t' in lines[j]
  }

  lemma {:induction false} TabbedCountTwo(lines: seq<String>)
    ensures TabbedCount(lines) >= 2 <==> TwoTabbedLines(lines)
  {
    if lines != [] {
      var init := lines[..|lines| - 1];
      var last := lines[|lines| - 1];
      TabbedCountTwo(init);
      if TwoTabbedLines(init) {
        var i, j :| 0 <= i < j < |init| && '\t' in init[i] && '\t' in init[j];
        assert lines[i] == init[i] && lines[j] == init[j];
      }
      if TwoTabbedLines(lines) {
        var i, j :| 0 <= i < j < |lines| && '\t' in lines[i] && '\t' in lines[j];
        if j < |lines| - 1 {
          assert init[i] == lines[i] && init[j] == lines[j];
          assert TwoTabbedLines(init);
        } else {
          assert init[i] == lines[i];
          TabbedCountOne(init, i);
        }
      }
      if TabbedCount(init) == 1 && '\t' in last {
        var i := TabbedWitness(init);
        assert lines[i] == init[i];
        assert TwoTabbedLines(lines);
      }
    }
  }

  lemma {:induction false} TabbedCountOne(lines: seq<String>, i: nat)
    requires i < |lines| && '\t' in lines[i]
    ensures TabbedCount(lines) >= 1
  {
    if i < |lines| - 1 {
      TabbedCountOne(lines[..|lines| - 1], i);
    }
  }

  lemma {:induction false} TabbedWitness(lines: seq<String>) returns (i: nat)
    requires TabbedCount(lines) >= 1
    ensures i < |lines| && '\t' in lines[i]
  {
    if '\t' in lines[|lines| - 1] {
      i := |lines| - 1;
    } else {
      i := TabbedWitness(lines[..|lines| - 1]);
    }
  }

  /** TSV is recognised exactly when two lines of the trimmed text hold a tab. */
  lemma IsTsvContentIff(text: String)
    ensures IsTsvContent(text) <==> TwoTabbedLines(TsvLines(text))
  {
    TabbedCountTwo(TsvLines(text));
  }

  // ---------------------------------------------------------------------------
  // tsvToHtmlTable
  // ---------------------------------------------------------------------------

  /** The cell texts `tsvToHtmlTable` puts into one row: each tab-separated field,
      trimmed. */
  function RowCells(line: String): seq<String> {
    TrimAll(Split(line, '\t'))
  }

  function TrimAll(fields: seq<String>): (r: seq<String>)
    ensures |r| == |fields|
    ensures forall k :: 0 <= k < |fields| ==> r[k] == Trim(fields[k])
  {
    if fields == [] then [] else TrimAll(fields[..|fields| - 1]) + [Trim(fields[|fields| - 1])]
  }

  /** One cell line: `<tag>text</tag>\n`, the text not escaped. */
  function CellHtml(tag: String, text: String): String {
    "<" + tag + ">" + text + "</" + tag + ">\n"
  }

  /** The pieces `f(x)` of the items `x`, one after another. */
  function ConcatMap(f: String -> String, xs: seq<String>): String {
    if xs == [] then [] else ConcatMap(f, xs[..|xs| - 1]) + f(xs[|xs| - 1])
  }

  /** Any item `k` contributes its piece between those of the items before it and
      those of the items after it. */
  lemma {:induction false} ConcatMapAt(f: String -> String, xs: seq<String>, k: nat)
    requires k < |xs|
    ensures ConcatMap(f, xs) == ConcatMap(f, xs[..k]) + f(xs[k]) + ConcatMap(f, xs[k + 1..])
    decreases |xs|
  {
    var n := |xs| - 1;
    if k == n {
      assert xs[..n] == xs[..k];
      assert xs[k + 1..] == [];
    } else {
      var init := xs[..n];
      ConcatMapAt(f, init, k);
      assert init[..k] == xs[..k] && init[k] == xs[k];
      var mid := init[k + 1..];
      var after := xs[k + 1..];
      assert |after| == n - k && after[..|after| - 1] == mid && after[|after| - 1] == xs[n];
      ConcatMapLast(f, after);
      var front := ConcatMap(f, xs[..k]) + f(xs[k]);
      Assoc(front, ConcatMap(f, mid), f(xs[n]));
    }
  }

  lemma ConcatMapLast(f: String -> String, xs: seq<String>)
    requires xs != []
    ensures ConcatMap(f, xs) == ConcatMap(f, xs[..|xs| - 1]) + f(xs[|xs| - 1])
  {
  }

  /** The same, for the items from `lo` on. */
  lemma ConcatMapAtFrom(f: String -> String, xs: seq<String>, lo: nat, k: nat)
    requires lo <= k < |xs|
    ensures ConcatMap(f, xs[lo..]) == ConcatMap(f, xs[lo..k]) + f(xs[k]) + ConcatMap(f, xs[k + 1..])
  {
    var ys := xs[lo..];
    ConcatMapAt(f, ys, k - lo);
    assert ys[..k - lo] == xs[lo..k];
    assert ys[k - lo] == xs[k];
    assert ys[k - lo + 1..] == xs[k + 1..];
  }

  /** A row's cell lines, one per cell text. */
  function CellsHtml(tag: String, texts: seq<String>): String {
    ConcatMap(t => CellHtml(tag, t), texts)
  }

  function RowHtml(line: String): String {
    "<tr>\n" + CellsHtml("td", RowCells(line)) + "</tr>\n"
  }

  function RowsHtml(lines: seq<String>): String {
    ConcatMap(RowHtml, lines)
  }

  const TableHead: String := "<table>\n<thead>\n<tr>\n"

  /** The table `tsvToHtmlTable` builds, as one expression. */
  function TsvTable(tsv: String): String {
    var lines := TsvLines(tsv);
    HeadSection(lines[0]) + BodySection(lines) + "</table>"
  }

  function HeadSection(first: String): String {
    TableHead + CellsHtml("th", RowCells(first)) + "</tr>\n</thead>\n"
  }

  function BodySection(lines: seq<String>): String {
    if |lines| > 1 then "<tbody>\n" + RowsHtml(lines[1..]) + "</tbody>\n" else ""
  }

  /** `tsvToHtmlTable`: accumulates the table text line by line and cell by cell. */
  method TsvToHtmlTable(tsv: String) returns (html: String)
    ensures html == TsvTable(tsv)
  {
    var lines := TsvLines(tsv);
    if |lines| == 0 {
      assert false;
    }
    html := "<table>\n";
    var headerCells := Split(lines[0], '\t');
    html := html + "<thead>\n<tr>\n";
    assert html == TableHead;
    var h0 := html;
    html := AppendCells(html, "th", headerCells);
    html := html + "</tr>\n</thead>\n";
    Assoc(h0, CellsHtml("th", RowCells(lines[0])), "</tr>\n</thead>\n");
    assert html == HeadSection(lines[0]);
    var head := html;
    if |lines| > 1 {
      html := html + "<tbody>\n";
      var b0 := html;
      html := AppendRows(html, lines);
      html := html + "</tbody>\n";
      Assoc(b0, RowsHtml(lines[1..]), "</tbody>\n");
      Assoc(head, "<tbody>\n", RowsHtml(lines[1..]) + "</tbody>\n");
      Assoc("<tbody>\n", RowsHtml(lines[1..]), "</tbody>\n");
      assert html == head + BodySection(lines);
    } else {
      assert html == head + BodySection(lines);
    }
    html := html + "</table>";
  }

  /** The `for` loop over the lines after the first. */
  method AppendRows(html0: String, lines: seq<String>) returns (html: String)
    requires |lines| >= 1
    ensures html == html0 + RowsHtml(lines[1..])
  {
    html := html0;
    var i := 1;
    while i < |lines|
      invariant 1 <= i <= |lines|
      invariant html == html0 + RowsHtml(lines[1..i])
    {
      html := AppendRow(html, lines[i]);
      RowsSnoc(lines, i);
      Assoc(html0, RowsHtml(lines[1..i]), RowHtml(lines[i]));
      i := i + 1;
    }
    assert lines[1..i] == lines[1..];
  }

  /** One body line: its `<tr>` with one cell line per tab-separated field. */
  method AppendRow(html0: String, line: String) returns (html: String)
    ensures html == html0 + RowHtml(line)
  {
    var cells := Split(line, '\t');
    html := html0 + "<tr>\n";
    html := AppendCells(html, "td", cells);
    html := html + "</tr>\n";
    Assoc(html0 + "<tr>\n", CellsHtml("td", RowCells(line)), "</tr>\n");
    Assoc(html0, "<tr>\n", CellsHtml("td", RowCells(line)) + "</tr>\n");
    Assoc("<tr>\n", CellsHtml("td", RowCells(line)), "</tr>\n");
  }

  lemma RowsSnoc(lines: seq<String>, i: nat)
    requires 1 <= i < |lines|
    ensures RowsHtml(lines[1..i + 1]) == RowsHtml(lines[1..i]) + RowHtml(lines[i])
  {
    assert lines[1..i + 1][..i - 1] == lines[1..i];
  }

  /** The `forEach` over one line's fields: one cell line per field, trimmed. */
  method AppendCells(html0: String, tag: String, cells: seq<String>) returns (html: String)
    ensures html == html0 + CellsHtml(tag, TrimAll(cells))
  {
    html := html0;
    var k := 0;
    while k < |cells|
      invariant k <= |cells|
      invariant html == html0 + CellsHtml(tag, TrimAll(cells[..k]))
    {
      CellsSnoc(tag, cells, k);
      Assoc(html0, CellsHtml(tag, TrimAll(cells[..k])), CellHtml(tag, Trim(cells[k])));
      html := html + CellHtml(tag, Trim(cells[k]));
      k := k + 1;
    }
    assert cells[..k] == cells;
  }

  lemma CellsSnoc(tag: String, cells: seq<String>, k: nat)
    requires k < |cells|
    ensures CellsHtml(tag, TrimAll(cells[..k + 1])) == CellsHtml(tag, TrimAll(cells[..k])) + CellHtml(tag, Trim(cells[k]))
  {
    assert cells[..k + 1][..k] == cells[..k];
    var t := TrimAll(cells[..k + 1]);
    assert t[..k] == TrimAll(cells[..k]) && t[k] == Trim(cells[k]);
  }

  /** The table opens with one header cell per field of the first line, its tab
      count plus one, each holding that field trimmed. */
  lemma HeaderWidth(tsv: String)
    ensures |RowCells(TsvLines(tsv)[0])| == CountChar(TsvLines(tsv)[0], '\t') + 1
    ensures var head := TableHead + CellsHtml("th", RowCells(TsvLines(tsv)[0]));
      |head| <= |TsvTable(tsv)| && TsvTable(tsv)[..|head|] == head
  {
    var lines := TsvLines(tsv);
    SplitCount(lines[0], '\t');
    var head := TableHead + CellsHtml("th", RowCells(lines[0]));
    var rest := "</tr>\n</thead>\n" + BodySection(lines) + "</table>";
    assert TsvTable(tsv) == head + rest by {
      Assoc(head, "</tr>\n</thead>\n", BodySection(lines));
      Assoc(head, "</tr>\n</thead>\n" + BodySection(lines), "</table>");
    }
    SliceOfLeft(head, rest, 0, |head|);
  }

  /** Every later line `r` becomes the body's row `r`, in order, with one data cell
      per field, its own tab count plus one (rows are not padded to the header's
      width), each holding that field trimmed. */
  lemma BodyRowWidth(tsv: String, r: nat)
    requires 1 <= r < |TsvLines(tsv)|
    ensures |RowCells(TsvLines(tsv)[r])| == CountChar(TsvLines(tsv)[r], '\t') + 1
    ensures var lines := TsvLines(tsv);
      TsvTable(tsv) == HeadSection(lines[0]) + "<tbody>\n"
        + (RowsHtml(lines[1..r]) + RowHtml(lines[r]) + RowsHtml(lines[r + 1..]))
        + "</tbody>\n" + "</table>"
  {
    var lines := TsvLines(tsv);
    SplitCount(lines[r], '\t');
    BodyRowsAt(lines, r);
    TableWithBody(tsv);
  }

  lemma BodyRowsAt(lines: seq<String>, r: nat)
    requires 1 <= r < |lines|
    ensures RowsHtml(lines[1..]) == RowsHtml(lines[1..r]) + RowHtml(lines[r]) + RowsHtml(lines[r + 1..])
  {
    ConcatMapAtFrom(RowHtml, lines, 1, r);
  }

  lemma TableWithBody(tsv: String)
    requires |TsvLines(tsv)| > 1
    ensures var lines := TsvLines(tsv);
      TsvTable(tsv) == HeadSection(lines[0]) + "<tbody>\n" + RowsHtml(lines[1..]) + "</tbody>\n" + "</table>"
  {
    var lines := TsvLines(tsv);
    var h := HeadSection(lines[0]);
    var rows := RowsHtml(lines[1..]);
    Assoc(h, "<tbody>\n" + rows, "</tbody>\n");
    Assoc(h, "<tbody>\n", rows);
  }

  /** The table's fixed frame, and a body section exactly when there are two lines. */
  lemma TsvTableFrame(tsv: String)
    ensures |TsvTable(tsv)| >= |TableHead| + 8
    ensures TsvTable(tsv)[..|TableHead|] == TableHead
    ensures TsvTable(tsv)[|TsvTable(tsv)| - 8..] == "</table>"
    ensures |TsvLines(tsv)| == 1 <==> TsvTable(tsv) == HeadSection(TsvLines(tsv)[0]) + "</table>"
  {
    var lines := TsvLines(tsv);
    var cells := CellsHtml("th", RowCells(lines[0]));
    var head := HeadSection(lines[0]);
    var body := BodySection(lines);
    var t := TsvTable(tsv);
    assert t == (head + body) + "</table>";
    SliceOfRight(head + body, "</table>");
    var rest := cells + "</tr>\n</thead>\n" + body + "</table>";
    assert t == TableHead + rest by {
      Assoc(TableHead, cells, "</tr>\n</thead>\n");
      Assoc(TableHead, cells + "</tr>\n</thead>\n", body);
      Assoc(TableHead, cells + "</tr>\n</thead>\n" + body, "</table>");
    }
    SliceOfLeft(TableHead, rest, 0, |TableHead|);
    if |lines| == 1 {
      assert body == [];
      assert head + body == head;
    } else {
      assert |body| > 0;
    }
  }

  /** Empty text still yields a table with one empty header cell: `split` never
      returns an empty array, so the early `return ""` cannot happen. */
  lemma EmptyTsvTable()
    ensures TsvTable("") == TableHead + "<th></th>\n" + "</tr>\n</thead>\n" + "</table>"
  {
    assert TsvLines("") == [""] by {
      TrimBare("");
      assert Split("", '\n') == [""];
    }
    assert Split("", '\t') == [""];
    assert CellsHtml("th", [""]) == "<th></th>\n" by {
      TrimBare("");
      assert CellsHtml("th", [""]) == CellsHtml("th", []) + CellHtml("th", "");
    }
  }

  // ---------------------------------------------------------------------------
  // Which clipboard representation is converted (Command, :167-198)
  // ---------------------------------------------------------------------------

  /** The five outcomes of the command's if/else chain. */
  datatype Selection =
    | UseHtml(html: String)        // the clipboard's HTML flavour
    | UseTextAsHtml(html: String)  // plain text that contains a tag
    | UseTsv(text: String)         // tab-separated plain text, to become a table
    | PlainTextOnly                // text that is neither: a warning, nothing copied
    | Empty                        // nothing usable at all

  /** A clipboard field is used when present and non-empty (JavaScript truthiness). */
  predicate Truthy(field: Option<String>) {
    field.Some? && field.value != []
  }

  function SelectContent(html: Option<String>, text: Option<String>): Selection {
    if Truthy(html) then UseHtml(html.value)
    else if Truthy(text) && LooksLikeHtml(text.value) then UseTextAsHtml(text.value)
    else if Truthy(text) && IsTsvContent(text.value) then UseTsv(text.value)
    else if Truthy(text) then PlainTextOnly
    else Empty
  }

  /** Exactly one outcome, in priority order: HTML, text that looks like HTML, TSV
      text, other text, nothing. */
  lemma SelectionPriority(html: Option<String>, text: Option<String>)
    ensures SelectContent(html, text).UseHtml? <==> Truthy(html)
    ensures SelectContent(html, text).UseTextAsHtml? <==> !Truthy(html) && Truthy(text) && LooksLikeHtml(text.value)
    ensures SelectContent(html, text).UseTsv? <==>
      !Truthy(html) && Truthy(text) && !LooksLikeHtml(text.value) && IsTsvContent(text.value)
    ensures SelectContent(html, text).PlainTextOnly? <==>
      !Truthy(html) && Truthy(text) && !LooksLikeHtml(text.value) && !IsTsvContent(text.value)
    ensures SelectContent(html, text).Empty? <==> !Truthy(html) && !Truthy(text)
    ensures SelectContent(html, text).UseHtml? ==> SelectContent(html, text).html == html.value
    ensures SelectContent(html, text).UseTextAsHtml? || SelectContent(html, text).UseTsv? ==>
      text.Some? && SelectContent(html, text) in {UseTextAsHtml(text.value), UseTsv(text.value)}
  {
  }

  // ---------------------------------------------------------------------------
  // isSpreadsheetContent
  // ---------------------------------------------------------------------------

  /** `\s+` replaced by one space. */
  function CollapseSpaceHit(s: String, i: nat): Option<Hit> {
    if i < |s| && IsSpace(s[i]) then Some(Hit(SpaceRunEnd(s, i), " ")) else None
  }

  function CollapseSpace(s: String): String {
    ReplaceAll(s, CollapseSpaceHit)
  }

  /** The length of a block-level tag name at `j` that the spreadsheet test rejects:
      `p`, `div`, `h1`-`h6`, `article`, `section` (so `<pre>` and `<param>` count). */
  function BlockNameAt(s: String, j: nat): (n: nat)
    ensures n == 0 || j + n <= |s|
  {
    if HasAtCI(s, j, "p") then 1
    else if HasAtCI(s, j, "div") then 3
    else if HasAtCI(s, j, "h") && j + 1 < |s| && '1' <= s[j + 1] <= '6' then 2
    else if HasAtCI(s, j, "article") then 7
    else if HasAtCI(s, j, "section") then 7
    else 0
  }

  /** `<` at `p`, then a name of length `n`, then a `>` somewhere after it. */
  predicate TagFrom(s: String, p: nat, n: nat) {
    p + 1 + n <= |s| && s[p] == '<' && n > 0 && '>' in s[p + 1 + n..]
  }

  /** `/<(p|div|h[1-6]|article|section)[^>]*>/i` matches at `i`: `[^>]*>` reaches
      the first `>` after the name, so any later `>` will do. */
  predicate BlockTagAt(s: String, i: nat) {
    i < |s| && TagFrom(s, i, BlockNameAt(s, i + 1))
  }

  predicate HasBlockTag(s: String) {
    exists i :: 0 <= i < |s| && BlockTagAt(s, i)
  }

  predicate IsSpreadsheetContent(html: String) {
    if Contains(html, "data-sheets-") then true
    else
      var stripped := Trim(CollapseSpace(html));
      HasAtCI(stripped, 0, "<table") && !HasBlockTag(stripped)
  }

  /** A Google Sheets marker decides on its own. */
  lemma SheetsMarkerDecides(html: String, i: nat)
    requires HasAt(html, i, "data-sheets-")
    ensures IsSpreadsheetContent(html)
  {
  }

  /** `<pre>` begins like `<p`, so a preformatted block anywhere disqualifies. */
  lemma PreCountsAsParagraph(s: String, i: nat)
    requires HasAtCI(s, i, "<pre") && '>' in s[i + 4..]
    ensures HasBlockTag(s)
  {
    var k :| i + 4 <= k < |s| && s[k] == '>';
    assert s[i] == '<' by { assert Lower(s[i]) == Lower("<pre"[0]); }
    assert HasAtCI(s, i + 1, "p") by { assert Lower(s[i + 1 + 0]) == Lower("<pre"[1]); }
    assert s[i + 2..][k - (i + 2)] == '>';
    assert BlockTagAt(s, i);
  }

  // isSpreadsheetContent read on the html itself: collapsing and trimming white
  // space changes neither where the text starts nor which block tags it holds.

  /** A literal none of whose characters lower-cases to white space. */
  predicate SpaceFree(lit: String) {
    forall k :: 0 <= k < |lit| ==> !IsSpace(Lower(lit[k]))
  }

  /** `\s+` collapsed from index `i` on. */
  function CollapsedFrom(s: String, i: nat): String {
    Rewrite(s, i, CollapseSpaceHit)
  }

  lemma CollapseStep(s: String, i: nat)
    requires i < |s|
    ensures IsSpace(s[i]) ==> i < SpaceRunEnd(s, i) && CollapsedFrom(s, i) == " " + CollapsedFrom(s, SpaceRunEnd(s, i))
    ensures !IsSpace(s[i]) ==> CollapsedFrom(s, i) == [s[i]] + CollapsedFrom(s, i + 1)
  {
  }

  /** A run without white space is copied as it is. */
  lemma {:induction false} CollapseKeepsRun(s: String, i: nat, n: nat)
    requires i + n <= |s|
    requires forall k :: i <= k < i + n ==> !IsSpace(s[k])
    ensures CollapsedFrom(s, i) == s[i..i + n] + CollapsedFrom(s, i + n)
    decreases n
  {
    if n > 0 {
      CollapseStep(s, i);
      CollapseKeepsRun(s, i + 1, n - 1);
      assert [s[i]] + s[i + 1..i + n] == s[i..i + n];
    }
  }

  /** Collapsing keeps every `>`. */
  lemma {:induction false} CollapseKeepsGt(s: String, i: nat)
    requires i <= |s|
    ensures '>' in CollapsedFrom(s, i) <==> '>' in s[i..]
    decreases |s| - i
  {
    if i < |s| {
      CollapseStep(s, i);
      if IsSpace(s[i]) {
        var e := SpaceRunEnd(s, i);
        CollapseKeepsGt(s, e);
        assert s[i..] == s[i..e] + s[e..];
        assert '>' !in s[i..e];
      } else {
        CollapseKeepsGt(s, i + 1);
        assert s[i..] == [s[i]] + s[i + 1..];
      }
    }
  }

  lemma HasAtCICons(s: String, i: nat, lit: String)
    requires |lit| > 0
    ensures HasAtCI(s, i, lit) <==> i < |s| && Lower(s[i]) == Lower(lit[0]) && HasAtCI(s, i + 1, lit[1..])
  {
    if i < |s| && Lower(s[i]) == Lower(lit[0]) && HasAtCI(s, i + 1, lit[1..]) {
      forall k | 0 <= k < |lit| ensures Lower(s[i + k]) == Lower(lit[k]) {
        if k > 0 {
          assert lit[1..][k - 1] == lit[k];
        }
      }
    }
  }

  /** A space-free literal starts the collapsed text exactly when it occurs at `i`. */
  lemma {:induction false} CollapseHead(s: String, i: nat, lit: String)
    requires i <= |s| && SpaceFree(lit)
    ensures HasAtCI(CollapsedFrom(s, i), 0, lit) <==> HasAtCI(s, i, lit)
    decreases |lit|
  {
    if lit != [] {
      var c := CollapsedFrom(s, i);
      HasAtCICons(c, 0, lit);
      HasAtCICons(s, i, lit);
      assert !IsSpace(Lower(lit[0]));
      if i < |s| {
        CollapseStep(s, i);
        if IsSpace(s[i]) {
          assert Lower(c[0]) == ' ';
        } else {
          var rest := CollapsedFrom(s, i + 1);
          assert c == [s[i]] + rest;
          assert SpaceFree(lit[1..]) by {
            forall k | 0 <= k < |lit[1..]| ensures !IsSpace(Lower(lit[1..][k])) {
              assert lit[1..][k] == lit[k + 1];
            }
          }
          CollapseHead(s, i + 1, lit[1..]);
          HasAtCIDrop(s[i], rest, lit[1..]);
        }
      }
    }
  }

  /** Past a first character, a literal starts where it starts in the rest. */
  lemma HasAtCIDrop(c: char, rest: String, lit: String)
    ensures HasAtCI([c] + rest, 1, lit) <==> HasAtCI(rest, 0, lit)
  {
    var t := [c] + rest;
    if HasAtCI(rest, 0, lit) {
      forall k | 0 <= k < |lit| ensures Lower(t[1 + k]) == Lower(lit[k]) {
        assert t[1 + k] == rest[k];
      }
    }
    if HasAtCI(t, 1, lit) {
      forall k | 0 <= k < |lit| ensures Lower(rest[0 + k]) == Lower(lit[k]) {
        assert t[1 + k] == rest[k];
      }
    }
  }

  lemma BlockNamesSpaceFree()
    ensures SpaceFree("p") && SpaceFree("div") && SpaceFree("h") && SpaceFree("article") && SpaceFree("section")
    ensures SpaceFree("<table")
  {
    forall k | 0 <= k < 7 ensures !IsSpace(Lower("article"[k])) && !IsSpace(Lower("section"[k])) { }
    forall k | 0 <= k < 6 ensures !IsSpace(Lower("<table"[k])) { }
    forall k | 0 <= k < 3 ensures !IsSpace(Lower("div"[k])) { }
  }

  /** Collapsing does not change which block name starts the text. */
  lemma CollapseBlockName(s: String, i: nat)
    requires i <= |s|
    ensures BlockNameAt(CollapsedFrom(s, i), 0) == BlockNameAt(s, i)
  {
    var c := CollapsedFrom(s, i);
    BlockNamesSpaceFree();
    CollapseHead(s, i, "p");
    CollapseHead(s, i, "div");
    CollapseHead(s, i, "h");
    CollapseHead(s, i, "article");
    CollapseHead(s, i, "section");
    if HasAtCI(s, i, "h") {
      assert !IsSpace(s[i]) by { assert Lower(s[i + 0]) == Lower("h"[0]); }
      CollapseStep(s, i);
      var rest := CollapsedFrom(s, i + 1);
      assert c == [s[i]] + rest;
      if i + 1 < |s| {
        CollapseStep(s, i + 1);
        assert c[1] == rest[0];
        assert IsSpace(s[i + 1]) ==> rest[0] == ' ';
        assert !IsSpace(s[i + 1]) ==> rest[0] == s[i + 1];
      } else {
        assert rest == [];
      }
    }
  }

  /** A block name found at `j` is made of characters that are not white space. */
  lemma BlockNameSpaceFree(s: String, j: nat)
    requires BlockNameAt(s, j) > 0
    ensures forall k :: j <= k < j + BlockNameAt(s, j) ==> !IsSpace(s[k])
  {
    BlockNamesSpaceFree();
    if HasAtCI(s, j, "p") {
      LitSpaceFree(s, j, "p");
    } else if HasAtCI(s, j, "div") {
      LitSpaceFree(s, j, "div");
    } else if HasAtCI(s, j, "h") && j + 1 < |s| && '1' <= s[j + 1] <= '6' {
      LitSpaceFree(s, j, "h");
    } else if HasAtCI(s, j, "article") {
      LitSpaceFree(s, j, "article");
    } else {
      LitSpaceFree(s, j, "section");
    }
  }

  lemma LitSpaceFree(s: String, j: nat, lit: String)
    requires HasAtCI(s, j, lit) && SpaceFree(lit)
    ensures forall k :: j <= k < j + |lit| ==> !IsSpace(s[k])
  {
    forall k | j <= k < j + |lit| ensures !IsSpace(s[k]) {
      assert Lower(s[j + (k - j)]) == Lower(lit[k - j]);
    }
  }

  /** A space-free literal occurs in a slice `x[a..b]` that only white space
      follows exactly where it occurs in `x`. */
  lemma HasAtCISlice(x: String, a: nat, b: nat, j: nat, lit: String)
    requires a <= b <= |x| && a + j <= b && SpaceFree(lit)
    requires forall k :: b <= k < |x| ==> IsSpace(x[k])
    ensures HasAtCI(x[a..b], j, lit) <==> HasAtCI(x, a + j, lit)
  {
    var y := x[a..b];
    if j + |lit| <= |y| {
      forall k | j <= k < j + |lit| ensures y[k] == x[a + k] { }
    } else if a + j + |lit| <= |x| {
      var k0 := b - (a + j);
      assert Lower(x[a + j + k0]) != Lower(lit[k0]);
    }
  }

  lemma SliceBlockName(x: String, a: nat, b: nat, j: nat)
    requires a <= b <= |x| && a + j <= b
    requires forall k :: b <= k < |x| ==> IsSpace(x[k])
    ensures BlockNameAt(x[a..b], j) == BlockNameAt(x, a + j)
  {
    BlockNamesSpaceFree();
    HasAtCISlice(x, a, b, j, "p");
    HasAtCISlice(x, a, b, j, "div");
    HasAtCISlice(x, a, b, j, "h");
    HasAtCISlice(x, a, b, j, "article");
    HasAtCISlice(x, a, b, j, "section");
    var y := x[a..b];
    if a + j + 1 < b {
      assert y[j + 1] == x[a + j + 1];
    } else if a + j + 1 < |x| {
      assert IsSpace(x[a + j + 1]);
    }
  }

  lemma TagFromSlice(x: String, a: nat, b: nat, p: nat, n: nat)
    requires a <= b <= |x| && p < b - a
    requires forall k :: b <= k < |x| ==> IsSpace(x[k])
    ensures TagFrom(x[a..b], p, n) <==> TagFrom(x, a + p, n)
  {
    var y := x[a..b];
    assert y[p] == x[a + p];
    if TagFrom(x, a + p, n) {
      var q :| a + p + 1 + n <= q < |x| && x[q] == '>' by {
        var d :| 0 <= d < |x[a + p + 1 + n..]| && x[a + p + 1 + n..][d] == '>';
        assert x[a + p + 1 + n + d] == '>';
      }
      assert q < b;
      assert y[p + 1 + n..][q - (a + p + 1 + n)] == '>';
    }
    if TagFrom(y, p, n) {
      var d :| 0 <= d < |y[p + 1 + n..]| && y[p + 1 + n..][d] == '>';
      assert x[a + p + 1 + n..][d] == '>';
    }
  }

  /** A block tag in a slice `x[a..b]` that only white space follows is one of `x`. */
  lemma SliceBlockTag(x: String, a: nat, b: nat, p: nat)
    requires a <= b <= |x| && p < b - a
    requires forall k :: b <= k < |x| ==> IsSpace(x[k])
    ensures BlockTagAt(x[a..b], p) <==> BlockTagAt(x, a + p)
  {
    var n := BlockNameAt(x, a + p + 1);
    SliceBlockName(x, a, b, p + 1);
    calc {
      BlockTagAt(x[a..b], p);
    == { TagWithName(x[a..b], p, n); }
      TagFrom(x[a..b], p, n);
    == { TagFromSlice(x, a, b, p, n); }
      TagFrom(x, a + p, n);
    == { TagWithName(x, a + p, n); }
      BlockTagAt(x, a + p);
    }
  }

  /** A block tag is a tag whose name is the block name found after its `<`. */
  lemma TagWithName(s: String, i: nat, n: nat)
    requires i < |s| && BlockNameAt(s, i + 1) == n
    ensures BlockTagAt(s, i) <==> TagFrom(s, i, n)
  {
  }

  lemma TagOpensOnNonSpace(x: String, q: nat)
    requires BlockTagAt(x, q)
    ensures !IsSpace(x[q])
  {
  }

  /** Trimming white space from either end keeps every block tag. */
  lemma HasBlockTagSlice(x: String, a: nat, b: nat)
    requires a <= b <= |x|
    requires forall k :: 0 <= k < a ==> IsSpace(x[k])
    requires forall k :: b <= k < |x| ==> IsSpace(x[k])
    ensures HasBlockTag(x[a..b]) <==> HasBlockTag(x)
  {
    SliceTagsUp(x, a, b);
    SliceTagsDown(x, a, b);
  }

  lemma SliceTagsUp(x: String, a: nat, b: nat)
    requires a <= b <= |x|
    requires forall k :: b <= k < |x| ==> IsSpace(x[k])
    ensures HasBlockTag(x[a..b]) ==> HasBlockTag(x)
  {
    var y := x[a..b];
    if HasBlockTag(y) {
      var p :| 0 <= p < |y| && BlockTagAt(y, p);
      SliceBlockTag(x, a, b, p);
    }
  }

  lemma SliceTagsDown(x: String, a: nat, b: nat)
    requires a <= b <= |x|
    requires forall k :: 0 <= k < a ==> IsSpace(x[k])
    requires forall k :: b <= k < |x| ==> IsSpace(x[k])
    ensures HasBlockTag(x) ==> HasBlockTag(x[a..b])
  {
    if HasBlockTag(x) {
      var q :| 0 <= q < |x| && BlockTagAt(x, q);
      TagOpensOnNonSpace(x, q);
      SliceBlockTag(x, a, b, q - a);
    }
  }

  /** Some block tag opens at or after `i`. */
  predicate HasBlockTagFrom(s: String, i: nat) {
    exists p :: i <= p < |s| && BlockTagAt(s, p)
  }

  lemma HasBlockTagFromStep(s: String, i: nat)
    requires i < |s|
    ensures HasBlockTagFrom(s, i) <==> BlockTagAt(s, i) || HasBlockTagFrom(s, i + 1)
  {
    if HasBlockTagFrom(s, i) {
      var p :| i <= p < |s| && BlockTagAt(s, p);
      if p > i {
        assert HasBlockTagFrom(s, i + 1);
      }
    }
  }

  /** The block tags of `y[1..]` are those of `y` from index 1 on. */
  lemma HasBlockTagTail(y: String)
    requires y != []
    ensures HasBlockTag(y[1..]) <==> HasBlockTagFrom(y, 1)
  {
    if HasBlockTag(y[1..]) {
      var p :| 0 <= p < |y[1..]| && BlockTagAt(y[1..], p);
      TailBlockTag(y, p);
    }
    if HasBlockTagFrom(y, 1) {
      var p :| 1 <= p < |y| && BlockTagAt(y, p);
      TailBlockTag(y, p - 1);
    }
  }

  lemma TailBlockTag(y: String, p: nat)
    requires p + 1 < |y|
    ensures BlockTagAt(y[1..], p) <==> BlockTagAt(y, p + 1)
  {
    assert y[1..|y|] == y[1..];
    SliceBlockTag(y, 1, |y|, p);
  }

  /** A block tag of a non-empty text starts at its first character or in the rest. */
  lemma HasBlockTagCons(y: String)
    requires y != []
    ensures HasBlockTag(y) <==> BlockTagAt(y, 0) || HasBlockTag(y[1..])
  {
    HasBlockTagFromStep(y, 0);
    HasBlockTagTail(y);
    assert HasBlockTag(y) == HasBlockTagFrom(y, 0);
  }

  /** Collapsing keeps every block tag and makes none. */
  lemma {:induction false} CollapseBlockTags(s: String, i: nat)
    requires i <= |s|
    ensures HasBlockTag(CollapsedFrom(s, i)) <==> HasBlockTagFrom(s, i)
    decreases |s| - i
  {
    var y := CollapsedFrom(s, i);
    if i < |s| {
      CollapseStep(s, i);
      if IsSpace(s[i]) {
        var e := SpaceRunEnd(s, i);
        CollapseBlockTags(s, e);
        assert y[1..|y|] == CollapsedFrom(s, e);
        HasBlockTagSlice(y, 1, |y|);
        SpacesOpenNoTag(s, i, e);
      } else {
        CollapseBlockTags(s, i + 1);
        assert y[1..] == CollapsedFrom(s, i + 1);
        HasBlockTagCons(y);
        HeadBlockTag(s, i);
        HasBlockTagFromStep(s, i);
      }
    }
  }

  lemma SpacesOpenNoTag(s: String, i: nat, e: nat)
    requires i <= e <= |s| && forall k :: i <= k < e ==> IsSpace(s[k])
    ensures HasBlockTagFrom(s, i) <==> HasBlockTagFrom(s, e)
  {
    if HasBlockTagFrom(s, i) {
      var p :| i <= p < |s| && BlockTagAt(s, p);
      assert p >= e;
    }
  }

  /** A block tag that opens at a character that is not white space survives the
      collapse at the head of the collapsed text. */
  lemma HeadBlockTag(s: String, i: nat)
    requires i < |s| && !IsSpace(s[i])
    ensures BlockTagAt(CollapsedFrom(s, i), 0) <==> BlockTagAt(s, i)
  {
    CollapseStep(s, i);
    var x := CollapsedFrom(s, i + 1);
    HeadBlockName(s, i);
    var n := BlockNameAt(s, i + 1);
    if n > 0 {
      BlockNameSpaceFree(s, i + 1);
      CollapseKeepsRun(s, i + 1, n);
      CollapseKeepsGt(s, i + 1 + n);
      HeadTagFrom(s[i], x, s[i + 1..i + 1 + n], CollapsedFrom(s, i + 1 + n), s, i, n);
    }
  }

  lemma HeadBlockName(s: String, i: nat)
    requires i < |s| && !IsSpace(s[i])
    ensures BlockNameAt(CollapsedFrom(s, i), 1) == BlockNameAt(s, i + 1)
  {
    CollapseStep(s, i);
    var x := CollapsedFrom(s, i + 1);
    var y := CollapsedFrom(s, i);
    assert y[1..|y|] == x;
    SliceBlockName(y, 1, |y|, 0);
    CollapseBlockName(s, i + 1);
  }

  lemma HeadTagFrom(c: char, x: String, name: String, rest: String, s: String, i: nat, n: nat)
    requires i < |s| && s[i] == c && |name| == n && i + 1 + n <= |s|
    requires x == name + rest
    requires '>' in rest <==> '>' in s[i + 1 + n..]
    ensures TagFrom([c] + x, 0, n) <==> TagFrom(s, i, n)
  {
    var y := [c] + x;
    assert y[1 + n..] == rest;
  }

  /** `isSpreadsheetContent` holds exactly when the html holds a Google Sheets
      marker, or its first character that is not white space begins `<table` (in
      any case) and no `p`, `div`, `h1`-`h6`, `article` or `section` tag occurs in it. */
  lemma IsSpreadsheetContentIff(html: String)
    ensures IsSpreadsheetContent(html) <==>
      Contains(html, "data-sheets-") || (HasAtCI(html, SpaceRunEnd(html, 0), "<table") && !HasBlockTag(html))
  {
    StrippedBlockTags(html);
    StrippedTableStart(html);
  }

  /** Collapsing and trimming neither make nor lose a block tag. */
  lemma StrippedBlockTags(html: String)
    ensures HasBlockTag(Trim(CollapseSpace(html))) <==> HasBlockTag(html)
  {
    TrimmedBlockTags(CollapseSpace(html));
    CollapseBlockTags(html, 0);
    assert HasBlockTagFrom(html, 0) <==> HasBlockTag(html);
  }

  /** Trimming white space neither makes nor loses a block tag. */
  lemma TrimmedBlockTags(x: String)
    ensures HasBlockTag(Trim(x)) <==> HasBlockTag(x)
  {
    var a := TrimLead(x);
    var t := Trim(x);
    TrimSlice(x);
    assert t == x[a..a + |t|];
    HasBlockTagSlice(x, a, a + |t|);
  }

  /** The stripped text begins `<table` exactly when the html does after its
      leading white space. */
  lemma StrippedTableStart(html: String)
    ensures HasAtCI(Trim(CollapseSpace(html)), 0, "<table") <==> HasAtCI(html, SpaceRunEnd(html, 0), "<table")
  {
    var x := CollapseSpace(html);
    var t := Trim(x);
    TrimSlice(x);
    var a := TrimLead(x);
    var e0 := SpaceRunEnd(html, 0);
    BlockNamesSpaceFree();
    calc {
      HasAtCI(t, 0, "<table");
    == { HasAtCISlice(x, a, a + |t|, 0, "<table"); }
      HasAtCI(x, a, "<table");
    == { HasAtCISlice(x, a, |x|, 0, "<table"); assert x[a..|x|] == x[a..]; }
      HasAtCI(x[a..], 0, "<table");
    == { CollapsedLead(html); }
      HasAtCI(CollapsedFrom(html, e0), 0, "<table");
    == { CollapseHead(html, e0, "<table"); }
      HasAtCI(html, e0, "<table");
    }
  }

  /** Collapsing turns leading white space into at most one space, which trimming
      removes; the rest is the collapse of the html after its leading white space. */
  lemma CollapsedLead(html: String)
    ensures var x := CollapseSpace(html);
      TrimLead(x) <= 1 && x[TrimLead(x)..] == CollapsedFrom(html, SpaceRunEnd(html, 0))
  {
    var x := CollapseSpace(html);
    assert x == CollapsedFrom(html, 0);
    TrimSlice(x);
    var a := TrimLead(x);
    var e0 := SpaceRunEnd(html, 0);
    if html != [] {
      CollapseStep(html, 0);
      if IsSpace(html[0]) {
        var rest := CollapsedFrom(html, e0);
        assert x == " " + rest;
        if e0 < |html| {
          CollapseStep(html, e0);
          assert !IsSpace(x[1]);
          assert a == 1;
        } else {
          assert rest == [];
        }
        assert x[1..] == rest;
      } else {
        assert !IsSpace(x[0]);
        assert a == 0;
      }
    }
  }

  // ---------------------------------------------------------------------------
  // convertFirstRowToHeaders
  //   /(<table[^>]*>(?:<colgroup>.*?<\/colgroup>)?(?:<caption>.*?<\/caption>)?
  //     (?:<tbody[^>]*>)?)\s*<tr[^>]*>(.*?)<\/tr>/is   -- first match only
  // ---------------------------------------------------------------------------

  /** Where a first-row match ends up: the end of the captured prefix, the first
      row's content `[rowStart, rowEnd)` and the end of the closing `</tr>`. */
  datatype RowMatch = RowMatch(prefixEnd: nat, rowStart: nat, rowEnd: nat, end: nat)

  predicate ValidRow(s: String, j: nat, r: RowMatch) {
    j <= r.prefixEnd < r.rowStart <= r.rowEnd && r.end == r.rowEnd + 5 && r.end <= |s|
    && HasAtCI(s, r.rowEnd, "</tr>")
  }

  /** `\s*<tr[^>]*>(.*?)<\/tr>` at `j`; `j` is where the captured prefix ends. */
  function FirstRowFrom(s: String, j: nat): (r: Option<RowMatch>)
    requires j <= |s|
    ensures r.Some? ==> ValidRow(s, j, r.value) && r.value.prefixEnd == j
  {
    var a := SpaceRunEnd(s, j);
    if !HasAtCI(s, a, "<tr") then None
    else
      var g := FindChar(s, a + 3, '>');
      if g == |s| then None
      else match FindCI(s, g + 1, "</tr>")
        case None => None
        case Some(c) => Some(RowMatch(j, g + 1, c, c + 5))
  }

  /** The optional `<tbody[^>]*>`: tried first, skipped on failure. */
  function TryTbody(s: String, j: nat): (r: Option<RowMatch>)
    requires j <= |s|
    ensures r.Some? ==> ValidRow(s, j, r.value)
  {
    var with := if HasAtCI(s, j, "<tbody") && FindChar(s, j + 6, '>') < |s|
                then FirstRowFrom(s, FindChar(s, j + 6, '>') + 1) else None;
    if with.Some? then with else FirstRowFrom(s, j)
  }

  /** The optional `<caption>.*?</caption>`: each closing tag in turn (the lazy
      body growing), then without the caption. */
  function TryCaption(s: String, j: nat): (r: Option<RowMatch>)
    requires j <= |s|
    ensures r.Some? ==> ValidRow(s, j, r.value)
  {
    if HasAtCI(s, j, "<caption>") then CaptionEnds(s, j + 9, j) else TryTbody(s, j)
  }

  function CaptionEnds(s: String, from: nat, j: nat): (r: Option<RowMatch>)
    requires j <= from <= |s|
    ensures r.Some? ==> ValidRow(s, j, r.value)
    decreases |s| - from
  {
    match FindCI(s, from, "</caption>")
    case None => TryTbody(s, j)
    case Some(c) =>
      var after := TryTbody(s, c + 10);
      if after.Some? then after
      else CaptionEnds(s, c + 1, j)
  }

  /** The optional `<colgroup>.*?</colgroup>`, backtracking like the caption. */
  function TryColgroup(s: String, j: nat): (r: Option<RowMatch>)
    requires j <= |s|
    ensures r.Some? ==> ValidRow(s, j, r.value)
  {
    if HasAtCI(s, j, "<colgroup>") then ColgroupEnds(s, j + 10, j) else TryCaption(s, j)
  }

  function ColgroupEnds(s: String, from: nat, j: nat): (r: Option<RowMatch>)
    requires j <= from <= |s|
    ensures r.Some? ==> ValidRow(s, j, r.value)
    decreases |s| - from
  {
    match FindCI(s, from, "</colgroup>")
    case None => TryCaption(s, j)
    case Some(c) =>
      var after := TryCaption(s, c + 11);
      if after.Some? then after
      else ColgroupEnds(s, c + 1, j)
  }

  /** `<td attrs>` becomes `<th attrs>`. */
  function TdOpenHit(s: String, i: nat): Option<Hit> {
    if HasAtCI(s, i, "<td") && FindChar(s, i + 3, '>') < |s|
    then Some(Hit(FindChar(s, i + 3, '>') + 1, "<th" + s[i + 3..FindChar(s, i + 3, '>')] + ">"))
    else None
  }

  function TdCloseHit(s: String, i: nat): Option<Hit> {
    if HasAtCI(s, i, "</td>") then Some(Hit(i + 5, "</th>")) else None
  }

  /** The first row's cells turned into header cells. */
  function HeaderCells(row: String): String {
    ReplaceAll(ReplaceAll(row, TdOpenHit), TdCloseHit)
  }

  function FirstRowHit(s: String, i: nat): Option<Hit> {
    if HasAtCI(s, i, "<table") && FindChar(s, i + 6, '>') < |s| then
      match TryColgroup(s, FindChar(s, i + 6, '>') + 1)
      case None => None
      case Some(r) =>
        Some(Hit(r.end, s[i..r.prefixEnd] + "<thead><tr>" + HeaderCells(s[r.rowStart..r.rowEnd]) + "</tr></thead><tbody>"))
    else None
  }

  function ConvertFirstRowToHeaders(html: String): String {
    ReplaceFirst(html, FirstRowHit)
  }

  /** A table opened by exactly `<table><tbody><tr>` keeps its `<tbody>` opening
      and gets another one after the new `<thead>`: the prefix is kept as captured. */
  lemma HeaderPromotionWithTbody(row: String, rest: String)
    requires NoEarlyCI(row, "</tr>")
    ensures ConvertFirstRowToHeaders("<table><tbody><tr>" + row + "</tr>" + rest)
         == "<table><tbody>" + "<thead><tr>" + HeaderCells(row) + "</tr></thead><tbody>" + rest
  {
    var s := "<table><tbody><tr>" + row + "</tr>" + rest;
    TbodyRowHit(row, rest);
    ReplaceFirstAtStart(s, FirstRowHit);
    SliceOfRight("<table><tbody><tr>" + row + "</tr>", rest);
    assert |"<table><tbody><tr>" + row + "</tr>"| == 23 + |row|;
  }

  lemma TbodyRowHit(row: String, rest: String)
    requires NoEarlyCI(row, "</tr>")
    ensures FirstRowHit("<table><tbody><tr>" + row + "</tr>" + rest, 0)
         == Some(Hit(23 + |row|, "<table><tbody>" + "<thead><tr>" + HeaderCells(row) + "</tr></thead><tbody>"))
  {
    var s := "<table><tbody><tr>" + row + "</tr>" + rest;
    TbodyTableOpen(row, rest);
    TbodyRow(row, rest);
    FirstRowRead(s, RowMatch(14, 18, 18 + |row|, 23 + |row|));
  }

  /** The `<table>` tag and the captured pieces of `<table><tbody><tr>ROW</tr>...`. */
  lemma TbodyTableOpen(row: String, rest: String)
    ensures var s := "<table><tbody><tr>" + row + "</tr>" + rest;
      HasAtCI(s, 0, "<table") && FindChar(s, 6, '>') == 6
      && 18 + |row| <= |s| && s[0..14] == "<table><tbody>" && s[18..18 + |row|] == row
  {
    var s := "<table><tbody><tr>" + row + "</tr>" + rest;
    assert HasAt(s, 0, "<table");
    HasAtIsHasAtCI(s, 0, "<table");
    assert FindChar(s, 6, '>') == 6;
    var p := "<table><tbody><tr>";
    Assoc(p + row, "</tr>", rest);
    Assoc(p, row, "</tr>" + rest);
    SliceOfLeft(p, row + ("</tr>" + rest), 0, 14);
    assert p[0..14] == "<table><tbody>";
    assert s[18..18 + |row|] == row;
  }

  /** Reading off the header conversion at a `<table>` tag at 0 whose `>` is at 6. */
  lemma FirstRowRead(s: String, r: RowMatch)
    requires HasAtCI(s, 0, "<table") && FindChar(s, 6, '>') == 6 < |s| && TryColgroup(s, 7) == Some(r)
    requires ValidRow(s, 7, r)
    ensures FirstRowHit(s, 0)
         == Some(Hit(r.end, s[0..r.prefixEnd] + "<thead><tr>" + HeaderCells(s[r.rowStart..r.rowEnd]) + "</tr></thead><tbody>"))
  {
  }

  lemma TbodyRow(row: String, rest: String)
    requires NoEarlyCI(row, "</tr>")
    ensures TryColgroup("<table><tbody><tr>" + row + "</tr>" + rest, 7)
         == Some(RowMatch(14, 18, 18 + |row|, 23 + |row|))
  {
    var s := "<table><tbody><tr>" + row + "</tr>" + rest;
    TbodyTagAt(row, rest);
    RowAfterTbody(row, rest);
    assert TryTbody(s, 7) == Some(RowMatch(14, 18, 18 + |row|, 23 + |row|));
    assert TryCaption(s, 7) == TryTbody(s, 7);
  }

  /** At 7 stands `<tbody>`: neither a `<colgroup>` nor a `<caption>`. */
  lemma TbodyTagAt(row: String, rest: String)
    ensures var s := "<table><tbody><tr>" + row + "</tr>" + rest;
      HasAtCI(s, 7, "<tbody") && !HasAtCI(s, 7, "<colgroup>") && !HasAtCI(s, 7, "<caption>")
      && FindChar(s, 13, '>') == 13
  {
    var s := "<table><tbody><tr>" + row + "</tr>" + rest;
    assert HasAt(s, 7, "<tbody");
    HasAtIsHasAtCI(s, 7, "<tbody");
    assert !HasAtCI(s, 7, "<colgroup>") by { assert Lower(s[8]) != Lower("<colgroup>"[1]); }
    assert !HasAtCI(s, 7, "<caption>") by { assert Lower(s[8]) != Lower("<caption>"[1]); }
    assert FindChar(s, 13, '>') == 13;
  }

  lemma RowAfterTbody(row: String, rest: String)
    requires NoEarlyCI(row, "</tr>")
    ensures FirstRowFrom("<table><tbody><tr>" + row + "</tr>" + rest, 14)
         == Some(RowMatch(14, 18, 18 + |row|, 23 + |row|))
  {
    var s := "<table><tbody><tr>" + row + "</tr>" + rest;
    assert HasAt(s, 14, "<tr");
    HasAtIsHasAtCI(s, 14, "<tr");
    assert SpaceRunEnd(s, 14) == 14;
    assert FindChar(s, 17, '>') == 17;
    assert s[18..18 + |row| + 5] == row + "</tr>";
    FindAfterBody(s, 18, row, "</tr>");
  }

  /** Without any `<table` the html passes through untouched. */
  lemma NoTableUnchanged(html: String)
    requires forall i :: 0 <= i <= |html| ==> !HasAtCI(html, i, "<table")
    ensures ConvertFirstRowToHeaders(html) == html
  {
    ReplaceFirstNoHit(html, 0, FirstRowHit);
  }

  /** A table `tsvToHtmlTable` builds from text without `<table` is left as it is:
      right after its `<table>` tag comes `<thead>`, so the row pattern fails there,
      and no other `<table` occurs in it. */
  lemma TsvTableNotPromoted(tsv: String)
    requires FreeOf(tsv, "<table")
    ensures ConvertFirstRowToHeaders(TsvTable(tsv)) == TsvTable(tsv)
  {
    var s := TsvTable(tsv);
    var x := TsvTableAfterOpen(tsv);
    OnlyLeadingTable(s, x);
    HeadThenNoRow(s);
    assert FirstRowHit(s, 0).None?;
    ReplaceFirstNoHit(s, 1, FirstRowHit);
  }

  /** `<table>` and then text without `<table`: no match after index 0. */
  lemma OnlyLeadingTable(s: String, x: String)
    requires s == "<table>" + x && FreeOf(x, "<table")
    ensures forall j :: 1 <= j < |s| ==> FirstRowHit(s, j).None?
  {
    assert s[7..7 + |x|] == x;
    forall j | 1 <= j < |s| ensures !HasAtCI(s, j, "<table") {
      if j < 7 {
        NotAtCI(s, j, "<table", 0);
      } else if j + 6 <= |s| {
        HasAtCIInSlice(s, 7, x, j, "<table");
      }
    }
  }

  /** After `<table>` at 0, a line break and `<th` do not start a row. */
  lemma HeadThenNoRow(s: String)
    requires |s| > 11 && s[..11] == "<table>\n<th"
    ensures TryColgroup(s, 7).None? && HasAtCI(s, 0, "<table") && FindChar(s, 6, '>') == 6
  {
    assert s[7] == '\n' && s[8] == '<' && s[10] == 'h' && s[6] == '>';
    FindCharAt(s, 6, 6, '>');
    NotAtCI(s, 7, "<colgroup>", 0);
    NotAtCI(s, 7, "<caption>", 0);
    NotAtCI(s, 7, "<tbody", 0);
    assert SpaceRunEnd(s, 8) == 8;
    NotAtCI(s, 8, "<tr", 2);
    forall k | 0 <= k < 6 ensures Lower(s[k]) == Lower("<table"[k]) {
      assert s[k] == s[..11][k];
    }
  }

  /** `tsvToHtmlTable`'s output is `<table>` and then text without `<table`. */
  lemma TsvTableAfterOpen(tsv: String) returns (x: String)
    requires FreeOf(tsv, "<table")
    ensures TsvTable(tsv) == "<table>" + x && FreeOf(x, "<table")
    ensures |TsvTable(tsv)| > 11 && TsvTable(tsv)[..11] == "<table>\n<th"
  {
    var lines := TsvLines(tsv);
    LinesFree(tsv);
    var cells := CellsHtml("th", RowCells(lines[0]));
    RowCellsFree("th", lines[0]);
    var body := BodySection(lines);
    BodyFree(lines);
    x := HeadRestFree(cells, body);
    TsvTableParts(tsv, cells, body, x);
  }

  lemma TsvTableParts(tsv: String, cells: String, body: String, x: String)
    requires cells == CellsHtml("th", RowCells(TsvLines(tsv)[0])) && body == BodySection(TsvLines(tsv))
    requires x == "\n<thead>\n<tr>\n" + cells + "</tr>\n</thead>\n" + body + "</table>"
    ensures TsvTable(tsv) == "<table>" + x
    ensures |TsvTable(tsv)| > 11 && TsvTable(tsv)[..11] == "<table>\n<th"
  {
    var t1 := "\n<thead>\n<tr>\n";
    TableSections(tsv, cells, body);
    TableRegroup(cells, body, x);
    OpenPrefix(t1, x[|t1|..]);
  }

  lemma TableSections(tsv: String, cells: String, body: String)
    requires cells == CellsHtml("th", RowCells(TsvLines(tsv)[0])) && body == BodySection(TsvLines(tsv))
    ensures TsvTable(tsv) == TableHead + cells + "</tr>\n</thead>\n" + body + "</table>"
  {
  }

  lemma TableRegroup(cells: String, body: String, x: String)
    requires x == "\n<thead>\n<tr>\n" + cells + "</tr>\n</thead>\n" + body + "</table>"
    ensures TableHead + cells + "</tr>\n</thead>\n" + body + "</table>" == "<table>" + x
    ensures x == "\n<thead>\n<tr>\n" + x[14..]
  {
    var t1 := "\n<thead>\n<tr>\n";
    assert TableHead == "<table>" + t1;
    Regroup("<table>", t1, cells, "</tr>\n</thead>\n", body, "</table>");
    Regroup2(t1, cells, "</tr>\n</thead>\n", body, "</table>");
  }

  lemma Regroup(a: String, b: String, c: String, d: String, f: String, g: String)
    ensures ((((a + b) + c) + d) + f) + g == a + ((((b + c) + d) + f) + g)
  {
    Assoc(a, b, c);
    Assoc(a, b + c, d);
    Assoc(a, (b + c) + d, f);
    Assoc(a, ((b + c) + d) + f, g);
  }

  lemma Regroup2(b: String, c: String, d: String, f: String, g: String)
    ensures (((b + c) + d) + f) + g == b + (((c + d) + f) + g)
  {
    Assoc(b, c, d);
    Assoc(b, c + d, f);
    Assoc(b, (c + d) + f, g);
  }

  lemma OpenPrefix(t1: String, rest: String)
    requires t1 == "\n<thead>\n<tr>\n"
    ensures |"<table>" + (t1 + rest)| > 11 && ("<table>" + (t1 + rest))[..11] == "<table>\n<th"
  {
    var s := "<table>" + (t1 + rest);
    assert s[..11] == "<table>" + t1[..4];
  }

  /** The lines of text without `<table` have none either. */
  lemma LinesFree(tsv: String)
    requires FreeOf(tsv, "<table")
    ensures forall k :: 0 <= k < |TsvLines(tsv)| ==> FreeOf(TsvLines(tsv)[k], "<table")
  {
    FreeOfTrim(tsv, "<table");
    FreeOfSplit(Trim(tsv), '\n', "<table");
  }

  /** What follows `<table>` in the table, as pieces without `<table`. */
  lemma HeadRestFree(cells: String, body: String) returns (x: String)
    requires FreeOf(cells, "<table") && OpensTag(cells) && FreeOf(body, "<table") && OpensTag(body)
    ensures x == "\n<thead>\n<tr>\n" + cells + "</tr>\n</thead>\n" + body + "</table>"
    ensures FreeOf(x, "<table")
  {
    var w := "<table";
    var t1 := "\n<thead>\n<tr>\n";
    var m := "</tr>\n</thead>\n";
    var e := "</table>";
    TheadOpenFree();
    TheadCloseFree();
    TableCloseFree();
    FreeOfConcat(t1, cells, w);
    FreeOfConcat(t1 + cells, m, w);
    FreeOfConcat(t1 + cells + m, body, w);
    FreeOfConcat(t1 + cells + m + body, e, w);
    x := t1 + cells + m + body + e;
  }

  lemma TheadOpenFree()
    ensures FreeOf("\n<thead>\n<tr>\n", "<table")
  {
    FreeOfConcat("\n<the", "ad>\n", "<table");
    FreeOfConcat("\n<the" + "ad>\n", "<tr>\n", "<table");
    assert "\n<thead>\n<tr>\n" == "\n<the" + "ad>\n" + "<tr>\n";
  }

  lemma TheadCloseFree()
    ensures FreeOf("</tr>\n</thead>\n", "<table")
  {
    FreeOfConcat("</tr>", "\n</th", "<table");
    FreeOfConcat("</tr>" + "\n</th", "ead>\n", "<table");
    assert "</tr>\n</thead>\n" == "</tr>" + "\n</th" + "ead>\n";
  }

  lemma TableCloseFree()
    ensures FreeOf("</table>", "<table")
  {
    FreeOfConcat("</", "table", "<table");
    FreeOfConcat("</" + "table", ">", "<table");
    assert "</table>" == "</" + "table" + ">";
  }

  lemma TbodyFree()
    ensures FreeOf("<tbody>\n", "<table") && FreeOf("</tbody>\n", "<table")
  {
    FreeOfConcat("<tbo", "dy>\n", "<table");
    assert "<tbody>\n" == "<tbo" + "dy>\n";
    FreeOfConcat("</tbo", "dy>\n", "<table");
    assert "</tbody>\n" == "</tbo" + "dy>\n";
  }

  /** A row of trimmed fields of a line without `<table` has none either, and
      it opens with `<` unless empty. */
  lemma RowCellsFree(tag: String, line: String)
    requires |tag| == 2 && FreeOf(line, "<table")
    ensures FreeOf(CellsHtml(tag, RowCells(line)), "<table") && OpensTag(CellsHtml(tag, RowCells(line)))
  {
    var fields := Split(line, '\t');
    var texts := RowCells(line);
    FreeOfSplit(line, '\t', "<table");
    forall k | 0 <= k < |texts|
      ensures FreeOf(CellHtml(tag, texts[k]), "<table") && OpensTag(CellHtml(tag, texts[k]))
    {
      FreeOfTrim(fields[k], "<table");
      CellFree(tag, texts[k]);
    }
    ConcatMapFree(t => CellHtml(tag, t), texts);
  }

  predicate OpensTag(s: String) { s != [] ==> s[0] == '<' }

  lemma CellFree(tag: String, text: String)
    requires |tag| == 2 && FreeOf(text, "<table")
    ensures FreeOf(CellHtml(tag, text), "<table") && OpensTag(CellHtml(tag, text))
  {
    var w := "<table";
    var a := "<" + tag + ">";
    var b := "</" + tag + ">";
    FreeOfConcat(a, text, w);
    FreeOfConcat(a + text, b, w);
    FreeOfConcat(a + text + b, "\n", w);
    assert CellHtml(tag, text) == a + text + b + "\n";
  }

  lemma {:induction false} ConcatMapFree(f: String -> String, xs: seq<String>)
    requires forall k :: 0 <= k < |xs| ==> FreeOf(f(xs[k]), "<table") && OpensTag(f(xs[k]))
    ensures FreeOf(ConcatMap(f, xs), "<table") && OpensTag(ConcatMap(f, xs))
    decreases |xs|
  {
    if xs != [] {
      var init := xs[..|xs| - 1];
      assert forall k :: 0 <= k < |init| ==> init[k] == xs[k];
      ConcatMapFree(f, init);
      FreeOfConcat(ConcatMap(f, init), f(xs[|xs| - 1]), "<table");
    }
  }

  lemma RowFree(line: String)
    requires FreeOf(line, "<table")
    ensures FreeOf(RowHtml(line), "<table") && OpensTag(RowHtml(line))
  {
    RowCellsFree("td", line);
    RowPiecesFree(CellsHtml("td", RowCells(line)));
  }

  lemma RowPiecesFree(cells: String)
    requires FreeOf(cells, "<table") && OpensTag(cells)
    ensures FreeOf("<tr>\n" + cells + "</tr>\n", "<table")
  {
    var w := "<table";
    FreeOfConcat("<tr>\n", cells, w);
    FreeOfConcat("</tr>", "\n", w);
    assert "</tr>\n" == "</tr>" + "\n";
    FreeOfConcat("<tr>\n" + cells, "</tr>\n", w);
  }

  lemma BodyFree(lines: seq<String>)
    requires forall k :: 0 <= k < |lines| ==> FreeOf(lines[k], "<table")
    ensures FreeOf(BodySection(lines), "<table") && OpensTag(BodySection(lines))
  {
    if |lines| > 1 {
      var rows := lines[1..];
      forall k | 0 <= k < |rows| ensures FreeOf(RowHtml(rows[k]), "<table") && OpensTag(RowHtml(rows[k])) {
        RowFree(rows[k]);
      }
      ConcatMapFree(RowHtml, rows);
      BodyPiecesFree(RowsHtml(rows));
    }
  }

  lemma BodyPiecesFree(r: String)
    requires FreeOf(r, "<table") && OpensTag(r)
    ensures FreeOf("<tbody>\n" + r + "</tbody>\n", "<table")
  {
    TbodyFree();
    FreeOfConcat("<tbody>\n", r, "<table");
    FreeOfConcat("<tbody>\n" + r, "</tbody>\n", "<table");
  }

  // ---------------------------------------------------------------------------
  // cleanHtml
  // ---------------------------------------------------------------------------

  /** The length of a block name the content pattern accepts after `<`
      (`h1`-`h6`, `p`, `table`, `ul`, `ol`, `blockquote`, `pre`), 0 if none. */
  function ContentNameAt(s: String, j: nat): (n: nat)
    ensures n == 0 || j + n <= |s|
  {
    if HasAtCI(s, j, "h") && j + 1 < |s| && '1' <= s[j + 1] <= '6' then 2
    else if HasAtCI(s, j, "p") then 1
    else if HasAtCI(s, j, "table") then 5
    else if HasAtCI(s, j, "ul") || HasAtCI(s, j, "ol") then 2
    else if HasAtCI(s, j, "blockquote") then 10
    else 0
  }

  /** The length of a closing tag `</name>` at `c` for one of those names, 0 if none. */
  function ClosingAt(s: String, c: nat): (n: nat)
    ensures n == 0 || c + n <= |s|
  {
    if HasAtCI(s, c, "</") && ContentNameAt(s, c + 2) > 0 && HasAtCI(s, c + 2 + ContentNameAt(s, c + 2), ">")
    then 3 + ContentNameAt(s, c + 2)
    else if HasAtCI(s, c, "</pre>") then 6
    else 0
  }

  /** The end of the first closing tag at or after `c`. */
  function FirstClosingEnd(s: String, c: nat): (e: Option<nat>)
    requires c <= |s|
    ensures e.Some? ==> c < e.value <= |s|
    decreases |s| - c
  {
    if c == |s| then None
    else if ClosingAt(s, c) > 0 then Some(c + ClosingAt(s, c))
    else FirstClosingEnd(s, c + 1)
  }

  /** One repetition of the group: an opening block tag name, then lazily anything
      up to the first closing tag of any of the names. */
  function BlockAt(s: String, i: nat): (e: Option<nat>)
    requires i <= |s|
    ensures e.Some? ==> i < e.value <= |s|
  {
    if i < |s| && s[i] == '<' && ContentNameAt(s, i + 1) > 0 then FirstClosingEnd(s, i + 1 + ContentNameAt(s, i + 1))
    else None
  }

  /** Blocks follow one another without a gap from `a` up to `b`. */
  predicate BlockChain(s: String, a: nat, b: nat)
    requires a <= b <= |s|
    decreases b - a
  {
    a == b || (BlockAt(s, a).Some? && BlockAt(s, a).value <= b && BlockChain(s, BlockAt(s, a).value, b))
  }

  /** The greedy `+` repeats while the next block starts right where the last one
      ended; the lazy tail stays empty, so any gap ends the match. */
  function BlockRunEnd(s: String, e: nat): (r: nat)
    requires e <= |s|
    ensures e <= r <= |s|
    ensures BlockChain(s, e, r) && BlockAt(s, r).None?
    decreases |s| - e
  {
    match BlockAt(s, e)
    case None => e
    case Some(e2) => BlockRunEnd(s, e2)
  }

  /** `k` is the first index where a block (with a closing tag after it) starts. */
  predicate FirstBlockStart(s: String, k: nat) {
    k <= |s| && BlockAt(s, k).Some? && forall j :: 0 <= j < k ==> BlockAt(s, j).None?
  }

  /** The first index at or after `i` where a block starts. */
  function FirstBlock(s: String, i: nat): (r: Option<nat>)
    requires i <= |s|
    ensures r.Some? ==> i <= r.value < |s| && BlockAt(s, r.value).Some?
    ensures r.Some? ==> forall j :: i <= j < r.value ==> BlockAt(s, j).None?
    ensures r.None? ==> forall j :: i <= j <= |s| ==> BlockAt(s, j).None?
    decreases |s| - i
  {
    if BlockAt(s, i).Some? then Some(i) else if i == |s| then None else FirstBlock(s, i + 1)
  }

  /** What `html.match(contentPattern)` keeps, as written: without a block, all of
      it; otherwise the chain of gap-free blocks from the first block on, up to the
      first index where no further block starts. */
  function SemanticContentAsWritten(html: String): (r: String)
    ensures (forall j :: 0 <= j <= |html| ==> BlockAt(html, j).None?) ==> r == html
    ensures forall k: nat :: FirstBlockStart(html, k) ==> BlockRunAt(html, k, r)
  {
    match FirstBlock(html, 0)
    case None => html
    case Some(i) =>
      var e := BlockRunEnd(html, BlockAt(html, i).value);
      FirstBlockIsStart(html, i);
      ChainFromBlock(html, i);
      html[i..e]
  }

  /** `r` is read from `k` on, a gap-free chain of blocks after which no block
      starts. */
  predicate BlockRunAt(html: String, k: nat, r: String) {
    k + |r| <= |html| && r == html[k..k + |r|] && BlockChain(html, k, k + |r|)
    && BlockAt(html, k + |r|).None?
  }

  /** The first block `FirstBlock` finds is the only first block start. */
  lemma FirstBlockIsStart(html: String, i: nat)
    requires FirstBlock(html, 0) == Some(i)
    ensures FirstBlockStart(html, i)
    ensures forall k: nat :: FirstBlockStart(html, k) ==> k == i
  {
  }

  /** A block and the run that follows it form one chain. */
  lemma ChainFromBlock(html: String, i: nat)
    requires i <= |html| && BlockAt(html, i).Some?
    ensures var e := BlockRunEnd(html, BlockAt(html, i).value); BlockRunAt(html, i, html[i..e])
  {
    var e2 := BlockAt(html, i).value;
    var e := BlockRunEnd(html, e2);
    assert BlockChain(html, e2, e) && BlockAt(html, e).None?;
    assert BlockChain(html, i, e);
    RunFromChain(html, i, e);
  }

  lemma RunFromChain(html: String, i: nat, e: nat)
    requires i <= e <= |html| && BlockChain(html, i, e) && BlockAt(html, e).None?
    ensures BlockRunAt(html, i, html[i..e])
  {
    var r := html[i..e];
    assert i + |r| == e;
  }

  /** What the content extraction evidently means to keep: without a block, all of
      it; otherwise everything from the first block on. */
  function SemanticContent(html: String): (r: String)
    ensures (forall j :: 0 <= j <= |html| ==> BlockAt(html, j).None?) ==> r == html
    ensures forall k: nat :: FirstBlockStart(html, k) ==> r == html[k..]
  {
    match FirstBlock(html, 0)
    case None => html
    case Some(i) =>
      FirstBlockIsStart(html, i);
      html[i..]
  }

  /** As written, a second paragraph separated by a newline is thrown away. */
  lemma ContentDropsLaterBlocks()
    ensures SemanticContentAsWritten("<p>a</p>\n<p>b</p>") == "<p>a</p>"
    ensures SemanticContent("<p>a</p>\n<p>b</p>") == "<p>a</p>\n<p>b</p>"
  {
    var s := "<p>a</p>\n<p>b</p>";
    TwoParagraphsFirst(s);
    TwoParagraphsRun(s);
    assert s[0..8] == "<p>a</p>";
    assert s[0..] == s;
  }

  lemma TwoParagraphsFirst(s: String)
    requires s == "<p>a</p>\n<p>b</p>"
    ensures FirstBlock(s, 0) == Some(0) && BlockAt(s, 0) == Some(8)
  {
    FirstParagraphBlock(s);
  }

  /** The newline after the first paragraph ends the run of blocks. */
  lemma TwoParagraphsRun(s: String)
    requires s == "<p>a</p>\n<p>b</p>"
    ensures BlockRunEnd(s, 8) == 8
  {
    assert s[8] == '\n';
    assert BlockAt(s, 8).None?;
  }

  /** `<p>a</p>` opening a text is one block ending after its closing tag. */
  lemma FirstParagraphBlock(s: String)
    requires |s| >= 8 && s[..8] == "<p>a</p>"
    ensures BlockAt(s, 0) == Some(8)
  {
    assert s[0] == '<' && s[1] == 'p' && s[2] == '>' && s[3] == 'a';
    assert s[4] == '<' && s[5] == '/' && s[6] == 'p' && s[7] == '>';
    assert HasAtCI(s, 1, "p");
    assert !HasAtCI(s, 1, "h") by { assert Lower(s[1 + 0]) != Lower("h"[0]); }
    assert ContentNameAt(s, 1) == 1;
    assert !HasAtCI(s, 2, "</") by { assert Lower(s[2 + 0]) != Lower("</"[0]); }
    assert !HasAtCI(s, 2, "</pre>") by { assert Lower(s[2 + 0]) != Lower("</pre>"[0]); }
    assert !HasAtCI(s, 3, "</") by { assert Lower(s[3 + 0]) != Lower("</"[0]); }
    assert !HasAtCI(s, 3, "</pre>") by { assert Lower(s[3 + 0]) != Lower("</pre>"[0]); }
    assert HasAtCI(s, 4, "</") && HasAtCI(s, 6, "p") && HasAtCI(s, 7, ">");
    assert !HasAtCI(s, 6, "h") by { assert Lower(s[6 + 0]) != Lower("h"[0]); }
    assert ContentNameAt(s, 6) == 1;
    assert ClosingAt(s, 2) == 0 && ClosingAt(s, 3) == 0 && ClosingAt(s, 4) == 4;
    assert FirstClosingEnd(s, 4) == Some(8);
    assert FirstClosingEnd(s, 3) == Some(8);
    assert FirstClosingEnd(s, 2) == Some(8);
  }

  /** The corrected extraction drops exactly the text before the first block: the
      dropped prefix holds no block start, what is kept begins with one when there
      is any, and so every block start lies in what is kept. */
  lemma SemanticContentIsSuffix(html: String)
    ensures |SemanticContent(html)| <= |html|
    ensures var k := |html| - |SemanticContent(html)|;
      SemanticContent(html) == html[k..]
      && (forall j :: 0 <= j < k ==> BlockAt(html, j).None?)
      && ((exists j :: 0 <= j <= |html| && BlockAt(html, j).Some?) ==> BlockAt(html, k).Some?)
  {
    var f := FirstBlock(html, 0);
    if f.Some? {
      assert FirstBlockStart(html, f.value);
    }
  }

  /** Every block from the corrected content's start on is kept whole, at the same
      place in the content. */
  lemma LaterBlocksKept(html: String, j: nat)
    requires |html| - |SemanticContent(html)| <= j <= |html| && BlockAt(html, j).Some?
    ensures var k := |html| - |SemanticContent(html)|; var e := BlockAt(html, j).value;
      e - k <= |SemanticContent(html)| && SemanticContent(html)[j - k..e - k] == html[j..e]
  {
    var c := SemanticContent(html);
    var k := |html| - |c|;
    SemanticContentIsSuffix(html);
    SuffixSlice(html, k, j, BlockAt(html, j).value);
  }

  lemma SuffixSlice(s: String, k: nat, j: nat, e: nat)
    requires k <= j <= e <= |s|
    ensures s[k..][j - k..e - k] == s[j..e]
  {
  }

  /** What the extraction keeps as written is the start of what it evidently means
      to keep: the regular expression only ever loses blocks after a gap. */
  lemma AsWrittenIsPrefix(html: String)
    ensures |SemanticContentAsWritten(html)| <= |SemanticContent(html)|
    ensures SemanticContentAsWritten(html) == SemanticContent(html)[..|SemanticContentAsWritten(html)|]
  {
    var f := FirstBlock(html, 0);
    if f.Some? {
      assert FirstBlockStart(html, f.value);
    }
  }

  /** `\s+NAME` then `q...q` deleted, `NAME` given with its `=` and opening quote. */
  function SpacedQuotedHit(s: String, i: nat, name: String, q: char): Option<Hit> {
    if i < |s| && IsSpace(s[i]) && HasAtCI(s, SpaceRunEnd(s, i), name)
       && FindChar(s, SpaceRunEnd(s, i) + |name|, q) < |s|
    then Some(Hit(FindChar(s, SpaceRunEnd(s, i) + |name|, q) + 1, []))
    else None
  }

  /** The matcher for `\s+NAME` then `q...q`. */
  function QuotedAttrHit(name: String, q: char): Matcher {
    (t: String, i: nat) => SpacedQuotedHit(t, i, name, q)
  }

  predicate IsDataNameChar(c: char) { IsAsciiLetter(c) || c == '-' }

  function DataNameEnd(s: String, i: nat): (e: nat)
    requires i <= |s|
    ensures i <= e <= |s|
    ensures forall k :: i <= k < e ==> IsDataNameChar(s[k])
    ensures e < |s| ==> !IsDataNameChar(s[e])
    decreases |s| - i
  {
    if i < |s| && IsDataNameChar(s[i]) then DataNameEnd(s, i + 1) else i
  }

  /** `data-[a-z-]+="` at `n`, ignoring case. */
  predicate DataNameMatch(s: String, n: nat) {
    HasAtCI(s, n, "data-") && DataNameEnd(s, n + 5) > n + 5 && HasAt(s, DataNameEnd(s, n + 5), "=\"")
  }

  /** `\s+data-[a-z-]+="[^"]*"` deleted. */
  function DataAttrHit(s: String, i: nat): Option<Hit> {
    if i < |s| && IsSpace(s[i]) && DataNameMatch(s, SpaceRunEnd(s, i)) then
      var e := DataNameEnd(s, SpaceRunEnd(s, i) + 5);
      if FindChar(s, e + 2, '"') < |s| then Some(Hit(FindChar(s, e + 2, '"') + 1, [])) else None
    else None
  }

  /** The greatest index in `[lo, hi)` holding `c`. */
  function LastCharIn(s: String, lo: nat, hi: nat, c: char): (r: Option<nat>)
    requires lo <= hi <= |s|
    ensures r.Some? ==> lo <= r.value < hi && s[r.value] == c
    ensures r.Some? ==> forall k :: r.value < k < hi ==> s[k] != c
    ensures r.None? ==> forall k :: lo <= k < hi ==> s[k] != c
    decreases hi - lo
  {
    if hi == lo then None else if s[hi - 1] == c then Some(hi - 1) else LastCharIn(s, lo, hi - 1, c)
  }

  /** `\n\s*\n\s*\n` becomes two newlines: the match runs to the last newline of
      the whitespace run, which must hold three. */
  function SpacedBreaksHit(s: String, i: nat): Option<Hit> {
    if i < |s| && s[i] == '\n' then
      var e := SpaceRunEnd(s, i);
      match LastCharIn(s, i + 1, e, '\n')
      case None => None
      case Some(q) =>
        if LastCharIn(s, i + 1, q, '\n').Some? then Some(Hit(q + 1, "\n\n")) else None
    else None
  }

  /** The attribute and wrapper deletions of `cleanHtml`, in order. */
  function StripWrappersAndAttributes(s: String): String {
    var a := ReplaceAll(s, DeleteOpenTag("<div"));
    var b := ReplaceAll(a, DeleteCI("</div>"));
    var c := ReplaceAll(b, QuotedAttrHit("style=\"", '"'));
    var d := ReplaceAll(c, QuotedAttrHit("style='", '\''));
    var e := ReplaceAll(d, QuotedAttrHit("class=\"", '"'));
    ReplaceAll(e, DataAttrHit)
  }

  /** `cleanHtml` exactly as written (content extraction included). */
  function CleanHtmlAsWritten(html: String): String {
    Trim(ReplaceAll(StripWrappersAndAttributes(SemanticContentAsWritten(html)), SpacedBreaksHit))
  }

  /** `cleanHtml` with the content extraction corrected. */
  function CleanHtml(html: String): String {
    Trim(ReplaceAll(StripWrappersAndAttributes(SemanticContent(html)), SpacedBreaksHit))
  }

  /** Markup in which none of `<div`, `</div>`, `style=`, `class=` and `data-`
      occurs (ignoring case) is left exactly as it is. What the deletions do
      where they do occur is `TagAttributesStripped` below. */
  lemma StripKeepsOtherMarkup(s: String)
    requires forall i :: 0 <= i <= |s| ==> !HasAtCI(s, i, "<div") && !HasAtCI(s, i, "</div>")
    requires forall i :: 0 <= i <= |s| ==> !HasAtCI(s, i, "style=") && !HasAtCI(s, i, "class=") && !HasAtCI(s, i, "data-")
    ensures StripWrappersAndAttributes(s) == s
  {
    RewriteNoHit(s, 0, DeleteOpenTag("<div"));
    RewriteNoHit(s, 0, DeleteCI("</div>"));
    AttrQuiet(s, "style=\"", "style=", '"');
    AttrQuiet(s, "style='", "style=", '\'');
    AttrQuiet(s, "class=\"", "class=", '"');
    RewriteNoHit(s, 0, DataAttrHit);
  }

  /** Where `short` occurs nowhere, the deletion `\s+long[^q]*q` (`long` starting
      with `short`) finds nothing and leaves the text as it is. */
  lemma AttrQuiet(s: String, long: String, short: String, q: char)
    requires |short| <= |long| && long[..|short|] == short
    requires forall i :: 0 <= i <= |s| ==> !HasAtCI(s, i, short)
    ensures ReplaceAll(s, QuotedAttrHit(long, q)) == s
  {
    forall i | 0 <= i < |s| ensures SpacedQuotedHit(s, i, long, q).None? {
      StyleEqPrefix(s, SpaceRunEnd(s, i), long, short);
    }
    RewriteNoHit(s, 0, QuotedAttrHit(long, q));
  }

  lemma StyleEqPrefix(s: String, j: nat, long: String, short: String)
    requires |short| <= |long| && long[..|short|] == short
    ensures HasAtCI(s, j, long) ==> HasAtCI(s, j, short)
  {
    if HasAtCI(s, j, long) {
      forall k | 0 <= k < |short| ensures Lower(s[j + k]) == Lower(short[k]) {
        assert short[k] == long[k];
      }
    }
  }

  // ---------------------------------------------------------------------------
  // The deletions on one opening tag
  // ---------------------------------------------------------------------------

  /** One attribute of an opening tag as written: the white space before it, its
      name, `=`, and its value between two quotes `q`. */
  datatype Attr = Attr(gap: String, name: String, q: char, value: String)

  function AttrText(a: Attr): String {
    a.gap + a.name + "=" + [a.q] + a.value + [a.q]
  }

  function AttrsText(attrs: seq<Attr>): String
    decreases |attrs|
  {
    if attrs == [] then [] else AttrText(attrs[0]) + AttrsText(attrs[1..])
  }

  /** The opening tag `<NAME`, its attributes, `>`. */
  function TagText(name: String, attrs: seq<Attr>): String {
    "<" + name + AttrsText(attrs) + ">"
  }

  predicate IsAttrNameChar(c: char) { IsAsciiLetter(c) || IsDigit(c) || c == '-' }

  /** `name` is `word`, ignoring ASCII case. */
  predicate NameIs(name: String, word: String) {
    |name| == |word| && HasAtCI(name, 0, word)
  }

  /** The name is one `data-[a-z-]+` matches, ignoring case. */
  predicate IsDataName(name: String) {
    |name| > 5 && HasAtCI(name, 0, "data-") && forall k :: 5 <= k < |name| ==> IsDataNameChar(name[k])
  }

  /** The attributes `cleanHtml` deletes: `style` in either quotes, `class` and
      `data-*` in double quotes. */
  predicate Removed(a: Attr) {
    || (NameIs(a.name, "style") && (a.q == '"' || a.q == '\''))
    || (NameIs(a.name, "class") && a.q == '"')
    || (IsDataName(a.name) && a.q == '"')
  }

  /** `w` never comes right after white space in `v`. */
  predicate NotAfterSpace(v: String, w: String) {
    forall k :: 0 < k <= |v| && IsSpace(v[k - 1]) ==> !HasAtCI(v, k, w)
  }

  /** An attribute as an HTML serialiser writes it: white space, a name of letters,
      digits and `-`, and a value without its own quote. Its value holds no `<div`
      and no `</div>`, and no white space followed by `style`, `class` or `data-`:
      a deletion can then not start inside it. */
  predicate PlainAttr(a: Attr) {
    && |a.gap| > 0 && (forall k :: 0 <= k < |a.gap| ==> IsSpace(a.gap[k]))
    && |a.name| > 0 && (forall k :: 0 <= k < |a.name| ==> IsAttrNameChar(a.name[k]))
    && (a.q == '"' || a.q == '\'') && a.q !in a.value
    && FreeOf(a.value, "<div") && FreeOf(a.value, "</div>")
    && NotAfterSpace(a.value, "style") && NotAfterSpace(a.value, "class")
    && NotAfterSpace(a.value, "data-")
  }

  /** A tag name of letters and digits that does not start with `div`. */
  predicate PlainTagName(name: String) {
    && |name| > 0 && (forall k :: 0 <= k < |name| ==> IsAsciiLetter(name[k]) || IsDigit(name[k]))
    && !HasAtCI(name, 0, "div")
  }

  /** The attributes `cleanHtml` keeps, in order. */
  function Survivors(attrs: seq<Attr>): (r: seq<Attr>)
    ensures forall a :: a in r <==> a in attrs && !Removed(a)
    decreases |attrs|
  {
    if attrs == [] then [] else (if Removed(attrs[0]) then [] else [attrs[0]]) + Survivors(attrs[1..])
  }

  /** The attribute deletions of `cleanHtml`, numbered in the order it applies them. */
  function AttrPass(k: nat): Matcher
    requires k < 4
  {
    if k == 0 then QuotedAttrHit("style=\"", '"')
    else if k == 1 then QuotedAttrHit("style='", '\'')
    else if k == 2 then QuotedAttrHit("class=\"", '"')
    else DataAttrHit
  }

  /** The attributes deletion `k` removes. */
  predicate RemovedBy(k: nat, a: Attr) {
    if k == 0 then NameIs(a.name, "style") && a.q == '"'
    else if k == 1 then NameIs(a.name, "style") && a.q == '\''
    else if k == 2 then NameIs(a.name, "class") && a.q == '"'
    else IsDataName(a.name) && a.q == '"'
  }

  /** The attributes deletion `k` keeps, in order. */
  function KeptBy(k: nat, attrs: seq<Attr>): (r: seq<Attr>)
    ensures forall a :: a in r ==> a in attrs
    decreases |attrs|
  {
    if attrs == [] then [] else (if RemovedBy(k, attrs[0]) then [] else [attrs[0]]) + KeptBy(k, attrs[1..])
  }

  /** The attribute `a` is written at `p` in `s`. */
  predicate AttrAt(s: String, p: nat, a: Attr) { HasAt(s, p, AttrText(a)) }

  /** The attributes are written one after another from `p` on. */
  predicate AttrsAt(s: String, p: nat, attrs: seq<Attr>) { HasAt(s, p, AttrsText(attrs)) }

  /** Where each part of an attribute written at `p` lies. */
  lemma AttrLayout(s: String, p: nat, a: Attr)
    requires AttrAt(s, p, a)
    ensures var n := p + |a.gap|; var v := n + |a.name| + 2;
      && v + |a.value| < |s| && p + |AttrText(a)| == v + |a.value| + 1
      && (forall k :: p <= k < n ==> s[k] == a.gap[k - p])
      && (forall k :: n <= k < n + |a.name| ==> s[k] == a.name[k - n])
      && s[n + |a.name|] == '=' && s[n + |a.name| + 1] == a.q
      && (forall k :: v <= k < v + |a.value| ==> s[k] == a.value[k - v])
      && s[v + |a.value|] == a.q
  {
    var t := AttrText(a);
    forall k | p <= k < p + |t| ensures s[k] == t[k - p] {
      assert s[p..p + |t|][k - p] == s[k];
    }
  }

  lemma AttrsHead(s: String, p: nat, attrs: seq<Attr>)
    requires attrs != [] && AttrsAt(s, p, attrs)
    ensures AttrAt(s, p, attrs[0]) && AttrsAt(s, p + |AttrText(attrs[0])|, attrs[1..])
  {
    var x := AttrText(attrs[0]);
    var y := AttrsText(attrs[1..]);
    assert s[p..p + |x|] == s[p..p + |x| + |y|][..|x|];
    assert s[p + |x|..p + |x| + |y|] == s[p..p + |x| + |y|][|x|..];
  }

  lemma AttrsTextCons(a: Attr, r: seq<Attr>)
    ensures AttrsText([a] + r) == AttrText(a) + AttrsText(r)
  {
    assert ([a] + r)[1..] == r;
  }

  /** An attribute's name, then `=` and its quote. */
  lemma NameLayout(s: String, p: nat, a: Attr)
    requires AttrAt(s, p, a)
    ensures var n := p + |a.gap|; var e := n + |a.name|;
      && e + 2 <= |s| && (forall k :: 0 <= k < |a.name| ==> s[n + k] == a.name[k])
      && s[e] == '=' && s[e + 1] == a.q
  {
    AttrLayout(s, p, a);
  }

  /** An attribute's value and the quote closing it. */
  lemma ValueLayout(s: String, p: nat, a: Attr)
    requires AttrAt(s, p, a)
    ensures var v := p + |a.gap| + |a.name| + 2;
      && v + |a.value| < |s| && p + |AttrText(a)| == v + |a.value| + 1
      && (forall k :: v <= k < v + |a.value| ==> s[k] == a.value[k - v])
      && s[v + |a.value|] == a.q
  {
    AttrLayout(s, p, a);
  }

  /** Inside the white space before a non-space at `n`, every run ends at `n`. */
  lemma GapRunEnd(s: String, p: nat, n: nat)
    requires p <= n < |s| && !IsSpace(s[n]) && forall k :: p <= k < n ==> IsSpace(s[k])
    ensures forall j :: p <= j <= n ==> SpaceRunEnd(s, j) == n
  {
    forall j | p <= j <= n ensures SpaceRunEnd(s, j) == n {
      var e := SpaceRunEnd(s, j);
      assert e <= n;
    }
  }

  /** The classes of an attribute's characters: white space before the name, none
      (and no `<`) from the name to the opening quote, a quote closing it. */
  lemma AttrClasses(s: String, p: nat, a: Attr)
    requires AttrAt(s, p, a) && PlainAttr(a)
    ensures var n := p + |a.gap|; var v := n + |a.name| + 2;
      && (forall k :: p <= k < n ==> IsSpace(s[k]))
      && (forall k :: n <= k < v ==> !IsSpace(s[k]) && Lower(s[k]) != '<')
      && v + |a.value| < |s| && (s[v + |a.value|] == '"' || s[v + |a.value|] == '\'')
  {
    AttrLayout(s, p, a);
    var n := p + |a.gap|;
    forall k | n <= k < n + |a.name| ensures !IsSpace(s[k]) && Lower(s[k]) != '<' {
      assert IsAttrNameChar(a.name[k - n]);
    }
  }

  /** A word that starts inside a value written at `v`, and whose characters all
      differ from the one closing the value, lies inside the value. */
  lemma WordInValue(s: String, v: nat, value: String, k: nat, w: String)
    requires v <= k <= v + |value| < |s| && |w| > 0
    requires forall j :: v <= j < v + |value| ==> s[j] == value[j - v]
    requires forall t :: 0 <= t < |w| ==> Lower(s[v + |value|]) != Lower(w[t])
    requires !HasAtCI(value, k - v, w)
    ensures !HasAtCI(s, k, w)
  {
    var c := v + |value|;
    if k + |w| <= c {
      var t :| 0 <= t < |w| && Lower(value[k - v + t]) != Lower(w[t]);
      NotAtCI(s, k, w, t);
    } else if k + |w| <= |s| {
      NotAtCI(s, k, w, c - k);
    }
  }

  /** The run of white space from inside such a value does not start `w` when the
      value never has `w` after white space. */
  lemma RunInValue(s: String, v: nat, value: String, j: nat, w: String)
    requires v <= j < v + |value| < |s| && IsSpace(s[j]) && |w| > 0
    requires forall k :: v <= k < v + |value| ==> s[k] == value[k - v]
    requires !IsSpace(s[v + |value|])
    requires forall t :: 0 <= t < |w| ==> Lower(s[v + |value|]) != Lower(w[t])
    requires NotAfterSpace(value, w)
    ensures !HasAtCI(s, SpaceRunEnd(s, j), w)
  {
    var e := SpaceRunEnd(s, j);
    assert e <= v + |value|;
    assert s[e - 1] == value[e - 1 - v];
    WordInValue(s, v, value, e, w);
  }

  /** At an attribute's name, `word=` and the quote `pq` occur exactly when the
      name is `word`, ignoring case, and the quote is `pq`. */
  lemma PatternAtName(s: String, p: nat, a: Attr, word: String, pq: char)
    requires AttrAt(s, p, a) && forall k :: 0 <= k < |a.name| ==> IsAttrNameChar(a.name[k])
    requires |word| == 5 && (forall t :: 0 <= t < 5 ==> 'a' <= word[t] <= 'z') && (pq == '"' || pq == '\'')
    ensures HasAtCI(s, p + |a.gap|, word + "=" + [pq]) <==> NameIs(a.name, word) && a.q == pq
  {
    NameLayout(s, p, a);
    var pat := word + "=" + [pq];
    var n := p + |a.gap|;
    var m := |a.name|;
    if m < 5 {
      NotAtCI(s, n, pat, m);
    } else if m > 5 {
      assert s[n + 5] == a.name[5];
      NotAtCI(s, n, pat, 5);
    } else if !NameIs(a.name, word) {
      var t :| 0 <= t < 5 && Lower(a.name[t]) != Lower(word[t]);
      assert s[n + t] == a.name[t] && pat[t] == word[t];
      NotAtCI(s, n, pat, t);
    } else if a.q != pq {
      NotAtCI(s, n, pat, 6);
    } else {
      forall t | 0 <= t < 7 ensures Lower(s[n + t]) == Lower(pat[t]) {
        if t < 5 {
          assert s[n + t] == a.name[t] && pat[t] == word[t];
        }
      }
    }
  }

  /** `\s+WORD=q[^q]*q` removes an attribute `WORD` in quotes `q` whole. */
  lemma QuotedHits(s: String, p: nat, a: Attr, word: String, pq: char)
    requires AttrAt(s, p, a) && PlainAttr(a)
    requires |word| == 5 && (forall t :: 0 <= t < 5 ==> 'a' <= word[t] <= 'z') && (pq == '"' || pq == '\'')
    requires NameIs(a.name, word) && a.q == pq
    ensures SpacedQuotedHit(s, p, word + "=" + [pq], pq) == Some(Hit(p + |AttrText(a)|, []))
  {
    ValueLayout(s, p, a);
    AttrClasses(s, p, a);
    var n := p + |a.gap|;
    var v := n + |a.name| + 2;
    GapRunEnd(s, p, n);
    PatternAtName(s, p, a, word, pq);
    FindCharAt(s, v, v + |a.value|, pq);
  }

  /** `\s+WORD=q[^q]*q` finds nothing inside any other attribute. */
  lemma QuotedMisses(s: String, p: nat, a: Attr, word: String, pq: char)
    requires AttrAt(s, p, a) && PlainAttr(a)
    requires |word| == 5 && (forall t :: 0 <= t < 5 ==> 'a' <= word[t] <= 'z') && (pq == '"' || pq == '\'')
    requires NotAfterSpace(a.value, word) && !(NameIs(a.name, word) && a.q == pq)
    ensures forall j :: p <= j < p + |AttrText(a)| ==> SpacedQuotedHit(s, j, word + "=" + [pq], pq).None?
  {
    var pat := word + "=" + [pq];
    var n := p + |a.gap|;
    var v := n + |a.name| + 2;
    AttrClasses(s, p, a);
    ValueLayout(s, p, a);
    PatternAtName(s, p, a, word, pq);
    QuotedGapMisses(s, p, n, pat, pq);
    QuotedValueMisses(s, v, a.value, word, pat, pq);
  }

  /** Before a name that does not start the pattern, `\s+PAT` finds nothing. */
  lemma QuotedGapMisses(s: String, p: nat, n: nat, pat: String, pq: char)
    requires p <= n < |s| && !IsSpace(s[n]) && forall k :: p <= k < n ==> IsSpace(s[k])
    requires !HasAtCI(s, n, pat)
    ensures forall j :: p <= j < n ==> SpacedQuotedHit(s, j, pat, pq).None?
  {
    GapRunEnd(s, p, n);
  }

  /** Inside a value that never has `word` after white space, and up to its closing
      quote, `\s+PAT` (which starts with `word`) finds nothing. */
  lemma QuotedValueMisses(s: String, v: nat, value: String, word: String, pat: String, pq: char)
    requires v + |value| < |s| && (forall k :: v <= k < v + |value| ==> s[k] == value[k - v])
    requires 0 < |word| <= |pat| && pat[..|word|] == word && NotAfterSpace(value, word)
    requires !IsSpace(s[v + |value|]) && forall t :: 0 <= t < |word| ==> Lower(s[v + |value|]) != Lower(word[t])
    ensures forall j :: v <= j <= v + |value| ==> SpacedQuotedHit(s, j, pat, pq).None?
  {
    forall j | v <= j < v + |value| && IsSpace(s[j]) ensures SpacedQuotedHit(s, j, pat, pq).None? {
      RunInValue(s, v, value, j, word);
      StyleEqPrefix(s, SpaceRunEnd(s, j), pat, word);
    }
  }


  /** The name of an attribute that starts with `data-` (ignoring case): its
      letters and dashes end at the name's end exactly when it is a data name. */
  lemma DataNameAt(s: String, p: nat, a: Attr)
    requires AttrAt(s, p, a) && |a.name| >= 5 && HasAtCI(a.name, 0, "data-")
    ensures var n := p + |a.gap|; var e := DataNameEnd(s, n + 5);
      && HasAtCI(s, n, "data-") && e <= n + |a.name|
      && (e == n + |a.name| <==> forall k :: 5 <= k < |a.name| ==> IsDataNameChar(a.name[k]))
  {
    NameLayout(s, p, a);
    var n := p + |a.gap|;
    var m := |a.name|;
    forall t | 0 <= t < 5 ensures Lower(s[n + t]) == Lower("data-"[t]) {
      assert s[n + t] == a.name[t];
    }
    var e := DataNameEnd(s, n + 5);
    if e < n + m {
      assert s[e] == a.name[e - n];
    } else {
      forall k | 5 <= k < m ensures IsDataNameChar(a.name[k]) {
        assert s[n + k] == a.name[k];
      }
    }
  }

  /** At an attribute's name, `data-[a-z-]+="` matches, ignoring case, exactly when
      the name is a data name and the quote double; its letters then end at the
      name's end. */
  lemma DataPatternAtName(s: String, p: nat, a: Attr)
    requires AttrAt(s, p, a) && forall k :: 0 <= k < |a.name| ==> IsAttrNameChar(a.name[k])
    ensures DataNameMatch(s, p + |a.gap|) <==> IsDataName(a.name) && a.q == '"'
    ensures IsDataName(a.name) ==> DataNameEnd(s, p + |a.gap| + 5) == p + |a.gap| + |a.name|
  {
    NameLayout(s, p, a);
    var n := p + |a.gap|;
    var m := |a.name|;
    if m < 5 {
      NotAtCI(s, n, "data-", m);
    } else if !HasAtCI(a.name, 0, "data-") {
      var t :| 0 <= t < 5 && Lower(a.name[t]) != Lower("data-"[t]);
      assert s[n + t] == a.name[t];
      NotAtCI(s, n, "data-", t);
    } else {
      DataNameAt(s, p, a);
      var e := DataNameEnd(s, n + 5);
      assert s[e..e + 2][0] == s[e] && s[e..e + 2][1] == s[e + 1];
      if e < n + m {
        assert s[e] == a.name[e - n];
      }
    }
  }

  /** `\s+data-[a-z-]+="[^"]*"` removes a data attribute in double quotes whole. */
  lemma DataHits(s: String, p: nat, a: Attr)
    requires AttrAt(s, p, a) && PlainAttr(a) && IsDataName(a.name) && a.q == '"'
    ensures DataAttrHit(s, p) == Some(Hit(p + |AttrText(a)|, []))
  {
    ValueLayout(s, p, a);
    AttrClasses(s, p, a);
    var n := p + |a.gap|;
    var v := n + |a.name| + 2;
    GapRunEnd(s, p, n);
    DataPatternAtName(s, p, a);
    FindCharAt(s, v, v + |a.value|, '"');
  }

  /** `\s+data-[a-z-]+="[^"]*"` finds nothing inside any other attribute. */
  lemma DataMisses(s: String, p: nat, a: Attr)
    requires AttrAt(s, p, a) && PlainAttr(a) && !(IsDataName(a.name) && a.q == '"')
    ensures forall j :: p <= j < p + |AttrText(a)| ==> DataAttrHit(s, j).None?
  {
    var n := p + |a.gap|;
    var v := n + |a.name| + 2;
    AttrClasses(s, p, a);
    ValueLayout(s, p, a);
    DataPatternAtName(s, p, a);
    DataGapMisses(s, p, n);
    DataValueMisses(s, v, a.value);
  }

  /** Before a name `data-[a-z-]+="` does not match, the data deletion finds nothing. */
  lemma DataGapMisses(s: String, p: nat, n: nat)
    requires p <= n < |s| && !IsSpace(s[n]) && forall k :: p <= k < n ==> IsSpace(s[k])
    requires !DataNameMatch(s, n)
    ensures forall j :: p <= j < n ==> DataAttrHit(s, j).None?
  {
    GapRunEnd(s, p, n);
  }

  /** Inside a value that never has `data-` after white space, and up to its
      closing quote, the data deletion finds nothing. */
  lemma DataValueMisses(s: String, v: nat, value: String)
    requires v + |value| < |s| && (forall k :: v <= k < v + |value| ==> s[k] == value[k - v])
    requires NotAfterSpace(value, "data-") && (s[v + |value|] == '"' || s[v + |value|] == '\'')
    ensures forall j :: v <= j <= v + |value| ==> DataAttrHit(s, j).None?
  {
    forall j | v <= j < v + |value| && IsSpace(s[j]) ensures DataAttrHit(s, j).None? {
      RunInValue(s, v, value, j, "data-");
    }
  }


  /** Deletion `k` removes the attribute at `p` whole when it is one it removes,
      and otherwise finds nothing inside it. */
  lemma PassOnAttr(s: String, p: nat, a: Attr, k: nat)
    requires k < 4 && AttrAt(s, p, a) && PlainAttr(a)
    ensures RemovedBy(k, a) ==> AttrPass(k)(s, p) == Some(Hit(p + |AttrText(a)|, []))
    ensures !RemovedBy(k, a) ==> forall j :: p <= j < p + |AttrText(a)| ==> AttrPass(k)(s, j).None?
  {
    if k == 0 {
      assert "style" + "=" + ['"'] == "style=\"";
      if RemovedBy(k, a) {
        QuotedHits(s, p, a, "style", '"');
      } else {
        QuotedMisses(s, p, a, "style", '"');
      }
    } else if k == 1 {
      assert "style" + "=" + ['\''] == "style='";
      if RemovedBy(k, a) {
        QuotedHits(s, p, a, "style", '\'');
      } else {
        QuotedMisses(s, p, a, "style", '\'');
      }
    } else if k == 2 {
      assert "class" + "=" + ['"'] == "class=\"";
      if RemovedBy(k, a) {
        QuotedHits(s, p, a, "class", '"');
      } else {
        QuotedMisses(s, p, a, "class", '"');
      }
    } else if RemovedBy(k, a) {
      DataHits(s, p, a);
    } else {
      DataMisses(s, p, a);
    }
  }

  /** The matcher `m` removes the attribute at `p` whole when `del` holds, and
      otherwise finds nothing inside it. */
  predicate ActsOn(m: Matcher, s: String, p: nat, a: Attr, del: bool) {
    && (del ==> m(s, p) == Some(Hit(p + |AttrText(a)|, [])))
    && (!del ==> forall j :: p <= j < p + |AttrText(a)| ==> m(s, j).None?)
  }

  /** `m` acts so on each of the attributes written from `p` on, removing those
      deletion `k` removes. */
  predicate ActsOnAll(m: Matcher, s: String, p: nat, attrs: seq<Attr>, k: nat)
    decreases |attrs|
  {
    attrs != [] ==>
      && ActsOn(m, s, p, attrs[0], RemovedBy(k, attrs[0]))
      && ActsOnAll(m, s, p + |AttrText(attrs[0])|, attrs[1..], k)
  }

  /** Deletion `k` acts so on attributes written from `p` on. */
  lemma {:induction false} PassActsOnAll(s: String, p: nat, attrs: seq<Attr>, k: nat)
    requires k < 4 && AttrsAt(s, p, attrs) && forall a :: a in attrs ==> PlainAttr(a)
    ensures ActsOnAll(AttrPass(k), s, p, attrs, k)
    decreases |attrs|
  {
    if attrs != [] {
      AttrsHead(s, p, attrs);
      PassOnAttr(s, p, attrs[0], k);
      PassActsOnAll(s, p + |AttrText(attrs[0])|, attrs[1..], k);
    }
  }

  /** Over attributes it acts so on, a global replace writes out those it keeps. */
  lemma {:induction false} RewriteOverAttrs(s: String, p: nat, attrs: seq<Attr>, m: Matcher, k: nat)
    requires AttrsAt(s, p, attrs) && ActsOnAll(m, s, p, attrs, k)
    ensures Rewrite(s, p, m) == AttrsText(KeptBy(k, attrs)) + Rewrite(s, p + |AttrsText(attrs)|, m)
    decreases |attrs|
  {
    if attrs != [] {
      var e := p + |AttrText(attrs[0])|;
      AttrsHead(s, p, attrs);
      RewriteOverAttrs(s, e, attrs[1..], m, k);
      assert e + |AttrsText(attrs[1..])| == p + |AttrsText(attrs)|;
      RewriteStep(s, p, m, attrs, k, Rewrite(s, p + |AttrsText(attrs)|, m));
    }
  }

  /** The first attribute, removed or copied, then what the rewrite makes of the rest. */
  lemma RewriteStep(s: String, p: nat, m: Matcher, attrs: seq<Attr>, k: nat, rest: String)
    requires attrs != [] && AttrAt(s, p, attrs[0]) && ActsOn(m, s, p, attrs[0], RemovedBy(k, attrs[0]))
    requires Rewrite(s, p + |AttrText(attrs[0])|, m) == AttrsText(KeptBy(k, attrs[1..])) + rest
    ensures Rewrite(s, p, m) == AttrsText(KeptBy(k, attrs)) + rest
  {
    var a := attrs[0];
    var kept := KeptBy(k, attrs[1..]);
    var e := p + |AttrText(a)|;
    if RemovedBy(k, a) {
      RewriteHit(s, p, m, e, []);
      assert KeptBy(k, attrs) == kept;
    } else {
      RewriteSkip(s, p, e, m);
      assert KeptBy(k, attrs) == [a] + kept;
      AttrsTextCons(a, kept);
      Assoc(AttrText(a), AttrsText(kept), rest);
    }
  }


  lemma RewriteCopies(s: String, p: nat, e: nat, m: Matcher, mid: String, rest: String)
    requires p <= e <= |s| && (forall j :: p <= j < e ==> m(s, j).None?) && Rewrite(s, e, m) == mid + rest
    ensures Rewrite(s, p, m) == (s[p..e] + mid) + rest
  {
    RewriteSkip(s, p, e, m);
    Assoc(s[p..e], mid, rest);
  }



  /** A character that is not white space starts no attribute deletion. */
  lemma NonSpaceMisses(s: String, k: nat)
    requires k < 4
    ensures forall j :: 0 <= j < |s| && !IsSpace(s[j]) ==> AttrPass(k)(s, j).None?
  {
  }

  /** On an opening tag, deletion `k` removes exactly the attributes it names. */
  lemma TagUnderPass(name: String, attrs: seq<Attr>, k: nat)
    requires k < 4 && PlainTagName(name) && forall a :: a in attrs ==> PlainAttr(a)
    ensures ReplaceAll(TagText(name, attrs), AttrPass(k)) == TagText(name, KeptBy(k, attrs))
  {
    var s := TagText(name, attrs);
    var p := 1 + |name|;
    TagLayout(name, attrs);
    NonSpaceMisses(s, k);
    PassActsOnAll(s, p, attrs, k);
    TagUnderMatcher(name, attrs, AttrPass(k), k);
  }

  /** Where the parts of an opening tag lie. */
  lemma TagLayout(name: String, attrs: seq<Attr>)
    requires PlainTagName(name)
    ensures var s := TagText(name, attrs); var p := 1 + |name|; var q := p + |AttrsText(attrs)|;
      && |s| == q + 1 && s[0..p] == "<" + name && AttrsAt(s, p, attrs) && s[q] == '>'
      && forall j :: 0 <= j < p ==> !IsSpace(s[j])
  {
    var s := TagText(name, attrs);
    var p := 1 + |name|;
    assert s[p..p + |AttrsText(attrs)|] == AttrsText(attrs);
    forall j | 0 < j < p ensures !IsSpace(s[j]) {
      assert s[j] == name[j - 1];
    }
  }

  /** A matcher that finds nothing in `<NAME` and at `>` and acts on the attributes
      as deletion `k` does rewrites the tag to the one with the attributes it keeps. */
  lemma TagUnderMatcher(name: String, attrs: seq<Attr>, m: Matcher, k: nat)
    requires var s := TagText(name, attrs); var p := 1 + |name|; var q := p + |AttrsText(attrs)|;
      && |s| == q + 1 && s[0..p] == "<" + name && AttrsAt(s, p, attrs) && s[q] == '>'
      && (forall j :: 0 <= j < p ==> m(s, j).None?) && m(s, q).None?
    requires ActsOnAll(m, TagText(name, attrs), 1 + |name|, attrs, k)
    ensures ReplaceAll(TagText(name, attrs), m) == TagText(name, KeptBy(k, attrs))
  {
    var s := TagText(name, attrs);
    var p := 1 + |name|;
    var q := p + |AttrsText(attrs)|;
    RewriteOverAttrs(s, p, attrs, m, k);
    RewriteNoHit(s, q, m);
    assert s[q..] == ">";
    RewriteCopies(s, 0, p, m, AttrsText(KeptBy(k, attrs)), ">");
  }



  /** Neither `<div` nor `</div>` starts inside an attribute. */
  lemma NoDivInAttr(s: String, p: nat, a: Attr, w: String)
    requires AttrAt(s, p, a) && PlainAttr(a) && (w == "<div" || w == "</div>")
    ensures forall j :: p <= j < p + |AttrText(a)| ==> !HasAtCI(s, j, w)
  {
    AttrLayout(s, p, a);
    var v := p + |a.gap| + |a.name| + 2;
    forall j | p <= j < p + |AttrText(a)| ensures !HasAtCI(s, j, w) {
      if j < v {
        NotAtCI(s, j, w, 0);
      } else {
        WordInValue(s, v, a.value, j, w);
      }
    }
  }

  lemma {:induction false} AttrsNoDiv(s: String, p: nat, attrs: seq<Attr>, w: String)
    requires AttrsAt(s, p, attrs) && (forall a :: a in attrs ==> PlainAttr(a))
    requires w == "<div" || w == "</div>"
    ensures forall j :: p <= j < p + |AttrsText(attrs)| ==> !HasAtCI(s, j, w)
    decreases |attrs|
  {
    if attrs != [] {
      AttrsHead(s, p, attrs);
      NoDivInAttr(s, p, attrs[0], w);
      AttrsNoDiv(s, p + |AttrText(attrs[0])|, attrs[1..], w);
    }
  }

  /** An opening tag other than a `div` holds no `<div` and no `</div>`, so the two
      wrapper deletions leave it as it is. */
  lemma TagKeptByDivPasses(name: String, attrs: seq<Attr>)
    requires PlainTagName(name) && forall a :: a in attrs ==> PlainAttr(a)
    ensures ReplaceAll(TagText(name, attrs), DeleteOpenTag("<div")) == TagText(name, attrs)
    ensures ReplaceAll(TagText(name, attrs), DeleteCI("</div>")) == TagText(name, attrs)
  {
    var s := TagText(name, attrs);
    TagStartNoDiv(name, attrs);
    TagHasNoDiv(name, attrs, "<div");
    TagHasNoDiv(name, attrs, "</div>");
    RewriteNoHit(s, 0, DeleteOpenTag("<div"));
    RewriteNoHit(s, 0, DeleteCI("</div>"));
  }

  /** Past its first character, such a tag holds no `w`. */
  lemma TagHasNoDiv(name: String, attrs: seq<Attr>, w: String)
    requires PlainTagName(name) && forall a :: a in attrs ==> PlainAttr(a)
    requires w == "<div" || w == "</div>"
    ensures forall j :: 0 < j <= |TagText(name, attrs)| ==> !HasAtCI(TagText(name, attrs), j, w)
  {
    var s := TagText(name, attrs);
    var p := 1 + |name|;
    var q := p + |AttrsText(attrs)|;
    assert AttrsAt(s, p, attrs) by {
      assert s[p..q] == AttrsText(attrs);
    }
    AttrsNoDiv(s, p, attrs, w);
    forall j | 0 < j < p ensures !HasAtCI(s, j, w) {
      assert s[j] == name[j - 1];
      NotAtCI(s, j, w, 0);
    }
    assert s[q] == '>';
    NotAtCI(s, q, w, 0);
  }

  /** Such a tag does not start with `<div` or `</div>`. */
  lemma TagStartNoDiv(name: String, attrs: seq<Attr>)
    requires PlainTagName(name) && forall a :: a in attrs ==> PlainAttr(a)
    ensures !HasAtCI(TagText(name, attrs), 0, "<div") && !HasAtCI(TagText(name, attrs), 0, "</div>")
  {
    var s := TagText(name, attrs);
    var p := 1 + |name|;
    TagLayout(name, attrs);
    assert s[1] == s[0..p][1];
    NotAtCI(s, 0, "</div>", 1);
    if |name| >= 3 {
      var t :| 0 <= t < 3 && Lower(name[t]) != Lower("div"[t]);
      assert s[t + 1] == s[0..p][t + 1];
      NotAtCI(s, 0, "<div", t + 1);
    } else {
      if attrs != [] {
        AttrsHead(s, p, attrs);
        assert PlainAttr(attrs[0]);
        AttrClasses(s, p, attrs[0]);
      }
      NotAtCI(s, 0, "<div", p);
    }
  }


  lemma {:induction false} KeptByAppend(k: nat, x: seq<Attr>, y: seq<Attr>)
    ensures KeptBy(k, x + y) == KeptBy(k, x) + KeptBy(k, y)
    decreases |x|
  {
    if x == [] {
      assert x + y == y;
    } else {
      var h := if RemovedBy(k, x[0]) then [] else [x[0]];
      assert (x + y)[0] == x[0];
      assert (x + y)[1..] == x[1..] + y;
      assert KeptBy(k, x + y) == h + KeptBy(k, x[1..] + y);
      KeptByAppend(k, x[1..], y);
      assert KeptBy(k, x) == h + KeptBy(k, x[1..]);
      assert (h + KeptBy(k, x[1..])) + KeptBy(k, y) == h + (KeptBy(k, x[1..]) + KeptBy(k, y));
    }
  }

  /** The four attribute deletions in turn keep exactly the survivors. */
  lemma {:induction false} PassesKeepSurvivors(attrs: seq<Attr>)
    ensures KeptBy(3, KeptBy(2, KeptBy(1, KeptBy(0, attrs)))) == Survivors(attrs)
    decreases |attrs|
  {
    if attrs != [] {
      var one := [attrs[0]];
      var r := attrs[1..];
      assert attrs == one + r;
      KeptByAppend(0, one, r);
      KeptByAppend(1, KeptBy(0, one), KeptBy(0, r));
      KeptByAppend(2, KeptBy(1, KeptBy(0, one)), KeptBy(1, KeptBy(0, r)));
      KeptByAppend(3, KeptBy(2, KeptBy(1, KeptBy(0, one))), KeptBy(2, KeptBy(1, KeptBy(0, r))));
      PassesKeepSurvivors(r);
    }
  }

  /** On an opening tag other than a `div`, the wrapper and attribute deletions of
      `cleanHtml` remove exactly its `style`, `class` and `data-*` attributes and
      keep every other one, `href` and `id` among them, as written and in order. */
  lemma TagAttributesStripped(name: String, attrs: seq<Attr>)
    requires PlainTagName(name) && forall a :: a in attrs ==> PlainAttr(a)
    ensures StripWrappersAndAttributes(TagText(name, attrs)) == TagText(name, Survivors(attrs))
    ensures forall a :: a in attrs && (NameIs(a.name, "href") || NameIs(a.name, "id")) ==> a in Survivors(attrs)
  {
    TagKeptByDivPasses(name, attrs);
    var k0 := KeptBy(0, attrs);
    var k1 := KeptBy(1, k0);
    var k2 := KeptBy(2, k1);
    TagUnderPass(name, attrs, 0);
    TagUnderPass(name, k0, 1);
    TagUnderPass(name, k1, 2);
    TagUnderPass(name, k2, 3);
    PassesKeepSurvivors(attrs);
  }

  /** The tag `<a class="x" style="y" href="u" id="i">` loses its `class` and
      `style` and keeps its `href` and `id`: it becomes `<a href="u" id="i">`. */
  lemma LinkTagAttributesStripped()
    ensures StripWrappersAndAttributes(TagText("a", [Attr(" ", "class", '"', "x"), Attr(" ", "style", '"', "y"),
                                                     Attr(" ", "href", '"', "u"), Attr(" ", "id", '"', "i")]))
      == TagText("a", [Attr(" ", "href", '"', "u"), Attr(" ", "id", '"', "i")])
  {
    var attrs := [Attr(" ", "class", '"', "x"), Attr(" ", "style", '"', "y"),
                  Attr(" ", "href", '"', "u"), Attr(" ", "id", '"', "i")];
    ExampleDeletedPlain();
    ExampleKeptPlain();
    TagAttributesStripped("a", attrs);
    ExampleSurvivors();
  }

  lemma ExampleSurvivors()
    ensures Survivors([Attr(" ", "class", '"', "x"), Attr(" ", "style", '"', "y"),
                       Attr(" ", "href", '"', "u"), Attr(" ", "id", '"', "i")])
      == [Attr(" ", "href", '"', "u"), Attr(" ", "id", '"', "i")]
  {
  }

  lemma ExampleDeletedPlain()
    ensures PlainAttr(Attr(" ", "class", '"', "x")) && PlainAttr(Attr(" ", "style", '"', "y"))
  {
  }

  lemma ExampleKeptPlain()
    ensures PlainAttr(Attr(" ", "href", '"', "u")) && PlainAttr(Attr(" ", "id", '"', "i"))
  {
  }


  // ---------------------------------------------------------------------------
  // The command's pipeline up to the HTML-to-Markdown library
  // ---------------------------------------------------------------------------

  /** The HTML that reaches the Markdown library for a selection, if any. */
  function HtmlForSelection(sel: Selection): Option<String> {
    match sel
    case UseHtml(h) => Some(h)
    case UseTextAsHtml(h) => Some(h)
    case UseTsv(t) => Some(TsvTable(t))
    case PlainTextOnly => None
    case Empty => None
  }

  /** Spreadsheet-looking HTML first gets header cells, then everything is cleaned. */
  function PrepareHtml(html: String): String {
    CleanHtml(if IsSpreadsheetContent(html) then ConvertFirstRowToHeaders(html) else html)
  }

  /** Only the three convertible outcomes feed the Markdown library. */
  lemma ConvertibleSelections(html: Option<String>, text: Option<String>)
    ensures HtmlForSelection(SelectContent(html, text)).Some? <==>
      Truthy(html) || (Truthy(text) && (LooksLikeHtml(text.value) || IsTsvContent(text.value)))
  {
  }
}
