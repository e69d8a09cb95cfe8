/** The lightweight HTML normaliser of the plain-Markdown command
    (src/convert-to-plain-markdown.tsx): inline styles to semantic tags, colspan
    expansion, the link placeholders, cell and wrapper clean-up, header promotion
    and the media strip that runs before it.  Every `replace` is a `Text.Rewrite`
    with a hand-written matcher for its one regular expression. */
module PlainMarkdown {
  import opened Text

  // ---------------------------------------------------------------------------
  // convertInlineStylesToSemantic
  // ---------------------------------------------------------------------------

  /** `PROP\s*:\s*(V1|V2|...)` at `k`, ignoring ASCII case. */
  predicate PropertyAt(s: String, k: nat, prop: String, values: seq<String>) {
    HasAtCI(s, k, prop)
    && var a := SpaceRunEnd(s, k + |prop|);
       a < |s| && s[a] == ':'
       && var b := SpaceRunEnd(s, a + 1);
          exists n :: 0 <= n < |values| && HasAtCI(s, b, values[n])
  }

  /** `style="` at `p`, its value (up to the next `"`) holding the property, the
      tag closed by a later `>`, and a `</span>` somewhere after that. */
  predicate StyledSpanFrom(s: String, p: nat, prop: String, values: seq<String>) {
    HasAtCI(s, p, "style=\"")
    && var q := FindChar(s, p + 7, '"');
       q < |s|
       && (exists k :: p + 7 <= k < q && PropertyAt(s, k, prop, values))
       && var t := FindChar(s, q + 1, '>');
          t < |s| && FindCI(s, t + 1, "</span>").Some?
  }

  /** Where the opening tag of a styled span closes, given its `style="` at `p`. */
  function StyledTagEnd(s: String, p: nat): (t: nat)
    requires p + 7 <= |s|
    ensures t <= |s|
  {
    var q := FindChar(s, p + 7, '"');
    if q < |s| then FindChar(s, q + 1, '>') else |s|
  }

  /** `^(<br\s*\/?>|\s)*$` (case-insensitive) on `c` from `i`: only line-break tags
      and whitespace remain. */
  predicate BreaksOnlyFrom(c: String, i: nat)
    requires i <= |c|
    decreases |c| - i
  {
    if i == |c| then true
    else if IsSpace(c[i]) then BreaksOnlyFrom(c, i + 1)
    else if HasAtCI(c, i, "<br") then
      var a := SpaceRunEnd(c, i + 3);
      if a < |c| && c[a] == '>' then BreaksOnlyFrom(c, a + 1)
      else if a + 1 < |c| && c[a] == '/' && c[a + 1] == '>' then BreaksOnlyFrom(c, a + 2)
      else false
    else false
  }

  predicate BreaksOnly(c: String) {
    BreaksOnlyFrom(c, 0)
  }

  /** The callback: bare content when it is only breaks and whitespace, otherwise the
      content wrapped once in the semantic element. */
  function WrapStyled(content: String, element: String): String {
    if BreaksOnly(content) then content else "<" + element + ">" + content + "</" + element + ">"
  }

  /** One repetition of `<br\s*\/?>|\s`: a white-space character, or `<br` in any
      case, white space, an optional `/` right before the closing `>`. */
  predicate BreakPiece(p: String) {
    (|p| == 1 && IsSpace(p[0]))
    || (|p| >= 4 && HasAtCI(p, 0, "<br") && p[|p| - 1] == '>'
        && forall k :: 3 <= k < |p| - 1 ==> IsSpace(p[k]) || (k == |p| - 2 && p[k] == '/'))
  }

  function Concat(ps: seq<String>): String {
    if ps == [] then [] else ps[0] + Concat(ps[1..])
  }

  /** The pattern's language: strings that split into break pieces. */
  predicate BreakPieces(ps: seq<String>, c: String) {
    (forall k :: 0 <= k < |ps| ==> BreakPiece(ps[k])) && Concat(ps) == c
  }

  /** The scan from `i` succeeds exactly when the rest splits into break pieces. */
  lemma {:induction false} BreaksOnlyFromSplits(c: String, i: nat) returns (ps: seq<String>)
    requires i <= |c| && BreaksOnlyFrom(c, i)
    ensures BreakPieces(ps, c[i..])
    decreases |c| - i
  {
    if i == |c| {
      ps := [];
    } else if IsSpace(c[i]) {
      var rest := BreaksOnlyFromSplits(c, i + 1);
      ps := [c[i..i + 1]] + rest;
      ConsPiece(c, i, i + 1, rest);
    } else {
      var a := SpaceRunEnd(c, i + 3);
      var n := if a < |c| && c[a] == '>' then a + 1 else a + 2;
      var rest := BreaksOnlyFromSplits(c, n);
      ScannedBreakTag(c, i, n);
      ps := [c[i..n]] + rest;
      ConsPiece(c, i, n, rest);
    }
  }

  lemma ConsPiece(c: String, i: nat, n: nat, rest: seq<String>)
    requires i <= n <= |c| && BreakPiece(c[i..n]) && BreakPieces(rest, c[n..])
    ensures BreakPieces([c[i..n]] + rest, c[i..])
  {
    var ps := [c[i..n]] + rest;
    assert ps[1..] == rest;
    assert c[i..] == c[i..n] + c[n..];
  }

  /** A `<br` tag the scan steps over is one break piece. */
  lemma ScannedBreakTag(c: String, i: nat, n: nat)
    requires i + 3 <= |c| && HasAtCI(c, i, "<br")
    requires var a := SpaceRunEnd(c, i + 3);
      (a < |c| && c[a] == '>' && n == a + 1) || (a + 1 < |c| && c[a] == '/' && c[a + 1] == '>' && n == a + 2)
    ensures n <= |c| && BreakPiece(c[i..n])
  {
    var p := c[i..n];
    HasAtCIInSlice(c, i, p, i, "<br");
    forall k | 3 <= k < |p| - 1 ensures IsSpace(p[k]) || (k == |p| - 2 && p[k] == '/') {
      assert p[k] == c[i + k];
    }
  }

  lemma {:induction false} SplitsBreaksOnlyFrom(c: String, i: nat, ps: seq<String>)
    requires i <= |c| && BreakPieces(ps, c[i..])
    ensures BreaksOnlyFrom(c, i)
    decreases |ps|
  {
    if ps != [] {
      var p := ps[0];
      var n := i + |p|;
      assert c[i..] == p + Concat(ps[1..]);
      assert c[i..n] == p && c[n..] == Concat(ps[1..]) by {
        assert c[i..][..|p|] == p;
        assert c[i..][|p|..] == Concat(ps[1..]);
      }
      SplitsBreaksOnlyFrom(c, n, ps[1..]);
      if |p| == 1 && IsSpace(p[0]) {
        assert c[i] == p[0];
      } else {
        PieceIsScannedTag(c, i, p);
      }
    }
  }

  /** A `<br` piece at `i` is a tag the scan steps over, to the piece's end. */
  lemma PieceIsScannedTag(c: String, i: nat, p: String)
    requires i + |p| <= |c| && c[i..i + |p|] == p
    requires BreakPiece(p) && !(|p| == 1 && IsSpace(p[0]))
    ensures HasAtCI(c, i, "<br") && !IsSpace(c[i])
    ensures var a := SpaceRunEnd(c, i + 3);
      (a < |c| && c[a] == '>' && a + 1 == i + |p|)
      || (a + 1 < |c| && c[a] == '/' && c[a + 1] == '>' && a + 2 == i + |p|)
  {
    var n := i + |p|;
    assert Lower(p[0]) == Lower("<br"[0]);
    assert c[i] == p[0];
    HasAtCIInSlice(c, i, p, i, "<br");
    var m := if p[|p| - 2] == '/' then n - 2 else n - 1;
    assert Lower(p[2]) == Lower("<br"[2]);
    assert i + 3 <= m;
    forall j | i + 3 <= j < m ensures IsSpace(c[j]) {
      assert c[j] == p[j - i];
      assert j - i < |p| - 2 || p[|p| - 2] != '/';
    }
    assert c[m] == p[m - i] && !IsSpace(c[m]);
    assert SpaceRunEnd(c, i + 3) == m;
    assert c[n - 1] == p[|p| - 1];
  }

  /** `^(<br\s*\/?>|\s)*$` read declaratively: the scan accepts exactly the
      strings made of break pieces. */
  lemma BreaksOnlyIff(c: String)
    ensures BreaksOnly(c) <==> exists ps :: BreakPieces(ps, c)
  {
    if BreaksOnly(c) {
      var ps := BreaksOnlyFromSplits(c, 0);
      assert c[0..] == c;
    }
    if ps :| BreakPieces(ps, c) {
      assert c[0..] == c;
      SplitsBreaksOnlyFrom(c, 0, ps);
    }
  }

  /** The callback leaves its content unchanged exactly when the content is made
      of break pieces; any other content gains the element around it. */
  lemma WrapStyledBareIff(c: String, element: String)
    ensures WrapStyled(c, element) == c <==> exists ps :: BreakPieces(ps, c)
  {
    BreaksOnlyIff(c);
    if !BreaksOnly(c) {
      assert |WrapStyled(c, element)| > |c|;
    }
  }

  function StyleCandidate(s: String, prop: String, values: seq<String>): nat -> bool {
    (p: nat) => StyledSpanFrom(s, p, prop, values)
  }

  /** `<span([^>]*style="[^"]*PROP\s*:\s*(VALUES)[^"]*"[^>]*)>(.*?)<\/span>` (flags
      `gis`) at `i`: the greedy `[^>]*` tries the last `style="` before the first `>`
      first. */
  function StyledSpanHit(s: String, i: nat, prop: String, values: seq<String>, element: String): (h: Option<Hit>)
    ensures h.Some? ==> i < h.value.end <= |s|
  {
    if !HasAtCI(s, i, "<span") then None
    else
      var g := FindChar(s, i + 5, '>');
      match LastMatch(i + 5, g, StyleCandidate(s, prop, values))
      case None => None
      case Some(p) => StyledClose(s, StyledTagEnd(s, p), element)
  }

  /** The lazy `(.*?)<\/span>` after the opening tag's `>` at `t`. */
  function StyledClose(s: String, t: nat, element: String): (h: Option<Hit>)
    requires t <= |s|
    ensures h.Some? ==> t < h.value.end <= |s|
  {
    if t == |s| then None
    else
      match FindCI(s, t + 1, "</span>")
      case None => None
      case Some(c) => Some(Hit(c + 7, WrapStyled(s[t + 1..c], element)))
  }

  const BoldWeights: seq<String> := ["700", "bold", "600"]

  function BoldSpanHit(s: String, i: nat): Option<Hit> {
    StyledSpanHit(s, i, "font-weight", BoldWeights, "strong")
  }

  function ItalicSpanHit(s: String, i: nat): Option<Hit> {
    StyledSpanHit(s, i, "font-style", ["italic"], "em")
  }

  /** `<NAME(\s|>)` at `i`: the one character after the name, or none. */
  function NameThenSpaceOrClose(s: String, i: nat, name: String): (c: Option<char>)
    ensures c.Some? ==> IsSpace(c.value) || c.value == '>'
  {
    if HasAtCI(s, i, "<" + name) && i + 1 + |name| < |s| && (IsSpace(s[i + 1 + |name|]) || s[i + 1 + |name|] == '>')
    then Some(s[i + 1 + |name|]) else None
  }

  /** `replace(/<b(\s|>)/gi, "<strong$1>")` as written: the replacement adds a `>`
      after the captured character, so `<b>` becomes `<strong>>`. */
  function RenameOpenAsWritten(name: String, element: String): Matcher {
    (s: String, i: nat) =>
      match NameThenSpaceOrClose(s, i, name)
      case None => None
      case Some(c) => Some(Hit(i + 2 + |name|, "<" + element + [c] + ">"))
  }

  /** The evidently intended renaming: `<b>` to `<strong>`, `<b attrs>` to
      `<strong attrs>`. */
  function RenameOpen(name: String, element: String): Matcher {
    (s: String, i: nat) =>
      match NameThenSpaceOrClose(s, i, name)
      case None => None
      case Some(c) => Some(Hit(i + 2 + |name|, "<" + element + [c]))
  }

  function ConvertInlineStylesAsWritten(html: String): String {
    var bold := ReplaceAll(html, BoldSpanHit);
    var italic := ReplaceAll(bold, ItalicSpanHit);
    var b := ReplaceAll(ReplaceAll(italic, RenameOpenAsWritten("b", "strong")), ReplaceCI("</b>", "</strong>"));
    ReplaceAll(ReplaceAll(b, RenameOpenAsWritten("i", "em")), ReplaceCI("</i>", "</em>"))
  }

  /** `convertInlineStylesToSemantic` with the tag renaming corrected. */
  function ConvertInlineStyles(html: String): String {
    var bold := ReplaceAll(html, BoldSpanHit);
    var italic := ReplaceAll(bold, ItalicSpanHit);
    var b := ReplaceAll(ReplaceAll(italic, RenameOpen("b", "strong")), ReplaceCI("</b>", "</strong>"));
    ReplaceAll(ReplaceAll(b, RenameOpen("i", "em")), ReplaceCI("</i>", "</em>"))
  }

  // Properties of the inline-style conversion

  const BoldSpanOpen: String := "<span style=\"font-weight:bold\">"

  /** That opening tag closes at index 30, its attribute value at 29. */
  lemma BoldSpanBounds(s: String)
    requires |s| >= 31 && s[..31] == BoldSpanOpen
    ensures FindChar(s, 5, '>') == 30 && FindChar(s, 13, '"') == 29 && FindChar(s, 30, '>') == 30
    ensures StyledTagEnd(s, 6) == 30
  {
    BoldSpanOpenStops();
    assert s[30] == s[..31][30] && s[29] == s[..31][29];
    forall k | 5 <= k < 30 ensures s[k] != '>' {
      assert s[k] == s[..31][k];
    }
    forall k | 13 <= k < 29 ensures s[k] != '"' {
      assert s[k] == s[..31][k];
    }
    FindCharAt(s, 5, 30, '>');
    FindCharAt(s, 13, 29, '"');
    FindCharAt(s, 30, 30, '>');
  }

  /** Where `>` and `"` occur in the opening tag. */
  lemma BoldSpanOpenStops()
    ensures BoldSpanOpen[30] == '>' && BoldSpanOpen[29] == '"'
    ensures forall k :: 5 <= k < 30 ==> BoldSpanOpen[k] != '>'
    ensures forall k :: 13 <= k < 29 ==> BoldSpanOpen[k] != '"'
  {
  }

  /** Its one `style="` sits at 6. */
  lemma BoldSpanStyle(s: String)
    requires |s| >= 31 && s[..31] == BoldSpanOpen
    ensures HasAtCI(s, 0, "<span") && HasAtCI(s, 6, "style=\"")
    ensures forall p :: 6 < p < 30 ==> !HasAtCI(s, p, "style=\"")
  {
    BoldSpanTags(s);
    BoldSpanNoLaterStyle(s);
  }

  lemma BoldSpanTags(s: String)
    requires |s| >= 31 && s[..31] == BoldSpanOpen
    ensures HasAtCI(s, 0, "<span") && HasAtCI(s, 6, "style=\"")
  {
    assert BoldSpanOpen[0..5] == "<span";
    HasAtPrefix(s, BoldSpanOpen, 0, "<span");
    assert BoldSpanOpen[6..13] == "style=\"" by {
      forall k | 0 <= k < 7 ensures BoldSpanOpen[6..13][k] == "style=\""[k] {
        assert BoldSpanOpen[6..13][k] == BoldSpanOpen[6 + k];
      }
    }
    HasAtPrefix(s, BoldSpanOpen, 6, "style=\"");
  }

  lemma BoldSpanNoLaterStyle(s: String)
    requires |s| >= 31 && s[..31] == BoldSpanOpen
    ensures forall p :: 6 < p < 30 ==> !HasAtCI(s, p, "style=\"")
  {
    BoldSpanOpenNoS();
    forall p | 6 < p < 30 ensures !HasAtCI(s, p, "style=\"") {
      assert s[p] == s[..31][p];
      assert Lower(s[p + 0]) != Lower("style=\""[0]);
    }
  }

  /** No `s` of either case after index 6 of the opening tag. */
  lemma BoldSpanOpenNoS()
    ensures forall k :: 6 < k < 30 ==> Lower(BoldSpanOpen[k]) != 's'
  {
  }

  /** The style value names a bold weight at 13. */
  lemma BoldSpanWeight(s: String)
    requires |s| >= 31 && s[..31] == BoldSpanOpen
    ensures PropertyAt(s, 13, "font-weight", BoldWeights)
  {
    assert BoldSpanOpen[13..24] == "font-weight" by {
      forall k | 0 <= k < 11 ensures BoldSpanOpen[13..24][k] == "font-weight"[k] {
        assert BoldSpanOpen[13..24][k] == BoldSpanOpen[13 + k];
      }
    }
    HasAtPrefix(s, BoldSpanOpen, 13, "font-weight");
    assert BoldSpanOpen[25..29] == BoldWeights[1] by {
      forall k | 0 <= k < 4 ensures BoldSpanOpen[25..29][k] == BoldWeights[1][k] {
        assert BoldSpanOpen[25..29][k] == BoldSpanOpen[25 + k];
      }
    }
    HasAtPrefix(s, BoldSpanOpen, 25, BoldWeights[1]);
    assert s[24] == BoldSpanOpen[24] && s[25] == BoldSpanOpen[25] by {
      assert s[..31][24] == s[24] && s[..31][25] == s[25];
    }
    assert SpaceRunEnd(s, 24) == 24;
    assert SpaceRunEnd(s, 25) == 25;
  }

  /** A span opened by `<span style="font-weight:bold">` and closed by the first
      `</span>` after its content is replaced by the wrapped content. */
  lemma BoldSpanWraps(c: String, rest: String)
    requires NoEarlyCI(c, "</span>")
    ensures BoldSpanHit(BoldSpanOpen + (c + "</span>" + rest), 0) == Some(Hit(38 + |c|, WrapStyled(c, "strong")))
  {
    var s := BoldSpanOpen + (c + "</span>" + rest);
    BoldSpanPieces(c, rest);
    BoldSpanChoice(s);
    StyledSpanResult(s, 0, "font-weight", BoldWeights, "strong", 6);
    StyledCloseAt(s, 30, "strong", 31 + |c|, c);
  }

  /** The pieces of a bold span: its opening tag, then the content up to the first
      `</span>`. */
  lemma BoldSpanPieces(c: String, rest: String)
    requires NoEarlyCI(c, "</span>")
    ensures var s := BoldSpanOpen + (c + "</span>" + rest);
      |s| >= 31 && s[..31] == BoldSpanOpen && FindCI(s, 31, "</span>") == Some(31 + |c|) && s[31..31 + |c|] == c
  {
    var tail := c + "</span>" + rest;
    var s := BoldSpanOpen + tail;
    SliceOfLeft(BoldSpanOpen, tail, 0, 31);
    SliceOfRight(BoldSpanOpen, tail);
    BodyPieces(s, 31, c, "</span>", rest);
  }

  /** The greedy `[^>]*` settles on the `style="` at 6, the tag closing at 30. */
  lemma BoldSpanChoice(s: String)
    requires |s| >= 31 && s[..31] == BoldSpanOpen && FindCI(s, 31, "</span>").Some?
    ensures HasAtCI(s, 0, "<span") && FindChar(s, 5, '>') == 30 && StyledTagEnd(s, 6) == 30
    ensures LastMatch(5, 30, StyleCandidate(s, "font-weight", BoldWeights)) == Some(6)
  {
    BoldSpanBounds(s);
    BoldSpanStyle(s);
    BoldSpanWeight(s);
    var ok := StyleCandidate(s, "font-weight", BoldWeights);
    assert ok(6);
    LastMatchIs(5, 30, ok, 6);
  }

  /** Reading off a styled-span match from where its parts are. */
  lemma StyledSpanResult(s: String, i: nat, prop: String, values: seq<String>, element: String, p: nat)
    requires HasAtCI(s, i, "<span") && LastMatch(i + 5, FindChar(s, i + 5, '>'), StyleCandidate(s, prop, values)) == Some(p)
    requires p + 7 <= |s|
    ensures StyledSpanHit(s, i, prop, values, element) == StyledClose(s, StyledTagEnd(s, p), element)
  {
  }

  lemma StyledCloseAt(s: String, t: nat, element: String, c: nat, content: String)
    requires t < |s| && FindCI(s, t + 1, "</span>") == Some(c) && content == s[t + 1..c]
    ensures StyledClose(s, t, element) == Some(Hit(c + 7, WrapStyled(content, element)))
  {
  }

  /** Content made only of line breaks and whitespace is left bare. */
  lemma BreakContentIsBare()
    ensures WrapStyled("<br>", "strong") == "<br>"
    ensures WrapStyled(" <BR /> ", "em") == " <BR /> "
    ensures WrapStyled("x", "strong") == "<strong>x</strong>"
  {
    BreakTagBare();
    SpacedBreakBare();
    assert !BreaksOnly("x");
  }

  lemma BreakTagBare()
    ensures BreaksOnly("<br>")
  {
    var b := "<br>";
    assert HasAtCI(b, 0, "<br") && SpaceRunEnd(b, 3) == 3;
    assert BreaksOnlyFrom(b, 4);
  }

  lemma SpacedBreakBare()
    ensures BreaksOnly(" <BR /> ")
  {
    var u := " <BR /> ";
    assert HasAtCI(u, 1, "<br") && SpaceRunEnd(u, 4) == 5;
    assert BreaksOnlyFrom(u, 7);
    assert BreaksOnlyFrom(u, 1);
  }

  /** Where `<NAME` is followed by whitespace or `>`, both renamings match the
      name and that one character; only the one as written appends a `>`. */
  lemma RenameAt(s: String, i: nat, name: String, element: String)
    requires HasAtCI(s, i, "<" + name) && i + 1 + |name| < |s|
    requires IsSpace(s[i + 1 + |name|]) || s[i + 1 + |name|] == '>'
    ensures RenameOpen(name, element)(s, i) == Some(Hit(i + 2 + |name|, "<" + element + [s[i + 1 + |name|]]))
    ensures RenameOpenAsWritten(name, element)(s, i) == Some(Hit(i + 2 + |name|, "<" + element + [s[i + 1 + |name|]] + ">"))
  {
    assert NameThenSpaceOrClose(s, i, name) == Some(s[i + 1 + |name|]);
  }

  /** As written, `<b>` is renamed to `<strong>>`: the captured `>` is followed by
      the replacement's own `>`; corrected, it is `<strong>`. */
  lemma RenameAddsBracket()
    ensures ReplaceAll("<b>", RenameOpenAsWritten("b", "strong")) == "<strong" + ">" + ">"
    ensures ReplaceAll("<b>", RenameOpen("b", "strong")) == "<strong" + ">"
  {
    var s := "<b>";
    assert Lower(s[0]) == Lower(("<" + "b")[0]) && Lower(s[1]) == Lower(("<" + "b")[1]);
    RenameAt(s, 0, "b", "strong");
  }

  /** As written, `<i class=x>` becomes `<em >class=x>`: the attributes end up
      outside the tag. */
  lemma RenameSplitsAttributes(rest: String)
    ensures ReplaceAll("<i " + rest, RenameOpenAsWritten("i", "em")) == "<em" + " " + ">" + Rewrite("<i " + rest, 3, RenameOpenAsWritten("i", "em"))
  {
    ItalicOpenAt(rest);
    RenameAt("<i " + rest, 0, "i", "em");
  }

  /** Corrected, `<i class=x>` becomes `<em class=x>`. */
  lemma RenameKeepsAttributes(rest: String)
    ensures ReplaceAll("<i " + rest, RenameOpen("i", "em")) == "<em" + " " + Rewrite("<i " + rest, 3, RenameOpen("i", "em"))
  {
    ItalicOpenAt(rest);
    RenameAt("<i " + rest, 0, "i", "em");
  }

  lemma ItalicOpenAt(rest: String)
    ensures var s := "<i " + rest; HasAtCI(s, 0, "<" + "i") && s[2] == ' '
  {
    var s := "<i " + rest;
    assert s[0] == '<' && s[1] == 'i' && s[2] == ' ';
    assert Lower(s[0]) == Lower(("<" + "i")[0]) && Lower(s[1]) == Lower(("<" + "i")[1]);
  }

  /** Where no `<NAME` is followed by whitespace or `>` (it ends the text, or goes
      on with any other character, as in `<br>`, `<body>`, `<img>`, `<b/>` or
      `<i-x>`), both renamings leave the text unchanged. */
  lemma {:induction false} RenameSparesLongerNames(s: String, name: String, element: String)
    requires forall i :: 0 <= i < |s| && HasAtCI(s, i, "<" + name) ==>
      i + 1 + |name| >= |s| || !(IsSpace(s[i + 1 + |name|]) || s[i + 1 + |name|] == '>')
    ensures ReplaceAll(s, RenameOpen(name, element)) == s
    ensures ReplaceAll(s, RenameOpenAsWritten(name, element)) == s
  {
    forall i | 0 <= i < |s| ensures NameThenSpaceOrClose(s, i, name).None? {
    }
    RewriteNoHit(s, 0, RenameOpen(name, element));
    RewriteNoHit(s, 0, RenameOpenAsWritten(name, element));
  }

  // ---------------------------------------------------------------------------
  // expandColspanRowspan
  // ---------------------------------------------------------------------------

  predicate IsQuote(c: char) { c == '"' || c == '\'' }

  /** `colspan=["'](\d+)["']` at `p`, ending before the tag's `>` at `g`. */
  predicate ColspanAt(s: String, p: nat, g: nat)
    requires g <= |s|
  {
    HasAtCI(s, p, "colspan=") && p + 8 < g && IsQuote(s[p + 8])
    && var e := DigitRunEnd(s, p + 9);
       p + 9 < e < g && IsQuote(s[e])
  }

  function ColspanCandidate(s: String, g: nat): nat -> bool
    requires g <= |s|
  {
    (p: nat) => ColspanAt(s, p, g)
  }

  /** `/<(strong|b|h\d)/` (case-sensitive) at `j`; `<b` also matches `<br` and
      `<body`. */
  predicate HeaderTagAt(c: String, j: nat) {
    HasAt(c, j, "<strong") || HasAt(c, j, "<b") || (HasAt(c, j, "<h") && j + 2 < |c| && IsDigit(c[j + 2]))
  }

  /** The callback's `looksLikeHeader`. */
  predicate LooksLikeHeader(content: String) {
    (exists j :: 0 <= j < |content| && HeaderTagAt(content, j)) && |content| > 30
  }

  /** One attribute-free cell `<NAME>content</NAME>`. */
  function Cell(name: String, content: String): (r: String) {
    "<" + name + ">" + content + "</" + name + ">"
  }

  /** `n` copies of `cell` side by side. */
  function Copies(cell: String, n: nat): (r: String)
    ensures |r| == n * |cell|
  {
    if n == 0 then [] else cell + Copies(cell, n - 1)
  }

  /** What the callback returns for a cell named `name` spanning `count` columns. */
  function ColspanCells(name: String, content: String, count: nat): String {
    if LooksLikeHeader(content) || count >= 4 then Cell(name, content)
    else Copies(Cell(name, content), count)
  }

  /** The column count a `colspan=` at `p` carries: `parseInt` of its digits. */
  function ColspanCount(s: String, p: nat): nat
    requires p + 9 <= |s|
  {
    var e := DigitRunEnd(s, p + 9);
    DecimalValue(s[p + 9..e])
  }

  /** `<(td|th)([^>]*colspan=["'](\d+)["'][^>]*)>(.*?)<\/\1>` (flags `gis`) at `i`:
      the greedy `[^>]*` takes the last `colspan=` before the first `>`, and the
      closing tag repeats the captured name, ignoring case. */
  function ColspanHit(s: String, i: nat): (h: Option<Hit>)
    ensures h.Some? ==> i < h.value.end <= |s|
  {
    if !(HasAtCI(s, i, "<td") || HasAtCI(s, i, "<th")) then None
    else
      var g := FindChar(s, i + 3, '>');
      if g == |s| then None
      else
        match LastMatch(i + 3, g, ColspanCandidate(s, g))
        case None => None
        case Some(p) => ColspanClose(s, i, g, ColspanCount(s, p))
  }

  /** The lazy `(.*?)<\/\1>` after the opening tag's `>` at `g`. */
  function ColspanClose(s: String, i: nat, g: nat, count: nat): (h: Option<Hit>)
    requires i + 3 <= g < |s|
    ensures h.Some? ==> i < h.value.end <= |s|
  {
    var name := s[i + 1..i + 3];
    match FindCI(s, g + 1, "</" + name + ">")
    case None => None
    case Some(c) => Some(Hit(c + 5, ColspanCells(name, s[g + 1..c], count)))
  }

  /** `expandColspanRowspan`. */
  function ExpandColspan(html: String): String {
    ReplaceAll(html, ColspanHit)
  }

  /** The callback's loop: `count` pushes of the same cell, then `join("")`. */
  method DuplicateCell(name: String, content: String, count: nat) returns (r: String)
    ensures r == ColspanCells(name, content, count)
  {
    var cell := "<" + name + ">" + content + "</" + name + ">";
    if LooksLikeHeader(content) || count >= 4 {
      return cell;
    }
    var cells: seq<String> := [];
    for i := 0 to count
      invariant |cells| == i
      invariant forall k :: 0 <= k < i ==> cells[k] == cell
    {
      cells := cells + [cell];
    }
    JoinCopies(cells, cell);
    r := Join(cells, "");
  }

  /** Joining equal pieces with no separator gives that many copies. */
  lemma {:induction false} JoinCopies(parts: seq<String>, cell: String)
    requires forall k :: 0 <= k < |parts| ==> parts[k] == cell
    ensures Join(parts, "") == Copies(cell, |parts|)
  {
    if |parts| == 1 {
      assert Copies(cell, 1) == cell + [];
    } else if |parts| > 1 {
      JoinCopies(parts[1..], cell);
      assert parts[0] + "" == parts[0];
    }
  }

  /** The `k`-th block of `Copies(cell, n)` is `cell`. */
  lemma CopiesBlock(cell: String, n: nat, k: nat)
    requires k < n
    ensures (k + 1) * |cell| <= |Copies(cell, n)|
    ensures Copies(cell, n)[k * |cell|..(k + 1) * |cell|] == cell
  {
    CopiesAt(cell, n, k);
    OffsetIsProduct(k, |cell|);
    OffsetIsProduct(k + 1, |cell|);
  }

  /** Where the `k`-th of equal blocks of width `w` starts, without multiplication. */
  function Offset(k: nat, w: nat): nat {
    if k == 0 then 0 else w + Offset(k - 1, w)
  }

  lemma {:induction false} OffsetIsProduct(k: nat, w: nat)
    ensures Offset(k, w) == k * w
  {
    if k > 0 {
      OffsetIsProduct(k - 1, w);
      MulStep(k - 1, w);
    }
  }

  lemma {:induction false} CopiesAt(cell: String, n: nat, k: nat)
    requires k < n
    ensures Offset(k + 1, |cell|) <= |Copies(cell, n)|
    ensures Copies(cell, n)[Offset(k, |cell|)..Offset(k + 1, |cell|)] == cell
  {
    var w := |cell|;
    var tail := Copies(cell, n - 1);
    assert Copies(cell, n) == cell + tail;
    if k == 0 {
      SliceOfLeft(cell, tail, 0, w);
    } else {
      CopiesAt(cell, n - 1, k - 1);
      SliceOfShifted(cell, tail, Offset(k - 1, w), Offset(k, w));
    }
  }

  lemma MulStep(a: nat, w: nat)
    ensures (a + 1) * w == w + a * w
  {
  }

  /** The duplicate / single-cell rule: below four columns and without a header
      look, exactly `count` attribute-free copies (none for `colspan="0"`);
      otherwise exactly one. */
  lemma ColspanCellsShape(name: String, content: String, count: nat)
    ensures var r := ColspanCells(name, content, count);
      var cell := Cell(name, content);
      (LooksLikeHeader(content) || count >= 4 ==> r == cell)
      && (!LooksLikeHeader(content) && count < 4 ==>
            |r| == count * |cell| && (count == 0 ==> r == [])
            && forall k :: 0 <= k < count ==> r[k * |cell|..(k + 1) * |cell|] == cell)
  {
    var cell := Cell(name, content);
    if !(LooksLikeHeader(content) || count >= 4) {
      forall k | 0 <= k < count ensures Copies(cell, count)[k * |cell|..(k + 1) * |cell|] == cell {
        CopiesBlock(cell, count, k);
      }
    }
  }

  /** `<b` matches the start of `<br`: a long cell holding a line break counts as a
      section header and is not duplicated. */
  lemma LineBreakLooksLikeHeader(content: String, j: nat)
    requires j + 3 <= |content| && content[j..j + 3] == "<br" && |content| > 30
    ensures LooksLikeHeader(content)
  {
    assert content[j..j + 2] == content[j..j + 3][..2];
    assert HeaderTagAt(content, j);
  }

  /** The opening tag `<td colspan="D">` for one digit `D`. */
  function ColspanOpen(d: char): (r: String)
    ensures |r| == 16
  {
    "<td colspan=\"" + [d] + "\">"
  }

  lemma ColspanOpenChars(s: String, d: char)
    requires |s| >= 16 && s[..16] == ColspanOpen(d)
    ensures forall k :: 0 <= k < 16 ==> s[k] == ColspanOpen(d)[k]
    ensures s[13] == d && s[14] == '"' && s[15] == '>'
  {
    forall k | 0 <= k < 16 ensures s[k] == ColspanOpen(d)[k] {
      assert s[..16][k] == s[k];
    }
  }

  /** The tag closes at 15, its name is `td` and its count is `D`. */
  lemma ColspanOpenBounds(s: String, d: char)
    requires IsDigit(d) && |s| >= 16 && s[..16] == ColspanOpen(d)
    ensures HasAtCI(s, 0, "<td") && FindChar(s, 3, '>') == 15
    ensures s[1..3] == "td" && "</" + s[1..3] + ">" == "</td>" && ColspanCount(s, 4) == DigitValue(d)
  {
    ColspanOpenChars(s, d);
    assert FindChar(s, 14, '>') == 15;
    assert FindChar(s, 13, '>') == 15;
    assert FindChar(s, 12, '>') == 15;
    assert FindChar(s, 11, '>') == 15;
    assert FindChar(s, 10, '>') == 15;
    assert FindChar(s, 9, '>') == 15;
    assert FindChar(s, 8, '>') == 15;
    assert FindChar(s, 7, '>') == 15;
    assert FindChar(s, 6, '>') == 15;
    assert FindChar(s, 5, '>') == 15;
    assert FindChar(s, 4, '>') == 15;
    assert FindChar(s, 3, '>') == 15;
    assert DigitRunEnd(s, 14) == 14;
    assert s[13..14] == [d];
    assert DecimalValue([d]) == DigitValue(d) by {
      assert [d][..0] == [];
    }
    assert s[1..3] == "td";
  }

  /** Its one `colspan=` sits at 4, so that is where the greedy `[^>]*` stops. */
  lemma ColspanOpenChoice(s: String, d: char)
    requires IsDigit(d) && |s| >= 16 && s[..16] == ColspanOpen(d)
    ensures LastMatch(3, 15, ColspanCandidate(s, 15)) == Some(4)
  {
    ColspanOpenChars(s, d);
    assert DigitRunEnd(s, 14) == 14;
    assert HasAtCI(s, 4, "colspan=");
    assert Lower(s[5]) != 'c';
    assert Lower(s[6]) != 'c';
    assert Lower(s[7]) != 'c';
    assert Lower(s[8]) != 'c';
    assert Lower(s[9]) != 'c';
    assert Lower(s[10]) != 'c';
    assert Lower(s[11]) != 'c';
    assert Lower(s[12]) != 'c';
    assert Lower(s[13]) != 'c';
    assert Lower(s[14]) != 'c';
    var ok := ColspanCandidate(s, 15);
    assert ok(4);
    forall p | 4 < p < 15 ensures !ok(p) {
      assert Lower(s[p + 0]) != Lower("colspan="[0]);
    }
    LastMatchIs(3, 15, ok, 4);
  }

  /** Inside a cell opened by `<td colspan="D">`, the content runs to the first `</td>`. */
  lemma ColspanPieces(d: char, c: String, rest: String)
    requires NoEarlyCI(c, "</td>")
    ensures var s := ColspanOpen(d) + (c + "</td>" + rest);
      s[..16] == ColspanOpen(d) && FindCI(s, 16, "</td>") == Some(16 + |c|) && s[16..16 + |c|] == c
  {
    var tail := c + "</td>" + rest;
    var s := ColspanOpen(d) + tail;
    SliceOfLeft(ColspanOpen(d), tail, 0, 16);
    SliceOfRight(ColspanOpen(d), tail);
    BodyPieces(s, 16, c, "</td>", rest);
  }

  /** Reading off a colspan match from where its parts are. */
  lemma ColspanResult(s: String, g: nat, p: nat, c: nat, name: String, content: String, count: nat)
    requires (HasAtCI(s, 0, "<td") || HasAtCI(s, 0, "<th")) && FindChar(s, 3, '>') == g && g < |s|
    requires LastMatch(3, g, ColspanCandidate(s, g)) == Some(p) && p + 9 <= |s|
    requires name == s[1..3] && FindCI(s, g + 1, "</" + name + ">") == Some(c)
    requires content == s[g + 1..c] && count == ColspanCount(s, p)
    ensures ColspanHit(s, 0).Some? && ColspanHit(s, 0).value.end == c + 5
    ensures ColspanHit(s, 0).value.out == ColspanCells(name, content, count)
  {
    assert ColspanHit(s, 0) == ColspanClose(s, 0, g, count);
  }

  /** `<td colspan="D">content</td>` is replaced by what the colspan rule makes of
      `content` and the column count `D`. */
  lemma ColspanCellExpands(d: char, c: String, rest: String)
    requires IsDigit(d) && NoEarlyCI(c, "</td>")
    ensures var h := ColspanHit(ColspanOpen(d) + (c + "</td>" + rest), 0);
      h.Some? && h.value.end == 21 + |c| && h.value.out == ColspanCells("td", c, DigitValue(d))
  {
    var s := ColspanOpen(d) + (c + "</td>" + rest);
    ColspanPieces(d, c, rest);
    ColspanOpenBounds(s, d);
    ColspanOpenChoice(s, d);
    ColspanResult(s, 15, 4, 16 + |c|, "td", c, DigitValue(d));
  }

  // ---------------------------------------------------------------------------
  // The link-placeholder protocol
  // ---------------------------------------------------------------------------

  /** The end of the run of `[^"']` characters starting at `i`. */
  function NonQuoteRunEnd(s: String, i: nat): (e: nat)
    requires i <= |s|
    ensures i <= e <= |s|
    ensures forall j :: i <= j < e ==> !IsQuote(s[j])
    ensures e < |s| ==> IsQuote(s[e])
    decreases |s| - i
  {
    if i < |s| && !IsQuote(s[i]) then NonQuoteRunEnd(s, i + 1) else i
  }

  /** `href=["']([^"']+)["'][^>]*>` from `p` on: a non-empty quoted value and a `>`
      somewhere after it (the value itself may hold `>`). */
  predicate HrefAt(s: String, p: nat) {
    HasAtCI(s, p, "href=") && p + 5 < |s| && IsQuote(s[p + 5])
    && var e := NonQuoteRunEnd(s, p + 6);
       p + 6 < e < |s| && FindChar(s, e + 1, '>') < |s|
  }

  function HrefCandidate(s: String): nat -> bool {
    (p: nat) => HrefAt(s, p)
  }

  datatype LinkMatch = LinkMatch(end: nat, href: String)

  /** `<a\s`: the tag name and the white space after it. */
  predicate LinkOpen(s: String, i: nat) {
    HasAtCI(s, i, "<a") && i + 2 < |s| && IsSpace(s[i + 2])
  }

  /** `<a\s+[^>]*href=["']([^"']+)["'][^>]*>` (flags `gi`) at `i`: the greedy
      `[^>]*` takes the last `href=` before the tag's first `>`. */
  function LinkAt(s: String, i: nat): (r: Option<LinkMatch>)
    ensures r.Some? ==> i < r.value.end <= |s|
  {
    if !LinkOpen(s, i) then None
    else
      match LastMatch(i + 3, FindChar(s, i + 2, '>'), HrefCandidate(s))
      case None => None
      case Some(p) => Some(HrefMatch(s, p))
  }

  /** The match once the `href=` at `p` is chosen: the quoted value, and the end
      just after the next `>`. */
  function HrefMatch(s: String, p: nat): (m: LinkMatch)
    requires HrefAt(s, p)
    ensures p < m.end <= |s|
  {
    var e := NonQuoteRunEnd(s, p + 6);
    LinkMatch(FindChar(s, e + 1, '>') + 1, s[p + 6..e])
  }

  /** `___LINK_k___`. */
  function Marker(k: nat): (m: String)
    ensures |m| == 11 + |NatToString(k)|
  {
    "___LINK_" + NatToString(k) + "___"
  }

  datatype Placeholder = Placeholder(marker: String, href: String)

  /** The html with links replaced by placeholders, and the recorded pairs. */
  datatype Protected = Protected(text: String, links: seq<Placeholder>)

  /** The placeholder replace from index `i` on, the counter standing at `k`. */
  function ProtectFrom(s: String, i: nat, k: nat): Protected
    decreases |s| - i
  {
    if i >= |s| then Protected([], [])
    else
      match LinkAt(s, i)
      case Some(m) =>
        var r := ProtectFrom(s, m.end, k + 1);
        Protected("<a>" + Marker(k) + r.text, [Placeholder(Marker(k), m.href)] + r.links)
      case None =>
        var r := ProtectFrom(s, i + 1, k);
        Protected([s[i]] + r.text, r.links)
  }

  /** The replace with its callback: each link found pushes a pair and bumps the
      counter. */
  method ProtectLinks(html: String) returns (cleaned: String, linkPlaceholders: seq<Placeholder>)
    ensures Protected(cleaned, linkPlaceholders) == ProtectFrom(html, 0, 0)
  {
    cleaned := [];
    linkPlaceholders := [];
    var linkCounter := 0;
    var i := 0;
    while i < |html|
      invariant linkCounter == |linkPlaceholders|
      invariant cleaned + ProtectFrom(html, i, linkCounter).text == ProtectFrom(html, 0, 0).text
      invariant linkPlaceholders + ProtectFrom(html, i, linkCounter).links == ProtectFrom(html, 0, 0).links
      decreases |html| - i
    {
      match LinkAt(html, i)
      case Some(m) =>
        var marker := Marker(linkCounter);
        var next := ProtectFrom(html, m.end, linkCounter + 1);
        ProtectLinkStep(html, i, linkCounter, m);
        Assoc(cleaned, "<a>" + marker, next.text);
        assert linkPlaceholders + ([Placeholder(marker, m.href)] + next.links)
          == (linkPlaceholders + [Placeholder(marker, m.href)]) + next.links;
        linkPlaceholders := linkPlaceholders + [Placeholder(marker, m.href)];
        linkCounter := linkCounter + 1;
        cleaned := cleaned + ("<a>" + marker);
        i := m.end;
      case None =>
        var next := ProtectFrom(html, i + 1, linkCounter);
        ProtectCharStep(html, i, linkCounter);
        Assoc(cleaned, [html[i]], next.text);
        cleaned := cleaned + [html[i]];
        i := i + 1;
    }
  }

  /** One link found at `i`: its placeholder tag, then the rest. */
  lemma ProtectLinkStep(s: String, i: nat, k: nat, m: LinkMatch)
    requires i < |s| && LinkAt(s, i) == Some(m)
    ensures ProtectFrom(s, i, k).text == "<a>" + Marker(k) + ProtectFrom(s, m.end, k + 1).text
    ensures ProtectFrom(s, i, k).links == [Placeholder(Marker(k), m.href)] + ProtectFrom(s, m.end, k + 1).links
  {
  }

  /** No link at `i`: the character is kept. */
  lemma ProtectCharStep(s: String, i: nat, k: nat)
    requires i < |s| && LinkAt(s, i).None?
    ensures ProtectFrom(s, i, k).text == [s[i]] + ProtectFrom(s, i + 1, k).text
    ensures ProtectFrom(s, i, k).links == ProtectFrom(s, i + 1, k).links
  {
  }

  /** The recorded pairs: the `n`-th carries marker `k + n` and a non-empty href
      without quotes. */
  lemma {:induction false} ProtectedPairs(s: String, i: nat, k: nat)
    ensures forall n :: 0 <= n < |ProtectFrom(s, i, k).links| ==> PairAt(ProtectFrom(s, i, k).links, n, k)
    decreases |s| - i
  {
    if i < |s| {
      match LinkAt(s, i)
      case Some(m) =>
        ProtectedPairs(s, m.end, k + 1);
        LinkHrefClean(s, i, m);
        ProtectLinkStep(s, i, k, m);
        var r := ProtectFrom(s, m.end, k + 1).links;
        var ls := ProtectFrom(s, i, k).links;
        assert ls == [Placeholder(Marker(k), m.href)] + r;
        assert PairAt(ls, 0, k);
        forall n | 0 < n < |ls| ensures PairAt(ls, n, k) {
          assert ls[n] == r[n - 1];
          assert PairAt(r, n - 1, k + 1);
        }
      case None =>
        ProtectCharStep(s, i, k);
        ProtectedPairs(s, i + 1, k);
    }
  }

  /** A matched link's href is non-empty and holds no quote. */
  lemma LinkHrefClean(s: String, i: nat, m: LinkMatch)
    requires LinkAt(s, i) == Some(m)
    ensures |m.href| > 0 && forall j :: 0 <= j < |m.href| ==> !IsQuote(m.href[j])
  {
    var p := LastMatch(i + 3, FindChar(s, i + 2, '>'), HrefCandidate(s)).value;
    assert m == HrefMatch(s, p);
    var e := NonQuoteRunEnd(s, p + 6);
    forall j | 0 <= j < |m.href| ensures !IsQuote(m.href[j]) {
      assert m.href[j] == s[p + 6 + j];
    }
  }

  /** The `n`-th recorded pair carries marker `k + n` and a non-empty href without
      quotes. */
  predicate PairAt(ls: seq<Placeholder>, n: nat, k: nat)
    requires n < |ls|
  {
    ls[n].marker == Marker(k + n) && |ls[n].href| > 0 && forall j :: 0 <= j < |ls[n].href| ==> !IsQuote(ls[n].href[j])
  }

  /** Where the characters of a marker sit: one `L`, at 3, the digits from 8. */
  lemma MarkerChars(k: nat)
    ensures var m := Marker(k); var d := NatToString(k);
      m[3] == 'L' && (forall x :: 0 <= x < |m| && x != 3 ==> m[x] != 'L')
      && m[8..8 + |d|] == d && m[8 + |d|] == '_'
  {
    var m := Marker(k);
    var d := NatToString(k);
    var head := "___LINK_";
    assert m == head + d + "___";
    forall x | 0 <= x < |m| && x != 3 ensures m[x] != 'L' {
      if x < 8 {
        assert m[x] == head[x];
      } else if x < 8 + |d| {
        assert m[x] == d[x - 8];
      } else {
        assert m[x] == "___"[x - 8 - |d|];
      }
    }
  }

  /** One marker never occurs inside another: `___LINK_1___` is not part of
      `___LINK_12___`, so each restore can only hit its own marker. */
  lemma MarkerOccursOnlyInItself(j: nat, k: nat, o: nat)
    requires o + |Marker(j)| <= |Marker(k)| && Marker(k)[o..o + |Marker(j)|] == Marker(j)
    ensures j == k && o == 0
  {
    var mj := Marker(j);
    var mk := Marker(k);
    var dj := NatToString(j);
    var dk := NatToString(k);
    MarkerChars(j);
    MarkerChars(k);
    assert mk[o + 3] == mj[3];
    assert o == 0;
    assert |dj| <= |dk|;
    assert mk[8 + |dj|] == mj[8 + |dj|] == '_';
    assert dj == mj[8..8 + |dj|] == mk[8..8 + |dk|] == dk;
    NatToStringRoundTrip(j);
    NatToStringRoundTrip(k);
  }

  /** `<(\w+)(\s+[^>]+)>` (flag `g`) at `i`, replaced by `<$1>`. */
  function AttrHit(s: String, i: nat): (h: Option<Hit>)
    ensures h.Some? ==> i < h.value.end <= |s|
  {
    if !(i < |s| && s[i] == '<') then None
    else
      var e := WordRunEnd(s, i + 1);
      if e == i + 1 || e == |s| || !IsSpace(s[e]) then None
      else
        var g := FindChar(s, e, '>');
        if g < |s| && g >= e + 2 then Some(Hit(g + 1, "<" + s[i + 1..e] + ">")) else None
  }

  function StripAttributes(s: String): String {
    ReplaceAll(s, AttrHit)
  }

  /** The `forEach` over the pairs: each replaces the first `<a>MARKER`. */
  function RestoreFrom(s: String, links: seq<Placeholder>): String
    decreases |links|
  {
    if links == [] then s
    else RestoreFrom(ReplaceString(s, "<a>" + links[0].marker, "<a href=\"" + links[0].href + "\">"), links[1..])
  }

  method RestoreLinks(html: String, linkPlaceholders: seq<Placeholder>) returns (cleaned: String)
    ensures cleaned == RestoreFrom(html, linkPlaceholders)
  {
    cleaned := html;
    for k := 0 to |linkPlaceholders|
      invariant RestoreFrom(cleaned, linkPlaceholders[k..]) == RestoreFrom(html, linkPlaceholders)
    {
      var ph := linkPlaceholders[k];
      assert linkPlaceholders[k..][1..] == linkPlaceholders[k + 1..];
      cleaned := ReplaceString(cleaned, "<a>" + ph.marker, "<a href=\"" + ph.href + "\">");
    }
  }

  /** Placeholders in, attributes out, links back: steps 3 to 5 of the cleaner. */
  function PreserveLinks(html: String): String {
    var p := ProtectFrom(html, 0, 0);
    RestoreFrom(StripAttributes(p.text), p.links)
  }

  /** A link tag `<a ATTRS href="U">`. */
  function LinkTag(pre: String, u: String): (t: String)
    ensures |t| == |pre| + |u| + 10
  {
    "<a" + pre + "href=\"" + u + "\">"
  }

  /** What a link tag's value and attributes may hold for the lemmas below: the
      attributes before the last `href` hold no `>`, the value is non-empty and
      holds no quote (it may hold `>`). */
  predicate PlainLinkParts(pre: String, u: String) {
    |pre| > 0 && IsSpace(pre[0]) && (forall x :: 0 <= x < |pre| ==> pre[x] != '>')
    && |u| > 0 && forall x :: 0 <= x < |u| ==> !IsQuote(u[x])
  }

  lemma LinkTagChars(pre: String, u: String)
    ensures var t := LinkTag(pre, u); var h := 2 + |pre|; var e := h + 6 + |u|;
      t[0] == '<' && t[1] == 'a' && (forall x :: 0 <= x < |pre| ==> t[2 + x] == pre[x])
      && t[h..h + 5] == "href=" && t[h + 5] == '"' && (forall x :: 0 <= x < |u| ==> t[h + 6 + x] == u[x])
      && t[h + 6..e] == u && t[e] == '"' && t[e + 1] == '>'
  {
    var t := LinkTag(pre, u);
    var h := 2 + |pre|;
    assert t == "<a" + pre + "href=\"" + u + "\">";
    assert t[h..h + 5] == "href=";
    assert t[h + 6..h + 6 + |u|] == u;
  }

  /** The greedy `[^>]*` finds the `href=` right before the value (any earlier one
      in the attributes loses), and the tag ends at its `>`. */
  lemma LinkTagMatch(pre: String, u: String)
    requires PlainLinkParts(pre, u)
    ensures LinkAt(LinkTag(pre, u), 0).Some? && LinkAt(LinkTag(pre, u), 0).value.end == |LinkTag(pre, u)|
    ensures LinkAt(LinkTag(pre, u), 0).value.href == u
  {
    var t := LinkTag(pre, u);
    var h := 2 + |pre|;
    var e := h + 6 + |u|;
    LinkTagBounds(pre, u);
    LinkTagChoice(pre, u);
    LinkResult(t, FindChar(t, 2, '>'), h, e, e + 1, u);
  }

  /** Of the candidates before the first `>` (in the value, or the tag's own), the
      last is the `href=` at `2 + |pre|`. */
  lemma LinkTagChoice(pre: String, u: String)
    requires PlainLinkParts(pre, u)
    ensures LastMatch(3, FindChar(LinkTag(pre, u), 2, '>'), HrefCandidate(LinkTag(pre, u))) == Some(2 + |pre|)
  {
    var t := LinkTag(pre, u);
    var h := 2 + |pre|;
    var f := FindChar(t, 2, '>');
    var ok := HrefCandidate(t);
    LinkTagBounds(pre, u);
    LinkTagHref(pre, u);
    forall p | h < p < f ensures !ok(p) {
      LinkTagNoLaterHref(pre, u, p);
    }
    LastMatchIs(3, f, ok, h);
  }

  /** The value's own `href=` is a candidate. */
  lemma LinkTagHref(pre: String, u: String)
    requires PlainLinkParts(pre, u)
    ensures HrefAt(LinkTag(pre, u), 2 + |pre|)
  {
    LinkTagBounds(pre, u);
  }

  /** Reading off a link match from where its parts are. */
  lemma LinkResult(s: String, f: nat, p: nat, e: nat, g: nat, href: String)
    requires LinkOpen(s, 0)
    requires FindChar(s, 2, '>') == f && LastMatch(3, f, HrefCandidate(s)) == Some(p)
    requires NonQuoteRunEnd(s, p + 6) == e && FindChar(s, e + 1, '>') == g && href == s[p + 6..e]
    ensures LinkAt(s, 0).Some? && LinkAt(s, 0).value.end == g + 1
    ensures LinkAt(s, 0).value.href == href
  {
    assert LinkAt(s, 0) == Some(HrefMatch(s, p));
  }

  lemma LinkTagBounds(pre: String, u: String)
    requires PlainLinkParts(pre, u)
    ensures var t := LinkTag(pre, u); var h := 2 + |pre|; var e := h + 6 + |u|;
      LinkOpen(t, 0) && h + 6 <= FindChar(t, 2, '>') <= e + 1 && FindChar(t, e + 1, '>') == e + 1
      && HasAtCI(t, h, "href=") && IsQuote(t[h + 5]) && NonQuoteRunEnd(t, h + 6) == e && t[h + 6..e] == u
  {
    var t := LinkTag(pre, u);
    var h := 2 + |pre|;
    var e := h + 6 + |u|;
    LinkTagChars(pre, u);
    assert HasAtCI(t, 0, "<a");
    LinkTagFirstClose(pre, u);
    FindCharAt(t, e + 1, e + 1, '>');
    forall x | 0 <= x < 5 ensures Lower(t[h + x]) == Lower("href="[x]) {
      assert t[h + x] == t[h..h + 5][x];
    }
    NonQuoteRunAt(t, h + 6, e);
  }

  /** The first `>` after `<a` lies in the value or is the tag's own. */
  lemma LinkTagFirstClose(pre: String, u: String)
    requires PlainLinkParts(pre, u)
    ensures var h := 2 + |pre|; h + 6 <= FindChar(LinkTag(pre, u), 2, '>') <= h + 7 + |u|
  {
    var t := LinkTag(pre, u);
    var h := 2 + |pre|;
    LinkTagChars(pre, u);
    forall j | 2 <= j < h + 6 ensures t[j] != '>' {
      if j < h {
        assert t[j] == pre[j - 2];
      } else if j < h + 5 {
        assert t[j] == t[h..h + 5][j - h];
      }
    }
  }

  /** After the value's own `href=`, no later position can start a match: the only
      quote left is the closing one, after which comes the `>` and the end. */
  lemma LinkTagNoLaterHref(pre: String, u: String, p: nat)
    requires PlainLinkParts(pre, u) && 2 + |pre| < p
    ensures !HrefAt(LinkTag(pre, u), p)
  {
    var t := LinkTag(pre, u);
    var e := 2 + |pre| + 6 + |u|;
    LinkTagChars(pre, u);
    assert p + 5 < |t| && IsQuote(t[p + 5]) ==> p + 5 == e;
    assert NonQuoteRunEnd(t, e + 2) == e + 2;
    assert NonQuoteRunEnd(t, e + 1) == e + 2;
  }

  /** A run of non-quotes that a quote ends. */
  lemma {:induction false} NonQuoteRunAt(s: String, i: nat, e: nat)
    requires i <= e < |s| && IsQuote(s[e]) && forall x :: i <= x < e ==> !IsQuote(s[x])
    ensures NonQuoteRunEnd(s, i) == e
    decreases e - i
  {
    if i < e {
      NonQuoteRunAt(s, i + 1, e);
    }
  }

  /** `<a>` followed by a marker has no whitespace after its name: the attribute
      removal leaves it alone. */
  lemma PlaceholderUntouched(k: nat)
    ensures StripAttributes("<a>" + Marker(k)) == "<a>" + Marker(k)
  {
    var m := Marker(k);
    var t := "<a>" + m;
    MarkerNoAngle(k);
    assert WordRunEnd(t, 1) == 2 by {
      assert t[1] == 'a' && t[2] == '>';
    }
    forall i | 0 < i < |t| ensures AttrHit(t, i).None? {
      if i >= 3 {
        assert t[i] == m[i - 3];
      }
    }
    RewriteNoHit(t, 0, AttrHit);
  }

  /** A marker holds no `<`. */
  lemma MarkerNoAngle(k: nat)
    ensures forall x :: 0 <= x < |Marker(k)| ==> Marker(k)[x] != '<'
  {
    var m := Marker(k);
    var d := NatToString(k);
    var head := "___LINK_";
    assert m == head + d + "___";
    forall x | 0 <= x < |m| ensures m[x] != '<' {
      if x < 8 {
        assert m[x] == head[x];
      } else if x < 8 + |d| {
        assert m[x] == d[x - 8];
      } else {
        assert m[x] == "___"[x - 8 - |d|];
      }
    }
  }

  /** A replace whose pattern is the whole text yields the replacement. */
  lemma ReplaceWhole(t: String, rep: String)
    requires '$' !in rep
    ensures ReplaceString(t, t, rep) == rep
  {
    assert HasAt(t, 0, t);
    assert IndexOf(t, t) == 0;
    SubstitutePlain(rep, t, t[..0], t[|t|..]);
    assert t[..0] == [] && t[|t|..] == [];
  }

  /** A link keeps exactly its (last) `href` and loses every other attribute:
      `<a ATTRS href="U">` comes out as `<a href="U">`. */
  lemma LinkKeepsOnlyHref(pre: String, u: String)
    requires PlainLinkParts(pre, u) && '$' !in u
    ensures PreserveLinks(LinkTag(pre, u)) == "<a href=\"" + u + "\">"
  {
    var m0 := "<a>" + Marker(0);
    LinkTagProtected(pre, u);
    PlaceholderUntouched(0);
    LinkRestored(m0, u);
  }

  /** The link tag alone becomes its placeholder tag, with one recorded link. */
  lemma LinkTagProtected(pre: String, u: String)
    requires PlainLinkParts(pre, u)
    ensures ProtectFrom(LinkTag(pre, u), 0, 0) == Protected("<a>" + Marker(0), [Placeholder(Marker(0), u)])
  {
    var t := LinkTag(pre, u);
    LinkTagMatch(pre, u);
    assert ProtectFrom(t, |t|, 1) == Protected([], []);
    assert ("<a>" + Marker(0)) + [] == "<a>" + Marker(0);
  }

  /** Restoring the one placeholder tag `m0` gives back the link with its href. */
  lemma LinkRestored(m0: String, u: String)
    requires m0 == "<a>" + Marker(0) && '$' !in u
    ensures RestoreFrom(m0, [Placeholder(Marker(0), u)]) == "<a href=\"" + u + "\">"
  {
    var rep := "<a href=\"" + u + "\">";
    assert '$' !in rep by {
      forall x | 0 <= x < |rep| ensures rep[x] != '$' {
        if 9 <= x < 9 + |u| {
          assert rep[x] == u[x - 9];
        }
      }
    }
    ReplaceWhole(m0, rep);
    assert RestoreFrom(m0, [Placeholder(Marker(0), u)]) == RestoreFrom(rep, []);
  }

  /** A tag whose name is followed by whitespace and at least one more character
      before its `>` loses everything after the name. */
  lemma AttributesDropped(name: String, attrs: String)
    requires |name| > 0 && forall x :: 0 <= x < |name| ==> IsWordChar(name[x])
    requires |attrs| >= 2 && IsSpace(attrs[0]) && forall x :: 0 <= x < |attrs| ==> attrs[x] != '>'
    ensures StripAttributes("<" + name + attrs + ">") == "<" + name + ">"
  {
    var t := "<" + name + attrs + ">";
    var e := 1 + |name|;
    assert forall x :: 0 <= x < |name| ==> t[1 + x] == name[x];
    assert forall x :: 0 <= x < |attrs| ==> t[e + x] == attrs[x];
    WordRunAt(t, 1, e);
    FindCharAt(t, e, |t| - 1, '>');
    assert t[1..e] == name;
    assert AttrHit(t, 0) == Some(Hit(|t|, "<" + name + ">"));
    assert Rewrite(t, 0, AttrHit) == "<" + name + ">" + Rewrite(t, |t|, AttrHit);
  }

  lemma {:induction false} WordRunAt(s: String, i: nat, e: nat)
    requires i <= e < |s| && !IsWordChar(s[e]) && forall x :: i <= x < e ==> IsWordChar(s[x])
    ensures WordRunEnd(s, i) == e
    decreases e - i
  {
    if i < e {
      WordRunAt(s, i + 1, e);
    }
  }

  // ---------------------------------------------------------------------------
  // Table-cell clean-up
  // ---------------------------------------------------------------------------

  /** `<\/?NAME>` (flag `gi`), replaced by `rep`. */
  function TagPairHit(name: String, rep: String): Matcher {
    (s: String, i: nat) =>
      if HasAtCI(s, i, "<" + name + ">") then Some(Hit(i + |name| + 2, rep))
      else if HasAtCI(s, i, "</" + name + ">") then Some(Hit(i + |name| + 3, rep))
      else None
  }

  /** `<br\s*\/?>` (flag `gi`), replaced by a space. */
  function BreakHit(s: String, i: nat): (h: Option<Hit>)
    ensures h.Some? ==> i < h.value.end <= |s|
  {
    if !HasAtCI(s, i, "<br") then None
    else
      var a := SpaceRunEnd(s, i + 3);
      if a < |s| && s[a] == '>' then Some(Hit(a + 1, " "))
      else if a + 1 < |s| && s[a] == '/' && s[a + 1] == '>' then Some(Hit(a + 2, " "))
      else None
  }

  /** One pass of the cell loop: paragraphs and breaks to spaces, spans and fonts
      unwrapped. */
  function CellPass(c: String): String {
    var a := ReplaceAll(c, TagPairHit("p", " "));
    var b := ReplaceAll(a, BreakHit);
    var d := ReplaceAll(b, TagPairHit("span", ""));
    ReplaceAll(d, TagPairHit("font", ""))
  }

  function CellPasses(c: String, n: nat): String {
    Iterate(CellPass, c, n)
  }

  /** `\s{2,}` (flag `g`) replaced by one space. */
  function SpaceRunHit(s: String, i: nat): Option<Hit> {
    if i < |s| && IsSpace(s[i]) && SpaceRunEnd(s, i) >= i + 2 then Some(Hit(SpaceRunEnd(s, i), " ")) else None
  }

  /** The cell callback's result for `content`. */
  function CleanCell(content: String): String {
    Trim(ReplaceAll(CellPasses(content, 5), SpaceRunHit))
  }

  /** The callback's five-pass loop over `cellContent`. */
  method CleanCellContent(content: String) returns (cellContent: String)
    ensures cellContent == CleanCell(content)
  {
    cellContent := content;
    for pass := 0 to 5
      invariant cellContent == CellPasses(content, pass)
    {
      cellContent := ReplaceAll(cellContent, TagPairHit("p", " "));
      cellContent := ReplaceAll(cellContent, BreakHit);
      cellContent := ReplaceAll(cellContent, TagPairHit("span", ""));
      cellContent := ReplaceAll(cellContent, TagPairHit("font", ""));
    }
    cellContent := Trim(ReplaceAll(cellContent, SpaceRunHit));
  }

  /** No two whitespace characters in a row. */
  predicate NoDoubleSpace(s: String) {
    forall j :: 0 <= j < |s| - 1 ==> !(IsSpace(s[j]) && IsSpace(s[j + 1]))
  }

  /** Collapsing runs leaves no double whitespace, and what comes out starts with
      whitespace only where the input did. */
  lemma {:induction false} CollapseNoDouble(s: String, i: nat)
    ensures var r := Rewrite(s, i, SpaceRunHit);
      NoDoubleSpace(r) && (r != [] && IsSpace(r[0]) ==> i < |s| && IsSpace(s[i]))
    decreases |s| - i
  {
    if i < |s| {
      var h := SpaceRunHit(s, i);
      if h.Some? {
        var e := SpaceRunEnd(s, i);
        CollapseNoDouble(s, e);
        var t := Rewrite(s, e, SpaceRunHit);
        assert Rewrite(s, i, SpaceRunHit) == " " + t;
      } else {
        CollapseNoDouble(s, i + 1);
        var t := Rewrite(s, i + 1, SpaceRunHit);
        assert Rewrite(s, i, SpaceRunHit) == [s[i]] + t;
      }
    }
  }

  /** A trimmed slice of a string without double whitespace. */
  lemma TrimNoDouble(s: String)
    requires NoDoubleSpace(s)
    ensures NoDoubleSpace(Trim(s))
    ensures Trim(s) != [] ==> !IsSpace(Trim(s)[0]) && !IsSpace(Trim(s)[|Trim(s)| - 1])
  {
    TrimSlice(s);
    var t := Trim(s);
    var a := TrimLead(s);
    forall j | 0 <= j < |t| - 1 ensures !(IsSpace(t[j]) && IsSpace(t[j + 1])) {
      assert t[j] == s[a + j] && t[j + 1] == s[a + j + 1];
    }
  }

  /** Cleaned cell content has no two whitespace characters in a row and none at
      either end. */
  lemma CleanCellTidy(content: String)
    ensures NoDoubleSpace(CleanCell(content))
    ensures CleanCell(content) != [] ==> !IsSpace(CleanCell(content)[0]) && !IsSpace(CleanCell(content)[|CleanCell(content)| - 1])
  {
    CollapseNoDouble(CellPasses(content, 5), 0);
    TrimNoDouble(ReplaceAll(CellPasses(content, 5), SpaceRunHit));
  }

  /** The end of the run of `lit` (ignoring case) repeated from `i`. */
  function LitRunEnd(s: String, i: nat, lit: String): (e: nat)
    requires i <= |s| && |lit| > 0
    ensures i <= e <= |s|
    decreases |s| - i
  {
    if HasAtCI(s, i, lit) then LitRunEnd(s, i + |lit|, lit) else i
  }

  /** The lazy `(.*?)` then greedy `(<\/p>)*` then `close`: the first content end
      from `c` on after which the run of `</p>` is followed by `close`. */
  function CellContentEnd(s: String, c: nat, close: String): (r: Option<nat>)
    requires c <= |s|
    ensures r.Some? ==> c <= r.value <= |s| && HasAtCI(s, LitRunEnd(s, r.value, "</p>"), close)
    decreases |s| - c
  {
    if HasAtCI(s, LitRunEnd(s, c, "</p>"), close) then Some(c)
    else if c == |s| then None
    else CellContentEnd(s, c + 1, close)
  }

  /** `<t([dh])>(<p>)*(.*?)(<\/p>)*<\/t\1>` (flags `gis`) at `i`, the content
      cleaned by the callback. */
  function CellHit(s: String, i: nat): (h: Option<Hit>)
    ensures h.Some? ==> i < h.value.end <= |s|
  {
    if !(HasAtCI(s, i, "<t") && i + 3 < |s| && (Lower(s[i + 2]) == 'd' || Lower(s[i + 2]) == 'h') && s[i + 3] == '>') then None
    else
      var x := s[i + 2];
      var a := LitRunEnd(s, i + 4, "<p>");
      match CellContentEnd(s, a, "</t" + [x] + ">")
      case None => None
      case Some(c) =>
        Some(Hit(LitRunEnd(s, c, "</p>") + 5, "<t" + [x] + ">" + CleanCell(s[a..c]) + "</t" + [x] + ">"))
  }

  /** A cleaned cell keeps its tag name, and its content has no two whitespace
      characters in a row and none at either end. */
  lemma CellHitTidy(s: String, i: nat)
    requires CellHit(s, i).Some?
    ensures var out := CellHit(s, i).value.out;
      |out| >= 9 && out[..4] == "<t" + [s[i + 2]] + ">" && out[|out| - 5..] == "</t" + [s[i + 2]] + ">"
      && NoDoubleSpace(out[4..|out| - 5])
      && (|out| > 9 ==> !IsSpace(out[4]) && !IsSpace(out[|out| - 6]))
  {
    var x := s[i + 2];
    var a := LitRunEnd(s, i + 4, "<p>");
    var c := CellContentEnd(s, a, "</t" + [x] + ">").value;
    var y := CleanCell(s[a..c]);
    CleanCellTidy(s[a..c]);
    var out := CellHit(s, i).value.out;
    var open := "<t" + [x] + ">";
    var close := "</t" + [x] + ">";
    assert out == open + y + close;
    assert out[..4] == open;
    assert out[|out| - 5..] == close;
    assert out[4..|out| - 5] == y;
  }

  // ---------------------------------------------------------------------------
  // Wrapper passes, gaps between tags, header promotion
  // ---------------------------------------------------------------------------

  /** One pass of the wrapper loop. */
  function WrapperPass(s: String): String {
    var a := ReplaceAll(s, TagPairHit("span", ""));
    var b := ReplaceAll(a, TagPairHit("font", ""));
    var c := ReplaceAll(b, DeleteOpenTag("<div"));
    ReplaceAll(c, DeleteCI("</div>"))
  }

  function WrapperPasses(s: String, n: nat): String {
    Iterate(WrapperPass, s, n)
  }

  /** The ten-pass wrapper loop over `cleaned`. */
  method RemoveWrappers(html: String) returns (cleaned: String)
    ensures cleaned == WrapperPasses(html, 10)
  {
    cleaned := html;
    for pass := 0 to 10
      invariant cleaned == WrapperPasses(html, pass)
    {
      cleaned := ReplaceAll(cleaned, TagPairHit("span", ""));
      cleaned := ReplaceAll(cleaned, TagPairHit("font", ""));
      cleaned := ReplaceAll(cleaned, DeleteOpenTag("<div"));
      cleaned := ReplaceAll(cleaned, DeleteCI("</div>"));
    }
  }

  /** `>\s+<` (flag `g`) replaced by `><`. */
  function GapHit(s: String, i: nat): Option<Hit> {
    if i < |s| && s[i] == '>' && i + 1 < |s| && IsSpace(s[i + 1]) && SpaceRunEnd(s, i + 1) < |s| && s[SpaceRunEnd(s, i + 1)] == '<'
    then Some(Hit(SpaceRunEnd(s, i + 1) + 1, "><")) else None
  }

  /** Whitespace alone between a `>` and the next `<` is dropped. */
  lemma GapCollapses(s: String, i: nat, k: nat)
    requires i + 1 < k < |s| && s[i] == '>' && s[k] == '<'
    requires forall j :: i + 1 <= j < k ==> IsSpace(s[j])
    ensures GapHit(s, i).Some? && GapHit(s, i).value.end == k + 1 && GapHit(s, i).value.out == "><"
  {
    assert !IsSpace(s[k]);
  }

  /** The first row's `<td>`/`</td>` become `<th>`/`</th>`. */
  function HeaderRow(row: String): String {
    ReplaceAll(ReplaceAll(row, ReplaceCI("<td>", "<th>")), ReplaceCI("</td>", "</th>"))
  }

  /** `<table><tbody><tr>(.*?)<\/tr>` (flags `gis`) at `i`: every such table. */
  function HeaderHit(s: String, i: nat): (h: Option<Hit>)
    ensures h.Some? ==> i < h.value.end <= |s|
  {
    if !HasAtCI(s, i, "<table><tbody><tr>") then None
    else
      match FindCI(s, i + 18, "</tr>")
      case None => None
      case Some(c) => Some(Hit(c + 5, "<table><thead><tr>" + HeaderRow(s[i + 18..c]) + "</tr></thead><tbody>"))
  }

  function PromoteHeaders(s: String): String {
    ReplaceAll(s, HeaderHit)
  }

  // ---------------------------------------------------------------------------
  // Icons, Google Docs wrappers, colgroups, media
  // ---------------------------------------------------------------------------

  /** `class="[^"]*NEEDLE[^"]*"[^>]*>` then `close` from `p`. */
  predicate IconClassAt(s: String, p: nat, needle: String, close: String) {
    HasAtCI(s, p, "class=\"")
    && var q := FindChar(s, p + 7, '"');
       q < |s|
       && (exists j :: p + 7 <= j && j + |needle| <= q && HasAtCI(s, j, needle))
       && var t := FindChar(s, q + 1, '>');
          t < |s| && HasAtCI(s, t + 1, close)
  }

  function IconCandidate(s: String, needle: String, close: String): nat -> bool {
    (p: nat) => IconClassAt(s, p, needle, close)
  }

  /** `OPEN[^>]*class="[^"]*NEEDLE[^"]*"[^>]*>CLOSE` (flag `gi`) deleted: the class
      value may run past the first `>`, so each `class="` before it is tried,
      the last first. */
  function IconHit(open: String, needle: String, close: String): Matcher {
    (s: String, i: nat) => IconAt(open, needle, close, s, i)
  }

  function IconAt(open: String, needle: String, close: String, s: String, i: nat): Option<Hit> {
    if !HasAtCI(s, i, open) then None
    else
      match LastMatch(i + |open|, FindChar(s, i + |open|, '>'), IconCandidate(s, needle, close))
      case None => None
      case Some(p) => Some(Hit(IconEnd(s, p, needle, close), []))
  }

  /** Where the icon element whose `class="` starts at `p` ends. */
  function IconEnd(s: String, p: nat, needle: String, close: String): nat
    requires IconClassAt(s, p, needle, close)
  {
    var q := FindChar(s, p + 7, '"');
    var t := FindChar(s, q + 1, '>');
    t + 1 + |close|
  }

  function StripIcons(html: String): String {
    var a := ReplaceAll(html, IconHit("<i", "fa", "</i>"));
    var b := ReplaceAll(a, IconHit("<i", "icon", "</i>"));
    ReplaceAll(b, IconHit("<span", "icon", "</span>"))
  }

  /** An empty Font Awesome icon element disappears entirely. */
  lemma IconRemoved()
    ensures ReplaceAll("<i class=\"fa\"></i>", IconHit("<i", "fa", "</i>")) == []
  {
    IconExampleHit("<i class=\"fa\"></i>");
  }

  lemma IconExampleHit(s: String)
    requires s == "<i class=\"fa\"></i>"
    ensures IconHit("<i", "fa", "</i>")(s, 0).Some?
    ensures IconHit("<i", "fa", "</i>")(s, 0).value.end == 18
    ensures IconHit("<i", "fa", "</i>")(s, 0).value.out == []
  {
    assert HasAtCI(s, 0, "<i");
    FindCharAt(s, 2, 13, '>');
    IconExampleClass(s);
    IconExampleNoLaterClass(s);
    LastMatchIs(2, 13, IconCandidate(s, "fa", "</i>"), 3);
    IconHitAt(s, 0, "<i", "fa", "</i>", 3);
  }

  /** The icon matcher at `i`, read off from the `class="` it settles on. */
  lemma IconHitAt(s: String, i: nat, open: String, needle: String, close: String, p: nat)
    requires HasAtCI(s, i, open)
    requires LastMatch(i + |open|, FindChar(s, i + |open|, '>'), IconCandidate(s, needle, close)) == Some(p)
    ensures IconAt(open, needle, close, s, i).Some?
    ensures IconAt(open, needle, close, s, i).value.end == IconEnd(s, p, needle, close)
    ensures IconAt(open, needle, close, s, i).value.out == []
  {
  }

  lemma IconExampleClass(s: String)
    requires s == "<i class=\"fa\"></i>"
    ensures IconClassAt(s, 3, "fa", "</i>")
    ensures FindChar(s, 10, '"') == 12 && FindChar(s, 13, '>') == 13
  {
    FindCharAt(s, 10, 12, '"');
    assert FindChar(s, 13, '>') == 13;
    assert HasAtCI(s, 10, "fa");
    assert HasAtCI(s, 14, "</i>");
    assert HasAtCI(s, 3, "class=\"");
  }

  lemma IconExampleNoLaterClass(s: String)
    requires s == "<i class=\"fa\"></i>"
    ensures forall p :: 3 < p < 13 ==> !IconClassAt(s, p, "fa", "</i>")
  {
    forall p | 3 < p < 13 ensures !IconClassAt(s, p, "fa", "</i>") {
      NotAtCI(s, p, "class=\"", 0);
    }
  }

  /** The end of a run of `<meta[^>]*>` tags from `i`. */
  function MetaRunEnd(s: String, i: nat): (e: nat)
    requires i <= |s|
    ensures i <= e <= |s|
    ensures e > i ==> HasAtCI(s, i, "<meta")
    ensures !(HasAtCI(s, e, "<meta") && FindChar(s, e + 5, '>') < |s|)
    decreases |s| - i
  {
    if HasAtCI(s, i, "<meta") && FindChar(s, i + 5, '>') < |s| then MetaRunEnd(s, FindChar(s, i + 5, '>') + 1) else i
  }

  /** `^(<meta[^>]*>)+` (flag `gi`): only the run at the very start. */
  function MetaPrefixHit(s: String, i: nat): Option<Hit> {
    if i == 0 && MetaRunEnd(s, 0) > 0 then Some(Hit(MetaRunEnd(s, 0), [])) else None
  }

  /** The marker Google Docs puts in the id of its outermost `<b>`. */
  predicate GuidAt(s: String, j: nat) {
    HasAtCI(s, j, "docs-internal-guid")
  }

  /** The guid lies inside the opening tag, which ends at `t`. */
  predicate GuidInTag(s: String, t: nat) {
    exists j :: 2 <= j && j + 18 <= t && GuidAt(s, j)
  }

  /** `^<b[^>]*docs-internal-guid[^>]*>` (flag `i`). */
  function DocsGuidHit(s: String, i: nat): Option<Hit> {
    if i == 0 && HasAtCI(s, 0, "<b") && FindChar(s, 2, '>') < |s| && GuidInTag(s, FindChar(s, 2, '>'))
    then Some(Hit(FindChar(s, 2, '>') + 1, [])) else None
  }

  /** Step -1: Google Docs' leading `<meta>` tags and its `<b id="docs-internal-guid-…">`
      wrapper opening. */
  function StripGoogleDocsWrapper(html: String): String {
    ReplaceFirst(ReplaceAll(html, MetaPrefixHit), DocsGuidHit)
  }

  /** Only the run of `<meta>` tags at the very start goes; from the first
      character that does not continue it the text is kept as it is. */
  lemma MetaPrefixRemoved(s: String)
    ensures ReplaceAll(s, MetaPrefixHit) == s[MetaRunEnd(s, 0)..]
  {
    var e := MetaRunEnd(s, 0);
    RewriteNoHit(s, e, MetaPrefixHit);
  }

  /** At the start of the document, a `<b>` opening tag naming the document guid
      is deleted up to its first `>`; what follows, its `</b>` included, stays. */
  lemma DocsGuidAt(s: String, j: nat)
    requires HasAtCI(s, 0, "<b") && FindChar(s, 2, '>') < |s|
    requires 2 <= j && j + 18 <= FindChar(s, 2, '>') && GuidAt(s, j)
    ensures DocsGuidHit(s, 0).Some? && DocsGuidHit(s, 0).value.end == FindChar(s, 2, '>') + 1
    ensures DocsGuidHit(s, 0).value.out == []
  {
  }

  /** The step changes the text exactly when it opens with a `<b` tag naming the
      guid; then all of that opening tag goes and nothing else.  Other leading
      bold text stays. */
  lemma DocsGuidNeeded(s: String)
    ensures ReplaceFirst(s, DocsGuidHit) != s <==>
      HasAtCI(s, 0, "<b") && FindChar(s, 2, '>') < |s| && GuidInTag(s, FindChar(s, 2, '>'))
    ensures ReplaceFirst(s, DocsGuidHit) != s ==> ReplaceFirst(s, DocsGuidHit) == s[FindChar(s, 2, '>') + 1..]
  {
    if DocsGuidHit(s, 0).Some? {
      ReplaceFirstAtStart(s, DocsGuidHit);
      assert |ReplaceFirst(s, DocsGuidHit)| < |s|;
    } else {
      ReplaceFirstNoHit(s, 0, DocsGuidHit);
    }
  }

  function RemoveColgroups(html: String): String {
    ReplaceAll(html, DeleteElement("<colgroup", "</colgroup>"))
  }

  /** The command's media strip before cleaning: images, video, audio, iframes. */
  function StripMedia(html: String): String {
    var a := ReplaceAll(html, DeleteOpenTag("<img"));
    var b := ReplaceAll(a, DeleteElement("<video", "</video>"));
    var c := ReplaceAll(b, DeleteElement("<audio", "</audio>"));
    ReplaceAll(c, DeleteElement("<iframe", "</iframe>"))
  }

  // ---------------------------------------------------------------------------
  // cleanHtmlLightweight
  // ---------------------------------------------------------------------------

  /** Steps -2 to 0: what the extension does before the steps it shares with the
      older script. */
  function Prelude(html: String): String {
    ConvertInlineStyles(StripGoogleDocsWrapper(StripIcons(html)))
  }

  function PreludeAsWritten(html: String): String {
    ConvertInlineStylesAsWritten(StripGoogleDocsWrapper(StripIcons(html)))
  }

  /** Steps 1 to the final trim. */
  function CleanTail(html: String): String {
    var a := RemoveColgroups(ExpandColspan(html));
    var b := PreserveLinks(a);
    var c := ReplaceAll(b, CellHit);
    var d := WrapperPasses(c, 10);
    Trim(PromoteHeaders(ReplaceAll(d, GapHit)))
  }

  function CleanLightweight(html: String): String {
    CleanTail(Prelude(html))
  }

  function CleanLightweightAsWritten(html: String): String {
    CleanTail(PreludeAsWritten(html))
  }

  /** The corrected `cleanHtmlLightweight`, step by step on `cleaned`: its
      `<b`/`<i` renaming is `RenameOpen`, which does not double the `>`; the
      pipeline as written is `CleanLightweightAsWritten`. */
  method CleanHtmlLightweight(html: String) returns (cleaned: String)
    ensures cleaned == CleanLightweight(html)
  {
    cleaned := html;
    cleaned := ReplaceAll(cleaned, IconHit("<i", "fa", "</i>"));
    cleaned := ReplaceAll(cleaned, IconHit("<i", "icon", "</i>"));
    cleaned := ReplaceAll(cleaned, IconHit("<span", "icon", "</span>"));
    cleaned := ReplaceAll(cleaned, MetaPrefixHit);
    cleaned := ReplaceFirst(cleaned, DocsGuidHit);
    cleaned := ConvertInlineStyles(cleaned);
    cleaned := ExpandColspan(cleaned);
    cleaned := RemoveColgroups(cleaned);
    var linkPlaceholders;
    cleaned, linkPlaceholders := ProtectLinks(cleaned);
    cleaned := StripAttributes(cleaned);
    cleaned := RestoreLinks(cleaned, linkPlaceholders);
    cleaned := ReplaceAll(cleaned, CellHit);
    cleaned := RemoveWrappers(cleaned);
    cleaned := ReplaceAll(cleaned, GapHit);
    cleaned := PromoteHeaders(cleaned);
    cleaned := Trim(cleaned);
  }

  // Properties of the lightweight cleaner

  /** A header row match at the start, read off from its parts. */
  lemma HeaderHitAt(s: String, row: String)
    requires HasAtCI(s, 0, "<table><tbody><tr>")
    requires FindCI(s, 18, "</tr>") == Some(18 + |row|) && s[18..18 + |row|] == row
    ensures HeaderHit(s, 0) == Some(Hit(23 + |row|, "<table><thead><tr>" + HeaderRow(row) + "</tr></thead><tbody>"))
  {
  }

  lemma TablePrefixAt(body: String)
    ensures HasAtCI("<table><tbody><tr>" + body, 0, "<table><tbody><tr>")
  {
    var lit := "<table><tbody><tr>";
    var s := lit + body;
    assert HasAt(s, 0, lit) by {
      assert s[..|lit|] == lit;
    }
    HasAtIsHasAtCI(s, 0, lit);
  }

  lemma FirstRowParts(row: String, rest: String)
    requires NoEarlyCI(row, "</tr>")
    ensures var s := "<table><tbody><tr>" + (row + "</tr>" + rest);
      FindCI(s, 18, "</tr>") == Some(18 + |row|) && s[18..18 + |row|] == row
  {
    var lit := "<table><tbody><tr>";
    var body := row + "</tr>" + rest;
    var s := lit + body;
    SliceOfRight(lit, body);
    assert s[18..23 + |row|] == row + "</tr>" by {
      SliceOfLeft(row + "</tr>", rest, 0, |row| + 5);
    }
    FindAfterBody(s, 18, row, "</tr>");
    assert s[18..18 + |row|] == row by {
      SliceOfLeft(row, "</tr>" + rest, 0, |row|);
    }
  }

  /** Every `<table><tbody><tr>ROW</tr>`, ROW running to the first `</tr>`, gets a
      `<thead>` holding ROW with its cells turned into header cells. */
  lemma PromotesFirstRow(row: String, rest: String)
    requires NoEarlyCI(row, "</tr>")
    ensures var s := "<table><tbody><tr>" + (row + "</tr>" + rest);
      var out := "<table><thead><tr>" + HeaderRow(row) + "</tr></thead><tbody>";
      HeaderHit(s, 0) == Some(Hit(23 + |row|, out))
      && PromoteHeaders(s) == out + Rewrite(s, 23 + |row|, HeaderHit)
  {
    var s := "<table><tbody><tr>" + (row + "</tr>" + rest);
    TablePrefixAt(row + "</tr>" + rest);
    FirstRowParts(row, rest);
    HeaderHitAt(s, row);
  }

  /** Without the exact `<table><tbody><tr>` prefix nothing is promoted. */
  lemma PromoteHeadersNoTable(s: String)
    requires forall j :: 0 <= j < |s| ==> !HasAtCI(s, j, "<table><tbody><tr>")
    ensures PromoteHeaders(s) == s
  {
    RewriteNoHit(s, 0, HeaderHit);
  }

  /** No `<` anywhere: the text holds no markup. */
  predicate TagFree(s: String) {
    forall j :: 0 <= j < |s| ==> s[j] != '<'
  }

  lemma NoOpenAt(s: String, j: nat, lit: String)
    requires TagFree(s) && j < |s| && |lit| > 0 && lit[0] == '<'
    ensures !HasAtCI(s, j, lit)
  {
    assert Lower(s[j]) != Lower(lit[0]);
  }

  /** A global replace that finds nothing leaves the text as it is. */
  lemma Quiet(s: String, m: Matcher)
    requires forall j :: 0 <= j < |s| ==> m(s, j).None?
    ensures ReplaceAll(s, m) == s
  {
    RewriteNoHit(s, 0, m);
  }

  lemma TagPairQuiet(s: String, name: String, rep: String)
    requires TagFree(s)
    ensures ReplaceAll(s, TagPairHit(name, rep)) == s
  {
    forall j | 0 <= j < |s| ensures TagPairHit(name, rep)(s, j).None? {
      NoOpenAt(s, j, "<" + name + ">");
      NoOpenAt(s, j, "</" + name + ">");
    }
    Quiet(s, TagPairHit(name, rep));
  }

  lemma OpenTagQuiet(s: String, open: String)
    requires TagFree(s) && |open| > 0 && open[0] == '<'
    ensures ReplaceAll(s, DeleteOpenTag(open)) == s
  {
    forall j | 0 <= j < |s| ensures !HasAtCI(s, j, open) {
      NoOpenAt(s, j, open);
    }
    Quiet(s, DeleteOpenTag(open));
  }

  lemma ElementQuiet(s: String, open: String, close: String)
    requires TagFree(s) && |open| > 0 && open[0] == '<'
    ensures ReplaceAll(s, DeleteElement(open, close)) == s
  {
    forall j | 0 <= j < |s| ensures !HasAtCI(s, j, open) {
      NoOpenAt(s, j, open);
    }
    Quiet(s, DeleteElement(open, close));
  }

  lemma IconQuiet(s: String, open: String, needle: String, close: String)
    requires TagFree(s) && |open| > 0 && open[0] == '<'
    ensures ReplaceAll(s, IconHit(open, needle, close)) == s
  {
    forall j | 0 <= j < |s| ensures !HasAtCI(s, j, open) {
      NoOpenAt(s, j, open);
    }
    Quiet(s, IconHit(open, needle, close));
  }

  lemma LiteralQuiet(s: String, lit: String, rep: String)
    requires TagFree(s) && |lit| > 0 && lit[0] == '<'
    ensures ReplaceAll(s, ReplaceCI(lit, rep)) == s && ReplaceAll(s, DeleteCI(lit)) == s
  {
    forall j | 0 <= j < |s| ensures !HasAtCI(s, j, lit) {
      NoOpenAt(s, j, lit);
    }
    Quiet(s, ReplaceCI(lit, rep));
    Quiet(s, DeleteCI(lit));
  }

  lemma RenameQuiet(s: String, name: String, element: String)
    requires TagFree(s)
    ensures ReplaceAll(s, RenameOpen(name, element)) == s
    ensures ReplaceAll(s, RenameOpenAsWritten(name, element)) == s
  {
    forall j | 0 <= j < |s| ensures NameThenSpaceOrClose(s, j, name).None? {
      NoOpenAt(s, j, "<" + name);
    }
    Quiet(s, RenameOpen(name, element));
    Quiet(s, RenameOpenAsWritten(name, element));
  }

  lemma StyledQuiet(s: String)
    requires TagFree(s)
    ensures ReplaceAll(s, BoldSpanHit) == s && ReplaceAll(s, ItalicSpanHit) == s
  {
    forall j | 0 <= j < |s| ensures !HasAtCI(s, j, "<span") {
      NoOpenAt(s, j, "<span");
    }
    Quiet(s, BoldSpanHit);
    Quiet(s, ItalicSpanHit);
  }

  lemma {:induction false} TagFreeProtect(s: String, i: nat, k: nat)
    requires TagFree(s) && i <= |s|
    ensures ProtectFrom(s, i, k) == Protected(s[i..], [])
    decreases |s| - i
  {
    if i < |s| {
      NoOpenAt(s, i, "<a");
      TagFreeProtect(s, i + 1, k);
      assert s[i..] == [s[i]] + s[i + 1..];
    }
  }

  lemma {:induction false} TagFreeWrappers(s: String, n: nat)
    requires TagFree(s)
    ensures WrapperPasses(s, n) == s
  {
    TagFreeWrapperPass(s);
    IterateFixed(WrapperPass, s, n);
  }

  /** One wrapper pass leaves tag-free text alone. */
  lemma TagFreeWrapperPass(s: String)
    requires TagFree(s)
    ensures WrapperPass(s) == s
  {
    TagPairQuiet(s, "span", "");
    TagPairQuiet(s, "font", "");
    OpenTagQuiet(s, "<div");
    LiteralQuiet(s, "</div>", "");
  }

  lemma TagFreePrelude(s: String)
    requires TagFree(s)
    ensures Prelude(s) == s && PreludeAsWritten(s) == s
  {
    IconQuiet(s, "<i", "fa", "</i>");
    IconQuiet(s, "<i", "icon", "</i>");
    IconQuiet(s, "<span", "icon", "</span>");
    forall j | 0 <= j < |s| ensures !HasAtCI(s, j, "<meta") && !HasAtCI(s, j, "<b") {
      NoOpenAt(s, j, "<meta");
      NoOpenAt(s, j, "<b");
    }
    Quiet(s, MetaPrefixHit);
    ReplaceFirstNoHit(s, 0, DocsGuidHit);
    StyledQuiet(s);
    RenameQuiet(s, "b", "strong");
    RenameQuiet(s, "i", "em");
    LiteralQuiet(s, "</b>", "</strong>");
    LiteralQuiet(s, "</i>", "</em>");
  }

  lemma TagFreeCells(s: String)
    requires TagFree(s)
    ensures ReplaceAll(s, ColspanHit) == s && ReplaceAll(s, CellHit) == s
  {
    forall j | 0 <= j < |s| ensures !HasAtCI(s, j, "<td") && !HasAtCI(s, j, "<th") && !HasAtCI(s, j, "<t") {
      NoOpenAt(s, j, "<td");
      NoOpenAt(s, j, "<th");
      NoOpenAt(s, j, "<t");
    }
    Quiet(s, ColspanHit);
    Quiet(s, CellHit);
  }

  lemma TagFreeLinks(s: String)
    requires TagFree(s)
    ensures PreserveLinks(s) == s
  {
    TagFreeProtect(s, 0, 0);
    Quiet(s, AttrHit);
  }

  lemma TagFreeEnd(s: String)
    requires TagFree(s)
    ensures PromoteHeaders(ReplaceAll(s, GapHit)) == s
  {
    forall j | 0 <= j < |s| ensures GapHit(s, j).None? && !HasAtCI(s, j, "<table><tbody><tr>") {
      NoOpenAt(s, j, "<table><tbody><tr>");
    }
    Quiet(s, GapHit);
    PromoteHeadersNoTable(s);
  }

  lemma TagFreeTail(s: String)
    requires TagFree(s)
    ensures CleanTail(s) == Trim(s)
  {
    TagFreeCells(s);
    ElementQuiet(s, "<colgroup", "</colgroup>");
    TagFreeLinks(s);
    TagFreeWrappers(s, 10);
    TagFreeEnd(s);
  }

  /** Text without markup comes out of the cleaner, and of the media strip, only
      trimmed. */
  lemma TagFreeOnlyTrimmed(s: String)
    requires TagFree(s)
    ensures CleanLightweight(s) == Trim(s) && CleanLightweightAsWritten(s) == Trim(s)
    ensures StripMedia(s) == s
  {
    TagFreePrelude(s);
    TagFreeTail(s);
    OpenTagQuiet(s, "<img");
    ElementQuiet(s, "<video", "</video>");
    ElementQuiet(s, "<audio", "</audio>");
    ElementQuiet(s, "<iframe", "</iframe>");
  }
}
