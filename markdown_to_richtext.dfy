/** The Markdown-to-rich-text command's own logic: the test it runs to see whether
    the clipboard text looks like Markdown, and the CF_HTML header it puts in front
    of the HTML it hands to the Windows clipboard.  The Markdown library, the
    clipboard and the platform scripts are outside the model. */
module MarkdownToRichText {
  import opened Text

  // ---------------------------------------------------------------------------
  // looksLikeMarkdown: twelve regular expressions, `.some(p => p.test(text))`
  // ---------------------------------------------------------------------------

  /** The end of the run of characters other than `c` from `i`: how far `[^c]+`
      reaches. */
  function OtherRunEnd(s: String, i: nat, c: char): (e: nat)
    requires i <= |s|
    ensures i <= e <= |s|
    ensures forall j :: i <= j < e ==> s[j] != c
    ensures e < |s| ==> s[e] == c
    decreases |s| - i
  {
    if i < |s| && s[i] != c then OtherRunEnd(s, i + 1, c) else i
  }

  /** The class `[-*_]` of a horizontal rule. */
  predicate IsRuleChar(c: char) { c == '-' || c == '*' || c == '_' }

  function RuleRunEnd(s: String, i: nat): (e: nat)
    requires i <= |s|
    ensures i <= e <= |s|
    ensures forall j :: i <= j < e ==> IsRuleChar(s[j])
    ensures e < |s| ==> !IsRuleChar(s[e])
    decreases |s| - i
  {
    if i < |s| && IsRuleChar(s[i]) then RuleRunEnd(s, i + 1) else i
  }

  /** From `b`: one or more characters other than `c`, then `close`, which starts
      with `c`. */
  predicate DelimitedFrom(s: String, b: nat, c: char, close: String) {
    b <= |s| && var e := OtherRunEnd(s, b, c); b < e && HasAt(s, e, close)
  }

  /** `open`, then `[^c]+`, then `close`: the shape of `\*\*[^*]+\*\*`,
      `\*[^*]+\*`, `_[^_]+_` and `` `[^`]+` ``. */
  predicate DelimitedAt(s: String, i: nat, open: String, c: char, close: String) {
    HasAt(s, i, open) && DelimitedFrom(s, i + |open|, c, close)
  }

  /** `\[[^\]]+\]\([^)]+\)` at `i`. */
  predicate LinkAt(s: String, i: nat) {
    HasAt(s, i, "[") && i + 1 <= |s| &&
    var e := OtherRunEnd(s, i + 1, ']');
    i + 1 < e && HasAt(s, e, "](") && DelimitedFrom(s, e + 2, ')', ")")
  }

  /** The twelve patterns, in the order the command lists them. */
  datatype Pattern =
    | Heading          // /^#{1,6}\s+/m
    | Bold             // /\*\*[^*]+\*\*/
    | StarItalic       // /\*[^*]+\*/
    | UnderscoreItalic // /_[^_]+_/
    | Link             // /\[[^\]]+\]\([^)]+\)/
    | Bullet           // /^[-*+]\s+/m
    | Ordered          // /^\d+\.\s+/m
    | Quote            // /^>\s+/m
    | InlineCode       // /`[^`]+`/
    | Fence            // /^```/m
    | TableRow         // /^\|.+\|$/m
    | Rule             // /^[-*_]{3,}$/m

  const Patterns: seq<Pattern> :=
    [Heading, Bold, StarItalic, UnderscoreItalic, Link, Bullet, Ordered, Quote,
     InlineCode, Fence, TableRow, Rule]

  /** A match of `p` starts at `i`, with the outcome the JavaScript engine's
      backtracking gives: a greedy run followed by something it cannot hold is
      tried once at its full length. */
  predicate MatchesAt(p: Pattern, s: String, i: nat) {
    i < |s| &&
    match p
    case Heading =>
      LineStartAt(s, i) && var e := CharRunEnd(s, i, '#'); 1 <= e - i <= 6 && e < |s| && IsSpace(s[e])
    case Bold => DelimitedAt(s, i, "**", '*', "**")
    case StarItalic => DelimitedAt(s, i, "*", '*', "*")
    case UnderscoreItalic => DelimitedAt(s, i, "_", '_', "_")
    case Link => LinkAt(s, i)
    case Bullet =>
      LineStartAt(s, i) && (s[i] == '-' || s[i] == '*' || s[i] == '+') && i + 1 < |s| && IsSpace(s[i + 1])
    case Ordered =>
      LineStartAt(s, i) && var e := DigitRunEnd(s, i); i < e && e + 1 < |s| && s[e] == '.' && IsSpace(s[e + 1])
    case Quote => LineStartAt(s, i) && s[i] == '>' && i + 1 < |s| && IsSpace(s[i + 1])
    case InlineCode => DelimitedAt(s, i, "`", '`', "`")
    case Fence => LineStartAt(s, i) && HasAt(s, i, "```")
    case TableRow =>
      LineStartAt(s, i) && s[i] == '|' && var e := NextLineEnd(s, i + 1); i + 2 < e && s[e - 1] == '|'
    case Rule => LineStartAt(s, i) && var e := RuleRunEnd(s, i); e - i >= 3 && LineEndAt(s, e)
  }

  /** `pattern.test(text)`. */
  predicate Matches(p: Pattern, s: String) {
    exists i :: 0 <= i < |s| && MatchesAt(p, s, i)
  }

  /** `looksLikeMarkdown(text)`. */
  predicate LooksLikeMarkdown(text: String) {
    exists k :: 0 <= k < |Patterns| && Matches(Patterns[k], text)
  }

  // The regular expressions read declaratively: some choice of repetition counts
  // lets the whole pattern match.

  /** `#{1,6}\s+`: between one and six `#`, then whitespace. */
  lemma HeadingIff(s: String, i: nat)
    ensures MatchesAt(Heading, s, i) <==>
      i < |s| && LineStartAt(s, i) &&
      exists q :: i + 1 <= q <= i + 6 && q < |s| && (forall j :: i <= j < q ==> s[j] == '#') && IsSpace(s[q])
  {
    if i < |s| {
      var e := CharRunEnd(s, i, '#');
      forall q | i + 1 <= q <= i + 6 && q < |s| && (forall j :: i <= j < q ==> s[j] == '#') && IsSpace(s[q])
        ensures e == q
      {
      }
    }
  }

  /** `open [^c]+ close`: some non-empty stretch free of `c` lies between the two. */
  lemma DelimitedIff(s: String, i: nat, open: String, c: char, close: String)
    requires |close| > 0 && close[0] == c
    ensures DelimitedAt(s, i, open, c, close) <==>
      HasAt(s, i, open) &&
      exists j :: i + |open| < j <= |s| && (forall k :: i + |open| <= k < j ==> s[k] != c) && HasAt(s, j, close)
  {
    if HasAt(s, i, open) {
      var b := i + |open|;
      var e := OtherRunEnd(s, b, c);
      forall j | b < j <= |s| && (forall k :: b <= k < j ==> s[k] != c) && HasAt(s, j, close)
        ensures e == j
      {
        assert s[j] == s[j..j + |close|][0] == c;
      }
    }
  }

  /** `\d+\.\s+` with its digits from `i` to `q`: a non-empty run of digits,
      then `.`, then whitespace. */
  predicate OrderedFrom(s: String, i: nat, q: nat) {
    i < q && q + 1 < |s| && (forall j :: i <= j < q ==> IsDigit(s[j])) && s[q] == '.' && IsSpace(s[q + 1])
  }

  /** `\d+\.\s+`: some non-empty run of digits, then `.`, then whitespace. */
  lemma OrderedIff(s: String, i: nat)
    ensures MatchesAt(Ordered, s, i) <==>
      i < |s| && LineStartAt(s, i) && exists q :: OrderedFrom(s, i, q)
  {
    if i < |s| {
      var e := DigitRunEnd(s, i);
      if MatchesAt(Ordered, s, i) {
        assert OrderedFrom(s, i, e);
      }
      if exists q :: OrderedFrom(s, i, q) {
        var q :| OrderedFrom(s, i, q);
        assert e == q;
      }
    }
  }

  lemma {:induction false} NextLineEndIs(s: String, i: nat, q: nat)
    requires i <= q <= |s| && LineEndAt(s, q)
    requires forall j :: i <= j < q ==> !IsLineTerminator(s[j])
    ensures NextLineEnd(s, i) == q
    decreases q - i
  {
    if i < q {
      NextLineEndIs(s, i + 1, q);
    }
  }

  /** `\|.+\|$`: a second `|` ends the line, with at least one character of the line
      between the two. */
  lemma TableRowIff(s: String, i: nat)
    ensures MatchesAt(TableRow, s, i) <==>
      i < |s| && LineStartAt(s, i) && s[i] == '|' &&
      exists p :: i + 2 <= p < |s| && (forall j :: i + 1 <= j < p ==> !IsLineTerminator(s[j])) && s[p] == '|' && LineEndAt(s, p + 1)
  {
    if i < |s| {
      var e := NextLineEnd(s, i + 1);
      if MatchesAt(TableRow, s, i) {
        assert LineEndAt(s, (e - 1) + 1);
      }
      forall p | i + 2 <= p < |s| && (forall j :: i + 1 <= j < p ==> !IsLineTerminator(s[j])) && s[p] == '|' && LineEndAt(s, p + 1)
        ensures e == p + 1
      {
        NextLineEndIs(s, i + 1, p + 1);
      }
    }
  }

  /** `[-*_]{3,}$`: a line made of three or more rule characters. */
  lemma RuleIff(s: String, i: nat)
    ensures MatchesAt(Rule, s, i) <==>
      i < |s| && LineStartAt(s, i) &&
      exists q :: i + 3 <= q <= |s| && (forall j :: i <= j < q ==> IsRuleChar(s[j])) && LineEndAt(s, q)
  {
    if i < |s| {
      var e := RuleRunEnd(s, i);
      forall q | i + 3 <= q <= |s| && (forall j :: i <= j < q ==> IsRuleChar(s[j])) && LineEndAt(s, q)
        ensures e == q
      {
      }
    }
  }

  /** The characters some pattern must start with. */
  predicate IsMarker(c: char) {
    c == '#' || c == '*' || c == '_' || c == '[' || c == '-' || c == '+' || c == '>' || c == '`' || c == '|' || IsDigit(c)
  }

  lemma MatchStartsWithMarker(p: Pattern, s: String, i: nat)
    requires MatchesAt(p, s, i)
    ensures IsMarker(s[i])
  {
    match p
    case Bold => assert s[i] == s[i..i + 2][0];
    case StarItalic => assert s[i] == s[i..i + 1][0];
    case UnderscoreItalic => assert s[i] == s[i..i + 1][0];
    case Link => assert s[i] == s[i..i + 1][0];
    case InlineCode => assert s[i] == s[i..i + 1][0];
    case Fence => assert s[i] == s[i..i + 3][0];
    case _ =>
  }

  /** Text that looks like Markdown holds at least one marker character: plain
      prose without any of `# * _ [ - + > ` |` or a digit never does. */
  lemma LooksLikeMarkdownNeedsMarker(s: String)
    ensures LooksLikeMarkdown(s) ==> exists j :: 0 <= j < |s| && IsMarker(s[j])
  {
    if LooksLikeMarkdown(s) {
      var k :| 0 <= k < |Patterns| && Matches(Patterns[k], s);
      var i :| 0 <= i < |s| && MatchesAt(Patterns[k], s, i);
      MatchStartsWithMarker(Patterns[k], s, i);
    }
  }

  /** `foo_bar_baz` counts as Markdown: `_bar_` is an italic span. */
  lemma SnakeCaseLooksLikeMarkdown()
    ensures MatchesAt(UnderscoreItalic, "foo_bar_baz", 3)
    ensures LooksLikeMarkdown("foo_bar_baz")
  {
    var s := "foo_bar_baz";
    assert OtherRunEnd(s, 7, '_') == 7;
    assert OtherRunEnd(s, 6, '_') == 7;
    assert OtherRunEnd(s, 5, '_') == 7;
    assert OtherRunEnd(s, 4, '_') == 7;
    assert s[3..4] == "_" && s[7..8] == "_";
    assert DelimitedAt(s, 3, "_", '_', "_");
    assert MatchesAt(Patterns[3], s, 3);
    assert Matches(Patterns[3], s);
  }

  /** `a * b * c` counts as Markdown: `* b *` is an italic span. */
  lemma ProductLooksLikeMarkdown()
    ensures MatchesAt(StarItalic, "a * b * c", 2)
    ensures LooksLikeMarkdown("a * b * c")
  {
    var s := "a * b * c";
    assert OtherRunEnd(s, 6, '*') == 6;
    assert OtherRunEnd(s, 5, '*') == 6;
    assert OtherRunEnd(s, 4, '*') == 6;
    assert OtherRunEnd(s, 3, '*') == 6;
    assert s[2..3] == "*" && s[6..7] == "*";
    assert DelimitedAt(s, 2, "*", '*', "*");
    assert MatchesAt(Patterns[2], s, 2);
    assert Matches(Patterns[2], s);
  }

  /** A sentence without marker characters does not. */
  lemma SentenceIsNotMarkdown()
    ensures !LooksLikeMarkdown("Hello, world.")
  {
    var s := "Hello, world.";
    assert forall j :: 0 <= j < |s| ==> !IsMarker(s[j]);
    LooksLikeMarkdownNeedsMarker(s);
  }

  // ---------------------------------------------------------------------------
  // The CF_HTML header (Windows clipboard)
  // ---------------------------------------------------------------------------

  /** Field values below this are written with exactly ten digits. */
  const FieldLimit: nat := 10_000_000_000

  /** What the header's five lines say once the field names are added. */
  datatype Offsets = Offsets(startHtml: nat, endHtml: nat, startFragment: nat, endFragment: nat)

  lemma {:induction false} ZerosValue(z: String)
    requires forall k :: 0 <= k < |z| ==> z[k] == '0'
    ensures DecimalValue(z) == 0
  {
    if z != [] {
      ZerosValue(z[..|z| - 1]);
    }
  }

  /** Leading zeros do not change the value of a numeral. */
  lemma {:induction false} LeadingZeros(z: String, t: String)
    requires forall k :: 0 <= k < |z| ==> z[k] == '0'
    requires forall k :: 0 <= k < |t| ==> IsDigit(t[k])
    ensures DecimalValue(z + t) == DecimalValue(t)
  {
    if t == [] {
      assert z + t == z;
      ZerosValue(z);
    } else {
      var u := z + t;
      assert u[..|u| - 1] == z + t[..|t| - 1];
      assert u[|u| - 1] == t[|t| - 1];
      LeadingZeros(z, t[..|t| - 1]);
    }
  }

  lemma PaddedDigits(n: nat)
    ensures DecimalValue(PadStart(NatToString(n), 10, '0')) == n
    ensures n < FieldLimit ==> |PadStart(NatToString(n), 10, '0')| == 10
  {
    var t := NatToString(n);
    NatToStringRoundTrip(n);
    if n < FieldLimit {
      assert Pow10(10) == FieldLimit;
      NatToStringLength(n, 10);
    }
    if |t| < 10 {
      LeadingZeros(Repeat('0', 10 - |t|), t);
    }
  }

  /** `String(n).padStart(10, "0")`: at least ten digits, exactly ten below
      `FieldLimit`, never truncated, and reading the digits back gives `n`. */
  function Padded(n: nat): (r: String)
    ensures |r| >= 10
    ensures forall k :: 0 <= k < |r| ==> IsDigit(r[k])
    ensures DecimalValue(r) == n
    ensures n < FieldLimit ==> |r| == 10
  {
    PaddedDigits(n);
    PadStart(NatToString(n), 10, '0')
  }

  function HeaderLines(o: Offsets): seq<String> {
    FieldLines(Padded(o.startHtml), Padded(o.endHtml), Padded(o.startFragment), Padded(o.endFragment))
  }

  /** The five header lines around the four padded values. */
  function FieldLines(sh: String, eh: String, sf: String, ef: String): seq<String> {
    ["Version:0.9", "StartHTML:" + sh, "EndHTML:" + eh, "StartFragment:" + sf, "EndFragment:" + ef]
  }

  const CrLf: String := "\r\n"

  /** The header: the five lines joined by CRLF, with a final CRLF. */
  function Header(o: Offsets): String {
    Join(HeaderLines(o), CrLf) + CrLf
  }

  lemma JoinFive(ls: seq<String>, sep: String)
    requires |ls| == 5
    ensures Join(ls, sep) == ls[0] + sep + (ls[1] + sep + (ls[2] + sep + (ls[3] + sep + ls[4])))
  {
    assert ls[1..][1..] == ls[2..];
    assert ls[2..][1..] == ls[3..];
    assert ls[3..][1..] == ls[4..];
    assert Join(ls[4..], sep) == ls[4];
    assert Join(ls[3..], sep) == ls[3] + sep + ls[4];
    assert Join(ls[2..], sep) == ls[2] + sep + (ls[3] + sep + ls[4]);
    assert Join(ls[1..], sep) == ls[1] + sep + (ls[2] + sep + (ls[3] + sep + ls[4]));
  }

  /** The five lines appear in their fixed order, each followed by CRLF. */
  lemma FieldLayout(sh: String, eh: String, sf: String, ef: String)
    ensures Join(FieldLines(sh, eh, sf, ef), CrLf) + CrLf ==
      "Version:0.9" + CrLf + (("StartHTML:" + sh) + CrLf + (("EndHTML:" + eh) + CrLf
      + (("StartFragment:" + sf) + CrLf + ("EndFragment:" + ef)))) + CrLf
  {
    JoinFive(FieldLines(sh, eh, sf, ef), CrLf);
  }

  /** The header's lines in order: the version, then StartHTML, EndHTML,
      StartFragment and EndFragment with their padded values, each followed by CRLF. */
  lemma HeaderLayout(o: Offsets)
    ensures Header(o) ==
      "Version:0.9" + CrLf + (("StartHTML:" + Padded(o.startHtml)) + CrLf + (("EndHTML:" + Padded(o.endHtml)) + CrLf
      + (("StartFragment:" + Padded(o.startFragment)) + CrLf + ("EndFragment:" + Padded(o.endFragment))))) + CrLf
  {
    FieldLayout(Padded(o.startHtml), Padded(o.endHtml), Padded(o.startFragment), Padded(o.endFragment));
  }

  /** The length the header has while every value is below `FieldLimit`. */
  const HeaderLength: nat := 105

  /** With ten-character values the lines join to 103 characters, then the final CRLF. */
  lemma FieldLength(sh: String, eh: String, sf: String, ef: String)
    requires |sh| == 10 && |eh| == 10 && |sf| == 10 && |ef| == 10
    ensures |Join(FieldLines(sh, eh, sf, ef), CrLf) + CrLf| == HeaderLength
    ensures (Join(FieldLines(sh, eh, sf, ef), CrLf) + CrLf)[HeaderLength - 2] == '\r'
  {
    var ls := FieldLines(sh, eh, sf, ef);
    var j := Join(ls, CrLf);
    JoinFive(ls, CrLf);
    assert |ls[0]| == 11 && |ls[1]| == 20 && |ls[2]| == 18 && |ls[3]| == 24 && |ls[4]| == 22;
    assert |j| == 103;
    assert (j + CrLf)[103] == CrLf[0];
  }

  lemma HeaderLengthIs(o: Offsets)
    requires o.startHtml < FieldLimit && o.endHtml < FieldLimit
    requires o.startFragment < FieldLimit && o.endFragment < FieldLimit
    ensures |Header(o)| == HeaderLength
    ensures Header(o)[HeaderLength - 2] == '\r'
  {
    FieldLength(Padded(o.startHtml), Padded(o.endHtml), Padded(o.startFragment), Padded(o.endFragment));
  }

  /** The offsets the command writes when the header is taken to be `base` long
      (lines :126-136): the fragment starts at the first `<body` (at the start of the
      HTML when there is none) and ends seven characters after the last `</body>`. */
  function FragmentOffsets(base: nat, html: String): (o: Offsets)
    ensures o.startHtml == base && o.endHtml == base + |html|
    ensures IndexOf(html, "<body") >= 0 ==> o.startFragment == base + IndexOf(html, "<body")
    ensures IndexOf(html, "<body") < 0 ==> o.startFragment == base
    ensures o.endFragment == base + LastIndexOf(html, "</body>") + 7
    ensures LastIndexOf(html, "</body>") < 0 ==> o.endFragment == base + 6
    ensures LastIndexOf(html, "</body>") >= 0 ==> o.endFragment <= o.endHtml
  {
    var startFragment := IndexOf(html, "<body");
    var endFragment := LastIndexOf(html, "</body>") + 7;
    Offsets(base, base + |html|,
            base + (if startFragment >= 0 then startFragment else 0),
            base + (if endFragment > 0 then endFragment else |html|))
  }

  /** The offset the command writes for StartHTML. */
  const WrittenStart: nat := 97

  /** `header + html` with the offsets counted from 97, as the command writes it. */
  function ClipboardHtmlAsWritten(html: String): String {
    Header(FragmentOffsets(WrittenStart, html)) + html
  }

  /** `header + html` with the offsets counted from the header's real length. */
  function ClipboardHtml(html: String): String {
    Header(FragmentOffsets(HeaderLength, html)) + html
  }

  lemma FragmentOffsetsFit(base: nat, html: String)
    requires base <= HeaderLength && |html| + 200 < FieldLimit
    ensures var o := FragmentOffsets(base, html);
      o.startHtml < FieldLimit && o.endHtml < FieldLimit && o.startFragment < FieldLimit && o.endFragment < FieldLimit
  {
  }

  /** As written, a header of 105 characters says the HTML starts at 97: the range
      StartHTML..EndHTML begins with the header's last eight characters, so it is
      not the HTML whenever the HTML's seventh character is not a carriage return. */
  lemma AsWrittenStartMisses(html: String)
    requires |html| + 200 < FieldLimit
    requires |html| > 6 && html[6] != '\r'
    ensures var o := FragmentOffsets(WrittenStart, html);
      |Header(o)| == HeaderLength && o.startHtml < HeaderLength &&
      ClipboardHtmlAsWritten(html)[o.startHtml..o.endHtml] != html
  {
    var o := FragmentOffsets(WrittenStart, html);
    FragmentOffsetsFit(WrittenStart, html);
    HeaderLengthIs(o);
    var h := Header(o);
    assert (h + html)[103] == h[103] == '\r';
    SliceDiffers(h + html, 97, 97 + |html|, html, 6);
  }

  lemma SliceDiffers(d: String, a: nat, b: nat, x: String, k: nat)
    requires a <= b <= |d| && k < |x| && a + k < b && d[a + k] != x[k]
    ensures d[a..b] != x
  {
    assert d[a..b][k] == d[a + k];
  }

  /** What occurs in the HTML occurs after the header, shifted by its length. */
  lemma HasAtAfter(h: String, html: String, k: nat, lit: String)
    requires HasAt(html, k, lit)
    ensures HasAt(h + html, |h| + k, lit)
  {
    assert (h + html)[|h| + k..|h| + k + |lit|] == html[k..k + |lit|];
  }

  /** In the document `d`, the offsets `o` point where they should: StartHTML..EndHTML
      is `html`, StartFragment is at `<body` and EndFragment just after the last
      `</body>` when the HTML has them. */
  predicate Locates(d: String, o: Offsets, html: String) {
    o.startHtml <= o.endHtml == |d| && d[o.startHtml..o.endHtml] == html &&
    (IndexOf(html, "<body") >= 0 ==> HasAt(d, o.startFragment, "<body")) &&
    (LastIndexOf(html, "</body>") >= 0 ==> 7 <= o.endFragment && HasAt(d, o.endFragment - 7, "</body>"))
  }

  /** Counted from the real header length, every offset points where it should. */
  lemma CorrectedOffsetsLocate(html: String)
    requires |html| + 200 < FieldLimit
    ensures var o := FragmentOffsets(HeaderLength, html);
      |Header(o)| == o.startHtml && Locates(ClipboardHtml(html), o, html)
  {
    var o := FragmentOffsets(HeaderLength, html);
    FragmentOffsetsFit(HeaderLength, html);
    HeaderLengthIs(o);
    var h := Header(o);
    OffsetsLocate(h, html);
    assert FragmentOffsets(|h|, html) == o;
    assert ClipboardHtml(html) == h + html;
  }

  /** Offsets counted from the length of whatever precedes the HTML point into it. */
  lemma OffsetsLocate(h: String, html: String)
    ensures Locates(h + html, FragmentOffsets(|h|, html), html)
  {
    assert (h + html)[|h|..] == html;
    var a := IndexOf(html, "<body");
    if a >= 0 {
      HasAtAfter(h, html, a, "<body");
    }
    var b := LastIndexOf(html, "</body>");
    if b >= 0 {
      HasAtAfter(h, html, b, "</body>");
    }
  }
}
