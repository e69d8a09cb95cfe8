/** The Markdown clean-up rules of the plain-Markdown command: `postProcessMarkdown`
    and `removeMediaFromMarkdown`, each a chain of regular-expression replaces. */
module MarkdownCleanup {
  import opened Text

  // ---------------------------------------------------------------------------
  // postProcessMarkdown, fixes 1 to 6
  // ---------------------------------------------------------------------------

  function LineEndCandidate(s: String): nat -> bool {
    (k: nat) => LineEndAt(s, k)
  }

  function NewlineCandidate(s: String): nat -> bool {
    (k: nat) => k < |s| && s[k] == '\n'
  }

  /** Fix 1, `^\*\*\s*$` (flags `gm`): a line holding only `**`.  The greedy `\s*`
      may run over line breaks, so the match ends at the last line end inside
      the whitespace after the markers. */
  function OrphanBoldHit(s: String, i: nat): Option<Hit> {
    if LineStartAt(s, i) && HasAt(s, i, "**") then
      match LastMatch(i + 2, SpaceRunEnd(s, i + 2) + 1, LineEndCandidate(s))
      case None => None
      case Some(k) => Some(Hit(k, []))
    else None
  }

  /** Fix 2, `^\*\*\s*\n+` (no flags): `**` at the very start, the whitespace
      after it up to and including its last newline. */
  function LeadingBoldHit(s: String, i: nat): Option<Hit> {
    if i == 0 && HasAt(s, 0, "**") then
      match LastMatch(2, SpaceRunEnd(s, 2), NewlineCandidate(s))
      case None => None
      case Some(k) => Some(Hit(CharRunEnd(s, k, '\n'), []))
    else None
  }

  /** Fix 2, `\n+\s*\*\*\s*$` (no flags): `**` alone after the last line break,
      with only whitespace after it, removed from the first newline of the
      whitespace before it to the end of the text. */
  function TrailingBoldHit(s: String, i: nat): Option<Hit> {
    if i < |s| && s[i] == '\n' && HasAt(s, SpaceRunEnd(s, i), "**")
       && SpaceRunEnd(s, SpaceRunEnd(s, i) + 2) == |s|
    then Some(Hit(|s|, [])) else None
  }

  /** Fix 4, `^\d+\.\s+$` (flags `gm`): a numbered item with nothing after it. */
  function EmptyNumberedHit(s: String, i: nat): Option<Hit> {
    if LineStartAt(s, i) && i < |s| && IsDigit(s[i]) && DigitRunEnd(s, i) < |s| && s[DigitRunEnd(s, i)] == '.' then
      var d := DigitRunEnd(s, i);
      match LastMatch(d + 2, SpaceRunEnd(s, d + 1) + 1, LineEndCandidate(s))
      case None => None
      case Some(k) => Some(Hit(k, []))
    else None
  }

  function ItemCandidate(s: String): nat -> bool {
    (k: nat) => k < |s| && !IsLineTerminator(s[k])
  }

  /** Fix 5, `^●\s+(.+)$` (flags `gm`) replaced by `-   $1`.  The item text
      starts after the greedy whitespace run, backing off into it only when
      the run reaches the end of the text; `\s+` may cross line breaks. */
  function BulletHit(s: String, i: nat): Option<Hit> {
    if LineStartAt(s, i) && i < |s| && s[i] == '●' then
      match LastMatch(i + 2, SpaceRunEnd(s, i + 1) + 1, ItemCandidate(s))
      case None => None
      case Some(k) => Some(Hit(NextLineEnd(s, k), "-   " + s[k..NextLineEnd(s, k)]))
    else None
  }

  /** Fix 6, `\n{4,}` (flag `g`) replaced by three newlines. */
  function BlankLinesHit(s: String, i: nat): Option<Hit> {
    if i < |s| && s[i] == '\n' && CharRunEnd(s, i, '\n') >= i + 4 then Some(Hit(CharRunEnd(s, i, '\n'), "\n\n\n")) else None
  }

  /** Fixes 1 to 6, in their order. */
  function MarkdownFixes(markdown: String): String {
    var f1 := ReplaceAll(markdown, OrphanBoldHit);
    var f2 := ReplaceFirst(ReplaceFirst(f1, LeadingBoldHit), TrailingBoldHit);
    // `\\-`: no letters, so matching ignoring case is matching exactly
    var f3 := ReplaceAll(f2, ReplaceCI("\\-", "-"));
    var f4 := ReplaceAll(f3, EmptyNumberedHit);
    ReplaceAll(ReplaceAll(f4, BulletHit), BlankLinesHit)
  }

  // ---------------------------------------------------------------------------
  // Fix 7, trailing whitespace
  // ---------------------------------------------------------------------------

  /** `[ \t]{3,}$` (flags `gm`) replaced by two spaces: the whole trailing run, since
      a blank is never a line terminator. */
  function LongTrailHit(s: String, i: nat): Option<Hit> {
    if i < |s| && IsBlank(s[i]) && BlankRunEnd(s, i) >= i + 3 && LineEndAt(s, BlankRunEnd(s, i))
    then Some(Hit(BlankRunEnd(s, i), "  ")) else None
  }

  /** `[ \t]{1}$` (flags `gm`) as written: the LAST blank before every line end,
      whatever precedes it. */
  function LastBlankHit(s: String, i: nat): Option<Hit> {
    if i < |s| && IsBlank(s[i]) && LineEndAt(s, i + 1) then Some(Hit(i + 1, [])) else None
  }

  /** The rule the comment describes, `(?<![ \t])[ \t]$`: a trailing blank is
      removed only when it stands alone. */
  function LoneBlankHit(s: String, i: nat): Option<Hit> {
    if i < |s| && IsBlank(s[i]) && LineEndAt(s, i + 1) && (i == 0 || !IsBlank(s[i - 1]))
    then Some(Hit(i + 1, [])) else None
  }

  function PostProcessAsWritten(markdown: String): String {
    Trim(ReplaceAll(ReplaceAll(MarkdownFixes(markdown), LongTrailHit), LastBlankHit))
  }

  /** `postProcessMarkdown` with Fix 7 doing what its comment says. */
  function PostProcess(markdown: String): String {
    Trim(ReplaceAll(ReplaceAll(MarkdownFixes(markdown), LongTrailHit), LoneBlankHit))
  }

  // ---------------------------------------------------------------------------
  // Line-end shapes
  // ---------------------------------------------------------------------------

  /** No line ends in three blanks. */
  predicate NoLongTrail(o: String) {
    forall j :: 3 <= j <= |o| && LineEndAt(o, j) ==> !(IsBlank(o[j - 1]) && IsBlank(o[j - 2]) && IsBlank(o[j - 3]))
  }

  /** No line ends in two blanks. */
  predicate AtMostOneTrailingBlank(o: String) {
    forall j :: 2 <= j <= |o| && LineEndAt(o, j) ==> !(IsBlank(o[j - 1]) && IsBlank(o[j - 2]))
  }

  /** No line ends in a blank. */
  predicate NoTrailingBlank(o: String) {
    forall j :: 1 <= j <= |o| && LineEndAt(o, j) ==> !IsBlank(o[j - 1])
  }

  lemma ConsLineEnd(c: char, o: String, j: nat)
    requires 1 <= j <= |o| + 1
    ensures LineEndAt([c] + o, j) == LineEndAt(o, j - 1)
  {
    if j <= |o| {
      assert ([c] + o)[j] == o[j - 1];
    }
  }

  lemma ConsNoLong(c: char, o: String)
    requires NoLongTrail(o)
    requires !(IsBlank(c) && |o| >= 2 && IsBlank(o[0]) && IsBlank(o[1]) && LineEndAt(o, 2))
    ensures NoLongTrail([c] + o)
  {
    var t := [c] + o;
    forall j | 3 <= j <= |t| && LineEndAt(t, j)
      ensures !(IsBlank(t[j - 1]) && IsBlank(t[j - 2]) && IsBlank(t[j - 3]))
    {
      ConsLineEnd(c, o, j);
      assert t[j - 1] == o[j - 2] && t[j - 2] == o[j - 3];
      if j > 3 {
        assert t[j - 3] == o[j - 4];
      }
    }
  }

  /** Two spaces before a line end (or the end of the text) do not make a run of three. */
  lemma PairNoLong(o: String)
    requires NoLongTrail(o)
    requires o == [] || IsLineTerminator(o[0])
    ensures NoLongTrail("  " + o)
  {
    var t := "  " + o;
    forall j | 3 <= j <= |t| && LineEndAt(t, j)
      ensures !(IsBlank(t[j - 1]) && IsBlank(t[j - 2]) && IsBlank(t[j - 3]))
    {
      if j <= 4 {
        assert t[2] == o[0];
      } else {
        assert t[j - 1] == o[j - 3] && t[j - 2] == o[j - 4] && t[j - 3] == o[j - 5];
        if j < |t| {
          assert t[j] == o[j - 2];
        }
        assert LineEndAt(o, j - 2);
      }
    }
  }

  lemma ConsAtMostOne(c: char, o: String)
    requires AtMostOneTrailingBlank(o)
    requires !(IsBlank(c) && |o| >= 1 && IsBlank(o[0]) && LineEndAt(o, 1))
    ensures AtMostOneTrailingBlank([c] + o)
  {
    var t := [c] + o;
    forall j | 2 <= j <= |t| && LineEndAt(t, j) ensures !(IsBlank(t[j - 1]) && IsBlank(t[j - 2])) {
      ConsLineEnd(c, o, j);
      assert t[j - 1] == o[j - 2];
      if j > 2 {
        assert t[j - 2] == o[j - 3];
      }
    }
  }

  lemma ConsNoTrailing(c: char, o: String)
    requires NoTrailingBlank(o)
    requires !(IsBlank(c) && LineEndAt(o, 0))
    ensures NoTrailingBlank([c] + o)
  {
    var t := [c] + o;
    forall j | 1 <= j <= |t| && LineEndAt(t, j) ensures !IsBlank(t[j - 1]) {
      ConsLineEnd(c, o, j);
      if j > 1 {
        assert t[j - 1] == o[j - 2];
      }
    }
  }

  // ---------------------------------------------------------------------------
  // Fix 7 caps trailing runs
  // ---------------------------------------------------------------------------

  /** Where `$` holds, what the rewrite of the rest starts with is a line break. */
  lemma LongTrailHead(s: String, e: nat)
    requires e <= |s| && (e == |s| || !IsBlank(s[e]))
    ensures var o := Rewrite(s, e, LongTrailHit);
      (e == |s| ==> o == []) && (e < |s| ==> o != [] && o[0] == s[e])
  {
  }

  /** After a blank the step leaves in place, the rest does not start with two
      blanks before a line end. */
  lemma NoLongAfterKept(s: String, i: nat)
    requires i < |s| && IsBlank(s[i]) && LongTrailHit(s, i).None?
    ensures var o := Rewrite(s, i + 1, LongTrailHit);
      !(|o| >= 2 && IsBlank(o[0]) && IsBlank(o[1]) && LineEndAt(o, 2))
  {
    var e := BlankRunEnd(s, i);
    forall k | i + 1 <= k < e ensures LongTrailHit(s, k).None? {
      BlankRunSame(s, i, k);
    }
    RewriteSkip(s, i + 1, e, LongTrailHit);
    var oe := Rewrite(s, e, LongTrailHit);
    LongTrailHead(s, e);
    var o := Rewrite(s, i + 1, LongTrailHit);
    assert o == s[i + 1..e] + oe;
    if e - (i + 1) >= 3 {
      assert o[2] == s[i + 3];
    } else if e - (i + 1) == 2 {
      assert o[2..] == oe;
      assert o[0] == s[i + 1] && o[1] == s[i + 2];
    } else if e - (i + 1) == 1 {
      if |o| >= 2 {
        assert o[1] == oe[0];
      }
    } else {
      assert o == oe;
    }
  }

  /** After the `[ \t]{3,}$` step no line ends in three blanks. */
  lemma {:induction false} LongTrailCapped(s: String, i: nat)
    requires i <= |s|
    ensures NoLongTrail(Rewrite(s, i, LongTrailHit))
    decreases |s| - i
  {
    if i < |s| {
      if LongTrailHit(s, i).Some? {
        var e := BlankRunEnd(s, i);
        LongTrailCapped(s, e);
        LongTrailHead(s, e);
        PairNoLong(Rewrite(s, e, LongTrailHit));
      } else {
        LongTrailCapped(s, i + 1);
        if IsBlank(s[i]) {
          NoLongAfterKept(s, i);
        }
        ConsNoLong(s[i], Rewrite(s, i + 1, LongTrailHit));
      }
    }
  }

  /** After a blank that `[ \t]{1}$` keeps, the rest does not start with a blank
      before a line end, provided no line ended in three blanks. */
  lemma NoPairAfterKept(s: String, i: nat)
    requires NoLongTrail(s)
    requires i < |s| && IsBlank(s[i]) && LastBlankHit(s, i).None?
    ensures var o := Rewrite(s, i + 1, LastBlankHit);
      !(|o| >= 1 && IsBlank(o[0]) && LineEndAt(o, 1))
  {
    var o := Rewrite(s, i + 1, LastBlankHit);
    if IsBlank(s[i + 1]) {
      if LastBlankHit(s, i + 1).Some? {
        if i + 2 < |s| {
          assert o == Rewrite(s, i + 2, LastBlankHit);
          assert o[0] == s[i + 2];
        }
      } else {
        var o2 := Rewrite(s, i + 2, LastBlankHit);
        assert o == [s[i + 1]] + o2;
        ConsLineEnd(s[i + 1], o2, 1);
        if LastBlankHit(s, i + 2).None? {
          assert o2[0] == s[i + 2];
        }
      }
    } else {
      assert o[0] == s[i + 1];
    }
  }

  /** `[ \t]{1}$` on text with no three-blank line ends leaves no two-blank line end. */
  lemma {:induction false} LastBlankCut(s: String, i: nat)
    requires NoLongTrail(s) && i <= |s|
    ensures AtMostOneTrailingBlank(Rewrite(s, i, LastBlankHit))
    decreases |s| - i
  {
    if i < |s| {
      LastBlankCut(s, i + 1);
      if LastBlankHit(s, i).None? {
        if IsBlank(s[i]) {
          NoPairAfterKept(s, i);
        }
        ConsAtMostOne(s[i], Rewrite(s, i + 1, LastBlankHit));
      } else {
        var h := LastBlankHit(s, i).value;
        assert h.end == i + 1 && h.out == [];
        assert Rewrite(s, i, LastBlankHit) == h.out + Rewrite(s, i + 1, LastBlankHit);
        assert Rewrite(s, i, LastBlankHit) == Rewrite(s, i + 1, LastBlankHit);
      }
    }
  }

  lemma TrimAtMostOne(o: String)
    requires AtMostOneTrailingBlank(o)
    ensures AtMostOneTrailingBlank(Trim(o))
  {
    TrimSlice(o);
    var t := Trim(o);
    var a := TrimLead(o);
    forall j | 2 <= j <= |t| && LineEndAt(t, j) ensures !(IsBlank(t[j - 1]) && IsBlank(t[j - 2])) {
      if j < |t| {
        assert t[j] == o[a + j] && t[j - 1] == o[a + j - 1] && t[j - 2] == o[a + j - 2];
        assert LineEndAt(o, a + j);
      }
    }
  }

  /** As written, every line of the result ends in at most one blank. */
  lemma PostProcessTrailing(markdown: String)
    ensures AtMostOneTrailingBlank(PostProcessAsWritten(markdown))
  {
    var f := MarkdownFixes(markdown);
    LongTrailCapped(f, 0);
    var g := ReplaceAll(f, LongTrailHit);
    LastBlankCut(g, 0);
    TrimAtMostOne(ReplaceAll(g, LastBlankHit));
  }

  // ---------------------------------------------------------------------------
  // The intended Fix 7: every line ends in no blank or in exactly two
  // ---------------------------------------------------------------------------

  /** No line ends in a blank that stands alone, taking the character before `o`
      to be a blank exactly when `before` says so. */
  predicate LoneTrailFree(o: String, before: bool) {
    forall j :: 1 <= j <= |o| && LineEndAt(o, j) && IsBlank(o[j - 1]) ==>
      if j >= 2 then IsBlank(o[j - 2]) else before
  }

  /** No line ends in exactly one blank. */
  predicate NoLoneTrailingBlank(o: String) {
    LoneTrailFree(o, false)
  }

  /** The intended rule never removes a blank that follows a blank. */
  lemma AfterBlankKept(s: String, k: nat)
    requires 0 < k <= |s| && IsBlank(s[k - 1])
    ensures k < |s| ==> Rewrite(s, k, LoneBlankHit) == [s[k]] + Rewrite(s, k + 1, LoneBlankHit)
    ensures k == |s| ==> Rewrite(s, k, LoneBlankHit) == []
    ensures LineEndAt(Rewrite(s, k, LoneBlankHit), 0) ==> LineEndAt(s, k)
  {
  }

  /** Where a text not starting with a blank begins, the character before it does
      not matter. */
  lemma LoneTrailFreeAnyBefore(o: String, b: bool)
    requires LoneTrailFree(o, b) && (o == [] || !IsBlank(o[0]))
    ensures LoneTrailFree(o, true) && LoneTrailFree(o, false)
  {
  }

  lemma ConsLoneFree(c: char, o: String, b: bool)
    requires LoneTrailFree(o, IsBlank(c))
    requires IsBlank(c) && LineEndAt(o, 0) ==> b
    ensures LoneTrailFree([c] + o, b)
  {
    var t := [c] + o;
    forall j | 1 <= j <= |t| && LineEndAt(t, j) && IsBlank(t[j - 1])
      ensures if j >= 2 then IsBlank(t[j - 2]) else b
    {
      ConsLineEnd(c, o, j);
      if j > 2 {
        assert t[j - 1] == o[j - 2] && t[j - 2] == o[j - 3];
      } else if j == 2 {
        assert t[1] == o[0];
      }
    }
  }

  /** The intended rule leaves no line ending in exactly one blank. */
  lemma {:induction false} LoneBlankCut(s: String, i: nat)
    requires i <= |s|
    ensures LoneTrailFree(Rewrite(s, i, LoneBlankHit), i > 0 && IsBlank(s[i - 1]))
    decreases |s| - i
  {
    if i < |s| {
      var o := Rewrite(s, i + 1, LoneBlankHit);
      LoneBlankCut(s, i + 1);
      if LoneBlankHit(s, i).Some? {
        RewriteHit(s, i, LoneBlankHit, i + 1, []);
        assert [] + o == o;
        if i + 1 < |s| {
          assert o[0] == s[i + 1];
        }
        LoneTrailFreeAnyBefore(o, IsBlank(s[i]));
      } else {
        assert Rewrite(s, i, LoneBlankHit) == [s[i]] + o;
        if IsBlank(s[i]) {
          AfterBlankKept(s, i + 1);
        }
        ConsLoneFree(s[i], o, i > 0 && IsBlank(s[i - 1]));
      }
    }
  }

  /** The intended rule makes no line end in three blanks where none did. */
  lemma {:induction false} LoneBlankKeepsNoLong(s: String, i: nat)
    requires NoLongTrail(s) && i <= |s|
    ensures NoLongTrail(Rewrite(s, i, LoneBlankHit))
    decreases |s| - i
  {
    if i < |s| {
      var o := Rewrite(s, i + 1, LoneBlankHit);
      LoneBlankKeepsNoLong(s, i + 1);
      if LoneBlankHit(s, i).Some? {
        RewriteHit(s, i, LoneBlankHit, i + 1, []);
        assert [] + o == o;
      } else {
        assert Rewrite(s, i, LoneBlankHit) == [s[i]] + o;
        if IsBlank(s[i]) && |o| >= 2 && IsBlank(o[0]) && IsBlank(o[1]) && LineEndAt(o, 2) {
          AfterBlankKept(s, i + 1);
          var o2 := Rewrite(s, i + 2, LoneBlankHit);
          assert o == [s[i + 1]] + o2 && o2[0] == o[1];
          AfterBlankKept(s, i + 2);
          var o3 := Rewrite(s, i + 3, LoneBlankHit);
          assert o2 == [s[i + 2]] + o3;
          ConsLineEnd(s[i + 1], o2, 2);
          ConsLineEnd(s[i + 2], o3, 1);
          AfterBlankKept(s, i + 3);
          assert false;
        }
        ConsNoLong(s[i], o);
      }
    }
  }

  lemma TrimNoLong(o: String)
    requires NoLongTrail(o)
    ensures NoLongTrail(Trim(o))
  {
    TrimSlice(o);
    var t := Trim(o);
    var a := TrimLead(o);
    forall j | 3 <= j <= |t| && LineEndAt(t, j) ensures !(IsBlank(t[j - 1]) && IsBlank(t[j - 2]) && IsBlank(t[j - 3])) {
      if j < |t| {
        assert t[j] == o[a + j] && t[j - 1] == o[a + j - 1] && t[j - 2] == o[a + j - 2] && t[j - 3] == o[a + j - 3];
        assert LineEndAt(o, a + j);
      }
    }
  }

  lemma TrimNoLone(o: String)
    requires NoLoneTrailingBlank(o)
    ensures NoLoneTrailingBlank(Trim(o))
  {
    TrimSlice(o);
    var t := Trim(o);
    var a := TrimLead(o);
    forall j | 1 <= j <= |t| && LineEndAt(t, j) && IsBlank(t[j - 1])
      ensures if j >= 2 then IsBlank(t[j - 2]) else false
    {
      assert j != 1 && j != |t|;
      assert t[j] == o[a + j] && t[j - 1] == o[a + j - 1] && t[j - 2] == o[a + j - 2];
      assert LineEndAt(o, a + j);
    }
  }

  /** With the intended Fix 7 every line of the result ends in no blank or in
      exactly two: a Markdown hard line break survives, and no other trailing
      blank does. */
  lemma PostProcessLineEnds(markdown: String)
    ensures NoLongTrail(PostProcess(markdown))
    ensures NoLoneTrailingBlank(PostProcess(markdown))
  {
    var f := MarkdownFixes(markdown);
    LongTrailCapped(f, 0);
    var g := ReplaceAll(f, LongTrailHit);
    LoneBlankKeepsNoLong(g, 0);
    LoneBlankCut(g, 0);
    var h := ReplaceAll(g, LoneBlankHit);
    TrimNoLong(h);
    TrimNoLone(h);
  }

  /** As written, a hard line break (two blanks before a line end, after a
      non-blank) loses its second blank. */
  lemma HardBreakLosesBlank(s: String, k: nat)
    requires k + 2 <= |s| && IsBlank(s[k]) && IsBlank(s[k + 1]) && LineEndAt(s, k + 2)
    ensures Rewrite(s, k, LastBlankHit) == [s[k]] + Rewrite(s, k + 2, LastBlankHit)
  {
  }

  /** With the intended rule the two blanks of a hard line break stay. */
  lemma HardBreakKept(s: String, k: nat)
    requires k + 2 <= |s| && IsBlank(s[k]) && IsBlank(s[k + 1]) && LineEndAt(s, k + 2)
    ensures Rewrite(s, k, LoneBlankHit) == s[k..k + 2] + Rewrite(s, k + 2, LoneBlankHit)
  {
    RewriteSkip(s, k, k + 2, LoneBlankHit);
  }

  /** With the intended rule a lone trailing blank is still removed. */
  lemma LoneBlankRemoved(s: String, k: nat)
    requires k < |s| && IsBlank(s[k]) && LineEndAt(s, k + 1) && (k == 0 || !IsBlank(s[k - 1]))
    ensures Rewrite(s, k, LoneBlankHit) == Rewrite(s, k + 1, LoneBlankHit)
  {
    RewriteHit(s, k, LoneBlankHit, k + 1, []);
    assert [] + Rewrite(s, k + 1, LoneBlankHit) == Rewrite(s, k + 1, LoneBlankHit);
  }

  /** Three or more trailing blanks become exactly two spaces. */
  lemma LongTrailBecomesBreak(s: String, k: nat)
    requires k < |s| && IsBlank(s[k]) && (k == 0 || !IsBlank(s[k - 1]))
    requires BlankRunEnd(s, k) >= k + 3 && LineEndAt(s, BlankRunEnd(s, k))
    ensures Rewrite(s, k, LongTrailHit) == "  " + Rewrite(s, BlankRunEnd(s, k), LongTrailHit)
  {
  }

  // Text the fixes leave alone, and two consequences of the step order

  /** No `*`, `\\`, `●` or digit, and no four newlines in a row. */
  predicate NoMarkers(s: String) {
    (forall j :: 0 <= j < |s| ==> s[j] != '*' && s[j] != '\\' && s[j] != '●' && !IsDigit(s[j]))
    && forall j :: 0 <= j < |s| ==> !HasAt(s, j, "\n\n\n\n")
  }

  lemma NoMarkersQuiet(s: String)
    requires NoMarkers(s)
    ensures ReplaceAll(s, OrphanBoldHit) == s && ReplaceAll(s, ReplaceCI("\\-", "-")) == s
    ensures ReplaceAll(s, EmptyNumberedHit) == s && ReplaceAll(s, BulletHit) == s
    ensures ReplaceFirst(s, LeadingBoldHit) == s && ReplaceFirst(s, TrailingBoldHit) == s
  {
    forall j | 0 <= j < |s| ensures !HasAt(s, j, "**") && !HasAtCI(s, j, "\\-") {
      assert Lower(s[j]) != Lower("\\-"[0]);
    }
    forall j | 0 <= j < |s| ensures TrailingBoldHit(s, j).None? {
      var p := SpaceRunEnd(s, j);
      assert !HasAt(s, p, "**");
    }
    RewriteNoHit(s, 0, OrphanBoldHit);
    RewriteNoHit(s, 0, ReplaceCI("\\-", "-"));
    RewriteNoHit(s, 0, EmptyNumberedHit);
    RewriteNoHit(s, 0, BulletHit);
    ReplaceFirstNoHit(s, 0, LeadingBoldHit);
    ReplaceFirstNoHit(s, 0, TrailingBoldHit);
  }

  lemma NoMarkersNoBlankLines(s: String)
    requires NoMarkers(s)
    ensures ReplaceAll(s, BlankLinesHit) == s
  {
    forall j | 0 <= j < |s| ensures BlankLinesHit(s, j).None? {
      RunOfFour(s, j);
    }
    RewriteNoHit(s, 0, BlankLinesHit);
  }

  /** A run of at least four newlines starts with `\n\n\n\n`. */
  lemma RunOfFour(s: String, j: nat)
    requires j < |s|
    ensures s[j] == '\n' && CharRunEnd(s, j, '\n') >= j + 4 ==> HasAt(s, j, "\n\n\n\n")
  {
    if s[j] == '\n' && CharRunEnd(s, j, '\n') >= j + 4 {
      assert s[j..j + 4] == "\n\n\n\n" by {
        assert s[j] == '\n' && s[j + 1] == '\n' && s[j + 2] == '\n' && s[j + 3] == '\n';
      }
    }
  }

  /** Fixes 1 to 6 change nothing in text without their markers. */
  lemma FixesLeavePlainText(s: String)
    requires NoMarkers(s)
    ensures MarkdownFixes(s) == s
  {
    NoMarkersQuiet(s);
    NoMarkersNoBlankLines(s);
  }

  const HardBreakText: String := "a  \nb"

  lemma HardBreakTextPlain()
    ensures NoMarkers(HardBreakText)
  {
    var s := HardBreakText;
    forall j | 0 <= j < |s| ensures !HasAt(s, j, "\n\n\n\n") {
      if j + 4 <= |s| {
        assert s[j..j + 4][1] == s[j + 1] == ' ';
      }
    }
  }

  lemma HardBreakTextTrail()
    ensures ReplaceAll(HardBreakText, LongTrailHit) == HardBreakText
  {
    var s := HardBreakText;
    assert BlankRunEnd(s, 2) == 3;
    assert BlankRunEnd(s, 1) == 3;
    RewriteNoHit(s, 0, LongTrailHit);
  }

  lemma HardBreakTextLastBlank()
    ensures ReplaceAll(HardBreakText, LastBlankHit) == "a \nb"
  {
    var s := HardBreakText;
    RewriteSkip(s, 0, 2, LastBlankHit);
    RewriteSkip(s, 3, 5, LastBlankHit);
  }

  lemma HardBreakTextLoneBlank()
    ensures ReplaceAll(HardBreakText, LoneBlankHit) == HardBreakText
  {
    RewriteSkip(HardBreakText, 0, 5, LoneBlankHit);
  }

  lemma HardBreakTextTrim()
    ensures Trim("a \nb") == "a \nb" && Trim(HardBreakText) == HardBreakText
  {
    TrimBare("a \nb");
    TrimBare(HardBreakText);
  }

  /** The discrepancy in Fix 7: a hard line break `a  ` followed by a line keeps one
      space as written, so Markdown no longer breaks the line there; with the
      intended rule it keeps both. */
  lemma HardBreakExample()
    ensures PostProcessAsWritten(HardBreakText) == "a \nb"
    ensures PostProcess(HardBreakText) == HardBreakText
  {
    HardBreakTextPlain();
    FixesLeavePlainText(HardBreakText);
    HardBreakTextTrail();
    HardBreakTextLastBlank();
    HardBreakTextLoneBlank();
    HardBreakTextTrim();
  }

  const SpacedBlankLines: String := "x\n\n \n\nz"

  lemma SpacedBlankLinesPlain()
    ensures NoMarkers(SpacedBlankLines)
  {
    var s := SpacedBlankLines;
    forall j | 0 <= j < |s| ensures !HasAt(s, j, "\n\n\n\n") {
      if j + 4 <= |s| {
        assert s[j..j + 4][3 - j] == s[3] == ' ';
      }
    }
  }

  lemma SpacedBlankLinesTrail()
    ensures ReplaceAll(SpacedBlankLines, LongTrailHit) == SpacedBlankLines
    ensures ReplaceAll(SpacedBlankLines, LastBlankHit) == "x\n\n\n\nz"
  {
    SpacedNoLongTrail();
    SpacedLastBlankCut();
  }

  lemma SpacedNoLongTrail()
    ensures ReplaceAll(SpacedBlankLines, LongTrailHit) == SpacedBlankLines
  {
    var s := SpacedBlankLines;
    assert BlankRunEnd(s, 3) == 4;
    RewriteNoHit(s, 0, LongTrailHit);
  }

  /** The one space, at 3, is the last blank of its line. */
  lemma SpacedLastBlankCut()
    ensures ReplaceAll(SpacedBlankLines, LastBlankHit) == "x\n\n\n\nz"
  {
    var s := SpacedBlankLines;
    RewriteSkip(s, 0, 3, LastBlankHit);
    RewriteHit(s, 3, LastBlankHit, 4, []);
    RewriteSkip(s, 4, 7, LastBlankHit);
    assert s[0..3] + ([] + (s[4..7] + [])) == "x\n\n\n\nz";
  }

  /** Fix 6 runs before Fix 7, so a blank line holding a space, once emptied,
      can leave four newlines in a row in the result. */
  lemma BlankLinesReturn()
    ensures PostProcessAsWritten(SpacedBlankLines) == "x\n\n\n\nz"
  {
    SpacedBlankLinesPlain();
    FixesLeavePlainText(SpacedBlankLines);
    SpacedBlankLinesTrail();
    FourNewlinesTrimmed();
  }

  lemma FourNewlinesTrimmed()
    ensures Trim("x\n\n\n\nz") == "x\n\n\n\nz"
  {
    TrimBare("x\n\n\n\nz");
  }

  // ---------------------------------------------------------------------------
  // removeMediaFromMarkdown
  // ---------------------------------------------------------------------------

  /** `!\[[^\]]*\]` then `open`, `[^close]+` and `close`: an image with its
      target in parentheses (`(`, `)`) or a reference in brackets (`[`, `]`). */
  function ImageHit(open: char, close: char): Matcher {
    (s: String, i: nat) =>
      if HasAt(s, i, "![") && FindChar(s, i + 2, ']') + 1 < |s| && s[FindChar(s, i + 2, ']') + 1] == open then
        var b := FindChar(s, i + 2, ']');
        var c := FindChar(s, b + 2, close);
        if b + 2 < c < |s| then Some(Hit(c + 1, [])) else None
      else None
  }

  const ImageExtensions: seq<String> := ["png", "jpg", "jpeg", "gif", "svg", "webp"]

  predicate ImageExtensionAt(s: String, p: nat) {
    p < |s| && s[p] == '.' && exists x :: x in ImageExtensions && HasAtCI(s, p + 1, x)
  }

  /** Where the URL of `^https?:\/\/` starts, if the scheme is there. */
  function UrlStart(s: String, i: nat): Option<nat> {
    if HasAtCI(s, i, "https://") then Some(i + 8)
    else if HasAtCI(s, i, "http://") then Some(i + 7)
    else None
  }

  function NonSpaceRunEnd(s: String, i: nat): (e: nat)
    requires i <= |s|
    ensures i <= e <= |s|
    ensures forall j :: i <= j < e ==> !IsSpace(s[j])
    decreases |s| - i
  {
    if i < |s| && !IsSpace(s[i]) then NonSpaceRunEnd(s, i + 1) else i
  }

  function ExtensionCandidate(s: String): nat -> bool {
    (p: nat) => ImageExtensionAt(s, p)
  }

  /** `^https?:\/\/[^\s]+\.(png|jpg|jpeg|gif|svg|webp).*$` (flags `gim`): a
      line starting with an image URL, removed to its end. */
  function ImageUrlLineHit(s: String, i: nat): Option<Hit> {
    if !LineStartAt(s, i) || i > |s| then None
    else
      match UrlStart(s, i)
      case None => None
      case Some(u) =>
        if LastMatch(u + 1, NonSpaceRunEnd(s, u), ExtensionCandidate(s)).Some?
        then Some(Hit(NextLineEnd(s, i), [])) else None
  }

  /** `\n\n\n+` (flag `g`) replaced by two newlines. */
  function ExtraNewlinesHit(s: String, i: nat): Option<Hit> {
    if i < |s| && s[i] == '\n' && CharRunEnd(s, i, '\n') >= i + 3 then Some(Hit(CharRunEnd(s, i, '\n'), "\n\n")) else None
  }

  function RemoveMedia(markdown: String): String {
    var a := ReplaceAll(markdown, ImageHit('(', ')'));
    var b := ReplaceAll(a, ImageHit('[', ']'));
    var c := ReplaceAll(b, ImageUrlLineHit);
    Trim(ReplaceAll(c, ExtraNewlinesHit))
  }

  // Properties of the media removal

  /** An inline image `![ALT](TARGET)` is removed whole. */
  lemma InlineImageRemoved(alt: String, target: String, rest: String)
    requires ']' !in alt && ')' !in target && target != []
    ensures var s := "![" + alt + "](" + target + ")" + rest;
      ImageHit('(', ')')(s, 0) == Some(Hit(|alt| + |target| + 5, []))
  {
    var s := "![" + alt + "](" + target + ")" + rest;
    var b := |alt| + 2;
    assert s[..2] == "![";
    forall k | 2 <= k < b ensures s[k] != ']' {
      assert s[k] == alt[k - 2];
    }
    assert s[b] == ']';
    FindCharAt(s, 2, b, ']');
    assert s[b + 1] == '(';
    var c := b + 2 + |target|;
    forall k | b + 2 <= k < c ensures s[k] != ')' {
      assert s[k] == target[k - b - 2];
    }
    assert s[c] == ')';
    FindCharAt(s, b + 2, c, ')');
  }

  /** No three newlines in a row. */
  predicate NoTripleNewline(o: String) {
    forall j :: 0 <= j < |o| - 2 ==> !(o[j] == '\n' && o[j + 1] == '\n' && o[j + 2] == '\n')
  }

  lemma ConsNoTriple(c: char, o: String)
    requires NoTripleNewline(o)
    requires !(c == '\n' && |o| >= 2 && o[0] == '\n' && o[1] == '\n')
    ensures NoTripleNewline([c] + o)
  {
    var t := [c] + o;
    forall j | 0 <= j < |t| - 2 ensures !(t[j] == '\n' && t[j + 1] == '\n' && t[j + 2] == '\n') {
      if j > 0 {
        assert t[j] == o[j - 1] && t[j + 1] == o[j] && t[j + 2] == o[j + 1];
      }
    }
  }

  lemma PairNoTriple(o: String)
    requires NoTripleNewline(o) && (o == [] || o[0] != '\n')
    ensures NoTripleNewline("\n\n" + o)
  {
    var t := "\n\n" + o;
    forall j | 0 <= j < |t| - 2 ensures !(t[j] == '\n' && t[j + 1] == '\n' && t[j + 2] == '\n') {
      if j <= 1 {
        assert t[2] == o[0];
      } else {
        assert t[j] == o[j - 2] && t[j + 1] == o[j - 1] && t[j + 2] == o[j];
      }
    }
  }

  lemma NewlinesHead(s: String, e: nat)
    requires e <= |s| && (e == |s| || s[e] != '\n')
    ensures var o := Rewrite(s, e, ExtraNewlinesHit);
      (e == |s| ==> o == []) && (e < |s| ==> o != [] && o[0] == s[e])
  {
  }

  lemma NoTripleAfterKept(s: String, i: nat)
    requires i < |s| && s[i] == '\n' && ExtraNewlinesHit(s, i).None?
    ensures var o := Rewrite(s, i + 1, ExtraNewlinesHit);
      !(|o| >= 2 && o[0] == '\n' && o[1] == '\n')
  {
    var e := CharRunEnd(s, i, '\n');
    forall k | i + 1 <= k < e ensures ExtraNewlinesHit(s, k).None? {
      CharRunSame(s, i, k, '\n');
    }
    RewriteSkip(s, i + 1, e, ExtraNewlinesHit);
    NewlinesHead(s, e);
    var oe := Rewrite(s, e, ExtraNewlinesHit);
    var o := Rewrite(s, i + 1, ExtraNewlinesHit);
    assert o == s[i + 1..e] + oe;
    if e == i + 2 {
      if |o| >= 2 {
        assert o[1] == oe[0];
      }
    } else {
      assert o == oe;
    }
  }

  /** After `\n\n\n+` is collapsed no three newlines follow each other. */
  lemma {:induction false} NewlinesCollapsed(s: String, i: nat)
    requires i <= |s|
    ensures NoTripleNewline(Rewrite(s, i, ExtraNewlinesHit))
    decreases |s| - i
  {
    if i < |s| {
      if ExtraNewlinesHit(s, i).Some? {
        var e := CharRunEnd(s, i, '\n');
        NewlinesCollapsed(s, e);
        NewlinesHead(s, e);
        PairNoTriple(Rewrite(s, e, ExtraNewlinesHit));
      } else {
        NewlinesCollapsed(s, i + 1);
        if s[i] == '\n' {
          NoTripleAfterKept(s, i);
        }
        ConsNoTriple(s[i], Rewrite(s, i + 1, ExtraNewlinesHit));
      }
    }
  }

  /** What `removeMediaFromMarkdown` returns has no three newlines in a row and
      neither starts nor ends with whitespace. */
  lemma RemoveMediaShape(markdown: String)
    ensures var r := RemoveMedia(markdown);
      NoTripleNewline(r) && (r != [] ==> !IsSpace(r[0]) && !IsSpace(r[|r| - 1]))
  {
    var a := ReplaceAll(markdown, ImageHit('(', ')'));
    var b := ReplaceAll(a, ImageHit('[', ']'));
    var c := ReplaceAll(b, ImageUrlLineHit);
    var o := ReplaceAll(c, ExtraNewlinesHit);
    NewlinesCollapsed(c, 0);
    TrimSlice(o);
    var t := Trim(o);
    var n := TrimLead(o);
    forall j | 0 <= j < |t| - 2 ensures !(t[j] == '\n' && t[j + 1] == '\n' && t[j + 2] == '\n') {
      assert t[j] == o[n + j] && t[j + 1] == o[n + j + 1] && t[j + 2] == o[n + j + 2];
    }
  }
}
