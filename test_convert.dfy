/** The older copy of the pipeline in the conversion script: the same colspan
    expansion and table clean-up as the extension, without the icon, Google Docs
    and inline-style steps, and a stricter trailing-whitespace rule. */
module TestConvert {
  import opened Text
  import PlainMarkdown
  import MarkdownCleanup

  /** The script's `cleanHtmlLightweight`, step by step on `cleaned`: what the
      extension does after its prelude. */
  method CleanHtmlLightweight(html: String) returns (cleaned: String)
    ensures cleaned == PlainMarkdown.CleanTail(html)
  {
    cleaned := PlainMarkdown.ExpandColspan(html);
    cleaned := PlainMarkdown.RemoveColgroups(cleaned);
    var linkPlaceholders;
    cleaned, linkPlaceholders := PlainMarkdown.ProtectLinks(cleaned);
    cleaned := PlainMarkdown.StripAttributes(cleaned);
    cleaned := PlainMarkdown.RestoreLinks(cleaned, linkPlaceholders);
    cleaned := ReplaceAll(cleaned, PlainMarkdown.CellHit);
    cleaned := PlainMarkdown.RemoveWrappers(cleaned);
    cleaned := ReplaceAll(cleaned, PlainMarkdown.GapHit);
    cleaned := PlainMarkdown.PromoteHeaders(cleaned);
    cleaned := Trim(cleaned);
  }

  /** `[ \t]+$` (flags `gm`): a whole trailing run of blanks. */
  function TrailHit(s: String, i: nat): Option<Hit> {
    if i < |s| && IsBlank(s[i]) && LineEndAt(s, BlankRunEnd(s, i)) then Some(Hit(BlankRunEnd(s, i), [])) else None
  }

  /** The script's `postProcessMarkdown`: fixes 1 to 6 as in the extension, then
      every trailing run removed. */
  function PostProcess(markdown: String): String {
    Trim(ReplaceAll(MarkdownCleanup.MarkdownFixes(markdown), TrailHit))
  }

  // Trailing whitespace

  lemma TrailHead(s: String, e: nat)
    requires e <= |s| && (e == |s| || !IsBlank(s[e]))
    ensures var o := Rewrite(s, e, TrailHit);
      (e == |s| ==> o == []) && (e < |s| ==> o != [] && o[0] == s[e])
  {
  }

  /** After a blank the rule keeps, the rest starts with a character that is
      not a line break. */
  lemma NoLineEndAfterKept(s: String, i: nat)
    requires i < |s| && IsBlank(s[i]) && TrailHit(s, i).None?
    ensures !LineEndAt(Rewrite(s, i + 1, TrailHit), 0)
  {
    var e := BlankRunEnd(s, i);
    forall k | i + 1 <= k < e ensures TrailHit(s, k).None? {
      BlankRunSame(s, i, k);
    }
    RewriteSkip(s, i + 1, e, TrailHit);
    TrailHead(s, e);
    var o := Rewrite(s, i + 1, TrailHit);
    if e > i + 1 {
      assert o[0] == s[i + 1];
    } else {
      assert o == Rewrite(s, e, TrailHit);
    }
  }

  lemma {:induction false} TrailsRemoved(s: String, i: nat)
    requires i <= |s|
    ensures MarkdownCleanup.NoTrailingBlank(Rewrite(s, i, TrailHit))
    decreases |s| - i
  {
    if i < |s| {
      if TrailHit(s, i).Some? {
        var e := BlankRunEnd(s, i);
        TrailsRemoved(s, e);
        var h := TrailHit(s, i).value;
        assert h.end == e && h.out == [];
        assert Rewrite(s, i, TrailHit) == h.out + Rewrite(s, e, TrailHit);
        assert Rewrite(s, i, TrailHit) == Rewrite(s, e, TrailHit);
      } else {
        TrailsRemoved(s, i + 1);
        if IsBlank(s[i]) {
          NoLineEndAfterKept(s, i);
        }
        MarkdownCleanup.ConsNoTrailing(s[i], Rewrite(s, i + 1, TrailHit));
      }
    }
  }

  lemma TrimNoTrailing(o: String)
    requires MarkdownCleanup.NoTrailingBlank(o)
    ensures MarkdownCleanup.NoTrailingBlank(Trim(o))
  {
    TrimSlice(o);
    var t := Trim(o);
    var a := TrimLead(o);
    forall j | 1 <= j <= |t| && LineEndAt(t, j) ensures !IsBlank(t[j - 1]) {
      if j < |t| {
        assert t[j] == o[a + j] && t[j - 1] == o[a + j - 1];
        assert LineEndAt(o, a + j);
      }
    }
  }

  /** No line of the script's result ends in a space or tab. */
  lemma PostProcessNoTrailingBlank(markdown: String)
    ensures MarkdownCleanup.NoTrailingBlank(PostProcess(markdown))
  {
    var f := MarkdownCleanup.MarkdownFixes(markdown);
    TrailsRemoved(f, 0);
    TrimNoTrailing(ReplaceAll(f, TrailHit));
  }

  lemma HardBreakTextTrail()
    ensures ReplaceAll(MarkdownCleanup.HardBreakText, TrailHit) == "a\nb"
  {
    var s := MarkdownCleanup.HardBreakText;
    assert BlankRunEnd(s, 1) == 3;
    assert TrailHit(s, 1) == Some(Hit(3, []));
    assert Rewrite(s, 0, TrailHit) == "a" + Rewrite(s, 1, TrailHit);
    RewriteSkip(s, 3, 5, TrailHit);
  }

  /** On a hard line break the three rules differ: the script drops both spaces,
      the extension one, the intended rule none. */
  lemma HardBreakCompared()
    ensures PostProcess(MarkdownCleanup.HardBreakText) == "a\nb"
    ensures MarkdownCleanup.PostProcessAsWritten(MarkdownCleanup.HardBreakText) == "a \nb"
    ensures MarkdownCleanup.PostProcess(MarkdownCleanup.HardBreakText) == MarkdownCleanup.HardBreakText
  {
    MarkdownCleanup.HardBreakExample();
    MarkdownCleanup.HardBreakTextPlain();
    MarkdownCleanup.FixesLeavePlainText(MarkdownCleanup.HardBreakText);
    HardBreakTextTrail();
    TrimBare("a\nb");
  }

  // The tag `<b>` through both cleaners

  lemma BoldTagShared()
    ensures ReplaceAll("<b>", PlainMarkdown.ColspanHit) == "<b>"
    ensures PlainMarkdown.RemoveColgroups("<b>") == "<b>"
    ensures ReplaceAll("<b>", PlainMarkdown.CellHit) == "<b>"
  {
    var s := "<b>";
    forall j | 0 <= j < |s|
      ensures !HasAtCI(s, j, "<td") && !HasAtCI(s, j, "<th") && !HasAtCI(s, j, "<t") && !HasAtCI(s, j, "<colgroup")
    {
      var k := if j == 0 then 1 else 0;
      NotAtCI(s, j, "<td", k);
      NotAtCI(s, j, "<th", k);
      NotAtCI(s, j, "<t", k);
    }
    PlainMarkdown.Quiet(s, PlainMarkdown.ColspanHit);
    PlainMarkdown.Quiet(s, DeleteElement("<colgroup", "</colgroup>"));
    PlainMarkdown.Quiet(s, PlainMarkdown.CellHit);
  }

  lemma BoldTagLinks()
    ensures PlainMarkdown.PreserveLinks("<b>") == "<b>"
  {
    var s := "<b>";
    NotAtCI(s, 0, "<a", 1);
    NotAtCI(s, 1, "<a", 0);
    NotAtCI(s, 2, "<a", 0);
    assert PlainMarkdown.ProtectFrom(s, 3, 0) == PlainMarkdown.Protected([], []);
    assert PlainMarkdown.ProtectFrom(s, 2, 0) == PlainMarkdown.Protected(">", []);
    assert PlainMarkdown.ProtectFrom(s, 1, 0) == PlainMarkdown.Protected("b>", []);
    assert PlainMarkdown.ProtectFrom(s, 0, 0) == PlainMarkdown.Protected(s, []);
    assert WordRunEnd(s, 1) == 2;
    PlainMarkdown.Quiet(s, PlainMarkdown.AttrHit);
  }

  lemma BoldTagWrappers()
    ensures PlainMarkdown.WrapperPasses("<b>", 10) == "<b>"
  {
    var s := "<b>";
    PlainMarkdown.Quiet(s, PlainMarkdown.TagPairHit("span", ""));
    PlainMarkdown.Quiet(s, PlainMarkdown.TagPairHit("font", ""));
    PlainMarkdown.Quiet(s, DeleteOpenTag("<div"));
    PlainMarkdown.Quiet(s, DeleteCI("</div>"));
    IterateFixed(PlainMarkdown.WrapperPass, s, 10);
  }

  lemma BoldTagEnd()
    ensures PlainMarkdown.PromoteHeaders(ReplaceAll("<b>", PlainMarkdown.GapHit)) == "<b>"
    ensures Trim("<b>") == "<b>"
  {
    var s := "<b>";
    PlainMarkdown.Quiet(s, PlainMarkdown.GapHit);
    PlainMarkdown.PromoteHeadersNoTable(s);
    TrimBare(s);
  }

  /** The script passes `<b>` through unchanged. */
  lemma BoldTagTail()
    ensures PlainMarkdown.CleanTail("<b>") == "<b>"
  {
    BoldTagShared();
    BoldTagLinks();
    BoldTagWrappers();
    BoldTagEnd();
  }

  lemma BoldTagDocs()
    ensures PlainMarkdown.StripGoogleDocsWrapper(PlainMarkdown.StripIcons("<b>")) == "<b>"
  {
    var s := "<b>";
    forall j | 0 <= j < |s| ensures !HasAtCI(s, j, "<i") {
      NotAtCI(s, j, "<i", if j == 0 then 1 else 0);
    }
    PlainMarkdown.Quiet(s, PlainMarkdown.IconHit("<i", "fa", "</i>"));
    PlainMarkdown.Quiet(s, PlainMarkdown.IconHit("<i", "icon", "</i>"));
    PlainMarkdown.Quiet(s, PlainMarkdown.IconHit("<span", "icon", "</span>"));
    assert PlainMarkdown.MetaRunEnd(s, 0) == 0;
    PlainMarkdown.Quiet(s, PlainMarkdown.MetaPrefixHit);
    assert FindChar(s, 2, '>') == 2;
    ReplaceFirstNoHit(s, 0, PlainMarkdown.DocsGuidHit);
  }

  /** Neither renamed tag, with or without the doubled `>`, holds anything the
      later renamings match. */
  lemma StrongTagNoCloseB(t: String)
    requires t == "<strong>" || t == "<strong>>"
    ensures ReplaceAll(t, ReplaceCI("</b>", "</strong>")) == t
  {
    forall j | 0 <= j < |t| ensures !HasAtCI(t, j, "</b>") {
      NotAtCI(t, j, "</b>", if j == 0 then 1 else 0);
    }
    PlainMarkdown.Quiet(t, ReplaceCI("</b>", "</strong>"));
  }

  lemma StrongTagNoOpenI(t: String)
    requires t == "<strong>" || t == "<strong>>"
    ensures ReplaceAll(t, PlainMarkdown.RenameOpen("i", "em")) == t
    ensures ReplaceAll(t, PlainMarkdown.RenameOpenAsWritten("i", "em")) == t
  {
    forall j | 0 <= j < |t| ensures PlainMarkdown.NameThenSpaceOrClose(t, j, "i").None? {
      NotAtCI(t, j, "<" + "i", if j == 0 then 1 else 0);
    }
    PlainMarkdown.Quiet(t, PlainMarkdown.RenameOpen("i", "em"));
    PlainMarkdown.Quiet(t, PlainMarkdown.RenameOpenAsWritten("i", "em"));
  }

  lemma StrongTagNoCloseI(t: String)
    requires t == "<strong>" || t == "<strong>>"
    ensures ReplaceAll(t, ReplaceCI("</i>", "</em>")) == t
  {
    forall j | 0 <= j < |t| ensures !HasAtCI(t, j, "</i>") {
      NotAtCI(t, j, "</i>", if j == 0 then 1 else 0);
    }
    PlainMarkdown.Quiet(t, ReplaceCI("</i>", "</em>"));
  }

  lemma BoldTagStyles()
    ensures PlainMarkdown.ConvertInlineStyles("<b>") == "<strong>"
  {
    var s := "<b>";
    PlainMarkdown.Quiet(s, PlainMarkdown.BoldSpanHit);
    PlainMarkdown.Quiet(s, PlainMarkdown.ItalicSpanHit);
    PlainMarkdown.RenameAddsBracket();
    assert "<strong" + ">" == "<strong>";
    StrongTagNoCloseB("<strong>");
    StrongTagNoOpenI("<strong>");
    StrongTagNoCloseI("<strong>");
  }

  lemma BoldTagStylesAsWritten()
    ensures PlainMarkdown.ConvertInlineStylesAsWritten("<b>") == "<strong>>"
  {
    var s := "<b>";
    PlainMarkdown.Quiet(s, PlainMarkdown.BoldSpanHit);
    PlainMarkdown.Quiet(s, PlainMarkdown.ItalicSpanHit);
    PlainMarkdown.RenameAddsBracket();
    assert "<strong" + ">" + ">" == "<strong>>";
    StrongTagNoCloseB("<strong>>");
    StrongTagNoOpenI("<strong>>");
    StrongTagNoCloseI("<strong>>");
  }

  /** The script leaves `<b>` as it is.  The extension's prelude renames it
      before the steps the two share: to `<strong>` once corrected, and to
      `<strong>>` as written. */
  lemma BoldTagCompared()
    ensures PlainMarkdown.CleanTail("<b>") == "<b>"
    ensures PlainMarkdown.CleanLightweight("<b>") == PlainMarkdown.CleanTail("<strong>")
    ensures PlainMarkdown.CleanLightweightAsWritten("<b>") == PlainMarkdown.CleanTail("<strong>>")
  {
    BoldTagTail();
    BoldTagDocs();
    BoldTagStyles();
    BoldTagStylesAsWritten();
  }
}
