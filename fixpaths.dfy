/**
 * scripts/fix-paths.js: every page under src/pages is rewritten by twelve
 * global replacements, in order, turning the export's relative asset paths
 * (`css/`, `js/`, `images/`, `documents/`, `fonts/`) into paths under
 * `../assets/`.
 */
module FixPaths {
  import opened Text
  import opened Seqs
  import opened Rewrite
  import opened Files

  const CssHref := Rule(Literal("href=\"css/"), UnderAssets("href=\"", "css", ""))
  const JsSrc := Rule(Literal("src=\"js/"), UnderAssets("src=\"", "js", ""))
  const ImageSrc := Rule(Literal("src=\"images/"), UnderAssets("src=\"", "images", ""))
  const ImageSrcset := Rule(Literal("srcset=\"images/"), UnderAssets("srcset=\"", "images", ""))
  const BackgroundBare := Rule(SpaceGap("background-image:", "url(images/"),
    UnderAssets("background-image: url(", "images", ""))
  const BackgroundSingle := Rule(SpaceGap("background-image:", "url('images/"),
    UnderAssets("background-image: url('", "images", ""))
  const BackgroundDouble := Rule(SpaceGap("background-image:", "url(\"images/"),
    UnderAssets("background-image: url(\"", "images", ""))
  const DocumentHref := Rule(Literal("href=\"documents/"), UnderAssets("href=\"", "", ""))
  const DocumentSrc := Rule(Literal("src=\"documents/"), UnderAssets("src=\"", "", ""))
  const FontBare := Rule(Literal("url(fonts/"), UnderAssets("url(", "fonts", ""))
  const FontSingle := Rule(Literal("url('fonts/"), UnderAssets("url('", "fonts", ""))
  const FontDouble := Rule(Literal("url(\"fonts/"), UnderAssets("url(\"", "fonts", ""))

  /** The rules in the order the script applies them. */
  const Rules: seq<Rule> := [
    CssHref, JsSrc, ImageSrc, ImageSrcset,
    BackgroundBare, BackgroundSingle, BackgroundDouble,
    DocumentHref, DocumentSrc,
    FontBare, FontSingle, FontDouble
  ]

  lemma RulesWellFormed()
    ensures AllWellFormed(Rules)
  {
  }

  /** The text of one page after the script has run on it. */
  function Fix(content: string): string
  {
    RulesWellFormed();
    ApplyRules(Rules, content)
  }

  /** The body of the loop over pages: `content` reassigned once per rule,
      in the script's four groups. */
  method FixContent(content: string) returns (fixed: string)
    ensures fixed == Fix(content)
  {
    RulesWellFormed();
    assert Rules[..0] == [];
    fixed := FixAssetLinks(content, content);
    fixed := FixBackgrounds(content, fixed);
    fixed := FixDocuments(content, fixed);
    fixed := FixFonts(content, fixed);
    assert Rules[..12] == Rules;
  }

  /** The stylesheet, script, image and srcset links. */
  method FixAssetLinks(content: string, before: string) returns (after: string)
    requires before == content
    ensures after == ApplyRules(Rules[..4], content)
  {
    RulesWellFormed();
    assert Rules[..0] == [];
    after := ApplyNext(Rules, 0, content, before);  // CssHref
    after := ApplyNext(Rules, 1, content, after);  // JsSrc
    after := ApplyNext(Rules, 2, content, after);  // ImageSrc
    after := ApplyNext(Rules, 3, content, after);  // ImageSrcset
  }

  /** The three background-image forms. */
  method FixBackgrounds(content: string, before: string) returns (after: string)
    requires before == ApplyRules(Rules[..4], content)
    ensures after == ApplyRules(Rules[..7], content)
  {
    RulesWellFormed();
    after := ApplyNext(Rules, 4, content, before);  // BackgroundBare
    after := ApplyNext(Rules, 5, content, after);  // BackgroundSingle
    after := ApplyNext(Rules, 6, content, after);  // BackgroundDouble
  }

  /** The document links. */
  method FixDocuments(content: string, before: string) returns (after: string)
    requires before == ApplyRules(Rules[..7], content)
    ensures after == ApplyRules(Rules[..9], content)
  {
    RulesWellFormed();
    after := ApplyNext(Rules, 7, content, before);  // DocumentHref
    after := ApplyNext(Rules, 8, content, after);  // DocumentSrc
  }

  /** The three font `url(...)` forms. */
  method FixFonts(content: string, before: string) returns (after: string)
    requires before == ApplyRules(Rules[..9], content)
    ensures after == ApplyRules(Rules[..12], content)
  {
    RulesWellFormed();
    after := ApplyNext(Rules, 9, content, before);  // FontBare
    after := ApplyNext(Rules, 10, content, after);  // FontSingle
    after := ApplyNext(Rules, 11, content, after);  // FontDouble
  }

  /** The whole script: the `.html` files of the directory listing, each
      rewritten, in listing order.  The result is what is written back. */
  method FixPages(listing: seq<SourceFile>) returns (written: seq<SourceFile>)
    ensures var pages := Filter(listing, IsHtmlFile);
      |written| == |pages| &&
      forall i :: 0 <= i < |pages| ==> written[i] == SourceFile(pages[i].name, Fix(pages[i].content))
  {
    var pages := Filter(listing, IsHtmlFile);
    written := [];
    var i := 0;
    while i < |pages|
      invariant 0 <= i <= |pages| && |written| == i
      invariant forall k :: 0 <= k < i ==> written[k] == SourceFile(pages[k].name, Fix(pages[k].content))
    {
      var fixed := FixContent(pages[i].content);
      written := written + [SourceFile(pages[i].name, fixed)];
      i := i + 1;
    }
  }

  // ---------------------------------------------------------------------
  // Properties of the rule chain

  /** A path pattern, with a replacement ending in '/' whose slashes are all
      guarded by a '.' or '/' close before them. */
  predicate GoodRule(r: Rule) {
    PatShape(r.pat) && |r.rep| > 0 && SlashesGuarded(r.rep) && r.rep[|r.rep| - 1] == '/' &&
    (r.pat.SpaceGap? ==> '/' !in r.pat.head)
  }

  /** The literal rules: `stem/` becomes `pre../assets/dir/`, or `pre../assets/`. */
  lemma LiteralRuleGood(stem: string, pre: string, dir: string)
    requires |stem| >= 7 && '/' !in stem && '.' !in stem
    requires '/' !in pre && '/' !in dir && |dir| <= 6
    ensures GoodRule(Rule(Literal(stem + "/"), UnderAssets(pre, dir, "")))
  {
    PathShapeOf(stem);
    AssetsGuarded(pre, dir, "");
  }

  /** The background-image rules: `head\s*stem/` becomes `pre../assets/dir/`. */
  lemma GapRuleGood(head: string, stem: string, pre: string, dir: string)
    requires |head| >= 2 && '/' !in head
    requires |stem| >= 7 && '/' !in stem && '.' !in stem && !IsSpace(stem[0])
    requires '/' !in pre && '/' !in dir && |dir| <= 6
    ensures GoodRule(Rule(SpaceGap(head, stem + "/"), UnderAssets(pre, dir, "")))
  {
    PathShapeOf(stem);
    AssetsGuarded(pre, dir, "");
  }

  // Each rule is an instance of one of the two cases above.
  lemma CssHrefGood() ensures GoodRule(CssHref) { LiteralRuleGood("href=\"css", "href=\"", "css"); }
  lemma JsSrcGood() ensures GoodRule(JsSrc) { LiteralRuleGood("src=\"js", "src=\"", "js"); }
  lemma ImageSrcGood() ensures GoodRule(ImageSrc) { LiteralRuleGood("src=\"images", "src=\"", "images"); }
  lemma ImageSrcsetGood() ensures GoodRule(ImageSrcset) { LiteralRuleGood("srcset=\"images", "srcset=\"", "images"); }
  lemma BackgroundBareGood() ensures GoodRule(BackgroundBare) { GapRuleGood("background-image:", "url(images", "background-image: url(", "images"); }
  lemma BackgroundSingleGood() ensures GoodRule(BackgroundSingle) { GapRuleGood("background-image:", "url('images", "background-image: url('", "images"); }
  lemma BackgroundDoubleGood() ensures GoodRule(BackgroundDouble) { GapRuleGood("background-image:", "url(\"images", "background-image: url(\"", "images"); }
  lemma DocumentHrefGood() ensures GoodRule(DocumentHref) { LiteralRuleGood("href=\"documents", "href=\"", ""); }
  lemma DocumentSrcGood() ensures GoodRule(DocumentSrc) { LiteralRuleGood("src=\"documents", "src=\"", ""); }
  lemma FontBareGood() ensures GoodRule(FontBare) { LiteralRuleGood("url(fonts", "url(", "fonts"); }
  lemma FontSingleGood() ensures GoodRule(FontSingle) { LiteralRuleGood("url('fonts", "url('", "fonts"); }
  lemma FontDoubleGood() ensures GoodRule(FontDouble) { LiteralRuleGood("url(\"fonts", "url(\"", "fonts"); }

  lemma RulesGood(r: Rule)
    requires r in Rules
    ensures GoodRule(r)
  {
    CssHrefGood();
    JsSrcGood();
    ImageSrcGood();
    ImageSrcsetGood();
    BackgroundBareGood();
    BackgroundSingleGood();
    BackgroundDoubleGood();
    DocumentHrefGood();
    DocumentSrcGood();
    FontBareGood();
    FontSingleGood();
    FontDoubleGood();
  }

  /** No replacement can create a match of any pattern. */
  lemma RulesSafe()
    ensures AllWellFormed(Rules)
    ensures forall i, j :: 0 <= i < |Rules| && 0 <= j < |Rules| ==> Safe(Rules[j].pat, Rules[i].rep)
    ensures forall j :: 0 <= j < |Rules| ==> SafeFrom(Rules, j)
  {
    RulesWellFormed();
    forall i, j | 0 <= i < |Rules| && 0 <= j < |Rules| ensures Safe(Rules[j].pat, Rules[i].rep) {
      RulesGood(Rules[i]);
      RulesGood(Rules[j]);
      SlashEndFits(Rules[j].pat, Rules[i].rep);
      FitSafe(Rules[j].pat, Rules[i].rep);
    }
  }

  /** After the chain no pattern occurs, so a second run changes nothing. */
  lemma FixIdempotent(s: string)
    ensures forall j :: 0 <= j < |Rules| ==> !Occurs(Rules[j].pat, Fix(s))
    ensures Fix(Fix(s)) == Fix(s)
  {
    RulesSafe();
    ApplyRulesIdempotent(Rules, s);
  }

  /** A page with no occurrence of any pattern is written back unchanged. */
  lemma FixUnchanged(s: string)
    requires forall j :: 0 <= j < |Rules| ==> !Occurs(Rules[j].pat, s)
    ensures Fix(s) == s
  {
    RulesWellFormed();
    ApplyRulesIdentity(Rules, s);
  }

  /** A literal rule replaces only the prefix it matched; the rest of the path is kept. */
  lemma LiteralRuleKeepsRest(r: Rule, v: string)
    requires r in Rules && r.pat.Literal?
    requires !Occurs(r.pat, v)
    ensures ReplaceAll(r.pat.text + v, r.pat, r.rep) == r.rep + v
  {
    RulesWellFormed();
    LiteralHead(r.pat.text, r.rep, v);
    ReplaceAllIdentity(v, r.pat, r.rep);
  }

  // The replacement texts, written out.
  lemma CssHrefText() ensures CssHref.rep == "href=\"../assets/css/" { }
  lemma BackgroundBareText() ensures BackgroundBare.rep == "background-image: url(../assets/images/" { }
  lemma BackgroundSingleText() ensures BackgroundSingle.rep == "background-image: url('../assets/images/" { }
  lemma BackgroundDoubleText() ensures BackgroundDouble.rep == "background-image: url(\"../assets/images/" { }
  lemma DocumentHrefText() ensures DocumentHref.rep == "href=\"../assets/" { }
  lemma DocumentSrcText() ensures DocumentSrc.rep == "src=\"../assets/" { }

  /** `documents/` is dropped: the document goes straight under `../assets/`. */
  lemma DocumentHrefFlattened(v: string)
    requires !Occurs(DocumentHref.pat, v)
    ensures ReplaceAll("href=\"documents/" + v, DocumentHref.pat, DocumentHref.rep) == "href=\"../assets/" + v
  {
    LiteralRuleKeepsRest(DocumentHref, v);
    DocumentHrefText();
  }

  lemma DocumentSrcFlattened(v: string)
    requires !Occurs(DocumentSrc.pat, v)
    ensures ReplaceAll("src=\"documents/" + v, DocumentSrc.pat, DocumentSrc.rep) == "src=\"../assets/" + v
  {
    LiteralRuleKeepsRest(DocumentSrc, v);
    DocumentSrcText();
  }

  /** The background-image rules accept any run of white space after the
      colon, none included, and write exactly one space. */
  lemma BackgroundBareSpacing(w: string, v: string)
    requires forall i :: 0 <= i < |w| ==> IsSpace(w[i])
    ensures ReplaceAll("background-image:" + w + "url(images/" + v, BackgroundBare.pat, BackgroundBare.rep) ==
      "background-image: url(../assets/images/" + ReplaceAll(v, BackgroundBare.pat, BackgroundBare.rep)
  {
    GapHead("background-image:", "url(images/", BackgroundBare.rep, w, v);
    BackgroundBareText();
  }

  lemma BackgroundSingleSpacing(w: string, v: string)
    requires forall i :: 0 <= i < |w| ==> IsSpace(w[i])
    ensures ReplaceAll("background-image:" + w + "url('images/" + v, BackgroundSingle.pat, BackgroundSingle.rep) ==
      "background-image: url('../assets/images/" + ReplaceAll(v, BackgroundSingle.pat, BackgroundSingle.rep)
  {
    GapHead("background-image:", "url('images/", BackgroundSingle.rep, w, v);
    BackgroundSingleText();
  }

  lemma BackgroundDoubleSpacing(w: string, v: string)
    requires forall i :: 0 <= i < |w| ==> IsSpace(w[i])
    ensures ReplaceAll("background-image:" + w + "url(\"images/" + v, BackgroundDouble.pat, BackgroundDouble.rep) ==
      "background-image: url(\"../assets/images/" + ReplaceAll(v, BackgroundDouble.pat, BackgroundDouble.rep)
  {
    GapHead("background-image:", "url(\"images/", BackgroundDouble.rep, w, v);
    BackgroundDoubleText();
  }

  /** A stylesheet link through the whole chain: only the prefix changes and
      the rest of the path is kept, e.g. `href="css/x.css"` becomes
      `href="../assets/css/x.css"`. */
  lemma CssLinkKeepsPath(v: string)
    requires forall j :: 0 <= j < |Rules| ==> !Occurs(Rules[j].pat, v)
    ensures Fix("href=\"css/" + v) == "href=\"../assets/css/" + v
  {
    RulesSafe();
    var s := "href=\"css/" + v;
    var out := CssHref.rep + v;
    assert Rules[0] == CssHref;
    LiteralRuleKeepsRest(CssHref, v);
    ApplyRulesFirst(Rules, s);
    var rest := Rules[1..];
    forall j | 0 <= j < |rest| ensures !Occurs(rest[j].pat, out) {
      assert rest[j] == Rules[j + 1];
      UseSafe(rest[j].pat, CssHref.rep, [], v);
      assert [] + CssHref.rep + v == out;
    }
    ApplyRulesIdentity(rest, out);
    CssHrefText();
  }

  lemma NoPatternWithoutSlash(v: string)
    requires '/' !in v
    ensures forall j :: 0 <= j < |Rules| ==> !Occurs(Rules[j].pat, v)
  {
    forall j | 0 <= j < |Rules| ensures !Occurs(Rules[j].pat, v) {
      RulesGood(Rules[j]);
      NoSlashNoOccurrence(Rules[j].pat, v);
    }
  }

  lemma CssLinkExample()
    ensures Fix("href=\"css/x.css\"") == "href=\"../assets/css/x.css\""
  {
    var v := "x.css\"";
    NoPatternWithoutSlash(v);
    CssLinkKeepsPath(v);
    assert "href=\"css/" + v == "href=\"css/x.css\"";
    assert "href=\"../assets/css/" + v == "href=\"../assets/css/x.css\"";
  }
}
