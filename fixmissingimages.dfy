/**
 * scripts/fix-missing-images.js: a second pass over every page under
 * src/pages, seven global replacements in order.  The icon links, any
 * `src="images/` or `srcset="images/` left over, two slide file names and
 * the `, images/` entries of srcset lists are moved under `../assets/`.
 * The slide rules match the bare `images/slide-...` text, so they also hit
 * paths the `src` rule has just rewritten: such a path is prefixed twice.
 */
module FixMissingImages {
  import opened Text
  import opened Seqs
  import opened Rewrite
  import opened Files

  /** The two slide images named in the script. */
  const Slide1Name := "slide-3_1slide-3.webp"
  const Slide2Name := "slide-3_2slide-3.webp"

  /** The start of the two icon links. */
  const ImagesHref := "href=\"images/"

  const Favicon := Rule(Literal(ImagesHref + "favicon.svg\""), UnderAssets("href=\"", "images", "favicon.svg\""))
  const Webclip := Rule(Literal(ImagesHref + "webclip.svg\""), UnderAssets("href=\"", "images", "webclip.svg\""))
  const Srcset := Rule(Literal("srcset=\"images/"), UnderAssets("srcset=\"", "images", ""))
  const Src := Rule(Literal("src=\"images/"), UnderAssets("src=\"", "images", ""))
  const Slide1 := Rule(Literal("images/" + Slide1Name), UnderAssets("", "images", Slide1Name))
  const Slide2 := Rule(Literal("images/" + Slide2Name), UnderAssets("", "images", Slide2Name))
  const ListEntry := Rule(Literal(", images/"), UnderAssets(", ", "images", ""))

  /** The rules in the order the script applies them. */
  const Rules: seq<Rule> := [Favicon, Webclip, Srcset, Src, Slide1, Slide2, ListEntry]

  lemma RulesWellFormed()
    ensures AllWellFormed(Rules)
  {
  }

  /** The text of one page after the script has run on it. */
  function Fix(content: string): string
  {
    RulesWellFormed();
    ApplyRules(Rules, content)
  }

  /** The body of the loop over pages: `content` reassigned once per rule. */
  method FixContent(content: string) returns (fixed: string)
    ensures fixed == Fix(content)
  {
    RulesWellFormed();
    fixed := content;
    assert Rules[..0] == [];
    fixed := ApplyNext(Rules, 0, content, fixed);  // Favicon
    fixed := ApplyNext(Rules, 1, content, fixed);  // Webclip
    fixed := ApplyNext(Rules, 2, content, fixed);  // Srcset
    fixed := ApplyNext(Rules, 3, content, fixed);  // Src
    fixed := ApplyNext(Rules, 4, content, fixed);  // Slide1
    fixed := ApplyNext(Rules, 5, content, fixed);  // Slide2
    fixed := ApplyNext(Rules, 6, content, fixed);  // ListEntry
    assert Rules[..7] == Rules;
  }

  /** The whole script: the `.html` files of the directory listing, each
      rewritten, in listing order.  The result is what is written back. */
  method FixPages(listing: seq<SourceFile>) returns (written: seq<SourceFile>)
    ensures var pages := Filter(listing, IsHtmlFile);
      |written| == |pages| &&
      forall i :: 0 <= i < |pages| ==> written[i] == SourceFile(pages[i].name, Fix(pages[i].content))
  {
    var pages := Filter(listing, IsHtmlFile);
    written := [];
    var i := 0;
    while i < |pages|
      invariant 0 <= i <= |pages| && |written| == i
      invariant forall k :: 0 <= k < i ==> written[k] == SourceFile(pages[k].name, Fix(pages[k].content))
    {
      var fixed := FixContent(pages[i].content);
      written := written + [SourceFile(pages[i].name, fixed)];
      i := i + 1;
    }
  }

  // ---------------------------------------------------------------------
  // The icon rules match only the exact link

  /** A literal rule whose text is `pre + name`, where the first character of
      `pre` does not recur in it, leaves `pre + v` alone unless `v` starts
      with `name`. */
  lemma OnlyExact(pre: string, name: string, rep: string, v: string)
    requires |pre| >= 2 && pre[0] !in pre[1..]
    requires !(name <= v)
    requires !Occurs(Literal(pre + name), v)
    ensures ReplaceAll(pre + v, Literal(pre + name), rep) == pre + v
  {
    var p := Literal(pre + name);
    var s := pre + v;
    if pre + name <= s {
      PrefixCancel(pre, name, v);
      assert false;
    }
    CopyStep(s, p, rep);
    assert s[1..] == pre[1..] + v;
    ReplaceAllSkipText(pre[1..], v, p, rep);
    ReplaceAllIdentity(v, p, rep);
    assert [s[0]] + pre[1..] == pre;
  }

  lemma PrefixCancel(pre: string, name: string, v: string)
    requires pre + name <= pre + v
    ensures name <= v
  {
    assert name == (pre + name)[|pre|..];
    assert (pre + v)[|pre|..] == v;
  }

  lemma HrefOnce() ensures "href=\"images/"[0] !in "href=\"images/"[1..] { }

  /** Any other `href="images/...` is left as it is by the favicon rule ... */
  lemma FaviconOnlyExact(v: string)
    requires !("favicon.svg\"" <= v) && !Occurs(Favicon.pat, v)
    ensures ReplaceAll("href=\"images/" + v, Favicon.pat, Favicon.rep) == "href=\"images/" + v
  {
    HrefOnce();
    OnlyExact("href=\"images/", "favicon.svg\"", Favicon.rep, v);
  }

  /** ... and by the webclip rule. */
  lemma WebclipOnlyExact(v: string)
    requires !("webclip.svg\"" <= v) && !Occurs(Webclip.pat, v)
    ensures ReplaceAll("href=\"images/" + v, Webclip.pat, Webclip.rep) == "href=\"images/" + v
  {
    HrefOnce();
    OnlyExact("href=\"images/", "webclip.svg\"", Webclip.rep, v);
  }

  lemma FaviconText()
    ensures Favicon.rep == "href=\"../assets/images/favicon.svg\""
  {
  }

  /** The favicon link itself is rewritten. */
  lemma FaviconMoved(v: string)
    requires !Occurs(Favicon.pat, v)
    ensures ReplaceAll(Favicon.pat.text + v, Favicon.pat, Favicon.rep) == Favicon.rep + v
    ensures Favicon.rep == "href=\"../assets/images/favicon.svg\""
  {
    LiteralHead(Favicon.pat.text, Favicon.rep, v);
    ReplaceAllIdentity(v, Favicon.pat, Favicon.rep);
    FaviconText();
  }

  // ---------------------------------------------------------------------
  // The path rules leave no match behind

  /** A replacement ending in '/' or 'p' whose slashes are all guarded. */
  predicate LaterRep(r: string) {
    |r| > 0 && SlashesGuarded(r) && (r[|r| - 1] == '/' || r[|r| - 1] == 'p')
  }

  /** A path pattern without the letter 'p'. */
  predicate PathPattern(q: Pattern) {
    PatShape(q) && q.Literal? && 'p' !in q.text
  }

  lemma SrcsetShape() ensures PathPattern(Srcset.pat) { PathShapeOf("srcset=\"images"); }
  lemma SrcShape() ensures PathPattern(Src.pat) { PathShapeOf("src=\"images"); }
  lemma ListEntryShape() ensures PathPattern(ListEntry.pat) { PathShapeOf(", images"); }

  lemma SlideRep(name: string)
    requires |name| > 0 && name[|name| - 1] == 'p' && '/' !in name
    ensures LaterRep(UnderAssets("", "images", name))
  {
    AssetsGuarded("", "images", name);
    var r := UnderAssets("", "images", name);
    assert r[|r| - 1] == r[|r| - |name|..][|name| - 1];
  }

  lemma SrcsetRep() ensures LaterRep(Srcset.rep) { AssetsGuarded("srcset=\"", "images", ""); }
  lemma SrcRep() ensures LaterRep(Src.rep) { AssetsGuarded("src=\"", "images", ""); }
  lemma Slide1Rep() ensures LaterRep(Slide1.rep) { SlideRep(Slide1Name); }
  lemma Slide2Rep() ensures LaterRep(Slide2.rep) { SlideRep(Slide2Name); }
  lemma ListEntryRep() ensures LaterRep(ListEntry.rep) { AssetsGuarded(", ", "images", ""); }

  /** None of the replacements from the srcset rule on can create a match of
      the srcset, src or list-entry pattern. */
  lemma LaterSafe(q: Pattern, r: Rule)
    requires q == Srcset.pat || q == Src.pat || q == ListEntry.pat
    requires r in Rules[2..]
    ensures Safe(q, r.rep)
  {
    SrcsetShape();
    SrcShape();
    ListEntryShape();
    assert Rules[2..] == [Srcset, Src, Slide1, Slide2, ListEntry];
    SrcsetRep();
    SrcRep();
    Slide1Rep();
    Slide2Rep();
    ListEntryRep();
    assert RepFits(q, r.rep);
    FitSafe(q, r.rep);
  }

  lemma LaterSafeFrom(j: nat)
    requires j == 2 || j == 3 || j == 6
    ensures SafeFrom(Rules, j)
  {
    forall i | j <= i < |Rules| ensures Safe(Rules[j].pat, Rules[i].rep) {
      assert Rules[i] in Rules[2..] by { assert Rules[i] == Rules[2..][i - 2]; }
      LaterSafe(Rules[j].pat, Rules[i]);
    }
  }

  /** After the script, no `srcset="images/`, `src="images/` or `, images/`
      is left anywhere on the page. */
  lemma PathPrefixesGone(s: string)
    ensures !Occurs(Srcset.pat, Fix(s))
    ensures !Occurs(Src.pat, Fix(s))
    ensures !Occurs(ListEntry.pat, Fix(s))
  {
    RulesWellFormed();
    LaterSafeFrom(2);
    LaterSafeFrom(3);
    LaterSafeFrom(6);
    GoneAfter(Rules, 2, s);
    GoneAfter(Rules, 3, s);
    GoneAfter(Rules, 6, s);
  }

  lemma SrcsetText() ensures Srcset.rep == "srcset=\"../assets/images/" { }
  lemma SrcText() ensures Src.rep == "src=\"../assets/images/" { }
  lemma ListEntryText() ensures ListEntry.rep == ", ../assets/images/" { }

  /** Each of these rules puts `../assets/` before `images/` and resumes the
      scan right after the matched prefix. */
  lemma SrcsetMoved(v: string)
    ensures ReplaceAll("srcset=\"images/" + v, Srcset.pat, Srcset.rep) ==
      "srcset=\"../assets/images/" + ReplaceAll(v, Srcset.pat, Srcset.rep)
  {
    LiteralHead("srcset=\"images/", Srcset.rep, v);
    SrcsetText();
  }

  lemma SrcMoved(v: string)
    ensures ReplaceAll("src=\"images/" + v, Src.pat, Src.rep) ==
      "src=\"../assets/images/" + ReplaceAll(v, Src.pat, Src.rep)
  {
    LiteralHead("src=\"images/", Src.rep, v);
    SrcText();
  }

  lemma ListEntryMoved(v: string)
    ensures ReplaceAll(", images/" + v, ListEntry.pat, ListEntry.rep) ==
      ", ../assets/images/" + ReplaceAll(v, ListEntry.pat, ListEntry.rep)
  {
    LiteralHead(", images/", ListEntry.rep, v);
    ListEntryText();
  }

  /** A page with no occurrence of any pattern is written back unchanged. */
  lemma FixUnchanged(s: string)
    requires forall j :: 0 <= j < |Rules| ==> !Occurs(Rules[j].pat, s)
    ensures Fix(s) == s
  {
    RulesWellFormed();
    ApplyRulesIdentity(Rules, s);
  }

  // ---------------------------------------------------------------------
  // The slide images are prefixed once more on every run

  /** `k` copies of `s`. */
  function Repeat(s: string, k: nat): (r: string)
    ensures |r| == k * |s|
    ensures forall c :: c in r ==> c in s
  {
    if k == 0 then [] else Repeat(s, k - 1) + s
  }

  /** A rule is skipped when the text lacks one of its pattern's characters. */
  lemma Skips(r: Rule, s: string, c: char)
    requires r.pat.Literal? && |r.pat.text| >= 2 && c in r.pat.text && c !in s
    ensures ReplaceAll(s, r.pat, r.rep) == s
  {
    NoOccurrenceWithout(r.pat, s, c);
    ReplaceAllIdentity(s, r.pat, r.rep);
  }

  // A character each pattern needs.
  lemma FaviconNeeds() ensures 'h' in Favicon.pat.text { assert Favicon.pat.text[0] == 'h'; }
  lemma WebclipNeeds() ensures 'h' in Webclip.pat.text { assert Webclip.pat.text[0] == 'h'; }
  lemma SrcsetNeeds() ensures '"' in Srcset.pat.text { assert Srcset.pat.text[7] == '"'; }
  lemma SrcNeeds() ensures '"' in Src.pat.text { assert Src.pat.text[4] == '"'; }
  lemma Slide1Needs() ensures '1' in Slide1.pat.text { assert Slide1.pat.text[15] == '1'; }
  lemma Slide2Needs() ensures '2' in Slide2.pat.text { assert Slide2.pat.text[15] == '2'; }
  lemma ListEntryNeeds() ensures ',' in ListEntry.pat.text { assert ListEntry.pat.text[0] == ','; }

  lemma RulesListed()
    ensures Rules[0] == Favicon && Rules[1] == Webclip && Rules[2] == Srcset && Rules[3] == Src
    ensures Rules[4] == Slide1 && Rules[5] == Slide2 && Rules[6] == ListEntry
  {
  }

  /** The last three rules, which the slide names meet. */
  function SlidePass(x: string): string
  {
    ReplaceAll(ReplaceAll(ReplaceAll(x, Slide1.pat, Slide1.rep), Slide2.pat, Slide2.rep), ListEntry.pat, ListEntry.rep)
  }

  /** The first four rules: the icon links, then the srcset and src prefixes. */
  function HeadPass(x: string): string
  {
    ReplaceAll(ReplaceAll(ReplaceAll(ReplaceAll(x, Favicon.pat, Favicon.rep), Webclip.pat, Webclip.rep),
      Srcset.pat, Srcset.rep), Src.pat, Src.rep)
  }

  /** The script as the two passes. */
  lemma FixUnfold(t: string)
    ensures Fix(t) == SlidePass(HeadPass(t))
  {
    RulesWellFormed();
    HeadUnfold(t);
    RulesListed();
    ApplyRulesSnoc(Rules, 4, t);
    ApplyRulesSnoc(Rules, 5, t);
    ApplyRulesSnoc(Rules, 6, t);
    assert Rules[..7] == Rules;
  }

  /** The first four rules as the first pass. */
  lemma HeadUnfold(t: string)
    ensures AllWellFormed(Rules[..4]) && ApplyRules(Rules[..4], t) == HeadPass(t)
  {
    RulesWellFormed();
    RulesListed();
    assert ApplyRules(Rules[..0], t) == t;
    ApplyRulesSnoc(Rules, 0, t);
    ApplyRulesSnoc(Rules, 1, t);
    ApplyRulesSnoc(Rules, 2, t);
    ApplyRulesSnoc(Rules, 3, t);
  }

  /** Text without 'h' and '"' passes the first four rules unchanged. */
  lemma HeadSkip(t: string)
    requires 'h' !in t && '"' !in t
    ensures Fix(t) == SlidePass(t)
  {
    FixUnfold(t);
    FaviconNeeds();
    Skips(Favicon, t, 'h');
    WebclipNeeds();
    Skips(Webclip, t, 'h');
    SrcsetNeeds();
    Skips(Srcset, t, '"');
    SrcNeeds();
    Skips(Src, t, '"');
  }

  /** A slide rule rewrites its name at the end of text in which no 'i' comes before it. */
  lemma SlideStep(a: string, r: Rule)
    requires r == Slide1 || r == Slide2
    requires 'i' !in a
    ensures ReplaceAll(a + r.pat.text, r.pat, r.rep) == a + r.rep
  {
    assert First(r.pat) == 'i';
    ReplaceAllSkipText(a, r.pat.text, r.pat, r.rep);
    assert r.pat.text + [] == r.pat.text;
    LiteralHead(r.pat.text, r.rep, []);
  }

  lemma Slide1Text() ensures Slide1.rep == "../assets/" + Slide1.pat.text { }
  lemma Slide2Text() ensures Slide2.rep == "../assets/" + Slide2.pat.text { }

  /** Characters the slide paths do not contain. */
  lemma Slide1Lacks(c: char)
    requires c == 'h' || c == '"' || c == '2' || c == ','
    ensures c !in Slide1.pat.text
  {
    assert c !in "images/";
    assert c !in Slide1Name;
  }

  lemma Slide2Lacks(c: char)
    requires c == 'h' || c == '"' || c == '1' || c == ','
    ensures c !in Slide2.pat.text
  {
    assert c !in "images/";
    assert c !in Slide2Name;
  }

  lemma AssetsLack(k: nat)
    ensures var a := Repeat("../assets/", k);
      'h' !in a && '"' !in a && 'i' !in a && '1' !in a && '2' !in a && ',' !in a
  {
  }

  lemma AssetsTextLacks()
    ensures '1' !in "../assets/" && '2' !in "../assets/" && ',' !in "../assets/"
  {
  }

  /** A slide path behind text without 'i', through the last three rules. */
  lemma Slide1Pass(a: string)
    requires 'i' !in a && '2' !in a && ',' !in a
    ensures SlidePass(a + Slide1.pat.text) == a + Slide1.rep
  {
    SlideStep(a, Slide1);
    Slide1Text();
    AssetsTextLacks();
    Slide1Lacks('2');
    Slide1Lacks(',');
    Slide2Needs();
    Skips(Slide2, a + Slide1.rep, '2');
    ListEntryNeeds();
    Skips(ListEntry, a + Slide1.rep, ',');
  }

  lemma Slide2Pass(a: string)
    requires 'i' !in a && '1' !in a && ',' !in a
    ensures SlidePass(a + Slide2.pat.text) == a + Slide2.rep
  {
    Slide2Text();
    AssetsTextLacks();
    Slide2Lacks('1');
    Slide2Lacks(',');
    Slide1Needs();
    Skips(Slide1, a + Slide2.pat.text, '1');
    SlideStep(a, Slide2);
    ListEntryNeeds();
    Skips(ListEntry, a + Slide2.rep, ',');
  }

  /** The first slide path behind `k` copies of `../assets/` comes out behind
      `k + 1` of them. */
  lemma Slide1Grows(k: nat)
    ensures Fix(Repeat("../assets/", k) + Slide1.pat.text) == Repeat("../assets/", k + 1) + Slide1.pat.text
  {
    var a := Repeat("../assets/", k);
    AssetsLack(k);
    Slide1Lacks('h');
    Slide1Lacks('"');
    HeadSkip(a + Slide1.pat.text);
    Slide1Pass(a);
    Slide1Text();
  }

  /** The same for the second slide path. */
  lemma Slide2Grows(k: nat)
    ensures Fix(Repeat("../assets/", k) + Slide2.pat.text) == Repeat("../assets/", k + 1) + Slide2.pat.text
  {
    var a := Repeat("../assets/", k);
    AssetsLack(k);
    Slide2Lacks('h');
    Slide2Lacks('"');
    HeadSkip(a + Slide2.pat.text);
    Slide2Pass(a);
    Slide2Text();
  }

  /** Running the script again is not a no-op: each run adds a `../assets/`. */
  lemma NotIdempotent()
    ensures Fix(Fix(Slide1.pat.text)) != Fix(Slide1.pat.text)
    ensures Fix(Fix(Slide2.pat.text)) != Fix(Slide2.pat.text)
  {
    Slide1Grows(0);
    Slide1Grows(1);
    Slide2Grows(0);
    Slide2Grows(1);
    assert Repeat("../assets/", 0) + Slide1.pat.text == Slide1.pat.text;
    assert Repeat("../assets/", 0) + Slide2.pat.text == Slide2.pat.text;
  }

  // The src rule, then a slide rule, on one attribute

  lemma SrcsetNeedsT() ensures 't' in Srcset.pat.text { assert Srcset.pat.text[5] == 't'; }
  lemma Slide1LacksT() ensures 't' !in Slide1.pat.text && '/' !in Slide1Name { }
  lemma QuotedSlide1Split()
    ensures "src=\"" + Slide1.pat.text + "\"" == Src.pat.text + (Slide1Name + "\"")
  {
  }
  lemma SrcRepSplit() ensures "src=\"../assets/images/" == "src=\"../assets/" + "images/" { }
  lemma Regroup(a: string, b: string, c: string, d: string)
    ensures (a + b) + (c + d) == a + ((b + c) + d)
  {
  }

  lemma MovedSlide1Split()
    ensures Src.rep + (Slide1Name + "\"") == "src=\"../assets/" + (Slide1.pat.text + "\"")
  {
    SrcText();
    SrcRepSplit();
    Regroup("src=\"../assets/", "images/", Slide1Name, "\"");
  }
  lemma SrcNeedsSlash() ensures '/' in Src.pat.text { assert Src.pat.text[11] == '/'; }
  lemma Slide1NeedsSlash() ensures '/' in Slide1.pat.text { assert Slide1.pat.text[6] == '/'; }
  lemma SrcAssetsLacks() ensures 'i' !in "src=\"../assets/" && '2' !in "src=\"../assets/" && ',' !in "src=\"../assets/" { }

  /** Text without 'h' and 't' passes the icon rules and the srcset rule unchanged. */
  lemma FirstThreeSkip(t: string)
    requires 'h' !in t && 't' !in t
    ensures ReplaceAll(ReplaceAll(ReplaceAll(t, Favicon.pat, Favicon.rep), Webclip.pat, Webclip.rep),
      Srcset.pat, Srcset.rep) == t
  {
    FaviconNeeds();
    Skips(Favicon, t, 'h');
    WebclipNeeds();
    Skips(Webclip, t, 'h');
    SrcsetNeedsT();
    Skips(Srcset, t, 't');
  }

  lemma QuotedSlide1Lacks()
    ensures 'h' !in "src=\"" + Slide1.pat.text + "\"" && 't' !in "src=\"" + Slide1.pat.text + "\""
  {
    Slide1Lacks('h');
    Slide1LacksT();
  }

  /** The first four rules on `src="images/slide-3_1slide-3.webp"`: only the src rule fires. */
  lemma QuotedSlide1Head()
    ensures HeadPass("src=\"" + Slide1.pat.text + "\"") == "src=\"../assets/" + (Slide1.pat.text + "\"")
  {
    var t := "src=\"" + Slide1.pat.text + "\"";
    var v := Slide1Name + "\"";
    QuotedSlide1Lacks();
    FirstThreeSkip(t);
    QuotedSlide1Split();
    LiteralHead(Src.pat.text, Src.rep, v);
    Slide1LacksT();
    SrcNeedsSlash();
    Skips(Src, v, '/');
    MovedSlide1Split();
  }

  /** The slide rule on the path the src rule produced. */
  lemma QuotedSlide1Step()
    ensures ReplaceAll("src=\"../assets/" + (Slide1.pat.text + "\""), Slide1.pat, Slide1.rep) ==
      "src=\"../assets/" + (Slide1.rep + "\"")
  {
    var w := "src=\"../assets/";
    SrcAssetsLacks();
    assert First(Slide1.pat) == 'i';
    ReplaceAllSkipText(w, Slide1.pat.text + "\"", Slide1.pat, Slide1.rep);
    LiteralHead(Slide1.pat.text, Slide1.rep, "\"");
    Slide1NeedsSlash();
    Skips(Slide1, "\"", '/');
  }

  lemma DoubledLacks()
    ensures '2' !in "src=\"../assets/" + (Slide1.rep + "\"") && ',' !in "src=\"../assets/" + (Slide1.rep + "\"")
  {
    Slide1Text();
    AssetsTextLacks();
    SrcAssetsLacks();
    Slide1Lacks('2');
    Slide1Lacks(',');
  }

  /** ... after which the last two rules find nothing. */
  lemma QuotedSlide1Tail()
    ensures SlidePass("src=\"../assets/" + (Slide1.pat.text + "\"")) == "src=\"../assets/" + (Slide1.rep + "\"")
  {
    QuotedSlide1Step();
    var u := "src=\"../assets/" + (Slide1.rep + "\"");
    DoubledLacks();
    Slide2Needs();
    Skips(Slide2, u, '2');
    ListEntryNeeds();
    Skips(ListEntry, u, ',');
  }

  /** Because the slide rule runs after the src rule and matches the bare
      path, a slide image in a `src` attribute is prefixed twice. */
  lemma SrcSlideDoubled()
    ensures Fix("src=\"" + Slide1.pat.text + "\"") == "src=\"../assets/" + (Slide1.rep + "\"")
  {
    FixUnfold("src=\"" + Slide1.pat.text + "\"");
    QuotedSlide1Head();
    QuotedSlide1Tail();
  }

  /** The same, with the replacement written out: the path ends up behind
      two copies of `../assets/`. */
  lemma SrcSlideDoubledTwice()
    ensures Fix("src=\"" + Slide1.pat.text + "\"") == "src=\"../assets/" + "../assets/" + Slide1.pat.text + "\""
  {
    SrcSlideDoubled();
    Slide1Text();
  }
}
