/**
 * scripts/import-webflow.js: the export's file names are sorted into five
 * kinds by their ending, each kind is copied to its own folder, and then
 * the copied pages and stylesheets have their asset references rewritten,
 * the pages by four capture rules and the stylesheets by two.
 */
module ImportWebflow {
  import opened Text
  import opened Seqs
  import opened Capture
  import opened Files

  // ---------------------------------------------------------------------
  // Sorting the export by file ending

  datatype Kind = Html | Css | Js | Image | Font

  const ImageExts: seq<string> := [".jpg", ".jpeg", ".png", ".gif", ".svg", ".webp"]
  const FontExts: seq<string> := [".woff", ".woff2", ".ttf", ".otf", ".eot"]

  /** The five filters: `endsWith` for pages, stylesheets and scripts
      (case-sensitive), a case-insensitive `\.(...)$` test for images and fonts. */
  predicate IsKind(k: Kind, name: string) {
    match k
    case Html => EndsWith(name, ".html", false)
    case Css => EndsWith(name, ".css", false)
    case Js => EndsWith(name, ".js", false)
    case Image => EndsWithAny(name, ImageExts, true)
    case Font => EndsWithAny(name, FontExts, true)
  }

  /** The files of one kind, in listing order. */
  function Listed(files: seq<string>, k: Kind): (r: seq<string>)
    ensures |r| <= |files|
    ensures forall f :: f in r <==> f in files && IsKind(k, f)
  {
    Filter(files, f => IsKind(k, f))
  }

  /** The last two characters, lower-cased. */
  function Ending(name: string): string
    requires |name| >= 2
  {
    [LowerChar(name[|name| - 2]), LowerChar(name[|name| - 1])]
  }

  /** The endings each kind can have. */
  function Endings(k: Kind): set<string> {
    match k
    case Html => {"ml"}
    case Css => {"ss"}
    case Js => {"js"}
    case Image => {"pg", "eg", "ng", "if", "vg", "bp"}
    case Font => {"ff", "f2", "tf", "ot"}
  }

  /** A name ending in `e` (exactly, or under case folding) ends in `e`'s last
      two characters, lower-cased. */
  lemma EndingOf(name: string, e: string, fold: bool)
    requires |e| >= 2 && EndsWith(name, e, fold)
    ensures |name| >= 2 && Ending(name) == [LowerChar(e[|e| - 2]), LowerChar(e[|e| - 1])]
  {
    assert SameChar(name[|name| - 2], e[|e| - 2], fold);
    assert SameChar(name[|name| - 1], e[|e| - 1], fold);
  }

  lemma ImageEnding(name: string)
    requires IsKind(Image, name)
    ensures |name| >= 2 && Ending(name) in Endings(Image)
  {
    var j :| 0 <= j < |ImageExts| && EndsWith(name, ImageExts[j], true);
    EndingOf(name, ImageExts[j], true);
  }

  lemma FontEnding(name: string)
    requires IsKind(Font, name)
    ensures |name| >= 2 && Ending(name) in Endings(Font)
  {
    var j :| 0 <= j < |FontExts| && EndsWith(name, FontExts[j], true);
    EndingOf(name, FontExts[j], true);
  }

  lemma KindEnding(k: Kind, name: string)
    requires IsKind(k, name)
    ensures |name| >= 2 && Ending(name) in Endings(k)
  {
    match k
    case Html => EndingOf(name, ".html", false);
    case Css => EndingOf(name, ".css", false);
    case Js => EndingOf(name, ".js", false);
    case Image => ImageEnding(name);
    case Font => FontEnding(name);
  }

  /** No name is of two kinds, so no file is copied twice. */
  lemma KindsDisjoint(name: string, k1: Kind, k2: Kind)
    requires IsKind(k1, name) && IsKind(k2, name)
    ensures k1 == k2
  {
    KindEnding(k1, name);
    KindEnding(k2, name);
  }

  /** A mismatch at one position of the ending. */
  lemma NotEndsWith(s: string, p: string, ci: bool, i: nat)
    requires i < |p| <= |s| && !SameChar(s[|s| - |p| + i], p[i], ci)
    ensures !EndsWith(s, p, ci)
  {
  }

  /** Only images and fonts ignore case. */
  lemma KindCases()
    ensures IsKind(Image, "logo.PNG") && IsKind(Font, "icons.WOFF2")
    ensures !IsKind(Html, "index.HTML") && !IsKind(Css, "site.CSS") && !IsKind(Js, "app.JS")
  {
    assert EndsWith("logo.PNG", ImageExts[2], true);
    assert EndsWith("icons.WOFF2", FontExts[1], true);
    NotEndsWith("index.HTML", ".html", false, 4);
    NotEndsWith("site.CSS", ".css", false, 3);
    NotEndsWith("app.JS", ".js", false, 2);
  }

  /** Each list keeps the listing order: it distributes over concatenation. */
  lemma ListedConcat(a: seq<string>, b: seq<string>, k: Kind)
    ensures Listed(a + b, k) == Listed(a, k) + Listed(b, k)
  {
    FilterConcat(a, b, f => IsKind(k, f));
  }

  // ---------------------------------------------------------------------
  // Where each kind is copied

  /** The destination folder of each kind, as `path.join` writes it. */
  function Folder(k: Kind): string {
    match k
    case Html => "src/pages"
    case Css => "src/assets/css"
    case Js => "src/assets/js"
    case Image => "src/assets/images"
    case Font => "src/assets/fonts"
  }

  /** `path.join(folder, file)` for a plain file name. */
  function Target(k: Kind, file: string): string {
    Folder(k) + "/" + file
  }

  lemma FolderInjective(k1: Kind, k2: Kind)
    requires Folder(k1) == Folder(k2)
    ensures k1 == k2
  {
  }

  /** Distinct copies never share a destination. */
  lemma TargetsDistinct(k1: Kind, f1: string, k2: Kind, f2: string)
    requires '/' !in f1 && '/' !in f2 && Target(k1, f1) == Target(k2, f2)
    ensures k1 == k2 && f1 == f2
  {
    var t := Target(k1, f1);
    LastSegmentAfter(Folder(k1), f1, '/');
    LastSegmentAfter(Folder(k2), f2, '/');
    assert Folder(k1) == t[..|Folder(k1)|];
    assert Folder(k2) == t[..|Folder(k2)|];
    FolderInjective(k1, k2);
  }

  /** One copy: the file and where it goes. */
  datatype Copy = Copy(file: string, target: string)

  /** The copies of one kind, in listing order. */
  function Copies(files: seq<string>, k: Kind): (r: seq<Copy>)
    ensures |r| == |Listed(files, k)|
    ensures forall i :: 0 <= i < |r| ==> r[i].file == Listed(files, k)[i] && r[i].target == Target(k, r[i].file)
  {
    var fs := Listed(files, k);
    seq(|fs|, i requires 0 <= i < |fs| => Copy(fs[i], Target(k, fs[i])))
  }

  /** All copies: pages, stylesheets, scripts, images, then fonts. */
  function CopyPlan(files: seq<string>): seq<Copy> {
    Copies(files, Html) + Copies(files, Css) + Copies(files, Js) + Copies(files, Image) + Copies(files, Font)
  }

  /** Every copy takes a listed file of some kind to that kind's folder. */
  lemma PlanSound(files: seq<string>, c: Copy)
    requires c in CopyPlan(files)
    ensures c.file in files
    ensures exists k :: IsKind(k, c.file) && c.target == Target(k, c.file)
  {
    var i :| 0 <= i < |CopyPlan(files)| && CopyPlan(files)[i] == c;
    var kinds := [Html, Css, Js, Image, Font];
    var k: Kind;
    if c in Copies(files, Html) { k := Html; }
    else if c in Copies(files, Css) { k := Css; }
    else if c in Copies(files, Js) { k := Js; }
    else if c in Copies(files, Image) { k := Image; }
    else { k := Font; }
    var j :| 0 <= j < |Copies(files, k)| && Copies(files, k)[j] == c;
    assert c.file in Listed(files, k);
  }

  /** Every listed file of a kind is copied to that kind's folder. */
  lemma PlanComplete(files: seq<string>, f: string, k: Kind)
    requires f in files && IsKind(k, f)
    ensures Copy(f, Target(k, f)) in CopyPlan(files)
  {
    var fs := Listed(files, k);
    var i :| 0 <= i < |fs| && fs[i] == f;
    assert Copies(files, k)[i] == Copy(f, Target(k, f));
  }

  /** How many kinds a name has: at most one. */
  function KindCount(name: string): (n: nat)
    ensures n <= 1
    ensures n == 1 <==> exists k :: IsKind(k, name)
  {
    if IsKind(Html, name) then KindCountOne(name, Html); 1
    else if IsKind(Css, name) then KindCountOne(name, Css); 1
    else if IsKind(Js, name) then KindCountOne(name, Js); 1
    else if IsKind(Image, name) then KindCountOne(name, Image); 1
    else if IsKind(Font, name) then KindCountOne(name, Font); 1
    else 0
  }

  lemma KindCountOne(name: string, k: Kind)
    requires IsKind(k, name)
    ensures exists k' :: IsKind(k', name)
  {
  }

  predicate HasKind(name: string) {
    exists k :: IsKind(k, name)
  }

  /** One copy per classified file, and none for anything else. */
  lemma {:induction false} PlanSize(files: seq<string>)
    ensures |CopyPlan(files)| == |Filter(files, HasKind)|
    decreases |files|
  {
    if files != [] {
      var x, rest := files[0], files[1..];
      assert files == [x] + rest;
      PlanSize(rest);
      PlanSizeStep(x, rest);
    }
  }

  lemma PlanSizeStep(x: string, rest: seq<string>)
    requires |CopyPlan(rest)| == |Filter(rest, HasKind)|
    ensures |CopyPlan([x] + rest)| == |Filter([x] + rest, HasKind)|
  {
    FilterConcat([x], rest, HasKind);
    FilterSingle(x, HasKind);
    CopiesStep(x, rest, Html);
    CopiesStep(x, rest, Css);
    CopiesStep(x, rest, Js);
    CopiesStep(x, rest, Image);
    CopiesStep(x, rest, Font);
    OneKindAtMost(x);
  }

  lemma CopiesStep(x: string, rest: seq<string>, k: Kind)
    ensures |Copies([x] + rest, k)| == (if IsKind(k, x) then 1 else 0) + |Copies(rest, k)|
  {
    ListedConcat([x], rest, k);
    FilterSingle(x, f => IsKind(k, f));
  }

  /** The five single-name lists hold the name once if it has a kind, and not at all otherwise. */
  lemma OneKindAtMost(x: string)
    ensures (if IsKind(Html, x) then 1 else 0) + (if IsKind(Css, x) then 1 else 0) +
      (if IsKind(Js, x) then 1 else 0) + (if IsKind(Image, x) then 1 else 0) +
      (if IsKind(Font, x) then 1 else 0) == if HasKind(x) then 1 else 0
  {
    var n := KindCount(x);
    forall k1, k2 | IsKind(k1, x) && IsKind(k2, x) ensures k1 == k2 {
      KindsDisjoint(x, k1, k2);
    }
  }

  /** The five `forEach` copy loops, as the list of copies they make. */
  method PlanCopies(files: seq<string>) returns (plan: seq<Copy>)
    ensures plan == CopyPlan(files)
  {
    plan := [];
    plan := AddCopies(plan, files, Html);
    plan := AddCopies(plan, files, Css);
    plan := AddCopies(plan, files, Js);
    plan := AddCopies(plan, files, Image);
    plan := AddCopies(plan, files, Font);
  }

  /** One copy loop: every file of the kind, in order, to the kind's folder. */
  method AddCopies(plan: seq<Copy>, files: seq<string>, k: Kind) returns (plan': seq<Copy>)
    ensures plan' == plan + Copies(files, k)
  {
    var fs := Listed(files, k);
    plan' := plan;
    var i := 0;
    while i < |fs|
      invariant 0 <= i <= |fs|
      invariant plan' == plan + Copies(files, k)[..i]
    {
      plan' := plan' + [Copy(fs[i], Target(k, fs[i]))];
      assert Copies(files, k)[..i + 1] == Copies(files, k)[..i] + [Copies(files, k)[i]];
      i := i + 1;
    }
    assert Copies(files, k)[..|fs|] == Copies(files, k);
  }

  // ---------------------------------------------------------------------
  // Rewriting the pages and stylesheets

  const CssHref := CaptureRule(Opener("href=\"", false, ""), false, '"', [".css"], "href=\"", "../assets/css/")
  const JsSrc := CaptureRule(Opener("src=\"", false, ""), false, '"', [".js"], "src=\"", "../assets/js/")
  const ImageSrc := CaptureRule(Opener("src=\"", false, ""), true, '"', ImageExts, "src=\"", "../assets/images/")
  const BackgroundUrl := CaptureRule(Opener("background-image:", true, "url("), true, ')', ImageExts,
    "background-image: url(", "../assets/images/")
  const CssImageUrl := CaptureRule(Opener("url(", false, ""), true, ')', ImageExts, "url(", "../images/")
  const CssFontUrl := CaptureRule(Opener("url(", false, ""), true, ')', FontExts, "url(", "../fonts/")

  /** A page after the four rules, in order. */
  function PageRewrite(content: string): string {
    CaptureAll(CaptureAll(CaptureAll(CaptureAll(content, CssHref), JsSrc), ImageSrc), BackgroundUrl)
  }

  /** A stylesheet after the two rules, in order. */
  function SheetRewrite(content: string): string {
    CaptureAll(CaptureAll(content, CssImageUrl), CssFontUrl)
  }

  /** The body of the page loop: `content` reassigned once per rule. */
  method RewritePage(content: string) returns (c: string)
    ensures c == PageRewrite(content)
  {
    c := content;
    c := CaptureAll(c, CssHref);
    c := CaptureAll(c, JsSrc);
    c := CaptureAll(c, ImageSrc);
    c := CaptureAll(c, BackgroundUrl);
  }

  /** The body of the stylesheet loop. */
  method RewriteSheet(content: string) returns (c: string)
    ensures c == SheetRewrite(content)
  {
    c := content;
    c := CaptureAll(c, CssImageUrl);
    c := CaptureAll(c, CssFontUrl);
  }

  function Names(listing: seq<SourceFile>): (r: seq<string>)
    ensures |r| == |listing| && forall i :: 0 <= i < |listing| ==> r[i] == listing[i].name
  {
    seq(|listing|, i requires 0 <= i < |listing| => listing[i].name)
  }

  predicate IsPage(f: SourceFile) { IsKind(Html, f.name) }
  predicate IsSheet(f: SourceFile) { IsKind(Css, f.name) }

  /** The import after the export path is accepted: the copies it makes, and
      the pages and stylesheets it writes back, each in listing order.  A
      copied file has the content of the exported one. */
  method Import(listing: seq<SourceFile>) returns (plan: seq<Copy>, pages: seq<SourceFile>, sheets: seq<SourceFile>)
    ensures plan == CopyPlan(Names(listing))
    ensures var ps := Filter(listing, IsPage);
      |pages| == |ps| && forall i :: 0 <= i < |ps| ==> pages[i] == PageFile(ps[i])
    ensures var ss := Filter(listing, IsSheet);
      |sheets| == |ss| && forall i :: 0 <= i < |ss| ==> sheets[i] == SheetFile(ss[i])
  {
    plan := PlanCopies(Names(listing));
    pages := MapFiles(Filter(listing, IsPage), PageFile);
    sheets := MapFiles(Filter(listing, IsSheet), SheetFile);
  }

  /** One page file after rewriting. */
  function PageFile(f: SourceFile): (g: SourceFile)
    ensures g.name == f.name
  {
    SourceFile(f.name, PageRewrite(f.content))
  }

  /** One stylesheet file after rewriting. */
  function SheetFile(f: SourceFile): (g: SourceFile)
    ensures g.name == f.name
  {
    SourceFile(f.name, SheetRewrite(f.content))
  }

  // ---------------------------------------------------------------------
  // What the rewrites do

  /** Facts about the openers, each a fixed string. */
  lemma HrefOpener()
    ensures StartsWith("href=\"", CssHref.open.head, false)
    ensures forall i :: 1 <= i < 6 ==> !SameChar("href=\""[i], 'h', false)
  {
  }

  lemma SrcOpener(fold: bool)
    ensures StartsWith("src=\"", "src=\"", fold)
    ensures forall i :: 1 <= i < 5 ==> !SameChar("src=\""[i], 's', fold)
  {
  }

  lemma UrlOpener()
    ensures StartsWith("url(", "url(", true)
    ensures forall i :: 1 <= i < 4 ==> !SameChar("url("[i], 'u', true)
  {
  }

  /** A lower-case letter is matched, ignoring case, only by itself and its capital. */
  lemma FoldFree(s: string, c: char)
    requires IsLowerAscii(c) && c !in s && UpperChar(c) !in s
    ensures forall i :: 0 <= i < |s| ==> !SameChar(s[i], c, true)
  {
    forall i | 0 <= i < |s| ensures LowerChar(s[i]) != c {
      assert s[i] != c && s[i] != UpperChar(c);
    }
  }

  /** Script names are never image names, and image names never font names. */
  lemma JsNotImage(w: string)
    requires IsKind(Js, w)
    ensures !IsKind(Image, w)
  {
    assert w[|w| - 1] == ".js"[2];
    forall k | 0 <= k < |ImageExts| ensures !EndsWith(w, ImageExts[k], true) {
      var e := ImageExts[k];
      if |e| <= |w| {
        NotEndsWith(w, e, true, |e| - 1);
      }
    }
  }

  lemma JsImageApart(w: string)
    ensures !(IsKind(Js, w) && IsKind(Image, w))
  {
    if IsKind(Js, w) {
      JsNotImage(w);
    }
  }

  lemma FontEndingIf(w: string)
    ensures IsKind(Font, w) ==> |w| >= 2 && Ending(w) in Endings(Font)
  {
    if IsKind(Font, w) {
      FontEnding(w);
    }
  }

  lemma ImageEndingIf(w: string)
    ensures IsKind(Image, w) ==> |w| >= 2 && Ending(w) in Endings(Image)
  {
    if IsKind(Image, w) {
      ImageEnding(w);
    }
  }

  lemma ImageFontApart(w: string)
    ensures !(IsKind(Image, w) && IsKind(Font, w))
  {
    ImageEndingIf(w);
    FontEndingIf(w);
  }

  lemma CssHrefRep()
    ensures CssHref.lead + CssHref.dir == "href=\"../assets/css/"
  {
  }

  /** The `href` rule: a value ending in `.css` is moved under `../assets/css/`,
      kept whole, and the scan goes on after the closing quote. */
  lemma CssHrefMoved(v: string, rest: string)
    requires '"' !in v && EndsWith(v, ".css", false)
    ensures CaptureAll("href=\"" + v + "\"" + rest, CssHref) ==
      "href=\"../assets/css/" + v + "\"" + CaptureAll(rest, CssHref)
  {
    HrefOpener();
    SingleExt(v, ".css", false);
    CaptureHead(CssHref, "href=\"", v, rest);
    CssHrefRep();
  }

  /** Any other value is not moved: the opener is kept and the scan resumes
      inside the value ... */
  lemma CssHrefKept(v: string, rest: string)
    requires '"' !in v && !EndsWith(v, ".css", false)
    ensures CaptureAll("href=\"" + v + "\"" + rest, CssHref) == "href=\"" + CaptureAll(v + "\"" + rest, CssHref)
  {
    HrefOpener();
    SingleExt(v, ".css", false);
    CaptureRejected(CssHref, "href=\"", v, rest);
  }

  /** ... so a value without an `h` is kept whole. */
  lemma CssHrefKeptWhole(v: string, rest: string)
    requires '"' !in v && 'h' !in v && !EndsWith(v, ".css", false)
    ensures CaptureAll("href=\"" + v + "\"" + rest, CssHref) == "href=\"" + v + "\"" + CaptureAll(rest, CssHref)
  {
    CssHrefKept(v, rest);
    var w := v + "\"";
    NoHBeforeQuote(v, w);
    assert v + "\"" + rest == w + rest;
    SkipFree(CssHref, w, rest);
    Associate("href=\"", w, CaptureAll(rest, CssHref));
  }

  lemma NoHBeforeQuote(v: string, w: string)
    requires 'h' !in v && w == v + "\""
    ensures forall i :: 0 <= i < |w| ==> !SameChar(w[i], 'h', false)
  {
    forall i | 0 <= i < |w| ensures !SameChar(w[i], 'h', false) {
      assert i < |v| ==> w[i] == v[i];
    }
  }

  /** One `src` attribute under one of the two rules: moved when its value
      has the rule's ending ... */
  lemma SrcMoved(r: CaptureRule, v: string)
    requires r == JsSrc || r == ImageSrc
    requires '"' !in v && EndsWithAny(v, r.exts, r.fold)
    ensures CaptureAll("src=\"" + v + "\"", r) == "src=\"" + (r.dir + v) + "\""
  {
    SrcOpener(r.fold);
    QuotedAlone(r, "src=\"", v);
  }

  /** ... and kept whole otherwise. */
  lemma SrcKept(r: CaptureRule, v: string)
    requires r == JsSrc || r == ImageSrc
    requires '"' !in v && !EndsWithAny(v, r.exts, r.fold)
    ensures CaptureAll("src=\"" + v + "\"", r) == "src=\"" + v + "\""
  {
    SrcOpener(r.fold);
    QuotedAlone(r, "src=\"", v);
  }

  /** A one-element ending list is that ending. */
  lemma SingleExt(v: string, e: string, fold: bool)
    ensures EndsWithAny(v, [e], fold) <==> EndsWith(v, e, fold)
  {
    if EndsWith(v, e, fold) {
      assert [e][0] == e;
    }
  }

  /** The script rule and the image rule commute on any single `src` attribute. */
  lemma ScriptImageCommute(v: string)
    requires '"' !in v
    ensures var a := "src=\"" + v + "\"";
      CaptureAll(CaptureAll(a, JsSrc), ImageSrc) == CaptureAll(CaptureAll(a, ImageSrc), JsSrc)
  {
    JsImageApart(v);
    if IsKind(Js, v) {
      CommuteScript(v);
    } else if IsKind(Image, v) {
      CommuteImage(v);
    } else {
      SingleExt(v, ".js", false);
      SrcKept(JsSrc, v);
      SrcKept(ImageSrc, v);
    }
  }

  /** A moved `src` value still has no closing quote. */
  lemma MovedQuoteFree(r: CaptureRule, v: string)
    requires r == JsSrc || r == ImageSrc
    requires '"' !in v
    ensures '"' !in r.dir + v
  {
    assert forall i :: 0 <= i < |r.dir| ==> r.dir[i] != '"';
  }

  lemma CommuteScript(v: string)
    requires '"' !in v && IsKind(Js, v)
    ensures var a := "src=\"" + v + "\"";
      CaptureAll(CaptureAll(a, JsSrc), ImageSrc) == "src=\"" + (JsSrc.dir + v) + "\"" == CaptureAll(CaptureAll(a, ImageSrc), JsSrc)
  {
    SingleExt(v, ".js", false);
    JsNotImage(v);
    SrcMoved(JsSrc, v);
    SrcKept(ImageSrc, v);
    var w := JsSrc.dir + v;
    MovedQuoteFree(JsSrc, v);
    EndsWithPrefixed(JsSrc.dir, v, ".js", false);
    JsNotImage(w);
    SrcKept(ImageSrc, w);
  }

  lemma CommuteImage(v: string)
    requires '"' !in v && IsKind(Image, v)
    ensures var a := "src=\"" + v + "\"";
      CaptureAll(CaptureAll(a, JsSrc), ImageSrc) == "src=\"" + (ImageSrc.dir + v) + "\"" == CaptureAll(CaptureAll(a, ImageSrc), JsSrc)
  {
    JsImageApart(v);
    SingleExt(v, ".js", false);
    SrcKept(JsSrc, v);
    SrcMoved(ImageSrc, v);
    var w := ImageSrc.dir + v;
    MovedQuoteFree(ImageSrc, v);
    EndsWithAnyPrefixed(ImageSrc.dir, v, ImageExts, true);
    JsImageApart(w);
    SingleExt(w, ".js", false);
    SrcKept(JsSrc, w);
  }

  /** The `src` rules leave text alone when no `s` is followed by an `r`:
      here the first character is not an `s` and no later character but the
      second is an `r`. */
  lemma SrcIdle(t: string, r: CaptureRule)
    requires r == JsSrc || r == ImageSrc
    requires |t| >= 1 && !SameChar(t[0], 's', true)
    requires forall i :: 2 <= i < |t| ==> !SameChar(t[i], 'r', true)
    ensures CaptureAll(t, r) == t
  {
    forall i | 0 <= i < |t| - 1
      ensures !(SameChar(t[i], r.open.head[0], r.fold) && SameChar(t[i + 1], r.open.head[1], r.fold))
    {
      if i == 0 {
        assert !SameChar(t[0], 's', r.fold);
      } else {
        assert !SameChar(t[i + 1], 'r', r.fold);
      }
    }
    NoStartPair(r, t);
  }

  /** The background rule leaves text without a `b` alone. */
  lemma BackgroundIdle(t: string)
    requires 'b' !in t && 'B' !in t
    ensures CaptureAll(t, BackgroundUrl) == t
  {
    FoldFree(t, 'b');
    NoStart(BackgroundUrl, t);
  }

  /** A moved stylesheet link has no `r` after its second character and no `b`. */
  lemma MovedLinkShape(v: string, t: string)
    requires 'r' !in v && 'R' !in v && 'b' !in v && 'B' !in v
    requires t == "href=\"../assets/css/" + v + "\""
    ensures |t| >= 1 && !SameChar(t[0], 's', true)
    ensures forall i :: 2 <= i < |t| ==> !SameChar(t[i], 'r', true)
    ensures 'b' !in t && 'B' !in t
  {
    var p := "href=\"../assets/css/";
    FoldFree(v, 'r');
    forall i | 2 <= i < |t| ensures !SameChar(t[i], 'r', true) {
      if i < |p| {
        assert t[i] == p[i];
      } else if i < |p| + |v| {
        assert t[i] == v[i - |p|];
      }
    }
  }

  /** The four page rules, one after another. */
  lemma PageSteps(x: string, a: string, b: string, c: string, d: string)
    requires CaptureAll(x, CssHref) == a && CaptureAll(a, JsSrc) == b
    requires CaptureAll(b, ImageSrc) == c && CaptureAll(c, BackgroundUrl) == d
    ensures PageRewrite(x) == d
  {
  }

  /** A page that is one stylesheet link: only the `href` rule acts. */
  lemma LinkPage(v: string)
    requires '"' !in v && IsKind(Css, v)
    requires 'r' !in v && 'R' !in v && 'b' !in v && 'B' !in v
    ensures PageRewrite("href=\"" + v + "\"") == "href=\"../assets/css/" + v + "\""
  {
    var x := "href=\"" + v + "\"";
    var t := "href=\"../assets/css/" + v + "\"";
    CssHrefMoved(v, []);
    assert x + [] == x;
    assert t + CaptureAll([], CssHref) == t;
    MovedLinkShape(v, t);
    SrcIdle(t, JsSrc);
    SrcIdle(t, ImageSrc);
    BackgroundIdle(t);
    PageSteps(x, t, t, t, t);
  }

  /** The moved value keeps the conditions of the original one. */
  lemma MovedValue(v: string, w: string)
    requires '"' !in v && IsKind(Css, v)
    requires 'r' !in v && 'R' !in v && 'b' !in v && 'B' !in v
    requires w == "../assets/css/" + v
    ensures '"' !in w && IsKind(Css, w)
    ensures 'r' !in w && 'R' !in w && 'b' !in w && 'B' !in w
    ensures "href=\"../assets/css/" + v + "\"" == "href=\"" + w + "\""
    ensures "href=\"../assets/css/" + w + "\"" == "href=\"../assets/css/../assets/css/" + v + "\""
  {
    EndsWithPrefixed("../assets/css/", v, ".css", false);
  }

  /** The page rewrite is not idempotent: a second run moves the link again. */
  lemma LinkPageTwice(v: string)
    requires '"' !in v && IsKind(Css, v)
    requires 'r' !in v && 'R' !in v && 'b' !in v && 'B' !in v
    ensures PageRewrite(PageRewrite("href=\"" + v + "\"")) == "href=\"../assets/css/../assets/css/" + v + "\""
    ensures PageRewrite(PageRewrite("href=\"" + v + "\"")) != PageRewrite("href=\"" + v + "\"")
  {
    var x := "href=\"" + v + "\"";
    var w := "../assets/css/" + v;
    LinkPage(v);
    var y := PageRewrite(x);
    MovedValue(v, w);
    assert y == "href=\"" + w + "\"";
    LinkPage(w);
    assert |PageRewrite(y)| > |y|;
  }

  /** The shape both stylesheet rules share: `url(` ignoring case, up to `)`. */
  predicate UrlRule(r: CaptureRule) {
    r.open == Opener("url(", false, "") && r.fold && r.close == ')' && r.lead == "url("
  }

  lemma UrlRules()
    ensures UrlRule(CssImageUrl) && UrlRule(CssFontUrl)
    ensures CssImageUrl.dir == "../images/" && CssFontUrl.dir == "../fonts/"
    ensures CssImageUrl.exts == ImageExts && CssFontUrl.exts == FontExts
  {
  }

  /** A stylesheet `url(...)` under one of the two rules: moved when the
      value runs to the `)` and has the rule's ending ... */
  lemma UrlMoved(r: CaptureRule, v: string, rest: string)
    requires UrlRule(r)
    requires ')' !in v && EndsWithAny(v, r.exts, true)
    ensures CaptureAll("url(" + v + ")" + rest, r) == "url(" + (r.dir + v) + ")" + CaptureAll(rest, r)
  {
    UrlOpener();
    CaptureHead(r, "url(", v, rest);
    Associate("url(", r.dir, v);
  }

  /** ... and otherwise only its opener is passed over. */
  lemma UrlKept(r: CaptureRule, v: string, rest: string)
    requires UrlRule(r)
    requires ')' !in v && !EndsWithAny(v, r.exts, true)
    ensures CaptureAll("url(" + v + ")" + rest, r) == "url(" + CaptureAll(v + ")" + rest, r)
  {
    UrlOpener();
    CaptureRejected(r, "url(", v, rest);
  }

  /** Text with no `u` is left alone by both stylesheet rules. */
  lemma UrlIdle(t: string, r: CaptureRule)
    requires UrlRule(r)
    requires 'u' !in t && 'U' !in t
    ensures CaptureAll(t, r) == t
  {
    FoldFree(t, 'u');
    NoStart(r, t);
  }

  /** The two stylesheet rules, one after the other. */
  lemma SheetSteps(x: string, a: string, b: string)
    requires CaptureAll(x, CssImageUrl) == a && CaptureAll(a, CssFontUrl) == b
    ensures SheetRewrite(x) == b
  {
  }

  /** A `url(...)` whose value has no ending of a rule passes that rule unchanged. */
  lemma UrlPasses(r: CaptureRule, v: string)
    requires UrlRule(r)
    requires ')' !in v && 'u' !in v && 'U' !in v && !EndsWithAny(v, r.exts, true)
    ensures CaptureAll("url(" + v + ")", r) == "url(" + v + ")"
  {
    var x := "url(" + v + ")";
    var t := v + ")";
    UrlKept(r, v, []);
    assert x + [] == x && t + [] == t;
    assert CaptureAll(x, r) == "url(" + CaptureAll(t, r);
    UrlIdle(t, r);
    Associate("url(", v, ")");
  }

  /** A `url(...)` whose value has the ending of a rule is moved by it. */
  lemma UrlMovedAlone(r: CaptureRule, v: string)
    requires UrlRule(r)
    requires ')' !in v && EndsWithAny(v, r.exts, true)
    ensures CaptureAll("url(" + v + ")", r) == "url(" + (r.dir + v) + ")"
  {
    UrlMoved(r, v, []);
    assert "url(" + v + ")" + [] == "url(" + v + ")";
    assert "url(" + (r.dir + v) + ")" + CaptureAll([], r) == "url(" + (r.dir + v) + ")";
  }

  lemma UrlJoin(d: string, v: string)
    ensures "url(" + (d + v) + ")" == "url(" + d + v + ")"
  {
  }

  /** A stylesheet that is one image `url(...)`: moved under `../images/`. */
  lemma SheetImage(v: string)
    requires ')' !in v && 'u' !in v && 'U' !in v && IsKind(Image, v)
    ensures SheetRewrite("url(" + v + ")") == "url(" + "../images/" + v + ")"
  {
    var w := "../images/" + v;
    UrlRules();
    UrlMovedAlone(CssImageUrl, v);
    EndsWithAnyPrefixed("../images/", v, ImageExts, true);
    ImageFontApart(w);
    UrlPasses(CssFontUrl, w);
    SheetSteps("url(" + v + ")", "url(" + w + ")", "url(" + w + ")");
    UrlJoin("../images/", v);
  }

  /** A stylesheet that is one font `url(...)`: moved under `../fonts/`. */
  lemma SheetFont(v: string)
    requires ')' !in v && 'u' !in v && 'U' !in v && IsKind(Font, v)
    ensures SheetRewrite("url(" + v + ")") == "url(" + "../fonts/" + v + ")"
  {
    var w := "../fonts/" + v;
    UrlRules();
    ImageFontApart(v);
    UrlPasses(CssImageUrl, v);
    UrlMovedAlone(CssFontUrl, v);
    SheetSteps("url(" + v + ")", "url(" + v + ")", "url(" + w + ")");
    UrlJoin("../fonts/", v);
  }

  /** A quoted value ends in a quote, not in an extension, so it is kept. */
  lemma QuotedUrlKept(v: string)
    requires ')' !in v && 'u' !in v && 'U' !in v
    requires |v| >= 1 && (v[|v| - 1] == '\'' || v[|v| - 1] == '"')
    ensures SheetRewrite("url(" + v + ")") == "url(" + v + ")"
  {
    UrlRules();
    ImageEndingIf(v);
    FontEndingIf(v);
    if |v| >= 2 {
      assert Ending(v)[1] == v[|v| - 1];
    }
    UrlPasses(CssImageUrl, v);
    UrlPasses(CssFontUrl, v);
    SheetSteps("url(" + v + ")", "url(" + v + ")", "url(" + v + ")");
  }

  /** The instance `url('a.png')`. */
  lemma QuotedUrlExample()
    ensures SheetRewrite("url('a.png')") == "url('a.png')"
  {
    var v := "'a.png'";
    QuotedValue(v);
    QuotedUrlKept(v);
  }

  lemma QuotedValue(v: string)
    requires v == "'a.png'"
    ensures ')' !in v && 'u' !in v && 'U' !in v && v[|v| - 1] == '\''
    ensures "url(" + v + ")" == "url('a.png')"
  {
  }
}
