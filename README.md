# CareGo site tooling and blog scripts, modelled in Dafny

CareGo's website is a Webflow export. A handful of scripts turn it into a site:

- **Import** (`scripts/import-webflow.js`). The import sorts the export's files into five kinds by their ending: pages, stylesheets, scripts, images and fonts. It copies each kind to its own folder under `src/`. It then rewrites the asset references of the copied pages and stylesheets with six capture-group regular expressions.
- **Path fix-ups** (`scripts/fix-paths.js`, `scripts/fix-missing-images.js`). Two later passes over the pages in `src/pages` rewrite the leftover relative paths (`css/`, `js/`, `images/`, `documents/`, `fonts/`, the icon links, two slide images) so that they point under `../assets/`. Each pass is a fixed chain of global replacements.
- **News page** (`js/blog-content.js`). The page's populator keeps the loaded posts, the chosen category and the current page. From these it fills the featured-post carousel, a six-post grid and the category heading. It runs again whenever a category radio button changes.
- **Post page** (`js/blog-detail.js`). A post's page works its own id out from its address. It then lists up to three other posts, or a "no recent posts" message.

The project models these operations on values and proves what they do. The modules are:

- `Text` and `Seqs`: the JavaScript string and array operations the scripts use. These are `split`, `join`, `indexOf`, `replace` with a string pattern, `trim`, `toLowerCase`, `filter` and `slice`, including `slice`'s negative and out-of-range bounds.
- `Rewrite`: `String.prototype.replace` with a global regular expression. The pattern is either a literal or `head\s*tail`. The module proves when one replacement can or cannot create a match of another, and so when a chain of replacements is idempotent.
- `Capture`: the import's capturing replacements `open([^c]*\.(ext|...))c` → `lead + dir + $1 + c`, including the `i` flag.
- `Files`: a file of a directory listing, as a name and its text.
- `FixPaths` and `FixMissingImages`: the two fix-up scripts.
- `ImportWebflow`: the import's sorting, its copy plan and its rewrites.
- `BlogPosts`: the post record of `data/blog-posts.json`.
- `BlogContent`: the news-page populator. It is a class whose methods update its fields as the script's methods do.
- `BlogDetail`: the post page.

What the proofs show about the scripts:

- Re-running `fix-missing-images.js` is not a no-op. Each run puts another `../assets/` in front of the two slide images. Inside a `src` attribute, one run already prefixes the first slide image (`slide-3_1slide-3.webp`) twice.
- Re-running the import's page rewriting is not a no-op either: each run prefixes a stylesheet link again. `fix-paths.js`, by contrast, is idempotent.
- The image and font filters ignore case, while the page, stylesheet and script filters do not. So `logo.PNG` is copied as an image, but `site.CSS` is not copied at all.
- In a stylesheet, a quoted `url('a.png')` is left alone. The capture ends at the quote, which is not an image extension.
- A post page's id is its file name with the first `.html` removed. The recent-post filter compares ids with `!==`, so a post whose JSON id is a number is never taken for the current one.

## Model

| member | source | states |
|---|---|---|
| Text.Split | carego-dev.webflow/js/blog-detail.js:15 | `path.split('/')` gives at least one segment, and no segment holds the separator |
| Text.JoinSplit | carego-dev.webflow/js/blog-detail.js:15 | joining the segments with the separator gives back the path |
| Text.SplitJoin | carego-dev.webflow/js/blog-detail.js:15 | splitting separator-free parts joined by the separator gives back the parts |
| Text.SplitAfter | carego-dev.webflow/js/blog-detail.js:15 | appending a separator and a separator-free word appends one segment |
| Text.LastSegment | carego-dev.webflow/js/blog-detail.js:15-16 | the last segment holds no separator |
| Text.LastSegmentSuffix | carego-dev.webflow/js/blog-detail.js:15-16 | the last segment is a suffix of the path, and it is the whole path or follows a separator |
| Text.LastSegmentAfter | carego-dev.webflow/js/blog-detail.js:15-16 | in `d/f` with no separator in `f`, the last segment is `f` |
| Text.LastSegmentOfTrailing | carego-dev.webflow/js/blog-detail.js:15-16 | a path ending in the separator has an empty last segment |
| Text.IndexOf | carego-dev.webflow/js/blog-detail.js:17 | the result is -1 or an occurrence of the pattern, with no occurrence before it |
| Text.ReplaceFirst | carego-dev.webflow/js/blog-detail.js:17 | with no occurrence the text is kept; otherwise the first occurrence is replaced by `rep`, and the text on both sides is kept |
| Text.Lower | carego-dev.webflow/js/blog-content.js:180 | same length; every character lower-cased |
| Text.LowerIdempotent | carego-dev.webflow/js/blog-content.js:180 | lower-casing twice is lower-casing once |
| Text.Trim | carego-dev.webflow/js/blog-content.js:180 | the result is a run of the text with only white space before and after it, and it neither starts nor ends with white space; a text without surrounding white space is kept |
| Text.TrimUnique | carego-dev.webflow/js/blog-content.js:180 | any run of the text with only white space around it and none at its own ends is the trimmed text, so Trim's contract fixes its result |
| Seqs.Filter | carego-dev.webflow/js/blog-content.js:195-197 | a value is in the result exactly when it is in the input and passes the test |
| Seqs.FilterConcat | carego-dev.webflow/js/blog-content.js:195-197 | filtering keeps order: it distributes over concatenation |
| Seqs.FilterExtremes | carego-dev.webflow/js/blog-content.js:195-197 | nothing passes gives the empty list; everything passes gives the input |
| Seqs.Take | carego-dev.webflow/js/blog-detail.js:46 | `slice(0, n)` is a prefix of length `min(n, length)` |
| Seqs.Clamp | carego-dev.webflow/js/blog-content.js:132 | a `slice` bound: negative counts from the end, and the bound is clipped to the length |
| Seqs.SliceBounded | carego-dev.webflow/js/blog-content.js:130-132 | `slice(start, start + k)` has at most `k` elements |
| Seqs.SliceInside | carego-dev.webflow/js/blog-content.js:130-132 | with in-range bounds, `slice` is the subsequence, cut at the end; it is empty when the end is before the start |
| Rewrite.SpaceRun | scripts/fix-paths.js:30-32 | the longest run of white space at the start, which is what `\s*` takes |
| Rewrite.SpaceRunExact | scripts/fix-paths.js:30-32 | a white-space run followed by a non-space is exactly what `\s*` takes |
| Rewrite.ReplaceAllIdentity | scripts/fix-paths.js:18-41 | a global replacement with no match leaves the text unchanged |
| Rewrite.LiteralHead | scripts/fix-paths.js:18-41 | a literal at the start is replaced, and the scan resumes right after it |
| Rewrite.GapHead | scripts/fix-paths.js:30-32 | `head\s*tail` at the start is replaced whatever white space it holds |
| Rewrite.Remove | scripts/fix-paths.js:18-41 | when the replacement cannot join surrounding text into a match, the replacement leaves no match behind |
| Rewrite.Preserve | scripts/fix-paths.js:18-41 | under the same condition, a replacement creates no match of another pattern |
| Rewrite.ApplyRulesSnoc | scripts/fix-paths.js:18-41 | a chain of replacements is applied in order, one after the other |
| Rewrite.ApplyRulesIdentity | scripts/fix-paths.js:18-41 | a text matching no pattern of the chain is unchanged by it |
| Rewrite.GoneAfter | scripts/fix-paths.js:18-41 | no match of a pattern survives the chain when no later replacement can create one |
| Rewrite.ApplyRulesIdempotent | scripts/fix-paths.js:18-41 | such a chain leaves no match of any of its patterns, so running it twice is running it once |
| Rewrite.UnderAssetsShape | scripts/fix-paths.js:18-41 | each replacement text is `pre`, then `../assets/`, then the folder and a `/` (nothing when there is no folder), then `post`; with no `post` it ends in `/` |
| Rewrite.AssetsGuarded | scripts/fix-paths.js:18-41 | every `/` of such a replacement follows a `.` or a `/` closely enough that no path pattern can start inside it |
| FixPaths.FixContent | scripts/fix-paths.js:13-43 | the page text after the twelve replacements, in the script's order |
| FixPaths.FixPages | scripts/fix-paths.js:9-44 | one rewritten file per `.html` file of the listing, in listing order, with its name kept |
| FixPaths.RulesSafe | scripts/fix-paths.js:18-41 | no replacement text of the script can create a match of any of its patterns |
| FixPaths.FixIdempotent | scripts/fix-paths.js:18-41 | after the script no pattern occurs, and a second run changes nothing |
| FixPaths.FixUnchanged | scripts/fix-paths.js:18-41 | a page with no old-style path is written back unchanged |
| FixPaths.LiteralRuleKeepsRest | scripts/fix-paths.js:18-41 | a literal rule replaces the prefix it matched and keeps the rest of the path |
| FixPaths.CssLinkKeepsPath | scripts/fix-paths.js:18 | `href="css/...` comes out as `href="../assets/css/...` with the rest kept, through the whole chain |
| FixPaths.CssLinkExample | scripts/fix-paths.js:18 | `href="css/x.css"` becomes `href="../assets/css/x.css"` |
| FixPaths.NoPatternWithoutSlash | scripts/fix-paths.js:18-41 | a text without `/` matches no pattern |
| FixPaths.DocumentHrefFlattened | scripts/fix-paths.js:35 | `href="documents/x` becomes `href="../assets/x`: the `documents` folder is dropped |
| FixPaths.DocumentSrcFlattened | scripts/fix-paths.js:36 | the same for `src="documents/` |
| FixPaths.BackgroundBareSpacing | scripts/fix-paths.js:30 | any white space after `background-image:` is accepted, none included, and one space is written |
| FixPaths.BackgroundSingleSpacing | scripts/fix-paths.js:31 | the same for `url('images/` |
| FixPaths.BackgroundDoubleSpacing | scripts/fix-paths.js:32 | the same for `url("images/` |
| FixMissingImages.FixContent | scripts/fix-missing-images.js:13-32 | the page text after the seven replacements, in the script's order |
| FixMissingImages.FixPages | scripts/fix-missing-images.js:9-33 | one rewritten file per `.html` file of the listing, in listing order, with its name kept |
| FixMissingImages.FaviconMoved | scripts/fix-missing-images.js:18 | the favicon link becomes `href="../assets/images/favicon.svg"` |
| FixMissingImages.FaviconOnlyExact | scripts/fix-missing-images.js:18 | any other `href="images/...` is untouched by the favicon rule |
| FixMissingImages.WebclipOnlyExact | scripts/fix-missing-images.js:19 | any other `href="images/...` is untouched by the webclip rule |
| FixMissingImages.SrcsetMoved | scripts/fix-missing-images.js:22 | `srcset="images/` gets `../assets/` before `images/`, and the scan resumes after it |
| FixMissingImages.SrcMoved | scripts/fix-missing-images.js:23 | the same for `src="images/` |
| FixMissingImages.ListEntryMoved | scripts/fix-missing-images.js:30 | the same for the `, images/` entries of a srcset list |
| FixMissingImages.PathPrefixesGone | scripts/fix-missing-images.js:22-30 | after the script no `srcset="images/`, `src="images/` or `, images/` is left |
| FixMissingImages.FixUnchanged | scripts/fix-missing-images.js:18-30 | a page matching none of the patterns is written back unchanged |
| FixMissingImages.Slide1Grows | scripts/fix-missing-images.js:26 | the first slide path behind `k` copies of `../assets/` comes out behind `k + 1` of them |
| FixMissingImages.Slide2Grows | scripts/fix-missing-images.js:27 | the same for the second slide path |
| FixMissingImages.NotIdempotent | scripts/fix-missing-images.js:26-27 | a second run changes the slide paths again |
| FixMissingImages.SrcSlideDoubled | scripts/fix-missing-images.js:23-26 | a slide image in a `src` attribute is moved by the `src` rule and then again by the slide rule |
| FixMissingImages.SrcSlideDoubledTwice | scripts/fix-missing-images.js:23-26 | that slide path ends up behind two copies of `../assets/` |
| FixMissingImages.Repeat | scripts/fix-missing-images.js:26-27 | `k` copies of a text: length `k` times, with no new characters |
| ImportWebflow.Listed | scripts/import-webflow.js:45-49 | a name is listed for a kind exactly when it is in the export and has that kind's ending |
| ImportWebflow.ListedConcat | scripts/import-webflow.js:45-49 | each kind's list keeps the listing order |
| ImportWebflow.KindCases | scripts/import-webflow.js:45-49 | `logo.PNG` and `icons.WOFF2` are kept; `index.HTML`, `site.CSS` and `app.JS` are not |
| ImportWebflow.EndingOf | scripts/import-webflow.js:45-49 | a name ending in an extension ends in that extension's last two characters, lower-cased |
| ImportWebflow.KindEnding | scripts/import-webflow.js:45-49 | a name of a kind ends in one of that kind's two-letter endings |
| ImportWebflow.KindsDisjoint | scripts/import-webflow.js:45-49 | no name has two kinds, so no file is copied to two folders |
| ImportWebflow.JsImageApart | scripts/import-webflow.js:47-48 | no name is both a script and an image |
| ImportWebflow.ImageFontApart | scripts/import-webflow.js:48-49 | no name is both an image and a font |
| ImportWebflow.KindCount | scripts/import-webflow.js:45-49 | a name has at most one kind, and exactly one when some filter keeps it |
| ImportWebflow.FolderInjective | scripts/import-webflow.js:65-97 | the five destination folders are distinct |
| ImportWebflow.TargetsDistinct | scripts/import-webflow.js:65-97 | two plain names sent to the same destination are the same name of the same kind |
| ImportWebflow.Copies | scripts/import-webflow.js:65-97 | one copy per listed file of the kind, in order, to `folder/name` |
| ImportWebflow.PlanSound | scripts/import-webflow.js:65-97 | every copy is of an exported file of some kind, to that kind's folder |
| ImportWebflow.PlanComplete | scripts/import-webflow.js:65-97 | every exported file of a kind is copied to that kind's folder |
| ImportWebflow.PlanSize | scripts/import-webflow.js:65-97 | there is exactly one copy per exported file of some kind |
| ImportWebflow.AddCopies | scripts/import-webflow.js:65-97 | one `forEach` loop adds the kind's copies to the plan, in order |
| ImportWebflow.PlanCopies | scripts/import-webflow.js:65-97 | the five loops make the copy plan: pages, stylesheets, scripts, images, fonts |
| ImportWebflow.RewritePage | scripts/import-webflow.js:104-118 | a page's text after the four replacements, in order |
| ImportWebflow.RewriteSheet | scripts/import-webflow.js:124-132 | a stylesheet's text after the two replacements, in order |
| ImportWebflow.PageFile | scripts/import-webflow.js:102-119 | a rewritten page keeps its name |
| ImportWebflow.SheetFile | scripts/import-webflow.js:122-133 | a rewritten stylesheet keeps its name |
| Files.MapFiles | scripts/import-webflow.js:102-133 | the `forEach` over the pages and over the stylesheets: each file replaced by its rewrite, in listing order |
| ImportWebflow.Names | scripts/import-webflow.js:42 | the listing's names, in order |
| ImportWebflow.Import | scripts/import-webflow.js:42-133 | the copy plan of the export's names, and the rewritten pages and stylesheets |
| ImportWebflow.CssHrefMoved | scripts/import-webflow.js:107 | `href="v"` with `v` ending in `.css` becomes `href="../assets/css/v"`, and the scan resumes after it |
| ImportWebflow.CssHrefKept | scripts/import-webflow.js:107 | any other `href` is kept, and the scan resumes inside it |
| ImportWebflow.CssHrefKeptWhole | scripts/import-webflow.js:107 | an `href` value with no `h` in it that is not a stylesheet is kept whole |
| ImportWebflow.SrcMoved | scripts/import-webflow.js:110-113 | a `src` ending in the rule's extension gets the rule's folder put in front |
| ImportWebflow.SrcKept | scripts/import-webflow.js:110-113 | any other `src` is kept |
| ImportWebflow.ScriptImageCommute | scripts/import-webflow.js:110-113 | the script rule and the image rule give the same result in either order on one `src` attribute |
| ImportWebflow.SrcIdle | scripts/import-webflow.js:110-113 | a text with no `s` followed by `r` is unchanged by the `src` rules |
| ImportWebflow.BackgroundIdle | scripts/import-webflow.js:116 | a text without `b` is unchanged by the background rule |
| ImportWebflow.LinkPage | scripts/import-webflow.js:106-116 | a page that is one stylesheet link comes out with the link moved under `../assets/css/`; the other three rules leave it alone |
| ImportWebflow.LinkPageTwice | scripts/import-webflow.js:106-116 | rewriting that page again moves the link again: the rewrite is not idempotent |
| ImportWebflow.UrlMoved | scripts/import-webflow.js:127-130 | `url(v)` with an extension of the rule gets the rule's folder |
| ImportWebflow.UrlKept | scripts/import-webflow.js:127-130 | any other `url(...)` is kept |
| ImportWebflow.UrlIdle | scripts/import-webflow.js:127-130 | a text without `u` is unchanged by the `url` rules |
| ImportWebflow.UrlPasses | scripts/import-webflow.js:127-130 | a lone `url(v)` that a rule rejects passes that rule unchanged |
| ImportWebflow.SheetImage | scripts/import-webflow.js:126-130 | a stylesheet's image `url(v)` becomes `url(../images/v)` |
| ImportWebflow.SheetFont | scripts/import-webflow.js:126-130 | a stylesheet's font `url(v)` becomes `url(../fonts/v)` |
| ImportWebflow.QuotedUrlKept | scripts/import-webflow.js:127-130 | a quoted `url('...')` or `url("...")` is left unchanged |
| ImportWebflow.QuotedUrlExample | scripts/import-webflow.js:127 | `url('a.png')` is left unchanged |
| Capture.OpenLen | scripts/import-webflow.js:116 | the opener, with `\s*` between its two parts, is at the start of the text |
| Capture.CloseAt | scripts/import-webflow.js:107 | `[^"]*` stops at the first closing character |
| Capture.MatchAt | scripts/import-webflow.js:107-130 | a match is the opener, a value ending in an extension, then the closing character |
| Capture.CaptureHead | scripts/import-webflow.js:107-130 | a match at the start becomes `lead + dir + value + close`, and the scan resumes after it |
| Capture.CaptureRejected | scripts/import-webflow.js:107-130 | an opener whose value has none of the extensions is copied, and the scan resumes after it |
| Capture.NoMatchCopies | scripts/import-webflow.js:107-130 | a text with no match is unchanged |
| Capture.NoStart | scripts/import-webflow.js:107-130 | a text without the opener's first character is unchanged |
| BlogContent.CategoryPosts | carego-dev.webflow/js/blog-content.js:191-199 | for `all` every post; otherwise exactly the posts whose lower-cased category is the chosen one |
| BlogContent.CategoryPostsConcat | carego-dev.webflow/js/blog-content.js:191-199 | the selection keeps the posts' order |
| BlogContent.UpperCaseCategoryEmpty | carego-dev.webflow/js/blog-content.js:195-197 | a category holding an upper-case letter selects no post |
| BlogContent.PageOf | carego-dev.webflow/js/blog-content.js:130-132 | a page shows at most six posts |
| BlogContent.PageSpan | carego-dev.webflow/js/blog-content.js:130-132 | page `p` shows the posts from `(p-1)*6` up to `p*6`, cut at the end, and none past the end |
| BlogContent.PagesOrdered | carego-dev.webflow/js/blog-content.js:130-132 | a page ends where the next one starts: no post is on two pages |
| BlogContent.FirstPagesPrefix | carego-dev.webflow/js/blog-content.js:130-132 | pages 1 to `k` together are the first `6k` posts |
| BlogContent.FeaturedPosts | carego-dev.webflow/js/blog-content.js:42 | exactly min(6, number of featured posts) posts, all featured, and they are the first featured posts, in order |
| BlogContent.FeaturedWhen | carego-dev.webflow/js/blog-content.js:42-45 | the carousel is filled exactly when some post is featured, and with all of them when there are six or fewer |
| BlogContent.CategoryTitle | carego-dev.webflow/js/blog-content.js:204-205 | `All Blog Posts` for `all`; otherwise the category with its first character upper-cased |
| BlogContent.TitleLowersBack | carego-dev.webflow/js/blog-content.js:204-205 | a lower-case category is recovered from its heading by lower-casing |
| BlogContent.LabelCategory | carego-dev.webflow/js/blog-content.js:180 | the category a label selects is its text trimmed and then lower-cased, and is lower-case |
| BlogContent.BlogContentPopulator.constructor | carego-dev.webflow/js/blog-content.js:7-33 | after loading: every post shown, category `all`, page 1, six per page |
| BlogContent.BlogContentPopulator.FilterPosts | carego-dev.webflow/js/blog-content.js:191-199 | the shown posts become the current category's, and nothing else changes |
| BlogContent.BlogContentPopulator.PopulateBlogGrid | carego-dev.webflow/js/blog-content.js:122-140 | relies on the populator's invariant: a grid that is there shows the current page of the current category's posts; a missing grid stays missing |
| BlogContent.BlogContentPopulator.PopulateCarousel | carego-dev.webflow/js/blog-content.js:40-58 | the carousel is replaced by the featured posts when it is there and some post is featured, and kept otherwise |
| BlogContent.BlogContentPopulator.UpdateCategoryTitle | carego-dev.webflow/js/blog-content.js:201-208 | a heading that is there names the current category |
| BlogContent.BlogContentPopulator.OnCategoryChange | carego-dev.webflow/js/blog-content.js:178-187 | the label's category on page 1, its posts selected, the grid and the heading redrawn |
| BlogContent.ChangeShowsFirstPage | carego-dev.webflow/js/blog-content.js:178-187 | after a category change the grid shows the first six posts of that category |
| BlogDetail.CurrentPostId | carego-dev.webflow/js/blog-detail.js:12-18 | the id holds no `/` |
| BlogDetail.RemovalKeepsOut | carego-dev.webflow/js/blog-detail.js:17 | removing `.html` adds no character |
| BlogDetail.TrailingSlashId | carego-dev.webflow/js/blog-detail.js:14-17 | a path ending in `/` gives the empty id |
| BlogDetail.SuffixFound | carego-dev.webflow/js/blog-detail.js:17 | in a name followed by `.html` where the name has none, the first `.html` is the one after the name |
| BlogDetail.PageId | carego-dev.webflow/js/blog-detail.js:12-18 | the page `dir/name.html` has id `name` |
| BlogDetail.DoubledSuffixId | carego-dev.webflow/js/blog-detail.js:17 | only the first `.html` goes: `name.html.html` has id `name.html` |
| BlogDetail.DoubledSuffixExample | carego-dev.webflow/js/blog-detail.js:17 | `blog/a.html.html` has id `a.html` |
| BlogDetail.RecentPosts | carego-dev.webflow/js/blog-detail.js:44-46 | at most three posts, none of them the current one, all of them loaded |
| BlogDetail.TakeOthers | carego-dev.webflow/js/blog-detail.js:44-46 | filter-then-slice picks the first `n` non-current posts in order |
| BlogDetail.RecentAreFirstOthers | carego-dev.webflow/js/blog-detail.js:44-46 | the recent posts are the first three non-current posts, in order |
| BlogDetail.NumericIdsNeverCurrent | carego-dev.webflow/js/blog-detail.js:45 | when every id is a number, the recent posts are simply the first three |
| BlogDetail.RecentPanel | carego-dev.webflow/js/blog-detail.js:39-55 | nothing is written without the container or the data; otherwise the message, or the recent posts themselves (one to three, none current) |
| BlogDetail.FallbackExactly | carego-dev.webflow/js/blog-detail.js:48-53 | the no-posts message appears exactly when the container and data are there and every post is the current one |

## Left out

- Loading `data/blog-posts.json` with `fetch` and its error handling (blog-content.js:29-38, blog-detail.js:29-37) is not modelled. The populator starts from the loaded posts, and the post page receives the data as an `Option`. The populator's state before the data arrives (`blogData` still null) is not modelled.
- The markup the scripts generate is not modelled: carousel slides, grid items, recent-post items and the message's styling. A filled container is modelled as the list of posts it shows. Dates are formatted with `toLocaleDateString`; the date is kept as text.
- Three browser features are left out: the Swiper carousel re-initialisation with its timer (blog-content.js:60-93), `hideEmptyMessages` (blog-content.js:210-216), and the DOM-ready and event wiring (blog-content.js:174-178, 228-237, blog-detail.js:89-95). `OnCategoryChange` is the body of one change handler. The label's text is its parameter, and the grid and heading are `Option`s for present or missing elements.
- The `BlogDetailPage` class is modelled as functions. It has two fields. The current id is computed once from the address and never changed. The loaded data, `this.blogData`, is set by `loadBlogData` (blog-detail.js:32) and tested by `populateRecentPosts` (blog-detail.js:42); it is RecentPanel's `data: Option<seq<Post>>` parameter, where `None` stands for data that never loaded.
- Case mapping covers ASCII letters only. `toLowerCase` and `toUpperCase` on other Unicode letters are not modelled. White space for `\s` and `trim` is the full ECMAScript set.
- The import's prompts and its early exits are not modelled: `readline`, the existence check, and the `.zip` refusal (import-webflow.js:7-37). The model begins with the directory listing.
- The backup copy of the export (`copyDirectory`, import-webflow.js:53-60 and 150-167) is not modelled. It recurses through subdirectories of the real file system and does not affect the organised files.
- The file system itself is not modelled. Copying, reading and writing are modelled as the copy plan and the rewritten file texts. A copied file keeps its content, and page and stylesheet rewrites act on that content. `path.join` normalisation is not modelled: names are taken as the listing gives them, and `TargetsDistinct` assumes names without `/`.
- Console output and the `try`/`catch` around the import are not modelled.
- Only the listing's `.html` files are processed by the fix-up scripts. The reading and writing of each file is modelled as a function from the old text to the new text.
