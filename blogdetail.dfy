/**
 * carego-dev.webflow/js/blog-detail.js: a post's page works out its own id
 * from the address and lists up to three other posts beside it.
 */
module BlogDetail {
  import opened Text
  import opened Seqs
  import opened BlogPosts

  const RecentCount: nat := 3
  const PageSuffix: string := ".html"

  /** `getCurrentPostId`: the last segment of the path, with its first
      `.html` removed. */
  function CurrentPostId(path: string): (id: string)
    ensures '/' !in id
  {
    var file := LastSegment(path, '/');
    RemovalKeepsOut(file, PageSuffix, '/');
    ReplaceFirst(file, PageSuffix, "")
  }

  /** Removing text adds no character. */
  lemma RemovalKeepsOut(s: string, p: string, c: char)
    requires c !in s
    ensures c !in ReplaceFirst(s, p, "")
  {
    var i := IndexOf(s, p);
    if i >= 0 {
      var r := ReplaceFirst(s, p, "");
      assert r[..i] + p + r[i..] == s;
      forall j | 0 <= j < |r| ensures r[j] != c {
        if j < i {
          assert r[j] == s[j];
        } else {
          assert r[j] == s[j + |p|];
        }
      }
    }
  }

  /** A path ending in `/` gives the empty id. */
  lemma TrailingSlashId(path: string)
    requires |path| >= 1 && path[|path| - 1] == '/'
    ensures CurrentPostId(path) == ""
  {
    LastSegmentOfTrailing(path, '/');
  }

  /** In a name followed by `.html`, the first `.html` is the one after the
      name when the name has none: no proper suffix of `.html` is also a
      prefix of it, so no occurrence can straddle the two. */
  lemma SuffixFound(name: string, rest: string)
    requires IndexOf(name, PageSuffix) == -1
    ensures IndexOf(name + PageSuffix + rest, PageSuffix) == |name|
  {
    var s := name + PageSuffix + rest;
    assert s[|name|..|name| + 5] == PageSuffix;
    assert OccursAt(s, PageSuffix, |name|);
    forall j | 0 <= j < |name| ensures !OccursAt(s, PageSuffix, j) {
      if j + 5 <= |name| {
        assert s[j..j + 5] == name[j..j + 5];
        assert !OccursAt(name, PageSuffix, j);
      } else {
        var k := |name| - j;
        assert s[j..j + 5][k] == s[|name|] == '.';
        assert PageSuffix[k] != '.';
      }
    }
  }

  /** The page `name.html` in any folder has id `name`. */
  lemma PageId(dir: string, name: string)
    requires '/' !in name && IndexOf(name, PageSuffix) == -1
    ensures CurrentPostId(dir + "/" + name + PageSuffix) == name
  {
    var file := name + PageSuffix;
    assert dir + "/" + name + PageSuffix == dir + ['/'] + file;
    LastSegmentAfter(dir, file, '/');
    SuffixFound(name, []);
    assert file + [] == file;
    assert file[..|name|] == name;
  }

  /** Only the first `.html` goes: `name.html.html` has id `name.html`. */
  lemma DoubledSuffixId(dir: string, name: string)
    requires '/' !in name && IndexOf(name, PageSuffix) == -1
    ensures CurrentPostId(dir + "/" + name + PageSuffix + PageSuffix) == name + PageSuffix
  {
    var file := name + PageSuffix + PageSuffix;
    assert dir + "/" + name + PageSuffix + PageSuffix == dir + ['/'] + file;
    LastSegmentAfter(dir, file, '/');
    SuffixFound(name, PageSuffix);
    assert file[..|name|] == name;
    assert file[|name| + 5..] == PageSuffix;
  }

  /** The id `a.html` of `blog/a.html.html`. */
  lemma DoubledSuffixExample()
    ensures CurrentPostId("blog" + "/" + "a" + PageSuffix + PageSuffix) == "a" + PageSuffix
  {
    assert !OccursAt("a", PageSuffix, 0);
    DoubledSuffixId("blog", "a");
  }

  /** The recent-post filter: `post.id !== currentPostId`. */
  predicate NotCurrent(p: Post, currentId: string) {
    p.id != IdText(currentId)
  }

  /** `populateRecentPosts`'s choice: the other posts, at most three. */
  function RecentPosts(posts: seq<Post>, currentId: string): (r: seq<Post>)
    ensures |r| <= RecentCount
    ensures forall p :: p in r ==> p in posts && p.id != IdText(currentId)
  {
    Take(Filter(posts, (p: Post) => NotCurrent(p, currentId)), RecentCount)
  }

  /** The first `n` posts other than the current one, walking the posts in order. */
  function FirstOthers(posts: seq<Post>, currentId: string, n: nat): seq<Post>
    decreases |posts|
  {
    if posts == [] || n == 0 then []
    else if posts[0].id == IdText(currentId) then FirstOthers(posts[1..], currentId, n)
    else [posts[0]] + FirstOthers(posts[1..], currentId, n - 1)
  }

  /** Filter-then-slice picks the same posts as the walk. */
  lemma {:induction false} TakeOthers(posts: seq<Post>, currentId: string, n: nat)
    ensures Take(Filter(posts, (p: Post) => NotCurrent(p, currentId)), n) == FirstOthers(posts, currentId, n)
    decreases |posts|
  {
    var f := (p: Post) => NotCurrent(p, currentId);
    if posts != [] {
      TakeOthers(posts[1..], currentId, if n == 0 then 0 else if f(posts[0]) then n - 1 else n);
      TakeOthersStep(posts, currentId, n);
    }
  }

  lemma TakeOthersStep(posts: seq<Post>, currentId: string, n: nat)
    requires posts != []
    requires var f := (p: Post) => NotCurrent(p, currentId);
      Take(Filter(posts[1..], f), if n == 0 then 0 else if f(posts[0]) then n - 1 else n) ==
      FirstOthers(posts[1..], currentId, if n == 0 then 0 else if f(posts[0]) then n - 1 else n)
    ensures Take(Filter(posts, (p: Post) => NotCurrent(p, currentId)), n) == FirstOthers(posts, currentId, n)
  {
    var f := (p: Post) => NotCurrent(p, currentId);
    var rest := Filter(posts[1..], f);
    if f(posts[0]) && n > 0 {
      assert Filter(posts, f) == [posts[0]] + rest;
      TakeCons(posts[0], rest, n);
    }
  }

  /** The recent posts are the first three non-current posts, in order. */
  lemma RecentAreFirstOthers(posts: seq<Post>, currentId: string)
    ensures RecentPosts(posts, currentId) == FirstOthers(posts, currentId, RecentCount)
  {
    TakeOthers(posts, currentId, RecentCount);
  }

  /** A numeric id never equals the slug, so such posts are always listed. */
  lemma NumericIdsNeverCurrent(posts: seq<Post>, currentId: string)
    requires forall i :: 0 <= i < |posts| ==> posts[i].id.IdNumber?
    ensures RecentPosts(posts, currentId) == Take(posts, RecentCount)
  {
    FilterExtremes(posts, (p: Post) => NotCurrent(p, currentId));
  }

  /** What the recent-posts container ends up showing: nothing is written
      without the container or the loaded data; otherwise the chosen posts,
      or the no-posts message when there are none. */
  function RecentPanel(hasContainer: bool, data: Option<seq<Post>>, currentId: string): (panel: Panel)
    ensures panel == Untouched <==> !hasContainer || data.None?
    ensures panel.Items? ==> 1 <= |panel.posts| <= RecentCount
    ensures panel.Items? ==> forall p :: p in panel.posts ==> p.id != IdText(currentId)
    ensures hasContainer && data.Some? && panel.Items? ==> panel.posts == RecentPosts(data.value, currentId)
  {
    if !hasContainer || data.None? then Untouched
    else
      var recent := RecentPosts(data.value, currentId);
      if |recent| > 0 then Items(recent) else NoRecentPosts
  }

  /** The message appears exactly when every loaded post is the current one. */
  lemma FallbackExactly(hasContainer: bool, data: Option<seq<Post>>, currentId: string)
    ensures RecentPanel(hasContainer, data, currentId) == NoRecentPosts <==>
      hasContainer && data.Some? && forall p :: p in data.value ==> p.id == IdText(currentId)
  {
    if hasContainer && data.Some? {
      var posts := data.value;
      var f := (p: Post) => NotCurrent(p, currentId);
      var fs := Filter(posts, f);
      if forall p :: p in posts ==> p.id == IdText(currentId) {
        forall i | 0 <= i < |posts| ensures !f(posts[i]) {
          assert posts[i] in posts;
        }
        FilterExtremes(posts, f);
      } else {
        var p :| p in posts && p.id != IdText(currentId);
        assert p in fs;
        assert |RecentPosts(posts, currentId)| == Min(RecentCount, |fs|);
      }
    }
  }
}
