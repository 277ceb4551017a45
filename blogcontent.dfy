/**
 * carego-dev.webflow/js/blog-content.js: the news page's populator.  It
 * keeps the loaded posts, the posts of the chosen category, the category and
 * the page, and fills the carousel, the grid and the title from them.  The
 * selections are functions; the populator is a class whose methods update
 * its fields as the script's methods do.
 */
module BlogContent {
  import opened Text
  import opened Seqs
  import opened BlogPosts

  const PostsPerPage: nat := 6
  const CarouselSize: nat := 6
  const AllCategory: string := "all"
  const AllTitle: string := "All Blog Posts"

  /** The grid filter's test: the post's category, lower-cased, is the chosen one. */
  predicate InCategory(p: Post, category: string) {
    Lower(p.category) == category
  }

  /** The posts `filterPosts` keeps for a category. */
  function CategoryPosts(posts: seq<Post>, category: string): (r: seq<Post>)
    ensures category == AllCategory ==> r == posts
    ensures category != AllCategory ==> forall p :: p in r <==> p in posts && InCategory(p, category)
  {
    if category == AllCategory then posts else Filter(posts, p => InCategory(p, category))
  }

  /** The selection keeps the order of the posts: it distributes over concatenation. */
  lemma CategoryPostsConcat(a: seq<Post>, b: seq<Post>, category: string)
    ensures CategoryPosts(a + b, category) == CategoryPosts(a, category) + CategoryPosts(b, category)
  {
    if category != AllCategory {
      FilterConcat(a, b, p => InCategory(p, category));
    }
  }

  /** A category with an upper-case letter selects nothing, since every
      post's category is compared lower-cased. */
  lemma UpperCaseCategoryEmpty(posts: seq<Post>, category: string, k: nat)
    requires k < |category| && IsUpperAscii(category[k])
    ensures CategoryPosts(posts, category) == []
  {
    forall i | 0 <= i < |posts| ensures !InCategory(posts[i], category) {
      var c := posts[i].category;
      if |Lower(c)| == |category| {
        assert Lower(c)[k] == LowerChar(c[k]);
      }
    }
    FilterExtremes(posts, p => InCategory(p, category));
  }

  /** Where a page starts and ends in the list of `n` posts. */
  function PageStart(page: int, n: nat): nat {
    Clamp((page - 1) * PostsPerPage, n)
  }

  function PageEnd(page: int, n: nat): nat {
    Clamp((page - 1) * PostsPerPage + PostsPerPage, n)
  }

  /** The posts `populateBlogGrid` shows for a page. */
  function PageOf(posts: seq<Post>, page: int): (r: seq<Post>)
    ensures |r| <= PostsPerPage
  {
    SliceBounded(posts, (page - 1) * PostsPerPage, PostsPerPage);
    Slice(posts, (page - 1) * PostsPerPage, (page - 1) * PostsPerPage + PostsPerPage)
  }

  /** Page `p` is the run of posts from `(p-1)*6` up to `p*6`, cut at the
      end of the list; past the end it is empty. */
  lemma PageSpan(posts: seq<Post>, page: int)
    requires page >= 1
    ensures PageStart(page, |posts|) == Min((page - 1) * PostsPerPage, |posts|)
    ensures PageEnd(page, |posts|) == Min(page * PostsPerPage, |posts|)
    ensures PageOf(posts, page) == posts[PageStart(page, |posts|)..PageEnd(page, |posts|)]
    ensures (page - 1) * PostsPerPage >= |posts| ==> PageOf(posts, page) == []
  {
  }

  /** Earlier pages end where later ones may start: no post is on two pages. */
  lemma PagesOrdered(n: nat, p: int, q: int)
    requires 1 <= p < q
    ensures PageEnd(p, n) <= PageStart(q, n)
    ensures q == p + 1 ==> PageEnd(p, n) == PageStart(q, n)
  {
  }

  /** Pages 1 to k, one after another. */
  function FirstPages(posts: seq<Post>, k: nat): seq<Post> {
    if k == 0 then [] else FirstPages(posts, k - 1) + PageOf(posts, k)
  }

  /** Pages 1 to k together are the first `6k` posts: nothing is skipped or repeated. */
  lemma {:induction false} FirstPagesPrefix(posts: seq<Post>, k: nat)
    ensures FirstPages(posts, k) == posts[..Min(k * PostsPerPage, |posts|)]
  {
    if k > 0 {
      FirstPagesPrefix(posts, k - 1);
      PageSpan(posts, k);
      var a := Min((k - 1) * PostsPerPage, |posts|);
      var b := Min(k * PostsPerPage, |posts|);
      assert posts[..a] + posts[a..b] == posts[..b];
    }
  }

  predicate IsFeatured(p: Post) { p.featured }

  /** The carousel's posts: the first six featured ones, in order. */
  function FeaturedPosts(posts: seq<Post>): (r: seq<Post>)
    ensures |r| == Min(CarouselSize, |Filter(posts, IsFeatured)|)
    ensures forall p :: p in r ==> p in posts && IsFeatured(p)
    ensures r <= Filter(posts, IsFeatured)
  {
    Take(Filter(posts, IsFeatured), CarouselSize)
  }

  /** The carousel is filled exactly when some post is featured, and then
      with all of them when there are at most six. */
  lemma FeaturedWhen(posts: seq<Post>)
    ensures FeaturedPosts(posts) != [] <==> exists p :: p in posts && IsFeatured(p)
    ensures |Filter(posts, IsFeatured)| <= CarouselSize ==> FeaturedPosts(posts) == Filter(posts, IsFeatured)
  {
    var fs := Filter(posts, IsFeatured);
    var r := FeaturedPosts(posts);
    if exists p :: p in posts && IsFeatured(p) {
      var p :| p in posts && IsFeatured(p);
      assert p in fs;
    }
    if r != [] {
      assert r[0] in r;
    }
    assert fs[..|fs|] == fs;
  }

  /** The title for a category: `All Blog Posts`, or the category with its
      first character upper-cased. */
  function CategoryTitle(category: string): (r: string)
    ensures category == AllCategory ==> r == AllTitle
    ensures category != AllCategory ==> |r| == |category|
    ensures category != AllCategory && |category| > 0 ==> r[0] == UpperChar(category[0]) && r[1..] == category[1..]
  {
    if category == AllCategory then AllTitle
    else if category == [] then []
    else [UpperChar(category[0])] + category[1..]
  }

  /** A lower-case category is recovered from its title by lower-casing. */
  lemma TitleLowersBack(category: string)
    requires category != AllCategory && Lower(category) == category
    ensures Lower(CategoryTitle(category)) == category
  {
    if |category| > 0 {
      var r := CategoryTitle(category);
      assert LowerChar(category[0]) == category[0];
      assert Lower(r)[0] == category[0];
      forall i | 1 <= i < |r| ensures Lower(r)[i] == category[i] {
        assert r[i] == category[i];
        assert LowerChar(category[i]) == Lower(category)[i];
      }
    }
  }

  /** The category a filter label selects: its text trimmed and lower-cased. */
  function LabelCategory(labelText: string): (c: string)
    ensures c == Lower(Trim(labelText))
    ensures Lower(c) == c
  {
    LowerIdempotent(Trim(labelText));
    Lower(Trim(labelText))
  }

  class BlogContentPopulator {
    var posts: seq<Post>
    var filteredPosts: seq<Post>
    var currentCategory: string
    var currentPage: int
    const postsPerPage: nat

    /** The grid shows the posts of the current category. */
    predicate Valid()
      reads this
    {
      filteredPosts == CategoryPosts(posts, currentCategory) && postsPerPage == PostsPerPage
    }

    /** The populator once `loadBlogData` has stored the posts. */
    constructor (loaded: seq<Post>)
      ensures posts == loaded && filteredPosts == loaded
      ensures currentCategory == AllCategory && currentPage == 1 && postsPerPage == PostsPerPage
      ensures Valid()
    {
      posts := loaded;
      filteredPosts := loaded;
      currentCategory := AllCategory;
      currentPage := 1;
      postsPerPage := PostsPerPage;
    }

    /** `filterPosts`: only `filteredPosts` is reassigned. */
    method FilterPosts()
      modifies this`filteredPosts
      ensures filteredPosts == CategoryPosts(posts, currentCategory)
      ensures postsPerPage == PostsPerPage ==> Valid()
    {
      if currentCategory == AllCategory {
        filteredPosts := posts;
      } else {
        var category := currentCategory;
        filteredPosts := Filter(posts, p => InCategory(p, category));
      }
    }

    /** `populateBlogGrid`: when the grid is there, it is cleared and one
        item is appended for each post of the current page. */
    method PopulateBlogGrid(grid: Option<Panel>) returns (grid': Option<Panel>)
      requires Valid()
      ensures grid.None? ==> grid' == None
      ensures grid.Some? ==> grid' == Some(Items(PageOf(CategoryPosts(posts, currentCategory), currentPage)))
    {
      if grid.None? {
        return None;
      }
      var start := (currentPage - 1) * postsPerPage;
      var toShow := Slice(filteredPosts, start, start + postsPerPage);
      var shown: seq<Post> := [];
      var i := 0;
      while i < |toShow|
        invariant 0 <= i <= |toShow| && shown == toShow[..i]
      {
        shown := shown + [toShow[i]];
        i := i + 1;
      }
      assert shown == toShow;
      grid' := Some(Items(shown));
    }

    /** `populateCarousel`: the carousel is replaced by the featured posts
        when it is there and some post is featured, and left alone otherwise. */
    method PopulateCarousel(carousel: Option<Panel>) returns (carousel': Option<Panel>)
      ensures carousel.Some? && FeaturedPosts(posts) != [] ==> carousel' == Some(Items(FeaturedPosts(posts)))
      ensures !(carousel.Some? && FeaturedPosts(posts) != []) ==> carousel' == carousel
    {
      var featured := FeaturedPosts(posts);
      if carousel.Some? && |featured| > 0 {
        var shown: seq<Post> := [];
        var i := 0;
        while i < |featured|
          invariant 0 <= i <= |featured| && shown == featured[..i]
        {
          shown := shown + [featured[i]];
          i := i + 1;
        }
        assert shown == featured;
        carousel' := Some(Items(shown));
      } else {
        carousel' := carousel;
      }
    }

    /** `updateCategoryTitle`: the heading, when there is one, names the category. */
    method UpdateCategoryTitle(title: Option<string>) returns (title': Option<string>)
      ensures title.None? ==> title' == None
      ensures title.Some? ==> title' == Some(CategoryTitle(currentCategory))
    {
      if title.Some? {
        title' := Some(CategoryTitle(currentCategory));
      } else {
        title' := None;
      }
    }

    /** The change handler of a category radio button. */
    method OnCategoryChange(labelText: string, grid: Option<Panel>, title: Option<string>)
      returns (grid': Option<Panel>, title': Option<string>)
      requires postsPerPage == PostsPerPage
      modifies this`currentCategory, this`currentPage, this`filteredPosts
      ensures currentCategory == LabelCategory(labelText) && currentPage == 1
      ensures filteredPosts == CategoryPosts(posts, currentCategory) && Valid()
      ensures grid.Some? ==> grid' == Some(Items(PageOf(filteredPosts, 1)))
      ensures grid.None? ==> grid' == None
      ensures title.Some? ==> title' == Some(CategoryTitle(currentCategory))
      ensures title.None? ==> title' == None
    {
      currentCategory := Lower(Trim(labelText));
      currentPage := 1;
      FilterPosts();
      grid' := PopulateBlogGrid(grid);
      title' := UpdateCategoryTitle(title);
    }
  }

  /** After any category change, the grid shows the first six posts of
      the chosen category, drawn in order from the loaded posts. */
  lemma ChangeShowsFirstPage(posts: seq<Post>, labelText: string)
    ensures var c := LabelCategory(labelText);
      PageOf(CategoryPosts(posts, c), 1) == Take(CategoryPosts(posts, c), PostsPerPage)
  {
    var c := LabelCategory(labelText);
    PageSpan(CategoryPosts(posts, c), 1);
  }
}
