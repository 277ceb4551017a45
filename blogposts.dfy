/**
 * The blog post record of `data/blog-posts.json`, as the two browser
 * scripts read it, and the content a page container can end up with.
 */
module BlogPosts {

  /** A post `id`: JSON gives either a string or a number, and `!==` never
      finds a number equal to a string. */
  datatype PostId = IdText(text: string) | IdNumber(n: int)

  datatype Post = Post(
    id: PostId,
    slug: string,
    title: string,
    author: string,
    date: string,
    category: string,
    excerpt: string,
    featuredImage: string,
    featured: bool)

  /** What a container shows after a script has filled it: the markup it
      held before, one generated item per post, or the no-posts message. */
  datatype Panel = Untouched | Items(posts: seq<Post>) | NoRecentPosts

  datatype Option<T> = None | Some(value: T)
}
