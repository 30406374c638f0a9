/**
 * The blog list (server/routes/blogs.ts): the module state `mockBlogs` and
 * `nextId`, the read-time estimate, the list query (filter by status,
 * category and search, sort, paginate), creation, and the by-id view, like
 * and bookmark handlers.
 */
module Blogs {
  import opened Common
  import opened Text
  import opened Lists
  import opened Api

  /** `mockAuthor`: the author of every created post. */
  const MockAuthor: Author :=
    Author(1, "Current User", "/placeholder.svg", "Passionate writer and developer", Some(150), Some(12))

  const WordsPerMinute: nat := 200

  // ---------------------------------------------------------------- read time

  /**
   * The words of a post: the fields of its tag-stripped text split on white
   * space, one more than the text has runs of white space.
   */
  function WordCount(content: string): (w: nat)
    ensures w >= 1
    ensures w == 1 + Runs(StripTags(content))
  {
    SplitWhitespaceCount(StripTags(content));
    |SplitWhitespace(StripTags(content))|
  }

  /** `Math.ceil(wordCount / 200)`, in integers. */
  function ReadMinutes(content: string): (m: nat)
    ensures m >= 1
    ensures (m - 1) * WordsPerMinute < WordCount(content) <= m * WordsPerMinute
  {
    (WordCount(content) + WordsPerMinute - 1) / WordsPerMinute
  }

  /** calculateReadTime: the printed minutes, then " min read"; the number parses back. */
  function CalculateReadTime(content: string): (r: string)
    ensures ParseInt(r) == Some(ReadMinutes(content))
    ensures |r| > 9 && r[|r| - 9..] == " min read"
    ensures r[..|r| - 9] == NatToString(ReadMinutes(content))
  {
    var m := ReadMinutes(content);
    ParseIntOfNat(m, " min read");
    NatToString(m) + " min read"
  }

  // ---------------------------------------------------------------- the list query

  /** The query string of GET /api/blogs; a missing parameter is None. */
  datatype BlogQuery = BlogQuery(
    page: Option<string>,
    pageSize: Option<string>,
    category: Option<string>,
    search: Option<string>,
    sortBy: Option<string>)

  /** BlogListResponse; `page` and `pageSize` are None where parseInt gives NaN. */
  datatype BlogList = BlogList(blogs: seq<BlogPost>, total: nat, page: Option<nat>, pageSize: Option<nat>)

  predicate IsPublished(b: BlogPost) {
    b.status == Published
  }

  /** The category filter applies to a truthy category other than "All". */
  predicate CategoryFilterOn(q: BlogQuery) {
    Truthy(q.category) && q.category.value != "All"
  }

  predicate InCategory(b: BlogPost, category: string) {
    Lower(b.category) == Lower(category)
  }

  /** The lower-cased search term occurs in the title, excerpt, author name or a tag. */
  predicate SearchHit(b: BlogPost, term: string) {
    || Contains(Lower(b.title), term)
    || Contains(Lower(b.excerpt), term)
    || Contains(Lower(b.author.name), term)
    || (exists i | 0 <= i < |b.tags| :: Contains(Lower(b.tags[i]), term))
  }

  /** Whether a post belongs to the answer of `q`, all three filters at once. */
  predicate Selected(q: BlogQuery, b: BlogPost) {
    && IsPublished(b)
    && (CategoryFilterOn(q) ==> InCategory(b, q.category.value))
    && (Truthy(q.search) ==> SearchHit(b, Lower(q.search.value)))
  }

  function SelectedBy(q: BlogQuery): BlogPost -> bool {
    (b: BlogPost) => Selected(q, b)
  }

  /** The comparator of the sort: "popular" by likes, "comments" by comments, else by date. */
  function SortKey(sortBy: Option<string>): BlogPost -> int {
    if sortBy == Some("popular") then (b: BlogPost) => b.likes
    else if sortBy == Some("comments") then (b: BlogPost) => b.comments
    else (b: BlogPost) => b.publishedAt.GetOr(0)
  }

  /** The three filters, applied one after the other as the handler does. */
  function FilterChain(blogs: seq<BlogPost>, q: BlogQuery): seq<BlogPost> {
    var published := Filter(blogs, (b: BlogPost) => IsPublished(b));
    var inCategory :=
      if CategoryFilterOn(q) then Filter(published, (b: BlogPost) => InCategory(b, q.category.value))
      else published;
    if Truthy(q.search) then Filter(inCategory, (b: BlogPost) => SearchHit(b, Lower(q.search.value)))
    else inCategory
  }

  /** The chained filters keep exactly the posts `Selected` describes, in their order. */
  lemma FilterChainSelects(blogs: seq<BlogPost>, q: BlogQuery)
    ensures FilterChain(blogs, q) == Filter(blogs, SelectedBy(q))
  {
    var pub := (b: BlogPost) => IsPublished(b);
    var cat := (b: BlogPost) => CategoryFilterOn(q) ==> InCategory(b, q.category.value);
    var hit := (b: BlogPost) => Truthy(q.search) ==> SearchHit(b, Lower(q.search.value));
    var pubCat := (b: BlogPost) => pub(b) && cat(b);
    FilterFilter(blogs, pub, cat, pubCat);
    FilterFilter(Filter(blogs, pubCat), pubCat, hit, SelectedBy(q));
    FilterFilter(blogs, pubCat, hit, SelectedBy(q));
    if CategoryFilterOn(q) {
      FilterSame(Filter(blogs, pub), cat, (b: BlogPost) => InCategory(b, q.category.value));
    } else {
      FilterAll(Filter(blogs, pub), cat);
    }
    if Truthy(q.search) {
      FilterSame(Filter(blogs, pubCat), hit, (b: BlogPost) => SearchHit(b, Lower(q.search.value)));
    } else {
      FilterAll(Filter(blogs, pubCat), hit);
    }
    FilterSame(blogs, pub, (b: BlogPost) => IsPublished(b));
  }

  // ---------------------------------------------------------------- creation

  /** The body of POST /api/blogs; a missing field is None. */
  datatype CreateBlogRequest = CreateBlogRequest(
    title: Option<string>,
    excerpt: Option<string>,
    content: Option<string>,
    category: Option<string>,
    tags: Option<seq<string>>,
    imageUrl: Option<string>,
    publishType: Option<string>)

  /** The fields createBlog insists on: title, content and category, all truthy. */
  predicate Complete(req: CreateBlogRequest) {
    Truthy(req.title) && Truthy(req.content) && Truthy(req.category)
  }

  /** At most the first 200 characters of the tag-stripped content, then "...". */
  function DefaultExcerpt(content: string): (r: string)
    ensures |r| == Min(200, |StripTags(content)|) + 3
    ensures r[..|r| - 3] <= StripTags(content) && r[|r| - 3..] == "..."
  {
    var text := StripTags(content);
    text[..Min(200, |text|)] + "..."
  }

  /** The post createBlog builds from a complete request, with id `id`, at time `now`. */
  function NewBlog(id: nat, req: CreateBlogRequest, now: Timestamp): (b: BlogPost)
    requires Complete(req)
    ensures b.id == id && b.author == MockAuthor
    ensures b.title == req.title.value && b.content == req.content.value && b.category == req.category.value
    ensures b.excerpt == if Truthy(req.excerpt) then req.excerpt.value else DefaultExcerpt(req.content.value)
    ensures b.readTime == CalculateReadTime(req.content.value)
    ensures ParseInt(b.readTime) == Some(ReadMinutes(req.content.value))
    ensures b.likes == 0 && b.comments == 0 && b.views == 0 && !b.isLiked && !b.isBookmarked
    ensures b.status == Published <==> req.publishType == Some("publish")
    ensures b.publishedAt == if b.status == Published then Some(now) else None
    ensures b.tags == req.tags.GetOr([])
    ensures b.imageUrl == if Truthy(req.imageUrl) then req.imageUrl.value else "/placeholder.svg"
    ensures b.updatedAt == None && b.featured == None
  {
    var publish := req.publishType == Some("publish");
    BlogPost(
      id, req.title.value,
      if Truthy(req.excerpt) then req.excerpt.value else DefaultExcerpt(req.content.value),
      req.content.value, MockAuthor,
      if publish then Some(now) else None, None,
      CalculateReadTime(req.content.value), req.category.value, req.tags.GetOr([]),
      if Truthy(req.imageUrl) then req.imageUrl.value else "/placeholder.svg",
      0, false, false, 0, 0, None,
      if publish then Published else Draft)
  }

  // ---------------------------------------------------------------- lookup and toggles

  /**
   * `mockBlogs.find(b => b.id === parseInt(id))`, as an index: the first post
   * carrying the parsed id, None when the id does not parse or no post has it.
   */
  function BlogIndex(blogs: seq<BlogPost>, id: string): (r: Option<nat>)
    ensures r.Some? ==> r.value < |blogs| && ParseInt(id) == Some(blogs[r.value].id)
    ensures r.Some? ==> forall j | 0 <= j < r.value :: blogs[j].id != blogs[r.value].id
    ensures r.None? <==> ParseInt(id).None? || forall j | 0 <= j < |blogs| :: blogs[j].id != ParseInt(id).value
  {
    var n := ParseInt(id);
    if n.None? then None else FirstIndex(blogs, (b: BlogPost) => b.id == n.value)
  }

  /** A post with one more view. */
  function Viewed(b: BlogPost): (r: BlogPost)
    ensures r.views == b.views + 1 && r.(views := b.views) == b
  {
    b.(views := b.views + 1)
  }

  /** `isLiked` flipped, and `likes` moved by one in the same direction. */
  function LikeToggled(b: BlogPost): (r: BlogPost)
    ensures r.isLiked == !b.isLiked
    ensures r.likes == if r.isLiked then b.likes + 1 else b.likes - 1
    ensures r.(isLiked := b.isLiked, likes := b.likes) == b
  {
    var liked := !b.isLiked;
    b.(isLiked := liked, likes := if liked then b.likes + 1 else b.likes - 1)
  }

  /** `isBookmarked` flipped, nothing else. */
  function BookmarkToggled(b: BlogPost): (r: BlogPost)
    ensures r.isBookmarked == !b.isBookmarked && r.(isBookmarked := b.isBookmarked) == b
  {
    b.(isBookmarked := !b.isBookmarked)
  }

  lemma LikeToggledTwice(b: BlogPost)
    ensures LikeToggled(LikeToggled(b)) == b
  {
  }

  lemma BookmarkToggledTwice(b: BlogPost)
    ensures BookmarkToggled(BookmarkToggled(b)) == b
  {
  }

  /** A liked post has at least its viewer's like; no count is negative. */
  predicate LikeCountOk(b: BlogPost) {
    b.likes >= if b.isLiked then 1 else 0
  }

  /** Toggling a like keeps the like count consistent. */
  lemma LikeToggledOk(b: BlogPost)
    requires LikeCountOk(b)
    ensures LikeCountOk(LikeToggled(b))
  {
  }

  /** BlogDetailResponse: the post, and comments always empty. */
  datatype BlogDetail = BlogDetail(blog: BlogPost, comments: seq<Comment>)

  datatype BookmarkState = BookmarkState(isBookmarked: bool)

  // ---------------------------------------------------------------- seed data

  const SeedContent1: string := @"
      <div class=""prose max-w-none"">
        <p class=""text-lg text-muted-foreground mb-6"">Web development continues to evolve at a rapid pace, with new technologies and methodologies emerging regularly. As we move through 2024, several key trends are shaping the future of how we build and interact with web applications.</p>
        
        <h2 class=""text-2xl font-bold mt-8 mb-4"">AI Integration in Development</h2>
        <p>Artificial Intelligence is no longer just a buzzword in web development. Tools like GitHub Copilot, ChatGPT, and Claude are revolutionizing how developers write code, debug issues, and architect applications.</p>
        
        <blockquote class=""border-l-4 border-primary pl-4 italic my-6 text-muted-foreground"">
          ""AI is not replacing developers; it's making them more efficient and creative."" - Industry Expert
        </blockquote>
        
        <h2 class=""text-2xl font-bold mt-8 mb-4"">Server Components and React 18</h2>
        <p>React Server Components represent a paradigm shift in how we think about rendering. By allowing components to run on the server, we can reduce bundle sizes and improve performance significantly.</p>
        
        <ul class=""list-disc pl-6 my-4 space-y-2"">
          <li>Reduced JavaScript bundle sizes</li>
          <li>Better SEO and initial page load times</li>
          <li>Seamless integration with existing React applications</li>
          <li>Enhanced developer experience with zero-config</li>
        </ul>
        
        <h2 class=""text-2xl font-bold mt-8 mb-4"">The Rise of Edge Computing</h2>
        <p>Edge computing is bringing computation closer to users, reducing latency and improving user experience. Platforms like Vercel Edge Functions and Cloudflare Workers are making edge deployment accessible to all developers.</p>
        
        <h2 class=""text-2xl font-bold mt-8 mb-4"">TypeScript Everywhere</h2>
        <p>TypeScript adoption has reached a tipping point. From frontend frameworks to backend APIs, TypeScript is becoming the default choice for new projects, offering better developer experience and fewer runtime errors.</p>
        
        <h2 class=""text-2xl font-bold mt-8 mb-4"">Conclusion</h2>
        <p>The future of web development is exciting and full of possibilities. As these technologies mature and new ones emerge, developers who stay curious and adaptable will be best positioned to build the next generation of web applications.</p>
      </div>
    "

  const SeedExcerpt1: string := "Explore the latest trends, technologies, and frameworks that are shaping the future of web development. From AI integration to serverless architecture, discover what's coming next."
  const SeedExcerpt2: string := "A comprehensive guide to understanding and implementing React Server Components in your applications. Learn the benefits, challenges, and best practices."
  const SeedExcerpt3: string := "Learn how to design and build APIs that can handle millions of requests. Best practices for performance, security, and maintainability."

  /** The three seed posts of `mockBlogs`. */
  function SeedBlogs(): seq<BlogPost> {
    [ BlogPost(1, "The Future of Web Development: What to Expect in 2024", SeedExcerpt1, SeedContent1,
               Author(1, "Sarah Chen", "/placeholder.svg", "Senior Full Stack Developer at TechCorp", Some(1250), Some(45)),
               Some(20240115103000), Some(20240115142000), "8 min read", "Technology",
               ["React", "AI", "TypeScript", "Web Development"], "/placeholder.svg",
               234, false, false, 45, 3200, Some(true), Published),
      BlogPost(2, "Mastering React Server Components", SeedExcerpt2,
               "<p>Detailed content about React Server Components...</p>",
               Author(2, "Alex Rodriguez", "/placeholder.svg", "React Developer", None, None),
               Some(20240114091500), None, "6 min read", "React",
               ["React", "SSR", "Performance"], "/placeholder.svg",
               189, false, false, 32, 2100, None, Published),
      BlogPost(3, "Building Scalable APIs with Node.js", SeedExcerpt3,
               "<p>Detailed content about Node.js APIs...</p>",
               Author(3, "Emma Thompson", "/placeholder.svg", "Backend Engineer", None, None),
               Some(20240113143000), None, "10 min read", "Backend",
               ["Node.js", "API", "Scalability"], "/placeholder.svg",
               156, false, false, 28, 1800, None, Published) ]
  }

  /**
   * Ids are below the counter and pairwise distinct, like counts are
   * consistent, and every published post has a publication time.
   */
  ghost predicate ValidBlogs(blogs: seq<BlogPost>, nextId: nat) {
    && (forall i | 0 <= i < |blogs| :: blogs[i].id < nextId)
    && (forall i, j | 0 <= i < j < |blogs| :: blogs[i].id != blogs[j].id)
    && (forall i | 0 <= i < |blogs| :: LikeCountOk(blogs[i]))
    && (forall i | 0 <= i < |blogs| :: IsPublished(blogs[i]) ==> blogs[i].publishedAt.Some?)
  }

  /** A consistent post carrying the next id can go in front of a valid list. */
  lemma ValidPrepend(b: BlogPost, blogs: seq<BlogPost>, nextId: nat)
    requires ValidBlogs(blogs, nextId)
    requires b.id == nextId && LikeCountOk(b) && (IsPublished(b) ==> b.publishedAt.Some?)
    ensures ValidBlogs([b] + blogs, nextId + 1)
  {
    var s := [b] + blogs;
    assert forall i | 1 <= i < |s| :: s[i] == blogs[i - 1];
  }

  lemma SeedBlogsValid()
    ensures ValidBlogs(SeedBlogs(), 4)
  {
    var s := SeedBlogs();
    assert |s| == 3;
    assert s[0].id == 1 && s[1].id == 2 && s[2].id == 3;
    assert LikeCountOk(s[0]) && LikeCountOk(s[1]) && LikeCountOk(s[2]);
    assert s[0].publishedAt.Some? && s[1].publishedAt.Some? && s[2].publishedAt.Some?;
  }

  // ---------------------------------------------------------------- the store

  /** The module state `mockBlogs` and `nextId`. */
  class BlogStore {
    var blogs: seq<BlogPost>
    var nextId: nat

    ghost predicate Valid()
      reads this
    {
      ValidBlogs(blogs, nextId)
    }

    constructor ()
      ensures Valid()
      ensures blogs == SeedBlogs() && nextId == 4
    {
      blogs := SeedBlogs();
      nextId := 4;
      new;
      SeedBlogsValid();
    }

    /**
     * getAllBlogs: the posts `Selected` by the query, sorted by the key
     * `sortBy` names (larger first, ties in list order), cut to the page.
     */
    function GetAllBlogs(q: BlogQuery): (r: BlogList)
      reads this
      ensures r.total == |Filter(blogs, SelectedBy(q))|
      ensures r.page == ParseInt(q.page.GetOr("1")) && r.pageSize == ParseInt(q.pageSize.GetOr("10"))
      ensures r.blogs == Paginate(SortDesc(Filter(blogs, SelectedBy(q)), SortKey(q.sortBy)), r.page, r.pageSize)
      ensures forall b | b in r.blogs :: b in blogs && Selected(q, b)
      ensures r.pageSize.Some? ==> |r.blogs| <= r.pageSize.value
      ensures SortedDesc(r.blogs, SortKey(q.sortBy))
    {
      var filtered := FilterChain(blogs, q);
      var sorted := SortDesc(filtered, SortKey(q.sortBy));
      var pageNum := ParseInt(q.page.GetOr("1"));
      var pageSizeNum := ParseInt(q.pageSize.GetOr("10"));
      var paged := Paginate(sorted, pageNum, pageSizeNum);
      FilterChainSelects(blogs, q);
      PaginatedSelection(blogs, SelectedBy(q), SortKey(q.sortBy), pageNum, pageSizeNum);
      BlogList(paged, |filtered|, pageNum, pageSizeNum)
    }

    /** createBlog: a new post in front of the list, or 400 for an incomplete request. */
    method CreateBlog(req: CreateBlogRequest, now: Timestamp) returns (r: Response<BlogPost>)
      requires Valid()
      modifies this
      ensures Valid()
      ensures !Complete(req) ==> r == BadRequest && blogs == old(blogs) && nextId == old(nextId)
      ensures Complete(req) ==>
        && r == Created(NewBlog(old(nextId), req, now))
        && blogs == [r.body] + old(blogs)
        && nextId == old(nextId) + 1
    {
      if !Complete(req) {
        return BadRequest;
      }
      var b := NewBlog(nextId, req, now);
      ValidPrepend(b, blogs, nextId);
      nextId := nextId + 1;
      blogs := [b] + blogs;
      r := Created(b);
    }

    /** getBlogById: the post with one more view, or 404. */
    method GetBlogById(id: string) returns (r: Response<BlogDetail>)
      requires Valid()
      modifies this`blogs
      ensures Valid()
      ensures BlogIndex(old(blogs), id).None? ==> r == NotFound && blogs == old(blogs)
      ensures BlogIndex(old(blogs), id).Some? ==>
        var k := BlogIndex(old(blogs), id).value;
        && blogs == old(blogs)[k := Viewed(old(blogs)[k])]
        && r == Ok(BlogDetail(blogs[k], []))
    {
      var k := BlogIndex(blogs, id);
      if k.None? {
        return NotFound;
      }
      blogs := blogs[k.value := Viewed(blogs[k.value])];
      r := Ok(BlogDetail(blogs[k.value], []));
    }

    /** toggleBlogLike: the new like state of the post, or 404. */
    method ToggleBlogLike(id: string) returns (r: Response<LikeState>)
      requires Valid()
      modifies this`blogs
      ensures Valid()
      ensures BlogIndex(old(blogs), id).None? ==> r == NotFound && blogs == old(blogs)
      ensures BlogIndex(old(blogs), id).Some? ==>
        var k := BlogIndex(old(blogs), id).value;
        && blogs == old(blogs)[k := LikeToggled(old(blogs)[k])]
        && r == Ok(LikeState(blogs[k].isLiked, blogs[k].likes))
    {
      var k := BlogIndex(blogs, id);
      if k.None? {
        return NotFound;
      }
      LikeToggledOk(blogs[k.value]);
      blogs := blogs[k.value := LikeToggled(blogs[k.value])];
      r := Ok(LikeState(blogs[k.value].isLiked, blogs[k.value].likes));
    }

    /** toggleBlogBookmark: the new bookmark flag of the post, or 404. */
    method ToggleBlogBookmark(id: string) returns (r: Response<BookmarkState>)
      requires Valid()
      modifies this`blogs
      ensures Valid()
      ensures BlogIndex(old(blogs), id).None? ==> r == NotFound && blogs == old(blogs)
      ensures BlogIndex(old(blogs), id).Some? ==>
        var k := BlogIndex(old(blogs), id).value;
        && blogs == old(blogs)[k := BookmarkToggled(old(blogs)[k])]
        && r == Ok(BookmarkState(blogs[k].isBookmarked))
    {
      var k := BlogIndex(blogs, id);
      if k.None? {
        return NotFound;
      }
      blogs := blogs[k.value := BookmarkToggled(blogs[k.value])];
      r := Ok(BookmarkState(blogs[k.value].isBookmarked));
    }
  }
}
