/**
 * The records exchanged by client and server (shared/api.ts). Optional
 * properties are Option values. Timestamps are integers whose order is the
 * chronological order of the ISO-8601 strings the server stores; the seed
 * data writes them as the number YYYYMMDDhhmmss.
 */
module Api {
  import opened Common

  type Timestamp = int

  datatype Author = Author(
    id: int,
    name: string,
    avatar: string,
    bio: string,
    followers: Option<int>,
    articles: Option<int>)

  datatype User = User(
    id: nat,
    name: string,
    email: string,
    avatar: string,
    bio: string,
    role: string,
    followers: Option<int>,
    articles: Option<int>,
    createdAt: Timestamp,
    updatedAt: Option<Timestamp>)

  /** A comment and, recursively, the replies it owns, in insertion order. */
  datatype Comment = Comment(
    id: nat,
    author: Author,
    content: string,
    publishedAt: Timestamp,
    likes: int,
    isLiked: bool,
    replies: seq<Comment>)

  /** The payload of both like toggles: the new flag and the new count. */
  datatype LikeState = LikeState(isLiked: bool, likes: int)

  datatype Status = Draft | Published

  /** A blog post; `publishedAt` is None for the empty string a draft gets. */
  datatype BlogPost = BlogPost(
    id: nat,
    title: string,
    excerpt: string,
    content: string,
    author: Author,
    publishedAt: Option<Timestamp>,
    updatedAt: Option<Timestamp>,
    readTime: string,
    category: string,
    tags: seq<string>,
    imageUrl: string,
    likes: int,
    isLiked: bool,
    isBookmarked: bool,
    comments: int,
    views: int,
    featured: Option<bool>,
    status: Status)
}
