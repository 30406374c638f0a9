/**
 * The comment store of server/routes/comments.ts: one global forest of
 * comments (the blog id of a request is ignored), a counter that hands out
 * comment ids, a pre-order depth-first lookup by id, adding a top-level
 * comment or a reply under any node, and toggling a comment's like.
 *
 * The handlers change the node that the lookup returns in place. Here the
 * forest is a value, and ApplyAt rebuilds it with the same change made to
 * the node the lookup finds: the first node with the id in document order.
 */
module Comments {
  import opened Common
  import opened Text
  import opened Lists
  import opened Api

  /** The author every comment posted through the API is attributed to. */
  const CurrentUser := Author(999, "Current User", "/placeholder.svg", "Blog Reader", None, None)

  /** The comment addComment builds: nobody has liked it and it has no replies. */
  function NewComment(id: nat, content: string, now: Timestamp): Comment {
    Comment(id, CurrentUser, content, now, 0, false, [])
  }

  // ---------------------------------------------------------------- lookup

  /**
   * findInReplies (and findCommentById, which is the same search over the
   * top-level list): test each comment, then search its replies, then move to
   * the next sibling; the first match wins.
   */
  function Find(forest: seq<Comment>, id: int): (r: Option<Comment>)
    ensures r.Some? ==> r.value.id == id
  {
    if forest == [] then None
    else if forest[0].id == id then Some(forest[0])
    else
      var nested := Find(forest[0].replies, id);
      if nested.Some? then nested else Find(forest[1..], id)
  }

  /** Every node of the forest in document order: a comment, then its replies, then its next sibling. */
  function Preorder(forest: seq<Comment>): seq<Comment> {
    if forest == [] then []
    else [forest[0]] + Preorder(forest[0].replies) + Preorder(forest[1..])
  }

  /** The ids of all nodes at every depth, with their multiplicities. */
  function Ids(forest: seq<Comment>): multiset<nat> {
    if forest == [] then multiset{}
    else multiset{forest[0].id} + Ids(forest[0].replies) + Ids(forest[1..])
  }

  function HasId(id: int): Comment -> bool {
    (c: Comment) => c.id == id
  }

  lemma {:induction false} FindAppend(a: seq<Comment>, b: seq<Comment>, id: int)
    ensures Find(a + b, id) == if Find(a, id).Some? then Find(a, id) else Find(b, id)
  {
    if a == [] {
      assert a + b == b;
    } else {
      assert (a + b)[0] == a[0];
      assert (a + b)[1..] == a[1..] + b;
      FindAppend(a[1..], b, id);
    }
  }

  lemma {:induction false} IdsAppend(a: seq<Comment>, b: seq<Comment>)
    ensures Ids(a + b) == Ids(a) + Ids(b)
  {
    if a == [] {
      assert a + b == b;
    } else {
      assert (a + b)[0] == a[0];
      assert (a + b)[1..] == a[1..] + b;
      IdsAppend(a[1..], b);
    }
  }

  /** The lookup fails exactly when no node at any depth carries the id. */
  lemma {:induction false} FindNoneIffAbsent(forest: seq<Comment>, id: int)
    ensures Find(forest, id).None? <==> id !in Ids(forest)
  {
    if forest != [] {
      var head, tail := forest[0], forest[1..];
      FindNoneIffAbsent(head.replies, id);
      FindNoneIffAbsent(tail, id);
      assert Ids(forest) == multiset{head.id} + Ids(head.replies) + Ids(tail);
      assert Find(forest, id).None? <==> head.id != id && Find(head.replies, id).None? && Find(tail, id).None?;
    }
  }

  /**
   * The lookup is a pre-order search: it returns the first node, in document
   * order, that carries the id, and nothing when there is none.
   */
  lemma {:induction false} FindIsFirstInPreorder(forest: seq<Comment>, id: int)
    ensures Find(forest, id) == FindFirst(Preorder(forest), HasId(id))
  {
    if forest != [] {
      var head, below, rest := forest[0], Preorder(forest[0].replies), Preorder(forest[1..]);
      var p := HasId(id);
      var first := if head.id == id then Some(head) else None;
      calc {
        FindFirst(Preorder(forest), p);
        { assert Preorder(forest) == [head] + (below + rest); }
        FindFirst([head] + (below + rest), p);
        { FindFirstAppend([head], below + rest, p);
          assert FindFirst([head], p) == first; }
        if first.Some? then first else FindFirst(below + rest, p);
        { FindFirstAppend(below, rest, p); }
        if first.Some? then first else if FindFirst(below, p).Some? then FindFirst(below, p) else FindFirst(rest, p);
        { FindIsFirstInPreorder(forest[0].replies, id);
          FindIsFirstInPreorder(forest[1..], id); }
        Find(forest, id);
      }
    }
  }

  // ---------------------------------------------------------------- in-place changes

  /** A change the handlers make to the node the lookup returned. */
  datatype Edit = AppendReply(reply: Comment) | ToggleLike

  /** `isLiked` flipped, and `likes` moved by one in the same direction. */
  function Toggled(c: Comment): (r: Comment)
    ensures r.id == c.id && r.replies == c.replies
    ensures r.isLiked == !c.isLiked
    ensures r.likes == if r.isLiked then c.likes + 1 else c.likes - 1
    ensures r.(isLiked := c.isLiked, likes := c.likes) == c
  {
    var liked := !c.isLiked;
    c.(isLiked := liked, likes := if liked then c.likes + 1 else c.likes - 1)
  }

  lemma ToggledTwice(c: Comment)
    ensures Toggled(Toggled(c)) == c
  {
  }

  function Apply(e: Edit, c: Comment): (r: Comment)
    ensures r.id == c.id
  {
    match e
    case AppendReply(x) => c.(replies := c.replies + [x])
    case ToggleLike => Toggled(c)
  }

  /** The ids an edit brings into the forest. */
  function Added(e: Edit): multiset<nat> {
    match e
    case AppendReply(x) => Ids([x])
    case ToggleLike => multiset{}
  }

  /** The forest with `e` applied to the node Find(forest, id) returns. */
  function ApplyAt(forest: seq<Comment>, id: int, e: Edit): seq<Comment> {
    if forest == [] then []
    else if forest[0].id == id then [Apply(e, forest[0])] + forest[1..]
    else if Find(forest[0].replies, id).Some? then
      [forest[0].(replies := ApplyAt(forest[0].replies, id, e))] + forest[1..]
    else [forest[0]] + ApplyAt(forest[1..], id, e)
  }

  /** A node's own fields, without its replies. */
  function Strip(o: Option<Comment>): Option<Comment> {
    if o.Some? then Some(o.value.(replies := [])) else None
  }

  lemma {:induction false} ApplyAtMissing(forest: seq<Comment>, id: int, e: Edit)
    requires Find(forest, id).None?
    ensures ApplyAt(forest, id, e) == forest
  {
    if forest != [] {
      ApplyAtMissing(forest[1..], id, e);
    }
  }

  /** The changed node is what the lookup now returns. */
  lemma {:induction false} ApplyAtTarget(forest: seq<Comment>, id: int, e: Edit)
    requires Find(forest, id).Some?
    ensures Find(ApplyAt(forest, id, e), id) == Some(Apply(e, Find(forest, id).value))
  {
    var f := ApplyAt(forest, id, e);
    if forest[0].id == id {
      assert f[0] == Apply(e, forest[0]);
    } else if Find(forest[0].replies, id).Some? {
      ApplyAtTarget(forest[0].replies, id, e);
      assert f[0].replies == ApplyAt(forest[0].replies, id, e);
    } else {
      ApplyAtTarget(forest[1..], id, e);
      assert f[0] == forest[0] && f[1..] == ApplyAt(forest[1..], id, e);
    }
  }

  /** The ids of a forest that starts with `h`. */
  lemma IdsCons(h: Comment, tail: seq<Comment>)
    ensures Ids([h] + tail) == multiset{h.id} + Ids(h.replies) + Ids(tail)
  {
    assert ([h] + tail)[0] == h && ([h] + tail)[1..] == tail;
  }

  /** An applied edit adds exactly the ids it carries, at every depth. */
  lemma {:induction false} ApplyAtIds(forest: seq<Comment>, id: int, e: Edit)
    requires Find(forest, id).Some?
    ensures Ids(ApplyAt(forest, id, e)) == Ids(forest) + Added(e)
  {
    var head, tail := forest[0], forest[1..];
    if head.id == id {
      ApplyAtIdsHere(forest, id, e);
    } else if Find(head.replies, id).Some? {
      ApplyAtIds(head.replies, id, e);
      ApplyAtIdsBelow(forest, id, e);
    } else {
      ApplyAtIds(tail, id, e);
      ApplyAtIdsLater(forest, id, e);
    }
  }

  lemma ApplyAtIdsHere(forest: seq<Comment>, id: int, e: Edit)
    requires forest != [] && forest[0].id == id
    ensures Ids(ApplyAt(forest, id, e)) == Ids(forest) + Added(e)
  {
    var head, tail := forest[0], forest[1..];
    assert forest == [head] + tail;
    IdsCons(head, tail);
    if e.AppendReply? {
      IdsAppend(head.replies, [e.reply]);
    }
    IdsCons(Apply(e, head), tail);
  }

  lemma ApplyAtIdsBelow(forest: seq<Comment>, id: int, e: Edit)
    requires forest != [] && forest[0].id != id && Find(forest[0].replies, id).Some?
    requires Ids(ApplyAt(forest[0].replies, id, e)) == Ids(forest[0].replies) + Added(e)
    ensures Ids(ApplyAt(forest, id, e)) == Ids(forest) + Added(e)
  {
    var head, tail := forest[0], forest[1..];
    var h := head.(replies := ApplyAt(head.replies, id, e));
    ApplyAtBelowShape(forest, id, e);
    IdsOfForest(forest);
    IdsCons(h, tail);
  }

  lemma ApplyAtIdsLater(forest: seq<Comment>, id: int, e: Edit)
    requires forest != [] && forest[0].id != id && Find(forest[0].replies, id).None?
    requires Ids(ApplyAt(forest[1..], id, e)) == Ids(forest[1..]) + Added(e)
    ensures Ids(ApplyAt(forest, id, e)) == Ids(forest) + Added(e)
  {
    var head, tail := forest[0], forest[1..];
    ApplyAtLaterShape(forest, id, e);
    IdsOfForest(forest);
    IdsCons(head, ApplyAt(tail, id, e));
  }

  lemma IdsOfForest(forest: seq<Comment>)
    requires forest != []
    ensures Ids(forest) == multiset{forest[0].id} + Ids(forest[0].replies) + Ids(forest[1..])
  {
  }

  lemma ApplyAtBelowShape(forest: seq<Comment>, id: int, e: Edit)
    requires forest != [] && forest[0].id != id && Find(forest[0].replies, id).Some?
    ensures ApplyAt(forest, id, e) == [forest[0].(replies := ApplyAt(forest[0].replies, id, e))] + forest[1..]
  {
  }

  lemma ApplyAtLaterShape(forest: seq<Comment>, id: int, e: Edit)
    requires forest != [] && forest[0].id != id && Find(forest[0].replies, id).None?
    ensures ApplyAt(forest, id, e) == [forest[0]] + ApplyAt(forest[1..], id, e)
  {
  }

  /**
   * A node that is neither the changed one nor one of its ancestors is left
   * whole: the lookup of its id finds the same comment, replies included.
   */
  lemma {:induction false} ApplyAtKeepsOthers(forest: seq<Comment>, id: int, e: Edit, q: int)
    requires q != id && q !in Added(e)
    requires Find(forest, q).Some? && id !in Ids(Find(forest, q).value.replies)
    ensures Find(ApplyAt(forest, id, e), q) == Find(forest, q)
  {
    var head, tail := forest[0], forest[1..];
    var f := ApplyAt(forest, id, e);
    if head.id == q {
      FindNoneIffAbsent(head.replies, id);
      ApplyAtLaterShape(forest, id, e);
    } else if head.id == id {
      assert f[0] == Apply(e, head) && f[1..] == tail;
      if e.AppendReply? {
        FindAppend(head.replies, [e.reply], q);
        FindNoneIffAbsent([e.reply], q);
      }
    } else if Find(head.replies, id).Some? {
      ApplyAtBelowShape(forest, id, e);
      assert f[0].replies == ApplyAt(head.replies, id, e) && f[1..] == tail;
      if Find(head.replies, q).Some? {
        ApplyAtKeepsOthers(head.replies, id, e, q);
      } else {
        ApplyAtIds(head.replies, id, e);
        FindNoneIffAbsent(head.replies, q);
        FindNoneIffAbsent(ApplyAt(head.replies, id, e), q);
      }
    } else {
      ApplyAtLaterShape(forest, id, e);
      if Find(head.replies, q).None? {
        ApplyAtKeepsOthers(tail, id, e, q);
      }
    }
  }

  /**
   * No node other than the changed one changes its own fields: the lookup of
   * any other id (not brought in by the edit) finds the same comment, up to
   * its replies.
   */
  lemma {:induction false} ApplyAtFrame(forest: seq<Comment>, id: int, e: Edit, q: int)
    requires q != id && q !in Added(e)
    ensures Strip(Find(ApplyAt(forest, id, e), q)) == Strip(Find(forest, q))
  {
    if forest != [] {
      var f := ApplyAt(forest, id, e);
      if forest[0].id == id {
        assert f[0] == Apply(e, forest[0]) && f[1..] == forest[1..];
        if e.AppendReply? {
          FindAppend(forest[0].replies, [e.reply], q);
          FindNoneIffAbsent([e.reply], q);
        }
      } else if Find(forest[0].replies, id).Some? {
        ApplyAtFrame(forest[0].replies, id, e, q);
        assert f[0].replies == ApplyAt(forest[0].replies, id, e) && f[1..] == forest[1..];
      } else {
        ApplyAtFrame(forest[1..], id, e, q);
        assert f[0] == forest[0] && f[1..] == ApplyAt(forest[1..], id, e);
      }
    }
  }

  /** Toggling the like of the same comment twice gives back the forest. */
  lemma {:induction false} ToggleTwice(forest: seq<Comment>, id: int)
    requires Find(forest, id).Some?
    ensures ApplyAt(ApplyAt(forest, id, ToggleLike), id, ToggleLike) == forest
  {
    var f := ApplyAt(forest, id, ToggleLike);
    if forest[0].id == id {
      assert f == [Toggled(forest[0])] + forest[1..];
      ToggledTwice(forest[0]);
      assert forest == [forest[0]] + forest[1..];
    } else if Find(forest[0].replies, id).Some? {
      ApplyAtTarget(forest[0].replies, id, ToggleLike);
      ToggleTwice(forest[0].replies, id);
      assert f[0].replies == ApplyAt(forest[0].replies, id, ToggleLike) && f[1..] == forest[1..];
      assert forest == [forest[0]] + forest[1..];
    } else {
      ToggleTwice(forest[1..], id);
      assert f[0] == forest[0] && f[1..] == ApplyAt(forest[1..], id, ToggleLike);
      assert forest == [forest[0]] + forest[1..];
    }
  }

  // ---------------------------------------------------------------- like counts

  /** A liked comment has at least its viewer's like; no count is negative. */
  predicate LikeCountOk(c: Comment) {
    c.likes >= if c.isLiked then 1 else 0
  }

  predicate LikesConsistent(forest: seq<Comment>) {
    forest == [] ||
    (LikeCountOk(forest[0]) && LikesConsistent(forest[0].replies) && LikesConsistent(forest[1..]))
  }

  lemma {:induction false} LikesAppend(a: seq<Comment>, b: seq<Comment>)
    ensures LikesConsistent(a + b) == (LikesConsistent(a) && LikesConsistent(b))
  {
    if a == [] {
      assert a + b == b;
    } else {
      assert (a + b)[0] == a[0];
      assert (a + b)[1..] == a[1..] + b;
      LikesAppend(a[1..], b);
    }
  }

  /** Adding a consistent reply, or toggling a like, keeps every count consistent. */
  lemma {:induction false} ApplyAtLikes(forest: seq<Comment>, id: int, e: Edit)
    requires LikesConsistent(forest)
    requires e.AppendReply? ==> LikesConsistent([e.reply])
    ensures LikesConsistent(ApplyAt(forest, id, e))
  {
    if forest != [] {
      var f := ApplyAt(forest, id, e);
      if forest[0].id == id {
        assert f[0] == Apply(e, forest[0]) && f[1..] == forest[1..];
        if e.AppendReply? {
          LikesAppend(forest[0].replies, [e.reply]);
        }
      } else if Find(forest[0].replies, id).Some? {
        ApplyAtLikes(forest[0].replies, id, e);
        assert f[0].replies == ApplyAt(forest[0].replies, id, e) && f[1..] == forest[1..];
      } else {
        ApplyAtLikes(forest[1..], id, e);
        assert f[0] == forest[0] && f[1..] == ApplyAt(forest[1..], id, e);
      }
    }
  }

  // ---------------------------------------------------------------- the handlers

  /** A request's parentId makes the comment a reply unless it is missing or 0. */
  predicate IsReply(parentId: Option<int>) {
    parentId.Some? && parentId.value != 0
  }

  /** findInReplies: the loop over one list of siblings, recursing into each one's replies. */
  method FindInReplies(replies: seq<Comment>, id: int) returns (r: Option<Comment>)
    ensures r == Find(replies, id)
    decreases replies
  {
    for i := 0 to |replies|
      invariant Find(replies[i..], id) == Find(replies, id)
    {
      assert replies[i..][1..] == replies[i + 1..];
      var reply := replies[i];
      if reply.id == id {
        return Some(reply);
      }
      var nested := FindInReplies(reply.replies, id);
      if nested.Some? {
        return nested;
      }
    }
    return None;
  }

  /** Every id is below the counter and occurs once; every like count is consistent. */
  ghost predicate ValidForest(forest: seq<Comment>, nextCommentId: nat) {
    && (forall x | x in Ids(forest) :: x < nextCommentId)
    && (forall x | x in Ids(forest) :: Ids(forest)[x] == 1)
    && LikesConsistent(forest)
  }

  /** Adding one node with the counter's id, and moving the counter past it, keeps ids unique. */
  lemma ValidAddId(forest: seq<Comment>, f: seq<Comment>, next: nat)
    requires ValidForest(forest, next) && Ids(f) == Ids(forest) + multiset{next} && LikesConsistent(f)
    ensures ValidForest(f, next + 1)
  {
    assert next !in Ids(forest);
    forall x | x in Ids(f) ensures x < next + 1 && Ids(f)[x] == 1 {
      if x != next {
        assert Ids(f)[x] == Ids(forest)[x];
      }
    }
  }

  /** A fresh comment appended at the top level, with the counter moved past its id. */
  lemma AppendTopEffect(forest: seq<Comment>, next: nat, c: Comment)
    requires ValidForest(forest, next) && c.id == next && c.replies == [] && LikeCountOk(c)
    ensures ValidForest(forest + [c], next + 1)
  {
    assert Ids([c]) == multiset{c.id};
    IdsAppend(forest, [c]);
    LikesAppend(forest, [c]);
    ValidAddId(forest, forest + [c], next);
  }

  /** A fresh comment appended to the replies of comment `id`, with the counter moved past its id. */
  lemma AppendReplyEffect(forest: seq<Comment>, next: nat, id: int, c: Comment)
    requires ValidForest(forest, next) && c.id == next && c.replies == [] && LikeCountOk(c)
    requires Find(forest, id).Some?
    ensures var f := ApplyAt(forest, id, AppendReply(c));
      var parent := Find(forest, id).value;
      && ValidForest(f, next + 1)
      && Find(f, id) == Some(parent.(replies := parent.replies + [c]))
      && Ids(f) == Ids(forest) + multiset{c.id}
      && (forall q | q != id && q != c.id :: Strip(Find(f, q)) == Strip(Find(forest, q)))
      && (forall q | q != id && q != c.id && Find(forest, q).Some? && id !in Ids(Find(forest, q).value.replies) ::
            Find(f, q) == Find(forest, q))
  {
    var f := ApplyAt(forest, id, AppendReply(c));
    var parent := Find(forest, id).value;
    assert Ids(f) == Ids(forest) + multiset{c.id} by {
      assert Ids([c]) == multiset{c.id};
      ApplyAtIds(forest, id, AppendReply(c));
    }
    assert LikesConsistent(f) by {
      ApplyAtLikes(forest, id, AppendReply(c));
    }
    assert ValidForest(f, next + 1) by {
      ValidAddId(forest, f, next);
    }
    assert Find(f, id) == Some(parent.(replies := parent.replies + [c])) by {
      ApplyAtTarget(forest, id, AppendReply(c));
    }
    forall q | q != id && q != c.id
      ensures Strip(Find(ApplyAt(forest, id, AppendReply(c)), q)) == Strip(Find(forest, q))
    {
      ApplyAtFrame(forest, id, AppendReply(c), q);
    }
    forall q | q != id && q != c.id && Find(forest, q).Some? && id !in Ids(Find(forest, q).value.replies)
      ensures Find(ApplyAt(forest, id, AppendReply(c)), q) == Find(forest, q)
    {
      assert Added(AppendReply(c)) == multiset{c.id} by {
        assert Ids([c]) == multiset{c.id};
      }
      ApplyAtKeepsOthers(forest, id, AppendReply(c), q);
    }
  }

  /** Everything toggling one like does to a forest, in one place. */
  lemma ToggleLikeEffect(forest: seq<Comment>, id: int)
    requires Find(forest, id).Some? && LikesConsistent(forest)
    ensures var f := ApplyAt(forest, id, ToggleLike);
      && Find(f, id) == Some(Toggled(Find(forest, id).value))
      && Ids(f) == Ids(forest)
      && LikesConsistent(f)
      && (forall q | q != id :: Strip(Find(f, q)) == Strip(Find(forest, q)))
      && (forall q | q != id && Find(forest, q).Some? && id !in Ids(Find(forest, q).value.replies) ::
            Find(f, q) == Find(forest, q))
  {
    ApplyAtTarget(forest, id, ToggleLike);
    ApplyAtIds(forest, id, ToggleLike);
    ApplyAtLikes(forest, id, ToggleLike);
    forall q | q != id
      ensures Strip(Find(ApplyAt(forest, id, ToggleLike), q)) == Strip(Find(forest, q))
    {
      ApplyAtFrame(forest, id, ToggleLike, q);
    }
    forall q | q != id && Find(forest, q).Some? && id !in Ids(Find(forest, q).value.replies)
      ensures Find(ApplyAt(forest, id, ToggleLike), q) == Find(forest, q)
    {
      ApplyAtKeepsOthers(forest, id, ToggleLike, q);
    }
  }

  /**
   * What toggling the like of comment `id` does: 404 and no change when no
   * comment has that id; otherwise the comment found is toggled, the response
   * carries its new like state, no id appears or disappears, no other
   * comment's own fields change, and a comment that does not hold it among its
   * replies is left whole.
   */
  ghost predicate ToggledAt(before: seq<Comment>, after: seq<Comment>, id: int, r: Response<LikeState>) {
    if Find(before, id).None? then r == NotFound && after == before
    else
      var c := Toggled(Find(before, id).value);
      && r == Ok(LikeState(c.isLiked, c.likes))
      && after == ApplyAt(before, id, ToggleLike)
      && Find(after, id) == Some(c)
      && Ids(after) == Ids(before)
      && (forall q | q != id :: Strip(Find(after, q)) == Strip(Find(before, q)))
      && (forall q | q != id && Find(before, q).Some? && id !in Ids(Find(before, q).value.replies) ::
            Find(after, q) == Find(before, q))
  }

  const Comment1Text: string := "Great article! I'm particularly excited about Server Components. The performance implications are huge."
  const Reply11Text: string := "Thanks Alex! Yes, Server Components are game-changing. I've seen 40-50% bundle size reductions in some cases."
  const Comment2Text: string := "The AI integration section resonates with me. I've been using Copilot for 6 months now and my productivity has increased significantly."
  const Comment3Text: string := "Edge computing is definitely the future. The latency improvements are noticeable, especially for global applications."

  function SeedComments(): seq<Comment> {
    [ Comment(1, Author(2, "Alex Rodriguez", "/placeholder.svg", "React Developer", None, None),
              Comment1Text,
              20240115164500, 12, false,
              [ Comment(11, Author(1, "Sarah Chen", "/placeholder.svg", "Senior Full Stack Developer", None, None),
                        Reply11Text,
                        20240115171500, 8, false, []) ]),
      Comment(2, Author(3, "Emma Thompson", "/placeholder.svg", "Backend Engineer", None, None),
              Comment2Text,
              20240115182000, 15, false, []),
      Comment(3, Author(4, "Michael Park", "/placeholder.svg", "Frontend Designer", None, None),
              Comment3Text,
              20240116091000, 7, false, []) ]
  }

  lemma SeedValid()
    ensures Ids(SeedComments()) == multiset{1, 11, 2, 3}
    ensures LikesConsistent(SeedComments())
  {
    var s := SeedComments();
    var a, b, c := s[0], s[1], s[2];
    assert s[1..] == [b, c] && [b, c][1..] == [c] && [c][1..] == [];
    assert a.replies[1..] == [];
    assert Ids(a.replies) == multiset{11};
    assert Ids([c]) == multiset{3};
    assert Ids([b, c]) == multiset{2, 3};
    assert LikesConsistent(a.replies);
    assert LikesConsistent([c]);
    assert LikesConsistent([b, c]);
  }

  /** The seed ids are distinct and all below 12, where the counter starts. */
  lemma SeedForestValid()
    ensures ValidForest(SeedComments(), 12)
  {
    SeedValid();
    var ids := Ids(SeedComments());
    assert forall x | x in ids :: x < 12 && ids[x] == 1 by {
      assert ids == multiset{1, 11, 2, 3};
    }
  }

  /** The module state `mockComments` and `nextCommentId`. */
  class CommentStore {
    var forest: seq<Comment>
    var nextCommentId: nat

    ghost predicate Valid()
      reads this
    {
      ValidForest(forest, nextCommentId)
    }

    constructor ()
      ensures Valid()
      ensures forest == SeedComments() && nextCommentId == 12
    {
      forest := SeedComments();
      nextCommentId := 12;
      new;
      SeedForestValid();
    }

    /** getBlogComments: the whole global forest, whatever blog id is asked for. */
    function GetBlogComments(blogId: string): (r: seq<Comment>)
      reads this
      ensures r == forest
    {
      forest
    }

    /** findCommentById. */
    method FindCommentById(id: int) returns (r: Option<Comment>)
      ensures r == Find(forest, id)
    {
      for i := 0 to |forest|
        invariant Find(forest[i..], id) == Find(forest, id)
      {
        assert forest[i..][1..] == forest[i + 1..];
        var comment := forest[i];
        if comment.id == id {
          return Some(comment);
        }
        var reply := FindInReplies(comment.replies, id);
        if reply.Some? {
          return reply;
        }
      }
      return None;
    }

    /**
     * addComment. The new id is taken from the counter before the parent is
     * looked up, so a reply to a missing parent still uses up an id.
     */
    method AddComment(blogId: string, content: Option<string>, parentId: Option<int>, now: Timestamp)
      returns (r: Response<Comment>)
      requires Valid()
      modifies this
      ensures Valid()
      ensures !Truthy(content) ==>
        r == BadRequest && forest == old(forest) && nextCommentId == old(nextCommentId)
      ensures Truthy(content) ==> nextCommentId == old(nextCommentId) + 1
      ensures Truthy(content) && !IsReply(parentId) ==>
        var c := NewComment(old(nextCommentId), content.value, now);
        r == Created(c) && forest == old(forest) + [c]
      ensures Truthy(content) && IsReply(parentId) && Find(old(forest), parentId.value).None? ==>
        r == NotFound && forest == old(forest)
      ensures Truthy(content) && IsReply(parentId) && Find(old(forest), parentId.value).Some? ==>
        var c := NewComment(old(nextCommentId), content.value, now);
        var parent := Find(old(forest), parentId.value).value;
        && r == Created(c)
        && forest == ApplyAt(old(forest), parentId.value, AppendReply(c))
        && Find(forest, parentId.value) == Some(parent.(replies := parent.replies + [c]))
        && Ids(forest) == Ids(old(forest)) + multiset{c.id}
        && (forall q | q != parentId.value && q != c.id :: Strip(Find(forest, q)) == Strip(Find(old(forest), q)))
    {
      if !Truthy(content) {
        return BadRequest;
      }
      var c := NewComment(nextCommentId, content.value, now);
      ghost var before := forest;
      ghost var next := nextCommentId;
      nextCommentId := nextCommentId + 1;
      if IsReply(parentId) {
        var parent := FindCommentById(parentId.value);
        if parent.None? {
          return NotFound;
        }
        AppendReplyEffect(before, next, parentId.value, c);
        forest := ApplyAt(forest, parentId.value, AppendReply(c));
      } else {
        AppendTopEffect(before, next, c);
        forest := forest + [c];
      }
      r := Created(c);
    }

    /** toggleCommentLike: the id comes from the request path, read with parseInt. */
    method ToggleCommentLike(commentId: string) returns (r: Response<LikeState>)
      requires Valid()
      modifies this`forest
      ensures Valid()
      ensures ParseInt(commentId).None? ==> r == NotFound && forest == old(forest)
      ensures ParseInt(commentId).Some? ==> ToggledAt(old(forest), forest, ParseInt(commentId).value, r)
    {
      var id := ParseInt(commentId);
      if id.None? {
        return NotFound;
      }
      r := ToggleLikeOf(id.value);
    }

    /** The lookup and the in-place toggle behind toggleCommentLike. */
    method ToggleLikeOf(id: int) returns (r: Response<LikeState>)
      requires Valid()
      modifies this`forest
      ensures Valid()
      ensures ToggledAt(old(forest), forest, id, r)
    {
      var comment := FindCommentById(id);
      if comment.None? {
        return NotFound;
      }
      ghost var before := forest;
      forest := ApplyAt(forest, id, ToggleLike);
      ToggleLikeEffect(before, id);
      var t := Toggled(comment.value);
      r := Ok(LikeState(t.isLiked, t.likes));
    }
  }
}
