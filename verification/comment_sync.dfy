/**
  One pass of the comment sync scheduler (`syncComments`), as a pure
  function of its inputs. The Graph API fetch, the post-detail fetch, the
  spreadsheet write and the timestamp formatter are parameters; the
  process-wide seen-set is threaded through explicitly.

  The pass has three steps:
  1. classify: every comment id of every fetched post goes through the
     seen-set; the comments that come back new are grouped by post id;
  2. enrich: each post id with new comments is looked up once, and a failed
     lookup is replaced by a placeholder;
  3. emit: one seven-column row per new comment is handed to the sink, and a
     failed write is dropped.
 */
module CommentSync {
  import opened Wrappers
  import opened JavaText
  import opened CommentTracker
  import opened PhoneNumber

  // ---------------------------------------------------------------------------
  // Data: the typed shape of the Graph API maps the scheduler reads

  /** The `from` map of a comment. */
  datatype Author = Author(id: JString, name: JString)

  datatype Comment = Comment(id: JString, message: JString, createdTime: JString, from: Option<Author>)

  /** The `comments` wrapper of a post; `data` is its (nullable) comment list. */
  datatype CommentPage = CommentPage(data: Option<seq<Comment>>)

  datatype Post = Post(id: JString, comments: Option<CommentPage>)

  /** What the post-detail lookup caches per post id. */
  datatype PostDetails = PostDetails(id: JString, message: JString, permalinkUrl: JString, createdTime: JString)

  /** The seven values the scheduler passes to `appendRow`, in call order. */
  datatype Row = Row(
    timestamp: string,
    postId: JString,
    commentId: JString,
    name: JString,
    fromId: JString,
    message: JString,
    phone: string)

  /** One `appendRow` call and whether the sink accepted it. */
  datatype Attempt = Attempt(row: Row, saved: bool)

  predicate Distinct<T(==)>(xs: seq<T>) {
    forall i, j :: 0 <= i < j < |xs| ==> xs[i] != xs[j]
  }

  // ---------------------------------------------------------------------------
  // Step 1: classify

  /** A missing `comments` wrapper and a missing `data` list both contribute no comments. */
  function PostComments(p: Post): (cs: seq<Comment>)
    ensures p.comments.None? ==> cs == []
    ensures p.comments.Some? && p.comments.value.data.None? ==> cs == []
    ensures p.comments.Some? && p.comments.value.data.Some? ==> cs == p.comments.value.data.value
  {
    match p.comments
    case None => []
    case Some(page) => page.data.GetOr([])
  }

  function CommentIds(cs: seq<Comment>): (ids: seq<JString>)
    ensures |ids| == |cs|
    ensures forall i :: 0 <= i < |cs| ==> ids[i] == cs[i].id
  {
    seq(|cs|, i requires 0 <= i < |cs| => cs[i].id)
  }

  /** The elements of `xs` whose flag is set, in order. */
  function Keep<T>(xs: seq<T>, flags: seq<bool>): (r: seq<T>)
    requires |flags| == |xs|
    ensures |r| == CountTrue(flags)
    ensures forall x :: x in r ==> x in xs
    decreases |xs|
  {
    if |xs| == 0 then []
    else (if flags[0] then [xs[0]] else []) + Keep(xs[1..], flags[1..])
  }

  /**
    The inner loop of step 1 for one post: each comment id is tested (and
    added) in fetched order, and the comments that test new are collected.
    Every collected comment is one of the post's, with an id that was not
    yet seen, and no id is collected twice.
   */
  function NewComments(t: Tracker, cs: seq<Comment>): (r: (seq<Comment>, Tracker))
    ensures forall c :: c in r.0 ==> c in cs && c.id !in t.seen
    ensures Distinct(CommentIds(r.0))
    decreases |cs|
  {
    if |cs| == 0 then ([], t)
    else
      var (isNew, t1) := IsNewComment(t, cs[0].id);
      var (rest, t2) := NewComments(t1, cs[1..]);
      CollectStep(t, cs, isNew, t1, rest);
      (if isNew then [cs[0]] + rest else rest, t2)
  }

  /** One step of `NewComments`: prepending a comment that tested new keeps the collected ids distinct and unseen. */
  lemma CollectStep(t: Tracker, cs: seq<Comment>, isNew: bool, t1: Tracker, rest: seq<Comment>)
    requires |cs| > 0 && (isNew, t1) == IsNewComment(t, cs[0].id)
    requires (forall c :: c in rest ==> c.id !in t1.seen) && Distinct(CommentIds(rest))
    ensures Distinct(CommentIds(if isNew then [cs[0]] + rest else rest))
  {
    if isNew {
      IdsOfCons(cs[0], rest);
      assert cs[0].id !in CommentIds(rest);
      DistinctCons(cs[0].id, CommentIds(rest));
    }
  }

  /**
    The interleaved loop agrees with running the ids through the tracker
    first and keeping the comments whose answer was true: a comment is
    collected exactly when its id was unseen when tested, so of several
    comments sharing an unseen id only the first is collected.
   */
  lemma {:induction false} NewCommentsAreTestedNew(t: Tracker, cs: seq<Comment>)
    ensures NewComments(t, cs).0 == Keep(cs, TestAll(t, CommentIds(cs)).0)
    ensures NewComments(t, cs).1 == TestAll(t, CommentIds(cs)).1
    decreases |cs|
  {
    if |cs| > 0 {
      var (isNew, t1) := IsNewComment(t, cs[0].id);
      NewCommentsAreTestedNew(t1, cs[1..]);
      assert CommentIds(cs)[1..] == CommentIds(cs[1..]);
    }
  }

  function IdsOf(cs: seq<Comment>): set<JString> {
    Elems(CommentIds(cs))
  }

  lemma IdsOfCons(c: Comment, cs: seq<Comment>)
    ensures CommentIds([c] + cs) == [c.id] + CommentIds(cs)
    ensures IdsOf([c] + cs) == {c.id} + IdsOf(cs)
  {
    assert CommentIds([c] + cs) == [c.id] + CommentIds(cs);
  }

  lemma DistinctCons<T>(x: T, xs: seq<T>)
    requires x !in xs && Distinct(xs)
    ensures Distinct([x] + xs)
  {
    forall i, j | 0 <= i < j < |[x] + xs| ensures ([x] + xs)[i] != ([x] + xs)[j] {
      if i > 0 {
        assert ([x] + xs)[i] == xs[i - 1];
      }
    }
  }

  /**
    What one post contributes, as sets: the collected ids are exactly the
    post's ids that were unseen, one comment per such id, and the seen-set
    grows by exactly the post's ids.
   */
  lemma NewCommentsFresh(t: Tracker, cs: seq<Comment>)
    ensures var r := NewComments(t, cs);
      && IdsOf(r.0) == IdsOf(cs) - t.seen
      && |r.0| == |IdsOf(cs) - t.seen|
      && r.1.seen == t.seen + IdsOf(cs)
  {
    NewCommentsAreTestedNew(t, cs);
    CountNewIsDistinctUnseen(t, CommentIds(cs));
    NewCommentIds(t, cs);
  }

  lemma {:induction false} NewCommentIds(t: Tracker, cs: seq<Comment>)
    ensures IdsOf(NewComments(t, cs).0) == IdsOf(cs) - t.seen
    decreases |cs|
  {
    if |cs| > 0 {
      var (isNew, t1) := IsNewComment(t, cs[0].id);
      var rest := NewComments(t1, cs[1..]).0;
      NewCommentIds(t1, cs[1..]);
      assert cs == [cs[0]] + cs[1..];
      IdsOfCons(cs[0], cs[1..]);
      if isNew {
        IdsOfCons(cs[0], rest);
      }
    } else {
      assert IdsOf(NewComments(t, cs).0) == {};
    }
  }

  /** The state step 1 builds: the seen-set, `postsWithNewComments` and `newCommentsByPost`. */
  datatype Classified = Classified(tracker: Tracker, postsWithNew: set<JString>, newByPost: map<JString, seq<Comment>>)

  /** The post-id set is the key set of the grouping, and every group is non-empty. */
  predicate WellFormed(c: Classified) {
    && c.postsWithNew == c.newByPost.Keys
    && forall p :: p in c.newByPost ==> c.newByPost[p] != []
  }

  /**
    One iteration of the outer loop of step 1: the post's new comments, if
    any, become the group of its id.
   */
  function ClassifyPost(c: Classified, p: Post): (r: Classified)
    requires WellFormed(c)
    ensures WellFormed(r)
  {
    var step := NewComments(c.tracker, PostComments(p));
    var found := step.0;
    if found != [] then Classified(step.1, c.postsWithNew + {p.id}, c.newByPost[p.id := found])
    else c.(tracker := step.1)
  }

  /**
    The outer loop of step 1 over the remaining posts. It keeps the grouping
    well formed: the post-id set stays the key set of the groups, and no
    group is empty.
   */
  function ClassifyFrom(c: Classified, posts: seq<Post>): (r: Classified)
    requires WellFormed(c)
    ensures WellFormed(r)
    decreases |posts|
  {
    if |posts| == 0 then c else ClassifyFrom(ClassifyPost(c, posts[0]), posts[1..])
  }

  /**
    Step 1 from empty groupings: afterwards every comment id of every post
    is seen, nothing else is added, and a post id is grouped exactly when
    some occurrence of it had new comments.
   */
  function Classify(t: Tracker, posts: seq<Post>): (r: Classified)
    ensures WellFormed(r)
    ensures r.tracker.seen == t.seen + AllIds(posts)
    ensures forall p :: p in r.postsWithNew <==> HasNew(t, posts, p)
  {
    var c0 := Classified(t, {}, map[]);
    ClassifyGroupsAll(c0, posts);
    ClassifySeen(c0, posts);
    ClassifyFrom(c0, posts)
  }

  /** Every comment id of every post. */
  function AllIds(posts: seq<Post>): set<JString>
    decreases |posts|
  {
    if |posts| == 0 then {} else IdsOf(PostComments(posts[0])) + AllIds(posts[1..])
  }

  /** The seen-set as it stands when the pass reaches post `k`. */
  function Before(t: Tracker, posts: seq<Post>, k: nat): Tracker
    requires k <= |posts|
  {
    Tracker(t.seen + AllIds(posts[..k]))
  }

  /** The comments of post `k` that test new when the pass reaches it. */
  function NewAt(t: Tracker, posts: seq<Post>, k: nat): seq<Comment>
    requires k < |posts|
  {
    NewComments(Before(t, posts, k), PostComments(posts[k])).0
  }

  /** Some occurrence of post id `p` has new comments. */
  ghost predicate HasNew(t: Tracker, posts: seq<Post>, p: JString) {
    exists k :: 0 <= k < |posts| && posts[k].id == p && NewAt(t, posts, k) != []
  }

  /** Occurrence `k` has new comments and no later occurrence of its post id has any. */
  ghost predicate LastWithNew(t: Tracker, posts: seq<Post>, k: nat)
    requires k < |posts|
  {
    && NewAt(t, posts, k) != []
    && forall k' :: k < k' < |posts| && posts[k'].id == posts[k].id ==> NewAt(t, posts, k') == []
  }

  lemma ShiftNewAt(t: Tracker, posts: seq<Post>, k: nat)
    requires 1 <= k < |posts|
    ensures NewAt(t, posts, k) == NewAt(NewComments(t, PostComments(posts[0])).1, posts[1..], k - 1)
  {
    var t1 := NewComments(t, PostComments(posts[0])).1;
    NewCommentsFresh(t, PostComments(posts[0]));
    assert posts[..k][1..] == posts[1..][..k - 1];
    assert AllIds(posts[..k]) == IdsOf(PostComments(posts[0])) + AllIds(posts[1..][..k - 1]);
    assert Before(t, posts, k) == Before(t1, posts[1..], k - 1);
  }

  lemma FirstNewAt(t: Tracker, posts: seq<Post>)
    requires 0 < |posts|
    ensures NewAt(t, posts, 0) == NewComments(t, PostComments(posts[0])).0
  {
    assert AllIds(posts[..0]) == {};
    assert Before(t, posts, 0) == t;
  }

  /** Occurrence `k + 1` of `posts` sees what occurrence `k` of the tail sees after the first post. */
  lemma ShiftAll(t: Tracker, posts: seq<Post>)
    requires 0 < |posts|
    ensures NewAt(t, posts, 0) == NewComments(t, PostComments(posts[0])).0
    ensures forall k :: 1 <= k < |posts| ==>
      NewAt(t, posts, k) == NewAt(NewComments(t, PostComments(posts[0])).1, posts[1..], k - 1)
  {
    FirstNewAt(t, posts);
    forall k | 1 <= k < |posts|
      ensures NewAt(t, posts, k) == NewAt(NewComments(t, PostComments(posts[0])).1, posts[1..], k - 1)
    {
      ShiftNewAt(t, posts, k);
    }
  }

  /** An occurrence with new comments is the first post or one of the tail's. */
  lemma HasNewCons(t: Tracker, posts: seq<Post>, p: JString)
    requires 0 < |posts|
    ensures HasNew(t, posts, p) <==>
      (posts[0].id == p && NewComments(t, PostComments(posts[0])).0 != []) ||
      HasNew(NewComments(t, PostComments(posts[0])).1, posts[1..], p)
  {
    var t1 := NewComments(t, PostComments(posts[0])).1;
    var rest := posts[1..];
    ShiftAll(t, posts);
    if HasNew(t1, rest, p) {
      var k :| 0 <= k < |rest| && rest[k].id == p && NewAt(t1, rest, k) != [];
      assert posts[k + 1].id == p && NewAt(t, posts, k + 1) != [];
    }
    if HasNew(t, posts, p) {
      var k :| 0 <= k < |posts| && posts[k].id == p && NewAt(t, posts, k) != [];
      if k > 0 {
        assert rest[k - 1].id == p && NewAt(t1, rest, k - 1) != [];
      }
    }
  }

  /** Every id tested in step 1 is in the seen-set afterwards, and nothing else is added. */
  lemma {:induction false} ClassifySeen(c: Classified, posts: seq<Post>)
    requires WellFormed(c)
    ensures ClassifyFrom(c, posts).tracker.seen == c.tracker.seen + AllIds(posts)
    decreases |posts|
  {
    if |posts| > 0 {
      NewCommentsFresh(c.tracker, PostComments(posts[0]));
      ClassifySeen(ClassifyPost(c, posts[0]), posts[1..]);
    } else {
      assert AllIds(posts) == {};
    }
  }

  /** A post id is grouped exactly when some occurrence of it had new comments. */
  lemma {:induction false} ClassifyGroups(c: Classified, posts: seq<Post>, p: JString)
    requires WellFormed(c)
    ensures p in ClassifyFrom(c, posts).postsWithNew <==> p in c.postsWithNew || HasNew(c.tracker, posts, p)
    decreases |posts|
  {
    if |posts| > 0 {
      HasNewCons(c.tracker, posts, p);
      ClassifyGroups(ClassifyPost(c, posts[0]), posts[1..], p);
    }
  }

  lemma ClassifyGroupsAll(c: Classified, posts: seq<Post>)
    requires WellFormed(c)
    ensures forall p :: p in ClassifyFrom(c, posts).postsWithNew <==> p in c.postsWithNew || HasNew(c.tracker, posts, p)
  {
    forall p ensures p in ClassifyFrom(c, posts).postsWithNew <==> p in c.postsWithNew || HasNew(c.tracker, posts, p) {
      ClassifyGroups(c, posts, p);
    }
  }

  /** The group of a post id with no occurrence that had new comments is untouched. */
  lemma {:induction false} ClassifyUntouched(c: Classified, posts: seq<Post>, p: JString)
    requires WellFormed(c)
    requires p in c.newByPost && !HasNew(c.tracker, posts, p)
    ensures p in ClassifyFrom(c, posts).newByPost
    ensures ClassifyFrom(c, posts).newByPost[p] == c.newByPost[p]
    decreases |posts|
  {
    if |posts| > 0 {
      HasNewCons(c.tracker, posts, p);
      ClassifyUntouched(ClassifyPost(c, posts[0]), posts[1..], p);
    }
  }

  /**
    The group of a post id is the new comments of the last occurrence that
    had any: a later occurrence replaces an earlier one. The posts before
    occurrence `k` leave the seen-set `Before(t, posts, k)`, occurrence `k`
    sets the group, and no later occurrence of the id touches it.
   */
  lemma ClassifyLastWins(c: Classified, posts: seq<Post>, k: nat)
    requires WellFormed(c)
    requires k < |posts| && LastWithNew(c.tracker, posts, k)
    ensures posts[k].id in ClassifyFrom(c, posts).newByPost
    ensures ClassifyFrom(c, posts).newByPost[posts[k].id] == NewAt(c.tracker, posts, k)
  {
    var ck := ClassifyFrom(c, posts[..k]);
    ClassifySeen(c, posts[..k]);
    var ck1 := ClassifyPost(ck, posts[k]);
    LastWinsAt(ck, posts, k, c.tracker);
    NoLaterNew(c.tracker, posts, k);
    ClassifyUntouched(ck1, posts[k + 1..], posts[k].id);
    SplitAt(c, posts, k);
  }

  /** Occurrence `k`, reached with the seen-set `Before(t, posts, k)`, makes its new comments the group of its id. */
  lemma LastWinsAt(ck: Classified, posts: seq<Post>, k: nat, t: Tracker)
    requires WellFormed(ck) && k < |posts| && ck.tracker.seen == t.seen + AllIds(posts[..k])
    requires NewAt(t, posts, k) != []
    ensures var ck1 := ClassifyPost(ck, posts[k]);
      && posts[k].id in ck1.newByPost && ck1.newByPost[posts[k].id] == NewAt(t, posts, k)
      && ck1.tracker == Before(t, posts, k + 1)
  {
    assert ck.tracker == Before(t, posts, k);
    BeforeNext(t, posts, k);
  }

  /** Classifying `posts` is classifying the first `k`, then occurrence `k`, then the rest. */
  lemma SplitAt(c: Classified, posts: seq<Post>, k: nat)
    requires WellFormed(c) && k < |posts|
    ensures ClassifyFrom(c, posts) == ClassifyFrom(ClassifyPost(ClassifyFrom(c, posts[..k]), posts[k]), posts[k + 1..])
  {
    var rest := [posts[k]] + posts[k + 1..];
    assert posts == posts[..k] + rest;
    ClassifyAppend(c, posts[..k], rest);
    assert rest[0] == posts[k] && rest[1..] == posts[k + 1..];
  }

  /** Classifying a concatenation is classifying the parts in turn. */
  lemma {:induction false} ClassifyAppend(c: Classified, a: seq<Post>, b: seq<Post>)
    requires WellFormed(c)
    ensures ClassifyFrom(c, a + b) == ClassifyFrom(ClassifyFrom(c, a), b)
    decreases |a|
  {
    if |a| == 0 {
      assert a + b == b;
    } else {
      assert (a + b)[0] == a[0] && (a + b)[1..] == a[1..] + b;
      ClassifyAppend(ClassifyPost(c, a[0]), a[1..], b);
    }
  }

  lemma {:induction false} AllIdsAppend(a: seq<Post>, b: seq<Post>)
    ensures AllIds(a + b) == AllIds(a) + AllIds(b)
    decreases |a|
  {
    if |a| == 0 {
      assert a + b == b;
    } else {
      assert (a + b)[0] == a[0] && (a + b)[1..] == a[1..] + b;
      AllIdsAppend(a[1..], b);
    }
  }

  /** Testing occurrence `k` moves the seen-set on to the one occurrence `k + 1` is reached with. */
  lemma BeforeNext(t: Tracker, posts: seq<Post>, k: nat)
    requires k < |posts|
    ensures NewComments(Before(t, posts, k), PostComments(posts[k])).1 == Before(t, posts, k + 1)
  {
    var ids := IdsOf(PostComments(posts[k]));
    NewCommentsFresh(Before(t, posts, k), PostComments(posts[k]));
    PrefixIds(posts, k);
    assert t.seen + AllIds(posts[..k]) + ids == t.seen + AllIds(posts[..k + 1]);
  }

  /** The ids of the first `k + 1` posts are those of the first `k` and those of post `k`. */
  lemma PrefixIds(posts: seq<Post>, k: nat)
    requires k < |posts|
    ensures AllIds(posts[..k + 1]) == AllIds(posts[..k]) + IdsOf(PostComments(posts[k]))
  {
    assert posts[..k + 1] == posts[..k] + [posts[k]];
    AllIdsAppend(posts[..k], [posts[k]]);
    assert [posts[k]][1..] == [];
  }

  /** Occurrence `j` of the suffix from `m`, reached from the seen-set at `m`, is occurrence `m + j`. */
  lemma NewAtDrop(t: Tracker, posts: seq<Post>, m: nat, j: nat)
    requires m + j < |posts|
    ensures NewAt(Before(t, posts, m), posts[m..], j) == NewAt(t, posts, m + j)
  {
    assert posts[..m + j] == posts[..m] + posts[m..][..j];
    AllIdsAppend(posts[..m], posts[m..][..j]);
    assert Before(Before(t, posts, m), posts[m..], j) == Before(t, posts, m + j);
    assert posts[m..][j] == posts[m + j];
  }

  /** After the last occurrence with new comments, no occurrence of its id has any. */
  lemma NoLaterNew(t: Tracker, posts: seq<Post>, k: nat)
    requires k < |posts| && LastWithNew(t, posts, k)
    ensures !HasNew(Before(t, posts, k + 1), posts[k + 1..], posts[k].id)
  {
    var rest := posts[k + 1..];
    forall j | 0 <= j < |rest| && rest[j].id == posts[k].id
      ensures NewAt(Before(t, posts, k + 1), rest, j) == []
    {
      NewAtDrop(t, posts, k + 1, j);
      assert posts[k + 1 + j].id == posts[k].id;
    }
  }


  // ---------------------------------------------------------------------------
  // Groups hold only comments that were new to the pass, each once

  /**
    Relative to the seen-set `t0` the pass started from: every grouped
    comment was unseen at the start and is seen now, and no id occurs twice
    across all groups.
   */
  ghost predicate FreshGroups(c: Classified, t0: Tracker) {
    && t0.seen <= c.tracker.seen
    && (forall p :: p in c.newByPost ==>
          && Distinct(CommentIds(c.newByPost[p]))
          && IdsOf(c.newByPost[p]) !! t0.seen
          && IdsOf(c.newByPost[p]) <= c.tracker.seen)
    && (forall p, q :: p in c.newByPost && q in c.newByPost && p != q ==>
          IdsOf(c.newByPost[p]) !! IdsOf(c.newByPost[q]))
  }

  lemma ClassifyPostFresh(c: Classified, p: Post, t0: Tracker)
    requires WellFormed(c) && FreshGroups(c, t0)
    ensures FreshGroups(ClassifyPost(c, p), t0)
  {
    NewCommentsFresh(c.tracker, PostComments(p));
  }

  lemma {:induction false} ClassifyFresh(c: Classified, posts: seq<Post>, t0: Tracker)
    requires WellFormed(c) && FreshGroups(c, t0)
    ensures FreshGroups(ClassifyFrom(c, posts), t0)
    decreases |posts|
  {
    if |posts| > 0 {
      ClassifyPostFresh(c, posts[0], t0);
      ClassifyFresh(ClassifyPost(c, posts[0]), posts[1..], t0);
    }
  }

  // ---------------------------------------------------------------------------
  // Step 2: enrich

  /** The details cached for a post whose detail lookup threw. */
  function Placeholder(postId: JString): (d: PostDetails)
    ensures d.id == postId
    ensures d.message == Some("") && d.permalinkUrl == Some("") && d.createdTime == Some("")
  {
    PostDetails(postId, Some(""), Some(""), Some(""))
  }

  /**
    The detail loop: one lookup per post id of `order`, caching the details
    or, when the lookup throws (`None`), the placeholder.
   */
  function Enrich(cache: map<JString, PostDetails>, order: seq<JString>, lookup: JString -> Option<PostDetails>)
    : (r: map<JString, PostDetails>)
    ensures r.Keys == cache.Keys + Elems(order)
    ensures forall p :: p in order && lookup(p).Some? ==> r[p] == lookup(p).value
    ensures forall p :: p in order && lookup(p).None? ==> r[p] == Placeholder(p)
    ensures forall p :: p in cache && p !in order ==> r[p] == cache[p]
    decreases |order|
  {
    if |order| == 0 then cache
    else
      var p := order[0];
      ElemsCons(order);
      Enrich(cache[p := lookup(p).GetOr(Placeholder(p))], order[1..], lookup)
  }

  // ---------------------------------------------------------------------------
  // Step 3: emit

  /**
    The row for one new comment: the formatted creation time, the post id,
    the comment id, the author's name and id ("Unknown" for both when the
    comment has no `from`), the message, and the phone number found in it.
   */
  function RowOf(postId: JString, c: Comment, format: JString -> string): (row: Row)
    ensures row.postId == postId && row.commentId == c.id && row.message == c.message
    ensures row.timestamp == format(c.createdTime)
    ensures row.phone == ExtractPhoneNumber(c.message)
    ensures c.from.None? ==> row.name == Some("Unknown") && row.fromId == Some("Unknown")
    ensures c.from.Some? ==> row.name == c.from.value.name && row.fromId == c.from.value.id
  {
    var name := if c.from.Some? then c.from.value.name else Some("Unknown");
    var fromId := if c.from.Some? then c.from.value.id else Some("Unknown");
    Row(format(c.createdTime), postId, c.id, name, fromId, c.message, ExtractPhoneNumber(c.message))
  }

  /** The rows of one post, in the post's fetched comment order. */
  function RowsFor(postId: JString, cs: seq<Comment>, format: JString -> string): (rows: seq<Row>)
    ensures |rows| == |cs|
    ensures forall i :: 0 <= i < |cs| ==> rows[i] == RowOf(postId, cs[i], format)
  {
    seq(|cs|, i requires 0 <= i < |cs| => RowOf(postId, cs[i], format))
  }

  /**
    The emit loop: the rows of each post id of `order`, one post after
    another. Every row belongs to a listed post id and to a comment of that
    post's group; with each post id listed once, the rows carrying a post
    id are exactly that post's rows, in its group's order.
   */
  function EmitRows(groups: map<JString, seq<Comment>>, order: seq<JString>, format: JString -> string): (rows: seq<Row>)
    requires forall p :: p in order ==> p in groups
    ensures forall i :: 0 <= i < |rows| ==> rows[i].postId in order && rows[i].commentId in IdsOf(groups[rows[i].postId])
    ensures Distinct(order) ==> forall p :: RowsOfPost(rows, p) == if p in order then RowsFor(p, groups[p], format) else []
    decreases |order|
  {
    if |order| == 0 then []
    else
      var head := RowsFor(order[0], groups[order[0]], format);
      var tail := EmitRows(groups, order[1..], format);
      EmitStepSources(groups, order, head, tail, format);
      EmitStepPerPost(groups, order, head, tail, format);
      head + tail
  }

  /** One step of `EmitRows`: prepending a post's rows keeps every row traceable to its group. */
  lemma EmitStepSources(groups: map<JString, seq<Comment>>, order: seq<JString>, head: seq<Row>, tail: seq<Row>, format: JString -> string)
    requires forall q :: q in order ==> q in groups
    requires |order| > 0 && head == RowsFor(order[0], groups[order[0]], format)
    requires forall i :: 0 <= i < |tail| ==> tail[i].postId in order[1..] && tail[i].commentId in IdsOf(groups[tail[i].postId])
    ensures forall i :: 0 <= i < |head + tail| ==>
      (head + tail)[i].postId in order && (head + tail)[i].commentId in IdsOf(groups[(head + tail)[i].postId])
  {
    var q := order[0];
    var rows := head + tail;
    forall i | 0 <= i < |rows|
      ensures rows[i].postId in order && rows[i].commentId in IdsOf(groups[rows[i].postId])
    {
      if i < |head| {
        assert rows[i] == RowOf(q, groups[q][i], format);
        assert CommentIds(groups[q])[i] == groups[q][i].id;
      } else {
        assert rows[i] == tail[i - |head|];
        assert order == [q] + order[1..];
      }
    }
  }

  /** One step of `EmitRows`: prepending the rows of a post id listed nowhere later keeps the per-post split. */
  lemma EmitStepPerPost(groups: map<JString, seq<Comment>>, order: seq<JString>, head: seq<Row>, tail: seq<Row>, format: JString -> string)
    requires |order| > 0 && order[0] in groups && head == RowsFor(order[0], groups[order[0]], format)
    requires forall q :: q in order[1..] ==> q in groups
    requires Distinct(order[1..]) ==> forall p :: RowsOfPost(tail, p) == if p in order[1..] then RowsFor(p, groups[p], format) else []
    ensures Distinct(order) ==> forall p :: RowsOfPost(head + tail, p) == if p in order then RowsFor(p, groups[p], format) else []
  {
    if Distinct(order) {
      var q := order[0];
      DistinctTail(order);
      forall p ensures RowsOfPost(head + tail, p) == if p in order then RowsFor(p, groups[p], format) else [] {
        RowsOfPostAppend(head, tail, p);
        RowsOfPostRowsFor(q, groups[q], p, format);
        assert p in order <==> p == q || p in order[1..];
      }
    }
  }

  lemma DistinctTail<T>(xs: seq<T>)
    requires |xs| > 0 && Distinct(xs)
    ensures Distinct(xs[1..]) && xs[0] !in xs[1..]
  {
    forall i, j | 0 <= i < j < |xs[1..]| ensures xs[1..][i] != xs[1..][j] {
      assert xs[1..][i] == xs[i + 1] && xs[1..][j] == xs[j + 1];
    }
    forall i | 0 <= i < |xs[1..]| ensures xs[1..][i] != xs[0] {
      assert xs[1..][i] == xs[i + 1];
    }
  }

  /** Every row is handed to the sink in turn; a rejected row does not stop the rest. */
  function Send(rows: seq<Row>, write: Row -> bool): (attempts: seq<Attempt>)
    ensures |attempts| == |rows|
    ensures forall i :: 0 <= i < |rows| ==> attempts[i].row == rows[i] && attempts[i].saved == write(rows[i])
  {
    seq(|rows|, i requires 0 <= i < |rows| => Attempt(rows[i], write(rows[i])))
  }

  function AttemptedRows(attempts: seq<Attempt>): (rows: seq<Row>)
    ensures |rows| == |attempts|
    ensures forall i :: 0 <= i < |attempts| ==> rows[i] == attempts[i].row
  {
    seq(|attempts|, i requires 0 <= i < |attempts| => attempts[i].row)
  }

  function RowIds(rows: seq<Row>): (ids: seq<JString>)
    ensures |ids| == |rows|
    ensures forall i :: 0 <= i < |rows| ==> ids[i] == rows[i].commentId
  {
    seq(|rows|, i requires 0 <= i < |rows| => rows[i].commentId)
  }

  /** The rows of `rows` that carry post id `p`, in order. */
  function RowsOfPost(rows: seq<Row>, p: JString): seq<Row>
    decreases |rows|
  {
    if |rows| == 0 then []
    else (if rows[0].postId == p then [rows[0]] else []) + RowsOfPost(rows[1..], p)
  }

  // ---------------------------------------------------------------------------
  // The pass

  /** `order` lists every member of `s` exactly once: how a `HashSet` is iterated. */
  predicate IsEnumeration(order: seq<JString>, s: set<JString>) {
    Distinct(order) && Elems(order) == s
  }

  /**
    What one pass leaves behind: the seen-set, the post ids looked up (in
    lookup order), the detail cache, and the `appendRow` calls made.
   */
  datatype PassResult = PassResult(
    tracker: Tracker,
    lookups: seq<JString>,
    details: map<JString, PostDetails>,
    attempts: seq<Attempt>)

  /**
    `syncComments`. `data` is the `data` list of the fetched response
    (`None` when the response has none); `order` is the iteration order of
    `postsWithNewComments`, used by both the detail loop and the emit loop;
    `lookup` is `fetchPostDetails` (`None` when it throws); `write` is
    `appendRow` (false when it throws); `format` is `formatTimestamp`.
   */
  function SyncComments(
    t: Tracker,
    data: Option<seq<Post>>,
    order: seq<JString>,
    lookup: JString -> Option<PostDetails>,
    write: Row -> bool,
    format: JString -> string): (r: PassResult)
    requires data.Some? ==> IsEnumeration(order, Classify(t, data.value).postsWithNew)
    ensures data.None? ==> r == PassResult(t, [], map[], [])
    ensures data.Some? ==> r.tracker.seen == t.seen + AllIds(data.value)
    ensures data.Some? ==> r.details.Keys == Elems(r.lookups)
  {
    match data
    case None => PassResult(t, [], map[], [])
    case Some(posts) =>
      var c := Classify(t, posts);
      var details := Enrich(map[], order, lookup);
      var rows := EmitRows(c.newByPost, order, format);
      PassResult(c.tracker, order, details, Send(rows, write))
  }

  // ---------------------------------------------------------------------------
  // Emission lemmas

  lemma RowsOfPostAppend(a: seq<Row>, b: seq<Row>, p: JString)
    ensures RowsOfPost(a + b, p) == RowsOfPost(a, p) + RowsOfPost(b, p)
    decreases |a|
  {
    if |a| > 0 {
      assert (a + b)[1..] == a[1..] + b;
      RowsOfPostAppend(a[1..], b, p);
    } else {
      assert a + b == b;
    }
  }

  /** Rows that all carry post id `p` are all kept. */
  lemma {:induction false} RowsOfPostAll(rows: seq<Row>, p: JString)
    requires forall i :: 0 <= i < |rows| ==> rows[i].postId == p
    ensures RowsOfPost(rows, p) == rows
    decreases |rows|
  {
    if |rows| > 0 {
      RowsOfPostAll(rows[1..], p);
      assert rows == [rows[0]] + rows[1..];
    }
  }

  /** Rows none of which carries post id `p` are all dropped. */
  lemma {:induction false} RowsOfPostNone(rows: seq<Row>, p: JString)
    requires forall i :: 0 <= i < |rows| ==> rows[i].postId != p
    ensures RowsOfPost(rows, p) == []
    decreases |rows|
  {
    if |rows| > 0 {
      RowsOfPostNone(rows[1..], p);
    }
  }

  lemma RowsOfPostRowsFor(q: JString, cs: seq<Comment>, p: JString, format: JString -> string)
    ensures RowsOfPost(RowsFor(q, cs, format), p) == if q == p then RowsFor(q, cs, format) else []
  {
    var rows := RowsFor(q, cs, format);
    assert forall i :: 0 <= i < |rows| ==> rows[i].postId == q;
    if q == p {
      RowsOfPostAll(rows, p);
    } else {
      RowsOfPostNone(rows, p);
    }
  }

  /** No comment id occurs twice within or across groups. */
  ghost predicate DisjointGroups(groups: map<JString, seq<Comment>>) {
    && (forall p :: p in groups ==> Distinct(CommentIds(groups[p])))
    && (forall p, q :: p in groups && q in groups && p != q ==> IdsOf(groups[p]) !! IdsOf(groups[q]))
  }

  /** With disjoint groups and each post id listed once, no comment id is emitted twice. */
  lemma {:induction false} EmitRowsDistinct(groups: map<JString, seq<Comment>>, order: seq<JString>, format: JString -> string)
    requires forall q :: q in order ==> q in groups
    requires Distinct(order) && DisjointGroups(groups)
    ensures Distinct(RowIds(EmitRows(groups, order, format)))
    decreases |order|
  {
    if |order| > 0 {
      var q := order[0];
      var head := RowsFor(q, groups[q], format);
      var tail := EmitRows(groups, order[1..], format);
      DistinctTail(order);
      EmitRowsDistinct(groups, order[1..], format);
      EmitDistinctStep(groups, order, head, tail, format);
    }
  }

  /** One step of `EmitRowsDistinct`: the first post's ids are distinct and occur in no later post's rows. */
  lemma EmitDistinctStep(groups: map<JString, seq<Comment>>, order: seq<JString>, head: seq<Row>, tail: seq<Row>, format: JString -> string)
    requires |order| > 0 && order[0] in groups && order[0] !in order[1..] && DisjointGroups(groups)
    requires head == RowsFor(order[0], groups[order[0]], format)
    requires forall i :: 0 <= i < |tail| ==> tail[i].postId in order[1..] && tail[i].postId in groups && tail[i].commentId in IdsOf(groups[tail[i].postId])
    requires Distinct(RowIds(tail))
    ensures Distinct(RowIds(head + tail))
  {
    var q := order[0];
    var hid := RowIds(head);
    var tid := RowIds(tail);
    assert hid == CommentIds(groups[q]);
    forall j | 0 <= j < |tid| ensures tid[j] !in IdsOf(groups[q]) {
      assert tail[j].postId != q;
    }
    forall i, j | 0 <= i < |hid| && 0 <= j < |tid| ensures hid[i] != tid[j] {
      assert hid[i] in IdsOf(groups[q]);
    }
    assert RowIds(head + tail) == hid + tid;
    DistinctConcat(hid, tid);
  }

  lemma DistinctConcat<T>(a: seq<T>, b: seq<T>)
    requires Distinct(a) && Distinct(b)
    requires forall i, j :: 0 <= i < |a| && 0 <= j < |b| ==> a[i] != b[j]
    ensures Distinct(a + b)
  {
    forall i, j | 0 <= i < j < |a + b| ensures (a + b)[i] != (a + b)[j] {
      if j < |a| {
        assert (a + b)[i] == a[i] && (a + b)[j] == a[j];
      } else if i >= |a| {
        assert (a + b)[i] == b[i - |a|] && (a + b)[j] == b[j - |a|];
      } else {
        assert (a + b)[i] == a[i] && (a + b)[j] == b[j - |a|];
      }
    }
  }

  // ---------------------------------------------------------------------------
  // Properties of one pass

  lemma SendKeepsRows(rows: seq<Row>, write: Row -> bool)
    ensures AttemptedRows(Send(rows, write)) == rows
  {
  }

  /**
    Exactly one detail lookup is made per distinct post id that has an
    occurrence with new comments, and none for any other post id (a post
    with no comment wrapper, no comment list or no new comments included).
   */
  lemma SyncLookups(
    t: Tracker, posts: seq<Post>, order: seq<JString>,
    lookup: JString -> Option<PostDetails>, write: Row -> bool, format: JString -> string)
    requires IsEnumeration(order, Classify(t, posts).postsWithNew)
    ensures var r := SyncComments(t, Some(posts), order, lookup, write, format);
      && Distinct(r.lookups)
      && (forall p :: p in r.lookups <==> HasNew(t, posts, p))
  {
    forall p ensures p in order <==> HasNew(t, posts, p) {
      ClassifyGroups(Classified(t, {}, map[]), posts, p);
    }
  }

  /** A failed lookup leaves the placeholder in the cache; a successful one its result. */
  lemma SyncDetails(
    t: Tracker, posts: seq<Post>, order: seq<JString>,
    lookup: JString -> Option<PostDetails>, write: Row -> bool, format: JString -> string)
    requires IsEnumeration(order, Classify(t, posts).postsWithNew)
    ensures var r := SyncComments(t, Some(posts), order, lookup, write, format);
      forall p :: p in r.lookups ==>
        p in r.details && r.details[p] == (if lookup(p).Some? then lookup(p).value else Placeholder(p))
  {
  }

  /**
    The rows carrying a post id are the rows of the new comments of its last
    occurrence that had any, in that occurrence's fetched order; a post id
    with no such occurrence has no rows.
   */
  lemma SyncRowsPerPost(
    t: Tracker, posts: seq<Post>, order: seq<JString>,
    lookup: JString -> Option<PostDetails>, write: Row -> bool, format: JString -> string)
    requires IsEnumeration(order, Classify(t, posts).postsWithNew)
    ensures var rows := AttemptedRows(SyncComments(t, Some(posts), order, lookup, write, format).attempts);
      && (forall k :: 0 <= k < |posts| && LastWithNew(t, posts, k) ==>
            RowsOfPost(rows, posts[k].id) == RowsFor(posts[k].id, NewAt(t, posts, k), format))
      && (forall p :: !HasNew(t, posts, p) ==> RowsOfPost(rows, p) == [])
  {
    var c0 := Classified(t, {}, map[]);
    var c := Classify(t, posts);
    var rows := EmitRows(c.newByPost, order, format);
    SendKeepsRows(rows, write);
    forall k | 0 <= k < |posts| && LastWithNew(t, posts, k)
      ensures RowsOfPost(rows, posts[k].id) == RowsFor(posts[k].id, NewAt(t, posts, k), format)
    {
      ClassifyLastWins(c0, posts, k);
      ClassifyGroups(c0, posts, posts[k].id);
    }
    forall p | !HasNew(t, posts, p) ensures RowsOfPost(rows, p) == [] {
      ClassifyGroups(c0, posts, p);
    }
  }

  /**
    Every attempted row is for a comment whose id was not in the seen-set
    when the pass began and is in it afterwards, and no comment id is
    attempted twice in one pass.
   */
  lemma SyncRowsFresh(
    t: Tracker, posts: seq<Post>, order: seq<JString>,
    lookup: JString -> Option<PostDetails>, write: Row -> bool, format: JString -> string)
    requires IsEnumeration(order, Classify(t, posts).postsWithNew)
    ensures var r := SyncComments(t, Some(posts), order, lookup, write, format);
      && Distinct(RowIds(AttemptedRows(r.attempts)))
      && (forall i :: 0 <= i < |r.attempts| ==>
            r.attempts[i].row.commentId !in t.seen && r.attempts[i].row.commentId in r.tracker.seen)
  {
    var c := Classify(t, posts);
    ClassifyFresh(Classified(t, {}, map[]), posts, t);
    var rows := EmitRows(c.newByPost, order, format);
    EmitRowsDistinct(c.newByPost, order, format);
    FreshRows(t, c, order, rows, format);
    var r := SyncComments(t, Some(posts), order, lookup, write, format);
    assert r.tracker == c.tracker;
    SendKeepsRows(rows, write);
    assert AttemptedRows(r.attempts) == rows;
  }

  /** The rows emitted from fresh groups are for comments unseen at the start and seen at the end. */
  lemma FreshRows(t: Tracker, c: Classified, order: seq<JString>, rows: seq<Row>, format: JString -> string)
    requires FreshGroups(c, t) && forall q :: q in order ==> q in c.newByPost
    requires rows == EmitRows(c.newByPost, order, format)
    ensures forall i :: 0 <= i < |rows| ==> rows[i].commentId !in t.seen && rows[i].commentId in c.tracker.seen
  {
    forall i | 0 <= i < |rows|
      ensures rows[i].commentId !in t.seen && rows[i].commentId in c.tracker.seen
    {
      assert rows[i].commentId in IdsOf(c.newByPost[rows[i].postId]);
    }
  }

  /**
    The sink's answers change nothing but the recorded outcomes: the same
    rows are attempted, the same lookups made and the same seen-set left
    whether every write succeeds or every write fails.
   */
  lemma SyncIgnoresSinkOutcome(
    t: Tracker, data: Option<seq<Post>>, order: seq<JString>,
    lookup: JString -> Option<PostDetails>, write1: Row -> bool, write2: Row -> bool, format: JString -> string)
    requires data.Some? ==> IsEnumeration(order, Classify(t, data.value).postsWithNew)
    ensures var r1 := SyncComments(t, data, order, lookup, write1, format);
      var r2 := SyncComments(t, data, order, lookup, write2, format);
      && AttemptedRows(r1.attempts) == AttemptedRows(r2.attempts)
      && r1.tracker == r2.tracker && r1.lookups == r2.lookups && r1.details == r2.details
  {
  }

  /** Each comment id of a post lies in the ids of the whole list. */
  lemma {:induction false} PostIdsInAll(posts: seq<Post>, k: nat)
    requires k < |posts|
    ensures IdsOf(PostComments(posts[k])) <= AllIds(posts)
    decreases |posts|
  {
    if k > 0 {
      PostIdsInAll(posts[1..], k - 1);
    }
  }

  lemma EmptyIds(cs: seq<Comment>)
    ensures IdsOf(cs) == {} <==> cs == []
  {
    if cs != [] {
      assert CommentIds(cs)[0] in IdsOf(cs);
    }
  }

  /** When every comment id of the posts is already seen, no occurrence has new comments. */
  lemma NothingNewWhenAllSeen(t: Tracker, posts: seq<Post>)
    requires AllIds(posts) <= t.seen
    ensures forall p :: !HasNew(t, posts, p)
    ensures Classify(t, posts).postsWithNew == {}
  {
    forall k | 0 <= k < |posts| ensures NewAt(t, posts, k) == [] {
      PostIdsInAll(posts, k);
      var found := NewAt(t, posts, k);
      NewCommentIds(Before(t, posts, k), PostComments(posts[k]));
      EmptyIds(found);
    }
    forall p ensures p !in Classify(t, posts).postsWithNew {
      ClassifyGroups(Classified(t, {}, map[]), posts, p);
    }
  }

  /**
    Running the pass again over the same response, on the seen-set the
    first run left, looks nothing up and emits nothing: a comment whose
    write failed is not retried by this process.
   */
  lemma RepeatPassEmitsNothing(
    t: Tracker, posts: seq<Post>, order: seq<JString>,
    lookup: JString -> Option<PostDetails>, write: Row -> bool, format: JString -> string)
    requires IsEnumeration(order, Classify(t, posts).postsWithNew)
    ensures var t2 := SyncComments(t, Some(posts), order, lookup, write, format).tracker;
      && IsEnumeration([], Classify(t2, posts).postsWithNew)
      && SyncComments(t2, Some(posts), [], lookup, write, format).lookups == []
      && SyncComments(t2, Some(posts), [], lookup, write, format).attempts == []
  {
    var t2 := SyncComments(t, Some(posts), order, lookup, write, format).tracker;
    NothingNewWhenAllSeen(t2, posts);
  }

  /** A pass never removes an id from the seen-set, so every later pass starts from a superset. */
  lemma PassKeepsSeen(
    t: Tracker, data: Option<seq<Post>>, order: seq<JString>,
    lookup: JString -> Option<PostDetails>, write: Row -> bool, format: JString -> string)
    requires data.Some? ==> IsEnumeration(order, Classify(t, data.value).postsWithNew)
    ensures t.seen <= SyncComments(t, data, order, lookup, write, format).tracker.seen
  {
  }

  /**
    No comment id attempted by one pass is attempted by any later pass of
    the process: the later pass starts from any seen-set that contains the
    one the first pass left (passes in between only add to it, by
    `PassKeepsSeen`), with any response, order and I/O of its own.
   */
  lemma NoCommentAttemptedTwice(
    t: Tracker, posts1: seq<Post>, order1: seq<JString>,
    lookup1: JString -> Option<PostDetails>, write1: Row -> bool, format1: JString -> string,
    t2: Tracker, posts2: seq<Post>, order2: seq<JString>,
    lookup2: JString -> Option<PostDetails>, write2: Row -> bool, format2: JString -> string)
    requires IsEnumeration(order1, Classify(t, posts1).postsWithNew)
    requires SyncComments(t, Some(posts1), order1, lookup1, write1, format1).tracker.seen <= t2.seen
    requires IsEnumeration(order2, Classify(t2, posts2).postsWithNew)
    ensures var r1 := SyncComments(t, Some(posts1), order1, lookup1, write1, format1);
      var r2 := SyncComments(t2, Some(posts2), order2, lookup2, write2, format2);
      forall i, j :: 0 <= i < |r1.attempts| && 0 <= j < |r2.attempts| ==>
        r1.attempts[i].row.commentId != r2.attempts[j].row.commentId
  {
    SyncRowsFresh(t, posts1, order1, lookup1, write1, format1);
    SyncRowsFresh(t2, posts2, order2, lookup2, write2, format2);
  }

  /** A post with one comment: it is collected exactly when its id is unseen. */
  lemma NewCommentsSingle(t: Tracker, c: Comment)
    ensures NewComments(t, [c]) == (if c.id !in t.seen then [c] else [], Tracker(t.seen + {c.id}))
  {
    assert [c][1..] == [];
    var (isNew, t1) := IsNewComment(t, c.id);
    assert NewComments(t1, []) == ([], t1);
    assert [c] + [] == [c];
  }

  /** A response listing post `p` twice, with comment `a` in the first occurrence and `b` in the second. */
  function TwicePosted(p: JString, a: Comment, b: Comment): seq<Post> {
    [Post(p, Some(CommentPage(Some([a])))), Post(p, Some(CommentPage(Some([b]))))]
  }

  /**
    Classifying `TwicePosted` when both comments are unseen marks both ids
    seen, but the group of `p` holds only the later occurrence's comment.
   */
  lemma ClassifyTwicePosted(t: Tracker, p: JString, a: Comment, b: Comment)
    requires a.id !in t.seen && b.id !in t.seen && a.id != b.id
    ensures ClassifyFrom(Classified(t, {}, map[]), TwicePosted(p, a, b))
      == Classified(Tracker(t.seen + {a.id, b.id}), {p}, map[p := [b]])
  {
    var posts := TwicePosted(p, a, b);
    var c0 := Classified(t, {}, map[]);
    var c1 := Classified(Tracker(t.seen + {a.id}), {p}, map[p := [a]]);
    ClassifyFirstOfTwo(t, p, a, b);
    ClassifyLastOfTwo(c1, posts, p, b);
    AddTwo(t.seen, a.id, b.id);
    AddAgain(p);
    Overwrite(p, [a], [b]);
  }

  // Set and map identities kept out of `ClassifyTwicePosted`, whose own
  // context makes the solver slow to find them.

  lemma Overwrite<K, V>(k: K, v: V, w: V)
    ensures map[k := v][k := w] == map[k := w]
  {
  }

  lemma AddAgain<T>(x: T)
    ensures {x} + {x} == {x}
  {
  }

  lemma AddTwo<T>(s: set<T>, x: T, y: T)
    ensures s + {x} + {y} == s + {x, y}
  {
  }

  /** After the first occurrence, `p` holds the first comment. */
  lemma ClassifyFirstOfTwo(t: Tracker, p: JString, a: Comment, b: Comment)
    requires a.id !in t.seen
    ensures ClassifyFrom(Classified(t, {}, map[]), TwicePosted(p, a, b))
      == ClassifyFrom(Classified(Tracker(t.seen + {a.id}), {p}, map[p := [a]]), TwicePosted(p, a, b)[1..])
  {
    var c0 := Classified(t, {}, map[]);
    ClassifySingle(c0, p, a);
    assert map[][p := [a]] == map[p := [a]] && {} + {p} == {p};
  }

  /** Classifying a one-post remainder is one `ClassifyPost` step. */
  lemma ClassifyLastOfTwo(c: Classified, posts: seq<Post>, p: JString, b: Comment)
    requires WellFormed(c) && b.id !in c.tracker.seen
    requires |posts| == 2 && posts[1] == Post(p, Some(CommentPage(Some([b]))))
    ensures ClassifyFrom(c, posts[1..]) ==
      Classified(Tracker(c.tracker.seen + {b.id}), c.postsWithNew + {p}, c.newByPost[p := [b]])
  {
    ClassifySingle(c, p, b);
    assert posts[1..][0] == posts[1] && posts[1..][1..] == [];
  }


  /** A post with a single unseen comment groups that comment under the post's id and marks it seen. */
  lemma ClassifySingle(c: Classified, p: JString, x: Comment)
    requires WellFormed(c) && x.id !in c.tracker.seen
    ensures ClassifyPost(c, Post(p, Some(CommentPage(Some([x]))))) ==
      Classified(Tracker(c.tracker.seen + {x.id}), c.postsWithNew + {p}, c.newByPost[p := [x]])
  {
    NewCommentsSingle(c.tracker, x);
  }

  /**
    When the response lists a post id twice and both occurrences bring new
    comments, the later occurrence replaces the earlier group: the earlier
    comment is marked seen but never written.
   */
  lemma DuplicatePostLosesEarlierComments(
    t: Tracker, p: JString, a: Comment, b: Comment,
    lookup: JString -> Option<PostDetails>, write: Row -> bool, format: JString -> string)
    requires a.id !in t.seen && b.id !in t.seen && a.id != b.id
    ensures && IsEnumeration([p], Classify(t, TwicePosted(p, a, b)).postsWithNew)
            && a.id in SyncComments(t, Some(TwicePosted(p, a, b)), [p], lookup, write, format).tracker.seen
            && AttemptedRows(SyncComments(t, Some(TwicePosted(p, a, b)), [p], lookup, write, format).attempts)
               == [RowOf(p, b, format)]
  {
    ClassifyTwicePosted(t, p, a, b);
    assert Classify(t, TwicePosted(p, a, b)) == ClassifyFrom(Classified(t, {}, map[]), TwicePosted(p, a, b));
    SyncOneGroup(t, TwicePosted(p, a, b), p, lookup, write, format);
  }

  /** A pass whose step 1 grouped new comments under one post id attempts exactly that group's rows. */
  lemma SyncOneGroup(
    t: Tracker, posts: seq<Post>, p: JString,
    lookup: JString -> Option<PostDetails>, write: Row -> bool, format: JString -> string)
    requires Classify(t, posts).postsWithNew == {p}
    ensures && IsEnumeration([p], Classify(t, posts).postsWithNew)
            && SyncComments(t, Some(posts), [p], lookup, write, format).tracker == Classify(t, posts).tracker
            && AttemptedRows(SyncComments(t, Some(posts), [p], lookup, write, format).attempts)
               == RowsFor(p, Classify(t, posts).newByPost[p], format)
  {
    var groups := Classify(t, posts).newByPost;
    assert [p][1..] == [];
    assert EmitRows(groups, [p], format) == RowsFor(p, groups[p], format) + EmitRows(groups, [], format);
    SendKeepsRows(EmitRows(groups, [p], format), write);
  }
}
