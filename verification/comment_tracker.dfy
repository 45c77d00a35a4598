/**
  The per-process seen-set of comment ids. `isNewComment` is a test-and-add:
  it reports whether the id was absent and records it in the same step, so
  an id is reported new at most once in the lifetime of the process.
 */
module CommentTracker {
  import opened JavaText

  /** The ids seen so far; a Java `HashSet<String>`, so `null` is an ordinary member. */
  datatype Tracker = Tracker(seen: set<JString>)

  /** The tracker a freshly started process holds. */
  const Initial: Tracker := Tracker({})

  /**
    `isNewComment`: `Set.add`, which answers true exactly when the set grew.
    The id is a member afterwards and no other id's membership changes.
   */
  function IsNewComment(t: Tracker, id: JString): (r: (bool, Tracker))
    ensures r.0 <==> |r.1.seen| == |t.seen| + 1
    ensures !r.0 ==> r.1 == t
    ensures id in r.1.seen
    ensures forall x :: x != id ==> (x in r.1.seen <==> x in t.seen)
  {
    (id !in t.seen, Tracker(t.seen + {id}))
  }

  /** Calling twice with the same id answers true, then false, whatever came before a first call on a fresh id. */
  lemma SecondCallIsNotNew(t: Tracker, id: JString)
    requires id !in t.seen
    ensures IsNewComment(t, id).0
    ensures !IsNewComment(IsNewComment(t, id).1, id).0
  {
  }

  function Elems(ids: seq<JString>): set<JString> {
    set x | x in ids
  }

  /** How many answers in `flags` are true. */
  function CountTrue(flags: seq<bool>): nat
    ensures CountTrue(flags) <= |flags|
  {
    if |flags| == 0 then 0 else (if flags[0] then 1 else 0) + CountTrue(flags[1..])
  }

  /**
    A run of `isNewComment` calls, one per id, threading the tracker.
    The i-th answer is true exactly when the id is neither in the starting
    set nor among the ids passed before it; the set only grows, and ends as
    the starting set together with every id passed.
   */
  function TestAll(t: Tracker, ids: seq<JString>): (r: (seq<bool>, Tracker))
    ensures |r.0| == |ids|
    ensures r.1.seen == t.seen + Elems(ids)
    ensures forall i :: 0 <= i < |ids| ==> (r.0[i] <==> ids[i] !in t.seen && ids[i] !in ids[..i])
    decreases |ids|
  {
    if |ids| == 0 then ([], t)
    else
      var (b, t1) := IsNewComment(t, ids[0]);
      var (rest, t2) := TestAll(t1, ids[1..]);
      ElemsCons(ids);
      PrefixCons(ids);
      ([b] + rest, t2)
  }

  lemma ElemsCons(ids: seq<JString>)
    requires |ids| > 0
    ensures Elems(ids) == {ids[0]} + Elems(ids[1..])
  {
    assert ids == [ids[0]] + ids[1..];
  }

  lemma PrefixCons(ids: seq<JString>)
    requires |ids| > 0
    ensures forall i :: 1 <= i <= |ids| ==> ids[..i] == [ids[0]] + ids[1..][..i - 1]
  {
  }

  /**
    Over any run of calls, the number of true answers is the number of
    distinct ids passed that were not already seen; from a fresh tracker,
    the number of distinct ids.
   */
  lemma {:induction false} CountNewIsDistinctUnseen(t: Tracker, ids: seq<JString>)
    ensures CountTrue(TestAll(t, ids).0) == |Elems(ids) - t.seen|
    decreases |ids|
  {
    if |ids| > 0 {
      var t1 := IsNewComment(t, ids[0]).1;
      var rest := ids[1..];
      var flags := TestAll(t, ids).0;
      CountNewIsDistinctUnseen(t1, rest);
      assert flags[1..] == TestAll(t1, rest).0;
      assert CountTrue(flags) == (if flags[0] then 1 else 0) + CountTrue(flags[1..]);
      ElemsCons(ids);
      DiffInsert(ids[0], Elems(rest), t.seen);
    }
  }

  /** Removing a set from a set with one more element: the element counts once, unless removed. */
  lemma DiffInsert(x: JString, a: set<JString>, s: set<JString>)
    ensures |({x} + a) - s| == (if x in s then 0 else 1) + |a - (s + {x})|
  {
    if x in s {
      assert ({x} + a) - s == a - (s + {x});
    } else {
      assert ({x} + a) - s == {x} + (a - (s + {x}));
      assert x !in a - (s + {x});
    }
  }

  /** From a fresh process, the true answers count the distinct ids passed. */
  lemma CountNewFromInitial(ids: seq<JString>)
    ensures CountTrue(TestAll(Initial, ids).0) == |Elems(ids)|
  {
    CountNewIsDistinctUnseen(Initial, ids);
  }

  /** Once an id has been seen, every later call with it answers false. */
  lemma SeenStaysSeen(t: Tracker, id: JString, ids: seq<JString>)
    requires id in t.seen
    ensures id in TestAll(t, ids).1.seen
    ensures forall i :: 0 <= i < |ids| && ids[i] == id ==> !TestAll(t, ids).0[i]
  {
  }
}
