/**
 * The callback registry `_callbacks`: point -> direction -> tag -> list of
 * callbacks. The point and direction levels are folded into one key
 * (point, sens): `add` only ever creates the two levels together, so asking
 * whether both exist is asking whether the pair is a key. The tag buckets
 * under one key keep their insertion order, which is the order dispatch
 * visits them in.
 */
module Registry {
  import opened Wrappers

  /** Callbacks are opaque: the model records which one would run, not what it does. */
  type CallbackId = nat

  /** `_defaultTag`, the tag used when `add` or `remove` is given none. */
  const DefaultTag := "__"

  datatype TagBucket = TagBucket(tag: string, callbacks: seq<CallbackId>)

  type Tags = seq<TagBucket>

  type Callbacks = map<(string, string), Tags>

  function TagOrDefault(tag: Option<string>): (t: string)
    ensures tag.None? ==> t == DefaultTag
    ensures tag.Some? ==> t == tag.value
  {
    if tag.None? then DefaultTag else tag.value
  }

  /** Tags are the keys of a JavaScript object: no tag appears twice under one key. */
  predicate DistinctTags(tags: Tags)
  {
    forall i, j :: 0 <= i < j < |tags| ==> tags[i].tag != tags[j].tag
  }

  predicate WellFormed(reg: Callbacks)
  {
    forall key :: key in reg ==> DistinctTags(reg[key])
  }

  /** The tag buckets under (point, sens); none when the path does not exist. */
  function TagsAt(reg: Callbacks, point: string, sens: string): Tags
  {
    if (point, sens) in reg then reg[(point, sens)] else []
  }

  function TagNames(tags: Tags): (r: seq<string>)
    ensures |r| == |tags|
    ensures forall i :: 0 <= i < |tags| ==> r[i] == tags[i].tag
  {
    if tags == [] then [] else [tags[0].tag] + TagNames(tags[1..])
  }

  /** The position of the bucket for `tag`, or -1 when there is none. */
  function FindTag(tags: Tags, tag: string): (i: int)
    ensures -1 <= i < |tags|
    ensures i >= 0 ==> tags[i].tag == tag && forall j :: 0 <= j < i ==> tags[j].tag != tag
    ensures i < 0 ==> forall j :: 0 <= j < |tags| ==> tags[j].tag != tag
  {
    if tags == [] then -1
    else if tags[0].tag == tag then 0
    else
      var i := FindTag(tags[1..], tag);
      if i < 0 then -1 else i + 1
  }

  /** The characterisation of `FindTag` determines it. */
  lemma {:induction false} FindTagIs(tags: Tags, tag: string, k: int)
    requires -1 <= k < |tags|
    requires k >= 0 ==> tags[k].tag == tag && forall j :: 0 <= j < k ==> tags[j].tag != tag
    requires k < 0 ==> forall j :: 0 <= j < |tags| ==> tags[j].tag != tag
    ensures FindTag(tags, tag) == k
  {
  }

  /** The callbacks in the bucket for `tag`; none when there is no such bucket. */
  function BucketIn(tags: Tags, tag: string): seq<CallbackId>
  {
    var i := FindTag(tags, tag);
    if i >= 0 then tags[i].callbacks else []
  }

  /** The callbacks stored under (point, sens, tag); none when the path does not exist. */
  function Bucket(reg: Callbacks, point: string, sens: string, tag: string): seq<CallbackId>
  {
    BucketIn(TagsAt(reg, point, sens), tag)
  }

  predicate HasBucket(reg: Callbacks, point: string, sens: string, tag: string)
  {
    FindTag(TagsAt(reg, point, sens), tag) >= 0
  }

  /** The buckets of one path after `add`: the tag's list gains `cb` at its end; a new tag goes last. */
  function AppendTo(tags: Tags, tag: string, cb: CallbackId): Tags
  {
    var i := FindTag(tags, tag);
    if i >= 0 then tags[i := TagBucket(tag, tags[i].callbacks + [cb])]
    else tags + [TagBucket(tag, [cb])]
  }

  /** The buckets of one path after `remove`: the tag's bucket is gone, the others keep their order. */
  function DeleteFrom(tags: Tags, tag: string): Tags
  {
    var i := FindTag(tags, tag);
    if i < 0 then tags else tags[..i] + tags[i + 1..]
  }

  /** Appending changes the tag's own bucket, by one callback at its end, and no other. */
  lemma AppendToBucket(tags: Tags, tag: string, cb: CallbackId, t: string)
    ensures BucketIn(AppendTo(tags, tag, cb), t) ==
              if t == tag then BucketIn(tags, t) + [cb] else BucketIn(tags, t)
  {
    var i := FindTag(tags, tag);
    var r := AppendTo(tags, tag, cb);
    assert forall j :: 0 <= j < |tags| ==> r[j].tag == tags[j].tag;
    if t == tag {
      FindTagIs(r, tag, if i >= 0 then i else |tags|);
    } else {
      assert |tags| < |r| ==> r[|tags|].tag == tag;
      FindTagIs(r, t, FindTag(tags, t));
    }
  }

  /** Appending keeps the tags distinct. */
  lemma AppendToDistinct(tags: Tags, tag: string, cb: CallbackId)
    requires DistinctTags(tags)
    ensures DistinctTags(AppendTo(tags, tag, cb))
  {
    var r := AppendTo(tags, tag, cb);
    assert forall j :: 0 <= j < |tags| ==> r[j].tag == tags[j].tag;
  }

  /** Deleting empties the tag's own bucket and leaves every other one as it was. */
  lemma DeleteFromBucket(tags: Tags, tag: string, t: string)
    requires DistinctTags(tags)
    ensures BucketIn(DeleteFrom(tags, tag), t) == if t == tag then [] else BucketIn(tags, t)
  {
    var i := FindTag(tags, tag);
    if i >= 0 {
      var r := DeleteFrom(tags, tag);
      assert forall j :: 0 <= j < |r| ==> r[j] == if j < i then tags[j] else tags[j + 1];
      var k := FindTag(tags, t);
      if t == tag {
        FindTagIs(r, t, -1);
      } else if k >= 0 {
        FindTagIs(r, t, if k < i then k else k - 1);
      } else {
        FindTagIs(r, t, -1);
      }
    }
  }

  /** Deleting keeps the tags distinct, and leaves no bucket for the deleted tag. */
  lemma DeleteFromDistinct(tags: Tags, tag: string)
    requires DistinctTags(tags)
    ensures DistinctTags(DeleteFrom(tags, tag))
    ensures FindTag(DeleteFrom(tags, tag), tag) < 0
  {
    var i := FindTag(tags, tag);
    if i >= 0 {
      var r := DeleteFrom(tags, tag);
      assert forall j :: 0 <= j < |r| ==> r[j] == if j < i then tags[j] else tags[j + 1];
    }
  }

  /**
   * `add(point, sens, callback, tag)`: create the path if needed and append
   * the callback at the end of the bucket; a new tag goes after the existing ones.
   */
  function Added(reg: Callbacks, point: string, sens: string, tag: string, cb: CallbackId): (r: Callbacks)
    ensures r.Keys == reg.Keys + {(point, sens)}
    ensures forall key :: key in reg && key != (point, sens) ==> r[key] == reg[key]
    ensures Bucket(r, point, sens, tag) == Bucket(reg, point, sens, tag) + [cb]
  {
    AppendToBucket(TagsAt(reg, point, sens), tag, cb, tag);
    reg[(point, sens) := AppendTo(TagsAt(reg, point, sens), tag, cb)]
  }

  /**
   * `remove(point, sens, tag)`: delete that one tag bucket; a missing path
   * leaves the registry as it is.
   */
  function Removed(reg: Callbacks, point: string, sens: string, tag: string): (r: Callbacks)
    ensures r.Keys == reg.Keys
    ensures forall key :: key in reg && key != (point, sens) ==> r[key] == reg[key]
    ensures !HasBucket(reg, point, sens, tag) ==> r == reg
  {
    if (point, sens) !in reg then reg
    else
      var r := reg[(point, sens) := DeleteFrom(reg[(point, sens)], tag)];
      assert !HasBucket(reg, point, sens, tag) ==> r == reg;
      r
  }

  /** `add` keeps every path's tags distinct. */
  lemma AddedWellFormed(reg: Callbacks, point: string, sens: string, tag: string, cb: CallbackId)
    requires WellFormed(reg)
    ensures WellFormed(Added(reg, point, sens, tag, cb))
  {
    AppendToDistinct(TagsAt(reg, point, sens), tag, cb);
  }

  /** `remove` keeps every path's tags distinct, and afterwards the bucket is gone. */
  lemma RemovedWellFormed(reg: Callbacks, point: string, sens: string, tag: string)
    requires WellFormed(reg)
    ensures WellFormed(Removed(reg, point, sens, tag))
    ensures !HasBucket(Removed(reg, point, sens, tag), point, sens, tag)
  {
    if (point, sens) in reg {
      var tags := reg[(point, sens)];
      DeleteFromDistinct(tags, tag);
    }
  }

  /** The callbacks of a list of buckets: bucket by bucket, each in list order. */
  function Flatten(tags: Tags): seq<CallbackId>
  {
    if tags == [] then [] else Flatten(tags[..|tags| - 1]) + tags[|tags| - 1].callbacks
  }

  /** What dispatch runs for one crossed point in one direction. */
  function FireList(reg: Callbacks, point: string, sens: string): seq<CallbackId>
  {
    Flatten(TagsAt(reg, point, sens))
  }

  /** What dispatch runs for a list of crossed points, point by point. */
  function Fired(reg: Callbacks, points: seq<string>, sens: string): seq<CallbackId>
  {
    if points == [] then []
    else Fired(reg, points[..|points| - 1], sens) + FireList(reg, points[|points| - 1], sens)
  }

  lemma {:induction false} FlattenAppend(a: Tags, b: Tags)
    ensures Flatten(a + b) == Flatten(a) + Flatten(b)
    decreases |b|
  {
    if b != [] {
      var b' := b[..|b| - 1];
      assert (a + b)[..|a + b| - 1] == a + b';
      FlattenAppend(a, b');
    } else {
      assert a + b == a;
    }
  }

  /** Dispatch order: the points of `a` fire before those of `b`. */
  lemma {:induction false} FiredAppend(reg: Callbacks, a: seq<string>, b: seq<string>, sens: string)
    ensures Fired(reg, a + b, sens) == Fired(reg, a, sens) + Fired(reg, b, sens)
    decreases |b|
  {
    if b != [] {
      var b' := b[..|b| - 1];
      assert (a + b)[..|a + b| - 1] == a + b';
      FiredAppend(reg, a, b', sens);
    } else {
      assert a + b == a;
    }
  }

  /** A callback runs for one point iff it sits in one of the point's buckets. */
  lemma {:induction false} FlattenMembers(tags: Tags, cb: CallbackId)
    ensures cb in Flatten(tags) <==> exists b :: b in tags && cb in b.callbacks
    decreases |tags|
  {
    if tags != [] {
      var init := tags[..|tags| - 1];
      FlattenMembers(init, cb);
      assert tags == init + [tags[|tags| - 1]];
    }
  }

  /**
   * A callback runs during a dispatch over `points` iff it is stored under
   * some crossed point for this direction; missing paths contribute nothing.
   */
  lemma {:induction false} FiredMembers(reg: Callbacks, points: seq<string>, sens: string, cb: CallbackId)
    ensures cb in Fired(reg, points, sens) <==>
            exists i :: 0 <= i < |points| && cb in FireList(reg, points[i], sens)
    decreases |points|
  {
    if points != [] {
      var init := points[..|points| - 1];
      FiredMembers(reg, init, sens, cb);
      assert forall i :: 0 <= i < |init| ==> init[i] == points[i];
    }
  }

  /** Adding touches only its own bucket. */
  lemma AddedBucket(reg: Callbacks, point: string, sens: string, tag: string, cb: CallbackId,
                    p: string, s: string, t: string)
    ensures Bucket(Added(reg, point, sens, tag, cb), p, s, t) ==
            if (p, s, t) == (point, sens, tag) then Bucket(reg, p, s, t) + [cb] else Bucket(reg, p, s, t)
  {
    if (p, s) == (point, sens) {
      AppendToBucket(TagsAt(reg, point, sens), tag, cb, t);
    }
  }

  /** A new tag goes after the existing ones; an existing tag keeps its place. */
  lemma AddedTagOrder(reg: Callbacks, point: string, sens: string, tag: string, cb: CallbackId)
    ensures TagNames(TagsAt(Added(reg, point, sens, tag, cb), point, sens)) ==
            if HasBucket(reg, point, sens, tag) then TagNames(TagsAt(reg, point, sens))
            else TagNames(TagsAt(reg, point, sens)) + [tag]
  {
    var tags := TagsAt(reg, point, sens);
    assert TagsAt(Added(reg, point, sens, tag, cb), point, sens) == AppendTo(tags, tag, cb);
    AppendToTagNames(tags, tag, cb);
  }

  lemma AppendToTagNames(tags: Tags, tag: string, cb: CallbackId)
    ensures TagNames(AppendTo(tags, tag, cb)) ==
            if FindTag(tags, tag) >= 0 then TagNames(tags) else TagNames(tags) + [tag]
  {
    var r := AppendTo(tags, tag, cb);
    assert forall j :: 0 <= j < |tags| ==> r[j].tag == tags[j].tag;
  }

  /**
   * Adding makes the callback run once more for its point and direction: at
   * the very end when the tag is new, at the end of its tag's group otherwise.
   */
  lemma AddedFires(reg: Callbacks, point: string, sens: string, tag: string, cb: CallbackId)
    ensures multiset(FireList(Added(reg, point, sens, tag, cb), point, sens)) ==
            multiset(FireList(reg, point, sens)) + multiset{cb}
    ensures !HasBucket(reg, point, sens, tag) ==>
            FireList(Added(reg, point, sens, tag, cb), point, sens) == FireList(reg, point, sens) + [cb]
  {
    AppendToFires(TagsAt(reg, point, sens), tag, cb);
  }

  lemma AppendToFires(tags: Tags, tag: string, cb: CallbackId)
    ensures multiset(Flatten(AppendTo(tags, tag, cb))) == multiset(Flatten(tags)) + multiset{cb}
    ensures FindTag(tags, tag) < 0 ==> Flatten(AppendTo(tags, tag, cb)) == Flatten(tags) + [cb]
  {
    var i := FindTag(tags, tag);
    if i >= 0 {
      var grown := TagBucket(tag, tags[i].callbacks + [cb]);
      assert tags == tags[..i] + [tags[i]] + tags[i + 1..];
      assert AppendTo(tags, tag, cb) == tags[..i] + [grown] + tags[i + 1..];
      FlattenAppend(tags[..i] + [tags[i]], tags[i + 1..]);
      FlattenAppend(tags[..i], [tags[i]]);
      FlattenAppend(tags[..i] + [grown], tags[i + 1..]);
      FlattenAppend(tags[..i], [grown]);
    } else {
      FlattenAppend(tags, [TagBucket(tag, [cb])]);
    }
  }

  /** Removing empties its own bucket and no other. */
  lemma RemovedBucket(reg: Callbacks, point: string, sens: string, tag: string,
                      p: string, s: string, t: string)
    requires WellFormed(reg)
    ensures Bucket(Removed(reg, point, sens, tag), p, s, t) ==
            if (p, s, t) == (point, sens, tag) then [] else Bucket(reg, p, s, t)
  {
    if (p, s) == (point, sens) && (point, sens) in reg {
      DeleteFromBucket(reg[(point, sens)], tag, t);
    }
  }

  /**
   * Removing takes exactly the bucket's callbacks out of what fires for that
   * point and direction; the other tags keep their callbacks.
   */
  lemma RemovedFires(reg: Callbacks, point: string, sens: string, tag: string)
    ensures multiset(FireList(Removed(reg, point, sens, tag), point, sens)) + multiset(Bucket(reg, point, sens, tag)) ==
            multiset(FireList(reg, point, sens))
    ensures HasBucket(reg, point, sens, tag) ==>
              FireList(Removed(reg, point, sens, tag), point, sens) ==
              Flatten(TagsAt(reg, point, sens)[..FindTag(TagsAt(reg, point, sens), tag)]) +
              Flatten(TagsAt(reg, point, sens)[FindTag(TagsAt(reg, point, sens), tag) + 1..])
  {
    DeleteFromFires(TagsAt(reg, point, sens), tag);
    DeleteFromOrder(TagsAt(reg, point, sens), tag);
  }

  lemma DeleteFromOrder(tags: Tags, tag: string)
    ensures FindTag(tags, tag) >= 0 ==>
              Flatten(DeleteFrom(tags, tag)) ==
              Flatten(tags[..FindTag(tags, tag)]) + Flatten(tags[FindTag(tags, tag) + 1..])
  {
    var i := FindTag(tags, tag);
    if i >= 0 {
      FlattenAppend(tags[..i], tags[i + 1..]);
    }
  }

  lemma DeleteFromFires(tags: Tags, tag: string)
    ensures multiset(Flatten(DeleteFrom(tags, tag))) + multiset(BucketIn(tags, tag)) == multiset(Flatten(tags))
  {
    var i := FindTag(tags, tag);
    if i >= 0 {
      assert tags == tags[..i] + [tags[i]] + tags[i + 1..];
      FlattenAppend(tags[..i] + [tags[i]], tags[i + 1..]);
      FlattenAppend(tags[..i], [tags[i]]);
      FlattenAppend(tags[..i], tags[i + 1..]);
    }
  }

  /** The other tags keep their order when one is removed. */
  lemma RemovedTagOrder(reg: Callbacks, point: string, sens: string, tag: string)
    ensures TagNames(TagsAt(Removed(reg, point, sens, tag), point, sens)) ==
            if HasBucket(reg, point, sens, tag) then
              TagNames(TagsAt(reg, point, sens))[..FindTag(TagsAt(reg, point, sens), tag)] +
              TagNames(TagsAt(reg, point, sens))[FindTag(TagsAt(reg, point, sens), tag) + 1..]
            else TagNames(TagsAt(reg, point, sens))
  {
    var tags := TagsAt(reg, point, sens);
    assert TagsAt(Removed(reg, point, sens, tag), point, sens) == DeleteFrom(tags, tag);
    DeleteFromTagNames(tags, tag);
  }

  lemma DeleteFromTagNames(tags: Tags, tag: string)
    ensures TagNames(DeleteFrom(tags, tag)) ==
            if FindTag(tags, tag) >= 0 then
              TagNames(tags)[..FindTag(tags, tag)] + TagNames(tags)[FindTag(tags, tag) + 1..]
            else TagNames(tags)
  {
    var i := FindTag(tags, tag);
    if i >= 0 {
      var r := DeleteFrom(tags, tag);
      var n := TagNames(tags);
      assert forall j :: 0 <= j < i ==> r[j].tag == n[j];
      assert forall j :: i <= j < |r| ==> r[j].tag == n[j + 1];
    }
  }

  /** Removing a tag that `add` has just created gives back every list of buckets. */
  lemma RemoveUndoesAdd(reg: Callbacks, point: string, sens: string, tag: string, cb: CallbackId,
                        p: string, s: string)
    requires !HasBucket(reg, point, sens, tag)
    ensures TagsAt(Removed(Added(reg, point, sens, tag, cb), point, sens, tag), p, s) == TagsAt(reg, p, s)
  {
    var tags := TagsAt(reg, point, sens);
    var tags' := tags + [TagBucket(tag, [cb])];
    FindTagIs(tags', tag, |tags|);
    assert tags'[..|tags|] + tags'[|tags| + 1..] == tags;
  }

  /**
   * The calls of a dispatch, each paired with what the callback observes of
   * the tracker while it runs (the active point, through `current()`).
   */
  function Calls<P>(fired: seq<CallbackId>, seen: P): (r: seq<(CallbackId, P)>)
    ensures |r| == |fired|
    ensures forall i :: 0 <= i < |r| ==> r[i].0 == fired[i] && r[i].1 == seen
  {
    seq(|fired|, i requires 0 <= i < |fired| => (fired[i], seen))
  }

  lemma CallsAppend<P>(a: seq<CallbackId>, b: seq<CallbackId>, seen: P)
    ensures Calls(a + b, seen) == Calls(a, seen) + Calls(b, seen)
  {
  }

  /**
   * The inner loops of `_run` for one crossed point: every tag bucket in
   * order, every callback in list order, each seeing `seen`.
   */
  method FirePoint<P>(tags: Tags, seen: P) returns (calls: seq<(CallbackId, P)>)
    ensures calls == Calls(Flatten(tags), seen)
  {
    calls := [];
    var j := 0;
    while j < |tags|
      invariant 0 <= j <= |tags|
      invariant calls == Calls(Flatten(tags[..j]), seen)
    {
      assert tags[..j + 1][..j] == tags[..j];
      var list := tags[j].callbacks;
      ghost var before := calls;
      var k := 0;
      while k < |list|
        invariant 0 <= k <= |list|
        invariant calls == before + Calls(list[..k], seen)
      {
        assert list[..k + 1] == list[..k] + [list[k]];
        CallsAppend(list[..k], [list[k]], seen);
        calls := calls + [(list[k], seen)];
        k := k + 1;
      }
      assert list[..|list|] == list;
      CallsAppend(Flatten(tags[..j]), list, seen);
      j := j + 1;
    }
    assert tags[..|tags|] == tags;
  }

  /**
   * The loop of `_run` that runs every callback of every tag for each
   * crossed point, skipping missing paths; `seen` is what each callback
   * observes of the tracker.
   */
  method Dispatch<P>(reg: Callbacks, points: seq<string>, sens: string, seen: P)
    returns (calls: seq<(CallbackId, P)>)
    ensures calls == Calls(Fired(reg, points, sens), seen)
  {
    calls := [];
    var i := 0;
    while i < |points|
      invariant 0 <= i <= |points|
      invariant calls == Calls(Fired(reg, points[..i], sens), seen)
    {
      assert points[..i + 1][..i] == points[..i];
      var point := points[i];
      if (point, sens) in reg {
        var run := FirePoint(reg[(point, sens)], seen);
        CallsAppend(Fired(reg, points[..i], sens), Flatten(reg[(point, sens)]), seen);
        calls := calls + run;
      }
      i := i + 1;
    }
    assert points[..|points|] == points;
  }
}
