/**
 * `djs.breakpoints` as built in dist/djs-breakpoints.js.
 *
 * The window width, which this build reads from `djs.tools.ui.getWindowWidth`,
 * is a parameter of `Init` and `Run`. Callbacks are opaque ids, and `Run`
 * returns the ids it would call, in order.
 */
module DistBreakpoints {
  import opened Wrappers
  import opened Thresholds
  import opened Registry
  import opened Queries

  predicate PlainNames(t: Table)
  {
    forall i :: 0 <= i < |t| ==> PlainName(t[i].name)
  }

  /** A name of a plain table is not empty. */
  lemma MemberNotEmpty(t: Table, p: string)
    requires PlainNames(t) && p in Names(t)
    ensures p != ""
  {
    var j :| 0 <= j < |Names(t)| && Names(t)[j] == p;
    assert PlainName(t[j].name);
  }

  /** A run of consecutive names of a plain table is plain. */
  lemma SlicePlain(t: Table, lo: int, hi: int)
    requires PlainNames(t) && 0 <= lo <= hi <= |t|
    ensures forall i :: 0 <= i < hi - lo ==> PlainName(Names(t)[lo..hi][i])
  {
    forall i | 0 <= i < hi - lo ensures PlainName(Names(t)[lo..hi][i]) {
      assert Names(t)[lo..hi][i] == t[lo + i].name;
    }
  }

  /** A point is listed in a joined run `lo..hi` of a plain table's names iff it is one of them. */
  lemma PlainListed(t: Table, lo: int, hi: int, names: seq<string>, p: string)
    requires PlainNames(t) && 0 <= lo <= hi <= |t| && names == Names(t)[lo..hi] && p in Names(t)
    ensures Listed(Split(Join(names, Separator), ','), p) <==> p in names
  {
    SlicePlain(t, lo, hi);
    MemberNotEmpty(t, p);
    ListedJoin(names, p);
  }

  /**
   * `max(v)`, that is `is(to(v))`: when the names are plain and the active
   * point `p` is one of them, true iff `p` comes no later than the first `v`.
   */
  lemma MaxMeaning(t: Table, p: string, v: string)
    requires PlainNames(t) && p in Names(t)
    ensures Listed(Split(Join(NamesTo(Names(t), v), Separator), ','), p) <==> p in NamesTo(Names(t), v)
  {
    var k := FirstIndex(Names(t), v);
    PlainListed(t, 0, if k < |t| then k + 1 else |t|, NamesTo(Names(t), v), p);
  }

  /**
   * `min(v)`, that is `is(from(v))`: under the same conditions, true iff `p`
   * comes no earlier than the first `v`; false whenever `v` is not a name.
   */
  lemma MinMeaning(t: Table, p: string, v: string)
    requires PlainNames(t) && p in Names(t)
    ensures Listed(Split(Join(NamesFrom(Names(t), v), Separator), ','), p) <==> p in NamesFrom(Names(t), v)
  {
    PlainListed(t, FirstIndex(Names(t), v), |Names(t)|, NamesFrom(Names(t), v), p);
  }

  /** `max(v)` for a tracker whose table is `t` and whose active point is `point`. */
  lemma MaxOfState(t: Table, point: Option<string>, v: string)
    ensures point.Some? && point.value in Names(t) && PlainNames(t) ==>
              (Listed(Split(Join(NamesTo(Names(t), v), Separator), ','), point.value) <==>
               point.value in NamesTo(Names(t), v))
  {
    if point.Some? && point.value in Names(t) && PlainNames(t) {
      MaxMeaning(t, point.value, v);
    }
  }

  /** `min(v)` for a tracker whose table is `t` and whose active point is `point`. */
  lemma MinOfState(t: Table, point: Option<string>, v: string)
    ensures point.Some? && point.value in Names(t) && PlainNames(t) ==>
              (Listed(Split(Join(NamesFrom(Names(t), v), Separator), ','), point.value) <==>
               point.value in NamesFrom(Names(t), v))
  {
    if point.Some? && point.value in Names(t) && PlainNames(t) {
      MinMeaning(t, point.value, v);
    }
  }

  /** Worked example on the shipped table: a resize from 500 to 700 crosses "sm" upwards. */
  lemma GrowingExample()
    ensures PointFor(DefaultTable, 500) == Some("xs")
    ensures Crossed(DefaultTable, 500, 700) == ["sm"] && PointFor(DefaultTable, 700) == Some("sm")
  {
    var t := DefaultTable;
    var xs, sm, md, lg := t[0], t[1], t[2], t[3];
    assert t[..3] == [xs, sm, md] && t[..2] == [xs, sm] && t[..1] == [xs];
    assert [xs, sm, md][..2] == [xs, sm] && [xs, sm][..1] == [xs];
    assert Between([xs], 500, 700) == [];
    assert Between([xs, sm], 500, 700) == [sm];
    assert Between([xs, sm, md], 500, 700) == [sm];
    assert Between(t, 500, 700) == [sm];
    PointForAscending(t, 500, 0);
    PointForAscending(t, 700, 1);
  }

  /** The shipped table's names, in definition order. */
  lemma DefaultNames()
    ensures Names(DefaultTable) == ["xs", "sm", "md", "lg"]
  {
    var t := DefaultTable;
    assert t[..3] == [t[0], t[1], t[2]] && t[..2] == [t[0], t[1]] && t[..1] == [t[0]];
  }

  lemma ShrinkingBetween()
    ensures Between(DefaultTable, 500, 1300) == DefaultTable[1..]
  {
    var t := DefaultTable;
    var xs, sm, md, lg := t[0], t[1], t[2], t[3];
    BetweenSnoc([], xs, 500, 1300);
    assert [] + [xs] == [xs];
    assert Between([xs], 500, 1300) == [];
    BetweenSnoc([xs], sm, 500, 1300);
    assert [xs] + [sm] == [xs, sm];
    assert Between([xs, sm], 500, 1300) == [sm];
    BetweenSnoc([xs, sm], md, 500, 1300);
    assert [xs, sm] + [md] == [xs, sm, md];
    assert Between([xs, sm, md], 500, 1300) == [sm, md];
    BetweenSnoc([xs, sm, md], lg, 500, 1300);
    assert [xs, sm, md] + [lg] == t;
  }

  /** Worked example on the shipped table: a resize from 1300 to 500 crosses "lg", "md", "sm" downwards. */
  lemma ShrinkingExample()
    ensures Crossed(DefaultTable, 1300, 500) == ["lg", "md", "sm"]
  {
    ShrinkingBetween();
    var n := Names(DefaultTable[1..]);
    assert n[0] == "sm" && n[1] == "md" && n[2] == "lg";
    var r := Reverse(n);
    assert r[0] == "lg" && r[1] == "md" && r[2] == "sm";
    assert r == ["lg", "md", "sm"];
  }

  /** Worked example on the shipped table: `to('md')` and `from('sm')`. */
  lemma QueryExample()
    ensures NamesTo(Names(DefaultTable), "md") == ["xs", "sm", "md"]
    ensures NamesFrom(Names(DefaultTable), "sm") == ["sm", "md", "lg"]
  {
    DefaultNames();
    var names := Names(DefaultTable);
    SlicesAt(names, 2);
    SlicesAt(names, 1);
  }

  /** The names of the shipped table are plain. */
  lemma DefaultPlain()
    ensures PlainNames(DefaultTable)
  {
    var t := DefaultTable;
    PlainWord(t[0].name);
    PlainWord(t[1].name);
    PlainWord(t[2].name);
    PlainWord(t[3].name);
  }

  /** A non-empty word of lower-case letters is plain. */
  lemma PlainWord(n: string)
    requires n != [] && forall i :: 0 <= i < |n| ==> 'a' <= n[i] <= 'z'
    ensures PlainName(n)
  {
    assert LeadingSpace(n) == 0;
    assert n[0..] == n;
    assert TrailingSpace(n) == 0;
  }

  /** `to('sm')` and `from('md')` on the shipped table. */
  lemma DefaultSlices()
    ensures NamesTo(Names(DefaultTable), "sm") == ["xs", "sm"]
    ensures NamesFrom(Names(DefaultTable), "md") == ["md", "lg"]
  {
    DefaultNames();
    var names := Names(DefaultTable);
    SlicesAt(names, 1);
    SlicesAt(names, 2);
  }

  /**
   * The state test run after `init` on the shipped table, at a width of 500:
   * `is(to('sm'))` holds and `is(from('md'))` does not.
   */
  lemma StateTestExample(tr: Tracker)
    requires tr.values == DefaultTable && tr.actualPoint == PointFor(DefaultTable, 500)
    ensures tr.Is(tr.To("sm"))
    ensures !tr.Is(tr.From("md"))
  {
    GrowingExample();
    DefaultNames();
    DefaultPlain();
    DefaultSlices();
    assert "xs" in Names(DefaultTable);
    MaxMeaning(DefaultTable, "xs", "sm");
    MinMeaning(DefaultTable, "xs", "md");
  }

  class Tracker {
    /** `_values`: the breakpoint table, in definition order. */
    var values: Table
    /** `_actualWidth`: the last width seen. */
    var actualWidth: int
    /** `_actualPoint`: the active breakpoint, `None` for JavaScript `null`. */
    var actualPoint: Option<string>
    /** `_callbacks`: the callback registry. */
    var callbacks: Callbacks

    ghost predicate Valid()
      reads this
    {
      && (actualPoint.Some? ==> actualPoint.value in Names(values))
      && WellFormed(callbacks)
    }

    /** The active point agrees with the last width, as after `init` and after every resize. */
    predicate Settled()
      reads this
    {
      actualPoint == PointFor(values, actualWidth)
    }

    /** The object literal's initial state. */
    constructor ()
      ensures Valid()
      ensures values == DefaultTable && actualWidth == 0 && actualPoint == None && callbacks == map[]
    {
      values := DefaultTable;
      actualWidth := 0;
      actualPoint := None;
      callbacks := map[];
    }

    /**
     * `init(points)`: a given table replaces `_values`, a missing one keeps it;
     * then the width is read and the active point recomputed.
     */
    method Init(points: Option<Table>, width: int)
      requires Valid()
      modifies this
      ensures Valid() && Settled()
      ensures values == (if points.Some? then points.value else old(values))
      ensures actualWidth == width
      ensures callbacks == old(callbacks)
    {
      if points.Some? {
        values := points.value;
      }
      actualWidth := width;
      SetPoint();
    }

    /** `destroy`: unbinding from the resize notifier changes none of this state. */
    method Destroy()
      requires Valid()
      ensures Valid()
    {
    }

    /**
     * `_run` on a resize to width `w`: the points passed through are computed
     * from the old width, the width and the active point are updated before
     * any callback runs, and the callbacks of every crossed point fire for the
     * direction of the resize. Each call is paired with the point it sees
     * through `current()`.
     */
    method Run(w: int) returns (calls: seq<(CallbackId, Option<string>)>)
      requires Valid()
      modifies this
      ensures Valid() && Settled()
      ensures values == old(values) && callbacks == old(callbacks) && actualWidth == w
      ensures calls == Calls(Fired(callbacks, Crossed(values, old(actualWidth), w), Direction(old(actualWidth), w)),
                             PointFor(values, w))
    {
      var sens, points := ScanPassed(values, actualWidth, w);
      actualWidth := w;
      SetPoint();
      calls := Dispatch(callbacks, points, sens, actualPoint);
    }

    /** `_setPoint`: store the active point for the current width. */
    method SetPoint()
      modifies this`actualPoint
      ensures Settled()
      ensures actualPoint.Some? ==> actualPoint.value in Names(values)
    {
      actualPoint := ScanPoint(values, actualWidth);
    }

    /** `add(value, sens, callback, tag)`, creating the path on first use. */
    method Add(value: string, sens: string, callback: CallbackId, tag: Option<string>)
      requires Valid()
      modifies this`callbacks
      ensures Valid()
      ensures callbacks == Added(old(callbacks), value, sens, TagOrDefault(tag), callback)
    {
      var t := TagOrDefault(tag);
      var key := (value, sens);
      var tags := if key in callbacks then callbacks[key] else [];
      ghost var before := tags;
      var i := FindTag(tags, t);
      if i < 0 {
        tags := tags + [TagBucket(t, [])];
        i := |tags| - 1;
        assert [] + [callback] == [callback];
      }
      tags := tags[i := TagBucket(t, tags[i].callbacks + [callback])];
      assert tags == AppendTo(before, t, callback);
      AddedWellFormed(callbacks, value, sens, t, callback);
      callbacks := callbacks[key := tags];
    }

    /** `up(value, callback, tag)`: `add` for the growing direction. */
    method Up(value: string, callback: CallbackId, tag: Option<string>)
      requires Valid()
      modifies this`callbacks
      ensures Valid()
      ensures callbacks == Added(old(callbacks), value, SensUp, TagOrDefault(tag), callback)
    {
      Add(value, SensUp, callback, tag);
    }

    /** `down(value, callback, tag)`: `add` for the shrinking direction. */
    method Down(value: string, callback: CallbackId, tag: Option<string>)
      requires Valid()
      modifies this`callbacks
      ensures Valid()
      ensures callbacks == Added(old(callbacks), value, SensDown, TagOrDefault(tag), callback)
    {
      Add(value, SensDown, callback, tag);
    }

    /**
     * `remove(value, sens, tag)`: delete that tag's bucket. `chained` is true
     * when the tracker is returned and false when the path is missing and
     * `undefined` is returned.
     */
    method Remove(value: string, sens: string, tag: Option<string>) returns (chained: bool)
      requires Valid()
      modifies this`callbacks
      ensures Valid()
      ensures chained == HasBucket(old(callbacks), value, sens, TagOrDefault(tag))
      ensures callbacks == Removed(old(callbacks), value, sens, TagOrDefault(tag))
    {
      var t := TagOrDefault(tag);
      if (value, sens) !in callbacks {
        return false;
      }
      var tags := callbacks[(value, sens)];
      var i := FindTag(tags, t);
      if i < 0 {
        return false;
      }
      RemovedWellFormed(callbacks, value, sens, t);
      callbacks := callbacks[(value, sens) := tags[..i] + tags[i + 1..]];
      chained := true;
    }

    /** `is(value)`: some comma-separated, trimmed piece of `value` is the active point. */
    function Is(value: string): (r: bool)
      reads this
      ensures r <==> actualPoint.Some? &&
                     exists i :: 0 <= i < |Split(value, ',')| && Trim(Split(value, ',')[i]) == actualPoint.value
    {
      if actualPoint.None? then false
      else
        ListedPieces(value, actualPoint.value);
        Listed(Split(value, ','), actualPoint.value)
    }

    /** `max(value)`: `is(to(value))`. */
    function Max(value: string): (r: bool)
      reads this
      ensures Valid() && PlainNames(values) ==>
                (r <==> actualPoint.Some? && actualPoint.value in NamesTo(Names(values), value))
    {
      MaxOfState(values, actualPoint, value);
      Is(To(value))
    }

    /** `min(value)`: `is(from(value))`. */
    function Min(value: string): (r: bool)
      reads this
      ensures Valid() && PlainNames(values) ==>
                (r <==> actualPoint.Some? && actualPoint.value in NamesFrom(Names(values), value))
    {
      MinOfState(values, actualPoint, value);
      Is(From(value))
    }

    /** `to(value)`: the names through the first `value`, all of them if it is absent, joined by ", ". */
    function To(value: string): (r: string)
      reads this
      ensures forall k :: (0 <= k < |values| && values[k].name == value &&
                          forall j :: 0 <= j < k ==> values[j].name != value) ==>
                r == Join(Names(values)[..k + 1], Separator)
      ensures value !in Names(values) ==> r == Join(Names(values), Separator)
    {
      SlicesEverywhere(Names(values));
      Join(NamesTo(Names(values), value), Separator)
    }

    /** `from(value)`: the names from the first `value` on, none if it is absent, joined by ", ". */
    function From(value: string): (r: string)
      reads this
      ensures forall k :: (0 <= k < |values| && values[k].name == value &&
                          forall j :: 0 <= j < k ==> values[j].name != value) ==>
                r == Join(Names(values)[k..], Separator)
      ensures value !in Names(values) ==> r == ""
    {
      SlicesEverywhere(Names(values));
      Join(NamesFrom(Names(values), value), Separator)
    }

    /** `current()`: the active point. */
    function Current(): (r: Option<string>)
      reads this
      ensures Valid() ==> (r.Some? ==> r.value in Names(values))
      ensures Settled() ==> r == PointFor(values, actualWidth)
    {
      actualPoint
    }
  }
}
