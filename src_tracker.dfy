/**
 * `djs.breakpoints` as written in src/djs-breakpoints.js.
 *
 * The same tracker as the built file, with two differences: `init` always
 * stores its argument, so a call without a table leaves no breakpoints at all,
 * and there are no `up`, `down`, `max` or `min` shortcuts. The window width,
 * which this file measures itself (adding the scroll bar width when the body
 * scrolls), is a parameter of `Init` and `Run`.
 */
module SrcBreakpoints {
  import opened Wrappers
  import opened Thresholds
  import opened Registry
  import opened Queries

  class Tracker {
    /** `_values`: the breakpoint table, in definition order; empty once `init` got none. */
    var values: Table
    /** `_actualWidth`: the last width seen. */
    var actualWidth: int
    /** `_actualPoint`: the active breakpoint, `None` for JavaScript `null`. */
    var actualPoint: Option<string>
    /** `_callbacks`: the callback registry. */
    var callbacks: Callbacks

    ghost predicate Valid()
      reads this
    {
      && (actualPoint.Some? ==> actualPoint.value in Names(values))
      && WellFormed(callbacks)
    }

    /** The active point agrees with the last width, as after `init` and after every resize. */
    predicate Settled()
      reads this
    {
      actualPoint == PointFor(values, actualWidth)
    }

    /** The object literal's initial state. */
    constructor ()
      ensures Valid()
      ensures values == DefaultTable && actualWidth == 0 && actualPoint == None && callbacks == map[]
    {
      values := DefaultTable;
      actualWidth := 0;
      actualPoint := None;
      callbacks := map[];
    }

    /**
     * `init(points)`: the argument always replaces `_values`; a missing one
     * leaves no breakpoints (jQuery 3's `$.each` visits nothing over
     * `undefined`), so no point is active. Then the width is read and the
     * point recomputed.
     */
    method Init(points: Option<Table>, width: int)
      requires Valid()
      modifies this
      ensures Valid() && Settled()
      ensures values == (if points.Some? then points.value else [])
      ensures points.None? || points.value == [] ==> actualPoint == None
      ensures points.Some? && points.value != [] ==> actualPoint.Some?
      ensures actualWidth == width
      ensures callbacks == old(callbacks)
    {
      values := if points.Some? then points.value else [];
      actualWidth := width;
      SetPoint();
    }

    /** `destroy`: unbinding from the resize notifier changes none of this state. */
    method Destroy()
      requires Valid()
      ensures Valid()
    {
    }

    /**
     * `_run` on a resize to width `w`: the points passed through are computed
     * from the old width, the width and the active point are updated before
     * any callback runs, and the callbacks of every crossed point fire for the
     * direction of the resize. Each call is paired with the point it sees
     * through `current()`.
     */
    method Run(w: int) returns (calls: seq<(CallbackId, Option<string>)>)
      requires Valid()
      modifies this
      ensures Valid() && Settled()
      ensures values == old(values) && callbacks == old(callbacks) && actualWidth == w
      ensures calls == Calls(Fired(callbacks, Crossed(values, old(actualWidth), w), Direction(old(actualWidth), w)),
                             PointFor(values, w))
    {
      var sens, points := ScanPassed(values, actualWidth, w);
      actualWidth := w;
      SetPoint();
      calls := Dispatch(callbacks, points, sens, actualPoint);
    }

    /** `_setPoint`: store the active point for the current width. */
    method SetPoint()
      modifies this`actualPoint
      ensures Settled()
      ensures actualPoint.Some? ==> actualPoint.value in Names(values)
    {
      actualPoint := ScanPoint(values, actualWidth);
    }

    /** `add(value, sens, callback, tag)`, creating the path on first use. */
    method Add(value: string, sens: string, callback: CallbackId, tag: Option<string>)
      requires Valid()
      modifies this`callbacks
      ensures Valid()
      ensures callbacks == Added(old(callbacks), value, sens, TagOrDefault(tag), callback)
    {
      var t := TagOrDefault(tag);
      var key := (value, sens);
      var tags := if key in callbacks then callbacks[key] else [];
      ghost var before := tags;
      var i := FindTag(tags, t);
      if i < 0 {
        tags := tags + [TagBucket(t, [])];
        i := |tags| - 1;
        assert [] + [callback] == [callback];
      }
      tags := tags[i := TagBucket(t, tags[i].callbacks + [callback])];
      assert tags == AppendTo(before, t, callback);
      AddedWellFormed(callbacks, value, sens, t, callback);
      callbacks := callbacks[key := tags];
    }

    /**
     * `remove(value, sens, tag)`: delete that tag's bucket. `chained` is true
     * when the tracker is returned and false when the path is missing and
     * `undefined` is returned.
     */
    method Remove(value: string, sens: string, tag: Option<string>) returns (chained: bool)
      requires Valid()
      modifies this`callbacks
      ensures Valid()
      ensures chained == HasBucket(old(callbacks), value, sens, TagOrDefault(tag))
      ensures callbacks == Removed(old(callbacks), value, sens, TagOrDefault(tag))
    {
      var t := TagOrDefault(tag);
      if (value, sens) !in callbacks {
        return false;
      }
      var tags := callbacks[(value, sens)];
      var i := FindTag(tags, t);
      if i < 0 {
        return false;
      }
      RemovedWellFormed(callbacks, value, sens, t);
      callbacks := callbacks[(value, sens) := tags[..i] + tags[i + 1..]];
      chained := true;
    }

    /** `is(value)`: some comma-separated, trimmed piece of `value` is the active point. */
    function Is(value: string): (r: bool)
      reads this
      ensures r <==> actualPoint.Some? &&
                     exists i :: 0 <= i < |Split(value, ',')| && Trim(Split(value, ',')[i]) == actualPoint.value
    {
      if actualPoint.None? then false
      else
        ListedPieces(value, actualPoint.value);
        Listed(Split(value, ','), actualPoint.value)
    }

    /** `to(value)`: the names through the first `value`, all of them if it is absent, joined by ", ". */
    function To(value: string): (r: string)
      reads this
      ensures forall k :: (0 <= k < |values| && values[k].name == value &&
                          forall j :: 0 <= j < k ==> values[j].name != value) ==>
                r == Join(Names(values)[..k + 1], Separator)
      ensures value !in Names(values) ==> r == Join(Names(values), Separator)
    {
      SlicesEverywhere(Names(values));
      Join(NamesTo(Names(values), value), Separator)
    }

    /** `from(value)`: the names from the first `value` on, none if it is absent, joined by ", ". */
    function From(value: string): (r: string)
      reads this
      ensures forall k :: (0 <= k < |values| && values[k].name == value &&
                          forall j :: 0 <= j < k ==> values[j].name != value) ==>
                r == Join(Names(values)[k..], Separator)
      ensures value !in Names(values) ==> r == ""
    {
      SlicesEverywhere(Names(values));
      Join(NamesFrom(Names(values), value), Separator)
    }

    /** `current()`: the active point. */
    function Current(): (r: Option<string>)
      reads this
      ensures Valid() ==> (r.Some? ==> r.value in Names(values))
      ensures Settled() ==> r == PointFor(values, actualWidth)
    {
      actualPoint
    }
  }
}
