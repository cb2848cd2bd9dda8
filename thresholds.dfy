/**
 * The breakpoint table (`_values`), the crossing rules of `_run` and the
 * choice of the active point made by `_setPoint`.
 *
 * The table is a sequence in definition order, the order in which `$.each`
 * visits the properties of the `_values` object.
 */
module Thresholds {
  import opened Wrappers

  /** One named breakpoint: its name and the minimum width at which it applies. */
  datatype Breakpoint = Breakpoint(name: string, minWidth: int)

  type Table = seq<Breakpoint>

  /** The two direction strings `_run` dispatches on. */
  const SensUp := "up"
  const SensDown := "down"

  /** The table `_values` holds in both builds until `init` replaces it. */
  const DefaultTable: Table :=
    [Breakpoint("xs", 0), Breakpoint("sm", 600), Breakpoint("md", 960), Breakpoint("lg", 1240)]

  /** The names of the table, in definition order. */
  function Names(t: Table): (r: seq<string>)
    ensures |r| == |t|
    ensures forall i :: 0 <= i < |t| ==> r[i] == t[i].name
  {
    if t == [] then [] else Names(t[..|t| - 1]) + [t[|t| - 1].name]
  }

  function Reverse<T>(s: seq<T>): (r: seq<T>)
    ensures |r| == |s|
    ensures forall i :: 0 <= i < |s| ==> r[i] == s[|s| - 1 - i]
  {
    if s == [] then [] else Reverse(s[1..]) + [s[0]]
  }

  /** `a` can be obtained from `b` by deleting elements: same elements, same order. */
  predicate IsSubsequence<T(==)>(a: seq<T>, b: seq<T>)
    decreases |b|
  {
    if a == [] then true
    else if b == [] then false
    else if a[|a| - 1] == b[|b| - 1] then IsSubsequence(a[..|a| - 1], b[..|b| - 1])
    else IsSubsequence(a, b[..|b| - 1])
  }

  /** Strictly ascending widths, as a sensible table is written. */
  predicate Ascending(t: Table)
  {
    forall i, j :: 0 <= i < j < |t| ==> t[i].minWidth < t[j].minWidth
  }

  predicate Descending(t: Table)
  {
    forall i, j :: 0 <= i < j < |t| ==> t[i].minWidth > t[j].minWidth
  }

  /** The entries whose width lies in the half-open interval (lo, hi], in definition order. */
  function Between(t: Table, lo: int, hi: int): Table
  {
    if t == [] then []
    else
      var r := Between(t[..|t| - 1], lo, hi);
      if lo < t[|t| - 1].minWidth <= hi then r + [t[|t| - 1]] else r
  }

  /** Between keeps exactly the entries in (lo, hi], and keeps them in the table's order. */
  lemma BetweenFacts(t: Table, lo: int, hi: int)
    ensures forall b :: b in Between(t, lo, hi) <==> b in t && lo < b.minWidth <= hi
    ensures IsSubsequence(Between(t, lo, hi), t)
  {
    BetweenMembers(t, lo, hi);
    BetweenOrder(t, lo, hi);
  }

  /**
   * Between keeps every occurrence of an entry in (lo, hi] and none of the
   * others; with IsSubsequence this fixes Between even when entries repeat.
   */
  lemma {:induction false} BetweenCounts(t: Table, lo: int, hi: int, b: Breakpoint)
    ensures multiset(Between(t, lo, hi))[b] == if lo < b.minWidth <= hi then multiset(t)[b] else 0
  {
    if t != [] {
      var init, last := t[..|t| - 1], t[|t| - 1];
      BetweenCounts(init, lo, hi, b);
      assert t == init + [last];
    }
  }

  lemma {:induction false} BetweenMembers(t: Table, lo: int, hi: int)
    ensures forall b :: b in Between(t, lo, hi) <==> b in t && lo < b.minWidth <= hi
  {
    if t != [] {
      var init, last := t[..|t| - 1], t[|t| - 1];
      BetweenMembers(init, lo, hi);
      assert t == init + [last];
      forall b ensures b in t <==> b in init || b == last {
      }
    }
  }

  lemma {:induction false} BetweenOrder(t: Table, lo: int, hi: int)
    ensures IsSubsequence(Between(t, lo, hi), t)
  {
    if t != [] {
      var init, last := t[..|t| - 1], t[|t| - 1];
      var r := Between(init, lo, hi);
      BetweenOrder(init, lo, hi);
      if lo < last.minWidth <= hi {
        assert (r + [last])[..|r|] == r;
      } else {
        SubsequenceExtend(r, init, last);
      }
    }
  }

  /** Appending to the larger sequence keeps a subsequence a subsequence. */
  lemma {:induction false} SubsequenceExtend<T>(a: seq<T>, b: seq<T>, x: T)
    requires IsSubsequence(a, b)
    ensures IsSubsequence(a, b + [x])
    decreases |b|, 1
  {
    assert (b + [x])[..|b|] == b;
    if a != [] && a[|a| - 1] == x {
      SubsequenceDrop(a, b);
    }
  }

  /** Dropping the last element of a subsequence keeps it a subsequence. */
  lemma {:induction false} SubsequenceDrop<T>(a: seq<T>, b: seq<T>)
    requires a != []
    requires IsSubsequence(a, b)
    ensures IsSubsequence(a[..|a| - 1], b)
    decreases |b|, 0
  {
    var a' := a[..|a| - 1];
    if a' != [] {
      var b', y := b[..|b| - 1], b[|b| - 1];
      assert b' + [y] == b;
      if a[|a| - 1] != y {
        SubsequenceDrop(a, b');
      }
      SubsequenceExtend(a', b', y);
    }
  }

  lemma {:induction false} SubsequenceMembers<T>(a: seq<T>, b: seq<T>)
    requires IsSubsequence(a, b)
    ensures forall x :: x in a ==> x in b
    decreases |b|
  {
    if a != [] && b != [] {
      var a', b' := a[..|a| - 1], b[..|b| - 1];
      assert a == a' + [a[|a| - 1]] && b == b' + [b[|b| - 1]];
      if a[|a| - 1] == b[|b| - 1] {
        SubsequenceMembers(a', b');
      } else {
        SubsequenceMembers(a, b');
      }
    }
  }

  /** A subsequence of an ascending table is ascending. */
  lemma {:induction false} SubsequenceAscending(a: Table, b: Table)
    requires IsSubsequence(a, b) && Ascending(b)
    ensures Ascending(a)
    decreases |b|
  {
    if a != [] && b != [] {
      var a', b' := a[..|a| - 1], b[..|b| - 1];
      if a[|a| - 1] == b[|b| - 1] {
        SubsequenceAscending(a', b');
        SubsequenceMembers(a', b');
        forall i | 0 <= i < |a'| ensures a[i].minWidth < a[|a| - 1].minWidth {
          assert a'[i] in b';
        }
      } else {
        SubsequenceAscending(a, b');
      }
    }
  }

  /**
   * The direction of a resize: `"down"` exactly when the new width is
   * strictly below the last one; an equal width counts as `"up"`.
   */
  function Direction(last: int, w: int): (sens: string)
    ensures sens == SensDown <==> w < last
    ensures sens == SensUp <==> last <= w
  {
    if w < last then SensDown else SensUp
  }

  /**
   * The names a resize from `last` to `w` passes through, in the order
   * `_run` dispatches them: growing, the entries with last < value <= w in
   * definition order; shrinking, the entries with w < value <= last in
   * reverse definition order.
   */
  function Crossed(t: Table, last: int, w: int): seq<string>
  {
    if w < last then Reverse(Names(Between(t, w, last))) else Names(Between(t, last, w))
  }

  /** Growing: a name is crossed iff some entry with that name lies in (last, w]; definition order is kept. */
  lemma CrossedGrowing(t: Table, last: int, w: int)
    requires last <= w
    ensures forall n :: n in Crossed(t, last, w) <==> exists b :: b in t && b.name == n && last < b.minWidth <= w
    ensures Crossed(t, last, w) == Names(Between(t, last, w)) && IsSubsequence(Between(t, last, w), t)
  {
    var e := Between(t, last, w);
    BetweenFacts(t, last, w);
    forall n ensures n in Crossed(t, last, w) <==> exists b :: b in t && b.name == n && last < b.minWidth <= w {
      if n in Crossed(t, last, w) {
        var i :| 0 <= i < |e| && Names(e)[i] == n;
        assert e[i] in e;
      }
      if b :| b in t && b.name == n && last < b.minWidth <= w {
        assert b in e;
        var i :| 0 <= i < |e| && e[i] == b;
        assert Names(e)[i] == n;
      }
    }
  }

  /** Shrinking: a name is crossed iff some entry with that name lies in (w, last]; the order is reversed. */
  lemma CrossedShrinking(t: Table, last: int, w: int)
    requires w < last
    ensures forall n :: n in Crossed(t, last, w) <==> exists b :: b in t && b.name == n && w < b.minWidth <= last
    ensures Crossed(t, last, w) == Reverse(Names(Between(t, w, last))) && IsSubsequence(Between(t, w, last), t)
  {
    var e := Between(t, w, last);
    BetweenFacts(t, w, last);
    var r := Reverse(Names(e));
    forall n ensures n in r <==> exists b :: b in t && b.name == n && w < b.minWidth <= last {
      if n in r {
        var i :| 0 <= i < |r| && r[i] == n;
        assert e[|e| - 1 - i] in e;
      }
      if b :| b in t && b.name == n && w < b.minWidth <= last {
        assert b in e;
        var i :| 0 <= i < |e| && e[i] == b;
        assert r[|e| - 1 - i] == n;
      }
    }
  }

  /** A notification at the same width goes up and passes through nothing. */
  lemma CrossedSameWidth(t: Table, w: int)
    ensures Direction(w, w) == SensUp
    ensures Crossed(t, w, w) == []
  {
    BetweenFacts(t, w, w);
  }

  /**
   * On an ascending table the crossed entries come out nearest-first:
   * ascending when growing, descending when shrinking.
   */
  lemma CrossedOrder(t: Table, last: int, w: int)
    requires Ascending(t)
    ensures last <= w ==> Ascending(Between(t, last, w))
    ensures w < last ==> Descending(Reverse(Between(t, w, last)))
  {
    if last <= w {
      BetweenFacts(t, last, w);
      SubsequenceAscending(Between(t, last, w), t);
    } else {
      BetweenFacts(t, w, last);
      SubsequenceAscending(Between(t, w, last), t);
    }
  }

  /** The index of the last entry whose width is at most `w`, or -1 if there is none. */
  function LastIndexAtMost(t: Table, w: int): (k: int)
    ensures -1 <= k < |t|
    ensures k >= 0 ==> t[k].minWidth <= w
    ensures forall j :: k < j < |t| ==> w < t[j].minWidth
  {
    if t == [] then -1
    else if t[|t| - 1].minWidth <= w then |t| - 1
    else LastIndexAtMost(t[..|t| - 1], w)
  }

  /**
   * The active point for width `w` (`_setPoint`): the name of the last entry,
   * in definition order, whose width is at most `w`; the first name when no
   * entry qualifies; `None` (JavaScript `null`) for an empty table.
   */
  function PointFor(t: Table, w: int): (p: Option<string>)
    ensures p.None? <==> t == []
    ensures p.Some? ==> p.value in Names(t)
  {
    if t == [] then None
    else
      var k := LastIndexAtMost(t, w);
      assert Names(t)[if k >= 0 then k else 0] == t[if k >= 0 then k else 0].name;
      if k >= 0 then Some(t[k].name) else Some(t[0].name)
  }

  /** The active point is the entry of index `k` when `k` is the last one not above `w`. */
  lemma PointForLast(t: Table, w: int, k: int)
    requires 0 <= k < |t| && t[k].minWidth <= w
    requires forall j :: k < j < |t| ==> w < t[j].minWidth
    ensures PointFor(t, w) == Some(t[k].name)
  {
  }

  /** When every entry lies above `w`, the first name is the fallback. */
  lemma PointForFallback(t: Table, w: int)
    requires t != []
    requires forall j :: 0 <= j < |t| ==> w < t[j].minWidth
    ensures PointFor(t, w) == Some(t[0].name)
  {
  }

  /**
   * On an ascending table the active point is the largest threshold not above
   * the width: the entry `k` with t[k] <= w < t[k + 1].
   */
  lemma PointForAscending(t: Table, w: int, k: int)
    requires Ascending(t)
    requires 0 <= k < |t| && t[k].minWidth <= w
    requires k + 1 < |t| ==> w < t[k + 1].minWidth
    ensures PointFor(t, w) == Some(t[k].name)
  {
    forall j | k < j < |t| ensures w < t[j].minWidth {
      assert t[k + 1].minWidth <= t[j].minWidth;
    }
    PointForLast(t, w, k);
  }

  /** Growing on an ascending table, the new active point is the last point crossed. */
  lemma GrowingLandsOnLastCrossed(t: Table, last: int, w: int)
    requires Ascending(t) && last <= w
    requires Crossed(t, last, w) != []
    ensures PointFor(t, w) == Some(Crossed(t, last, w)[|Crossed(t, last, w)| - 1])
  {
    var e := Between(t, last, w);
    BetweenFacts(t, last, w);
    var top := e[|e| - 1];
    assert top in e;
    var k :| 0 <= k < |t| && t[k] == top;
    SubsequenceAscending(e, t);
    forall j | k < j < |t| ensures w < t[j].minWidth {
    }
    PointForLast(t, w, k);
  }

  /**
   * Shrinking on an ascending table, the new active point is the entry just
   * below the lowest point crossed, or the first name when that is the first entry.
   */
  lemma ShrinkingLandsBelowLastCrossed(t: Table, last: int, w: int, k: int)
    requires Ascending(t) && w < last
    requires Between(t, w, last) != [] && 0 <= k < |t| && t[k] == Between(t, w, last)[0]
    ensures Crossed(t, last, w)[|Crossed(t, last, w)| - 1] == t[k].name
    ensures PointFor(t, w) == Some(if k > 0 then t[k - 1].name else t[0].name)
  {
    ShrinkingLastCrossed(t, last, w);
    BelowLowestCrossed(t, last, w, k);
    PointBelowLowest(t, w, k);
  }

  /** With `k` the first entry above `w`, the active point is the one before it, or the first as fallback. */
  lemma PointBelowLowest(t: Table, w: int, k: int)
    requires 0 <= k < |t|
    requires forall j :: 0 <= j < k ==> t[j].minWidth <= w
    requires forall j :: k <= j < |t| ==> w < t[j].minWidth
    ensures PointFor(t, w) == Some(if k > 0 then t[k - 1].name else t[0].name)
  {
    if k > 0 {
      PointForLast(t, w, k - 1);
    } else {
      PointForFallback(t, w);
    }
  }

  /** Shrinking: the last name crossed is that of the lowest threshold passed. */
  lemma ShrinkingLastCrossed(t: Table, last: int, w: int)
    requires w < last && Between(t, w, last) != []
    ensures Crossed(t, last, w)[|Crossed(t, last, w)| - 1] == Between(t, w, last)[0].name
  {
    var n := Names(Between(t, w, last));
    assert Crossed(t, last, w) == Reverse(n);
  }

  /** The entries before the lowest crossed one are not above `w`; it and those after it are. */
  lemma BelowLowestCrossed(t: Table, last: int, w: int, k: int)
    requires Ascending(t) && w < last
    requires Between(t, w, last) != [] && 0 <= k < |t| && t[k] == Between(t, w, last)[0]
    ensures forall j :: 0 <= j < k ==> t[j].minWidth <= w
    ensures forall j :: k <= j < |t| ==> w < t[j].minWidth
  {
    var e := Between(t, w, last);
    BetweenFacts(t, w, last);
    assert e[0] in e;
    SubsequenceAscending(e, t);
    forall j | 0 <= j < k ensures t[j].minWidth <= w {
      assert t[j] in t;
      BelowLowest(e, t[j]);
    }
  }

  /** An entry below the lowest of an ascending table is not in it. */
  lemma BelowLowest(e: Table, x: Breakpoint)
    requires Ascending(e) && e != [] && x.minWidth < e[0].minWidth
    ensures x !in e
  {
    forall m | 0 <= m < |e| ensures e[m] != x {
      LowestOfAscending(e, m);
    }
  }

  lemma LowestOfAscending(e: Table, m: int)
    requires Ascending(e) && 0 <= m < |e|
    ensures e[0].minWidth <= e[m].minWidth
  {
  }

  /** Between on a table grown by one entry. */
  lemma BetweenSnoc(init: Table, last: Breakpoint, lo: int, hi: int)
    ensures Between(init + [last], lo, hi) ==
              if lo < last.minWidth <= hi then Between(init, lo, hi) + [last] else Between(init, lo, hi)
  {
    assert (init + [last])[..|init|] == init;
  }

  lemma NamesSnoc(t: Table, b: Breakpoint)
    ensures Names(t + [b]) == Names(t) + [b.name]
  {
    assert (t + [b])[..|t|] == t;
  }

  /** One step of a scan for the points passed through: entry `i` is pushed iff it lies in (lo, hi]. */
  lemma ScanStep(t: Table, i: int, lo: int, hi: int)
    requires 0 <= i < |t|
    ensures Names(Between(t[..i + 1], lo, hi)) ==
              Names(Between(t[..i], lo, hi)) + (if lo < t[i].minWidth <= hi then [t[i].name] else [])
  {
    assert t[..i + 1] == t[..i] + [t[i]];
    BetweenSnoc(t[..i], t[i], lo, hi);
    if lo < t[i].minWidth <= hi {
      NamesSnoc(Between(t[..i], lo, hi), t[i]);
    } else {
      assert Names(Between(t[..i], lo, hi)) + [] == Names(Between(t[..i], lo, hi));
    }
  }

  /**
   * One `$.each` scan of `_run`: push, in definition order, the name of every
   * entry whose width lies in (lo, hi].
   */
  method Collect(t: Table, lo: int, hi: int) returns (points: seq<string>)
    ensures points == Names(Between(t, lo, hi))
  {
    points := [];
    var i := 0;
    while i < |t|
      invariant 0 <= i <= |t|
      invariant points == Names(Between(t[..i], lo, hi))
    {
      ScanStep(t, i, lo, hi);
      if lo < t[i].minWidth && t[i].minWidth <= hi {
        points := points + [t[i].name];
      }
      i := i + 1;
    }
    assert t[..|t|] == t;
  }

  /**
   * The scans of `_run`: the direction, then the names passed through, in
   * definition order growing (`last < value <= w`) and reversed shrinking
   * (`w < value <= last`).
   */
  method ScanPassed(t: Table, last: int, w: int) returns (sens: string, points: seq<string>)
    ensures sens == Direction(last, w)
    ensures points == Crossed(t, last, w)
  {
    sens := if w < last then SensDown else SensUp;
    if sens == SensUp {
      points := Collect(t, last, w);
    } else {
      points := Collect(t, w, last);
      points := Reverse(points);
    }
  }

  /** The scan of `_setPoint`: keep the last qualifying name, remember the first. */
  method ScanPoint(t: Table, w: int) returns (point: Option<string>)
    ensures point == PointFor(t, w)
  {
    point := None;
    var first: Option<string> := None;
    var i := 0;
    while i < |t|
      invariant 0 <= i <= |t|
      invariant first == if i == 0 then None else Some(t[0].name)
      invariant point == var k := LastIndexAtMost(t[..i], w); if k >= 0 then Some(t[k].name) else None
    {
      assert t[..i + 1][..i] == t[..i];
      if first.None? {
        first := Some(t[i].name);
      }
      if w >= t[i].minWidth {
        point := Some(t[i].name);
      }
      i := i + 1;
    }
    assert t[..|t|] == t;
    if point.None? {
      point := first;
    }
  }
}
