/**
 * The read-only queries `is`, `to` and `from`, and the string operations
 * they rest on: `String.prototype.split` on one character,
 * `String.prototype.trim` and `Array.prototype.join`.
 */
module Queries {

  /** The separator `to` and `from` join names with. */
  const Separator := ", "

  /** ECMAScript WhiteSpace and LineTerminator: what `trim` removes. */
  predicate IsSpace(c: char)
  {
    || c == '\t' || c == '\n' || c == '\U{B}' || c == '\U{C}' || c == '\r' || c == ' '
    || c == '\U{A0}' || c == '\U{1680}' || ('\U{2000}' <= c <= '\U{200A}')
    || c == '\U{2028}' || c == '\U{2029}' || c == '\U{202F}' || c == '\U{205F}'
    || c == '\U{3000}' || c == '\U{FEFF}'
  }

  function LeadingSpace(s: string): (n: nat)
    ensures n <= |s|
    ensures forall k :: 0 <= k < n ==> IsSpace(s[k])
    ensures n < |s| ==> !IsSpace(s[n])
  {
    if s != [] && IsSpace(s[0]) then 1 + LeadingSpace(s[1..]) else 0
  }

  function TrailingSpace(s: string): (n: nat)
    ensures n <= |s|
    ensures forall k :: |s| - n <= k < |s| ==> IsSpace(s[k])
    ensures n < |s| ==> !IsSpace(s[|s| - 1 - n])
  {
    if s != [] && IsSpace(s[|s| - 1]) then 1 + TrailingSpace(s[..|s| - 1]) else 0
  }

  /** `trim`: drop the leading and the trailing white space. */
  function Trim(s: string): (r: string)
    ensures |r| <= |s|
    ensures r != [] ==> !IsSpace(r[0]) && !IsSpace(r[|r| - 1])
  {
    var t := s[LeadingSpace(s)..];
    t[..|t| - TrailingSpace(t)]
  }

  /**
   * `trim` removes only outer white space: its result is a run of `s` with
   * nothing but white space before and after it. With Trim's own contract
   * (the run neither starts nor ends with white space) this fixes the result.
   */
  lemma TrimKeepsInnerRun(s: string)
    ensures exists i, j :: 0 <= i <= j <= |s| && Trim(s) == s[i..j] &&
              (forall k :: 0 <= k < i ==> IsSpace(s[k])) && (forall k :: j <= k < |s| ==> IsSpace(s[k]))
  {
    var a := LeadingSpace(s);
    var t := s[a..];
    var b := |t| - TrailingSpace(t);
    TrimRun(s, a, t, b);
    assert Trim(s) == s[a..a + b];
  }

  /** The run `trim` keeps, seen as a slice of `s`. */
  lemma TrimRun(s: string, a: nat, t: string, b: nat)
    requires a <= |s| && t == s[a..] && b <= |t|
    requires forall k :: b <= k < |t| ==> IsSpace(t[k])
    ensures a + b <= |s| && t[..b] == s[a..a + b]
    ensures forall k :: a + b <= k < |s| ==> IsSpace(s[k])
  {
    assert forall k :: a + b <= k < |s| ==> s[k] == t[k - a];
  }

  /** `split` on a one-character separator: every piece, empty ones included. */
  function Split(s: string, sep: char): (parts: seq<string>)
    ensures |parts| >= 1
    ensures forall i :: 0 <= i < |parts| ==> sep !in parts[i]
  {
    if s == [] then [[]]
    else
      var rest := Split(s[1..], sep);
      if s[0] == sep then [[]] + rest else [[s[0]] + rest[0]] + rest[1..]
  }

  /** `join`: the parts with `sep` between consecutive ones. */
  function Join(parts: seq<string>, sep: string): string
  {
    if parts == [] then []
    else if |parts| == 1 then parts[0]
    else parts[0] + sep + Join(parts[1..], sep)
  }

  /** Splitting and joining again with the same separator gives the string back. */
  lemma {:induction false} JoinSplit(s: string, sep: char)
    ensures Join(Split(s, sep), [sep]) == s
  {
    if s != [] {
      var rest := Split(s[1..], sep);
      JoinSplit(s[1..], sep);
      if s[0] == sep {
        assert Split(s, sep) == [[]] + rest;
      } else {
        var parts := Split(s, sep);
        assert parts == [[s[0]] + rest[0]] + rest[1..];
        if |rest| > 1 {
          assert rest == [rest[0]] + rest[1..];
          assert parts[1..] == rest[1..];
        }
      }
    }
  }

  /** A string without the separator splits into itself. */
  lemma {:induction false} SplitNoSeparator(s: string, sep: char)
    requires sep !in s
    ensures Split(s, sep) == [s]
  {
    if s != [] {
      assert s[0] != sep && sep !in s[1..];
      SplitNoSeparator(s[1..], sep);
      assert [s[0]] + s[1..] == s;
    }
  }

  /** Splitting at the first separator. */
  lemma {:induction false} SplitAtFirst(a: string, b: string, sep: char)
    requires sep !in a
    ensures Split(a + [sep] + b, sep) == [a] + Split(b, sep)
  {
    if a != [] {
      assert (a + [sep] + b)[1..] == a[1..] + [sep] + b;
      SplitAtFirst(a[1..], b, sep);
      assert a == [a[0]] + a[1..];
    } else {
      assert a + [sep] + b == [sep] + b;
    }
  }

  /** Joining separator-free parts and splitting again gives the parts back. */
  lemma {:induction false} SplitJoin(parts: seq<string>, sep: char)
    requires |parts| >= 1
    requires forall i :: 0 <= i < |parts| ==> sep !in parts[i]
    ensures Split(Join(parts, [sep]), sep) == parts
  {
    if |parts| == 1 {
      SplitNoSeparator(parts[0], sep);
    } else {
      SplitJoin(parts[1..], sep);
      SplitAtFirst(parts[0], Join(parts[1..], [sep]), sep);
      assert parts == [parts[0]] + parts[1..];
    }
  }

  /** A leading character other than the separator belongs to the first piece. */
  lemma SplitCons(c: char, x: string, sep: char)
    requires c != sep
    ensures Split([c] + x, sep) == [[c] + Split(x, sep)[0]] + Split(x, sep)[1..]
  {
    assert ([c] + x)[1..] == x;
  }

  /**
   * The pieces of a ", "-joined list, split on ',': the first name as it is,
   * each later name behind one space.
   */
  lemma {:induction false} SplitJoinedNames(names: seq<string>)
    requires |names| >= 1
    requires forall i :: 0 <= i < |names| ==> ',' !in names[i]
    ensures |Split(Join(names, Separator), ',')| == |names|
    ensures forall i :: 0 <= i < |names| ==>
              Split(Join(names, Separator), ',')[i] == if i == 0 then names[0] else " " + names[i]
  {
    if |names| == 1 {
      SplitNoSeparator(names[0], ',');
    } else {
      var tail := names[1..];
      var x := Join(tail, Separator);
      var ps := Split(x, ',');
      SplitJoinedNames(tail);
      assert Join(names, Separator) == names[0] + [','] + ([' '] + x);
      SplitAtFirst(names[0], [' '] + x, ',');
      SplitCons(' ', x, ',');
      var parts := [names[0]] + ([[' '] + ps[0]] + ps[1..]);
      assert Split(Join(names, Separator), ',') == parts;
      forall i | 0 <= i < |names|
        ensures parts[i] == if i == 0 then names[0] else " " + names[i]
      {
        if i > 0 {
          assert tail[i - 1] == names[i];
        }
      }
    }
  }

  lemma TrimAfterSpace(s: string)
    ensures Trim(" " + s) == Trim(s)
  {
    assert (" " + s)[1..] == s;
    assert (" " + s)[LeadingSpace(" " + s)..] == s[LeadingSpace(s)..];
  }

  /** A name that `is` can find again in a joined list. */
  predicate PlainName(n: string)
  {
    n != [] && ',' !in n && Trim(n) == n
  }

  /** The loop of `is`: does some piece, once trimmed, equal `p`? */
  function Listed(parts: seq<string>, p: string): (r: bool)
    ensures r <==> exists i :: 0 <= i < |parts| && Trim(parts[i]) == p
  {
    if parts == [] then false
    else if Trim(parts[0]) == p then true
    else
      assert forall i :: 1 <= i < |parts| ==> parts[1..][i - 1] == parts[i];
      Listed(parts[1..], p)
  }

  /** `Listed` over the pieces of a string, stated on `Split` itself. */
  lemma ListedPieces(value: string, p: string)
    ensures Listed(Split(value, ','), p) <==>
            exists i :: 0 <= i < |Split(value, ',')| && Trim(Split(value, ',')[i]) == p
  {
  }

  /**
   * `is(join(names, ", "))` finds exactly the listed names; an empty list
   * joins to "", whose only piece is the empty name.
   */
  lemma ListedJoin(names: seq<string>, p: string)
    requires forall i :: 0 <= i < |names| ==> PlainName(names[i])
    ensures Listed(Split(Join(names, Separator), ','), p) <==> p in names || (names == [] && p == "")
  {
    var parts := Split(Join(names, Separator), ',');
    if names == [] {
      assert parts == [[]];
      assert Trim([]) == [];
    } else {
      SplitJoinedNames(names);
      forall i | 0 <= i < |names| ensures Trim(parts[i]) == names[i] {
        if i > 0 {
          TrimAfterSpace(names[i]);
        }
      }
    }
  }

  /** Where the first `v` is: its index, or `|names|` when `v` is not there. */
  function FirstIndex(names: seq<string>, v: string): (k: nat)
    ensures k <= |names|
    ensures k < |names| ==> names[k] == v
    ensures forall j :: 0 <= j < k ==> names[j] != v
  {
    if names == [] then 0
    else if names[0] == v then 0
    else 1 + FirstIndex(names[1..], v)
  }

  /** `to(v)`: the names from the first through the first `v`; every name when `v` is absent. */
  function NamesTo(names: seq<string>, v: string): (r: seq<string>)
    ensures FirstIndex(names, v) < |names| ==> r == names[..FirstIndex(names, v) + 1]
    ensures FirstIndex(names, v) == |names| ==> r == names
  {
    if names == [] then []
    else if names[0] == v then [v]
    else
      var r := [names[0]] + NamesTo(names[1..], v);
      assert names == [names[0]] + names[1..];
      assert FirstIndex(names, v) < |names| ==>
        names[..FirstIndex(names, v) + 1] == [names[0]] + names[1..][..FirstIndex(names[1..], v) + 1];
      r
  }

  /** `from(v)`: the names from the first `v` through the last; none when `v` is absent. */
  function NamesFrom(names: seq<string>, v: string): (r: seq<string>)
    ensures r == names[FirstIndex(names, v)..|names|]
  {
    if names == [] then []
    else if names[0] == v then names
    else
      var r := NamesFrom(names[1..], v);
      assert names[1..][FirstIndex(names[1..], v)..|names| - 1] == names[FirstIndex(names, v)..|names|];
      r
  }

  /** An index with no equal name before it is where that name first occurs. */
  lemma {:induction false} FirstIndexOf(names: seq<string>, k: int)
    requires 0 <= k < |names|
    requires forall j :: 0 <= j < k ==> names[j] != names[k]
    ensures FirstIndex(names, names[k]) == k
  {
    if k > 0 {
      var tail := names[1..];
      assert tail[k - 1] == names[k];
      forall j | 0 <= j < k - 1 ensures tail[j] != tail[k - 1] {
        assert tail[j] == names[j + 1];
      }
      FirstIndexOf(tail, k - 1);
    }
  }

  /** When `names[k]` first occurs at `k`, `to` is the prefix through `k` and `from` the suffix from `k`. */
  lemma SlicesAt(names: seq<string>, k: int)
    requires 0 <= k < |names|
    requires forall j :: 0 <= j < k ==> names[j] != names[k]
    ensures NamesTo(names, names[k]) == names[..k + 1]
    ensures NamesFrom(names, names[k]) == names[k..]
  {
    FirstIndexOf(names, k);
    WholeSuffix(names, k);
  }

  lemma WholeSuffix<T>(s: seq<T>, k: nat)
    requires k <= |s|
    ensures s[k..|s|] == s[k..]
  {
  }

  /** `to(v)` and `from(v)` split the names at the first `v`, which both contain. */
  lemma SlicesMeetAtFirst(names: seq<string>, v: string)
    requires v in names
    ensures NamesTo(names, v) + NamesFrom(names, v)[1..] == names
    ensures NamesTo(names, v)[|NamesTo(names, v)| - 1] == NamesFrom(names, v)[0] == v
  {
    var k := FirstIndex(names, v);
    var u, f := NamesTo(names, v), NamesFrom(names, v);
    assert u == names[..k + 1];
    assert f == names[k..|names|];
    assert f[1..] == names[k + 1..|names|];
    assert names[..k + 1] + names[k + 1..|names|] == names;
  }

  /** `to(name)` and `from(name)` spelled out for every name: the slices through and from its first occurrence. */
  lemma SlicesEverywhere(names: seq<string>)
    ensures forall k :: 0 <= k < |names| && (forall j :: 0 <= j < k ==> names[j] != names[k]) ==>
              NamesTo(names, names[k]) == names[..k + 1] && NamesFrom(names, names[k]) == names[k..]
  {
    forall k | 0 <= k < |names| && (forall j :: 0 <= j < k ==> names[j] != names[k])
      ensures NamesTo(names, names[k]) == names[..k + 1] && NamesFrom(names, names[k]) == names[k..]
    {
      SlicesAt(names, k);
    }
  }
}
