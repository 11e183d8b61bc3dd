/**
 * The three table operations the transform chains together, stated on
 * sequences of rows: `drop_duplicates()` (keep the first of equal rows),
 * `reset_index()` (number the rows 0, 1, ... in row order) and the
 * first-occurrence position that gives `drop_duplicates` its order.
 */
module Frames {

  /** No row occurs twice in `s`. */
  predicate NoDuplicates<T(==)>(s: seq<T>) {
    forall i, j :: 0 <= i < j < |s| ==> s[i] != s[j]
  }

  /** Position of the first row of `s` equal to `x`. */
  function FirstIndex<T(==)>(s: seq<T>, x: T): (k: nat)
    requires x in s
    ensures k < |s| && s[k] == x && x !in s[..k]
  {
    if s[0] == x then 0
    else
      var k' := FirstIndex(s[1..], x);
      assert s[..k' + 1] == [s[0]] + s[1..][..k'];
      1 + k'
  }

  /** A position holding `x` with no `x` before it is the first index of `x`. */
  lemma FirstIndexUnique<T>(s: seq<T>, x: T, k: nat)
    requires k < |s| && s[k] == x && x !in s[..k]
    ensures FirstIndex(s, x) == k
  {
    var f := FirstIndex(s, x);
  }

  /** Appending rows does not move the first occurrence of a row already present. */
  lemma FirstIndexAppend<T>(p: seq<T>, q: seq<T>, x: T)
    requires x in p
    ensures FirstIndex(p + q, x) == FirstIndex(p, x)
  {
    var k := FirstIndex(p, x);
    assert (p + q)[..k] == p[..k];
    FirstIndexUnique(p + q, x, k);
  }

  /**
   * `drop_duplicates()` with its default `keep='first'`: a row is kept
   * exactly when no earlier row equals it, and kept rows stay in order.
   */
  function DropDuplicates<T(==)>(s: seq<T>): (r: seq<T>)
    ensures NoDuplicates(r)
    ensures forall i :: 0 <= i < |s| ==> s[i] in r
    ensures forall i :: 0 <= i < |r| ==> r[i] in s
    ensures |r| <= |s|
    decreases |s|
  {
    if s == [] then []
    else
      var p := s[..|s| - 1];
      var last := s[|s| - 1];
      assert s == p + [last];
      DropDuplicates(p) + if last in p then [] else [last]
  }

  /** A sequence without duplicates is left as it is. */
  lemma {:induction false} DropDuplicatesOfDistinct<T>(s: seq<T>)
    requires NoDuplicates(s)
    ensures DropDuplicates(s) == s
    decreases |s|
  {
    if s != [] {
      var p := s[..|s| - 1];
      assert s == p + [s[|s| - 1]];
      assert NoDuplicates(p);
      DropDuplicatesOfDistinct(p);
    }
  }

  /** Dropping duplicates twice is the same as dropping them once. */
  lemma DropDuplicatesIdempotent<T>(s: seq<T>)
    ensures DropDuplicates(DropDuplicates(s)) == DropDuplicates(s)
  {
    DropDuplicatesOfDistinct(DropDuplicates(s));
  }

  /** The rows of `r` appear in the order of their first occurrence in `s`. */
  ghost predicate InFirstOccurrenceOrder<T>(s: seq<T>, r: seq<T>) {
    && (forall i :: 0 <= i < |r| ==> r[i] in s)
    && (forall i, j :: 0 <= i < j < |r| ==> FirstIndex(s, r[i]) < FirstIndex(s, r[j]))
  }

  /** The rows `drop_duplicates` keeps are in first-occurrence order. */
  lemma {:induction false} DropDuplicatesOrder<T>(s: seq<T>)
    ensures InFirstOccurrenceOrder(s, DropDuplicates(s))
    decreases |s|
  {
    if s != [] {
      var p := s[..|s| - 1];
      var last := s[|s| - 1];
      assert s == p + [last];
      var d := DropDuplicates(p);
      DropDuplicatesOrder(p);
      forall i | 0 <= i < |d|
        ensures FirstIndex(s, d[i]) == FirstIndex(p, d[i])
      {
        FirstIndexAppend(p, [last], d[i]);
      }
      if last !in p {
        FirstIndexUnique(s, last, |p|);
      }
    }
  }

  /**
   * Containing exactly the rows of `s`, in first-occurrence order, determines
   * a sequence uniquely: it is `DropDuplicates(s)`.
   */
  lemma DropDuplicatesCharacterized<T>(s: seq<T>, r: seq<T>)
    requires forall x :: x in r <==> x in s
    requires InFirstOccurrenceOrder(s, r)
    ensures r == DropDuplicates(s)
  {
    var d := DropDuplicates(s);
    DropDuplicatesOrder(s);
    var rank := x => if x in s then FirstIndex(s, x) else 0;
    assert forall i :: 0 <= i < |r| ==> rank(r[i]) == FirstIndex(s, r[i]);
    assert forall i :: 0 <= i < |d| ==> rank(d[i]) == FirstIndex(s, d[i]);
    SameOrderSameRows(rank, r, d);
  }

  /** Two sequences with the same rows, both strictly increasing in `rank`, are equal. */
  lemma {:induction false} SameOrderSameRows<T>(rank: T -> int, a: seq<T>, b: seq<T>)
    requires forall x :: x in a <==> x in b
    requires forall i, j :: 0 <= i < j < |a| ==> rank(a[i]) < rank(a[j])
    requires forall i, j :: 0 <= i < j < |b| ==> rank(b[i]) < rank(b[j])
    ensures a == b
    decreases |a| + |b|
  {
    if a == [] || b == [] {
      if a != [] {
        HeadIsRow(a);
        assert false;
      }
      if b != [] {
        HeadIsRow(b);
        assert false;
      }
    } else {
      SameHead(rank, a, b);
      SameRowsAfterHead(rank, a);
      SameRowsAfterHead(rank, b);
      SameOrderSameRows(rank, a[1..], b[1..]);
      assert a == [a[0]] + a[1..] && b == [b[0]] + b[1..];
    }
  }

  lemma HeadIsRow<T>(s: seq<T>)
    requires s != []
    ensures s[0] in s
  {
  }

  /** Both sequences start with the row of least rank, so with the same row. */
  lemma SameHead<T>(rank: T -> int, a: seq<T>, b: seq<T>)
    requires a != [] && b != []
    requires forall x :: x in a <==> x in b
    requires forall i, j :: 0 <= i < j < |a| ==> rank(a[i]) < rank(a[j])
    requires forall i, j :: 0 <= i < j < |b| ==> rank(b[i]) < rank(b[j])
    ensures a[0] == b[0]
  {
    assert a[0] in b && b[0] in a;
    var j :| 0 <= j < |b| && b[j] == a[0];
    var i :| 0 <= i < |a| && a[i] == b[0];
    assert j == 0 || i == 0;
  }

  /** In a sequence strictly increasing in `rank`, the head does not recur. */
  lemma SameRowsAfterHead<T>(rank: T -> int, a: seq<T>)
    requires a != []
    requires forall i, j :: 0 <= i < j < |a| ==> rank(a[i]) < rank(a[j])
    ensures forall x :: x in a[1..] <==> x in a && x != a[0]
  {
    forall x | x in a[1..]
      ensures x != a[0]
    {
      var i :| 1 <= i < |a| && a[i] == x;
      assert rank(a[0]) < rank(a[i]);
    }
    assert a == [a[0]] + a[1..];
  }

  /** A row together with the surrogate key `reset_index()` gives it. */
  datatype Indexed<T> = Indexed(key: nat, value: T)

  /**
   * `reset_index()`: the key column becomes 0, 1, ..., |s|-1 in row order and
   * every row's values are kept.
   */
  function ResetIndex<T>(s: seq<T>): (r: seq<Indexed<T>>)
    ensures |r| == |s|
    ensures forall i :: 0 <= i < |r| ==> r[i].key == i && r[i].value == s[i]
    decreases |s|
  {
    if s == [] then []
    else ResetIndex(s[..|s| - 1]) + [Indexed(|s| - 1, s[|s| - 1])]
  }

  /** The value column of an indexed table. */
  function Values<T>(t: seq<Indexed<T>>): (r: seq<T>)
    ensures |r| == |t|
    ensures forall i :: 0 <= i < |t| ==> r[i] == t[i].value
  {
    seq(|t|, i requires 0 <= i < |t| => t[i].value)
  }

  /** Dropping the key column of `reset_index()` gives back the rows. */
  lemma ValuesResetIndex<T>(s: seq<T>)
    ensures Values(ResetIndex(s)) == s
  {
  }

  /** The rows of every piece, piece after piece. */
  function Flatten<T>(pieces: seq<seq<T>>): seq<T>
    decreases |pieces|
  {
    if pieces == [] then [] else pieces[0] + Flatten(pieces[1..])
  }

  /** Flattening pieces of one row each keeps one row per piece, in order. */
  lemma {:induction false} FlattenSingletons<T>(pieces: seq<seq<T>>)
    requires forall i :: 0 <= i < |pieces| ==> |pieces[i]| == 1
    ensures |Flatten(pieces)| == |pieces|
    ensures forall i :: 0 <= i < |pieces| ==> Flatten(pieces)[i] == pieces[i][0]
    decreases |pieces|
  {
    if pieces != [] {
      FlattenSingletons(pieces[1..]);
    }
  }
}
