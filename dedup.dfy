/** Duplicate rows (`duplicated().sum()` and `drop_duplicates()` with their
    defaults): a row is a duplicate when an earlier row holds the same cells
    in every column, missing markers counting as equal; the first occurrence
    of each row is kept, in the original order. A frame without columns (or
    without rows) is `empty` in pandas: it is returned as it is and no row is
    counted as a duplicate. */
module Dedup {
  import opened Tables

  /** Row `i` differs from every earlier row. */
  predicate IsFirst(t: Table, i: nat)
    requires t.Valid() && i < t.rows
  {
    forall j :: 0 <= j < i ==> Row(t, j) != Row(t, i)
  }

  /** The rows below `n` that are first occurrences, in increasing order. */
  function FirstRows(t: Table, n: nat): (idx: seq<nat>)
    requires t.Valid() && n <= t.rows
    ensures forall a :: 0 <= a < |idx| ==> idx[a] < n && IsFirst(t, idx[a])
    ensures forall a, b :: 0 <= a < b < |idx| ==> idx[a] < idx[b]
    ensures forall i :: 0 <= i < n && IsFirst(t, i) ==> i in idx
  {
    if n == 0 then []
    else
      var prev := FirstRows(t, n - 1);
      var last := if IsFirst(t, n - 1) then [n - 1] else [];
      assert forall a :: 0 <= a < |prev| ==> (prev + last)[a] == prev[a];
      prev + last
  }

  /** The number of rows below `n` that repeat an earlier row, the
      `duplicated()` mask summed: together with the first occurrences, these
      are all the rows below `n`. */
  function CountDuplicates(t: Table, n: nat): (r: nat)
    requires t.Valid() && n <= t.rows
    ensures r + |FirstRows(t, n)| == n
  {
    if n == 0 then 0
    else CountDuplicates(t, n - 1) + (if IsFirst(t, n - 1) then 0 else 1)
  }

  /** The frame made of the rows `idx` of `t`, in that order. */
  function Select(t: Table, idx: seq<nat>): (r: Table)
    requires t.Valid()
    requires forall a :: 0 <= a < |idx| ==> idx[a] < t.rows
    ensures r.Valid() && r.rows == |idx| && |r.cols| == |t.cols|
    ensures forall k :: 0 <= k < |t.cols| ==>
      r.cols[k].name == t.cols[k].name && r.cols[k].kind == t.cols[k].kind
    ensures forall a :: 0 <= a < |idx| ==> Row(r, a) == Row(t, idx[a])
  {
    var cols := seq(|t.cols|, k requires 0 <= k < |t.cols| =>
      Column(t.cols[k].name, t.cols[k].kind,
        seq(|idx|, a requires 0 <= a < |idx| => t.cols[k].cells[idx[a]])));
    var r := Table(|idx|, cols);
    assert r.Valid() by {
      forall k | 0 <= k < |cols| ensures cols[k].Valid() {
        assert t.cols[k].Valid();
      }
    }
    r
  }

  /** `drop_duplicates()`. */
  function Deduplicated(t: Table): (r: Table)
    requires t.Valid()
    ensures r.Valid() && r.rows <= t.rows && |r.cols| == |t.cols|
    ensures forall k :: 0 <= k < |t.cols| ==>
      r.cols[k].name == t.cols[k].name && r.cols[k].kind == t.cols[k].kind
  {
    if |t.cols| == 0 then t
    else
      var idx := FirstRows(t, t.rows);
      assert |idx| + CountDuplicates(t, t.rows) == t.rows;
      Select(t, idx)
  }

  /** `duplicated().sum()`: the rows kept plus the duplicates counted make
      up the input rows. */
  function DuplicatesRemoved(t: Table): (r: nat)
    requires t.Valid()
    ensures Deduplicated(t).rows + r == t.rows
  {
    if |t.cols| == 0 then 0 else CountDuplicates(t, t.rows)
  }

  /** No two rows of the result are equal (a frame with columns). */
  lemma DeduplicatedDistinct(t: Table)
    requires t.Valid() && |t.cols| > 0
    ensures var r := Deduplicated(t);
      forall a, b :: 0 <= a < b < r.rows ==> Row(r, a) != Row(r, b)
  {
    var idx := FirstRows(t, t.rows);
    var r := Deduplicated(t);
    forall a, b | 0 <= a < b < r.rows ensures Row(r, a) != Row(r, b) {
      assert Row(r, a) == Row(t, idx[a]) && Row(r, b) == Row(t, idx[b]);
      assert idx[a] < idx[b] && IsFirst(t, idx[b]);
    }
  }

  /** Every row equals some first occurrence at or before it. */
  lemma {:induction false} HasFirstOccurrence(t: Table, i: nat)
    requires t.Valid() && i < t.rows
    ensures exists j :: 0 <= j <= i && IsFirst(t, j) && Row(t, j) == Row(t, i)
    decreases i
  {
    if !IsFirst(t, i) {
      var j :| 0 <= j < i && Row(t, j) == Row(t, i);
      HasFirstOccurrence(t, j);
    }
  }

  /** Some row of `t` holds exactly the cells `row`. */
  predicate HasRow(t: Table, row: seq<Cell>)
    requires t.Valid()
  {
    exists a: nat :: a < t.rows && Row(t, a) == row
  }

  /** Nothing is lost: every input row appears in the result. */
  lemma DeduplicatedCovers(t: Table)
    requires t.Valid()
    ensures forall i: nat :: i < t.rows ==> HasRow(Deduplicated(t), Row(t, i))
  {
    forall i: nat | i < t.rows ensures HasRow(Deduplicated(t), Row(t, i)) {
      KeptIn(t, i);
    }
  }

  lemma KeptIn(t: Table, i: nat)
    requires t.Valid() && i < t.rows
    ensures HasRow(Deduplicated(t), Row(t, i))
  {
    var a := KeptAt(t, i);
  }

  /** The position in the result of the row equal to row `i`. */
  lemma KeptAt(t: Table, i: nat) returns (a: nat)
    requires t.Valid() && i < t.rows
    ensures a < Deduplicated(t).rows && Row(Deduplicated(t), a) == Row(t, i)
  {
    var r := Deduplicated(t);
    if |t.cols| > 0 {
      var idx := FirstRows(t, t.rows);
      HasFirstOccurrence(t, i);
      var j :| 0 <= j <= i && IsFirst(t, j) && Row(t, j) == Row(t, i);
      a :| 0 <= a < |idx| && idx[a] == j;
      assert Row(r, a) == Row(t, j);
    } else {
      a := i;
    }
  }

  /** A frame whose rows are already distinct is returned unchanged, with no
      duplicate counted. */
  lemma DistinctUnchanged(t: Table)
    requires t.Valid()
    requires forall a, b :: 0 <= a < b < t.rows ==> Row(t, a) != Row(t, b)
    ensures Deduplicated(t) == t && DuplicatesRemoved(t) == 0
  {
    if |t.cols| > 0 {
      var idx := FirstRows(t, t.rows);
      assert forall i :: 0 <= i < t.rows ==> IsFirst(t, i);
      var r := Deduplicated(t);
      AllFirstIdentity(t, t.rows);
      forall k | 0 <= k < |t.cols| ensures r.cols[k] == t.cols[k] {
        forall a | 0 <= a < t.rows ensures r.cols[k].cells[a] == t.cols[k].cells[a] {
          assert Row(r, a)[k] == Row(t, idx[a])[k];
        }
      }
    }
  }

  lemma {:induction false} AllFirstIdentity(t: Table, n: nat)
    requires t.Valid() && n <= t.rows
    requires forall i :: 0 <= i < n ==> IsFirst(t, i)
    ensures |FirstRows(t, n)| == n
    ensures forall a :: 0 <= a < n ==> FirstRows(t, n)[a] == a
  {
    if n > 0 {
      AllFirstIdentity(t, n - 1);
    }
  }

  /** Dropping duplicates twice gives the same frame as dropping them once. */
  lemma DeduplicateIdempotent(t: Table)
    requires t.Valid()
    ensures Deduplicated(Deduplicated(t)) == Deduplicated(t)
    ensures DuplicatesRemoved(Deduplicated(t)) == 0
  {
    if |t.cols| > 0 {
      DeduplicatedDistinct(t);
      DistinctUnchanged(Deduplicated(t));
    }
  }
}
