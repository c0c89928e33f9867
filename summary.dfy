/** The missing-value summary (`summarize_missing`): per column, the number
    of missing cells and that number over the row count, listed from the
    largest share to the smallest, with an undefined share (a frame without
    rows) last. */
module Summary {
  import opened Tables

  /** One line of the summary: the column label, its missing count, and the
      share of missing cells (`None` stands for NaN, the share of a frame
      without rows). */
  datatype MissingEntry = MissingEntry(column: string, missing: nat, pctMissing: Option<real>)

  /** The summary line of one column of a frame with `rows` rows. */
  function EntryOf(c: Column, rows: nat): MissingEntry {
    var n := CountMissing(c.cells);
    MissingEntry(c.name, n, if rows == 0 then None else Some(n as real / rows as real))
  }

  /** The summary lines in column order, before sorting. */
  function Entries(t: Table): seq<MissingEntry> {
    seq(|t.cols|, k requires 0 <= k < |t.cols| => EntryOf(t.cols[k], t.rows))
  }

  /** The sort key: the share, with NaN below every share. */
  function Key(e: MissingEntry): real {
    if e.pctMissing.None? then -1.0 else e.pctMissing.value
  }

  predicate Descending(s: seq<MissingEntry>) {
    forall i, j :: 0 <= i < j < |s| ==> Key(s[i]) >= Key(s[j])
  }

  function InsertDesc(e: MissingEntry, s: seq<MissingEntry>): (r: seq<MissingEntry>)
    requires Descending(s)
    ensures Descending(r)
    ensures multiset(r) == multiset(s) + multiset{e}
    ensures |r| == |s| + 1
    ensures forall i :: 0 <= i < |r| ==> r[i] == e || r[i] in s
  {
    if s == [] then [e]
    else if Key(e) >= Key(s[0]) then [e] + s
    else
      var rest := InsertDesc(e, s[1..]);
      ConsDescending(s[0], rest, e, s[1..]);
      ConsInsert(s, e, rest);
      [s[0]] + rest
  }

  lemma ConsDescending(h: MissingEntry, rest: seq<MissingEntry>, e: MissingEntry, tail: seq<MissingEntry>)
    requires Descending(rest) && Key(h) > Key(e)
    requires forall x :: x in tail ==> Key(h) >= Key(x)
    requires forall i :: 0 <= i < |rest| ==> rest[i] == e || rest[i] in tail
    ensures Descending([h] + rest)
  {
    var r := [h] + rest;
    forall i, j | 0 <= i < j < |r| ensures Key(r[i]) >= Key(r[j]) {
      if i > 0 {
        assert r[i] == rest[i - 1] && r[j] == rest[j - 1];
      } else {
        assert r[j] == rest[j - 1];
      }
    }
  }

  /** `sort_values(ascending=False)`: a permutation of the lines, in
      non-increasing order of share. */
  function SortDesc(s: seq<MissingEntry>): (r: seq<MissingEntry>)
    ensures Descending(r)
    ensures multiset(r) == multiset(s)
    ensures |r| == |s|
  {
    if s == [] then []
    else
      assert s == [s[0]] + s[1..];
      InsertDesc(s[0], SortDesc(s[1..]))
  }

  /** `summarize_missing`. */
  function SummarizeMissing(t: Table): (r: seq<MissingEntry>)
    ensures |r| == |t.cols|
    ensures Descending(r)
    ensures multiset(r) == multiset(Entries(t))
  {
    SortDesc(Entries(t))
  }

  /** Every line of the summary is the line of one of the frame's columns,
      and every column has its line. */
  lemma SummaryLines(t: Table)
    ensures forall e :: e in SummarizeMissing(t) ==>
      exists k :: 0 <= k < |t.cols| && e == EntryOf(t.cols[k], t.rows)
    ensures forall k :: 0 <= k < |t.cols| ==> EntryOf(t.cols[k], t.rows) in SummarizeMissing(t)
  {
    var r := SummarizeMissing(t);
    var es := Entries(t);
    forall e | e in r ensures exists k :: 0 <= k < |t.cols| && e == EntryOf(t.cols[k], t.rows) {
      assert e in multiset(es);
      var k :| 0 <= k < |es| && es[k] == e;
    }
    forall k | 0 <= k < |t.cols| ensures EntryOf(t.cols[k], t.rows) in r {
      assert es[k] in multiset(r);
    }
  }

  /** For a frame with rows, the share of a column is its missing count over
      the row count: between 0 and 1, 0 exactly when nothing is missing and 1
      exactly when everything is; a frame without rows has no share. */
  lemma EntryShare(c: Column, rows: nat)
    requires |c.cells| == rows
    ensures var e := EntryOf(c, rows);
      e.column == c.name && e.missing <= rows
      && (e.pctMissing.None? <==> rows == 0)
      && (rows > 0 ==> var p := e.pctMissing.value;
            0.0 <= p <= 1.0 && p * rows as real == e.missing as real
            && (p == 0.0 <==> !HasMissing(c))
            && (p == 1.0 <==> AllMissing(c)))
  {
    var n := CountMissing(c.cells);
    CountMissingBounds(c.cells);
    CountMissingAll(c.cells);
    assert n == 0 <==> !HasMissing(c);
    assert n == rows <==> AllMissing(c);
    if rows > 0 {
      ShareArithmetic(n, rows);
    }
  }

  lemma ShareArithmetic(n: nat, rows: nat)
    requires 0 < rows && n <= rows
    ensures var p := n as real / rows as real;
      0.0 <= p <= 1.0 && p * rows as real == n as real
      && (p == 0.0 <==> n == 0) && (p == 1.0 <==> n == rows)
  {
    var p, r := n as real / rows as real, rows as real;
    assert p * r == n as real;
    if p == 0.0 {
      assert n as real == 0.0 * r;
    }
    if p == 1.0 {
      assert n as real == 1.0 * r;
    }
    if n == rows {
      assert p == r / r;
    }
    assert p <= 1.0 by {
      assert p * r <= 1.0 * r;
    }
  }

  lemma {:induction false} CountMissingAll(cells: seq<Cell>)
    ensures CountMissing(cells) == |cells| <==> forall i :: 0 <= i < |cells| ==> cells[i] == Missing
  {
    if cells != [] {
      var tail := cells[1..];
      CountMissingAll(tail);
      CountMissingBounds(tail);
      var all := forall i :: 0 <= i < |cells| ==> cells[i] == Missing;
      var allTail := forall i :: 0 <= i < |tail| ==> tail[i] == Missing;
      assert all ==> allTail by {
        if all {
          forall i | 0 <= i < |tail| ensures tail[i] == Missing {
            assert tail[i] == cells[i + 1];
          }
        }
      }
      assert cells[0] == Missing && allTail ==> all by {
        if cells[0] == Missing && allTail {
          forall i | 1 <= i < |cells| ensures cells[i] == Missing {
            assert cells[i] == tail[i - 1];
          }
        }
      }
    }
  }

  /** In the summary of a frame with rows, the shares are those of the
      columns, between 0 and 1, and come in non-increasing order; in the
      summary of a frame without rows every share is NaN. */
  lemma SummaryShares(t: Table)
    requires t.Valid()
    ensures var r := SummarizeMissing(t);
      (forall i :: 0 <= i < |r| ==> (r[i].pctMissing.None? <==> t.rows == 0))
      && (t.rows > 0 ==> forall i, j :: 0 <= i < j < |r| ==>
            0.0 <= r[j].pctMissing.value <= r[i].pctMissing.value <= 1.0)
  {
    var r := SummarizeMissing(t);
    SummaryLines(t);
    forall i | 0 <= i < |r|
      ensures (r[i].pctMissing.None? <==> t.rows == 0)
      ensures t.rows > 0 ==> 0.0 <= r[i].pctMissing.value <= 1.0
    {
      assert r[i] in r;
      var k :| 0 <= k < |t.cols| && r[i] == EntryOf(t.cols[k], t.rows);
      EntryShare(t.cols[k], t.rows);
    }
  }
}
