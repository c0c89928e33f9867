/** The fill step of the basic treatment: a numeric column with missing
    cells gets them replaced by the median of its present values (`median()`
    skips missing cells, and the median of no values is NaN, which fills
    nothing); any other column with missing cells gets the text
    "Desconhecido". */
module Impute {
  import opened Tables

  /** The text put into missing cells of non-numeric columns. */
  const Unknown := "Desconhecido"

  /** How many cells hold the number `v`. */
  function CountNum(cells: seq<Cell>, v: real): nat {
    if cells == [] then 0
    else (if cells[0] == Num(v) then 1 else 0) + CountNum(cells[1..], v)
  }

  /** The numbers of a column, in order, missing cells skipped: each number
      occurs as often as the column holds it. */
  function PresentValues(cells: seq<Cell>): (r: seq<real>)
    ensures |r| <= |cells|
    ensures forall v :: multiset(r)[v] == CountNum(cells, v)
    ensures forall x :: x in r ==> Num(x) in cells
    ensures forall i :: 0 <= i < |cells| && cells[i].Num? ==> cells[i].value in r
  {
    if cells == [] then []
    else
      var head := if cells[0].Num? then [cells[0].value] else [];
      var rest := PresentValues(cells[1..]);
      assert multiset(head + rest) == multiset(head) + multiset(rest);
      assert forall i :: 1 <= i < |cells| ==> cells[i] == cells[1..][i - 1];
      head + rest
  }

  predicate Sorted(s: seq<real>) {
    forall i, j :: 0 <= i < j < |s| ==> s[i] <= s[j]
  }

  function Insert(x: real, s: seq<real>): (r: seq<real>)
    requires Sorted(s)
    ensures Sorted(r)
    ensures multiset(r) == multiset(s) + multiset{x}
    ensures |r| == |s| + 1
    ensures forall i :: 0 <= i < |r| ==> r[i] == x || r[i] in s
  {
    if s == [] then [x]
    else if x <= s[0] then [x] + s
    else
      var rest := Insert(x, s[1..]);
      ConsSorted(s[0], rest, x, s[1..]);
      ConsInsert(s, x, rest);
      [s[0]] + rest
  }

  lemma ConsSorted(h: real, rest: seq<real>, x: real, tail: seq<real>)
    requires Sorted(rest) && h < x
    requires forall y :: y in tail ==> h <= y
    requires forall i :: 0 <= i < |rest| ==> rest[i] == x || rest[i] in tail
    ensures Sorted([h] + rest)
  {
    var r := [h] + rest;
    forall i, j | 0 <= i < j < |r| ensures r[i] <= r[j] {
      if i > 0 {
        assert r[i] == rest[i - 1] && r[j] == rest[j - 1];
      } else {
        assert r[j] == rest[j - 1];
      }
    }
  }

  /** The values in non-decreasing order: a sorted permutation. */
  function SortReals(xs: seq<real>): (r: seq<real>)
    ensures Sorted(r)
    ensures multiset(r) == multiset(xs)
    ensures |r| == |xs|
  {
    if xs == [] then []
    else
      assert xs == [xs[0]] + xs[1..];
      Insert(xs[0], SortReals(xs[1..]))
  }

  /** The median: the middle value of the sorted values, or the mean of the
      two middle ones when their number is even. */
  function Median(xs: seq<real>): real
    requires |xs| > 0
  {
    Middle(SortReals(xs))
  }

  function Middle(s: seq<real>): real
    requires |s| > 0
  {
    var n := |s|;
    if n % 2 == 1 then s[n / 2] else (s[n / 2 - 1] + s[n / 2]) / 2.0
  }

  function CountAtMost(xs: seq<real>, m: real): nat {
    if xs == [] then 0 else (if xs[0] <= m then 1 else 0) + CountAtMost(xs[1..], m)
  }

  function CountAtLeast(xs: seq<real>, m: real): nat {
    if xs == [] then 0 else (if xs[0] >= m then 1 else 0) + CountAtLeast(xs[1..], m)
  }

  lemma {:induction false} CountsInsert(x: real, s: seq<real>, m: real)
    requires Sorted(s)
    ensures CountAtMost(Insert(x, s), m) == (if x <= m then 1 else 0) + CountAtMost(s, m)
    ensures CountAtLeast(Insert(x, s), m) == (if x >= m then 1 else 0) + CountAtLeast(s, m)
  {
    if s != [] && x > s[0] {
      CountsInsert(x, s[1..], m);
      var r := Insert(x, s);
      assert r[1..] == Insert(x, s[1..]);
    }
  }

  /** Sorting keeps how many values lie on either side of any bound. */
  lemma {:induction false} CountsSort(xs: seq<real>, m: real)
    ensures CountAtMost(SortReals(xs), m) == CountAtMost(xs, m)
    ensures CountAtLeast(SortReals(xs), m) == CountAtLeast(xs, m)
  {
    if xs != [] {
      CountsSort(xs[1..], m);
      CountsInsert(xs[0], SortReals(xs[1..]), m);
    }
  }

  lemma {:induction false} PrefixAtMost(s: seq<real>, p: nat, m: real)
    requires p <= |s|
    requires forall i :: 0 <= i < p ==> s[i] <= m
    ensures CountAtMost(s, m) >= p
  {
    if p > 0 {
      PrefixAtMost(s[1..], p - 1, m);
    }
  }

  lemma {:induction false} SuffixAtLeast(s: seq<real>, p: nat, m: real)
    requires p <= |s|
    requires forall i :: p <= i < |s| ==> s[i] >= m
    ensures CountAtLeast(s, m) >= |s| - p
  {
    if s != [] {
      if p == 0 {
        SuffixAtLeast(s[1..], 0, m);
      } else {
        SuffixAtLeast(s[1..], p - 1, m);
      }
    }
  }

  lemma MiddleOddHalves(s: seq<real>)
    requires Sorted(s) && |s| % 2 == 1
    ensures 2 * CountAtMost(s, Middle(s)) >= |s|
    ensures 2 * CountAtLeast(s, Middle(s)) >= |s|
  {
    var n := |s|;
    PrefixAtMost(s, n / 2 + 1, Middle(s));
    SuffixAtLeast(s, n / 2, Middle(s));
  }

  lemma MiddleEvenHalves(s: seq<real>)
    requires Sorted(s) && |s| > 0 && |s| % 2 == 0
    ensures 2 * CountAtMost(s, Middle(s)) >= |s|
    ensures 2 * CountAtLeast(s, Middle(s)) >= |s|
  {
    var n := |s|;
    var m := Middle(s);
    assert s[n / 2 - 1] <= m <= s[n / 2];
    PrefixAtMost(s, n / 2, m);
    SuffixAtLeast(s, n / 2, m);
  }

  /** At least half of the values are at most the median and at least half
      are at least the median. */
  lemma MedianHalves(xs: seq<real>)
    requires |xs| > 0
    ensures 2 * CountAtMost(xs, Median(xs)) >= |xs|
    ensures 2 * CountAtLeast(xs, Median(xs)) >= |xs|
  {
    var s := SortReals(xs);
    CountsSort(xs, Median(xs));
    if |s| % 2 == 1 {
      MiddleOddHalves(s);
    } else {
      MiddleEvenHalves(s);
    }
  }

  /** The median lies between the least and the greatest value. */
  lemma MedianBounds(xs: seq<real>)
    requires |xs| > 0
    ensures exists i :: 0 <= i < |xs| && xs[i] <= Median(xs)
    ensures exists j :: 0 <= j < |xs| && xs[j] >= Median(xs)
    ensures forall y :: y in xs && (forall i :: 0 <= i < |xs| ==> y <= xs[i]) ==> y <= Median(xs)
    ensures forall y :: y in xs && (forall i :: 0 <= i < |xs| ==> y >= xs[i]) ==> y >= Median(xs)
  {
    var s := SortReals(xs);
    var n := |s|;
    var m := Median(xs);
    assert s[0] <= m <= s[n - 1];
    assert s[0] in multiset(xs) && s[n - 1] in multiset(xs);
    assert s[0] in xs && s[n - 1] in xs;
    forall y | y in xs && (forall i :: 0 <= i < |xs| ==> y <= xs[i]) ensures y <= m {
      var i :| 0 <= i < |xs| && xs[i] == s[0];
    }
    forall y | y in xs && (forall i :: 0 <= i < |xs| ==> y >= xs[i]) ensures y >= m {
      var i :| 0 <= i < |xs| && xs[i] == s[n - 1];
    }
  }

  /** The median of values that are all equal is that value. */
  lemma MedianOfEqual(xs: seq<real>, v: real)
    requires |xs| > 0 && forall i :: 0 <= i < |xs| ==> xs[i] == v
    ensures Median(xs) == v
  {
    var s := SortReals(xs);
    var n := |s|;
    forall i | 0 <= i < n ensures s[i] == v {
      assert s[i] in multiset(xs);
    }
  }

  lemma {:induction false} PresentValuesEmpty(cells: seq<Cell>)
    ensures PresentValues(cells) == [] <==> forall i :: 0 <= i < |cells| ==> !cells[i].Num?
  {
    if cells != [] {
      PresentValuesEmpty(cells[1..]);
      assert forall i :: 1 <= i < |cells| ==> cells[i] == cells[1..][i - 1];
    }
  }

  /** Every missing cell replaced by `v`: present cells are kept, each
      missing one becomes `v`, and unless `v` is itself the missing marker
      nothing is missing afterwards. */
  function FillWith(cells: seq<Cell>, v: Cell): (r: seq<Cell>)
    ensures |r| == |cells|
    ensures forall i :: 0 <= i < |cells| && cells[i] != Missing ==> r[i] == cells[i]
    ensures forall i :: 0 <= i < |cells| && cells[i] == Missing ==> r[i] == v
    ensures v != Missing ==> CountMissing(r) == 0
  {
    var r := seq(|cells|, i requires 0 <= i < |cells| => if cells[i] == Missing then v else cells[i]);
    CountMissingBounds(r);
    r
  }

  /** One iteration of the fill loop. */
  function FillColumn(c: Column): Column {
    if !HasMissing(c) then c
    else if c.kind == Numeric then
      var xs := PresentValues(c.cells);
      if xs == [] then c else c.(cells := FillWith(c.cells, Num(Median(xs))))
    else c.(cells := FillWith(c.cells, Str(Unknown)))
  }

  /** What the fill does to one column: name, kind and present cells are
      kept; a missing cell of a numeric column becomes the median of the
      present values, one of any other column becomes "Desconhecido"; only a
      numeric column with no value at all keeps missing cells, and then it
      is left as it is. */
  lemma FillColumnOutcome(c: Column)
    requires c.Valid()
    ensures var r := FillColumn(c);
      r.name == c.name && r.kind == c.kind && |r.cells| == |c.cells| && r.Valid()
      && (forall i :: 0 <= i < |c.cells| && c.cells[i] != Missing ==> r.cells[i] == c.cells[i])
      && (c.kind == Object ==> forall i :: 0 <= i < |c.cells| && c.cells[i] == Missing ==>
            r.cells[i] == Str(Unknown))
      && (c.kind == Numeric && !AllMissing(c) ==> forall i :: 0 <= i < |c.cells| && c.cells[i] == Missing ==>
            r.cells[i] == Num(Median(PresentValues(c.cells))))
      && (HasMissing(r) <==> c.kind == Numeric && |c.cells| > 0 && AllMissing(c))
      && (c.kind == Numeric && AllMissing(c) ==> r == c)
  {
    PresentValuesEmpty(c.cells);
    if c.kind == Numeric {
      NumericFillOutcome(c);
    } else {
      FillWithCount(c.cells, Str(Unknown));
    }
  }

  lemma NumericFillOutcome(c: Column)
    requires c.Valid() && c.kind == Numeric
    requires PresentValues(c.cells) == [] <==> AllMissing(c)
    ensures var r := FillColumn(c);
      r.Valid()
      && (!AllMissing(c) ==> forall i :: 0 <= i < |c.cells| && c.cells[i] == Missing ==>
            r.cells[i] == Num(Median(PresentValues(c.cells))))
      && (HasMissing(r) <==> |c.cells| > 0 && AllMissing(c))
      && (AllMissing(c) ==> r == c)
  {
    var xs := PresentValues(c.cells);
    if AllMissing(c) {
      assert FillColumn(c) == c;
      if |c.cells| > 0 {
        assert c.cells[0] == Missing;
      }
    } else if HasMissing(c) {
      var v := Num(Median(xs));
      assert FillColumn(c).cells == FillWith(c.cells, v);
      FillWithCount(c.cells, v);
    }
  }

  /** Nothing is missing after a fill with a value. */
  lemma FillWithCount(cells: seq<Cell>, v: Cell)
    requires v != Missing
    ensures !HasMissing(Column("", Numeric, FillWith(cells, v)))
  {
    CountMissingBounds(FillWith(cells, v));
  }

  /** Filling twice is the same as filling once. */
  lemma FillColumnIdempotent(c: Column)
    requires c.Valid()
    ensures FillColumn(FillColumn(c)) == FillColumn(c)
  {
    FillColumnOutcome(c);
  }

  /** The frame the fill loop leaves. */
  function Filled(t: Table): (r: Table)
    requires t.Valid()
  {
    Table(t.rows, seq(|t.cols|, k requires 0 <= k < |t.cols| => FillColumn(t.cols[k])))
  }

  /** The fill loop of the basic treatment, column by column. */
  method FillMissing(t: Table) returns (r: Table)
    requires t.Valid()
    ensures r == Filled(t)
  {
    r := t;
    var k := 0;
    while k < |t.cols|
      invariant 0 <= k <= |t.cols|
      invariant r.rows == t.rows && |r.cols| == |t.cols|
      invariant forall j :: 0 <= j < k ==> r.cols[j] == FillColumn(t.cols[j])
      invariant forall j :: k <= j < |t.cols| ==> r.cols[j] == t.cols[j]
    {
      var c := FillOne(r.cols[k]);
      r := r.(cols := r.cols[k := c]);
      k := k + 1;
    }
  }

  /** The body of the fill loop, for one column. */
  method FillOne(c: Column) returns (d: Column)
    ensures d == FillColumn(c)
  {
    d := c;
    if HasMissing(c) {
      if c.kind == Numeric {
        var xs := PresentValues(c.cells);
        if xs != [] {
          d := c.(cells := FillWith(c.cells, Num(Median(xs))));
        }
      } else {
        d := c.(cells := FillWith(c.cells, Str(Unknown)));
      }
    }
  }

  /** After the fill the frame is still well formed with the same labels and
      kinds; the only missing cells left are in numeric columns that had no
      value at all, and text-only columns stay text-only. */
  lemma FilledFrame(t: Table)
    requires t.Valid()
    ensures var r := Filled(t);
      r.Valid() && r.rows == t.rows && Names(r) == Names(t)
      && (forall k :: 0 <= k < |t.cols| ==> r.cols[k].kind == t.cols[k].kind)
      && (forall k :: 0 <= k < |t.cols| && HasMissing(r.cols[k]) ==>
            r.cols[k].kind == Numeric && AllMissing(r.cols[k]))
      && (forall k :: 0 <= k < |t.cols| && TextOnly(t.cols[k]) ==> TextOnly(r.cols[k]))
  {
    var r := Filled(t);
    forall k | 0 <= k < |t.cols|
      ensures r.cols[k].name == t.cols[k].name && r.cols[k].kind == t.cols[k].kind
      ensures |r.cols[k].cells| == r.rows && r.cols[k].Valid()
      ensures HasMissing(r.cols[k]) ==> r.cols[k].kind == Numeric && AllMissing(r.cols[k])
      ensures TextOnly(t.cols[k]) ==> TextOnly(r.cols[k])
    {
      FillColumnOutcome(t.cols[k]);
    }
  }
}
