/** The tabular data the cleaning pipeline works on: a frame is an ordered
    sequence of named columns of equal length. Each column carries the
    element kind the pipeline dispatches on (pandas' numeric dtypes versus
    the `object` dtype). */
module Tables {

  datatype Option<T> = None | Some(value: T)

  /** One cell: pandas' missing marker (NaN), a number, or a piece of text. */
  datatype Cell = Missing | Num(value: real) | Str(text: string)

  /** The element kind of a column: a numeric dtype (kind "biufc") or `object`. */
  datatype Kind = Numeric | Object

  datatype Column = Column(name: string, kind: Kind, cells: seq<Cell>) {
    /** A numeric column holds numbers and missing markers only. */
    predicate Valid() {
      kind == Numeric ==> forall i :: 0 <= i < |cells| ==> !cells[i].Str?
    }
  }

  /** A frame: its row count and its columns, in order. */
  datatype Table = Table(rows: nat, cols: seq<Column>) {
    predicate Valid() {
      forall k :: 0 <= k < |cols| ==> |cols[k].cells| == rows && cols[k].Valid()
    }
  }

  function Names(t: Table): (r: seq<string>)
    ensures |r| == |t.cols|
    ensures forall k :: 0 <= k < |t.cols| ==> r[k] == t.cols[k].name
  {
    seq(|t.cols|, k requires 0 <= k < |t.cols| => t.cols[k].name)
  }

  predicate UniqueNames(t: Table) {
    forall j, k :: 0 <= j < k < |t.cols| ==> t.cols[j].name != t.cols[k].name
  }

  predicate HasMissing(c: Column) {
    exists i :: 0 <= i < |c.cells| && c.cells[i] == Missing
  }

  predicate AllMissing(c: Column) {
    forall i :: 0 <= i < |c.cells| ==> c.cells[i] == Missing
  }

  /** Every cell is text or missing: what `str()` can render in this model. */
  predicate TextOnly(c: Column) {
    forall i :: 0 <= i < |c.cells| ==> !c.cells[i].Num?
  }

  /** Every `object` column of the frame holds text or missing cells only. */
  predicate ObjectsTextOnly(t: Table) {
    forall k :: 0 <= k < |t.cols| && t.cols[k].kind == Object ==> TextOnly(t.cols[k])
  }

  /** The number of missing cells, as `isna().sum()` counts them. */
  function CountMissing(cells: seq<Cell>): nat {
    if cells == [] then 0
    else (if cells[0] == Missing then 1 else 0) + CountMissing(cells[1..])
  }

  lemma {:induction false} CountMissingBounds(cells: seq<Cell>)
    ensures CountMissing(cells) <= |cells|
    ensures CountMissing(cells) == 0 <==> forall i :: 0 <= i < |cells| ==> cells[i] != Missing
  {
    if cells != [] {
      CountMissingBounds(cells[1..]);
      assert forall i :: 1 <= i < |cells| ==> cells[i] == cells[1..][i - 1];
    }
  }

  /** Row `i` of a frame, one cell per column. */
  function Row(t: Table, i: nat): (r: seq<Cell>)
    requires t.Valid() && i < t.rows
    ensures |r| == |t.cols|
    ensures forall k :: 0 <= k < |t.cols| ==> r[k] == t.cols[k].cells[i]
  {
    seq(|t.cols|, k requires 0 <= k < |t.cols| => t.cols[k].cells[i])
  }

  /** The step both insertion sorts share: putting the head back in front of
      the insertion of `x` into the tail gives the input plus `x`, and every
      element comes from the input or is `x`. */
  lemma ConsInsert<T>(s: seq<T>, x: T, rest: seq<T>)
    requires s != []
    requires multiset(rest) == multiset(s[1..]) + multiset{x}
    requires forall i :: 0 <= i < |rest| ==> rest[i] == x || rest[i] in s[1..]
    ensures multiset([s[0]] + rest) == multiset(s) + multiset{x}
    ensures forall i :: 0 <= i < |rest| + 1 ==> ([s[0]] + rest)[i] == x || ([s[0]] + rest)[i] in s
  {
    assert s == [s[0]] + s[1..];
    forall i | 0 <= i < |rest| + 1 ensures ([s[0]] + rest)[i] == x || ([s[0]] + rest)[i] in s {
      if i > 0 {
        assert ([s[0]] + rest)[i] == rest[i - 1];
      }
    }
  }
}
