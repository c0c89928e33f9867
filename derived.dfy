/** The derived daily-charge column (`create_contas_diarias`): when the
    monthly column exists, the column "contas_diarias" is set to the monthly
    amount over 30, replacing a column of that name in place or else
    appended as the last column; otherwise the frame is returned as it is. */
module Derived {
  import opened Tables

  /** The outcome of an operation that may raise. */
  datatype Result<T> = Ok(value: T) | Failure(error: string)

  const DailyName := "contas_diarias"
  const DefaultMonthly := "monthlycharges"
  const DaysPerMonth := 30.0

  /** The position of the column labelled `name`, if any. */
  function IndexOf(t: Table, name: string): (r: Option<nat>)
    ensures r.None? <==> forall k :: 0 <= k < |t.cols| ==> t.cols[k].name != name
    ensures r.Some? ==>
      r.value < |t.cols| && t.cols[r.value].name == name
      && forall k :: 0 <= k < r.value ==> t.cols[k].name != name
    decreases |t.cols|
  {
    if |t.cols| == 0 then None
    else if t.cols[0].name == name then Some(0)
    else match IndexOf(Table(t.rows, t.cols[1..]), name)
      case None => None
      case Some(k) => Some(k + 1)
  }

  /** With unique labels, a column is found at its own position. */
  lemma IndexOfUnique(t: Table, name: string, d: nat)
    requires UniqueNames(t) && d < |t.cols| && t.cols[d].name == name
    ensures IndexOf(t, name) == Some(d)
  {
  }

  /** Division of one cell by 30; a text cell makes the division raise. */
  function DailyCell(c: Cell): (r: Cell)
    requires !c.Str?
    ensures c == Missing <==> r == Missing
    ensures c.Num? ==> r.Num? && r.value * DaysPerMonth == c.value
  {
    if c.Num? then Num(c.value / DaysPerMonth) else Missing
  }

  predicate HasText(c: Column) {
    exists i :: 0 <= i < |c.cells| && c.cells[i].Str?
  }

  /** `work[monthly_col] / 30.0`, labelled "contas_diarias". */
  function DailyColumn(c: Column): (r: Result<Column>)
    ensures r.Failure? <==> HasText(c)
    ensures r.Ok? ==>
      r.value.name == DailyName && r.value.kind == c.kind
      && |r.value.cells| == |c.cells| && (c.Valid() ==> r.value.Valid())
      && forall i :: 0 <= i < |c.cells| ==>
           (r.value.cells[i] == Missing <==> c.cells[i] == Missing)
           && (c.cells[i].Num? ==>
                 r.value.cells[i].Num? && r.value.cells[i].value * DaysPerMonth == c.cells[i].value)
  {
    if HasText(c) then Failure("TypeError: unsupported operand type(s) for /: 'str' and 'float'")
    else Ok(Column(DailyName, c.kind, seq(|c.cells|, i requires 0 <= i < |c.cells| => DailyCell(c.cells[i]))))
  }

  /** `create_contas_diarias`: the frame with the daily column set, the frame
      itself when the monthly column is absent, or the error the division
      raises on text. */
  function CreateContasDiarias(t: Table, monthly: string): (r: Result<Table>)
    requires t.Valid() && UniqueNames(t)
    ensures IndexOf(t, monthly).None? ==> r == Ok(t)
    ensures r.Failure? <==> IndexOf(t, monthly).Some? && HasText(t.cols[IndexOf(t, monthly).value])
    ensures r.Ok? ==> r.value.Valid() && UniqueNames(r.value) && r.value.rows == t.rows
    ensures r.Ok? && IndexOf(t, monthly).Some? ==>
      var d := IndexOf(r.value, DailyName);
      d.Some?
      && r.value.cols[d.value] == DailyColumn(t.cols[IndexOf(t, monthly).value]).value
      && (IndexOf(t, DailyName).Some? ==> |r.value.cols| == |t.cols| && d == IndexOf(t, DailyName))
      && (IndexOf(t, DailyName).None? ==> |r.value.cols| == |t.cols| + 1 && d.value == |t.cols|)
      && forall k :: 0 <= k < |t.cols| && k != d.value ==> r.value.cols[k] == t.cols[k]
  {
    match IndexOf(t, monthly)
    case None => Ok(t)
    case Some(m) =>
      match DailyColumn(t.cols[m])
      case Failure(e) => Failure(e)
      case Ok(daily) =>
        match IndexOf(t, DailyName)
        case Some(d) =>
          var r := t.(cols := t.cols[d := daily]);
          ReplacedDaily(t, d, daily);
          Ok(r)
        case None =>
          var r := t.(cols := t.cols + [daily]);
          AppendedDaily(t, daily);
          Ok(r)
  }

  lemma ReplacedDaily(t: Table, d: nat, daily: Column)
    requires t.Valid() && UniqueNames(t) && d < |t.cols| && t.cols[d].name == DailyName
    requires daily.name == DailyName && |daily.cells| == t.rows && daily.Valid()
    ensures var r := t.(cols := t.cols[d := daily]);
      r.Valid() && UniqueNames(r) && IndexOf(r, DailyName) == Some(d)
  {
    var r := t.(cols := t.cols[d := daily]);
    assert UniqueNames(r) by {
      assert forall k :: 0 <= k < |t.cols| ==> r.cols[k].name == t.cols[k].name;
    }
    IndexOfUnique(r, DailyName, d);
  }

  lemma AppendedDaily(t: Table, daily: Column)
    requires t.Valid() && UniqueNames(t) && IndexOf(t, DailyName).None?
    requires daily.name == DailyName && |daily.cells| == t.rows && daily.Valid()
    ensures var r := t.(cols := t.cols + [daily]);
      r.Valid() && UniqueNames(r) && IndexOf(r, DailyName) == Some(|t.cols|)
  {
    var r := t.(cols := t.cols + [daily]);
    assert UniqueNames(r) by {
      assert forall k :: 0 <= k < |t.cols| ==> r.cols[k] == t.cols[k];
    }
    IndexOfUnique(r, DailyName, |t.cols|);
  }

  /** Computing the daily column a second time changes nothing, provided the
      monthly column is not the daily column itself. */
  lemma CreateContasDiariasIdempotent(t: Table, monthly: string)
    requires t.Valid() && UniqueNames(t) && monthly != DailyName
    requires CreateContasDiarias(t, monthly).Ok?
    ensures CreateContasDiarias(CreateContasDiarias(t, monthly).value, monthly)
         == CreateContasDiarias(t, monthly)
  {
    var r := CreateContasDiarias(t, monthly).value;
    if IndexOf(t, monthly).Some? {
      var m := IndexOf(t, monthly).value;
      var d := IndexOf(r, DailyName).value;
      var daily := DailyColumn(t.cols[m]).value;
      assert m != d && r.cols[m] == t.cols[m];
      IndexOfUnique(r, monthly, m);
      assert r.cols[d] == daily;
      assert r.cols[d := daily] == r.cols;
    }
  }

  /** A monthly charge of 90 gives a daily charge of 3. */
  lemma NinetyExample(t: Table)
    requires t == Table(1, [Column(DefaultMonthly, Numeric, [Num(90.0)])])
    ensures CreateContasDiarias(t, DefaultMonthly)
         == Ok(Table(1, [Column(DefaultMonthly, Numeric, [Num(90.0)]), Column(DailyName, Numeric, [Num(3.0)])]))
  {
    assert IndexOf(t, DefaultMonthly) == Some(0);
    assert IndexOf(t, DailyName) == None;
    var daily := Column(DailyName, Numeric, [Num(3.0)]);
    var c := t.cols[0];
    assert !HasText(c);
    assert seq(|c.cells|, i requires 0 <= i < |c.cells| => DailyCell(c.cells[i])) == [Num(3.0)];
    assert DailyColumn(c) == Ok(daily);
    assert t.cols + [daily] == [Column(DefaultMonthly, Numeric, [Num(90.0)]), daily];
  }
}
