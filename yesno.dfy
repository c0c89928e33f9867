/** The yes/no label normalisation of the basic treatment: an `object`
    column in which at least one text cell is one of the nine yes/no labels
    has every such cell replaced by 1 or 0 (`map` followed by `fillna` with
    the original column); all other cells are kept. The column ends up
    numeric when no text is left in it, and stays `object` otherwise. */
module YesNo {
  import opened Tables

  /** `yes_no_map`: "Sim", "Não", "Yes", "No", "Y", "N", "S", "NÃO", "NAO". */
  const Labels: map<string, real> := map[
    "Sim" := 1.0, "N\U{E3}o" := 0.0, "Yes" := 1.0, "No" := 0.0, "Y" := 1.0,
    "N" := 0.0, "S" := 1.0, "N\U{C3}O" := 0.0, "NAO" := 0.0]

  /** A text cell holding one of the labels. */
  predicate IsLabel(c: Cell) {
    c.Str? && c.text in Labels
  }

  /** The column test of the source: some present value, rendered as text,
      is a label. A rendered number is never a label. */
  predicate MentionsLabel(c: Column) {
    exists i :: 0 <= i < |c.cells| && IsLabel(c.cells[i])
  }

  /** `map(yes_no_map).fillna(original)` on one cell: a label becomes 1 or 0,
      anything else is kept. */
  function MapCell(c: Cell): (r: Cell)
    ensures IsLabel(c) ==> r == Num(Labels[c.text]) && (r.value == 0.0 || r.value == 1.0)
    ensures !IsLabel(c) ==> r == c
  {
    if IsLabel(c) then Num(Labels[c.text]) else c
  }

  /** One iteration of the normalisation loop. Numeric columns and columns
      without a label are left alone; otherwise each label cell becomes its
      number, every other cell is kept, and the column is numeric exactly
      when no text is left. */
  function MapYesNoColumn(c: Column): (r: Column)
    ensures r.name == c.name && |r.cells| == |c.cells| && (c.Valid() ==> r.Valid())
    ensures c.kind == Numeric || !MentionsLabel(c) ==> r == c
    ensures c.kind == Object && MentionsLabel(c) ==>
      (forall i :: 0 <= i < |c.cells| && IsLabel(c.cells[i]) ==>
         r.cells[i] == Num(Labels[c.cells[i].text]))
      && (forall i :: 0 <= i < |c.cells| && !IsLabel(c.cells[i]) ==> r.cells[i] == c.cells[i])
      && (r.kind == Numeric <==> forall i :: 0 <= i < |c.cells| ==> IsLabel(c.cells[i]) || !c.cells[i].Str?)
  {
    if c.kind != Object || !MentionsLabel(c) then c
    else
      var cells := seq(|c.cells|, i requires 0 <= i < |c.cells| => MapCell(c.cells[i]));
      var kind := if forall i :: 0 <= i < |cells| ==> !cells[i].Str? then Numeric else Object;
      Column(c.name, kind, cells)
  }

  /** The labels are matched exactly: "sim" and "nao" in lower case are not
      labels, so a column holding only them is left as text. */
  lemma LabelsAreCaseSensitive(c: Column)
    requires c.kind == Object
    requires forall i :: 0 <= i < |c.cells| ==> c.cells[i] == Str("sim") || c.cells[i] == Str("nao")
    ensures MapYesNoColumn(c) == c
  {
    assert "sim" !in Labels && "nao" !in Labels;
  }

  /** `["Sim", "Não"]` becomes the numeric column `[1, 0]`. */
  lemma SimNaoExample(c: Column)
    requires c == Column("churn", Object, [Str("Sim"), Str("N\U{E3}o")])
    ensures MapYesNoColumn(c) == Column("churn", Numeric, [Num(1.0), Num(0.0)])
  {
    assert IsLabel(c.cells[0]) && IsLabel(c.cells[1]);
    assert MentionsLabel(c);
  }

  /** `["Sim", "Talvez"]` keeps its unmapped text and stays `object`, with the
      label replaced by its number. */
  lemma MixedExample(c: Column)
    requires c == Column("churn", Object, [Str("Sim"), Str("Talvez")])
    ensures MapYesNoColumn(c) == Column("churn", Object, [Num(1.0), Str("Talvez")])
  {
    assert IsLabel(c.cells[0]) && !IsLabel(c.cells[1]);
    assert MentionsLabel(c);
    var cells := seq(|c.cells|, i requires 0 <= i < |c.cells| => MapCell(c.cells[i]));
    assert cells[1].Str?;
    assert cells == [Num(1.0), Str("Talvez")];
  }

  /** Normalising a column twice is the same as normalising it once: no label
      is left after the first pass. */
  lemma MapYesNoIdempotent(c: Column)
    ensures MapYesNoColumn(MapYesNoColumn(c)) == MapYesNoColumn(c)
  {
    var r := MapYesNoColumn(c);
    if c.kind == Object && MentionsLabel(c) {
      assert !MentionsLabel(r);
    }
  }

  /** The frame the normalisation loop leaves. */
  function NormalizedYesNo(t: Table): Table {
    Table(t.rows, seq(|t.cols|, k requires 0 <= k < |t.cols| => MapYesNoColumn(t.cols[k])))
  }

  /** The yes/no loop of the basic treatment, column by column. */
  method NormalizeYesNo(t: Table) returns (r: Table)
    ensures r == NormalizedYesNo(t)
  {
    r := t;
    var k := 0;
    while k < |t.cols|
      invariant 0 <= k <= |t.cols|
      invariant r.rows == t.rows && |r.cols| == |t.cols|
      invariant forall j :: 0 <= j < k ==> r.cols[j] == MapYesNoColumn(t.cols[j])
      invariant forall j :: k <= j < |t.cols| ==> r.cols[j] == t.cols[j]
    {
      var c := r.cols[k];
      if c.kind == Object && MentionsLabel(c) {
        var cells := seq(|c.cells|, i requires 0 <= i < |c.cells| => MapCell(c.cells[i]));
        var kind := if forall i :: 0 <= i < |cells| ==> !cells[i].Str? then Numeric else Object;
        c := Column(c.name, kind, cells);
      }
      r := r.(cols := r.cols[k := c]);
      k := k + 1;
    }
  }

  /** The normalisation keeps the frame well formed, its labels and its row
      count, and neither adds nor removes missing cells. */
  lemma NormalizedFrame(t: Table)
    requires t.Valid()
    ensures var r := NormalizedYesNo(t);
      r.Valid() && r.rows == t.rows && Names(r) == Names(t)
      && forall k :: 0 <= k < |t.cols| ==> (HasMissing(r.cols[k]) <==> HasMissing(t.cols[k]))
  {
    var r := NormalizedYesNo(t);
    forall k | 0 <= k < |t.cols|
      ensures r.cols[k].name == t.cols[k].name
      ensures |r.cols[k].cells| == r.rows && r.cols[k].Valid()
      ensures HasMissing(r.cols[k]) <==> HasMissing(t.cols[k])
    {
      var c := t.cols[k];
      if c.kind == Object && MentionsLabel(c) {
        assert forall i :: 0 <= i < |c.cells| ==> (r.cols[k].cells[i] == Missing <==> c.cells[i] == Missing);
      }
    }
  }
}
