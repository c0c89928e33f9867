/** The basic treatment (`treat_basic`): drop duplicate rows, coerce every
    `object` column, summarise the missing cells, fill them, and normalise
    yes/no labels, returning the treated frame and a report of the rows
    removed and the missing-value summary. */
module Pipeline {
  import opened Tables
  import opened Coerce
  import opened Dedup
  import opened Summary
  import opened Impute
  import opened YesNo

  /** The report: `duplicates_removed` and the `missing` summary. */
  datatype Report = Report(duplicatesRemoved: nat, missing: seq<MissingEntry>)

  /** What the treatment accepts in this model: a well-formed frame with
      distinct labels whose `object` columns hold text or missing cells. */
  predicate CanTreat(t: Table) {
    t.Valid() && UniqueNames(t) && ObjectsTextOnly(t)
  }

  /** Dropping duplicates keeps what the coercion asks of a frame. */
  lemma DeduplicatedCanCoerce(t: Table)
    requires CanTreat(t)
    ensures CanCoerce(Deduplicated(t), None)
  {
    var d := Deduplicated(t);
    if |t.cols| > 0 {
      var idx := FirstRows(t, t.rows);
      forall k | 0 <= k < |d.cols| && d.cols[k].kind == Object ensures TextOnly(d.cols[k]) {
        forall a | 0 <= a < |d.cols[k].cells| ensures !d.cols[k].cells[a].Num? {
          assert Row(d, a)[k] == Row(t, idx[a])[k];
        }
      }
    }
  }

  /** The frame after duplicates are dropped and columns coerced, the one the
      summary describes. */
  function CoercedStage(t: Table): (r: Table)
    requires CanTreat(t)
    ensures r.Valid() && r.rows == Deduplicated(t).rows && Names(r) == Names(t)
  {
    DeduplicatedCanCoerce(t);
    Coerced(Deduplicated(t), None)
  }

  /** The frame `treat_basic` returns. */
  function TreatedFrame(t: Table): Table
    requires CanTreat(t)
  {
    NormalizedYesNo(Filled(CoercedStage(t)))
  }

  /** The report `treat_basic` returns: the duplicates it counts are the rows
      the deduplicated frame lacks, and its summary has one line per column,
      in non-increasing order of share. */
  function TreatedReport(t: Table): (r: Report)
    requires CanTreat(t)
    ensures Deduplicated(t).rows + r.duplicatesRemoved == t.rows
    ensures |r.missing| == |t.cols| && Descending(r.missing)
  {
    Report(DuplicatesRemoved(t), SummarizeMissing(CoercedStage(t)))
  }

  /** `treat_basic`. */
  method TreatBasic(df: Table) returns (work: Table, report: Report)
    requires CanTreat(df)
    ensures work == TreatedFrame(df)
    ensures report == TreatedReport(df)
  {
    var dupCount := DuplicatesRemoved(df);
    work := Deduplicated(df);
    DeduplicatedCanCoerce(df);
    work := CoerceNumeric(work, None);
    var miss := SummarizeMissing(work);
    report := Report(dupCount, miss);
    work := FillMissing(work);
    work := NormalizeYesNo(work);
  }

  /** After coercion no `object` column holds a missing cell: every missing
      cell of a text column has become the text "nan". So the fill with
      "Desconhecido" never has anything to fill. */
  lemma CoercedObjectsComplete(t: Table)
    requires CanTreat(t)
    ensures var c := CoercedStage(t);
      forall k :: 0 <= k < |c.cols| && c.cols[k].kind == Object ==>
        !HasMissing(c.cols[k]) && FillColumn(c.cols[k]) == c.cols[k]
  {
    var d := Deduplicated(t);
    DeduplicatedCanCoerce(t);
    var c := CoercedStage(t);
    forall k | 0 <= k < |c.cols| && c.cols[k].kind == Object
      ensures !HasMissing(c.cols[k])
    {
      assert Targeted(d, None, k);
      CoercedTextHasNoMissing(d.cols[k]);
    }
  }

  /** What the treatment as a whole promises: the rows kept and the
      duplicates reported add up to the input rows, the labels and their
      order are kept, the frame stays well formed, and the only missing
      cells left are in numeric columns that have no value at all. */
  lemma TreatedProperties(t: Table)
    requires CanTreat(t)
    ensures var r := TreatedFrame(t);
      r.Valid()
      && r.rows + TreatedReport(t).duplicatesRemoved == t.rows
      && Names(r) == Names(t)
      && forall k :: 0 <= k < |r.cols| && HasMissing(r.cols[k]) ==>
           r.cols[k].kind == Numeric && AllMissing(r.cols[k])
  {
    var c := CoercedStage(t);
    var f := Filled(c);
    var r := TreatedFrame(t);
    assert TreatedReport(t).duplicatesRemoved == DuplicatesRemoved(t);
    FilledFrame(c);
    NormalizedFrame(f);
    forall k | 0 <= k < |r.cols| && HasMissing(r.cols[k])
      ensures r.cols[k].kind == Numeric && AllMissing(r.cols[k])
    {
      assert HasMissing(f.cols[k]);
      assert f.cols[k].kind == Numeric;
      assert r.cols[k] == f.cols[k];
    }
  }

  /** The report describes the coerced frame: one line per column, its
      missing count within the row count, in non-increasing order of share. */
  lemma ReportProperties(t: Table)
    requires CanTreat(t)
    ensures var rep := TreatedReport(t);
      var c := CoercedStage(t);
      |rep.missing| == |t.cols|
      && (forall k :: 0 <= k < |t.cols| ==> EntryOf(c.cols[k], c.rows) in rep.missing)
      && (forall e :: e in rep.missing ==> e.missing <= c.rows && exists k :: 0 <= k < |t.cols| && e.column == t.cols[k].name)
      && Descending(rep.missing)
  {
    var c := CoercedStage(t);
    SummaryLines(c);
    forall e | e in SummarizeMissing(c)
      ensures e.missing <= c.rows && exists k :: 0 <= k < |t.cols| && e.column == t.cols[k].name
    {
      var k :| 0 <= k < |c.cols| && e == EntryOf(c.cols[k], c.rows);
      CountMissingBounds(c.cols[k].cells);
      assert Names(c)[k] == Names(t)[k];
    }
  }
}
