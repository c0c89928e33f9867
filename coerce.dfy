/** Numeric coercion (`coerce_numeric`): each candidate column is rendered
    as text, rewritten from the Brazilian notation (`R$ 1.234,56`) to a plain
    decimal literal (`1234.56`), and becomes numeric when every rewritten
    cell parses; otherwise the column keeps the rewritten text. Nothing is
    ever raised to the caller. */
module Coerce {
  import opened Chars
  import opened Tables
  import opened Decimal

  /** `str()` of a text or missing cell: a missing marker renders as "nan". */
  function Render(c: Cell): string
    requires !c.Num?
  {
    if c.Str? then c.text else "nan"
  }

  /** The characters of the class `[R$\s]`: every `R`, every `$`, and whitespace. */
  predicate InCurrencyClass(ch: char) {
    ch == 'R' || ch == '$' || IsSpace(ch)
  }

  /** `str.replace(r"[R$\s]", "", regex=True)`. */
  function DropCurrencyClass(s: string): string {
    if s == [] then []
    else (if InCurrencyClass(s[0]) then [] else [s[0]]) + DropCurrencyClass(s[1..])
  }

  /** The three rewriting steps, in the source's order: delete `[R$\s]`,
      delete every `.`, turn every `,` into `.`. */
  function Rewrite(s: string): string {
    Replace(Replace(DropCurrencyClass(s), '.', ""), ',', ".")
  }

  /** What the three steps together do to one character. */
  function RewriteChar(ch: char): string {
    if InCurrencyClass(ch) || ch == '.' then ""
    else if ch == ',' then "."
    else [ch]
  }

  /** An independent one-pass definition of the rewriting. */
  function RewriteEach(s: string): string {
    if s == [] then [] else RewriteChar(s[0]) + RewriteEach(s[1..])
  }

  lemma {:induction false} DropCurrencyClassAppend(a: string, b: string)
    ensures DropCurrencyClass(a + b) == DropCurrencyClass(a) + DropCurrencyClass(b)
  {
    if a == [] {
      assert a + b == b;
    } else {
      assert (a + b)[1..] == a[1..] + b;
      DropCurrencyClassAppend(a[1..], b);
    }
  }

  lemma {:induction false} RewriteEachAppend(a: string, b: string)
    ensures RewriteEach(a + b) == RewriteEach(a) + RewriteEach(b)
  {
    if a == [] {
      assert a + b == b;
    } else {
      assert (a + b)[1..] == a[1..] + b;
      RewriteEachAppend(a[1..], b);
    }
  }

  /** The three passes of the source do exactly what the one-pass definition
      does, character by character. */
  lemma {:induction false} RewriteSinglePass(s: string)
    ensures Rewrite(s) == RewriteEach(s)
  {
    if s != [] {
      RewriteSinglePass(s[1..]);
      var head := if InCurrencyClass(s[0]) then [] else [s[0]];
      var rest := DropCurrencyClass(s[1..]);
      assert DropCurrencyClass(s) == head + rest;
      ReplaceAppend(head, rest, '.', "");
      var head2 := Replace(head, '.', "");
      var rest2 := Replace(rest, '.', "");
      ReplaceAppend(head2, rest2, ',', ".");
      if head != [] {
        assert head[1..] == [];
        assert Replace(head[1..], '.', "") == [];
        if s[0] != '.' {
          assert head2 == [s[0]];
          assert head2[1..] == [];
          assert Replace(head2[1..], ',', ".") == [];
        }
      }
    }
  }

  /** After rewriting, no `R`, `$`, whitespace or `,` is left. */
  lemma {:induction false} RewriteOutput(s: string)
    ensures forall i :: 0 <= i < |Rewrite(s)| ==>
      var c := Rewrite(s)[i]; c != 'R' && c != '$' && !IsSpace(c) && c != ','
  {
    var d := DropCurrencyClass(s);
    assert forall c :: c in d ==> !InCurrencyClass(c) by {
      DropCurrencyClassOutput(s);
    }
    ReplaceChars(d, '.', "");
    ReplaceChars(Replace(d, '.', ""), ',', ".");
    forall i | 0 <= i < |Rewrite(s)|
      ensures var c := Rewrite(s)[i]; c != 'R' && c != '$' && !IsSpace(c) && c != ','
    {
      assert Rewrite(s)[i] in Rewrite(s);
    }
  }

  lemma {:induction false} DropCurrencyClassOutput(s: string)
    ensures forall c :: c in DropCurrencyClass(s) ==> !InCurrencyClass(c)
  {
    if s != [] {
      DropCurrencyClassOutput(s[1..]);
    }
  }

  /** A string that holds none of the rewritten characters is left as it is;
      in particular plain digit strings are. */
  lemma {:induction false} RewriteIdentity(s: string)
    requires forall i :: 0 <= i < |s| ==> !InCurrencyClass(s[i]) && s[i] != '.' && s[i] != ','
    ensures Rewrite(s) == s
  {
    RewriteSinglePass(s);
    RewriteEachIdentity(s);
  }

  lemma {:induction false} RewriteEachIdentity(s: string)
    requires forall i :: 0 <= i < |s| ==> !InCurrencyClass(s[i]) && s[i] != '.' && s[i] != ','
    ensures RewriteEach(s) == s
  {
    if s != [] {
      RewriteEachIdentity(s[1..]);
      assert [s[0]] + s[1..] == s;
    }
  }

  /** `pd.to_numeric` on one rewritten cell, as modelled: the empty string is
      read as missing, a decimal literal as its number, anything else fails. */
  function ParseCell(s: string): Option<Cell> {
    if s == "" then Some(Missing)
    else match ParseDecimal(s)
      case Some(v) => Some(Num(v))
      case None => None
  }

  /** A cell text parses exactly when it is empty (read as missing) or a
      decimal literal; only the empty text is read as missing. */
  lemma ParseCellIff(s: string)
    ensures ParseCell(s).Some? <==> s == "" || DecimalLiteral(s)
    ensures ParseCell(s) == Some(Missing) <==> s == ""
  {
    ParseDecimalIff(s);
  }

  /** The rewritten text of every cell of a column. */
  function Rewritten(c: Column): (r: seq<string>)
    requires TextOnly(c)
    ensures |r| == |c.cells|
  {
    seq(|c.cells|, i requires 0 <= i < |c.cells| => Rewrite(Render(c.cells[i])))
  }

  predicate AllParse(texts: seq<string>) {
    forall i :: 0 <= i < |texts| ==> ParseCell(texts[i]).Some?
  }

  /** One iteration of the coercion loop: the rewritten column, parsed as a
      whole when every cell parses, otherwise kept as the rewritten text. */
  function CoerceColumn(c: Column): (r: Column)
    requires TextOnly(c)
    ensures r.name == c.name && |r.cells| == |c.cells| && r.Valid()
  {
    var texts := Rewritten(c);
    if AllParse(texts) then
      Column(c.name, Numeric, seq(|texts|, i requires 0 <= i < |texts| => ParseCell(texts[i]).value))
    else
      Column(c.name, Object, seq(|texts|, i requires 0 <= i < |texts| => Str(texts[i])))
  }

  /** A candidate column turns numeric exactly when every rewritten cell
      parses, and then holds the parsed values; otherwise it holds the
      rewritten strings, not the original ones. */
  lemma CoerceColumnOutcome(c: Column)
    requires TextOnly(c)
    ensures var r := CoerceColumn(c);
      (r.kind == Numeric <==> forall i :: 0 <= i < |c.cells| ==> ParseCell(Rewrite(Render(c.cells[i]))).Some?)
      && (r.kind == Numeric ==> forall i :: 0 <= i < |c.cells| ==>
            r.cells[i] == ParseCell(Rewrite(Render(c.cells[i]))).value)
      && (r.kind == Object ==> forall i :: 0 <= i < |c.cells| ==>
            r.cells[i] == Str(Rewrite(Render(c.cells[i]))))
  {
    var texts := Rewritten(c);
    assert forall i :: 0 <= i < |c.cells| ==> texts[i] == Rewrite(Render(c.cells[i]));
  }

  /** A column that stays text holds no missing marker: a missing cell has
      become the literal text "nan". */
  lemma CoercedTextHasNoMissing(c: Column)
    requires TextOnly(c)
    ensures CoerceColumn(c).kind == Object ==>
      forall i :: 0 <= i < |c.cells| ==> CoerceColumn(c).cells[i].Str?
    ensures forall i :: 0 <= i < |c.cells| && c.cells[i] == Missing ==>
      CoerceColumn(c) == Column(c.name, Object, CoerceColumn(c).cells) && CoerceColumn(c).cells[i] == Str("nan")
  {
    var texts := Rewritten(c);
    NanStaysText();
    forall i | 0 <= i < |c.cells| && c.cells[i] == Missing
      ensures !AllParse(texts) && texts[i] == "nan"
    {
      assert Render(c.cells[i]) == "nan";
      assert ParseCell(texts[i]).None?;
    }
  }

  /** The text "nan" survives the rewriting and does not parse. */
  lemma NanStaysText()
    ensures Rewrite("nan") == "nan" && ParseCell("nan").None?
  {
    LettersUnchanged("nan");
  }

  /** A text column of plain natural numbers becomes the numeric column of
      those numbers. */
  lemma CoerceNaturals(name: string, ns: seq<nat>)
    ensures var c := Column(name, Object, seq(|ns|, i requires 0 <= i < |ns| => Str(NatText(ns[i]))));
      TextOnly(c) &&
      CoerceColumn(c) == Column(name, Numeric, seq(|ns|, i requires 0 <= i < |ns| => Num(ns[i] as real)))
  {
    var c := Column(name, Object, seq(|ns|, i requires 0 <= i < |ns| => Str(NatText(ns[i]))));
    var texts := Rewritten(c);
    forall i | 0 <= i < |ns| ensures ParseCell(texts[i]) == Some(Num(ns[i] as real)) {
      var s := NatText(ns[i]);
      assert forall j :: 0 <= j < |s| ==> !InCurrencyClass(s[j]) && s[j] != '.' && s[j] != ',';
      RewriteIdentity(s);
      NatTextRoundTrip(ns[i]);
    }
  }

  /** `<digits>.<digits>,<digits>`, with a thousands separator and a decimal
      comma, becomes `<digits><digits>.<digits>`, character by character. */
  lemma RewriteEachThousands(whole: string, group: string, frac: string)
    requires AllDigits(whole) && AllDigits(group) && AllDigits(frac)
    ensures RewriteEach(whole + ("." + (group + ("," + frac)))) == whole + (group + ("." + frac))
  {
    var t4 := "," + frac;
    var t3 := group + t4;
    var t2 := "." + t3;
    var t1 := whole + t2;
    assert RewriteEach(t4) == "." + frac by {
      assert RewriteEach(",") == ".";
      RewriteEachIdentity(frac);
      RewriteEachAppend(",", frac);
    }
    assert RewriteEach(t3) == group + ("." + frac) by {
      RewriteEachIdentity(group);
      RewriteEachAppend(group, t4);
    }
    assert RewriteEach(t2) == group + ("." + frac) by {
      assert RewriteEach(".") == "";
      RewriteEachAppend(".", t3);
    }
    assert RewriteEach(t1) == whole + (group + ("." + frac)) by {
      RewriteEachIdentity(whole);
      RewriteEachAppend(whole, t2);
    }
  }

  /** The source's three passes turn `<digits>.<digits>,<digits>` into
      `<digits><digits>.<digits>`. */
  lemma RewriteThousands(whole: string, group: string, frac: string)
    requires AllDigits(whole) && AllDigits(group) && AllDigits(frac)
    ensures Rewrite(whole + ("." + (group + ("," + frac)))) == (whole + group) + ("." + frac)
  {
    RewriteEachThousands(whole, group, frac);
    RewriteSinglePass(whole + ("." + (group + ("," + frac))));
    assert whole + (group + ("." + frac)) == (whole + group) + ("." + frac);
  }

  /** An amount in the Brazilian notation, `R$ <digits>.<digits>,<digits>`,
      is rewritten to the plain literal `<digits><digits>.<digits>`. */
  lemma RewriteLocalizedAmount(whole: string, group: string, frac: string)
    requires AllDigits(whole) && AllDigits(group) && AllDigits(frac)
    ensures Rewrite("R$ " + (whole + ("." + (group + ("," + frac))))) == (whole + group) + ("." + frac)
  {
    var t1 := whole + ("." + (group + ("," + frac)));
    RewriteEachThousands(whole, group, frac);
    assert RewriteEach("R$ " + t1) == RewriteEach(t1) by {
      assert RewriteEach("R$ ") == "" by {
        assert RewriteEach(" ") == "";
        assert RewriteEach("$ ") == "";
      }
      RewriteEachAppend("R$ ", t1);
    }
    RewriteSinglePass("R$ " + t1);
    assert whole + (group + ("." + frac)) == (whole + group) + ("." + frac);
  }

  /** For the cell text `"R$ 1.234,56"` the rewritten text is `"1234.56"`. */
  lemma RewriteCurrencyExample(s: string)
    requires s == "R$ 1.234,56"
    ensures Rewrite(s) == "1234.56"
  {
    assert s == "R$ " + ("1" + ("." + ("234" + ("," + "56"))));
    RewriteLocalizedAmount("1", "234", "56");
    assert ("1" + "234") + ("." + "56") == "1234.56";
  }

  /** Every upper-case `R` is deleted, not only the `R$` prefix: the cell
      text `"Rio"` is rewritten to `"io"`. */
  lemma RewriteDropsEveryR(s: string)
    requires s == "Rio"
    ensures Rewrite(s) == "io"
  {
    assert s == "R" + "io";
    assert RewriteEach("R") == "";
    RewriteEachIdentity("io");
    RewriteEachAppend("R", "io");
    RewriteSinglePass(s);
  }

  /** A decimal literal with a fractional part denotes its integer part plus
      its fraction. */
  lemma ParseFraction(whole: string, frac: string)
    requires |whole| > 0 && AllDigits(whole) && AllDigits(frac)
    ensures ParseCell(whole + ("." + frac)) == Some(Num(DecimalValue(whole, frac)))
  {
    var s := whole + ("." + frac);
    UnsignedFraction(whole, frac);
    assert s[0] == whole[0];
    assert |s| > 0;
  }

  /** A cell in thousands-and-decimal-comma notation parses to its value. */
  lemma ThousandsCell(whole: string, group: string, frac: string)
    requires |whole| > 0 && AllDigits(whole) && AllDigits(group) && AllDigits(frac)
    ensures AllDigits(whole + group)
    ensures ParseCell(Rewrite(whole + ("." + (group + ("," + frac)))))
         == Some(Num(DecimalValue(whole + group, frac)))
  {
    RewriteThousands(whole, group, frac);
    assert AllDigits(whole + group);
    ParseFraction(whole + group, frac);
  }

  /** Lower-case ASCII letters other than the parse's own are kept by the
      rewriting and reject the parse. */
  lemma LettersUnchanged(s: string)
    requires |s| > 0 && forall i :: 0 <= i < |s| ==> 'a' <= s[i] <= 'z'
    ensures Rewrite(s) == s && ParseCell(s).None?
  {
    RewriteIdentity(s);
    RejectsForeignChar(s, 0);
  }

  /** The text of an amount with a thousands separator and a decimal comma. */
  function Amount(whole: string, group: string, frac: string): string {
    whole + ("." + (group + ("," + frac)))
  }

  /** A column of amounts such as `["1.234,56", "2.000,00"]` becomes the numeric
      column of their values, `[1234.56, 2000.0]`. */
  lemma CoerceAmounts(c: Column, parts: seq<(string, string, string)>)
    requires |parts| == |c.cells|
    requires forall i :: 0 <= i < |parts| ==>
      |parts[i].0| > 0 && AllDigits(parts[i].0) && AllDigits(parts[i].1) && AllDigits(parts[i].2)
      && c.cells[i] == Str(Amount(parts[i].0, parts[i].1, parts[i].2))
    ensures TextOnly(c)
    ensures CoerceColumn(c).kind == Numeric
    ensures forall i :: 0 <= i < |parts| ==>
      AllDigits(parts[i].0 + parts[i].1)
      && CoerceColumn(c).cells[i] == Num(DecimalValue(parts[i].0 + parts[i].1, parts[i].2))
  {
    forall i | 0 <= i < |parts|
      ensures AllDigits(parts[i].0 + parts[i].1)
      ensures ParseCell(Rewrite(Render(c.cells[i])))
           == Some(Num(DecimalValue(parts[i].0 + parts[i].1, parts[i].2)))
    {
      ThousandsCell(parts[i].0, parts[i].1, parts[i].2);
    }
    CoerceColumnOutcome(c);
  }

  /** The one-cell column `["Rio"]` does not become numeric, yet it does not
      keep its text either: it becomes `["io"]`. */
  lemma CoerceRioExample(name: string)
    ensures CoerceColumn(Column(name, Object, [Str("Rio")])) == Column(name, Object, [Str("io")])
  {
    var c := Column(name, Object, [Str("Rio")]);
    var texts := Rewritten(c);
    RioCell();
    assert texts[0] == "io";
    assert !AllParse(texts);
    assert CoerceColumn(c).cells == [Str("io")];
  }

  lemma RioCell()
    ensures Rewrite(Render(Str("Rio"))) == "io" && ParseCell("io").None?
  {
    RewriteDropsEveryR("Rio");
    LettersUnchanged("io");
  }

  /** A column of lower-case words such as `["abc", "def"]` stays text and is
      left exactly as it was. */
  lemma CoerceWordsUnchanged(c: Column)
    requires |c.cells| > 0
    requires forall i :: 0 <= i < |c.cells| ==>
      c.cells[i].Str? && |c.cells[i].text| > 0
      && forall j :: 0 <= j < |c.cells[i].text| ==> 'a' <= c.cells[i].text[j] <= 'z'
    ensures TextOnly(c)
    ensures CoerceColumn(c) == Column(c.name, Object, c.cells)
  {
    var r := CoerceColumn(c);
    forall i | 0 <= i < |c.cells|
      ensures Rewrite(Render(c.cells[i])) == c.cells[i].text
      ensures ParseCell(c.cells[i].text).None?
    {
      LettersUnchanged(c.cells[i].text);
    }
    assert ParseCell(Rewrite(Render(c.cells[0]))).None?;
    CoerceColumnOutcome(c);
    assert r.kind == Object;
    assert r.cells == c.cells;
  }

  /** `candidates` of `coerce_numeric`: `None` selects every `object` column;
      an explicit list selects each listed name that labels exactly one column
      (an absent name raises `KeyError` and a repeated label yields a frame
      without `.str`; both are swallowed by the `except`). */
  predicate Targeted(t: Table, candidates: Option<seq<string>>, k: nat)
    requires k < |t.cols|
  {
    match candidates
    case None => t.cols[k].kind == Object
    case Some(names) =>
      t.cols[k].name in names
      && forall j :: 0 <= j < |t.cols| && j != k ==> t.cols[j].name != t.cols[k].name
  }

  /** What the coercion can be asked to do in this model. With no candidate
      list the source itself raises on repeated labels (`work[c].dtype` on a
      sub-frame). Every targeted column holds text or missing cells, since
      `str()` of a number is not modelled, and a listed name is listed once. */
  predicate CanCoerce(t: Table, candidates: Option<seq<string>>) {
    t.Valid()
    && (candidates.None? ==> UniqueNames(t))
    && (candidates.Some? ==> forall i, j :: 0 <= i < j < |candidates.value| ==>
          candidates.value[i] != candidates.value[j])
    && forall k :: 0 <= k < |t.cols| && Targeted(t, candidates, k) ==> TextOnly(t.cols[k])
  }

  /** The frame `coerce_numeric` returns. */
  function Coerced(t: Table, candidates: Option<seq<string>>): (r: Table)
    requires CanCoerce(t, candidates)
    ensures r.Valid() && r.rows == t.rows && Names(r) == Names(t)
  {
    var cols := seq(|t.cols|, k requires 0 <= k < |t.cols| =>
      if Targeted(t, candidates, k) then CoerceColumn(t.cols[k]) else t.cols[k]);
    assert Names(Table(t.rows, cols)) == Names(t);
    Table(t.rows, cols)
  }

  /** `coerce_numeric`: copies the frame and reassigns each candidate column
      in turn. Columns are visited in frame order; since each candidate labels
      exactly one column and columns do not depend on each other, this is the
      order-independent effect of the source's loop over candidate names. */
  method CoerceNumeric(df: Table, candidates: Option<seq<string>>) returns (work: Table)
    requires CanCoerce(df, candidates)
    ensures work == Coerced(df, candidates)
  {
    work := df;
    var k := 0;
    while k < |df.cols|
      invariant 0 <= k <= |df.cols|
      invariant work.rows == df.rows && |work.cols| == |df.cols|
      invariant forall j :: 0 <= j < k ==> work.cols[j] == Coerced(df, candidates).cols[j]
      invariant forall j :: k <= j < |df.cols| ==> work.cols[j] == df.cols[j]
    {
      if Targeted(df, candidates, k) {
        work := work.(cols := work.cols[k := CoerceColumn(work.cols[k])]);
      }
      k := k + 1;
    }
  }

  /** With no candidate list, only `object` columns are touched: every
      numeric column, the row count, the names and the column order stay as
      they were, and every `object` column is coerced. */
  lemma CoerceDefaultTouchesOnlyObjects(t: Table)
    requires CanCoerce(t, None)
    ensures var r := Coerced(t, None);
      r.rows == t.rows && |r.cols| == |t.cols|
      && (forall k :: 0 <= k < |t.cols| ==> r.cols[k].name == t.cols[k].name)
      && (forall k :: 0 <= k < |t.cols| && t.cols[k].kind == Numeric ==> r.cols[k] == t.cols[k])
      && (forall k :: 0 <= k < |t.cols| && t.cols[k].kind == Object ==> r.cols[k] == CoerceColumn(t.cols[k]))
  {
    var r := Coerced(t, None);
    assert forall k :: 0 <= k < |t.cols| ==> Names(r)[k] == r.cols[k].name;
  }
}
