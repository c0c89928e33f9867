/** The column-name standardizer (`standardize_columns`): every name is
    stripped, each run of whitespace becomes `_`, `%` becomes `pct`, `$`
    becomes `dolar`, and the result is lower-cased. Data, kinds and column
    order are untouched; nothing guards against two names colliding. */
module Standardize {
  import opened Chars
  import opened Tables

  /** Drops leading whitespace. */
  function TrimStart(s: string): (r: string)
    ensures |r| <= |s| && r == s[|s| - |r|..]
    ensures r == [] || !IsSpace(r[0])
    ensures |s| > 0 && IsSpace(s[0]) ==> |r| < |s|
  {
    if |s| > 0 && IsSpace(s[0]) then TrimStart(s[1..]) else s
  }

  /** What `lstrip` drops is whitespace only. */
  lemma {:induction false} TrimStartDropsSpace(s: string)
    ensures forall i :: 0 <= i < |s| - |TrimStart(s)| ==> IsSpace(s[i])
  {
    if |s| > 0 && IsSpace(s[0]) {
      var rest := s[1..];
      TrimStartDropsSpace(rest);
      forall i | 1 <= i < |s| - |TrimStart(rest)| ensures IsSpace(s[i]) {
        assert s[i] == rest[i - 1];
      }
    }
  }

  /** Drops trailing whitespace. */
  function TrimEnd(s: string): (r: string)
    ensures |r| <= |s| && r == s[..|r|]
    ensures r == [] || !IsSpace(r[|r| - 1])
  {
    if |s| > 0 && IsSpace(s[|s| - 1]) then TrimEnd(s[..|s| - 1]) else s
  }

  /** What `rstrip` drops is whitespace only. */
  lemma {:induction false} TrimEndDropsSpace(s: string)
    ensures forall i :: |TrimEnd(s)| <= i < |s| ==> IsSpace(s[i])
  {
    if |s| > 0 && IsSpace(s[|s| - 1]) {
      var init := s[..|s| - 1];
      TrimEndDropsSpace(init);
      forall i | |TrimEnd(init)| <= i < |s| - 1 ensures IsSpace(s[i]) {
        assert s[i] == init[i];
      }
    }
  }

  /** `str.strip()`. */
  function Strip(s: string): string {
    TrimEnd(TrimStart(s))
  }

  /** What `strip` keeps is a slice of the input that neither starts nor ends
      with whitespace, and what it cuts off at either end is whitespace. */
  lemma StripRemovesSpace(s: string)
    ensures var r, lead := Strip(s), |s| - |TrimStart(s)|;
      lead + |r| <= |s| && r == s[lead..lead + |r|]
      && (|r| > 0 ==> !IsSpace(r[0]) && !IsSpace(r[|r| - 1]))
      && (forall i :: 0 <= i < lead ==> IsSpace(s[i]))
      && (forall i :: lead + |r| <= i < |s| ==> IsSpace(s[i]))
  {
    TrimStartDropsSpace(s);
    StripKeepsMiddle(s);
    StripEnds(s);
    StripDropsTail(s);
  }

  lemma StripKeepsMiddle(s: string)
    ensures var r, lead := Strip(s), |s| - |TrimStart(s)|;
      lead + |r| <= |s| && r == s[lead..lead + |r|]
  {
    var a := TrimStart(s);
    InnerSlice(s, a, TrimEnd(a));
  }

  lemma InnerSlice(s: string, a: string, r: string)
    requires |a| <= |s| && a == s[|s| - |a|..]
    requires |r| <= |a| && r == a[..|r|]
    ensures r == s[|s| - |a|..|s| - |a| + |r|]
  {
  }

  lemma StripEnds(s: string)
    ensures var r := Strip(s); |r| > 0 ==> !IsSpace(r[0]) && !IsSpace(r[|r| - 1])
  {
    var a := TrimStart(s);
    var r := TrimEnd(a);
    if |r| > 0 {
      FirstOfPrefix(a, r);
    }
  }

  lemma FirstOfPrefix(a: string, r: string)
    requires 0 < |r| <= |a| && r == a[..|r|]
    ensures r[0] == a[0]
  {
  }

  lemma StripDropsTail(s: string)
    ensures forall i :: |s| - |TrimStart(s)| + |Strip(s)| <= i < |s| ==> IsSpace(s[i])
  {
    var a := TrimStart(s);
    TrimEndDropsSpace(a);
    forall i | |s| - |a| + |TrimEnd(a)| <= i < |s| ensures IsSpace(s[i]) {
      assert s[i] == a[i - (|s| - |a|)];
    }
  }

  /** `re.sub(r"\s+", "_", s)`: each maximal run of whitespace becomes one `_`. */
  function CollapseSpaces(s: string): string
    decreases |s|
  {
    if s == [] then []
    else if IsSpace(s[0]) then "_" + CollapseSpaces(TrimStart(s))
    else [s[0]] + CollapseSpaces(s[1..])
  }

  /** The `clean` helper of `standardize_columns`. */
  function CleanName(name: string): string {
    Lower(Replace(Replace(CollapseSpaces(Strip(name)), '%', "pct"), '$', "dolar"))
  }

  /** A name the standardizer leaves as it is. */
  predicate Canonical(name: string) {
    forall i :: 0 <= i < |name| ==>
      !IsSpace(name[i]) && name[i] != '%' && name[i] != '$' && !IsUpper(name[i])
  }

  /** The rename of `standardize_columns`: every column gets the cleaned form
      of its own label; rows, kinds, cells and column order are kept. */
  function StandardizeColumns(t: Table): (r: Table)
    ensures r.rows == t.rows && |r.cols| == |t.cols|
    ensures forall k :: 0 <= k < |t.cols| ==>
      r.cols[k].name == CleanName(t.cols[k].name)
      && r.cols[k].kind == t.cols[k].kind && r.cols[k].cells == t.cols[k].cells
    ensures forall k :: 0 <= k < |t.cols| ==> Canonical(r.cols[k].name)
    ensures t.Valid() ==> r.Valid()
  {
    var cols := seq(|t.cols|, k requires 0 <= k < |t.cols| =>
      t.cols[k].(name := CleanName(t.cols[k].name)));
    forall k | 0 <= k < |t.cols| ensures Canonical(cols[k].name) {
      CleanNameCanonical(t.cols[k].name);
    }
    Table(t.rows, cols)
  }

  /** No whitespace anywhere. */
  predicate NoSpace(s: string) {
    forall i :: 0 <= i < |s| ==> !IsSpace(s[i])
  }

  /** Whatever the input, the collapsed string has no whitespace left. */
  lemma {:induction false} CollapseSpacesNoSpace(s: string)
    ensures NoSpace(CollapseSpaces(s))
    decreases |s|
  {
    if s == [] {
    } else if IsSpace(s[0]) {
      CollapseSpacesNoSpace(TrimStart(s));
      NoSpaceCons('_', CollapseSpaces(TrimStart(s)));
    } else {
      CollapseSpacesNoSpace(s[1..]);
      NoSpaceCons(s[0], CollapseSpaces(s[1..]));
    }
  }

  lemma NoSpaceCons(head: char, c: string)
    requires !IsSpace(head) && NoSpace(c)
    ensures NoSpace([head] + c)
  {
    forall i | 0 < i < |c| + 1 ensures !IsSpace(([head] + c)[i]) {
      assert ([head] + c)[i] == c[i - 1];
    }
  }

  /** Whatever the input, a standardized name has no whitespace, no `%` or
      `$`, and no upper-case letter. */
  lemma CleanNameCanonical(name: string)
    ensures Canonical(CleanName(name))
  {
    var c := Replace(Replace(CollapseSpaces(Strip(name)), '%', "pct"), '$', "dolar");
    assert forall x :: x in c ==> !IsSpace(x) && x != '%' && x != '$' by {
      ReplacementsClean(name);
    }
    LowerKeepsClean(c);
  }

  lemma ReplacementsClean(name: string)
    ensures forall x :: x in Replace(Replace(CollapseSpaces(Strip(name)), '%', "pct"), '$', "dolar") ==>
      !IsSpace(x) && x != '%' && x != '$'
  {
    CollapseSpacesNoSpace(Strip(name));
    assert forall x :: x in CollapseSpaces(Strip(name)) ==> !IsSpace(x);
    ReplacementsKeepClean(CollapseSpaces(Strip(name)));
  }

  lemma ReplacementsKeepClean(a: string)
    requires forall x :: x in a ==> !IsSpace(x)
    ensures forall x :: x in Replace(Replace(a, '%', "pct"), '$', "dolar") ==>
      !IsSpace(x) && x != '%' && x != '$'
  {
    var b := Replace(a, '%', "pct");
    ReplaceChars(a, '%', "pct");
    forall x | x in b ensures !IsSpace(x) && x != '%' {
      if x !in a {
        assert x in "pct";
        assert x == 'p' || x == 'c' || x == 't';
      }
    }
    ReplaceChars(b, '$', "dolar");
    forall x | x in Replace(b, '$', "dolar") ensures !IsSpace(x) && x != '%' && x != '$' {
      if x !in b {
        assert x in "dolar";
        assert x == 'd' || x == 'o' || x == 'l' || x == 'a' || x == 'r';
      }
    }
  }

  lemma LowerKeepsClean(c: string)
    requires forall x :: x in c ==> !IsSpace(x) && x != '%' && x != '$'
    ensures Canonical(Lower(c))
  {
    var d := Lower(c);
    forall i | 0 <= i < |d|
      ensures !IsSpace(d[i]) && d[i] != '%' && d[i] != '$' && !IsUpper(d[i])
    {
      assert c[i] in c;
    }
  }

  lemma {:induction false} CollapseSpacesIdentity(s: string)
    requires forall i :: 0 <= i < |s| ==> !IsSpace(s[i])
    ensures CollapseSpaces(s) == s
  {
    if s != [] {
      CollapseSpacesIdentity(s[1..]);
      assert [s[0]] + s[1..] == s;
    }
  }

  /** A canonical name is a fixed point of the standardizer. */
  lemma CanonicalIsFixed(name: string)
    requires Canonical(name)
    ensures CleanName(name) == name
  {
    assert TrimStart(name) == name;
    assert TrimEnd(name) == name;
    CollapseSpacesIdentity(name);
    ReplaceAbsent(name, '%', "pct");
    ReplaceAbsent(name, '$', "dolar");
    assert Lower(name) == name;
  }

  /** A name is left unchanged by the standardizer exactly when it is
      canonical. */
  lemma CleanNameFixedIff(name: string)
    ensures CleanName(name) == name <==> Canonical(name)
  {
    CleanNameCanonical(name);
    if Canonical(name) {
      CanonicalIsFixed(name);
    }
  }

  /** Standardizing a name twice gives the same name as standardizing it once. */
  lemma CleanNameIdempotent(name: string)
    ensures CleanName(CleanName(name)) == CleanName(name)
  {
    CleanNameCanonical(name);
    CanonicalIsFixed(CleanName(name));
  }

  /** Standardizing a frame twice gives the same frame as standardizing it once. */
  lemma StandardizeIdempotent(t: Table)
    ensures StandardizeColumns(StandardizeColumns(t)) == StandardizeColumns(t)
  {
    var once := StandardizeColumns(t);
    var twice := StandardizeColumns(once);
    forall k | 0 <= k < |t.cols| ensures twice.cols[k] == once.cols[k] {
      CanonicalIsFixed(once.cols[k].name);
    }
  }

  lemma {:induction false} CollapseSpacesPrefix(s: string, rest: string)
    requires forall i :: 0 <= i < |s| ==> !IsSpace(s[i])
    ensures CollapseSpaces(s + rest) == s + CollapseSpaces(rest)
  {
    if s != [] {
      assert (s + rest)[1..] == s[1..] + rest;
      CollapseSpacesPrefix(s[1..], rest);
    } else {
      assert s + rest == rest;
    }
  }

  /** Every character is whitespace. */
  predicate AllSpace(w: string) {
    forall i :: 0 <= i < |w| ==> IsSpace(w[i])
  }

  /** `lstrip` removes a whole run of whitespace and stops at the first
      character after it. */
  lemma {:induction false} TrimStartRun(w: string, b: string)
    requires AllSpace(w) && (b == [] || !IsSpace(b[0]))
    ensures TrimStart(w + b) == b
    decreases |w|
  {
    if w == [] {
      assert w + b == b;
    } else {
      assert (w + b)[0] == w[0];
      assert (w + b)[1..] == w[1..] + b;
      TrimStartRun(w[1..], b);
    }
  }

  /** A maximal run of whitespace, however long, becomes a single `_`, and
      the text before it is kept. */
  lemma CollapseRun(a: string, w: string, b: string)
    requires NoSpace(a) && |w| > 0 && AllSpace(w) && (b == [] || !IsSpace(b[0]))
    ensures CollapseSpaces(a + w + b) == a + "_" + CollapseSpaces(b)
  {
    assert a + w + b == a + (w + b);
    CollapseSpacesPrefix(a, w + b);
    CollapseRunHead(w, b);
  }

  lemma CollapseRunHead(w: string, b: string)
    requires |w| > 0 && AllSpace(w) && (b == [] || !IsSpace(b[0]))
    ensures CollapseSpaces(w + b) == "_" + CollapseSpaces(b)
  {
    var s := w + b;
    assert s[0] == w[0];
    TrimStartRun(w, b);
  }

  lemma StripKeeps(word: string, ch: char)
    requires |word| > 0 && NoSpace(word) && !IsSpace(ch)
    ensures Strip(word + [' ', ch]) == word + [' ', ch]
  {
    var a := word + [' ', ch];
    assert a[0] == word[0];
    assert TrimStart(a) == a;
    assert TrimEnd(a) == a;
  }

  lemma CollapseSpaceBefore(ch: char)
    requires !IsSpace(ch)
    ensures CollapseSpaces([' ', ch]) == ['_', ch]
  {
    var p, s := [ch], [' ', ch];
    assert p[1..] == [];
    assert TrimStart(p) == p;
    assert CollapseSpaces(p) == [ch] + CollapseSpaces(p[1..]);
    assert s[1..] == p;
    assert TrimStart(s) == p;
  }

  lemma ReplacePercentTail(word: string)
    requires '%' !in word
    ensures Replace(word + "_%", '%', "pct") == word + "_pct"
  {
    assert word + "_%" == (word + "_") + "%";
    ReplaceAppend(word + "_", "%", '%', "pct");
    ReplaceAbsent(word + "_", '%', "pct");
    assert Replace("%", '%', "pct") == "pct";
  }

  /** A label ending in " %" is cleaned to the lower-cased label ending in
      "_pct". */
  lemma CleanPercentSuffix(word: string)
    requires |word| > 0 && NoSpace(word) && '%' !in word && '$' !in word
    ensures CleanName(word + " %") == Lower(word + "_pct")
  {
    PercentCollapsed(word);
    PercentReplaced(word);
  }

  lemma PercentCollapsed(word: string)
    requires |word| > 0 && NoSpace(word)
    ensures CollapseSpaces(Strip(word + " %")) == word + "_%"
  {
    SpaceCharCollapsed(word, '%');
    assert word + " %" == word + [' ', '%'] && word + "_%" == word + ['_', '%'];
  }

  lemma SpaceCharCollapsed(word: string, ch: char)
    requires |word| > 0 && NoSpace(word) && !IsSpace(ch)
    ensures CollapseSpaces(Strip(word + [' ', ch])) == word + ['_', ch]
  {
    StripKeeps(word, ch);
    CollapseTail(word, ch);
  }

  lemma CollapseTail(word: string, ch: char)
    requires NoSpace(word) && !IsSpace(ch)
    ensures CollapseSpaces(word + [' ', ch]) == word + ['_', ch]
  {
    CollapseSpacesPrefix(word, [' ', ch]);
    CollapseSpaceBefore(ch);
  }

  lemma PercentReplaced(word: string)
    requires '%' !in word && '$' !in word
    ensures Replace(Replace(word + "_%", '%', "pct"), '$', "dolar") == word + "_pct"
  {
    ReplacePercentTail(word);
    assert '$' !in "_pct";
    ReplaceAbsent(word + "_pct", '$', "dolar");
  }

  lemma CleanPctSuffix(word: string)
    requires |word| > 0 && NoSpace(word) && '%' !in word && '$' !in word
    ensures CleanName(word + "_pct") == Lower(word + "_pct")
  {
    var b := word + "_pct";
    assert forall i :: 0 <= i < |b| ==> !IsSpace(b[i]) && b[i] != '%' && b[i] != '$';
    assert Strip(b) == b by {
      assert TrimStart(b) == b;
      assert TrimEnd(b) == b;
    }
    CollapseSpacesIdentity(b);
    ReplaceAbsent(b, '%', "pct");
    ReplaceAbsent(b, '$', "dolar");
  }

  /** Two different input names can standardize to the same name: nothing
      guards against the collision (for instance "Total %" and "Total_pct"
      both become "total_pct"). */
  lemma NamesCanCollide(word: string)
    requires |word| > 0 && NoSpace(word) && '%' !in word && '$' !in word
    ensures word + " %" != word + "_pct"
    ensures CleanName(word + " %") == CleanName(word + "_pct")
  {
    var a, b := word + " %", word + "_pct";
    assert a[|word|] != b[|word|];
    CleanPercentSuffix(word);
    CleanPctSuffix(word);
  }
}


