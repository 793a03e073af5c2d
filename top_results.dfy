/** The data step of `graficar_resultados`: the results table is sorted by
    ascending adjusted p-value, its first `n_resultados` rows are kept, their
    order is reversed so that the most significant row is drawn at the top
    of the horizontal bar chart, and each row gets a cleaned label. Only the
    order of the adjusted p-values matters here, so they are exact reals. */
module TopResults {
  import opened Text
  import opened Labels

  /** The number of rows charted when none is given, and the number
      `ejecutar_ora` asks for. */
  const DefaultNResultados: nat := 10

  /** A row of the enrichment results table, reduced to the two columns the
      chart reads: "Term" and "Adjusted P-value". */
  datatype Row = Row(term: string, padj: real)

  /** A row of the charted table: the results row, unchanged, with the
      "Term_clean" column added. */
  datatype ChartRow = ChartRow(row: Row, termClean: string)

  predicate SortedByPadj(s: seq<Row>) {
    forall i, j :: 0 <= i < j < |s| ==> s[i].padj <= s[j].padj
  }

  /** No row of `s` is more significant than `v`. */
  predicate AtLeast(s: seq<Row>, v: real) {
    forall i :: 0 <= i < |s| ==> v <= s[i].padj
  }

  /** A bound on every row holds for any permutation of the rows. */
  lemma AtLeastPermutation(s: seq<Row>, t: seq<Row>, v: real)
    requires multiset(s) == multiset(t) && AtLeast(t, v)
    ensures AtLeast(s, v)
  {
    forall i | 0 <= i < |s| ensures v <= s[i].padj {
      assert s[i] in multiset(t);
      var j :| 0 <= j < |t| && t[j] == s[i];
    }
  }

  lemma AtLeastCons(x: Row, s: seq<Row>, v: real)
    requires v <= x.padj && AtLeast(s, v)
    ensures AtLeast([x] + s, v)
  {
    assert forall j :: 0 < j <= |s| ==> ([x] + s)[j] == s[j - 1];
  }

  lemma SortedCons(h: Row, r: seq<Row>)
    requires SortedByPadj(r) && AtLeast(r, h.padj)
    ensures SortedByPadj([h] + r)
  {
    assert forall j :: 0 < j <= |r| ==> ([h] + r)[j] == r[j - 1];
  }

  lemma SortedTail(s: seq<Row>)
    requires SortedByPadj(s) && s != []
    ensures SortedByPadj(s[1..]) && AtLeast(s[1..], s[0].padj)
  {
    assert forall j :: 0 <= j < |s| - 1 ==> s[1..][j] == s[j + 1];
  }

  /** `x` put into the sorted table `s` in front of the first row that is not
      more significant. */
  function Insert(x: Row, s: seq<Row>): (t: seq<Row>)
    requires SortedByPadj(s)
    ensures SortedByPadj(t)
    ensures multiset(t) == multiset(s) + multiset{x}
  {
    if s == [] then [x]
    else if x.padj <= s[0].padj then
      SortedTail(s);
      ConsAppend(s, []);
      AtLeastCons(s[0], s[1..], x.padj);
      SortedCons(x, s);
      [x] + s
    else
      SortedTail(s);
      var rest := Insert(x, s[1..]);
      AtLeastCons(x, s[1..], s[0].padj);
      AtLeastPermutation(rest, [x] + s[1..], s[0].padj);
      SortedCons(s[0], rest);
      ConsAppend(s, []);
      [s[0]] + rest
  }

  /** `df.sort_values("Adjusted P-value")`. The source sorts with an unstable
      quicksort, so nothing beyond the contract of this function is relied on:
      every property of the chart below is proved for any sorted permutation. */
  function SortValues(df: seq<Row>): (sorted: seq<Row>)
    ensures SortedByPadj(sorted)
    ensures multiset(sorted) == multiset(df)
  {
    if df == [] then []
    else
      assert df == [df[0]] + df[1..];
      Insert(df[0], SortValues(df[1..]))
  }

  /** `df.iloc[::-1]`. */
  function Reverse(s: seq<Row>): (r: seq<Row>)
    ensures |r| == |s|
    ensures forall i :: 0 <= i < |s| ==> r[i] == s[|s| - 1 - i]
  {
    if s == [] then [] else Reverse(s[1..]) + [s[0]]
  }

  lemma {:induction false} ReverseMultiset(s: seq<Row>)
    ensures multiset(Reverse(s)) == multiset(s)
  {
    if s != [] {
      ReverseMultiset(s[1..]);
      assert s == [s[0]] + s[1..];
    }
  }

  /** `df["Term_clean"] = df["Term"].apply(limpiar_texto)`. */
  function WithCleanLabels(s: seq<Row>): (out: seq<ChartRow>)
    ensures |out| == |s|
  {
    seq(|s|, i requires 0 <= i < |s| => ChartRow(s[i], LimpiarTexto(s[i].term, DefaultMaxPalabras)))
  }

  /** The rows of the results table that a charted table shows. */
  function RowsOf(out: seq<ChartRow>): (rows: seq<Row>)
    ensures |rows| == |out|
  {
    seq(|out|, i requires 0 <= i < |out| => out[i].row)
  }

  /** Every charted row carries the cleaned label of its own term. */
  predicate CleanLabelled(out: seq<ChartRow>) {
    forall i :: 0 <= i < |out| ==> out[i].termClean == LimpiarTexto(out[i].row.term, DefaultMaxPalabras)
  }

  /** Adding the label column leaves the rows as they were. */
  lemma WithCleanLabelsSpec(s: seq<Row>)
    ensures RowsOf(WithCleanLabels(s)) == s
    ensures CleanLabelled(WithCleanLabels(s))
  {
    assert forall i :: 0 <= i < |s| ==> RowsOf(WithCleanLabels(s))[i] == s[i];
  }

  /** Lines 106-107 once the table is sorted: head, then reversal. */
  function TopRowsOf(sorted: seq<Row>, nResultados: nat): (rows: seq<Row>)
    ensures |rows| == (if nResultados < |sorted| then nResultados else |sorted|)
  {
    Reverse(Take(sorted, nResultados))
  }

  /** What the charted rows are, for a results table `df` and a count `n`. */
  predicate IsTopRows(df: seq<Row>, n: nat, rows: seq<Row>) {
    // `n` rows, or all of them when the table is shorter
    && |rows| == (if n < |df| then n else |df|)
    // rows of the table, each kept at most as often as it occurs
    && multiset(rows) <= multiset(df)
    // the most significant ones: no row left out is more significant than one kept
    && (forall i, y :: 0 <= i < |rows| && y in multiset(df) - multiset(rows) ==> rows[i].padj <= y.padj)
    // from least to most significant, so that the most significant bar is drawn on top
    && (forall i, j :: 0 <= i < j < |rows| ==> rows[i].padj >= rows[j].padj)
  }

  /** The `i`-th charted row is the `i`-th before the cut, counting back. */
  lemma TopRowAt(sorted: seq<Row>, n: nat, i: int)
    requires 0 <= i < |TopRowsOf(sorted, n)|
    ensures TopRowsOf(sorted, n)[i] == sorted[|TopRowsOf(sorted, n)| - 1 - i]
  {
    var head := Take(sorted, n);
    assert TopRowsOf(sorted, n)[i] == head[|head| - 1 - i];
  }

  /** The rows left out are the tail of the sorted table. */
  lemma TopRowsLeftOut(df: seq<Row>, sorted: seq<Row>, n: nat)
    requires multiset(sorted) == multiset(df)
    ensures |TopRowsOf(sorted, n)| <= |sorted|
    ensures multiset(TopRowsOf(sorted, n)) <= multiset(df)
    ensures multiset(df) - multiset(TopRowsOf(sorted, n)) == multiset(sorted[|TopRowsOf(sorted, n)|..])
  {
    var head := Take(sorted, n);
    ReverseMultiset(head);
    assert sorted == head + sorted[|head|..];
  }

  /** No row cut off the sorted table is more significant than a row kept. */
  lemma TopRowsSmallest(sorted: seq<Row>, n: nat)
    requires SortedByPadj(sorted)
    ensures var rows := TopRowsOf(sorted, n);
      |rows| <= |sorted| &&
      forall i, y :: 0 <= i < |rows| && y in multiset(sorted[|rows|..]) ==> rows[i].padj <= y.padj
  {
    var rows := TopRowsOf(sorted, n);
    var m := |rows|;
    var tail := sorted[m..];
    forall i, y: Row | 0 <= i < m && y in multiset(tail) ensures rows[i].padj <= y.padj {
      var j :| 0 <= j < |tail| && tail[j] == y;
      TopRowAt(sorted, n, i);
    }
  }

  /** Adjusted p-values do not increase along the charted rows. */
  lemma TopRowsOrdered(sorted: seq<Row>, n: nat)
    requires SortedByPadj(sorted)
    ensures var rows := TopRowsOf(sorted, n);
      forall i, j :: 0 <= i < j < |rows| ==> rows[i].padj >= rows[j].padj
  {
    var rows := TopRowsOf(sorted, n);
    forall i, j | 0 <= i < j < |rows| ensures rows[i].padj >= rows[j].padj {
      TopRowAt(sorted, n, i);
      TopRowAt(sorted, n, j);
    }
  }

  /** However ties are ordered, any sorted permutation of the table gives the
      right rows in the right order. */
  lemma TopRowsCorrect(df: seq<Row>, sorted: seq<Row>, n: nat)
    requires SortedByPadj(sorted) && multiset(sorted) == multiset(df)
    ensures IsTopRows(df, n, TopRowsOf(sorted, n))
  {
    assert |sorted| == |multiset(sorted)| == |multiset(df)| == |df|;
    TopRowsLeftOut(df, sorted, n);
    TopRowsSmallest(sorted, n);
    TopRowsOrdered(sorted, n);
  }

  /** Lines 106-108 of `graficar_resultados`: the rows it charts, bottom bar
      first, each with its cleaned label. */
  function SeleccionarTop(df: seq<Row>, nResultados: nat): (out: seq<ChartRow>)
    ensures IsTopRows(df, nResultados, RowsOf(out))
    ensures CleanLabelled(out)
  {
    var rows := TopRowsOf(SortValues(df), nResultados);
    TopRowsCorrect(df, SortValues(df), nResultados);
    WithCleanLabelsSpec(rows);
    WithCleanLabels(rows)
  }

  /** The last charted row, drawn at the top, is the most significant of the
      whole table. */
  lemma MostSignificantOnTop(df: seq<Row>, n: nat, rows: seq<Row>)
    requires IsTopRows(df, n, rows) && |rows| > 0
    ensures forall y :: y in df ==> rows[|rows| - 1].padj <= y.padj
  {
    forall y | y in df ensures rows[|rows| - 1].padj <= y.padj {
      assert y in multiset(df);
      if y !in multiset(df) - multiset(rows) {
        assert y in multiset(rows);
        var j :| 0 <= j < |rows| && rows[j] == y;
      }
    }
  }

  /** The chart `ejecutar_ora` draws, with `n_resultados` at 10: at most ten
      rows, the most significant ones of the table, each with its cleaned label. */
  lemma SeleccionarTopDefault(df: seq<Row>)
    ensures var out := SeleccionarTop(df, DefaultNResultados);
      && |out| <= 10
      && IsTopRows(df, DefaultNResultados, RowsOf(out))
      && CleanLabelled(out)
  {
  }
}
