/** The gene-list reader `leer_genes`: the file contents are trimmed, commas
    become line breaks, the text is cut into lines, and every line that is not
    blank gives one gene symbol, trimmed and upper-cased. Reading the file is
    not modelled: `LeerGenes` starts from the contents already read. */
module GeneList {
  import opened Text

  predicate NoLineBoundary(s: string) {
    forall i :: 0 <= i < |s| ==> !IsLineBoundary(s[i])
  }

  /** What the reader promises of every symbol it returns. */
  predicate IsGene(g: string) {
    && g != []
    && Trimmed(g)
    && ',' !in g
    && NoLineBoundary(g)
    && NoLowercase(g)
  }

  predicate AreGenes(gs: seq<string>) {
    forall k :: 0 <= k < |gs| ==> IsGene(gs[k])
  }

  lemma AreGenesTail(gs: seq<string>)
    requires AreGenes(gs) && gs != []
    ensures IsGene(gs[0]) && AreGenes(gs[1..])
  {
    assert forall k :: 0 <= k < |gs| - 1 ==> gs[1..][k] == gs[k + 1];
  }

  /** `s.replace(",", "\n")`. */
  function ReplaceCommas(s: string): (r: string)
    ensures |r| == |s| && ',' !in r
  {
    seq(|s|, i requires 0 <= i < |s| => if s[i] == ',' then '\n' else s[i])
  }

  lemma ReplaceCommasAppend(a: string, b: string)
    ensures ReplaceCommas(a + b) == ReplaceCommas(a) + ReplaceCommas(b)
  {
    assert forall i :: 0 <= i < |a + b| ==> ReplaceCommas(a + b)[i] == (ReplaceCommas(a) + ReplaceCommas(b))[i];
  }

  lemma ReplaceCommasUnchanged(s: string)
    requires ',' !in s
    ensures ReplaceCommas(s) == s
  {
    assert forall i :: 0 <= i < |s| ==> ReplaceCommas(s)[i] == s[i];
  }

  /** A comma between two texts becomes a line break, and the texts on either
      side are rewritten on their own. With `ReplaceCommasAppend` and
      `ReplaceCommasUnchanged` this pins `replace(",", "\n")` down. */
  lemma ReplaceCommasComma(a: string, b: string)
    ensures ReplaceCommas(a + [','] + b) == ReplaceCommas(a) + ['\n'] + ReplaceCommas(b)
  {
    ReplaceCommasAppend(a + [','], b);
    ReplaceCommasAppend(a, [',']);
  }

  /** The position of the first line boundary in `s`, or `|s|` when there is none. */
  function FirstBreak(s: string): (i: nat)
    ensures i <= |s|
    ensures i < |s| ==> IsLineBoundary(s[i])
    ensures NoLineBoundary(s[..i])
    decreases |s|
  {
    if s == [] || IsLineBoundary(s[0]) then 0 else 1 + FirstBreak(s[1..])
  }

  /** `s.splitlines()`: lines end at every line boundary, "\r\n" ends a
      single line, the empty string has no lines, and a final line break
      does not open an empty last line. */
  function SplitLines(s: string): (lines: seq<string>)
    ensures forall k :: 0 <= k < |lines| ==> NoLineBoundary(lines[k])
    decreases |s|
  {
    if s == [] then []
    else
      var i := FirstBreak(s);
      if i == |s| then [s]
      else
        var next := if s[i] == '\r' && i + 1 < |s| && s[i + 1] == '\n' then i + 2 else i + 1;
        [s[..i]] + SplitLines(s[next..])
  }

  /** The first line boundary of `a + b` is the first character of `b` when
      `a` has none. */
  lemma {:induction false} FirstBreakAfter(a: string, b: string)
    requires NoLineBoundary(a)
    requires b != [] && IsLineBoundary(b[0])
    ensures FirstBreak(a + b) == |a|
    decreases |a|
  {
    if a == [] {
      assert a + b == b;
    } else {
      HeadTailAppend(a, b);
      assert !IsLineBoundary(a[0]);
      FirstBreakAfter(a[1..], b);
    }
  }

  /** A non-empty text without a line boundary is one line. */
  lemma SplitLinesLine(a: string)
    requires a != [] && NoLineBoundary(a)
    ensures SplitLines(a) == [a]
  {
    assert FirstBreak(a) == |a|;
  }

  /** A line boundary other than the '\r' of "\r\n" ends the line before it,
      and the text after it is split on its own. */
  lemma SplitLinesBreak(a: string, c: char, b: string)
    requires NoLineBoundary(a) && IsLineBoundary(c)
    requires c == '\r' ==> b == [] || b[0] != '\n'
    ensures SplitLines(a + [c] + b) == [a] + SplitLines(b)
  {
    var s := a + [c] + b;
    AppendAssoc(a, [c], b);
    FirstBreakAfter(a, [c] + b);
    assert s[..|a|] == a;
    assert s[|a| + 1..] == b;
  }

  /** "\r\n" is a single break: it ends one line and opens no empty one. */
  lemma SplitLinesCrLf(a: string, b: string)
    requires NoLineBoundary(a)
    ensures SplitLines(a + ['\r', '\n'] + b) == [a] + SplitLines(b)
  {
    var s := a + ['\r', '\n'] + b;
    AppendAssoc(a, ['\r', '\n'], b);
    FirstBreakAfter(a, ['\r', '\n'] + b);
    assert s[..|a|] == a;
    assert s[|a| + 2..] == b;
  }

  /** A final line break ends the last line and opens no empty one after it. */
  lemma SplitLinesFinalBreak(a: string, c: char)
    requires NoLineBoundary(a) && IsLineBoundary(c)
    ensures SplitLines(a + [c]) == [a]
  {
    SplitLinesBreak(a, c, []);
    assert a + [c] + [] == a + [c];
  }

  /** `splitlines()` only cuts: a comma-free text has comma-free lines. */
  lemma {:induction false} SplitLinesNoComma(s: string)
    requires ',' !in s
    ensures forall k :: 0 <= k < |SplitLines(s)| ==> ',' !in SplitLines(s)[k]
    decreases |s|
  {
    if s != [] {
      var i := FirstBreak(s);
      if i < |s| {
        var next := if s[i] == '\r' && i + 1 < |s| && s[i + 1] == '\n' then i + 2 else i + 1;
        assert forall ch :: ch in s[..i] ==> ch in s;
        assert forall ch :: ch in s[next..] ==> ch in s;
        SplitLinesNoComma(s[next..]);
        assert SplitLines(s) == [s[..i]] + SplitLines(s[next..]);
        ConsIndexes(s[..i], SplitLines(s[next..]));
      }
    }
  }

  /** The pieces between line boundaries, one per boundary plus one: unlike
      `SplitLines`, every boundary character ends a piece, including the '\r'
      of "\r\n" and a final one. */
  function Fields(s: string): (fs: seq<string>)
    ensures |fs| >= 1
    decreases |s|
  {
    if s == [] then [[]]
    else
      var rest := Fields(s[1..]);
      if IsLineBoundary(s[0]) then [[]] + rest
      else [[s[0]] + rest[0]] + rest[1..]
  }

  /** Cutting a text of whitespace gives pieces of whitespace. */
  lemma {:induction false} FieldsOfWhitespace(s: string)
    requires AllWhitespace(s)
    ensures forall k :: 0 <= k < |Fields(s)| ==> AllWhitespace(Fields(s)[k])
    decreases |s|
  {
    if s != [] {
      FieldsOfWhitespace(s[1..]);
      var rest := Fields(s[1..]);
      if !IsLineBoundary(s[0]) {
        assert forall j :: 0 < j < |[s[0]] + rest[0]| ==> ([s[0]] + rest[0])[j] == rest[0][j - 1];
      }
    }
  }

  /** What one line contributes to the list: its stripped, upper-cased text,
      or nothing when it is blank after `strip()`. */
  function Gene(line: string): seq<string> {
    var g := Strip(line);
    if g == [] then [] else [Upper(g)]
  }

  /** The list comprehension of `leer_genes`, line by line. */
  function Genes(lines: seq<string>): (gs: seq<string>)
    ensures |gs| <= |lines|
  {
    if lines == [] then [] else Gene(lines[0]) + Genes(lines[1..])
  }

  /** `leer_genes` once the file has been read: `contenido` is the file's text. */
  function LeerGenes(contenido: string): (genes: seq<string>)
    ensures AreGenes(genes)
  {
    var lines := SplitLines(ReplaceCommas(Strip(contenido)));
    SplitLinesNoComma(ReplaceCommas(Strip(contenido)));
    GenesAreGenes(lines);
    Genes(lines)
  }

  /** The reference reading of a gene file: cut at every comma and every line
      boundary, then keep the non-blank tokens, trimmed and upper-cased. */
  function Tokens(s: string): seq<string> {
    Genes(Fields(ReplaceCommas(s)))
  }

  // ---------------------------------------------------------------------------
  // What `Genes` yields

  lemma UpperKeepsGene(g: string)
    requires g != [] && Trimmed(g) && ',' !in g && NoLineBoundary(g)
    ensures IsGene(Upper(g))
  {
    var u := Upper(g);
    assert forall i :: 0 <= i < |g| ==> u[i] == UpperChar(g[i]);
    assert forall i :: 0 <= i < |u| ==> u[i] != ',' by {
      forall i | 0 <= i < |u| ensures u[i] != ',' {
        assert g[i] in g;
      }
    }
  }

  lemma UpperOfGene(g: string)
    requires IsGene(g)
    ensures Upper(g) == g
  {
    assert forall i :: 0 <= i < |g| ==> Upper(g)[i] == g[i];
  }

  /** `strip()` only removes characters: a stripped line holds no comma or
      line boundary that the line did not. */
  lemma StripKeeps(s: string)
    ensures ',' in Strip(s) ==> ',' in s
    ensures NoLineBoundary(s) ==> NoLineBoundary(Strip(s))
  {
    var lead, trail := StripParts(s);
    var g := Strip(s);
    assert forall i :: 0 <= i < |g| ==> g[i] == s[|lead| + i];
  }

  /** A comma-free line without a line boundary gives a gene, if anything. */
  lemma GeneIsGene(line: string)
    requires ',' !in line && NoLineBoundary(line)
    ensures AreGenes(Gene(line))
  {
    var g := Strip(line);
    if g != [] {
      StripKeeps(line);
      UpperKeepsGene(g);
      SingleGene(Upper(g));
      assert Gene(line) == [Upper(g)];
    } else {
      assert Gene(line) == [];
    }
  }

  lemma SingleGene(g: string)
    requires IsGene(g)
    ensures AreGenes([g])
  {
  }

  lemma AreGenesAppend(a: seq<string>, b: seq<string>)
    requires AreGenes(a) && AreGenes(b)
    ensures AreGenes(a + b)
  {
    assert forall k :: |a| <= k < |a| + |b| ==> (a + b)[k] == b[k - |a|];
  }

  lemma {:induction false} GenesAreGenes(lines: seq<string>)
    requires forall k :: 0 <= k < |lines| ==> ',' !in lines[k] && NoLineBoundary(lines[k])
    ensures AreGenes(Genes(lines))
  {
    if lines != [] {
      var rest := lines[1..];
      assert forall k :: 0 <= k < |rest| ==> rest[k] == lines[k + 1];
      GenesAreGenes(rest);
      GeneIsGene(lines[0]);
      ConsAppend(lines, []);
      GenesCons(lines[0], rest);
      AreGenesAppend(Gene(lines[0]), Genes(rest));
    }
  }

  lemma {:induction false} GenesAppend(a: seq<string>, b: seq<string>)
    ensures Genes(a + b) == Genes(a) + Genes(b)
  {
    if a == [] {
      assert a + b == b;
    } else {
      ConsAppend(a, b);
      GenesCons(a[0], a[1..] + b);
      GenesCons(a[0], a[1..]);
      GenesAppend(a[1..], b);
      AppendAssoc(Gene(a[0]), Genes(a[1..]), Genes(b));
    }
  }

  /** Lines made only of whitespace contribute no gene. */
  lemma {:induction false} GenesOfBlankLines(lines: seq<string>)
    requires forall k :: 0 <= k < |lines| ==> AllWhitespace(lines[k])
    ensures Genes(lines) == []
  {
    if lines != [] {
      StripAllWhitespace(lines[0]);
      GenesAppend([lines[0]], lines[1..]);
      GenesOfBlankLines(lines[1..]);
    }
  }

  // ---------------------------------------------------------------------------
  // How `Fields` cuts

  lemma {:induction false} FieldsNoBreak(s: string)
    requires NoLineBoundary(s)
    ensures Fields(s) == [s]
    decreases |s|
  {
    if s != [] {
      FieldsNoBreak(s[1..]);
      assert s == [s[0]] + s[1..];
    }
  }

  /** A boundary character cuts the text into the pieces of either side. */
  lemma {:induction false} FieldsBreak(a: string, c: char, b: string)
    requires IsLineBoundary(c)
    ensures Fields(a + [c] + b) == Fields(a) + Fields(b)
    decreases |a|
  {
    if a == [] {
      assert a + [c] + b == [c] + b;
      FieldsCons(c, b);
    } else {
      var fa, fb := Fields(a[1..]), Fields(b);
      AppendAssoc(a, [c], b);
      ConsAppend(a, [c] + b);
      AppendAssoc(a[1..], [c], b);
      FieldsCons(a[0], a[1..] + [c] + b);
      FieldsCons(a[0], a[1..]);
      FieldsBreak(a[1..], c, b);
      if IsLineBoundary(a[0]) {
        AppendAssoc([[]], fa, fb);
      } else {
        HeadTailAppend(fa, fb);
        AppendAssoc([[a[0]] + fa[0]], fa[1..], fb);
      }
    }
  }

  lemma FieldsCons(x: char, t: string)
    ensures Fields([x] + t) == if IsLineBoundary(x) then [[]] + Fields(t) else [[x] + Fields(t)[0]] + Fields(t)[1..]
  {
    assert ([x] + t)[1..] == t;
  }

  lemma InitLast(fs: seq<string>)
    requires |fs| >= 1
    ensures fs == fs[..|fs| - 1] + [fs[|fs| - 1]]
  {
  }


  /** The pieces of `a + b`, given the pieces `fa` of `a` and `fb` of `b`:
      the last piece of `a` runs into the first piece of `b`. */
  function Glue(fa: seq<string>, fb: seq<string>): seq<string>
    requires |fa| >= 1 && |fb| >= 1
  {
    fa[..|fa| - 1] + [fa[|fa| - 1] + fb[0]] + fb[1..]
  }

  lemma GlueCons(x: string, fa: seq<string>, fb: seq<string>)
    requires |fa| >= 1 && |fb| >= 1
    ensures Glue([x] + fa, fb) == [x] + Glue(fa, fb)
  {
    assert ([x] + fa)[..|fa|] == [x] + fa[..|fa| - 1];
  }

  lemma GlueFront(c: char, fa: seq<string>, fb: seq<string>)
    requires |fa| >= 1 && |fb| >= 1
    ensures var g := Glue(fa, fb); Glue([[c] + fa[0]] + fa[1..], fb) == [[c] + g[0]] + g[1..]
  {
    var g := Glue(fa, fb);
    if |fa| == 1 {
      assert [c] + (fa[0] + fb[0]) == ([c] + fa[0]) + fb[0];
    } else {
      assert g[0] == fa[0];
      assert g[1..] == fa[1..|fa| - 1] + [fa[|fa| - 1] + fb[0]] + fb[1..];
    }
  }

  /** Concatenating texts glues their pieces. */
  lemma {:induction false} FieldsAppend(a: string, b: string)
    ensures Fields(a + b) == Glue(Fields(a), Fields(b))
    decreases |a|
  {
    if a == [] {
      var fb := Fields(b);
      assert a + b == b;
      assert [] + fb[0] == fb[0];
      assert Glue([[]], fb) == [fb[0]] + fb[1..];
    } else {
      assert (a + b)[1..] == a[1..] + b;
      FieldsAppend(a[1..], b);
      if IsLineBoundary(a[0]) {
        GlueCons([], Fields(a[1..]), Fields(b));
      } else {
        GlueFront(a[0], Fields(a[1..]), Fields(b));
      }
    }
  }

  /** Gluing on pieces of whitespace changes no gene. */
  lemma GenesGlueBlank(fs: seq<string>, ft: seq<string>)
    requires |fs| >= 1 && |ft| >= 1
    requires forall k :: 0 <= k < |ft| ==> AllWhitespace(ft[k])
    ensures Genes(Glue(fs, ft)) == Genes(fs)
  {
    var init, last := fs[..|fs| - 1], fs[|fs| - 1];
    InitLast(fs);
    GenesOfBlankLines(ft[1..]);
    StripTrailing(last, ft[0]);
    assert Genes([last + ft[0]]) == Genes([last]);
    GenesAppend(init + [last + ft[0]], ft[1..]);
    GenesAppend(init, [last + ft[0]]);
    GenesAppend(init, [last]);
  }

  /** The first line gives its gene, if any, ahead of the genes of the rest. */
  lemma GenesCons(x: string, rest: seq<string>)
    ensures Genes([x] + rest) == Gene(x) + Genes(rest)
  {
    assert ([x] + rest)[1..] == rest;
  }

  /** Lines that strip alike give the same gene. */
  lemma GenesSameHead(x: string, y: string, rest: seq<string>)
    requires Strip(x) == Strip(y)
    ensures Genes([x] + rest) == Genes([y] + rest)
  {
    GenesCons(x, rest);
    GenesCons(y, rest);
  }

  /** A boundary at the very front only opens an empty piece. */
  lemma GenesFieldsBreakFirst(c: char, t: string)
    requires IsLineBoundary(c)
    ensures Genes(Fields([c] + t)) == Genes(Fields(t))
  {
    assert ([c] + t)[1..] == t;
    assert Fields([c] + t) == [[]] + Fields(t);
    GenesCons([], Fields(t));
  }

  /** Whitespace in front of the text changes no gene. */
  lemma {:induction false} GenesLeadingWhitespace(lead: string, s: string)
    requires AllWhitespace(lead)
    ensures Genes(Fields(lead + s)) == Genes(Fields(s))
    decreases |lead|
  {
    if lead == [] {
      assert lead + s == s;
    } else {
      var c, t := lead[0], lead[1..] + s;
      assert lead + s == [c] + t;
      GenesLeadingWhitespace(lead[1..], s);
      if IsLineBoundary(c) {
        GenesFieldsBreakFirst(c, t);
      } else {
        var fr := Fields(t);
        assert ([c] + t)[1..] == t;
        assert Fields([c] + t) == [[c] + fr[0]] + fr[1..];
        StripLeading([c], fr[0]);
        GenesSameHead([c] + fr[0], fr[0], fr[1..]);
        assert [fr[0]] + fr[1..] == fr;
      }
    }
  }

  /** Whitespace after the text changes no gene. */
  lemma GenesTrailingWhitespace(s: string, trail: string)
    requires AllWhitespace(trail)
    ensures Genes(Fields(s + trail)) == Genes(Fields(s))
  {
    FieldsAppend(s, trail);
    FieldsOfWhitespace(trail);
    GenesGlueBlank(Fields(s), Fields(trail));
  }

  lemma ReplaceCommasAround(lead: string, m: string, trail: string)
    requires AllWhitespace(lead) && AllWhitespace(trail)
    ensures ReplaceCommas(lead + m + trail) == lead + (ReplaceCommas(m) + trail)
  {
    assert lead + m + trail == lead + (m + trail);
    ReplaceCommasAppend(lead, m + trail);
    ReplaceCommasAppend(m, trail);
    ReplaceCommasUnchanged(lead);
    ReplaceCommasUnchanged(trail);
  }

  /** The leading `strip()` of the file contents changes no gene. */
  lemma TokensStrip(s: string)
    ensures Tokens(Strip(s)) == Tokens(s)
  {
    var lead, trail := StripParts(s);
    var m := ReplaceCommas(Strip(s));
    ReplaceCommasAround(lead, Strip(s), trail);
    GenesLeadingWhitespace(lead, m + trail);
    GenesTrailingWhitespace(m, trail);
  }

  /** Cutting at every boundary: the first line, then the pieces after its
      break, where a break of two boundary characters opens one blank piece. */
  lemma GenesFieldsAtBreak(s: string, i: nat, next: nat)
    requires i < |s| && NoLineBoundary(s[..i]) && IsLineBoundary(s[i])
    requires next == i + 1 || (next == i + 2 && i + 1 < |s| && IsLineBoundary(s[i + 1]))
    ensures Genes(Fields(s)) == Genes([s[..i]]) + Genes(Fields(s[next..]))
  {
    SplitAt(s, i);
    FieldsBreak(s[..i], s[i], s[i + 1..]);
    FieldsNoBreak(s[..i]);
    GenesAppend([s[..i]], Fields(s[i + 1..]));
    if next == i + 2 {
      SplitAt(s, i + 1);
      GenesFieldsBreakFirst(s[i + 1], s[next..]);
    }
  }

  /** `splitlines()` and the every-boundary cut of `Fields` differ only by
      blank lines, so they give the same genes. */
  lemma {:induction false} GenesSplitLines(s: string)
    ensures Genes(SplitLines(s)) == Genes(Fields(s))
    decreases |s|
  {
    if s != [] {
      var i := FirstBreak(s);
      if i == |s| {
        assert s[..i] == s;
        FieldsNoBreak(s);
      } else {
        var next := if s[i] == '\r' && i + 1 < |s| && s[i + 1] == '\n' then i + 2 else i + 1;
        assert SplitLines(s) == [s[..i]] + SplitLines(s[next..]);
        GenesSplitLines(s[next..]);
        GenesAppend([s[..i]], SplitLines(s[next..]));
        GenesFieldsAtBreak(s, i, next);
      }
    }
  }

  /** `leer_genes` reads exactly the non-blank comma- or line-separated tokens. */
  lemma LeerGenesIsTokens(s: string)
    ensures LeerGenes(s) == Tokens(s)
  {
    GenesSplitLines(ReplaceCommas(Strip(s)));
    TokensStrip(s);
  }

  // ---------------------------------------------------------------------------
  // Properties of the reader

  /** Commas and line boundaries separate alike; the tokens on either side are
      read in order, and a symbol that appears twice is read twice. */
  lemma LeerGenesSeparator(a: string, c: char, b: string)
    requires c == ',' || IsLineBoundary(c)
    ensures LeerGenes(a + [c] + b) == LeerGenes(a) + LeerGenes(b)
  {
    LeerGenesIsTokens(a + [c] + b);
    LeerGenesIsTokens(a);
    LeerGenesIsTokens(b);
    ReplaceCommasAppend(a + [c], b);
    ReplaceCommasAppend(a, [c]);
    var c' := if c == ',' then '\n' else c;
    assert ReplaceCommas([c]) == [c'];
    FieldsBreak(ReplaceCommas(a), c', ReplaceCommas(b));
    GenesAppend(Fields(ReplaceCommas(a)), Fields(ReplaceCommas(b)));
  }

  /** The tokens that are not blank once stripped, in their order. */
  function NonBlank(tokens: seq<string>): (kept: seq<string>)
    ensures |kept| <= |tokens|
  {
    if tokens == [] then []
    else (if Strip(tokens[0]) == [] then [] else [tokens[0]]) + NonBlank(tokens[1..])
  }

  /** Every token stripped and upper-cased, one for one. */
  function StripUpperEach(tokens: seq<string>): (r: seq<string>)
    ensures |r| == |tokens|
  {
    if tokens == [] then [] else [Upper(Strip(tokens[0]))] + StripUpperEach(tokens[1..])
  }

  lemma {:induction false} StripUpperEachAt(tokens: seq<string>, k: nat)
    requires k < |tokens|
    ensures StripUpperEach(tokens)[k] == Upper(Strip(tokens[k]))
  {
    if k > 0 {
      StripUpperEachAt(tokens[1..], k - 1);
    }
  }

  /** `Genes` yields one symbol per non-blank token, in the tokens' order. */
  lemma {:induction false} GenesOfNonBlank(tokens: seq<string>)
    ensures Genes(tokens) == StripUpperEach(NonBlank(tokens))
  {
    if tokens != [] {
      var rest := tokens[1..];
      GenesOfNonBlank(rest);
      ConsAppend(tokens, []);
      GenesCons(tokens[0], rest);
      if Strip(tokens[0]) != [] {
        assert NonBlank(tokens) == [tokens[0]] + NonBlank(rest);
        StripUpperEachCons(tokens[0], NonBlank(rest));
        assert Genes(tokens) == [Upper(Strip(tokens[0]))] + Genes(rest);
      } else {
        assert NonBlank(tokens) == NonBlank(rest);
        assert Genes(tokens) == Genes(rest);
      }
    }
  }

  lemma StripUpperEachCons(x: string, r: seq<string>)
    ensures StripUpperEach([x] + r) == [Upper(Strip(x))] + StripUpperEach(r)
  {
    assert ([x] + r)[1..] == r;
  }

  /** The number of genes read is the number of non-blank comma- or
      line-separated tokens, a token that appears twice being counted twice. */
  lemma LeerGenesCount(s: string)
    ensures |LeerGenes(s)| == |NonBlank(Fields(ReplaceCommas(s)))|
  {
    LeerGenesIsTokens(s);
    GenesOfNonBlank(Fields(ReplaceCommas(s)));
  }

  /** The `k`-th gene read is the `k`-th non-blank token, stripped and upper-cased. */
  lemma LeerGenesAt(s: string, k: nat)
    requires k < |LeerGenes(s)|
    ensures k < |NonBlank(Fields(ReplaceCommas(s)))|
      && LeerGenes(s)[k] == Upper(Strip(NonBlank(Fields(ReplaceCommas(s)))[k]))
  {
    LeerGenesCount(s);
    LeerGenesIsTokens(s);
    GenesOfNonBlank(Fields(ReplaceCommas(s)));
    StripUpperEachAt(NonBlank(Fields(ReplaceCommas(s))), k);
  }

  /** A single token gives its trimmed, upper-cased text, or nothing when blank. */
  lemma LeerGenesToken(t: string)
    requires ',' !in t && NoLineBoundary(t)
    ensures LeerGenes(t) == if Strip(t) == [] then [] else [Upper(Strip(t))]
  {
    LeerGenesIsTokens(t);
    ReplaceCommasUnchanged(t);
    FieldsNoBreak(t);
    GenesAppend([t], []);
  }

  /** Writing line breaks for the commas does not change the list read. */
  lemma LeerGenesReplaceCommas(s: string)
    ensures LeerGenes(ReplaceCommas(s)) == LeerGenes(s)
  {
    LeerGenesIsTokens(ReplaceCommas(s));
    LeerGenesIsTokens(s);
    ReplaceCommasUnchanged(ReplaceCommas(s));
  }

  /** A single symbol is read back as itself. */
  lemma LeerGenesOfGene(g: string)
    requires IsGene(g)
    ensures LeerGenes(g) == [g]
  {
    LeerGenesToken(g);
    StripTrimmed(g);
    UpperOfGene(g);
  }

  /** The first symbol of a joined list is read first, then the rest. */
  lemma LeerGenesOfJoinCons(genes: seq<string>, sep: char)
    requires sep == ',' || IsLineBoundary(sep)
    requires |genes| > 1 && IsGene(genes[0])
    ensures LeerGenes(Join(genes, sep)) == [genes[0]] + LeerGenes(Join(genes[1..], sep))
  {
    var g, rest := genes[0], Join(genes[1..], sep);
    assert Join(genes, sep) == g + [sep] + rest;
    LeerGenesOfGene(g);
    LeerGenesSeparator(g, sep, rest);
  }

  /** A list of symbols written out with commas (or with one symbol per line)
      is read back unchanged. */
  lemma {:induction false} LeerGenesOfJoin(genes: seq<string>, sep: char)
    requires sep == ',' || IsLineBoundary(sep)
    requires AreGenes(genes)
    ensures LeerGenes(Join(genes, sep)) == genes
  {
    if |genes| == 0 {
      LeerGenesToken([]);
    } else if |genes| == 1 {
      LeerGenesOfGene(genes[0]);
    } else {
      AreGenesTail(genes);
      LeerGenesOfJoinCons(genes, sep);
      LeerGenesOfJoin(genes[1..], sep);
      ConsAppend(genes, []);
    }
  }

  /** Reading is idempotent: the list read, written back with commas, reads the same. */
  lemma LeerGenesIdempotent(contenido: string)
    ensures LeerGenes(Join(LeerGenes(contenido), ',')) == LeerGenes(contenido)
  {
    LeerGenesOfJoin(LeerGenes(contenido), ',');
  }
}
