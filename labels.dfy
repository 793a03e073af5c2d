/** The chart-label cleaner `limpiar_texto`: the label is cut at its first
    '(', trimmed, split into words, and its first `max_palabras` words are
    joined again with single spaces. */
module Labels {
  import opened Text

  /** The word limit `limpiar_texto` uses when none is given, and the one the
      chart uses. */
  const DefaultMaxPalabras: nat := 3

  /** `text.split("(")[0]`: the text before the first '(', or all of it when
      it has none. */
  function BeforeParen(text: string): (r: string)
    ensures |r| <= |text| && r == text[..|r|]
    ensures '(' !in r
    ensures |r| < |text| ==> text[|r|] == '('
    decreases |text|
  {
    if text == [] || text[0] == '(' then [] else [text[0]] + BeforeParen(text[1..])
  }

  /** `limpiar_texto(text, max_palabras)`. */
  function LimpiarTexto(text: string, maxPalabras: nat): string {
    var palabras := Words(Strip(BeforeParen(text)));
    Join(Take(palabras, maxPalabras), ' ')
  }

  /** A prefix of words free of a character is still free of it. */
  lemma TakeAvoids(ws: seq<string>, n: nat, c: char)
    requires forall k :: 0 <= k < |ws| ==> IsWord(ws[k]) && c !in ws[k]
    ensures forall k :: 0 <= k < |Take(ws, n)| ==> IsWord(Take(ws, n)[k]) && c !in Take(ws, n)[k]
  {
    var kept := Take(ws, n);
    assert forall k :: 0 <= k < |kept| ==> kept[k] == ws[k];
  }

  /** The words `limpiar_texto` keeps: words, none of them holding '('. */
  lemma KeptWords(text: string, maxPalabras: nat)
    ensures var kept := Take(Words(BeforeParen(text)), maxPalabras);
      forall k :: 0 <= k < |kept| ==> IsWord(kept[k]) && '(' !in kept[k]
  {
    WordsAvoid(BeforeParen(text), '(');
    TakeAvoids(Words(BeforeParen(text)), maxPalabras, '(');
  }

  /** Words without '(' joined by single spaces: no '(', nothing around them,
      and they split back into the same words. */
  lemma JoinedWords(ws: seq<string>)
    requires forall k :: 0 <= k < |ws| ==> IsWord(ws[k]) && '(' !in ws[k]
    ensures '(' !in Join(ws, ' ')
    ensures Words(Join(ws, ' ')) == ws
    ensures Trimmed(Join(ws, ' '))
  {
    WordsOfJoin(ws);
    JoinWordsTrimmed(ws, ' ');
    JoinAvoids(ws, ' ', '(');
  }

  /** What a cleaned label is: it holds no '(', its words are the first
      `maxPalabras` words of the text before the first '(' (all of them when
      there are fewer), they are joined by single spaces, and nothing
      surrounds them. */
  lemma LimpiarTextoSpec(text: string, maxPalabras: nat)
    ensures var r := LimpiarTexto(text, maxPalabras);
      && '(' !in r
      && Words(r) == Take(Words(BeforeParen(text)), maxPalabras)
      && |Words(r)| <= maxPalabras
      && Trimmed(r)
      && r == Join(Words(r), ' ')
  {
    var kept := Take(Words(BeforeParen(text)), maxPalabras);
    LimpiarTextoUnstripped(text, maxPalabras);
    KeptWords(text, maxPalabras);
    JoinedWords(kept);
  }

  /** When the text before the first '(' has no more words than the limit,
      the cleaned label keeps all of them. */
  lemma LimpiarTextoKeepsAll(text: string, maxPalabras: nat)
    requires |Words(BeforeParen(text))| <= maxPalabras
    ensures Words(LimpiarTexto(text, maxPalabras)) == Words(BeforeParen(text))
  {
    var ws := Words(BeforeParen(text));
    LimpiarTextoSpec(text, maxPalabras);
    assert Take(ws, maxPalabras) == ws[..|ws|];
  }

  lemma BeforeParenNone(text: string)
    requires '(' !in text
    ensures BeforeParen(text) == text
  {
  }

  lemma {:induction false} BeforeParenFirst(a: string, b: string)
    requires '(' !in a
    ensures BeforeParen(a + ['('] + b) == a
    decreases |a|
  {
    if a == [] {
      assert (a + ['('] + b)[0] == '(';
    } else {
      assert (a + ['('] + b)[1..] == a[1..] + ['('] + b;
      BeforeParenFirst(a[1..], b);
    }
  }

  /** Whatever follows the first '(' is dropped, closing ')' and all. */
  lemma LimpiarTextoDropsParenthetical(a: string, b: string, maxPalabras: nat)
    requires '(' !in a
    ensures LimpiarTexto(a + ['('] + b, maxPalabras) == LimpiarTexto(a, maxPalabras)
  {
    BeforeParenFirst(a, b);
    BeforeParenNone(a);
  }

  /** The `strip()` before `split()` in `limpiar_texto` makes no difference. */
  lemma LimpiarTextoUnstripped(text: string, maxPalabras: nat)
    ensures LimpiarTexto(text, maxPalabras) == Join(Take(Words(BeforeParen(text)), maxPalabras), ' ')
  {
    WordsStrip(BeforeParen(text));
  }

  lemma JoinedWordsNoParen(ws: seq<string>, trail: string)
    requires forall k :: 0 <= k < |ws| ==> '(' !in ws[k]
    requires AllWhitespace(trail)
    ensures '(' !in Join(ws, ' ') + trail
  {
    JoinAvoids(ws, ' ', '(');
    assert !IsWhitespace('(');
  }

  /** Words already joined by single spaces, no more of them than the limit
      and none holding '(', come back unchanged, without any whitespace that
      followed them. */
  lemma LimpiarTextoOfWords(ws: seq<string>, trail: string, maxPalabras: nat)
    requires forall k :: 0 <= k < |ws| ==> IsWord(ws[k]) && '(' !in ws[k]
    requires AllWhitespace(trail)
    requires |ws| <= maxPalabras
    ensures LimpiarTexto(Join(ws, ' ') + trail, maxPalabras) == Join(ws, ' ')
  {
    var t := Join(ws, ' ');
    JoinedWordsNoParen(ws, trail);
    BeforeParenNone(t + trail);
    LimpiarTextoUnstripped(t + trail, maxPalabras);
    WordsTrailing(t, trail);
    WordsOfJoin(ws);
  }

  /** Cleaning a cleaned label changes nothing. */
  lemma LimpiarTextoIdempotent(text: string, maxPalabras: nat)
    ensures LimpiarTexto(LimpiarTexto(text, maxPalabras), maxPalabras) == LimpiarTexto(text, maxPalabras)
  {
    var r := LimpiarTexto(text, maxPalabras);
    LimpiarTextoSpec(text, maxPalabras);
    var ws := Words(r);
    WordsAvoid(r, '(');
    LimpiarTextoOfWords(ws, [], maxPalabras);
    assert r + [] == r;
  }

  /** A label of words, optional whitespace and an annotation in
      parentheses keeps its words when there are no more than the limit. */
  lemma LimpiarTextoAnnotated(ws: seq<string>, trail: string, note: string, maxPalabras: nat)
    requires forall k :: 0 <= k < |ws| ==> IsWord(ws[k]) && '(' !in ws[k]
    requires AllWhitespace(trail)
    requires |ws| <= maxPalabras
    ensures LimpiarTexto(Join(ws, ' ') + trail + ['('] + note, maxPalabras) == Join(ws, ' ')
  {
    var head := Join(ws, ' ') + trail;
    JoinAvoids(ws, ' ', '(');
    assert '(' !in trail by {
      assert !IsWhitespace('(');
    }
    LimpiarTextoDropsParenthetical(head, note, maxPalabras);
    LimpiarTextoOfWords(ws, trail, maxPalabras);
  }

  /** The three words of the GO term label below. */
  lemma GoTermWords() returns (ws: seq<string>)
    ensures Join(ws, ' ') == "Apoptosis Regulation Pathway"
    ensures |ws| == DefaultMaxPalabras
    ensures forall k :: 0 <= k < |ws| ==> IsWord(ws[k]) && '(' !in ws[k]
  {
    ws := ["Apoptosis", "Regulation", "Pathway"];
    LetterWord(ws[0]);
    LetterWord(ws[1]);
    LetterWord(ws[2]);
  }

  /** A non-empty run of ASCII letters is a word without '('. */
  lemma LetterWord(w: string)
    requires w != []
    requires forall i :: 0 <= i < |w| ==> 'A' <= w[i] <= 'Z' || 'a' <= w[i] <= 'z'
    ensures IsWord(w) && '(' !in w
  {
  }

  /** A GO term label loses its identifier in parentheses. (The label is
      written as several literals so that the verifier does not evaluate the
      cleaner on it character by character.) */
  lemma LimpiarTextoGoTerm()
    ensures LimpiarTexto("Apoptosis Regulation Pathway" + " " + ['('] + "GO:001234)", DefaultMaxPalabras)
         == "Apoptosis Regulation Pathway"
  {
    var ws := GoTermWords();
    LimpiarTextoAnnotated(ws, " ", "GO:001234)", DefaultMaxPalabras);
  }

  /** A label with fewer words than the limit is kept whole. */
  lemma LimpiarTextoShortLabel()
    ensures LimpiarTexto("A B", DefaultMaxPalabras) == "A B"
  {
    var ws := ["A", "B"];
    assert Join(ws, ' ') == "A B";
    LimpiarTextoOfWords(ws, [], DefaultMaxPalabras);
    assert "A B" + [] == "A B";
  }
}
