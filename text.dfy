/** The Python `str` and list primitives that the analysis script relies on:
    `isspace`, `strip`, `split()` with no separator, `sep.join`, `upper` and the
    slice `xs[:n]` for `n >= 0`. Characters are Unicode scalar values. */
module Text {

  /** The characters for which Python's `str.isspace()` holds; `strip()` and
      `split()` without arguments treat exactly these as whitespace. */
  predicate IsWhitespace(c: char) {
    || ('\t' <= c <= '\r')
    || ('\U{1C}' <= c <= ' ')
    || c == '\U{85}' || c == '\U{A0}' || c == '\U{1680}'
    || ('\U{2000}' <= c <= '\U{200A}')
    || c == '\U{2028}' || c == '\U{2029}' || c == '\U{202F}' || c == '\U{205F}' || c == '\U{3000}'
  }

  /** The characters at which Python's `str.splitlines()` breaks a line
      (a "\r\n" pair counts as a single break). */
  predicate IsLineBoundary(c: char) {
    || ('\n' <= c <= '\r')
    || ('\U{1C}' <= c <= '\U{1E}')
    || c == '\U{85}' || c == '\U{2028}' || c == '\U{2029}'
  }

  predicate AllWhitespace(s: string) {
    forall i :: 0 <= i < |s| ==> IsWhitespace(s[i])
  }

  predicate NoWhitespace(s: string) {
    forall i :: 0 <= i < |s| ==> !IsWhitespace(s[i])
  }

  /** A string with no whitespace at either end, as `strip()` leaves it. */
  predicate Trimmed(s: string) {
    s == [] || (!IsWhitespace(s[0]) && !IsWhitespace(s[|s| - 1]))
  }

  /** One word of `split()`: non-empty and free of whitespace. */
  predicate IsWord(w: string) {
    w != [] && NoWhitespace(w)
  }

  /** `s.lstrip()`: the longest suffix of `s` that does not start with whitespace. */
  function TrimStart(s: string): (r: string)
    ensures |r| <= |s| && r == s[|s| - |r|..]
    ensures AllWhitespace(s[..|s| - |r|])
    ensures r == [] || !IsWhitespace(r[0])
    decreases |s|
  {
    if s != [] && IsWhitespace(s[0]) then TrimStart(s[1..]) else s
  }

  /** `s.rstrip()`: the longest prefix of `s` that does not end with whitespace. */
  function TrimEnd(s: string): (r: string)
    ensures |r| <= |s| && r == s[..|r|]
    ensures AllWhitespace(s[|r|..])
    ensures r == [] || !IsWhitespace(r[|r| - 1])
    decreases |s|
  {
    if s != [] && IsWhitespace(s[|s| - 1]) then
      var r := TrimEnd(s[..|s| - 1]);
      assert s[|r|..] == s[..|s| - 1][|r|..] + [s[|s| - 1]];
      r
    else s
  }

  /** `s.strip()`. */
  function Strip(s: string): (r: string)
    ensures Trimmed(r)
    ensures |r| <= |s|
  {
    TrimEnd(TrimStart(s))
  }

  lemma TrimStartPart(s: string) returns (lead: string)
    ensures s == lead + TrimStart(s) && AllWhitespace(lead)
  {
    lead := s[..|s| - |TrimStart(s)|];
  }

  lemma TrimEndPart(s: string) returns (trail: string)
    ensures s == TrimEnd(s) + trail && AllWhitespace(trail)
  {
    trail := s[|TrimEnd(s)|..];
  }

  /** `Strip` removes whitespace only: `s` is that whitespace around the result. */
  lemma StripParts(s: string) returns (lead: string, trail: string)
    ensures s == lead + Strip(s) + trail
    ensures AllWhitespace(lead) && AllWhitespace(trail)
  {
    lead := TrimStartPart(s);
    trail := TrimEndPart(TrimStart(s));
    AppendAssoc(lead, Strip(s), trail);
  }

  /** A string without surrounding whitespace is left alone by `strip()`. */
  lemma StripTrimmed(s: string)
    requires Trimmed(s)
    ensures Strip(s) == s
  {
  }

  /** A string made only of whitespace strips to the empty string. */
  lemma StripAllWhitespace(s: string)
    requires AllWhitespace(s)
    ensures Strip(s) == []
  {
  }

  /** `lstrip()` ignores whitespace put in front of a string. */
  lemma {:induction false} TrimStartLeading(lead: string, s: string)
    requires AllWhitespace(lead)
    ensures TrimStart(lead + s) == TrimStart(s)
    decreases |lead|
  {
    if lead != [] {
      assert (lead + s)[1..] == lead[1..] + s;
      TrimStartLeading(lead[1..], s);
    } else {
      assert lead + s == s;
    }
  }

  /** Whitespace in front of a string does not survive `strip()`. */
  lemma StripLeading(lead: string, s: string)
    requires AllWhitespace(lead)
    ensures Strip(lead + s) == Strip(s)
  {
    TrimStartLeading(lead, s);
  }

  /** `rstrip()` ignores whitespace appended to a string. */
  lemma {:induction false} TrimEndTrailing(s: string, trail: string)
    requires AllWhitespace(trail)
    ensures TrimEnd(s + trail) == TrimEnd(s)
    decreases |trail|
  {
    if trail != [] {
      var shorter := trail[..|trail| - 1];
      assert (s + trail)[..|s + trail| - 1] == s + shorter;
      TrimEndTrailing(s, shorter);
    } else {
      assert s + trail == s;
    }
  }

  lemma AllWhitespaceCons(s: string)
    requires s != []
    ensures AllWhitespace(s) <==> IsWhitespace(s[0]) && AllWhitespace(s[1..])
  {
    if IsWhitespace(s[0]) && AllWhitespace(s[1..]) {
      assert forall i :: 0 < i < |s| ==> s[i] == s[1..][i - 1];
    }
  }

  /** `lstrip()` of a string followed by whitespace. */
  lemma {:induction false} TrimStartTrailing(s: string, trail: string)
    requires AllWhitespace(trail)
    ensures AllWhitespace(s) ==> TrimStart(s + trail) == []
    ensures !AllWhitespace(s) ==> TrimStart(s + trail) == TrimStart(s) + trail
    decreases |s|
  {
    if s == [] {
      assert s + trail == trail;
    } else {
      ConsAppend(s, trail);
      assert (s + trail)[1..] == s[1..] + trail;
      TrimStartTrailing(s[1..], trail);
      AllWhitespaceCons(s);
    }
  }

  /** Whitespace after a string does not survive `strip()`. */
  lemma StripTrailing(s: string, trail: string)
    requires AllWhitespace(trail)
    ensures Strip(s + trail) == Strip(s)
  {
    TrimStartTrailing(s, trail);
    if AllWhitespace(s) {
      StripAllWhitespace(s);
    } else {
      TrimEndTrailing(TrimStart(s), trail);
    }
  }

  /** The longest prefix of `s` free of whitespace. */
  function LeadingWord(s: string): (w: string)
    ensures |w| <= |s| && w == s[..|w|]
    ensures NoWhitespace(w)
    ensures |w| < |s| ==> IsWhitespace(s[|w|])
    decreases |s|
  {
    if s == [] || IsWhitespace(s[0]) then [] else [s[0]] + LeadingWord(s[1..])
  }

  /** `s.split()`: the maximal runs of non-whitespace characters, in order. */
  function Words(s: string): (ws: seq<string>)
    ensures forall k :: 0 <= k < |ws| ==> IsWord(ws[k])
    decreases |s|
  {
    if s == [] then []
    else if IsWhitespace(s[0]) then Words(s[1..])
    else
      var w := LeadingWord(s);
      [w] + Words(s[|w|..])
  }

  /** Every character of every word comes from the text. */
  lemma {:induction false} WordsChars(s: string)
    ensures forall k, j :: 0 <= k < |Words(s)| && 0 <= j < |Words(s)[k]| ==> Words(s)[k][j] in s
    decreases |s|
  {
    if s != [] {
      if IsWhitespace(s[0]) {
        WordsChars(s[1..]);
        assert forall c :: c in s[1..] ==> c in s;
      } else {
        var w := LeadingWord(s);
        WordsChars(s[|w|..]);
        assert forall c :: c in s[|w|..] ==> c in s;
        assert forall c :: c in w ==> c in s;
        ConsIndexes(w, Words(s[|w|..]));
      }
    }
  }

  /** A character missing from the text is missing from each of its words. */
  lemma WordsAvoid(s: string, c: char)
    requires c !in s
    ensures forall k :: 0 <= k < |Words(s)| ==> c !in Words(s)[k]
  {
    WordsChars(s);
  }

  lemma ConsIndexes(w: string, ws: seq<string>)
    ensures forall k :: 0 < k <= |ws| ==> ([w] + ws)[k] == ws[k - 1]
  {
  }

  /** `split()` skips leading whitespace. */
  lemma {:induction false} WordsLeading(lead: string, s: string)
    requires AllWhitespace(lead)
    ensures Words(lead + s) == Words(s)
  {
    if lead != [] {
      assert (lead + s)[1..] == lead[1..] + s;
      WordsLeading(lead[1..], s);
    } else {
      assert lead + s == s;
    }
  }

  lemma {:induction false} LeadingWordTrailing(s: string, trail: string)
    requires trail == [] || IsWhitespace(trail[0])
    ensures LeadingWord(s + trail) == LeadingWord(s)
    decreases |s|
  {
    if s == [] {
      assert s + trail == trail;
    } else {
      assert (s + trail)[1..] == s[1..] + trail;
      LeadingWordTrailing(s[1..], trail);
    }
  }

  /** `split()` skips trailing whitespace. */
  lemma {:induction false} WordsTrailing(s: string, trail: string)
    requires AllWhitespace(trail)
    ensures Words(s + trail) == Words(s)
    decreases |s|
  {
    if s == [] {
      assert s + trail == trail;
      WordsLeading(trail, []);
      assert trail + [] == trail;
    } else if IsWhitespace(s[0]) {
      assert (s + trail)[1..] == s[1..] + trail;
      WordsTrailing(s[1..], trail);
    } else {
      LeadingWordTrailing(s, trail);
      var w := LeadingWord(s);
      assert (s + trail)[|w|..] == s[|w|..] + trail;
      WordsTrailing(s[|w|..], trail);
    }
  }

  /** `split()` gives the same words before and after `strip()`. */
  lemma WordsStrip(s: string)
    ensures Words(Strip(s)) == Words(s)
  {
    var lead, trail := StripParts(s);
    WordsLeading(lead, Strip(s) + trail);
    WordsTrailing(Strip(s), trail);
    AppendAssoc(lead, Strip(s), trail);
  }

  /** `sep.join(ws)` for a one-character separator. */
  function Join(ws: seq<string>, sep: char): string {
    if |ws| == 0 then []
    else if |ws| == 1 then ws[0]
    else ws[0] + [sep] + Join(ws[1..], sep)
  }

  /** A character that none of the joined strings holds is only found in the
      result if it is the separator. */
  lemma {:induction false} JoinAvoids(ws: seq<string>, sep: char, c: char)
    requires c != sep
    requires forall k :: 0 <= k < |ws| ==> c !in ws[k]
    ensures c !in Join(ws, sep)
  {
    if |ws| > 1 {
      JoinAvoids(ws[1..], sep, c);
    }
  }

  /** Joining words with a whitespace separator leaves no whitespace at either end. */
  lemma {:induction false} JoinWordsTrimmed(ws: seq<string>, sep: char)
    requires forall k :: 0 <= k < |ws| ==> IsWord(ws[k])
    ensures Trimmed(Join(ws, sep))
  {
    if |ws| > 1 {
      JoinWordsTrimmed(ws[1..], sep);
      var rest := Join(ws[1..], sep);
      var r := ws[0] + [sep] + rest;
      assert r[|r| - 1] == rest[|rest| - 1];
    }
  }

  /** A word followed by nothing or by whitespace is the first word `split()` finds. */
  lemma WordsAfterWord(w: string, rest: string)
    requires IsWord(w)
    requires rest == [] || IsWhitespace(rest[0])
    ensures Words(w + rest) == [w] + Words(rest)
  {
    LeadingWordTrailing(w, rest);
    LeadingWordTrailing(w, []);
    assert w + [] == w;
    assert (w + rest)[|w|..] == rest;
  }

  /** `split()` undoes `' '.join(ws)` when every element of `ws` is a word. */
  lemma {:induction false} WordsOfJoin(ws: seq<string>)
    requires forall k :: 0 <= k < |ws| ==> IsWord(ws[k])
    ensures Words(Join(ws, ' ')) == ws
  {
    if |ws| == 1 {
      WordsAfterWord(ws[0], []);
      assert ws[0] + [] == ws[0];
    } else if |ws| > 1 {
      var rest := Join(ws[1..], ' ');
      WordsAfterWord(ws[0], [' '] + rest);
      assert ws[0] + [' '] + rest == ws[0] + ([' '] + rest);
      assert ([' '] + rest)[1..] == rest;
      WordsOfJoin(ws[1..]);
      assert ws == [ws[0]] + ws[1..];
    }
  }

  /** Python's `upper()` restricted to ASCII: 'a'..'z' become 'A'..'Z'. */
  /** The capital letters, in alphabetical order. */
  const Capitals: string := "ABCDEFGHIJKLMNOPQRSTUVWXYZ"

  /** `c.upper()` for ASCII. */
  function UpperChar(c: char): char {
    if 'a' <= c <= 'z' then (c as int - 32) as char else c
  }

  /** A lower-case letter becomes the capital at the same place in the
      alphabet, and every other character stays. */
  lemma UpperCharSpec(c: char)
    ensures 'a' <= c <= 'z' ==> UpperChar(c) == Capitals[c as int - 'a' as int]
    ensures !('a' <= c <= 'z') ==> UpperChar(c) == c
    ensures !('a' <= UpperChar(c) <= 'z')
  {
  }

  function Upper(s: string): (r: string)
    ensures |r| == |s|
  {
    seq(|s|, i requires 0 <= i < |s| => UpperChar(s[i]))
  }

  /** `s.upper()` for ASCII letters: no lower-case letter is left, each one
      becomes its capital, every other character stays where it was, and
      upper-casing twice changes nothing more. */
  lemma UpperSpec(s: string)
    ensures NoLowercase(Upper(s))
    ensures forall i :: 0 <= i < |s| && 'a' <= s[i] <= 'z' ==> Upper(s)[i] == Capitals[s[i] as int - 'a' as int]
    ensures forall i :: 0 <= i < |s| && !('a' <= s[i] <= 'z') ==> Upper(s)[i] == s[i]
    ensures Upper(Upper(s)) == Upper(s)
  {
  }

  predicate NoLowercase(s: string) {
    forall i :: 0 <= i < |s| ==> !('a' <= s[i] <= 'z')
  }

  /** `xs[:n]` for `n >= 0`: the first `n` elements, or all of them when there are fewer. */
  function Take<T>(xs: seq<T>, n: nat): (r: seq<T>)
    ensures |r| == if n < |xs| then n else |xs|
    ensures r == xs[..|r|]
  {
    if n < |xs| then xs[..n] else xs
  }

  // ---------------------------------------------------------------------------
  // Sequence steps, proved once so that larger proofs need not redo them

  lemma ConsAppend<T>(a: seq<T>, b: seq<T>)
    requires a != []
    ensures a == [a[0]] + a[1..]
    ensures a + b == [a[0]] + (a[1..] + b)
  {
  }

  lemma AppendAssoc<T>(x: seq<T>, y: seq<T>, z: seq<T>)
    ensures (x + y) + z == x + (y + z)
  {
  }

  lemma HeadTailAppend<T>(p: seq<T>, q: seq<T>)
    requires p != []
    ensures (p + q)[0] == p[0] && (p + q)[1..] == p[1..] + q
  {
  }

  lemma SplitAt<T>(s: seq<T>, i: int)
    requires 0 <= i < |s|
    ensures s == s[..i] + [s[i]] + s[i + 1..]
    ensures s[i..] == [s[i]] + s[i + 1..]
  {
  }
}
