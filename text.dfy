/**
 * String handling shared by every stage: Python's whitespace splitting and
 * stripping, the `" ".join(s.split())` normalisation, ASCII case mapping and
 * the lexicographic string order pandas sorts and aggregates with.
 * Characters are treated as ASCII: case mapping touches 'a'..'z' / 'A'..'Z' only.
 */
module Text {

  /** The ASCII characters Python's `str.split()` and `str.strip()` treat as whitespace. */
  predicate IsSpace(c: char) {
    c == ' ' || 9 <= c as int <= 13 || 28 <= c as int <= 31
  }

  /** Number of leading whitespace characters. */
  function SpanSpaces(s: string): (n: nat)
    ensures n <= |s|
    ensures forall i :: 0 <= i < n ==> IsSpace(s[i])
    ensures n < |s| ==> !IsSpace(s[n])
  {
    if s != [] && IsSpace(s[0]) then 1 + SpanSpaces(s[1..]) else 0
  }

  /** Number of leading non-whitespace characters. */
  function SpanWord(s: string): (n: nat)
    ensures n <= |s|
    ensures forall i :: 0 <= i < n ==> !IsSpace(s[i])
    ensures n < |s| ==> IsSpace(s[n])
  {
    if s != [] && !IsSpace(s[0]) then 1 + SpanWord(s[1..]) else 0
  }

  /** Number of trailing whitespace characters. */
  function TrailingSpaces(s: string): (n: nat)
    ensures n <= |s|
    ensures forall i :: |s| - n <= i < |s| ==> IsSpace(s[i])
    ensures n < |s| ==> !IsSpace(s[|s| - 1 - n])
  {
    if s != [] && IsSpace(s[|s| - 1]) then 1 + TrailingSpaces(s[..|s| - 1]) else 0
  }

  /** Python's `s.strip()`. */
  function Strip(s: string): (r: string)
    ensures r != [] ==> !IsSpace(r[0]) && !IsSpace(r[|r| - 1])
  {
    var t := s[SpanSpaces(s)..];
    t[..|t| - TrailingSpaces(t)]
  }

  /** True of a string made of whitespace only (the empty string included). */
  predicate IsBlank(s: string) {
    forall i :: 0 <= i < |s| ==> IsSpace(s[i])
  }

  /** `s.strip() == ""` holds exactly for the blank strings. */
  lemma StripEmptyIff(s: string)
    ensures Strip(s) == [] <==> IsBlank(s)
  {
    var k := SpanSpaces(s);
    var t := s[k..];
    if k < |s| {
      assert t[0] == s[k];
      assert TrailingSpaces(t) < |t|;
    }
  }

  /** A non-empty run of non-whitespace characters. */
  predicate IsWord(w: string) {
    w != [] && forall i :: 0 <= i < |w| ==> !IsSpace(w[i])
  }

  /** Python's `s.split()`: the maximal runs of non-whitespace characters, in order. */
  function Words(s: string): (ws: seq<string>)
    ensures forall k :: 0 <= k < |ws| ==> IsWord(ws[k])
    decreases |s|
  {
    var t := s[SpanSpaces(s)..];
    if t == [] then []
    else
      var n := SpanWord(t);
      assert n > 0 && |t[n..]| < |s|;
      var w := t[..n];
      assert IsWord(w);
      [w] + Words(t[n..])
  }

  /** Python's `" ".join(ws)`. */
  function Join(ws: seq<string>): string {
    if ws == [] then "" else if |ws| == 1 then ws[0] else ws[0] + " " + Join(ws[1..])
  }

  /**
   * `" ".join(str(s).strip().split())`, the source's `_norm` and
   * `_normalize_whitespace`. Stripping before splitting changes nothing,
   * since `split()` already drops leading and trailing whitespace.
   */
  function Normalize(s: string): string {
    Join(Words(s))
  }

  /**
   * A normalised string: no leading or trailing whitespace, every whitespace
   * character is a plain space, and no two spaces are adjacent.
   */
  predicate IsNormalized(s: string) {
    && (s != [] ==> !IsSpace(s[0]) && !IsSpace(s[|s| - 1]))
    && (forall i :: 0 <= i < |s| && IsSpace(s[i]) ==> s[i] == ' ')
    && (forall i :: 0 <= i < |s| - 1 && s[i] == ' ' ==> s[i + 1] != ' ')
  }

  /** Joining words with single spaces gives a normalised string. */
  lemma {:induction false} JoinIsNormalized(ws: seq<string>)
    requires forall k :: 0 <= k < |ws| ==> IsWord(ws[k])
    ensures IsNormalized(Join(ws))
    ensures ws != [] ==> Join(ws) != []
  {
    if |ws| > 1 {
      JoinIsNormalized(ws[1..]);
      var w, j := ws[0], Join(ws[1..]);
      var r := w + " " + j;
      assert Join(ws) == r;
      assert IsWord(w);
      assert forall i :: 0 <= i < |w| ==> r[i] == w[i];
      assert forall i :: |w| < i < |r| ==> r[i] == j[i - |w| - 1];
      assert r[|w|] == ' ' && r[|w| + 1] == j[0];
      assert r[|r| - 1] == j[|j| - 1];
    } else if |ws| == 1 {
      assert IsWord(ws[0]);
    }
  }

  /** The output of `Normalize` is normalised. */
  lemma NormalizeIsNormalized(s: string)
    ensures IsNormalized(Normalize(s))
  {
    JoinIsNormalized(Words(s));
  }

  /** Splitting ignores the leading whitespace. */
  lemma WordsDropSpaces(s: string)
    ensures Words(s) == Words(s[SpanSpaces(s)..])
  {
    var t := s[SpanSpaces(s)..];
    assert SpanSpaces(t) == 0;
    assert t[0..] == t;
  }

  /** A string that starts with a word splits into that word and the words of the rest. */
  lemma WordsOfWordStart(s: string)
    requires s != [] && !IsSpace(s[0])
    ensures Words(s) == [s[..SpanWord(s)]] + Words(s[SpanWord(s)..])
  {
    assert SpanSpaces(s) == 0;
    assert s[0..] == s;
  }

  /** What follows the first word and its single space in a normalised string is normalised. */
  lemma NormalizedAfterWord(s: string, n: nat)
    requires IsNormalized(s) && n + 1 < |s| && s[n] == ' '
    ensures IsNormalized(s[n + 1..]) && s[n + 1..] != [] && !IsSpace(s[n + 1])
  {
    var rest := s[n + 1..];
    assert s[n + 1] != ' ';
    forall i | 0 <= i < |rest| && IsSpace(rest[i]) ensures rest[i] == ' ' {
      assert rest[i] == s[n + 1 + i];
    }
    forall i | 0 <= i < |rest| - 1 && rest[i] == ' ' ensures rest[i + 1] != ' ' {
      assert rest[i] == s[n + 1 + i] && rest[i + 1] == s[n + 2 + i];
    }
    assert rest[|rest| - 1] == s[|s| - 1];
  }

  lemma JoinCons(w: string, ws: seq<string>)
    requires ws != []
    ensures Join([w] + ws) == w + " " + Join(ws)
  {
    assert ([w] + ws)[1..] == ws;
  }

  /** Skipping one space before a word does not change the words. */
  lemma WordsAfterSpace(s: string)
    requires |s| > 1 && IsSpace(s[0]) && !IsSpace(s[1])
    ensures Words(s) == Words(s[1..])
  {
    assert SpanSpaces(s) == 1;
    WordsDropSpaces(s);
  }

  /** A normalised string with a space splits into its first word, one space, and a normalised rest. */
  lemma NormalizedSplit(s: string, n: nat)
    requires IsNormalized(s) && s != [] && n == SpanWord(s) && n < |s|
    ensures n + 1 < |s| && s == s[..n] + " " + s[n + 1..]
    ensures IsNormalized(s[n + 1..])
    ensures Words(s) == [s[..n]] + Words(s[n + 1..])
    ensures Words(s[n + 1..]) != []
  {
    assert s[n] == ' ';
    assert n != |s| - 1;
    SplitAround(s, n);
    var rest := s[n + 1..];
    NormalizedAfterWord(s, n);
    WordsOfWordStart(s);
    WordsAfterSpace(s[n..]);
    WordsOfWordStart(rest);
  }

  lemma SplitAround(s: string, n: nat)
    requires n < |s|
    ensures s == s[..n] + [s[n]] + s[n + 1..]
    ensures s[n..] == [s[n]] + s[n + 1..] && s[n..][1..] == s[n + 1..]
  {
  }

  /** A normalised string is left unchanged by `Normalize`. */
  lemma {:induction false} NormalizedIsFixpoint(s: string)
    requires IsNormalized(s)
    ensures Normalize(s) == s
    decreases |s|
  {
    if s != [] {
      var n := SpanWord(s);
      var w := s[..n];
      if n == |s| {
        WordsOfWordStart(s);
        assert w == s;
        assert s[n..] == [];
        assert Words(s) == [s];
      } else {
        NormalizedSplit(s, n);
        var rest := s[n + 1..];
        NormalizedIsFixpoint(rest);
        JoinCons(w, Words(rest));
      }
    }
  }

  /** `_norm` is idempotent. */
  lemma NormalizeIdempotent(s: string)
    ensures Normalize(Normalize(s)) == Normalize(s)
  {
    NormalizeIsNormalized(s);
    NormalizedIsFixpoint(Normalize(s));
  }

  /** The length of the leading word, pinned down by where it ends. */
  lemma SpanWordAt(s: string, n: nat)
    requires n <= |s| && (forall i :: 0 <= i < n ==> !IsSpace(s[i]))
    requires n < |s| ==> IsSpace(s[n])
    ensures SpanWord(s) == n
  {
  }

  /** A single word splits into itself. */
  lemma WordsOfWord(w: string)
    requires IsWord(w)
    ensures Words(w) == [w]
  {
    SpanWordAt(w, |w|);
    WordsOfWordStart(w);
    assert w[..|w|] == w && w[|w|..] == [];
  }

  /** A word, one space and a text starting with a word split into that word and the text's words. */
  lemma WordsOfWordSpace(w: string, j: string)
    requires IsWord(w) && j != [] && !IsSpace(j[0])
    ensures Words(w + " " + j) == [w] + Words(j)
  {
    var s := w + " " + j;
    SpanWordAt(s, |w|);
    WordsOfWordStart(s);
    assert s[..|w|] == w;
    var rest := s[|w|..];
    assert rest == " " + j;
    assert rest[1..] == j;
    WordsAfterSpace(rest);
  }

  /** Splitting words joined with single spaces gives the words back. */
  lemma {:induction false} WordsOfJoin(ws: seq<string>)
    requires forall k :: 0 <= k < |ws| ==> IsWord(ws[k])
    ensures Words(Join(ws)) == ws
  {
    if |ws| == 1 {
      WordsOfWord(ws[0]);
    } else if |ws| > 1 {
      JoinIsNormalized(ws[1..]);
      WordsOfJoin(ws[1..]);
      WordsOfWordSpace(ws[0], Join(ws[1..]));
      assert ws == [ws[0]] + ws[1..];
    }
  }

  /** Normalising keeps the words of the text, in order: only the whitespace between them changes. */
  lemma NormalizeKeepsWords(s: string)
    ensures Words(Normalize(s)) == Words(s)
  {
    WordsOfJoin(Words(s));
  }

  /** Two texts normalise alike exactly when they have the same words. */
  lemma NormalizeEqualIff(a: string, b: string)
    ensures Normalize(a) == Normalize(b) <==> Words(a) == Words(b)
  {
    NormalizeKeepsWords(a);
    NormalizeKeepsWords(b);
  }

  /** Stripping a string without leading or trailing whitespace changes nothing. */
  lemma StripUnpadded(s: string)
    requires s != [] ==> !IsSpace(s[0]) && !IsSpace(s[|s| - 1])
    ensures Strip(s) == s
  {
    assert SpanSpaces(s) == 0 && s[0..] == s;
    assert TrailingSpaces(s) == 0;
  }

  /** Stripping a normalised string changes nothing. */
  lemma StripNormalized(s: string)
    requires IsNormalized(s)
    ensures Strip(s) == s
  {
    StripUnpadded(s);
  }

  /** A character map applied to every character of a string. */
  function MapChars(f: char -> char, s: string): string {
    seq(|s|, i requires 0 <= i < |s| => f(s[i]))
  }

  /** A character map that keeps every whitespace class and maps a space to a space. */
  ghost predicate SpacePreserving(f: char -> char) {
    f(' ') == ' ' && forall c :: IsSpace(f(c)) == IsSpace(c)
  }

  /** Normalisation commutes with a space-preserving character map. */
  lemma NormalizeMapChars(f: char -> char, s: string)
    requires SpacePreserving(f)
    ensures Normalize(MapChars(f, s)) == MapChars(f, Normalize(s))
  {
    WordsMapChars(f, s);
    JoinMapChars(f, Words(s));
  }

  function MapWords(f: char -> char, ws: seq<string>): seq<string> {
    seq(|ws|, k requires 0 <= k < |ws| => MapChars(f, ws[k]))
  }

  lemma {:induction false} SpansMapChars(f: char -> char, s: string)
    requires SpacePreserving(f)
    ensures SpanSpaces(MapChars(f, s)) == SpanSpaces(s)
    ensures SpanWord(MapChars(f, s)) == SpanWord(s)
  {
    if s != [] {
      assert IsSpace(f(s[0])) == IsSpace(s[0]);
      assert MapChars(f, s)[1..] == MapChars(f, s[1..]);
      SpansMapChars(f, s[1..]);
    }
  }

  lemma MapCharsSlices(f: char -> char, s: string, k: nat)
    requires k <= |s|
    ensures MapChars(f, s)[k..] == MapChars(f, s[k..])
    ensures MapChars(f, s)[..k] == MapChars(f, s[..k])
  {
  }

  lemma {:induction false} WordsMapChars(f: char -> char, s: string)
    requires SpacePreserving(f)
    ensures Words(MapChars(f, s)) == MapWords(f, Words(s))
    decreases |s|
  {
    var m := MapChars(f, s);
    var k := SpanSpaces(s);
    SpansMapChars(f, s);
    var t := s[k..];
    MapCharsSlices(f, s, k);
    var mt := MapChars(f, t);
    assert m[k..] == mt;
    if t != [] {
      var n := SpanWord(t);
      SpansMapChars(f, t);
      MapCharsSlices(f, t, n);
      WordsMapChars(f, t[n..]);
      WordsStep(m);
      WordsStep(s);
      MapWordsCons(f, t[..n], Words(t[n..]));
    } else {
      assert mt == [];
    }
  }

  /** One step of `Words`, spelled out. */
  lemma WordsStep(s: string)
    ensures var t := s[SpanSpaces(s)..];
      Words(s) == if t == [] then [] else [t[..SpanWord(t)]] + Words(t[SpanWord(t)..])
  {
  }

  lemma MapWordsCons(f: char -> char, w: string, ws: seq<string>)
    ensures MapWords(f, [w] + ws) == [MapChars(f, w)] + MapWords(f, ws)
  {
  }

  lemma {:induction false} JoinMapChars(f: char -> char, ws: seq<string>)
    requires f(' ') == ' '
    ensures Join(MapWords(f, ws)) == MapChars(f, Join(ws))
  {
    if |ws| > 1 {
      JoinMapChars(f, ws[1..]);
      assert MapWords(f, ws)[1..] == MapWords(f, ws[1..]);
      assert MapChars(f, ws[0] + " " + Join(ws[1..]))
          == MapChars(f, ws[0]) + " " + MapChars(f, Join(ws[1..]));
    } else if |ws| == 1 {
      assert MapWords(f, ws) == [MapChars(f, ws[0])];
    }
  }

  /** Mapping the characters of a normalised text maps each of the original words. */
  lemma MapNormalizeWords(f: char -> char, s: string)
    requires SpacePreserving(f)
    ensures Words(MapChars(f, Normalize(s))) == MapWords(f, Words(s))
  {
    WordsMapChars(f, Normalize(s));
    NormalizeKeepsWords(s);
  }

  /** Python's `str.upper()` on one ASCII character. */
  function UpperChar(c: char): char {
    if 'a' <= c <= 'z' then (c as int - 32) as char else c
  }

  /** Python's `str.lower()` on one ASCII character. */
  function LowerChar(c: char): char {
    if 'A' <= c <= 'Z' then (c as int + 32) as char else c
  }

  function Upper(s: string): string {
    MapChars(UpperChar, s)
  }

  function Lower(s: string): string {
    MapChars(LowerChar, s)
  }

  /** No lower-case ASCII letter occurs. */
  predicate IsUpperCase(s: string) {
    forall i :: 0 <= i < |s| ==> !('a' <= s[i] <= 'z')
  }

  lemma UpperCharSpacePreserving()
    ensures SpacePreserving(UpperChar)
  {
  }

  lemma LowerCharSpacePreserving()
    ensures SpacePreserving(LowerChar)
  {
  }

  /** Upper-casing a normalised string keeps it normalised and makes it upper case. */
  lemma UpperKeepsNormalized(s: string)
    requires IsNormalized(s)
    ensures IsNormalized(Upper(s)) && IsUpperCase(Upper(s))
  {
    var u := Upper(s);
    forall i | 0 <= i < |u|
      ensures IsSpace(u[i]) == IsSpace(s[i]) && (u[i] == ' ' <==> s[i] == ' ') && !('a' <= u[i] <= 'z')
    {
      assert u[i] == UpperChar(s[i]);
    }
  }

  /** All occurrences of `c` removed, the rest in order (`str.replace(c, "")`). */
  function RemoveChar(s: string, c: char): (r: string)
    ensures forall x :: x in r <==> x in s && x != c
  {
    if s == [] then [] else (if s[0] == c then [] else [s[0]]) + RemoveChar(s[1..], c)
  }

  /** Python's `<` on strings: lexicographic by code point. */
  predicate StrLt(a: string, b: string) {
    if a == [] then b != []
    else if b == [] then false
    else a[0] < b[0] || (a[0] == b[0] && StrLt(a[1..], b[1..]))
  }

  predicate StrLe(a: string, b: string) {
    a == b || StrLt(a, b)
  }

  lemma {:induction false} StrLtIrreflexive(a: string)
    ensures !StrLt(a, a)
  {
    if a != [] {
      StrLtIrreflexive(a[1..]);
    }
  }

  lemma {:induction false} StrLtTransitive(a: string, b: string, c: string)
    requires StrLt(a, b) && StrLt(b, c)
    ensures StrLt(a, c)
  {
    if a != [] && a[0] == b[0] && b[0] == c[0] {
      StrLtTransitive(a[1..], b[1..], c[1..]);
    }
  }

  lemma {:induction false} StrLtTotal(a: string, b: string)
    ensures StrLt(a, b) || a == b || StrLt(b, a)
  {
    if a != [] && b != [] && a[0] == b[0] {
      StrLtTotal(a[1..], b[1..]);
      if a[1..] == b[1..] {
        assert a == [a[0]] + a[1..] && b == [b[0]] + b[1..];
      }
    }
  }

  lemma StrLtAsymmetric(a: string, b: string)
    requires StrLt(a, b)
    ensures !StrLt(b, a) && a != b
  {
    StrLtIrreflexive(a);
    if StrLt(b, a) {
      StrLtTransitive(a, b, a);
    }
  }
}
