/**
 Byte strings and the two byte-level operations applied to an
 authorization header value: Python's `bytes.split()` without a separator
 (split on runs of ASCII whitespace, dropping empty pieces) and ASCII-only
 `bytes.lower()`.
 */
module Words {

  /** A byte, as Python's `bytes` elements are: an integer in 0..255. */
  newtype Byte = x: int | 0 <= x < 0x100

  type Bytes = seq<Byte>

  /** The bytes that `bytes.isspace` accepts: space, \t, \n, \x0b, \x0c and \r. */
  predicate IsSpace(b: Byte) {
    b == 0x20 || 0x09 <= b <= 0x0D
  }

  predicate AllSpace(g: Bytes) {
    forall i :: 0 <= i < |g| ==> IsSpace(g[i])
  }

  /** A piece that `bytes.split()` can return: non-empty and free of whitespace. */
  predicate IsWord(w: Bytes) {
    |w| > 0 && forall i :: 0 <= i < |w| ==> !IsSpace(w[i])
  }

  /** A byte-string literal `b"..."` written with ASCII characters. */
  function Ascii(s: string): Bytes
    requires forall i :: 0 <= i < |s| ==> s[i] as int < 0x80
  {
    seq(|s|, i requires 0 <= i < |s| => s[i] as int as Byte)
  }

  /** Length of the longest whitespace-free prefix of `s`. */
  function WordLength(s: Bytes): (n: nat)
    ensures n <= |s|
    ensures forall i :: 0 <= i < n ==> !IsSpace(s[i])
    ensures n == |s| || IsSpace(s[n])
  {
    if |s| == 0 || IsSpace(s[0]) then 0 else 1 + WordLength(s[1..])
  }

  /** `s.split()`: the maximal whitespace-free runs of `s`, in order. */
  function Split(s: Bytes): (words: seq<Bytes>)
    ensures forall i :: 0 <= i < |words| ==> IsWord(words[i])
    decreases |s|
  {
    if |s| == 0 then []
    else if IsSpace(s[0]) then Split(s[1..])
    else
      var n := WordLength(s);
      [s[..n]] + Split(s[n..])
  }

  /** Reassembles gaps[0] + words[0] + gaps[1] + ... + words[k-1] + gaps[k]. */
  function Join(gaps: seq<Bytes>, words: seq<Bytes>): Bytes
    requires |gaps| == |words| + 1
    decreases |words|
  {
    if |words| == 0 then gaps[0]
    else gaps[0] + words[0] + Join(gaps[1..], words[1..])
  }

  /** The whitespace around `count` words: all gaps are whitespace, and
      the gaps strictly between two words are not empty. */
  predicate ValidGaps(gaps: seq<Bytes>, count: nat) {
    && |gaps| == count + 1
    && (forall i :: 0 <= i < |gaps| ==> AllSpace(gaps[i]))
    && (forall i :: 0 < i < count ==> |gaps[i]| > 0)
  }

  predicate AllWords(words: seq<Bytes>) {
    forall i :: 0 <= i < |words| ==> IsWord(words[i])
  }

  /** Leading whitespace never contributes a piece. */
  lemma {:induction false} SplitSkipsSpace(g: Bytes, t: Bytes)
    requires AllSpace(g)
    ensures Split(g + t) == Split(t)
    decreases |g|
  {
    if |g| == 0 {
      assert g + t == t;
    } else {
      assert (g + t)[1..] == g[1..] + t;
      SplitSkipsSpace(g[1..], t);
    }
  }

  /** A word followed by whitespace (or by nothing) is split off whole. */
  lemma SplitTakesWord(w: Bytes, t: Bytes)
    requires IsWord(w)
    requires |t| == 0 || IsSpace(t[0])
    ensures Split(w + t) == [w] + Split(t)
  {
    var s := w + t;
    assert !IsSpace(s[0]);
    assert forall i :: 0 <= i < |w| ==> s[i] == w[i];
    assert |s| > |w| ==> s[|w|] == t[0];
    assert WordLength(s) == |w|;
    assert s[..|w|] == w;
    assert s[|w|..] == t;
  }

  /** Splitting a reassembled string gives back exactly its words. */
  lemma {:induction false} SplitJoin(gaps: seq<Bytes>, words: seq<Bytes>)
    requires ValidGaps(gaps, |words|)
    requires AllWords(words)
    ensures Split(Join(gaps, words)) == words
    decreases |words|
  {
    if |words| == 0 {
      SplitSkipsSpace(gaps[0], []);
      assert gaps[0] + [] == gaps[0];
    } else {
      var rest := Join(gaps[1..], words[1..]);
      assert ValidGaps(gaps[1..], |words| - 1) by {
        forall i | 0 < i < |words| - 1
          ensures |gaps[1..][i]| > 0
        {
          assert gaps[1..][i] == gaps[i + 1];
        }
      }
      SplitJoin(gaps[1..], words[1..]);
      assert |rest| == 0 || IsSpace(rest[0]) by {
        if |words| > 1 {
          assert rest == gaps[1] + words[1] + Join(gaps[2..], words[2..]);
          assert rest[0] == gaps[1][0];
        } else {
          assert rest == gaps[1];
        }
      }
      SplitTakesWord(words[0], rest);
      SplitSkipsSpace(gaps[0], words[0] + rest);
      assert Join(gaps, words) == gaps[0] + (words[0] + rest);
      assert [words[0]] + words[1..] == words;
    }
  }

  /** A whitespace byte in front of a decomposition widens its first gap. */
  lemma PrependSpace(c: Byte, g: seq<Bytes>, words: seq<Bytes>)
    requires IsSpace(c) && ValidGaps(g, |words|)
    ensures ValidGaps([[c] + g[0]] + g[1..], |words|)
    ensures Join([[c] + g[0]] + g[1..], words) == [c] + Join(g, words)
  {
    var gaps := [[c] + g[0]] + g[1..];
    assert gaps[1..] == g[1..];
    assert AllSpace(gaps[0]) by {
      assert forall i :: 1 <= i < |gaps[0]| ==> gaps[0][i] == g[0][i - 1];
    }
    assert forall i :: 0 < i < |gaps| ==> gaps[i] == g[i];
  }

  /** A word in front of a decomposition that starts with whitespace (or
      is empty) becomes its first word, behind an empty gap. */
  lemma PrependWord(w: Bytes, g: seq<Bytes>, words: seq<Bytes>)
    requires IsWord(w) && ValidGaps(g, |words|)
    requires |words| > 0 ==> |g[0]| > 0
    ensures ValidGaps([[]] + g, |words| + 1)
    ensures Join([[]] + g, [w] + words) == w + Join(g, words)
  {
    var gaps, ws := [[]] + g, [w] + words;
    assert gaps[1..] == g && ws[1..] == words;
    assert Join(gaps, ws) == [] + w + Join(g, words);
    forall i | 0 < i < |gaps|
      ensures AllSpace(gaps[i]) && (i < |ws| ==> |gaps[i]| > 0)
    {
      assert gaps[i] == g[i - 1];
    }
  }

  /** Every byte string is its split words surrounded by valid gaps. */
  lemma {:induction false} SplitDecomposes(s: Bytes) returns (gaps: seq<Bytes>)
    ensures ValidGaps(gaps, |Split(s)|)
    ensures Join(gaps, Split(s)) == s
    ensures |s| > 0 && IsSpace(s[0]) ==> |gaps[0]| > 0
    decreases |s|
  {
    if |s| == 0 {
      gaps := [[]];
    } else if IsSpace(s[0]) {
      var g := SplitDecomposes(s[1..]);
      PrependSpace(s[0], g, Split(s[1..]));
      gaps := [[s[0]] + g[0]] + g[1..];
      assert s == [s[0]] + s[1..];
    } else {
      var n := WordLength(s);
      var g := SplitDecomposes(s[n..]);
      PrependWord(s[..n], g, Split(s[n..]));
      gaps := [[]] + g;
      assert s == s[..n] + s[n..];
    }
  }

  /** `Split` is characterised without reference to how it is computed:
      `Split(s) == words` exactly when the words are whitespace-free,
      non-empty, and `s` is those words separated (and possibly preceded
      and followed) by whitespace. */
  lemma SplitCharacterised(s: Bytes, words: seq<Bytes>)
    ensures Split(s) == words <==>
      (AllWords(words) && exists gaps :: ValidGaps(gaps, |words|) && Join(gaps, words) == s)
  {
    if Split(s) == words {
      var gaps := SplitDecomposes(s);
      assert ValidGaps(gaps, |words|) && Join(gaps, words) == s;
    }
    if AllWords(words) && exists gaps :: ValidGaps(gaps, |words|) && Join(gaps, words) == s {
      var gaps :| ValidGaps(gaps, |words|) && Join(gaps, words) == s;
      SplitJoin(gaps, words);
    }
  }

  /** ASCII-only lowercasing of one byte, as `bytes.lower()` does it. */
  function LowerByte(b: Byte): Byte {
    if 0x41 <= b <= 0x5A then b + 0x20 else b
  }

  /** `s.lower()`: bytes outside A..Z, including all bytes above 0x7F, are kept. */
  function Lower(s: Bytes): Bytes {
    seq(|s|, i requires 0 <= i < |s| => LowerByte(s[i]))
  }

  predicate IsLowerLetter(b: Byte) {
    0x61 <= b <= 0x7A
  }

  /** `w` spells the lower-case letters of `lit`, each in either case. */
  predicate MatchesIgnoringCase(w: Bytes, lit: Bytes) {
    |w| == |lit| && forall i :: 0 <= i < |w| ==> w[i] == lit[i] || w[i] as int == lit[i] as int - 0x20
  }

  /** Comparing `w.lower()` with a lower-case literal is a letter-by-letter,
      case-insensitive comparison: each byte of `w` is the lower- or the
      upper-case form of the literal's letter, and nothing else matches. */
  lemma LowerMatchesIgnoringCase(w: Bytes, lit: Bytes)
    requires forall i :: 0 <= i < |lit| ==> IsLowerLetter(lit[i])
    ensures Lower(w) == lit <==> MatchesIgnoringCase(w, lit)
  {
    if MatchesIgnoringCase(w, lit) {
      assert forall i :: 0 <= i < |w| ==> Lower(w)[i] == lit[i];
    }
  }

  /** Lowercasing twice is lowercasing once. */
  lemma LowerIdempotent(s: Bytes)
    ensures Lower(Lower(s)) == Lower(s)
  {
  }
}
