/** Text handling shared by the two input validators and the two printers:
    splitting on runs of whitespace (Python's `str.split()` with no argument,
    JavaScript's `text.trim().split(/\s+/)`), integer formatting (`str(n)`,
    `String(n)`) and `Array.prototype.join`. */
module Text {

  /** The six ASCII whitespace characters: space, tab, line feed, carriage
      return, vertical tab and form feed. Python's `str.split()` also splits
      at the separators U+001C to U+001F, and both it and JavaScript's `\s`
      at Unicode spaces; those count as token characters here. */
  predicate IsSpace(c: char)
  {
    c == ' ' || c == '\t' || c == '\n' || c == '\r' || c == '\U{B}' || c == '\U{C}'
  }

  predicate NoSpace(s: string)
  {
    forall k :: 0 <= k < |s| ==> !IsSpace(s[k])
  }

  /** `!text.trim()`: nothing but whitespace. */
  predicate AllSpace(s: string)
  {
    forall k :: 0 <= k < |s| ==> IsSpace(s[k])
  }

  /** Length of the run of non-whitespace characters that starts `s`. */
  function RunLength(s: string): (k: nat)
    ensures k <= |s| && NoSpace(s[..k])
    ensures k < |s| ==> IsSpace(s[k])
  {
    if s == [] || IsSpace(s[0]) then 0 else 1 + RunLength(s[1..])
  }

  /** The maximal runs of non-whitespace characters, in order: what splitting
      the trimmed text on `/\s+/`, or Python's argument-less `split()`, yields
      on text whose only whitespace is that of `IsSpace`. */
  function Tokens(s: string): (r: seq<string>)
    ensures forall k :: 0 <= k < |r| ==> r[k] != [] && NoSpace(r[k])
    decreases |s|
  {
    if s == [] then []
    else if IsSpace(s[0]) then Tokens(s[1..])
    else
      var k := RunLength(s);
      [s[..k]] + Tokens(s[k..])
  }

  lemma {:induction false} AllSpaceNoTokens(s: string)
    ensures AllSpace(s) <==> Tokens(s) == []
    decreases |s|
  {
    if s != [] {
      if IsSpace(s[0]) {
        AllSpaceNoTokens(s[1..]);
        assert AllSpace(s) <==> AllSpace(s[1..]) by {
          if AllSpace(s[1..]) {
            forall k | 0 <= k < |s| ensures IsSpace(s[k]) {
              if k > 0 { assert s[k] == s[1..][k - 1]; }
            }
          }
        }
      }
    }
  }

  lemma {:induction false} RunLengthStopsAtSpace(a: string, c: char, b: string)
    requires IsSpace(c)
    ensures RunLength(a + [c] + b) == RunLength(a)
  {
    if a != [] {
      assert (a + [c] + b)[1..] == a[1..] + [c] + b;
      RunLengthStopsAtSpace(a[1..], c, b);
    }
  }

  /** A whitespace character separates the tokens before it from those after. */
  lemma {:induction false} TokensSplit(a: string, c: char, b: string)
    requires IsSpace(c)
    ensures Tokens(a + [c] + b) == Tokens(a) + Tokens(b)
    decreases |a|
  {
    var s := a + [c] + b;
    if a == [] {
      assert s == [c] + b;
      assert s[1..] == b;
    } else if IsSpace(a[0]) {
      assert s[1..] == a[1..] + [c] + b;
      TokensSplit(a[1..], c, b);
    } else {
      RunLengthStopsAtSpace(a, c, b);
      var k := RunLength(a);
      assert s[..k] == a[..k];
      assert s[k..] == a[k..] + [c] + b;
      TokensSplit(a[k..], c, b);
    }
  }

  lemma TokensOfWord(w: string)
    requires w != [] && NoSpace(w)
    ensures Tokens(w) == [w]
  {
    assert RunLength(w) == |w|;
    assert w[..|w|] == w;
    assert w[|w|..] == [];
  }

  /** JavaScript's `words.join(sep)` and Python's `sep.join(words)`. */
  function Join(words: seq<string>, sep: string): string
  {
    if words == [] then ""
    else if |words| == 1 then words[0]
    else words[0] + sep + Join(words[1..], sep)
  }

  /** Joining words with a whitespace separator and splitting again gives the
      words back. */
  lemma {:induction false} TokensOfJoin(words: seq<string>, c: char)
    requires IsSpace(c)
    requires forall k :: 0 <= k < |words| ==> words[k] != [] && NoSpace(words[k])
    ensures Tokens(Join(words, [c])) == words
  {
    if |words| == 1 {
      TokensOfWord(words[0]);
    } else if |words| > 1 {
      TokensOfJoin(words[1..], c);
      TokensSplit(words[0], c, Join(words[1..], [c]));
      TokensOfWord(words[0]);
    }
  }

  function DigitChar(d: nat): char
    requires d < 10
  {
    "0123456789"[d]
  }

  function NatToString(n: nat): (r: string)
    ensures r != [] && NoSpace(r)
  {
    if n < 10 then [DigitChar(n)] else NatToString(n / 10) + [DigitChar(n % 10)]
  }

  /** `str(n)` in Python, `String(n)` in JavaScript, for an integer. */
  function IntToString(n: int): (r: string)
    ensures r != [] && NoSpace(r)
    ensures 0 <= n < 10 ==> r == [DigitChar(n)]
  {
    if n < 0 then "-" + NatToString(-n) else NatToString(n)
  }
}
