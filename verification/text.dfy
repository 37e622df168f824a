/** String helpers: JavaScript's `String.prototype.trim` and `includes`.
    A string is a sequence of Unicode scalar values; every character `trim`
    removes lies in the Basic Multilingual Plane, so this agrees with the
    UTF-16 view of JavaScript for the characters in question. */
module Text {
  import Seqs

  /** The characters `trim` strips: ECMAScript's WhiteSpace (tab, vertical tab,
      form feed, space, no-break space, zero-width no-break space and the Zs
      space separators) and LineTerminator (LF, CR, LS, PS). */
  const Whitespace: set<char> := {
    '\t', '\n', '\U{000B}', '\U{000C}', '\r', ' ', '\U{00A0}', '\U{1680}',
    '\U{2000}', '\U{2001}', '\U{2002}', '\U{2003}', '\U{2004}', '\U{2005}',
    '\U{2006}', '\U{2007}', '\U{2008}', '\U{2009}', '\U{200A}',
    '\U{2028}', '\U{2029}', '\U{202F}', '\U{205F}', '\U{3000}', '\U{FEFF}'
  }

  predicate IsWhitespace(c: char) {
    c in Whitespace
  }

  predicate AllWhitespace(s: string) {
    forall k :: 0 <= k < |s| ==> IsWhitespace(s[k])
  }

  /** `r` is `s` less some leading and some trailing whitespace. */
  ghost predicate Strips(s: string, r: string) {
    exists pre, post :: s == pre + r + post && AllWhitespace(pre) && AllWhitespace(post)
  }

  /** The position of the first character at or after `k` that is not
      whitespace, or `|s|` when there is none. */
  function SkipBlanksFrom(s: string, k: nat): (n: nat)
    requires k <= |s|
    ensures k <= n <= |s|
    ensures forall m :: k <= m < n ==> IsWhitespace(s[m])
    ensures n == |s| || !IsWhitespace(s[n])
    decreases |s| - k
  {
    if k < |s| && IsWhitespace(s[k]) then SkipBlanksFrom(s, k + 1) else k
  }

  /** The end of `s[..k]` once its trailing whitespace is dropped. */
  function DropBlanksBefore(s: string, k: nat): (n: nat)
    requires k <= |s|
    ensures n <= k
    ensures forall m :: n <= m < k ==> IsWhitespace(s[m])
    ensures n == 0 || !IsWhitespace(s[n - 1])
  {
    if k > 0 && IsWhitespace(s[k - 1]) then DropBlanksBefore(s, k - 1) else k
  }

  /** `s` with leading and trailing whitespace removed (`trim`): `s` is some
      whitespace, then the result, then some whitespace, and the result neither
      starts nor ends with whitespace. It is empty exactly when `s` is all
      whitespace. */
  function Trim(s: string): (r: string)
    ensures |r| <= |s|
    ensures Strips(s, r)
    ensures r == [] || (!IsWhitespace(r[0]) && !IsWhitespace(r[|r| - 1]))
    ensures r == [] <==> AllWhitespace(s)
  {
    var i := SkipBlanksFrom(s, 0);
    if i == |s| then
      TrimBlank(s);
      []
    else
      var j := DropBlanksBefore(s, |s|);
      TrimSplit(s, i, j);
      s[i..j]
  }

  /** When no character is left after the leading whitespace, `s` is all
      whitespace and trims to nothing. */
  lemma TrimBlank(s: string)
    requires SkipBlanksFrom(s, 0) == |s|
    ensures AllWhitespace(s) && Strips(s, [])
  {
    assert s == s + [] + [];
    assert AllWhitespace([]);
  }

  /** Otherwise the trimmed text runs from the first to the last character
      that is not whitespace. */
  lemma TrimSplit(s: string, i: nat, j: nat)
    requires i < |s| && j <= |s|
    requires forall k :: 0 <= k < i ==> IsWhitespace(s[k])
    requires forall k :: j <= k < |s| ==> IsWhitespace(s[k])
    requires !IsWhitespace(s[i]) && (j == 0 || !IsWhitespace(s[j - 1]))
    ensures i < j
    ensures Strips(s, s[i..j])
    ensures !IsWhitespace(s[i..j][0]) && !IsWhitespace(s[i..j][j - i - 1])
    ensures !AllWhitespace(s)
  {
    assert i < j;
    BlankSlices(s, i, j);
    StripsAt(s, i, j);
    assert s[i..j][0] == s[i];
    assert s[i..j][j - i - 1] == s[j - 1];
  }

  /** The characters before `i` and from `j` on are whitespace. */
  lemma BlankSlices(s: string, i: nat, j: nat)
    requires i <= j <= |s|
    requires forall k :: 0 <= k < i ==> IsWhitespace(s[k])
    requires forall k :: j <= k < |s| ==> IsWhitespace(s[k])
    ensures AllWhitespace(s[..i]) && AllWhitespace(s[j..])
  {
    forall k | 0 <= k < |s[j..]| ensures IsWhitespace(s[j..][k]) {
      assert s[j..][k] == s[j + k];
    }
  }

  /** Cutting whitespace off both ends of `s` strips it. */
  lemma StripsAt(s: string, i: nat, j: nat)
    requires i <= j <= |s|
    requires AllWhitespace(s[..i]) && AllWhitespace(s[j..])
    ensures Strips(s, s[i..j])
  {
    Seqs.SplitThree(s, i, j);
  }

  /** Trimming twice is trimming once. */
  lemma TrimIdempotent(s: string)
    ensures Trim(Trim(s)) == Trim(s)
  {
    var r := Trim(s);
    if r != [] {
      assert SkipBlanksFrom(r, 0) == 0;
      assert DropBlanksBefore(r, |r|) == |r|;
      assert r[0..|r|] == r;
    }
  }

  /** `needle` occurs in `hay` as a contiguous run (`hay.includes(needle)`). */
  predicate Contains(hay: string, needle: string) {
    exists i :: 0 <= i <= |hay| && needle <= hay[i..]
  }
}
