/**
 The two Python string methods the handlers and scripts apply to user text:
 `str.strip()` (no arguments) and `str.lower()`, and their composition, which
 every keyword comparison in the system goes through.
 */
module Strings {

  /** The characters Python's `str.isspace()` accepts, which `str.strip()` removes. */
  predicate IsSpace(c: char) {
    var n := c as int;
    || (0x09 <= n <= 0x0D)
    || (0x1C <= n <= 0x20)
    || n == 0x85 || n == 0xA0 || n == 0x1680
    || (0x2000 <= n <= 0x200A)
    || n == 0x2028 || n == 0x2029 || n == 0x202F || n == 0x205F || n == 0x3000
  }

  predicate AllSpace(s: string) {
    forall k | 0 <= k < |s| :: IsSpace(s[k])
  }

  /** No whitespace at either end. */
  predicate Trimmed(s: string) {
    |s| == 0 || (!IsSpace(s[0]) && !IsSpace(s[|s| - 1]))
  }

  /** Cutting `s` to `s[i..j]` removes only whitespace. */
  predicate Framed(s: string, i: int, j: int) {
    && 0 <= i <= j <= |s|
    && (forall m | 0 <= m < i :: IsSpace(s[m]))
    && (forall m | j <= m < |s| :: IsSpace(s[m]))
  }

  /** The first index at or after `i` that does not hold whitespace, or `|s|`. */
  function SkipSpace(s: string, i: nat): (k: nat)
    requires i <= |s|
    ensures i <= k <= |s|
    ensures forall m | i <= m < k :: IsSpace(s[m])
    ensures k == |s| || !IsSpace(s[k])
    decreases |s| - i
  {
    if i < |s| && IsSpace(s[i]) then SkipSpace(s, i + 1) else i
  }

  /** The end, at or after `lo`, of `s[..j]` without its trailing whitespace. */
  function SkipSpaceBack(s: string, lo: nat, j: nat): (k: nat)
    requires lo <= j <= |s|
    ensures lo <= k <= j
    ensures forall m | k <= m < j :: IsSpace(s[m])
    ensures k == lo || !IsSpace(s[k - 1])
    decreases j
  {
    if lo < j && IsSpace(s[j - 1]) then SkipSpaceBack(s, lo, j - 1) else j
  }

  /** Where `Strip(s)` starts inside `s`. */
  function StripStart(s: string): nat {
    SkipSpace(s, 0)
  }

  /** Where `Strip(s)` ends inside `s`. */
  function StripEnd(s: string): nat {
    SkipSpaceBack(s, StripStart(s), |s|)
  }

  /** Python's `s.strip()`: the infix of `s` left after removing whitespace at both ends. */
  function Strip(s: string): (r: string)
    ensures Framed(s, StripStart(s), StripEnd(s)) && r == s[StripStart(s)..StripEnd(s)]
    ensures Trimmed(r)
  {
    StripCuts(s);
    s[StripStart(s)..StripEnd(s)]
  }

  lemma StripCuts(s: string)
    ensures Framed(s, StripStart(s), StripEnd(s))
    ensures Trimmed(s[StripStart(s)..StripEnd(s)])
  {
    var i, j := StripStart(s), StripEnd(s);
    if i < j {
      InfixEnds(s, i, j);
    }
  }

  lemma InfixEnds(s: string, i: nat, j: nat)
    requires i < j <= |s|
    ensures s[i..j][0] == s[i] && s[i..j][j - i - 1] == s[j - 1]
  {
  }

  /** A trimmed framing is unique: it cuts exactly where `Strip` does. */
  lemma FramingUnique(s: string, i: nat, j: nat, i0: nat, j0: nat)
    requires Framed(s, i, j) && Trimmed(s[i..j])
    requires Framed(s, i0, j0) && Trimmed(s[i0..j0])
    ensures s[i..j] == s[i0..j0]
  {
    if i < j {
      InfixEnds(s, i, j);
    }
    if i0 < j0 {
      InfixEnds(s, i0, j0);
    }
    if i == j || i0 == j0 {
      assert i == j && i0 == j0;
    } else {
      assert i == i0 && j == j0;
    }
  }

  /** Stripping is determined by the decomposition: any trimmed infix with only whitespace around it is the result. */
  lemma StripUnique(s: string, i: nat, j: nat)
    requires Framed(s, i, j) && Trimmed(s[i..j])
    ensures Strip(s) == s[i..j]
  {
    StripCuts(s);
    FramingUnique(s, i, j, StripStart(s), StripEnd(s));
  }

  lemma StripTrimmed(s: string)
    requires Trimmed(s)
    ensures Strip(s) == s
  {
    assert s[0..|s|] == s;
    StripUnique(s, 0, |s|);
  }

  lemma StripIdempotent(s: string)
    ensures Strip(Strip(s)) == Strip(s)
  {
    StripTrimmed(Strip(s));
  }

  /** Only whitespace is stripped to nothing. */
  lemma StripBlank(s: string)
    ensures Strip(s) == "" <==> AllSpace(s)
  {
    StripCuts(s);
    if AllSpace(s) {
      StripUnique(s, 0, 0);
    }
  }

  /**
   Python's `str.lower()` on the characters whose lower-case form is ASCII:
   `A`-`Z`, and KELVIN SIGN (U+212A), which lower-cases to `k`. Every other
   character is kept; see the README for why that is enough here.
   */
  function LowerChar(c: char): char {
    if 'A' <= c <= 'Z' then (c as int + 32) as char
    else if c == '\U{212A}' then 'k'
    else c
  }

  lemma LowerCharIdempotent(c: char)
    ensures LowerChar(LowerChar(c)) == LowerChar(c)
  {
  }

  function Lower(s: string): (r: string)
    ensures |r| == |s|
    ensures forall k | 0 <= k < |s| :: r[k] == LowerChar(s[k])
  {
    seq(|s|, k requires 0 <= k < |s| => LowerChar(s[k]))
  }

  /** Text that lower-casing leaves as it is. */
  predicate LowerCase(s: string) {
    forall k | 0 <= k < |s| :: LowerChar(s[k]) == s[k]
  }

  lemma LowerFixed(s: string)
    requires LowerCase(s)
    ensures Lower(s) == s
  {
  }

  lemma LowerIsLowerCase(s: string)
    ensures LowerCase(Lower(s))
  {
    forall k | 0 <= k < |s| ensures LowerChar(Lower(s)[k]) == Lower(s)[k] {
      LowerCharIdempotent(s[k]);
    }
  }

  /** `s.strip().lower()`, the normalisation every keyword comparison applies. */
  function Norm(s: string): (r: string)
    ensures Trimmed(r) && LowerCase(r)
    ensures |r| == |Strip(s)|
  {
    LowerKeepsTrimmed(Strip(s));
    LowerIsLowerCase(Strip(s));
    Lower(Strip(s))
  }

  /**
   Reference definition of a keyword match, independent of how stripping is
   computed: `s` is the keyword in any letter case, with whitespace around it.
   */
  ghost predicate MatchesKeyword(s: string, k: string) {
    exists i, j | Framed(s, i, j) :: Lower(s[i..j]) == k
  }

  lemma LowerKeepsTrimmed(s: string)
    ensures Trimmed(Lower(s)) <==> Trimmed(s)
  {
  }

  lemma NormMatchesKeyword(s: string, k: string)
    requires Trimmed(k)
    ensures Norm(s) == k <==> MatchesKeyword(s, k)
  {
    if Norm(s) == k {
      NormIsKeyword(s);
    }
    if MatchesKeyword(s, k) {
      KeywordIsNorm(s, k);
    }
  }

  /** The same, for a keyword given as its own normal form. */
  lemma NormalMatchesKeyword(s: string, k: string)
    requires Norm(k) == k
    ensures Norm(s) == k <==> MatchesKeyword(s, k)
  {
    LowerKeepsTrimmed(Strip(k));
    NormMatchesKeyword(s, k);
  }

  /** The stripped text is a witness of the keyword match. */
  lemma NormIsKeyword(s: string)
    ensures MatchesKeyword(s, Norm(s))
  {
    KeywordWitness(s, StripStart(s), StripEnd(s), Norm(s));
  }

  lemma KeywordWitness(s: string, i: nat, j: nat, k: string)
    requires Framed(s, i, j) && Lower(s[i..j]) == k
    ensures MatchesKeyword(s, k)
  {
  }

  /** Any witness of a match with a trimmed keyword is where stripping cuts. */
  lemma KeywordIsNorm(s: string, k: string)
    requires Trimmed(k) && MatchesKeyword(s, k)
    ensures Norm(s) == k
  {
    var i, j :| Framed(s, i, j) && Lower(s[i..j]) == k;
    LowerKeepsTrimmed(s[i..j]);
    StripUnique(s, i, j);
  }

  /** Trimmed lower-case text is its own normal form. */
  lemma NormFixed(s: string)
    requires Trimmed(s) && LowerCase(s)
    ensures Norm(s) == s
  {
    StripTrimmed(s);
    LowerFixed(s);
  }

  /** Blank text spells no keyword. */
  lemma NoKeywordInEmpty(k: string)
    requires |k| > 0
    ensures !MatchesKeyword("", k)
  {
    forall i, j | Framed("", i, j) ensures Lower(""[i..j]) != k {
      assert |Lower(""[i..j])| == 0;
    }
  }

  /** Normalising twice is normalising once. */
  lemma NormIdempotent(s: string)
    ensures Norm(Norm(s)) == Norm(s)
  {
    var t := Strip(s);
    LowerKeepsTrimmed(t);
    StripTrimmed(Lower(t));
    LowerIdempotent(t);
  }

  lemma LowerIdempotent(t: string)
    ensures Lower(Lower(t)) == Lower(t)
  {
    forall k | 0 <= k < |t| ensures LowerChar(LowerChar(t[k])) == LowerChar(t[k]) {
      LowerCharIdempotent(t[k]);
    }
  }
}
