/** String primitives with the meaning Python gives them: substring search
    (`str.find`, `in`), the case folding of case-insensitive regex literals,
    the regex classes `\s` and `\b`, and the decimal rendering of integers
    (`str(n)`, `f"{n}"`). */
module Text {

  // ----- substring search -----

  /** `s[i + j..i + |t|]` is `t[j..]`. */
  predicate AgreeFrom(s: string, t: string, i: nat, j: nat)
    requires i + |t| <= |s| && j <= |t|
    decreases |t| - j
  {
    j == |t| || (s[i + j] == t[j] && AgreeFrom(s, t, i, j + 1))
  }

  /** `t` occurs in `s` at index `i`: `s[i..i + |t|] == t`. */
  predicate IsAt(s: string, t: string, i: int) {
    0 <= i && i + |t| <= |s| && AgreeFrom(s, t, i, 0)
  }

  /** Python's `t in s`. */
  predicate Contains(s: string, t: string) {
    exists i | 0 <= i <= |s| :: IsAt(s, t, i)
  }

  /** `k` is the first index at or after `start` where `t` occurs in `s`. */
  predicate IsFirstFrom(s: string, t: string, start: int, k: int) {
    start <= k && IsAt(s, t, k) && forall j :: start <= j < k ==> !IsAt(s, t, j)
  }

  /** Python's `s.find(t, start)` for a non-negative `start`: the least index
      at or after `start` where `t` occurs, or -1 when there is none. */
  function FindFrom(s: string, t: string, start: nat): (r: int)
    ensures r == -1 || IsFirstFrom(s, t, start, r)
    ensures r == -1 ==> forall j :: start <= j ==> !IsAt(s, t, j)
    decreases |s| - start
  {
    if start + |t| > |s| then -1
    else if IsAt(s, t, start) then start
    else FindFrom(s, t, start + 1)
  }

  /** Python's `s.find(t)`. */
  function Find(s: string, t: string): (r: int)
    ensures r == -1 <==> !Contains(s, t)
    ensures r != -1 ==> IsFirstFrom(s, t, 0, r)
  {
    FindFrom(s, t, 0)
  }

  /** No `c` in `s[a..b]`. */
  predicate NoCharIn(s: string, c: char, a: nat, b: nat)
    requires b <= |s|
    decreases b - a
  {
    a >= b || (s[a] != c && NoCharIn(s, c, a + 1, b))
  }

  /** The first index at or after `start` holding `c`, or -1: where a
      greedy `[^c]*` starting at `start` stops. */
  function FindChar(s: string, c: char, start: nat): (r: int)
    ensures r == -1 || (start <= r < |s| && s[r] == c)
    decreases |s| - start
  {
    if start >= |s| then -1
    else if s[start] == c then start
    else FindChar(s, c, start + 1)
  }

  /** `FindChar` passes no `c`. */
  lemma {:induction false} FindCharScanned(s: string, c: char, start: nat)
    requires start <= |s|
    ensures var r := FindChar(s, c, start); NoCharIn(s, c, start, if r == -1 then |s| else r)
    decreases |s| - start
  {
    if start < |s| && s[start] != c {
      FindCharScanned(s, c, start + 1);
    }
  }

  /** `FindChar` finds `b` when `s[b]` is the first `c` from `a` on. */
  lemma {:induction false} FindCharIs(s: string, c: char, a: nat, b: nat)
    requires a <= b < |s| && s[b] == c && NoCharIn(s, c, a, b)
    ensures FindChar(s, c, a) == b
    decreases b - a
  {
    if a < b {
      FindCharIs(s, c, a + 1, b);
    }
  }

  /** `FindChar` from `a` gets past a stretch without `c`. */
  lemma {:induction false} FindCharBeyond(s: string, c: char, a: nat, b: nat)
    requires a <= b <= |s| && NoCharIn(s, c, a, b)
    ensures FindChar(s, c, a) == -1 || b <= FindChar(s, c, a)
    decreases b - a
  {
    if a < b {
      FindCharBeyond(s, c, a + 1, b);
    }
  }

  /** A stretch without `c` extends over one more character that is not `c`. */
  lemma {:induction false} NoCharInExtend(s: string, c: char, a: nat, b: nat)
    requires a <= b < |s| && NoCharIn(s, c, a, b) && s[b] != c
    ensures NoCharIn(s, c, a, b + 1)
    decreases b - a
  {
    if a < b {
      NoCharInExtend(s, c, a + 1, b);
    }
  }

  /** A stretch without `c` has no `c` in any prefix. */
  lemma {:induction false} NoCharInPrefix(s: string, c: char, a: nat, b: nat, b': nat)
    requires b' <= b <= |s| && NoCharIn(s, c, a, b)
    ensures NoCharIn(s, c, a, b')
    decreases b - a
  {
    if a < b' {
      NoCharInPrefix(s, c, a + 1, b, b');
    }
  }

  /** The stretch of `s` where `t` occurs from `t[j]` on has no `c` when
      `t[j..]` has none. */
  lemma {:induction false} NoCharInCopyFrom(s: string, t: string, c: char, i: nat, j: nat)
    requires IsAt(s, t, i) && j <= |t| && NoCharIn(t, c, j, |t|)
    ensures NoCharIn(s, c, i + j, i + |t|)
    decreases |t| - j
  {
    if j < |t| {
      IsAtChar(s, t, i, j);
      NoCharInCopyFrom(s, t, c, i, j + 1);
    }
  }

  /** A piece without `c` leaves a stretch without `c` wherever it occurs. */
  lemma NoCharInCopy(s: string, t: string, c: char, i: nat)
    requires IsAt(s, t, i) && Lacks(t, c)
    ensures NoCharIn(s, c, i, i + |t|)
  {
    NoCharInCopyFrom(s, t, c, i, 0);
  }

  /** `t` has no `c`, as a scan (the form the proofs use). */
  predicate Lacks(t: string, c: char) {
    NoCharIn(t, c, 0, |t|)
  }

  lemma {:induction false} NotInFrom(t: string, c: char, j: nat)
    requires c !in t && j <= |t|
    ensures NoCharIn(t, c, j, |t|)
    decreases |t| - j
  {
    if j < |t| {
      assert t[j] in t;
      NotInFrom(t, c, j + 1);
    }
  }

  /** `Lacks` is `!in`. */
  lemma LacksIsNotIn(t: string, c: char)
    ensures Lacks(t, c) <==> c !in t
  {
    if c !in t {
      NotInFrom(t, c, 0);
    } else {
      var k :| 0 <= k < |t| && t[k] == c;
      if Lacks(t, c) {
        NoCharInUpTo(t, c, 0, |t|, k);
      }
    }
  }

  /** A stretch without `c` ends at or before any `c` after its start. */
  lemma {:induction false} NoCharInUpTo(s: string, c: char, a: nat, b: nat, k: nat)
    requires b <= |s| && NoCharIn(s, c, a, b) && a <= k < |s| && s[k] == c
    ensures b <= k
    decreases b - a
  {
    if a < b && a < k {
      NoCharInUpTo(s, c, a + 1, b, k);
    }
  }

  /** The first occurrence is unique. */
  lemma FirstFromUnique(s: string, t: string, start: int, k1: int, k2: int)
    requires IsFirstFrom(s, t, start, k1) && IsFirstFrom(s, t, start, k2)
    ensures k1 == k2
  {
  }

  lemma {:induction false} AgreeFromAt(s: string, t: string, i: nat, j: nat, k: nat)
    requires i + |t| <= |s| && j <= k < |t| && AgreeFrom(s, t, i, j)
    ensures s[i + k] == t[k]
    decreases k - j
  {
    if j < k {
      AgreeFromAt(s, t, i, j + 1, k);
    }
  }

  lemma {:induction false} AgreeFromChars(s: string, t: string, i: nat, j: nat)
    requires i + |t| <= |s| && j <= |t|
    requires forall k :: j <= k < |t| ==> s[i + k] == t[k]
    ensures AgreeFrom(s, t, i, j)
    decreases |t| - j
  {
    if j < |t| {
      AgreeFromChars(s, t, i, j + 1);
    }
  }

  /** One character of an occurrence. */
  lemma IsAtChar(s: string, t: string, i: int, k: int)
    requires IsAt(s, t, i) && 0 <= k < |t|
    ensures s[i + k] == t[k]
  {
    AgreeFromAt(s, t, i, 0, k);
  }

  /** An occurrence is a slice. */
  lemma IsAtIsSlice(s: string, t: string, i: int)
    requires 0 <= i && i + |t| <= |s|
    ensures IsAt(s, t, i) <==> s[i..i + |t|] == t
  {
    if IsAt(s, t, i) {
      forall k | 0 <= k < |t|
        ensures s[i..i + |t|][k] == t[k]
      {
        IsAtChar(s, t, i, k);
      }
    }
    if s[i..i + |t|] == t {
      forall k | 0 <= k < |t|
        ensures s[i + k] == t[k]
      {
        assert s[i..i + |t|][k] == s[i + k];
      }
      AgreeFromChars(s, t, i, 0);
    }
  }

  /** A piece occurs in a concatenation where it was put. */
  lemma IsAtConcat(a: string, t: string, b: string)
    ensures IsAt(a + t + b, t, |a|)
  {
    AgreeFromChars(a + t + b, t, |a|, 0);
  }

  lemma IsAtPrefix(a: string, b: string)
    ensures IsAt(a + b, a, 0)
  {
    AgreeFromChars(a + b, a, 0, 0);
  }

  lemma IsAtSuffix(a: string, b: string)
    ensures IsAt(a + b, b, |a|)
  {
    AgreeFromChars(a + b, b, |a|, 0);
  }

  /** An occurrence of `t` in `m` where `m` occurs in `s` is one in `s`. */
  lemma IsAtCompose(s: string, m: string, i: int, t: string, j: int)
    requires IsAt(s, m, i) && IsAt(m, t, j)
    ensures IsAt(s, t, i + j)
  {
    forall k | 0 <= k < |t|
      ensures s[i + j + k] == t[k]
    {
      IsAtChar(m, t, j, k);
      IsAtChar(s, m, i, j + k);
    }
    AgreeFromChars(s, t, i + j, 0);
  }

  /** An occurrence inside a piece is an occurrence in any text around it. */
  lemma ContainsWithin(a: string, m: string, b: string, t: string)
    requires Contains(m, t)
    ensures Contains(a + m + b, t)
  {
    var i :| 0 <= i <= |m| && IsAt(m, t, i);
    IsAtConcat(a, m, b);
    IsAtCompose(a + m + b, m, |a|, t, i);
  }

  /** Containment is transitive. */
  lemma ContainsTransitive(s: string, m: string, t: string)
    requires Contains(s, m) && Contains(m, t)
    ensures Contains(s, t)
  {
    var i :| 0 <= i <= |s| && IsAt(s, m, i);
    var j :| 0 <= j <= |m| && IsAt(m, t, j);
    IsAtCompose(s, m, i, t, j);
  }

  // ----- case-insensitive literals -----

  /** ASCII lower-casing: the case folding applied to the regex literals. */
  function Lower(c: char): (l: char)
    ensures 'A' <= c <= 'Z' ==> 'a' <= l <= 'z' && l as int - c as int == 32
    ensures !('A' <= c <= 'Z') ==> l == c
  {
    if 'A' <= c <= 'Z' then (c as int + 32) as char else c
  }

  /** `s[i + j..i + |t|]` and `t[j..]` agree when ASCII case is ignored. */
  predicate AgreeIgnoringCase(s: string, t: string, i: nat, j: nat)
    requires i + |t| <= |s| && j <= |t|
    decreases |t| - j
  {
    j == |t| || (Lower(s[i + j]) == Lower(t[j]) && AgreeIgnoringCase(s, t, i, j + 1))
  }

  /** `t` occurs in `s` at index `i` when ASCII case is ignored, as a literal
      of a pattern compiled with `re.IGNORECASE` matches. */
  predicate IsAtIgnoringCase(s: string, t: string, i: int) {
    0 <= i && i + |t| <= |s| && AgreeIgnoringCase(s, t, i, 0)
  }

  lemma {:induction false} AgreeAt(s: string, t: string, i: nat, j: nat, k: nat)
    requires i + |t| <= |s| && j <= k < |t| && AgreeIgnoringCase(s, t, i, j)
    ensures Lower(s[i + k]) == Lower(t[k])
    decreases k - j
  {
    if j < k {
      AgreeAt(s, t, i, j + 1, k);
    }
  }

  /** One character of a case-insensitive occurrence. */
  lemma IgnoringCaseAt(s: string, t: string, i: int, k: int)
    requires IsAtIgnoringCase(s, t, i) && 0 <= k < |t|
    ensures Lower(s[i + k]) == Lower(t[k])
    ensures !('A' <= t[k] <= 'Z') && !('a' <= t[k] <= 'z') ==> s[i + k] == t[k]
    ensures 'a' <= t[k] <= 'z' ==> 'a' <= s[i + k] <= 'z' || 'A' <= s[i + k] <= 'Z'
  {
    AgreeAt(s, t, i, 0, k);
  }

  lemma {:induction false} ExactAgrees(s: string, t: string, i: nat, j: nat)
    requires IsAt(s, t, i) && j <= |t|
    ensures AgreeIgnoringCase(s, t, i, j)
    decreases |t| - j
  {
    if j < |t| {
      IsAtChar(s, t, i, j);
      ExactAgrees(s, t, i, j + 1);
    }
  }

  /** An exact occurrence is also one that ignores case. */
  lemma IsAtIgnoresCase(s: string, t: string, i: int)
    requires IsAt(s, t, i)
    ensures IsAtIgnoringCase(s, t, i)
  {
    ExactAgrees(s, t, i, 0);
  }

  // ----- the regex classes \s and \b -----

  /** Python's `\s` on `str` patterns: exactly the characters for which
      `str.isspace()` holds. */
  predicate IsSpace(c: char) {
    || c == ' ' || '\t' <= c <= '\r' || '\U{1C}' <= c <= '\U{1F}'
    || c == '\U{85}' || c == '\U{A0}' || c == '\U{1680}'
    || '\U{2000}' <= c <= '\U{200A}' || c == '\U{2028}' || c == '\U{2029}'
    || c == '\U{202F}' || c == '\U{205F}' || c == '\U{3000}'
  }

  /** `s[a..b]` is all `\s`. */
  predicate AllSpacesIn(s: string, a: nat, b: nat)
    requires b <= |s|
    decreases b - a
  {
    a >= b || (IsSpace(s[a]) && AllSpacesIn(s, a + 1, b))
  }

  /** The longest run of `\s` starting at `i` ends at the returned index;
      this is where a greedy `\s*` stops. */
  function SkipSpaces(s: string, i: nat): (j: nat)
    requires i <= |s|
    ensures i <= j <= |s|
    ensures j == |s| || !IsSpace(s[j])
    ensures AllSpacesIn(s, i, j)
    decreases |s| - i
  {
    if i < |s| && IsSpace(s[i]) then SkipSpaces(s, i + 1) else i
  }

  /** `SkipSpaces` passes only spaces. */
  lemma {:induction false} SkipSpacesScanned(s: string, i: nat)
    requires i <= |s|
    ensures AllSpacesIn(s, i, SkipSpaces(s, i))
    decreases |s| - i
  {
    if i < |s| && IsSpace(s[i]) {
      SkipSpacesScanned(s, i + 1);
    }
  }

  /** A greedy `\s*` from `a` stops at `b` when `s[a..b]` is all spaces and
      `s[b]` is not one. */
  lemma {:induction false} SkipSpacesTo(s: string, a: nat, b: nat)
    requires a <= b <= |s| && AllSpacesIn(s, a, b)
    requires b == |s| || !IsSpace(s[b])
    ensures SkipSpaces(s, a) == b
    decreases b - a
  {
    if a < b {
      SkipSpacesTo(s, a + 1, b);
    }
  }

  /** A word character of `\b` (ASCII letters, digits and underscore). */
  predicate IsWordChar(c: char) {
    'a' <= c <= 'z' || 'A' <= c <= 'Z' || '0' <= c <= '9' || c == '_'
  }

  predicate IsWordAt(s: string, k: int) {
    0 <= k < |s| && IsWordChar(s[k])
  }

  /** `\b` holds at index `k` of `s`: one side is a word character and the
      other is not (the text's ends count as non-word). */
  predicate IsBoundary(s: string, k: int) {
    IsWordAt(s, k - 1) != IsWordAt(s, k)
  }

  // ----- decimal rendering -----

  predicate IsDigit(c: char) {
    '0' <= c <= '9'
  }

  predicate AllDigits(s: string) {
    forall k :: 0 <= k < |s| ==> IsDigit(s[k])
  }

  function DigitChar(d: nat): (c: char)
    requires d < 10
    ensures IsDigit(c) && c as int - '0' as int == d
  {
    ('0' as int + d) as char
  }

  /** The number a string of decimal digits denotes (Python's `int(ds)`). */
  function DecimalValue(ds: string): nat
    requires AllDigits(ds)
  {
    if ds == [] then 0
    else DecimalValue(ds[..|ds| - 1]) * 10 + (ds[|ds| - 1] as int - '0' as int)
  }

  /** Python's `str(n)` for a non-negative integer. */
  function NatToDecimal(n: nat): (r: string)
    ensures |r| >= 1 && AllDigits(r)
    ensures r[0] == '0' ==> n == 0 && r == "0"
    decreases n
  {
    if n < 10 then [DigitChar(n)] else NatToDecimal(n / 10) + [DigitChar(n % 10)]
  }

  /** Python's `str(n)`: an optional minus sign, then the digits of `|n|`. */
  function IntToDecimal(n: int): (r: string)
    ensures |r| >= 1 && (r[0] == '-' <==> n < 0)
    ensures var ds := if n < 0 then r[1..] else r;
      AllDigits(ds) && DecimalValue(ds) == if n < 0 then -n else n
    ensures var ds := if n < 0 then r[1..] else r; ds == "0" || ds[0] != '0'
  {
    DecimalRoundTrip(if n < 0 then -n else n);
    if n < 0 then "-" + NatToDecimal(-n) else NatToDecimal(n)
  }

  /** Reading the rendered digits back gives the number. */
  lemma {:induction false} DecimalRoundTrip(n: nat)
    ensures DecimalValue(NatToDecimal(n)) == n
  {
    if n >= 10 {
      var ds := NatToDecimal(n);
      assert ds[..|ds| - 1] == NatToDecimal(n / 10);
      DecimalRoundTrip(n / 10);
    }
  }

  /** The rendering of an integer holds no character other than digits and one leading minus sign. */
  lemma IntToDecimalAlphabet(n: int)
    ensures forall k :: 0 <= k < |IntToDecimal(n)| ==> IsDigit(IntToDecimal(n)[k]) || (k == 0 && n < 0 && IntToDecimal(n)[k] == '-')
  {
  }
}
