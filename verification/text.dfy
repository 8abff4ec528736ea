/** Character classes and string primitives used by the essay corrector:
    Hangul syllables, substring occurrence, decimal rendering and JavaScript's `trim`. */
module Text {
  import opened Wrappers

  /** The regex class `[가-힣]`: one precomposed Hangul syllable, U+AC00 through U+D7A3. */
  predicate IsHangul(c: char) {
    '\U{AC00}' <= c <= '\U{D7A3}'
  }

  predicate AllHangul(w: string) {
    forall k :: 0 <= k < |w| ==> IsHangul(w[k])
  }

  /** `w` occurs in `s` starting at index `q`. */
  predicate OccursAt(s: string, q: nat, w: string) {
    q + |w| <= |s| && s[q..q + |w|] == w
  }

  /** A slice of a slice is a slice of the original. */
  lemma SliceOfSlice(s: string, i: nat, e: nat, a: nat, b: nat)
    requires i <= e <= |s| && a <= b <= e - i
    ensures s[i..e][a..b] == s[i + a..i + b]
  {
    assert forall k :: 0 <= k < b - a ==> s[i..e][a..b][k] == s[i + a + k];
  }

  /** A suffix cut in two at `j`. */
  lemma SplitSuffix(s: string, i: nat, j: nat)
    requires i <= j <= |s|
    ensures s[i..] == s[i..j] + s[j..]
  {
  }

  /** A slice split after its first character. */
  lemma SplitHead(s: string, j: nat, e: nat)
    requires j < e <= |s|
    ensures s[j..e] == [s[j]] + s[j + 1..e]
  {
  }

  /** The front and back of a slice, as slices of the original. */
  lemma SliceEnds(s: string, i: nat, e: nat, q: nat, r: nat)
    requires i <= q <= r <= e <= |s|
    ensures s[i..e][..q - i] == s[i..q]
    ensures s[i..e][r - i..] == s[r..e]
  {
  }

  /** A suffix split around an occurrence of `w` at `q`. */
  lemma SplitAround(s: string, i: nat, q: nat, w: string)
    requires i <= q && OccursAt(s, q, w)
    ensures s[i..] == s[i..q] + w + s[q + |w|..]
  {
    SplitSuffix(s, i, q);
    SplitSuffix(s, q, q + |w|);
    AppendAssoc(s[i..q], w, s[q + |w|..]);
  }

  /** A suffix split after its first character. */
  lemma SplitSuffixHead(s: string, i: nat)
    requires i < |s|
    ensures s[i..] == [s[i]] + s[i + 1..]
  {
  }

  /** A text cut in two at `k`. */
  lemma SplitAt(s: string, k: nat)
    requires k <= |s|
    ensures s == s[..k] + s[k..]
  {
  }

  lemma AppendAssoc(a: string, b: string, c: string)
    ensures a + (b + c) == a + b + c
  {
  }

  /** The first index at or after `i` holding `c`, or `|s|` when there is none. */
  function IndexOfFrom(s: string, i: nat, c: char): (k: nat)
    requires i <= |s|
    ensures i <= k <= |s|
    ensures k < |s| ==> s[k] == c
    decreases |s| - i
  {
    if i == |s| then |s|
    else if s[i] == c then i
    else IndexOfFrom(s, i + 1, c)
  }

  /** No `c` lies between `i` and the index found. */
  lemma {:induction false} IndexOfFromIsFirst(s: string, i: nat, c: char, j: nat)
    requires i <= |s| && i <= j < IndexOfFrom(s, i, c)
    ensures s[j] != c
    decreases |s| - i
  {
    if j > i {
      IndexOfFromIsFirst(s, i + 1, c, j);
    }
  }

  /** Characters other than `c` can be skipped before searching. */
  lemma {:induction false} IndexOfFromSkip(s: string, i: nat, j: nat, c: char)
    requires i <= j <= |s|
    requires forall k :: i <= k < j ==> s[k] != c
    ensures IndexOfFrom(s, i, c) == IndexOfFrom(s, j, c)
    decreases j - i
  {
    if i < j {
      IndexOfFromSkip(s, i + 1, j, c);
    }
  }

  /** The first index at or after `from` at which `w` occurs in `s`, as
      `String.prototype.indexOf` finds it; `None` stands for its `-1`. */
  function IndexOf(s: string, w: string, from: nat): (r: Option<nat>)
    ensures r.Some? ==> from <= r.value && OccursAt(s, r.value, w)
    decreases |s| + 1 - from
  {
    if |s| < from then None
    else if OccursAt(s, from, w) then Some(from)
    else IndexOf(s, w, from + 1)
  }

  /** `w` cannot occur in a text that lacks one of its characters. */
  lemma AbsentChar(s: string, w: string, c: char)
    requires c in w && c !in s
    ensures forall k :: !OccursAt(s, k, w)
  {
    var j :| 0 <= j < |w| && w[j] == c;
    forall k: nat ensures !OccursAt(s, k, w) {
      if k + |w| <= |s| {
        assert s[k..k + |w|][j] == s[k + j];
      }
    }
  }

  /** An occurrence at or after `from` is found, at it or earlier. */
  lemma {:induction false} IndexOfFinds(s: string, w: string, from: nat, q: nat)
    requires from <= q && OccursAt(s, q, w)
    ensures IndexOf(s, w, from).Some? && IndexOf(s, w, from).value <= q
    decreases q - from
  {
    if !OccursAt(s, from, w) {
      IndexOfFinds(s, w, from + 1, q);
    }
  }

  /** An occurrence with no earlier start of `w` since `from` is the one found. */
  lemma {:induction false} IndexOfFirst(s: string, w: string, from: nat, q: nat)
    requires w != [] && from <= q && OccursAt(s, q, w)
    requires forall j :: from <= j < q ==> s[j] != w[0]
    ensures IndexOf(s, w, from) == Some(q)
    decreases q - from
  {
    if from < q {
      assert s[from] != w[0];
      IndexOfFirst(s, w, from + 1, q);
    }
  }

  /** A text cut around an occurrence of `w`. */
  lemma SplitAtOccurrence(s: string, k: nat, w: string)
    requires OccursAt(s, k, w)
    ensures s == s[..k] + w + s[k + |w|..]
  {
    SplitAround(s, 0, k, w);
  }

  // ---------------------------------------------------------------------------
  // Decimal numerals: the `${index + 1}` of a template literal.

  function DigitChar(d: nat): (c: char)
    requires d < 10
    ensures '0' <= c <= '9'
  {
    "0123456789"[d]
  }

  predicate IsDigits(s: string) {
    forall k :: 0 <= k < |s| ==> '0' <= s[k] <= '9'
  }

  /** The decimal representation of `n`, without leading zeros, as `String(n)` gives it. */
  function Decimal(n: nat): (r: string)
    ensures r != [] && IsDigits(r)
    ensures |r| > 1 ==> r[0] != '0'
    decreases n
  {
    if n < 10 then [DigitChar(n)] else Decimal(n / 10) + [DigitChar(n % 10)]
  }

  /** Reads a run of decimal digits back as a number. */
  function ParseDecimal(s: string): (n: nat)
    requires IsDigits(s)
    decreases |s|
  {
    if s == [] then 0
    else ParseDecimal(s[..|s| - 1]) * 10 + ((s[|s| - 1] as int) - ('0' as int))
  }

  /** Reading a rendered number gives the number back, so distinct numbers
      have distinct renderings. */
  lemma {:induction false} DecimalRoundTrip(n: nat)
    ensures ParseDecimal(Decimal(n)) == n
    decreases n
  {
    if n >= 10 {
      var r := Decimal(n);
      assert r[..|r| - 1] == Decimal(n / 10);
      DecimalRoundTrip(n / 10);
    }
  }

  lemma DecimalInjective(m: nat, n: nat)
    requires Decimal(m) == Decimal(n)
    ensures m == n
  {
    DecimalRoundTrip(m);
    DecimalRoundTrip(n);
  }

  // ---------------------------------------------------------------------------
  // `String.prototype.trim`

  /** ECMAScript WhiteSpace and LineTerminator code points: the characters `trim` removes. */
  predicate IsJsSpace(c: char) {
    || c == '\t' || c == '\U{000B}' || c == '\U{000C}' || c == ' ' || c == '\U{00A0}'
    || c == '\U{FEFF}' || c == '\n' || c == '\r' || c == '\U{2028}' || c == '\U{2029}'
    || c == '\U{1680}' || ('\U{2000}' <= c <= '\U{200A}') || c == '\U{202F}'
    || c == '\U{205F}' || c == '\U{3000}'
  }

  function TrimStart(s: string): (r: string)
    ensures |r| <= |s| && r == s[|s| - |r|..]
    ensures r == [] || !IsJsSpace(r[0])
    ensures forall k :: 0 <= k < |s| - |r| ==> IsJsSpace(s[k])
    decreases |s|
  {
    if s != [] && IsJsSpace(s[0]) then TrimStart(s[1..]) else s
  }

  function TrimEnd(s: string): (r: string)
    ensures |r| <= |s| && r == s[..|r|]
    ensures r == [] || !IsJsSpace(r[|r| - 1])
    ensures forall k :: |r| <= k < |s| ==> IsJsSpace(s[k])
    decreases |s|
  {
    if s != [] && IsJsSpace(s[|s| - 1]) then TrimEnd(s[..|s| - 1]) else s
  }

  /** `s.trim()`: `s` without its leading and trailing white space. */
  function Trim(s: string): string {
    TrimEnd(TrimStart(s))
  }

  /** `trim` yields the empty string exactly when every character is white space. */
  lemma {:induction false} TrimEmptyIff(s: string)
    ensures Trim(s) == [] <==> forall k :: 0 <= k < |s| ==> IsJsSpace(s[k])
  {
    var t := TrimStart(s);
    if Trim(s) == [] {
      forall k | 0 <= k < |s| ensures IsJsSpace(s[k]) {
        if k >= |s| - |t| {
          assert s[k] == t[k - (|s| - |t|)];
        }
      }
    } else {
      var r := Trim(s);
      assert r == t[..|r|];
      if t == [] {
        assert false;
      }
      assert !IsJsSpace(t[0]);
      assert s[|s| - |t|] == t[0];
    }
  }
}
