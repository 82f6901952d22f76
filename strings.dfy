/**
 * The JavaScript string operations the action relies on, over `string = seq<char>`:
 * `includes`, `endsWith`, `replace(/pat/g, rep)`, `String(n)`, `parseInt(s, 10)` on a
 * digit string, and `padStart`.
 */
module Strings {

  /** `p` is a prefix of `s`. */
  predicate StartsWith(s: string, p: string) {
    |p| <= |s| && s[..|p|] == p
  }

  /** `s.endsWith(suffix)`. */
  predicate EndsWith(s: string, suffix: string) {
    |suffix| <= |s| && s[|s| - |suffix|..] == suffix
  }

  /** `t` occurs in `s` starting at index `i`. */
  predicate OccursAt(s: string, t: string, i: int) {
    0 <= i && i + |t| <= |s| && s[i..i + |t|] == t
  }

  /** `s.includes(t)`. */
  predicate Contains(s: string, t: string) {
    exists i :: 0 <= i <= |s| && OccursAt(s, t, i)
  }

  /** No character of `a` occurs in `b`. */
  predicate SharesNoChar(a: string, b: string) {
    forall c :: c in a ==> c !in b
  }

  /**
   * `s.replace(/pat/g, rep)` for a pattern without metacharacters: the string is scanned
   * left to right and every non-overlapping occurrence of `pat` is replaced by `rep`.
   */
  function ReplaceAll(s: string, pat: string, rep: string): string
    requires pat != []
    decreases |s|
  {
    if s == [] then []
    else if StartsWith(s, pat) then rep + ReplaceAll(s[|pat|..], pat, rep)
    else [s[0]] + ReplaceAll(s[1..], pat, rep)
  }

  /** A string without the pattern is left as it is. */
  lemma {:induction false} ReplaceAllAbsent(s: string, pat: string, rep: string)
    requires pat != []
    requires !Contains(s, pat)
    ensures ReplaceAll(s, pat, rep) == s
    decreases |s|
  {
    if s != [] {
      assert !OccursAt(s, pat, 0);
      if Contains(s[1..], pat) {
        var i :| 0 <= i <= |s[1..]| && OccursAt(s[1..], pat, i);
        assert s[i + 1..i + 1 + |pat|] == s[1..][i..i + |pat|];
        assert OccursAt(s, pat, i + 1);
      }
      ReplaceAllAbsent(s[1..], pat, rep);
    }
  }

  /**
   * When the replacement is non-empty and made of characters the pattern never uses,
   * every prefix of the output that consists of pattern characters only was already a
   * prefix of the input.
   */
  lemma {:induction false} ReplaceAllPatternPrefix(s: string, pat: string, rep: string, w: string)
    requires pat != [] && rep != [] && SharesNoChar(rep, pat)
    requires forall c :: c in w ==> c in pat
    ensures StartsWith(ReplaceAll(s, pat, rep), w) ==> StartsWith(s, w)
    decreases |s|
  {
    var r := ReplaceAll(s, pat, rep);
    if w == [] || s == [] {
    } else if StartsWith(s, pat) {
      assert r[0] == rep[0] && rep[0] in rep;
      assert w[0] in w;
    } else {
      var r' := ReplaceAll(s[1..], pat, rep);
      assert r == [s[0]] + r';
      forall c | c in w[1..] ensures c in pat {
        assert c in w;
      }
      ReplaceAllPatternPrefix(s[1..], pat, rep, w[1..]);
      if |w| <= |r| {
        assert r'[..|w| - 1] == r[1..|w|];
        assert r[..|w|] == [r[0]] + r[1..|w|];
      }
      if |w| <= |s| {
        assert s[..|w|] == [s[0]] + s[1..][..|w| - 1];
      }
      assert w == [w[0]] + w[1..];
    }
  }

  /**
   * With a non-empty replacement that shares no character with the pattern, no
   * occurrence of the pattern survives the replacement.
   */
  lemma {:induction false} ReplaceAllRemovesPattern(s: string, pat: string, rep: string)
    requires pat != [] && rep != [] && SharesNoChar(rep, pat)
    ensures !Contains(ReplaceAll(s, pat, rep), pat)
    decreases |s|
  {
    var r := ReplaceAll(s, pat, rep);
    if s == [] {
      assert !OccursAt(r, pat, 0);
    } else if StartsWith(s, pat) {
      var r' := ReplaceAll(s[|pat|..], pat, rep);
      ReplaceAllRemovesPattern(s[|pat|..], pat, rep);
      assert r == rep + r';
      forall i | 0 <= i <= |r| ensures !OccursAt(r, pat, i) {
        if i < |rep| {
          assert r[i] == rep[i] && rep[i] in rep;
          assert pat[0] in pat;
          OccursAtFirst(r, pat, i);
        } else if i + |pat| <= |r| {
          assert r'[i - |rep|..i - |rep| + |pat|] == r[i..i + |pat|];
          assert !OccursAt(r', pat, i - |rep|);
        }
      }
    } else {
      var r' := ReplaceAll(s[1..], pat, rep);
      ReplaceAllRemovesPattern(s[1..], pat, rep);
      assert r == [s[0]] + r';
      forall i | 0 <= i <= |r| ensures !OccursAt(r, pat, i) {
        if i == 0 {
          forall c | c in pat[1..] ensures c in pat { }
          ReplaceAllPatternPrefix(s[1..], pat, rep, pat[1..]);
          ConsStartsWith(s[0], r', pat);
          ConsStartsWith(s[0], s[1..], pat);
          assert s == [s[0]] + s[1..];
          assert OccursAt(r, pat, 0) == StartsWith(r, pat);
        } else if i + |pat| <= |r| {
          assert r'[i - 1..i - 1 + |pat|] == r[i..i + |pat|];
          assert !OccursAt(r', pat, i - 1);
        }
      }
    }
  }

  /** Where the pattern occurs, the first character is the pattern's first character. */
  lemma OccursAtFirst(s: string, pat: string, i: int)
    requires pat != []
    ensures OccursAt(s, pat, i) ==> s[i] == pat[0]
  {
  }

  /** A string with head `c` starts with `p` iff `c` is the head of `p` and the rest follows. */
  lemma ConsStartsWith(c: char, t: string, p: string)
    requires p != []
    ensures StartsWith([c] + t, p) <==> c == p[0] && StartsWith(t, p[1..])
  {
  }

  /** A one-character pattern is replaced independently in each half of a concatenation. */
  lemma {:induction false} ReplaceCharAppend(a: string, b: string, c: char, rep: string)
    ensures ReplaceAll(a + b, [c], rep) == ReplaceAll(a, [c], rep) + ReplaceAll(b, [c], rep)
    decreases |a|
  {
    if a == [] {
      assert a + b == b;
    } else {
      var s := a + b;
      assert s[1..] == a[1..] + b;
      assert s[..1] == [a[0]] && a[..1] == [a[0]];
      ReplaceCharAppend(a[1..], b, c, rep);
      var tail := ReplaceAll(a[1..], [c], rep) + ReplaceAll(b, [c], rep);
      if a[0] == c {
        assert ReplaceAll(s, [c], rep) == rep + tail;
        assert ReplaceAll(a, [c], rep) == rep + ReplaceAll(a[1..], [c], rep);
      } else {
        assert ReplaceAll(s, [c], rep) == [a[0]] + tail;
        assert ReplaceAll(a, [c], rep) == [a[0]] + ReplaceAll(a[1..], [c], rep);
      }
    }
  }

  // ---------------------------------------------------------------- decimal digits

  predicate IsDigit(c: char) {
    '0' <= c <= '9'
  }

  predicate AllDigits(s: string) {
    forall i :: 0 <= i < |s| ==> IsDigit(s[i])
  }

  function DigitChar(d: nat): char
    requires d < 10
  {
    ('0' as int + d) as char
  }

  function DigitOf(c: char): nat
    requires IsDigit(c)
  {
    c as int - '0' as int
  }

  function Pow10(k: nat): (p: nat)
    ensures p >= 1
  {
    if k == 0 then 1 else 10 * Pow10(k - 1)
  }

  /** `parseInt(s, 10)` on a string of decimal digits (most significant first). */
  function DigitsValue(s: string): nat
    requires AllDigits(s)
  {
    if s == [] then 0 else DigitsValue(s[..|s| - 1]) * 10 + DigitOf(s[|s| - 1])
  }

  /** `String(n)` for a non-negative integer: its decimal form, without leading zeros. */
  function Decimal(n: nat): (r: string)
    ensures |r| > 0 && AllDigits(r)
    ensures r[0] == '0' ==> n == 0
  {
    if n < 10 then [DigitChar(n)] else Decimal(n / 10) + [DigitChar(n % 10)]
  }

  /** Parsing what `String(n)` printed gives `n` back. */
  lemma {:induction false} DigitsValueOfDecimal(n: nat)
    ensures DigitsValue(Decimal(n)) == n
  {
    var r := Decimal(n);
    if n >= 10 {
      DigitsValueOfDecimal(n / 10);
      assert r[..|r| - 1] == Decimal(n / 10);
    }
  }

  /** A `k`-digit string denotes a number below `10^k`. */
  lemma {:induction false} DigitsValueBound(s: string)
    requires AllDigits(s)
    ensures DigitsValue(s) < Pow10(|s|)
  {
    if s != [] {
      DigitsValueBound(s[..|s| - 1]);
    }
  }

  /** The leading digit of `s` weighs `10^(|s|-1)`. */
  lemma {:induction false} DigitsValueHead(s: string)
    requires AllDigits(s) && s != []
    ensures DigitsValue(s) == DigitOf(s[0]) * Pow10(|s| - 1) + DigitsValue(s[1..])
    decreases |s|
  {
    if |s| > 1 {
      var init, tail := s[..|s| - 1], s[1..];
      DigitsValueHead(init);
      assert init[1..] == tail[..|tail| - 1];
      assert init[0] == s[0] && tail[|tail| - 1] == s[|s| - 1];
      var d0, last := DigitOf(s[0]), DigitOf(s[|s| - 1]);
      var p, b := Pow10(|s| - 2), DigitsValue(init[1..]);
      assert DigitsValue(init) == d0 * p + b;
      assert DigitsValue(s) == DigitsValue(init) * 10 + last;
      assert DigitsValue(tail) == b * 10 + last;
      assert Pow10(|s| - 1) == p * 10;
      ShiftDigit(d0, p, b, last);
    }
  }

  /** Appending a digit to a number with a leading digit `d` shifts `d` one place up. */
  lemma ShiftDigit(d: int, p: int, b: int, last: int)
    ensures (d * p + b) * 10 + last == d * (p * 10) + (b * 10 + last)
  {
  }

  /** Leading zeros do not change the value. */
  lemma {:induction false} DigitsValueLeadingZeros(z: string, s: string)
    requires forall c :: c in z ==> c == '0'
    requires AllDigits(s)
    ensures AllDigits(z + s) && DigitsValue(z + s) == DigitsValue(s)
    decreases |z|
  {
    assert AllDigits(z + s) by {
      forall i | 0 <= i < |z + s| ensures IsDigit((z + s)[i]) {
        if i < |z| { assert z[i] in z; }
      }
    }
    if z == [] {
      assert z + s == s;
    } else {
      DigitsValueHead(z + s);
      assert (z + s)[1..] == z[1..] + s;
      assert (z + s)[0] == z[0] && z[0] in z;
      forall c | c in z[1..] ensures c == '0' {
        assert c in z;
      }
      DigitsValueLeadingZeros(z[1..], s);
      assert DigitOf((z + s)[0]) == 0;
      assert DigitsValue(z + s) == 0 * Pow10(|z + s| - 1) + DigitsValue(z[1..] + s);
    }
  }

  /** `String(n)` has at most `k` digits when `n < 10^k` (and `k >= 1`). */
  lemma {:induction false} DecimalLength(n: nat, k: nat)
    requires k >= 1 && n < Pow10(k)
    ensures |Decimal(n)| <= k
  {
    if n >= 10 {
      assert k >= 2;
      assert n / 10 < Pow10(k - 1);
      DecimalLength(n / 10, k - 1);
    }
  }

  // ---------------------------------------------------------------- padding

  /** `fill` repeated `k` times. */
  function Repeat(fill: char, k: nat): (r: string)
    ensures |r| == k && forall i :: 0 <= i < k ==> r[i] == fill
  {
    if k == 0 then [] else [fill] + Repeat(fill, k - 1)
  }

  /** `s.padStart(width, fill)` for a one-character `fill`. */
  function PadStart(s: string, width: nat, fill: char): (r: string)
    ensures |r| == if |s| < width then width else |s|
  {
    if |s| >= width then s else Repeat(fill, width - |s|) + s
  }

  /** The padded string ends with the original and is `fill` before it. */
  lemma PadStartShape(s: string, width: nat, fill: char)
    ensures EndsWith(PadStart(s, width, fill), s)
    ensures forall i :: 0 <= i < |PadStart(s, width, fill)| - |s| ==> PadStart(s, width, fill)[i] == fill
  {
  }
}
