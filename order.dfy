/**
 * The order `Array.prototype.sort()` uses when no comparator is given: strings compared
 * lexicographically, character by character, a proper prefix first. The sort itself is
 * specified by its result (sorted, and a permutation of the input), which determines the
 * result uniquely.
 */
module Order {
  import opened Strings

  /** `a` sorts strictly before `b`. */
  predicate LexLess(a: string, b: string)
    decreases |a|
  {
    if a == [] then b != []
    else if b == [] then false
    else if a[0] == b[0] then LexLess(a[1..], b[1..])
    else a[0] < b[0]
  }

  lemma {:induction false} LexLessIrreflexive(a: string)
    ensures !LexLess(a, a)
    decreases |a|
  {
    if a != [] {
      LexLessIrreflexive(a[1..]);
    }
  }

  lemma {:induction false} LexLessTransitive(a: string, b: string, c: string)
    requires LexLess(a, b) && LexLess(b, c)
    ensures LexLess(a, c)
    decreases |a|
  {
    if a != [] && a[0] == b[0] && b[0] == c[0] {
      LexLessTransitive(a[1..], b[1..], c[1..]);
    }
  }

  lemma {:induction false} LexLessTotal(a: string, b: string)
    ensures a == b || LexLess(a, b) || LexLess(b, a)
    decreases |a|
  {
    if a != [] && b != [] && a[0] == b[0] {
      LexLessTotal(a[1..], b[1..]);
      if a[1..] == b[1..] {
        assert a == [a[0]] + a[1..] && b == [b[0]] + b[1..];
      }
    }
  }

  lemma LexLessAsymmetric(a: string, b: string)
    ensures !(LexLess(a, b) && LexLess(b, a))
  {
  }

  /** `b` does not sort before `a`, and `c` does not sort before `b`: then not `c` before `a`. */
  lemma NotLessTransitive(a: string, b: string, c: string)
    requires !LexLess(b, a) && !LexLess(c, b)
    ensures !LexLess(c, a)
  {
  }

  /** Strings of equal length compare as their first differing character does, whatever follows. */
  lemma {:induction false} LexLessEqualLength(x: string, y: string, u: string, v: string)
    requires |x| == |y|
    ensures LexLess(x + u, y + v) <==> LexLess(x, y) || (x == y && LexLess(u, v))
    decreases |x|
  {
    if x == [] {
      assert x + u == u && y + v == v;
    } else {
      assert (x + u)[0] == x[0] && (y + v)[0] == y[0];
      assert (x + u)[1..] == x[1..] + u && (y + v)[1..] == y[1..] + v;
      LexLessEqualLength(x[1..], y[1..], u, v);
      assert x == [x[0]] + x[1..] && y == [y[0]] + y[1..];
    }
  }

  /** A common prefix does not affect the comparison. */
  lemma {:induction false} LexLessCommonPrefix(p: string, u: string, v: string)
    ensures LexLess(p + u, p + v) <==> LexLess(u, v)
  {
    LexLessEqualLength(p, p, u, v);
    LexLessIrreflexive(p);
  }

  /**
   * For digit strings of the same length the lexicographic order is the numeric order.
   */
  lemma {:induction false} LexLessDigits(a: string, b: string)
    requires AllDigits(a) && AllDigits(b) && |a| == |b|
    ensures LexLess(a, b) <==> DigitsValue(a) < DigitsValue(b)
    decreases |a|
  {
    if a != [] {
      DigitsValueHead(a);
      DigitsValueHead(b);
      LexLessDigits(a[1..], b[1..]);
      if a[0] != b[0] {
        DigitsValueBound(a[1..]);
        DigitsValueBound(b[1..]);
        var p := Pow10(|a| - 1);
        if a[0] < b[0] {
          LeadingDigitDecides(DigitOf(a[0]), DigitOf(b[0]), p, DigitsValue(a[1..]), DigitsValue(b[1..]));
        } else {
          LeadingDigitDecides(DigitOf(b[0]), DigitOf(a[0]), p, DigitsValue(b[1..]), DigitsValue(a[1..]));
        }
      }
    }
  }

  /** A smaller leading digit wins whatever the lower digits are. */
  lemma LeadingDigitDecides(x: nat, y: nat, p: nat, u: nat, v: nat)
    requires x < y && u < p
    ensures x * p + u < y * p + v
  {
    calc {
      x * p + u;
      < x * p + p;
      == (x + 1) * p;
      <= { MultiplyMonotone(x + 1, y, p); }
      y * p;
      <= y * p + v;
    }
  }

  lemma MultiplyMonotone(x: nat, y: nat, p: nat)
    requires x <= y
    ensures x * p <= y * p
  {
  }

  // ---------------------------------------------------------------- sorting

  /** No later element sorts before an earlier one. */
  predicate Sorted(s: seq<string>) {
    forall i, j :: 0 <= i < j < |s| ==> !LexLess(s[j], s[i])
  }

  /** Inserts `x` into the sorted `s` after every element that sorts before it. */
  function Insert(x: string, s: seq<string>): (r: seq<string>)
    requires Sorted(s)
    ensures Sorted(r)
    ensures multiset(r) == multiset(s) + multiset{x}
    decreases |s|
  {
    if s == [] then [x]
    else if !LexLess(s[0], x) then
      forall k | 0 <= k < |s| ensures !LexLess(s[k], x) {
        if k > 0 {
          NotLessTransitive(x, s[0], s[k]);
        }
      }
      SortedCons(x, s);
      [x] + s
    else
      var rest := Insert(x, s[1..]);
      LexLessAsymmetric(s[0], x);
      forall k | 0 <= k < |rest| ensures !LexLess(rest[k], s[0]) {
        assert rest[k] in multiset(rest);
        if rest[k] != x {
          assert rest[k] in multiset(s[1..]);
          var m :| 0 <= m < |s[1..]| && s[1..][m] == rest[k];
          assert s[m + 1] == rest[k];
        }
      }
      SortedCons(s[0], rest);
      assert s == [s[0]] + s[1..];
      [s[0]] + rest
  }

  /** A sorted sequence stays sorted under a new head that sorts before none of it. */
  lemma SortedCons(x: string, s: seq<string>)
    requires Sorted(s)
    requires forall k :: 0 <= k < |s| ==> !LexLess(s[k], x)
    ensures Sorted([x] + s)
  {
    var t := [x] + s;
    forall i, j | 0 <= i < j < |t| ensures !LexLess(t[j], t[i]) {
      assert t[j] == s[j - 1];
      if i > 0 {
        assert t[i] == s[i - 1];
      }
    }
  }

  /** The sorted arrangement of `s` (what `s.sort()` produces). */
  function SortStrings(s: seq<string>): (r: seq<string>)
    ensures Sorted(r)
    ensures multiset(r) == multiset(s)
  {
    if s == [] then []
    else
      assert s == [s[0]] + s[1..];
      Insert(s[0], SortStrings(s[1..]))
  }

  /**
   * Two sorted arrangements of the same strings are equal, so any correct sort (the
   * engine's own included) gives the same sequence as `SortStrings`.
   */
  lemma {:induction false} SortedUnique(a: seq<string>, b: seq<string>)
    requires Sorted(a) && Sorted(b) && multiset(a) == multiset(b)
    ensures a == b
    decreases |a|
  {
    if a != [] {
      assert a[0] in multiset(b);
      SortedSameHead(a, b);
      SameTails(a, b);
      SortedUnique(a[1..], b[1..]);
    }
  }

  /** Two sorted arrangements of the same non-empty strings start alike. */
  lemma SortedSameHead(a: seq<string>, b: seq<string>)
    requires Sorted(a) && Sorted(b) && multiset(a) == multiset(b) && a != []
    ensures b != [] && a[0] == b[0]
  {
    assert a[0] in multiset(b);
    assert b[0] in multiset(a);
    var i :| 0 <= i < |b| && b[i] == a[0];
    var j :| 0 <= j < |a| && a[j] == b[0];
    LexLessIrreflexive(a[0]);
    assert !LexLess(a[0], b[0]) by {
      if i > 0 { assert !LexLess(b[i], b[0]); }
    }
    assert !LexLess(b[0], a[0]) by {
      if j > 0 { assert !LexLess(a[j], a[0]); }
    }
    LexLessTotal(a[0], b[0]);
  }

  /** Removing the same head from two arrangements of the same strings leaves the same strings. */
  lemma SameTails(a: seq<string>, b: seq<string>)
    requires a != [] && b != [] && a[0] == b[0] && multiset(a) == multiset(b)
    ensures multiset(a[1..]) == multiset(b[1..])
  {
    assert a == [a[0]] + a[1..] && b == [b[0]] + b[1..];
    assert multiset(a) == multiset{a[0]} + multiset(a[1..]);
    assert multiset(b) == multiset{a[0]} + multiset(b[1..]);
    forall x ensures multiset(a[1..])[x] == multiset(b[1..])[x] {
      assert multiset(a)[x] == multiset(b)[x];
    }
  }
}
