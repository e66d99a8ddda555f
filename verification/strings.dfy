/**
 * Python's ordering of `str` values: lexicographic comparison by code point,
 * where a proper prefix sorts first. This is the order used by the `>`
 * in the change-feed deduplication and by `min`/`max` over `created_date`
 * strings. (Dafny's own `<` on sequences means "proper prefix", so it is not
 * the right order here.)
 */
module Strings {

  /** `a < b` on Python strings. */
  predicate Less(a: string, b: string)
    decreases |a|
  {
    if a == [] then b != []
    else if b == [] then false
    else a[0] < b[0] || (a[0] == b[0] && Less(a[1..], b[1..]))
  }

  /** `a <= b` on Python strings. */
  predicate LessEq(a: string, b: string) {
    !Less(b, a)
  }

  lemma {:induction false} LessIrreflexive(a: string)
    ensures !Less(a, a)
    decreases |a|
  {
    if a != [] {
      LessIrreflexive(a[1..]);
    }
  }

  lemma {:induction false} LessTransitive(a: string, b: string, c: string)
    requires Less(a, b) && Less(b, c)
    ensures Less(a, c)
    decreases |a|
  {
    if a != [] {
      assert b != [] && c != [];
      if a[0] == b[0] && b[0] == c[0] {
        LessTransitive(a[1..], b[1..], c[1..]);
      }
    }
  }

  /** Any two strings are equal or ordered one way or the other. */
  lemma {:induction false} LessTotal(a: string, b: string)
    ensures a == b || Less(a, b) || Less(b, a)
    decreases |a|
  {
    if a != [] && b != [] && a[0] == b[0] {
      LessTotal(a[1..], b[1..]);
      if a[1..] == b[1..] {
        assert a == [a[0]] + a[1..] && b == [b[0]] + b[1..];
      }
    }
  }

  lemma LessAsymmetric(a: string, b: string)
    requires Less(a, b)
    ensures !Less(b, a)
  {
    if Less(b, a) {
      LessTransitive(a, b, a);
      LessIrreflexive(a);
    }
  }

  /** `a <= b < c` gives `a < c`. */
  lemma LessEqLessTransitive(a: string, b: string, c: string)
    requires LessEq(a, b) && Less(b, c)
    ensures Less(a, c)
  {
    LessTotal(a, b);
    if a != b {
      LessTransitive(a, b, c);
    }
  }

  /** `a < b <= c` gives `a < c`. */
  lemma LessLessEqTransitive(a: string, b: string, c: string)
    requires Less(a, b) && LessEq(b, c)
    ensures Less(a, c)
  {
    LessTotal(b, c);
    if b != c {
      LessTransitive(a, b, c);
    }
  }

  /** A common prefix does not change the order of two strings. */
  lemma {:induction false} LessCommonPrefix(p: string, a: string, b: string)
    ensures Less(p + a, p + b) == Less(a, b)
    decreases |p|
  {
    if p != [] {
      assert (p + a)[1..] == p[1..] + a;
      assert (p + b)[1..] == p[1..] + b;
      LessCommonPrefix(p[1..], a, b);
    } else {
      assert p + a == a && p + b == b;
    }
  }

  /**
   * Python's `min(xs)` on a non-empty list of strings: the running minimum
   * is replaced only by a strictly smaller item.
   */
  function Min(xs: seq<string>): (m: string)
    requires |xs| > 0
    ensures m in xs
    ensures forall x :: x in xs ==> LessEq(m, x)
  {
    if |xs| == 1 then
      LessIrreflexive(xs[0]);
      xs[0]
    else
      var init := xs[..|xs| - 1];
      var last := xs[|xs| - 1];
      var m := Min(init);
      assert xs == init + [last];
      if Less(last, m) then
        assert forall x :: x in init ==> LessEq(last, x) by {
          forall x | x in init ensures LessEq(last, x) {
            if Less(x, last) { LessTransitive(x, last, m); }
          }
        }
        LessIrreflexive(last);
        last
      else
        m
  }

  /**
   * Python's `max(xs)` on a non-empty list of strings: the running maximum
   * is replaced only by a strictly greater item.
   */
  function Max(xs: seq<string>): (m: string)
    requires |xs| > 0
    ensures m in xs
    ensures forall x :: x in xs ==> LessEq(x, m)
  {
    if |xs| == 1 then
      LessIrreflexive(xs[0]);
      xs[0]
    else
      var init := xs[..|xs| - 1];
      var last := xs[|xs| - 1];
      var m := Max(init);
      assert xs == init + [last];
      if Less(m, last) then
        assert forall x :: x in init ==> LessEq(x, last) by {
          forall x | x in init ensures LessEq(x, last) {
            if Less(last, x) { LessTransitive(m, last, x); }
          }
        }
        LessIrreflexive(last);
        last
      else
        m
  }
}
