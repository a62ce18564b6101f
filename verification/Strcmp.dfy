/**
 The order of names by the C library function strcmp.
 */
module Strcmp {

  /** strcmp(a, b) < 0 */
  predicate Less(a: string, b: string) {
    if b == [] then false
    else if a == [] then true
    else if a[0] != b[0] then a[0] < b[0]
    else Less(a[1..], b[1..])
  }

  lemma {:induction false} LessTotal(a: string, b: string)
    ensures Less(a, b) || Less(b, a) || a == b
    ensures !(Less(a, b) && Less(b, a))
    ensures !Less(a, a)
  {
    if a != [] && b != [] {
      LessTotal(a[1..], b[1..]);
      assert a == [a[0]] + a[1..] && b == [b[0]] + b[1..];
    }
    if a != [] { LessTotal(a[1..], a[1..]); }
  }

  lemma {:induction false} LessTransitive(a: string, b: string, c: string)
    requires !Less(b, a) && !Less(c, b)
    ensures !Less(c, a)
  {
    if a != [] && b != [] && c != [] && a[0] == b[0] == c[0] {
      LessTransitive(a[1..], b[1..], c[1..]);
    }
  }

  // ----- in terms of the characters -----

  /** At place `i` the names differ for the first time, and the character of `a` is the smaller one. */
  predicate DifferAt(a: string, b: string, i: nat) {
    i < |a| && i < |b| && a[..i] == b[..i] && a[i] < b[i]
  }

  /** A name comes first if it has the smaller character where they first differ, or is the beginning of the other. */
  ghost predicate FirstByChars(a: string, b: string) {
    (|a| < |b| && a == b[..|a|]) || exists i: nat :: DifferAt(a, b, i)
  }

  lemma {:induction false} LessExactly(a: string, b: string)
    ensures Less(a, b) <==> FirstByChars(a, b)
  {
    if a != "" && b != "" {
      var c, d := a[1..], b[1..];
      LessExactly(c, d);
      assert a == [a[0]] + c && b == [b[0]] + d;
      if a[0] != b[0] {
        if a[0] < b[0] { assert DifferAt(a, b, 0); }
        forall i: nat | 0 < i <= |a| && i <= |b| ensures a[..i] != b[..i] { assert a[..i][0] != b[..i][0]; }
        if |a| < |b| { assert b[..|a|][0] == b[0]; }
      } else {
        forall i: nat ensures DifferAt(a, b, i + 1) <==> DifferAt(c, d, i) {
          if i < |c| && i < |d| { assert a[..i + 1] == [a[0]] + c[..i] && b[..i + 1] == [b[0]] + d[..i]; }
        }
        if |a| < |b| { assert b[..|a|] == [b[0]] + d[..|c|]; }
        forall i: nat | DifferAt(a, b, i) ensures i > 0 && DifferAt(c, d, i - 1) {
          assert DifferAt(a, b, i - 1 + 1);
        }
      }
    } else if b != "" {
      assert b[..0] == "";
    }
  }
}
