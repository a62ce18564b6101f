/**
 What `sub` and `gsub` (cmd/awk/run.c) make of the characters of a replacement string, and what that does to the text.
 */
module AwkReplacementLaws {
  import opened AwkMeaning
  import opened AwkCache
  import opened AwkRun
  import opened AwkReplacement
  import opened AwkSubstitute

  const amp: nat := '&' as int
  const backslash: nat := '\\' as int

  // ----- the characters of the replacement -----

  /** `&` is the matched text, `\&` an ampersand, and any other character itself. */
  lemma {:induction false} ExpandOne(x: nat, matched: Text)
    ensures Expand([amp], matched) == matched
    ensures Expand([backslash, amp], matched) == [amp]
    ensures x != amp ==> Expand([x], matched) == [x]
  {
    assert [amp][1..] == [] && [backslash, amp][2..] == [] && [x][1..] == [];
    assert matched + [] == matched;
  }

  /** What stands side by side is expanded side by side, unless a backslash comes before an ampersand. */
  lemma {:induction false} ExpandAppend(a: seq<nat>, b: seq<nat>, matched: Text)
    requires !(a != [] && a[|a| - 1] == backslash && b != [] && b[0] == amp)
    ensures Expand(a + b, matched) == Expand(a, matched) + Expand(b, matched)
    decreases |a|
  {
    hide Expand;
    if a == [] {
      assert a + b == b && [] + Expand(b, matched) == Expand(b, matched);
      NothingExpanded(matched);
    } else {
      var n := if |a| >= 2 && a[0] == backslash && a[1] == amp then 2 else 1;
      ExpandFirst(a, matched);
      ExpandFirst(a + b, matched);
      assert (a + b)[n..] == a[n..] + b;
      ExpandAppend(a[n..], b, matched);
      Associate(FirstExpanded(a, matched), Expand(a[n..], matched), Expand(b, matched));
    }
  }

  lemma {:induction false} NothingExpanded(matched: Text)
    ensures Expand([], matched) == []
  {
  }

  /** What the first item of the replacement becomes. */
  function FirstExpanded(repl: seq<nat>, matched: Text): seq<nat>
    requires repl != []
  {
    if |repl| >= 2 && repl[0] == backslash && repl[1] == amp then [amp]
    else if repl[0] == amp then matched else [repl[0]]
  }

  lemma {:induction false} ExpandFirst(repl: seq<nat>, matched: Text)
    requires repl != []
    ensures var n := if |repl| >= 2 && repl[0] == backslash && repl[1] == amp then 2 else 1;
            Expand(repl, matched) == FirstExpanded(repl, matched) + Expand(repl[n..], matched)
  {
  }

  lemma {:induction false} Associate(a: seq<nat>, b: seq<nat>, c: seq<nat>)
    ensures a + (b + c) == a + b + c
  {
  }

  // ----- the whole text -----

  /** The text from `cur` on with `x` in place of each stretch. */
  function PutFor(s: Text, cur: nat, ms: seq<Stretch>, x: seq<nat>): seq<nat>
    requires cur <= |s| && Ordered(ms, cur, |s|)
    decreases |ms|
  {
    if ms == [] then s[cur..] else s[cur..ms[0].beg] + x + PutFor(s, ms[0].beg + ms[0].len, ms[1..], x)
  }

  /** A replacement that does not depend on the match is put in place of each stretch. */
  lemma {:induction false} SpliceSame(s: Text, cur: nat, ms: seq<Stretch>, repl: seq<nat>, x: seq<nat>)
    requires cur <= |s| && Ordered(ms, cur, |s|) && forall matched :: Expand(repl, matched) == x
    ensures Splice(s, cur, ms, repl) == PutFor(s, cur, ms, x)
    decreases |ms|
  {
    hide Expand;
    if ms != [] {
      var b, e := ms[0].beg, ms[0].beg + ms[0].len;
      SpliceSame(s, e, ms[1..], repl, x);
      assert Expand(repl, s[b..e]) == x;
    }
  }

  /** Replacing by `&` leaves the text as it is. */
  lemma {:induction false} SpliceSelf(s: Text, cur: nat, ms: seq<Stretch>)
    requires cur <= |s| && Ordered(ms, cur, |s|)
    ensures Splice(s, cur, ms, [amp]) == s[cur..]
    decreases |ms|
  {
    hide Expand;
    if ms != [] {
      var b, e := ms[0].beg, ms[0].beg + ms[0].len;
      SpliceSelf(s, e, ms[1..]);
      ExpandOne(0, s[b..e]);
      assert s[cur..] == s[cur..b] + s[b..e] + s[e..];
    }
  }

  // ----- gsub -----

  /** With `\&` a run of `gsub` writes an ampersand in place of each selected match, and with `&` the text itself. */
  lemma {:induction false} GsubAmpersands(a: Auto, st: State, s: Text)
    requires Held(a, st) && st.anchor && IsLine(s)
    ensures MatchesOf(a, s, AtLineStart(a, st)).n == |s|
    ensures var ms := Selected(MatchesOf(a, s, AtLineStart(a, st)), 0, false);
            && Ordered(ms, 0, |s|)
            && (var g := GsubRun(a, st, s, [backslash, amp]);
                !g.astray && !g.hatAgain ==> g.out == PutFor(s, 0, ms, [amp]) && g.num == |ms|)
            && (var g := GsubRun(a, st, s, [amp]); !g.astray && !g.hatAgain ==> g.out == s && g.num == |ms|)
  {
    hide Held, MatchesOf, AtLineStart, Selected, GsubRun, Expand, Ordered, Splice, PutFor;
    var m := MatchesOf(a, s, AtLineStart(a, st));
    MatchesSize(a, s, AtLineStart(a, st));
    SelectedOrdered(m, 0, false);
    var ms := Selected(m, 0, false);
    forall matched ensures Expand([backslash, amp], matched) == [amp] { ExpandOne(0, matched); }
    SpliceSame(s, 0, ms, [backslash, amp], [amp]);
    SpliceSelf(s, 0, ms);
    assert s[0..] == s;
    var g, h := GsubRun(a, st, s, [backslash, amp]), GsubRun(a, st, s, [amp]);
    if !g.astray && !g.hatAgain { GsubRight(a, st, s, [backslash, amp]); }
    if !h.astray && !h.hatAgain { GsubRight(a, st, s, [amp]); }
  }

  /** When the first match is the whole text, `gsub` with `\&` returns an ampersand. */
  lemma {:induction false} WholeTextEscaped(a: Auto, st: State, s: Text)
    requires var o := CallAt(a, st, s, 0); o.found && o.beg == 0 && o.len == |s| > 0
    ensures GsubResult(GsubRun(a, st, s, [backslash, amp])) == Done(([amp], 1))
  {
    hide CallAt;
    var repl := [backslash, amp];
    ExpandOne(0, s);
    assert s[0..|s|] == s && s[0..0] == [];
    assert Piece(s, repl, 0, false, 0, |s|) == [amp];
    assert repl[2..] == [] && Copied(0, repl, |s|) == 1;
    assert [amp][..1] == [amp];
  }

  // ----- sub -----

  /** The character at place `k` when `x` is put in place of `len` characters from `beg` on. */
  function CharAt(s: Text, x: seq<nat>, beg: nat, len: nat, k: nat): nat
    requires beg + len <= |s| && k < |s| - len + |x|
  {
    if k < beg then s[k] else if k < beg + |x| then x[k - beg] else s[k - |x| + len]
  }

  /**
   `sub` makes one replacement: the characters in front of the match and behind it stay. A result of 3071
   characters or more is refused, but when the match is the empty one at the end of the text it is cut there, unless
   the text alone overruns the buffer.
   */
  lemma {:induction false} SubExactly(s: Text, repl: seq<nat>, beg: nat, len: nat)
    requires beg + len <= |s|
    ensures var r, x, atEnd := SubResult(s, repl, beg, len), Expand(repl, s[beg..beg + len]), len == 0 && beg == |s|;
            var n := |s| - len + |x|;
            && (r.TooBig? <==> if atEnd then |s| >= 3072 else n >= 3071)
            && (r.Done? ==>
                  && r.value.1 == 1 && |r.value.0| == (if n < 3072 then n else 3071)
                  && forall k :: 0 <= k < |r.value.0| ==> r.value.0[k] == CharAt(s, x, beg, len, k))
  {
    var x := Expand(repl, s[beg..beg + len]);
    var out := s[..beg] + x + s[beg + len..];
    assert out == Substituted(s, repl, beg, len);
    forall k | 0 <= k < |out| ensures out[k] == CharAt(s, x, beg, len, k) {
    }
  }

  /** With `\&` `sub` puts an ampersand in place of the match, and with `&` it leaves the text as it is. */
  lemma {:induction false} SubAmpersands(s: Text, beg: nat, len: nat)
    requires beg + len <= |s| < 3070
    ensures SubResult(s, [backslash, amp], beg, len) == Done((s[..beg] + [amp] + s[beg + len..], 1))
    ensures SubResult(s, [amp], beg, len) == Done((s, 1))
  {
    hide Expand;
    ExpandOne(0, s[beg..beg + len]);
    var out := s[..beg] + [amp] + s[beg + len..];
    assert out[..|out|] == out && s[..|s|] == s;
    assert s == s[..beg] + s[beg..beg + len] + s[beg + len..];
  }
}
