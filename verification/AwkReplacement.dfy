/**
 What `sub` and `gsub` (cmd/awk/run.c) are to write: a reference that selects matches in the whole text.

 The reference is given the matches of the text as a relation between start and end; an end one past the
 text is a match that takes the terminating 0, as `$` does.
 */
module AwkReplacement {
  import opened AwkMeaning

  const RECSIZE := 3 * 1024
  const AMPERSAND := 38
  const BACKSLASH := 92

  // ----- the replacement string -----

  /** `&` stands for the matched text and `\&` for a plain ampersand. */
  function Expand(repl: seq<nat>, matched: Text): seq<nat> {
    if repl == [] then []
    else if |repl| >= 2 && repl[0] == BACKSLASH && repl[1] == AMPERSAND then [AMPERSAND] + Expand(repl[2..], matched)
    else if repl[0] == AMPERSAND then matched + Expand(repl[1..], matched)
    else [repl[0]] + Expand(repl[1..], matched)
  }

  /**
   The characters in the buffer after copying, from `len` on: an item is copied while there is room for a character.
   */
  function Copied(len: nat, repl: seq<nat>, matched: nat): (r: nat)
    ensures r >= len
    decreases |repl|
  {
    if repl == [] || len >= RECSIZE - 1 then len
    else if |repl| >= 2 && repl[0] == BACKSLASH && repl[1] == AMPERSAND then Copied(len + 1, repl[2..], matched)
    else if repl[0] == AMPERSAND then Copied(len + matched, repl[1..], matched)
    else Copied(len + 1, repl[1..], matched)
  }

  /** Copying stops before the end only when the buffer is full; only a copy of the matched text can overrun it. */
  lemma {:induction false} CopiedExactly(len: nat, repl: seq<nat>, matched: Text)
    ensures Copied(len, repl, |matched|) <= len + |Expand(repl, matched)|
    ensures Copied(len, repl, |matched|) < len + |Expand(repl, matched)| ==> Copied(len, repl, |matched|) >= RECSIZE - 1
    ensures matched == [] && len < RECSIZE ==> Copied(len, repl, 0) < RECSIZE
    decreases |repl|
  {
    if repl != [] && len < RECSIZE - 1 {
      if |repl| >= 2 && repl[0] == BACKSLASH && repl[1] == AMPERSAND {
        CopiedExactly(len + 1, repl[2..], matched);
      } else if repl[0] == AMPERSAND {
        CopiedExactly(len + |matched|, repl[1..], matched);
      } else {
        CopiedExactly(len + 1, repl[1..], matched);
      }
    }
  }

  /** Appends the expansion as far as the buffer takes it. */
  method AppendExpansion(pb: seq<nat>, repl: seq<nat>, matched: Text) returns (r: seq<nat>)
    ensures Copied(|pb|, repl, |matched|) <= |pb| + |Expand(repl, matched)|
    ensures r == (pb + Expand(repl, matched))[..Copied(|pb|, repl, |matched|)]
  {
    r := pb;
    var k := 0;
    ghost var whole := pb + Expand(repl, matched);
    assert repl[0..] == repl;
    CopiedExactly(|pb|, repl, matched);
    while k < |repl| && |r| < RECSIZE - 1
      invariant 0 <= k <= |repl|
      invariant r + Expand(repl[k..], matched) == whole
      invariant Copied(|r|, repl[k..], |matched|) == Copied(|pb|, repl, |matched|)
    {
      ghost var rest := repl[k..];
      if repl[k] == BACKSLASH && k + 1 < |repl| && repl[k + 1] == AMPERSAND {
        assert rest[2..] == repl[k + 2..];
        assert r + [AMPERSAND] + Expand(repl[k + 2..], matched) == r + ([AMPERSAND] + Expand(repl[k + 2..], matched));
        r := r + [AMPERSAND];
        k := k + 2;
      } else if repl[k] == AMPERSAND {
        assert rest[1..] == repl[k + 1..];
        assert r + matched + Expand(repl[k + 1..], matched) == r + (matched + Expand(repl[k + 1..], matched));
        r := r + matched;
        k := k + 1;
      } else {
        assert rest[1..] == repl[k + 1..];
        assert r + [repl[k]] + Expand(repl[k + 1..], matched) == r + ([repl[k]] + Expand(repl[k + 1..], matched));
        r := r + [repl[k]];
        k := k + 1;
      }
    }
    assert r == whole[..|r|];
  }

  // ----- the reference: matches selected in the whole text -----

  /** Which stretches of a text of length `n` match; ends run from the start to `n + 1`. */
  datatype Matches = Matches(n: nat, at: (nat, nat) -> bool)

  ghost predicate StartsAt(m: Matches, i: nat) {
    exists j :: i <= j <= m.n + 1 && m.at(i, j)
  }

  /** The length of a match, not counting the terminating 0. */
  function LenTo(m: Matches, i: nat, j: nat): int {
    (if j <= m.n then j else m.n) - i
  }

  /** Where the next match from `cur` on starts, or past the end if there is none. */
  ghost function NextStartOf(m: Matches, cur: nat): (i: nat)
    ensures i >= cur
    decreases m.n + 1 - cur
  {
    if cur > m.n || StartsAt(m, cur) then cur else NextStartOf(m, cur + 1)
  }

  lemma {:induction false} NextStartIsLeast(m: Matches, cur: nat, i: nat)
    requires cur <= i <= m.n + 1
    requires forall k :: cur <= k < i ==> !StartsAt(m, k)
    requires i <= m.n ==> StartsAt(m, i)
    ensures NextStartOf(m, cur) == i
    decreases i - cur
  {
    if cur < i {
      NextStartIsLeast(m, cur + 1, i);
    }
  }

  /** The length of the longest match that starts at `i` and ends at `j` or before. */
  ghost function LengthUpTo(m: Matches, i: nat, j: nat): (len: int)
    requires i <= j <= m.n + 1
    ensures len <= m.n - i || len == -1
    decreases j
  {
    if m.at(i, j) then LenTo(m, i, j) else if j == i then -1 else LengthUpTo(m, i, j - 1)
  }

  lemma {:induction false} LengthIsLongest(m: Matches, i: nat, j: nat, len: int)
    requires i <= j <= m.n + 1
    requires exists k :: i <= k <= j && m.at(i, k) && len == LenTo(m, i, k)
    requires forall k :: i <= k <= j && m.at(i, k) ==> LenTo(m, i, k) <= len
    ensures LengthUpTo(m, i, j) == len
    decreases j
  {
    if !m.at(i, j) {
      LengthIsLongest(m, i, j - 1, len);
    }
  }

  ghost function LengthAt(m: Matches, i: nat): int
    requires i <= m.n
  {
    LengthUpTo(m, i, m.n + 1)
  }

  /** A replaced stretch of the text. */
  datatype Stretch = Stretch(beg: nat, len: nat)

  /**
   The stretches replaced from `cur` on: each the leftmost longest match after the one before, except that an
   empty match right after a non-empty one (`after`) is passed over.
   */
  ghost function Selected(m: Matches, cur: nat, after: bool): seq<Stretch>
    decreases m.n + 1 - cur
  {
    var i := NextStartOf(m, cur);
    if i > m.n then []
    else
      var len := LengthAt(m, i);
      if len > 0 then [Stretch(i, len)] + Selected(m, i + len, true)
      else if after && i == cur then Selected(m, i + 1, false)
      else [Stretch(i, 0)] + Selected(m, i + 1, false)
  }

  /** Stretches in order, not overlapping, between `cur` and `end`. */
  predicate Ordered(ms: seq<Stretch>, cur: nat, end: nat) {
    ms == [] || (cur <= ms[0].beg && ms[0].beg + ms[0].len <= end && Ordered(ms[1..], ms[0].beg + ms[0].len, end))
  }

  lemma {:induction false} OrderedFrom(ms: seq<Stretch>, cur: nat, low: nat, end: nat)
    requires Ordered(ms, cur, end) && low <= cur
    ensures Ordered(ms, low, end)
  {
  }

  lemma {:induction false} OrderedHead(m: Stretch, ms: seq<Stretch>, cur: nat, end: nat)
    requires cur <= m.beg && m.beg + m.len <= end && Ordered(ms, m.beg + m.len, end)
    ensures Ordered([m] + ms, cur, end)
  {
    assert ([m] + ms)[1..] == ms;
  }

  lemma {:induction false} SelectedOrdered(m: Matches, cur: nat, after: bool)
    ensures Ordered(Selected(m, cur, after), cur, m.n)
    decreases m.n + 1 - cur
  {
    var i := NextStartOf(m, cur);
    if i <= m.n {
      var len := LengthAt(m, i);
      if len > 0 {
        SelectedOrdered(m, i + len, true);
        OrderedHead(Stretch(i, len), Selected(m, i + len, true), cur, m.n);
      } else {
        var rest := Selected(m, i + 1, false);
        SelectedOrdered(m, i + 1, false);
        OrderedFrom(rest, i + 1, i, m.n);
        OrderedFrom(rest, i + 1, cur, m.n);
        OrderedHead(Stretch(i, 0), rest, cur, m.n);
      }
    }
  }

  /** Every selected stretch is the longest match at its start, and none is empty right after a non-empty one. */
  ghost predicate Sound(m: Matches, ms: seq<Stretch>, cur: nat, after: bool)
    decreases |ms|
  {
    ms != [] ==>
      && cur <= ms[0].beg <= m.n && StartsAt(m, ms[0].beg) && LengthAt(m, ms[0].beg) == ms[0].len
      && !(after && ms[0].len == 0 && ms[0].beg == cur)
      && (forall i :: cur <= i < ms[0].beg && !(after && i == cur) ==> !StartsAt(m, i))
      && Sound(m, ms[1..], if ms[0].len > 0 then ms[0].beg + ms[0].len else ms[0].beg + 1, ms[0].len > 0)
  }

  lemma {:induction false} NextStartLeast(m: Matches, cur: nat)
    requires cur <= m.n + 1
    ensures var i := NextStartOf(m, cur);
            i <= m.n + 1 && (forall k :: cur <= k < i ==> !StartsAt(m, k)) && (i <= m.n ==> StartsAt(m, i))
    decreases m.n + 1 - cur
  {
    if cur <= m.n && !StartsAt(m, cur) {
      NextStartLeast(m, cur + 1);
    }
  }

  lemma {:induction false} StartHasLength(m: Matches, i: nat, j: nat, k: nat)
    requires i <= k <= j <= m.n + 1 && i <= m.n && m.at(i, k)
    ensures LengthUpTo(m, i, j) >= 0
    decreases j
  {
    if !m.at(i, j) {
      StartHasLength(m, i, j - 1, k);
    }
  }

  /** The next match from `cur` on, with what `Selected` needs to know about it. */
  lemma {:induction false} NextHasLength(m: Matches, cur: nat)
    requires cur <= m.n + 1
    ensures var i := NextStartOf(m, cur);
            && i <= m.n + 1 && (forall k :: cur <= k < i ==> !StartsAt(m, k))
            && (i <= m.n ==> StartsAt(m, i) && LengthAt(m, i) >= 0)
  {
    NextStartLeast(m, cur);
    var i := NextStartOf(m, cur);
    if i <= m.n {
      var j :| i <= j <= m.n + 1 && m.at(i, j);
      StartHasLength(m, i, m.n + 1, j);
    }
  }

  lemma {:induction false} SelectedSound(m: Matches, cur: nat, after: bool)
    requires cur <= m.n + 1
    ensures Sound(m, Selected(m, cur, after), cur, after)
    decreases m.n + 1 - cur
  {
    NextHasLength(m, cur);
    var i := NextStartOf(m, cur);
    if i <= m.n {
      var len := LengthAt(m, i);
      var next := if len > 0 then i + len else i + 1;
      var rest := Selected(m, next, len > 0);
      SelectedSound(m, next, len > 0);
      if len == 0 && after && i == cur {
        PassedOver(m, rest, cur);
      } else {
        SoundHead(m, Stretch(i, len), rest, cur, after);
      }
    }
  }

  lemma {:induction false} PassedOver(m: Matches, ms: seq<Stretch>, cur: nat)
    requires Sound(m, ms, cur + 1, false)
    ensures Sound(m, ms, cur, true)
  {
  }

  lemma {:induction false} SoundHead(m: Matches, x: Stretch, ms: seq<Stretch>, cur: nat, after: bool)
    requires cur <= x.beg <= m.n && StartsAt(m, x.beg) && LengthAt(m, x.beg) == x.len
             && !(after && x.len == 0 && x.beg == cur)
    requires forall i :: cur <= i < x.beg && !(after && i == cur) ==> !StartsAt(m, i)
    requires Sound(m, ms, if x.len > 0 then x.beg + x.len else x.beg + 1, x.len > 0)
    ensures Sound(m, [x] + ms, cur, after)
  {
    assert ([x] + ms)[1..] == ms;
  }

  ghost predicate Covers(m: Stretch, i: nat) {
    m.beg <= i <= m.beg + m.len
  }

  /** Nothing is missed: a match starts only inside a selected stretch, at its end, or where it is passed over. */
  lemma {:induction false} SelectedComplete(m: Matches, cur: nat, after: bool, i: nat)
    requires cur <= i <= m.n && StartsAt(m, i)
    ensures (after && i == cur) || exists x :: x in Selected(m, cur, after) && Covers(x, i)
    decreases m.n + 1 - cur
  {
    NextHasLength(m, cur);
    var b := NextStartOf(m, cur);
    var len := LengthAt(m, b);
    assert b <= i;
    if len > 0 {
      if i <= b + len {
        assert Covers(Stretch(b, len), i);
      } else {
        SelectedComplete(m, b + len, true, i);
      }
    } else if i == b {
      assert Covers(Stretch(b, 0), i);
    } else {
      SelectedComplete(m, b + 1, false, i);
    }
  }

  /** The text from `cur` on with the stretches replaced. */
  function Splice(s: Text, cur: nat, ms: seq<Stretch>, repl: seq<nat>): seq<nat>
    requires cur <= |s| && Ordered(ms, cur, |s|)
    decreases |ms|
  {
    if ms == [] then s[cur..]
    else
      var m := ms[0];
      s[cur..m.beg] + Expand(repl, s[m.beg..m.beg + m.len]) + Splice(s, m.beg + m.len, ms[1..], repl)
  }

  /** Stretches that start later leave the character at `cur` in place. */
  lemma {:induction false} SpliceCopies(s: Text, cur: nat, ms: seq<Stretch>, repl: seq<nat>)
    requires cur < |s| && Ordered(ms, cur + 1, |s|)
    ensures Ordered(ms, cur, |s|) && Splice(s, cur, ms, repl) == [s[cur]] + Splice(s, cur + 1, ms, repl)
  {
    if ms == [] {
      assert s[cur..] == [s[cur]] + s[cur + 1..];
    } else {
      SliceHead(s, cur, ms[0].beg);
      ConsFirst(s[cur], s[cur + 1..ms[0].beg], Expand(repl, s[ms[0].beg..ms[0].beg + ms[0].len]),
                Splice(s, ms[0].beg + ms[0].len, ms[1..], repl));
    }
  }

  lemma {:induction false} SliceHead(s: Text, i: nat, j: nat)
    requires i < j <= |s|
    ensures s[i..j] == [s[i]] + s[i + 1..j]
  {
  }

  lemma {:induction false} ConsFirst(x: nat, a: seq<nat>, b: seq<nat>, c: seq<nat>)
    ensures [x] + a + b + c == [x] + (a + b + c)
  {
  }

  lemma {:induction false} SpliceHead(s: Text, cur: nat, m: Stretch, ms: seq<Stretch>, repl: seq<nat>)
    requires cur <= m.beg && m.beg + m.len <= |s| && Ordered(ms, m.beg + m.len, |s|)
    ensures Ordered([m] + ms, cur, |s|)
    ensures Splice(s, cur, [m] + ms, repl) ==
            s[cur..m.beg] + Expand(repl, s[m.beg..m.beg + m.len]) + Splice(s, m.beg + m.len, ms, repl)
  {
    assert ([m] + ms)[1..] == ms;
  }

  lemma {:induction false} SpliceEmpty(s: Text, cur: nat, ms: seq<Stretch>, repl: seq<nat>)
    requires cur < |s| && Ordered(ms, cur + 1, |s|)
    ensures Ordered([Stretch(cur, 0)] + ms, cur, |s|)
    ensures Splice(s, cur, [Stretch(cur, 0)] + ms, repl) == Expand(repl, []) + ([s[cur]] + Splice(s, cur + 1, ms, repl))
  {
    var x := Splice(s, cur, ms, repl);
    assert Ordered(ms, cur, |s|) && x == [s[cur]] + Splice(s, cur + 1, ms, repl) by { SpliceCopies(s, cur, ms, repl); }
    SpliceHead(s, cur, Stretch(cur, 0), ms, repl);
    NothingFirst(s[cur..cur], Expand(repl, s[cur..cur + 0]), x);
    assert s[cur..cur + 0] == [];
  }

  lemma {:induction false} NothingFirst(a: seq<nat>, b: seq<nat>, c: seq<nat>)
    requires a == []
    ensures a + b + c == b + c
  {
  }

  // ----- what is left to write, and how each round of gsub shortens it -----

  ghost function Output(m: Matches, s: Text, cur: nat, after: bool, repl: seq<nat>): seq<nat>
    requires cur <= |s| == m.n
  {
    SelectedOrdered(m, cur, after);
    Splice(s, cur, Selected(m, cur, after), repl)
  }

  ghost function Count(m: Matches, cur: nat, after: bool): nat {
    |Selected(m, cur, after)|
  }

  /** An empty match in front of the character at `cur`. */
  lemma {:induction false} EmptyStep(m: Matches, s: Text, cur: nat, after: bool, repl: seq<nat>)
    requires cur < |s| == m.n && NextStartOf(m, cur) == cur && LengthAt(m, cur) == 0
    ensures Output(m, s, cur, after, repl) ==
            (if after then [] else Expand(repl, [])) + ([s[cur]] + Output(m, s, cur + 1, false, repl))
    ensures Count(m, cur, after) == (if after then 0 else 1) + Count(m, cur + 1, false)
  {
    var ms := Selected(m, cur + 1, false);
    SelectedOrdered(m, cur + 1, false);
    if after {
      assert Selected(m, cur, after) == ms;
      SpliceCopies(s, cur, ms, repl);
    } else {
      assert Selected(m, cur, after) == [Stretch(cur, 0)] + ms;
      SpliceEmpty(s, cur, ms, repl);
    }
  }

  /** A non-empty match. */
  lemma {:induction false} MatchStep(m: Matches, s: Text, cur: nat, after: bool, repl: seq<nat>, b: nat, len: nat)
    requires cur <= b <= |s| == m.n && NextStartOf(m, cur) == b && LengthAt(m, b) == len > 0
    ensures b + len <= |s|
    ensures Output(m, s, cur, after, repl) ==
            s[cur..b] + Expand(repl, s[b..b + len]) + Output(m, s, b + len, true, repl)
    ensures Count(m, cur, after) == 1 + Count(m, b + len, true)
  {
    var ms := Selected(m, b + len, true);
    SelectedOrdered(m, b + len, true);
    assert Selected(m, cur, after) == [Stretch(b, len)] + ms;
    SpliceHead(s, cur, Stretch(b, len), ms, repl);
  }

  /** An empty match at the very end, not right after a non-empty one. */
  lemma {:induction false} EndStep(m: Matches, s: Text, cur: nat, repl: seq<nat>)
    requires cur <= |s| == m.n && NextStartOf(m, cur) == |s| && LengthAt(m, |s|) == 0
    ensures Output(m, s, cur, false, repl) == s[cur..] + Expand(repl, [])
    ensures Count(m, cur, false) == 1
  {
    assert Selected(m, |s| + 1, false) == [];
    assert Selected(m, cur, false) == [Stretch(|s|, 0)] + [];
    SpliceHead(s, cur, Stretch(|s|, 0), [], repl);
    assert s[|s|..|s|] == [] && s[|s|..] == [] && s[cur..|s|] == s[cur..];
  }

  /** Nothing more is replaced. */
  lemma {:induction false} LastStep(m: Matches, s: Text, cur: nat, after: bool, repl: seq<nat>)
    requires cur <= |s| == m.n && (NextStartOf(m, cur) > |s| || (cur == |s| && after))
    ensures Output(m, s, cur, after, repl) == s[cur..] && Count(m, cur, after) == 0
  {
    if NextStartOf(m, cur) <= |s| {
      assert Selected(m, cur + 1, false) == [];
    }
  }
}
