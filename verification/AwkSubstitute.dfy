/**
 `sub` and `gsub` (cmd/awk/run.c): first as what they write along the calls of `pmatch` they make, then as the
 replacement of the selected matches.
 */
module AwkSubstitute {
  import opened AwkLanguage
  import opened AwkPattern
  import opened AwkMeaning
  import opened AwkCache
  import opened AwkRun
  import opened AwkAutomaton
  import opened AwkMatch
  import opened AwkReplacement

  // ----- matching in the rest of the text -----

  /** The matches the automaton finds in `s`. */
  ghost function MatchesOf(a: Auto, s: Text, bol: bool): Matches {
    Matches(|s|, (i: nat, j: nat) => i <= j <= |s| + 1 && Hits(a, FromAt(a, bol, i), Terminated(s), i, j))
  }

  /** The automaton finds the same stretches in the rest of the text, once `^` is out of the way. */
  lemma {:induction false} RestHits(a: Auto, s: Text, bol: bool, t: nat, rbol: bool, i: nat, j: nat)
    requires t <= |s| && i <= j <= |s| - t + 1
    requires if t == 0 then rbol == bol else rbol ==> Init(a) == a.starts
    ensures Hits(a, FromAt(a, rbol, i), Terminated(s[t..]), i, j) <==> MatchesOf(a, s, bol).at(t + i, t + j)
  {
    assert Terminated(s[t..])[i..j] == Terminated(s)[t + i..t + j];
    assert FromAt(a, rbol, i) == FromAt(a, bol, t + i);
  }

  /** What `pmatch` finds in the rest is the next match of the whole text. */
  lemma {:induction false} FoundIsNext(a: Auto, s: Text, bol: bool, t: nat, rbol: bool, found: bool, b: nat, len: int)
    requires t <= |s| && LeftmostLongest(a, rbol, Terminated(s[t..]), 0, 0, found, b, len)
    requires if t == 0 then rbol == bol else rbol ==> Init(a) == a.starts
    ensures var m := MatchesOf(a, s, bol);
            if found then NextStartOf(m, t) == t + b <= |s| && LengthAt(m, t + b) == len else NextStartOf(m, t) > |s|
  {
    var m := MatchesOf(a, s, bol);
    var last := if found then b else |s| - t + 1;
    forall k: nat | t <= k < t + last ensures !StartsAt(m, k) {
      NotStarted(a, s, bol, t, rbol, k - t);
    }
    if found {
      LongestFound(a, s, bol, t, rbol, b, len);
    }
    NextStartIsLeast(m, t, t + last);
  }

  lemma {:induction false} NotStarted(a: Auto, s: Text, bol: bool, t: nat, rbol: bool, i: nat)
    requires t + i <= |s| && Fails(a, FromAt(a, rbol, i), Terminated(s[t..]), i, 0)
    requires if t == 0 then rbol == bol else rbol ==> Init(a) == a.starts
    ensures !StartsAt(MatchesOf(a, s, bol), t + i)
  {
    var m, k := MatchesOf(a, s, bol), t + i;
    forall j: nat | k <= j <= |s| + 1 ensures !m.at(k, j) {
      RestHits(a, s, bol, t, rbol, i, j - t);
    }
  }

  lemma {:induction false} LongestReached(a: Auto, s: Text, bol: bool, t: nat, rbol: bool, i: nat, j: nat)
    requires t + i <= |s| && i <= j < |s| - t + 2 && Hits(a, FromAt(a, rbol, i), Terminated(s[t..]), i, j)
    requires if t == 0 then rbol == bol else rbol ==> Init(a) == a.starts
    ensures var m := MatchesOf(a, s, bol);
            m.at(t + i, t + j) && TextLen(Terminated(s[t..]), i, j) == LenTo(m, t + i, t + j)
  {
    RestHits(a, s, bol, t, rbol, i, j);
  }

  lemma {:induction false} LongestBound(a: Auto, s: Text, bol: bool, t: nat, rbol: bool, i: nat, len: int, e: nat)
    requires t + i <= |s| && t + i <= e <= |s| + 1 && len >= 0
    requires Longest(a, FromAt(a, rbol, i), Terminated(s[t..]), i, |s| - t + 1, len)
    requires if t == 0 then rbol == bol else rbol ==> Init(a) == a.starts
    requires MatchesOf(a, s, bol).at(t + i, e)
    ensures LenTo(MatchesOf(a, s, bol), t + i, e) <= len
  {
    RestHits(a, s, bol, t, rbol, i, e - t);
    assert Hits(a, FromAt(a, rbol, i), Terminated(s[t..]), i, e - t);
    assert TextLen(Terminated(s[t..]), i, e - t) <= len;
  }

  lemma {:induction false} LongestFound(a: Auto, s: Text, bol: bool, t: nat, rbol: bool, i: nat, len: int)
    requires t + i <= |s| && len >= 0 && Longest(a, FromAt(a, rbol, i), Terminated(s[t..]), i, |s| - t + 1, len)
    requires if t == 0 then rbol == bol else rbol ==> Init(a) == a.starts
    ensures StartsAt(MatchesOf(a, s, bol), t + i) && LengthAt(MatchesOf(a, s, bol), t + i) == len
  {
    hide Hits, FromAt, Init, LengthUpTo, TextLen;
    var m, k, z := MatchesOf(a, s, bol), t + i, Terminated(s[t..]);
    var j :| i <= j < |s| - t + 2 && Hits(a, FromAt(a, rbol, i), z, i, j) && len == TextLen(z, i, j);
    LongestReached(a, s, bol, t, rbol, i, j);
    forall e: nat | k <= e <= |s| + 1 && m.at(k, e) ensures LenTo(m, k, e) <= len {
      LongestBound(a, s, bol, t, rbol, i, len, e);
    }
    var end := t + j;
    assert m.at(k, end) && k <= end <= m.n + 1 && len == LenTo(m, k, end);
    LengthIsLongest(m, k, m.n + 1, len);
  }

  /** The next match from `t` on, if any. */
  ghost predicate IsNext(m: Matches, t: nat, found: bool, beg: nat, len: int) {
    if found then NextStartOf(m, t) == beg <= m.n && LengthAt(m, beg) == len else NextStartOf(m, t) > m.n
  }

  /** `pmatch` called on the rest of the text. */
  ghost function CallAt(a: Auto, st: State, s: Text, t: nat): Found
    requires t <= |s|
  {
    PmatchCall(a, st, Terminated(s[t..]), 0)
  }

  lemma {:induction false} CallReady(a: Auto, st: State, s: Text, t: nat)
    requires st in AtRest(a) && st.anchor && t <= |s|
    ensures var o := CallAt(a, st, s, t);
            && o.c.now in AtRest(a) && o.c.now.anchor && (o.found ==> o.len >= 0 && t + o.beg + o.len <= |s|)
  {
    hide Search, Begin, Ready, Held;
    CallInside(a, st, Terminated(s[t..]), 0);
    RunsAtRest(a, CallAt(a, st, s, t).c);
    CallAnchored(a, st, Terminated(s[t..]), 0);
  }

  /** A call finds the next match unless it is led astray, or takes `^` behind the start of the text. */
  lemma {:induction false} CallIsNext(a: Auto, st: State, s: Text, bol: bool, t: nat)
    requires Held(a, st) && st.anchor && IsLine(s) && t <= |s|
    requires if t == 0 then AtLineStart(a, st) == bol else AtLineStart(a, st) ==> InitRow(a) == 2
    ensures var o := CallAt(a, st, s, t);
            !o.c.astray ==> IsNext(MatchesOf(a, s, bol), t, o.found, t + o.beg, o.len)
  {
    hide Search, Begin, Ready, Usable, Started, Exact, LeftmostLongest, WellMade;
    var z := Terminated(s[t..]);
    BeginReady(a, st);
    if !CallAt(a, st, s, t).c.astray {
      var o := CallAt(a, st, s, t);
      SearchRight(a, Begin(a, st), z, 0, 0, AtLineStart(a, st));
      FoundIsNext(a, s, bol, t, AtLineStart(a, st), o.found, o.beg, o.len);
    }
  }

  // ----- sub -----

  datatype Result<T> = Done(value: T) | TooBig

  /** Calls `pmatch` on the rest of the text. */
  method FindNext(f: Fa, s: Text, t: nat) returns (found: bool, beg: nat, len: nat)
    requires f.Valid() && f.anchor && IsLine(s) && t <= |s|
    modifies f`gototab, f`posns, f`out, f`curstat, f`initstat, f`reset
    modifies f.statics`setcnt, f.statics`marked, f.statics`limit, f.statics.setvec
    ensures f.Valid()
    ensures var o := CallAt(f.auto, old(f.Kept()), s, t);
            && f.Kept() == o.c.now && found == o.found
            && (found ==> beg == t + o.beg && len == o.len && beg + len <= |s|)
  {
    hide PmatchCall, Fa.Compiled, AtRest;
    var r, b, l := Pmatch(f, s[t..]);
    found, beg, len := r, t + b, if r then l else 0;
  }

  /** What `sub` leaves in its buffer once it has found a match. */
  function Substituted(s: Text, repl: seq<nat>, beg: nat, len: nat): seq<nat>
    requires beg + len <= |s|
  {
    s[..beg] + Expand(repl, s[beg..beg + len]) + s[beg + len..]
  }

  /**
   The result of `sub` for any length: at the very end of the text an overlong result is cut, elsewhere it is refused.
   */
  function SubResult(s: Text, repl: seq<nat>, beg: nat, len: nat): Result<(Text, nat)>
    requires beg + len <= |s|
  {
    var out := Substituted(s, repl, beg, len);
    if len > 0 || beg < |s| then (if |out| < RECSIZE - 1 then Done((out, 1)) else TooBig)
    else if |s| >= RECSIZE then TooBig
    else Done((out[..if |out| < RECSIZE then |out| else RECSIZE - 1], 1))
  }

  /** Replaces the first match. */
  method Sub(f: Fa, s: Text, repl: seq<nat>) returns (r: Result<(Text, nat)>)
    requires f.Valid() && f.anchor && IsLine(s)
    modifies f`gototab, f`posns, f`out, f`curstat, f`initstat, f`reset
    modifies f.statics`setcnt, f.statics`marked, f.statics`limit, f.statics.setvec
    ensures f.Valid()
    ensures var o := CallAt(f.auto, old(f.Kept()), s, 0);
            && f.Kept() == o.c.now
            && (o.found ==> o.len >= 0 && o.beg + o.len <= |s|)
            && r == (if o.found then SubResult(s, repl, o.beg, o.len) else Done((s, 0)))
            && (!o.c.astray ==>
                  IsNext(MatchesOf(f.auto, s, AtLineStart(f.auto, old(f.Kept()))), 0, o.found, o.beg, o.len))
  {
    hide CallAt, MatchesOf, Held;
    HeldAtRest(f.auto, f.Kept());
    CallReady(f.auto, f.Kept(), s, 0);
    CallIsNext(f.auto, f.Kept(), s, AtLineStart(f.auto, f.Kept()), 0);
    var found, beg, len := FindNext(f, s, 0);
    if !found {
      return Done((s, 0));
    }
    r := Substitute(s, repl, beg, len);
  }

  lemma {:induction false} HeldAtRest(a: Auto, st: State)
    requires st in AtRest(a)
    ensures Held(a, st)
  {
  }

  method Substitute(s: Text, repl: seq<nat>, beg: nat, len: nat) returns (r: Result<(Text, nat)>)
    requires beg + len <= |s|
    ensures r == SubResult(s, repl, beg, len)
  {
    var matched := s[beg..beg + len];
    ghost var out := Substituted(s, repl, beg, len);
    CopiedExactly(beg, repl, matched);
    var pb := AppendExpansion(s[..beg], repl, matched);
    assert |pb| == Copied(beg, repl, len);
    if |pb| >= RECSIZE {
      if len == 0 { assert matched == []; }
      return TooBig;
    }
    var cursor := |pb|;
    if (len == 0 && beg < |s|) || len > 0 {
      if |pb| == beg + |Expand(repl, matched)| { assert pb + s[beg + len..] == out; }
      pb := pb + s[beg + len..];
      cursor := |pb| + 1;
    } else {
      assert matched == [] && s[beg + len..] == [];
      assert out == s[..beg] + Expand(repl, matched);
      if |pb| == |out| { assert out[..|out|] == out; }
    }
    r := if cursor >= RECSIZE then TooBig else Done((pb, 1));
  }

  // ----- what one round of gsub writes -----

  /** The match found is an empty one in front of a character: that character is copied. */
  predicate IsEmptyRound(s: Text, beg: nat, len: nat) {
    len == 0 && beg < |s|
  }

  /**
   What a round at `t` adds to the result; an empty match right after a non-empty one (`after`) adds no replacement.
   */
  function Piece(s: Text, repl: seq<nat>, t: nat, after: bool, beg: nat, len: nat): seq<nat>
    requires t <= beg && beg + len <= |s|
  {
    if IsEmptyRound(s, beg, len) then (if after then [] else Expand(repl, [])) + [s[t]]
    else s[t..beg] + Expand(repl, s[beg..beg + len])
  }

  function Replaced(s: Text, after: bool, beg: nat, len: nat): nat {
    if IsEmptyRound(s, beg, len) && after then 0 else 1
  }

  function NextPlace(s: Text, t: nat, beg: nat, len: nat): nat {
    if IsEmptyRound(s, beg, len) then t + 1 else beg + len
  }

  /** Is the end of the text replaced, so that nothing is left to do? */
  predicate ReachesEnd(s: Text, beg: nat, len: nat) {
    !IsEmptyRound(s, beg, len) && beg + len == |s|
  }

  /** The characters in the buffer after `n` more were copied from `len` on. */
  function CopiedPlain(len: nat, n: nat): nat {
    if len + n < RECSIZE then len + n else if len < RECSIZE - 1 then RECSIZE - 1 else len
  }

  /** The characters in the buffer after a round, when there were `w` before. */
  function Width(s: Text, repl: seq<nat>, t: nat, after: bool, beg: nat, len: nat, w: nat): nat
    requires t <= beg
  {
    if IsEmptyRound(s, beg, len) then (if after then w else Copied(w, repl, 0)) + 1
    else Copied(CopiedPlain(w, beg - t), repl, len)
  }

  /** The buffer holds what has been written, or as much of it as it takes. */
  ghost predicate Buffered(pb: seq<nat>, written: seq<nat>) {
    && |pb| < RECSIZE && |pb| <= |written| && pb == written[..|pb|]
    && (|pb| < RECSIZE - 1 ==> |pb| == |written|)
  }

  lemma {:induction false} WidthExactly(s: Text, repl: seq<nat>, t: nat, after: bool, beg: nat, len: nat, w: nat)
    requires t <= beg && beg + len <= |s| && w < RECSIZE
    ensures var n := |Piece(s, repl, t, after, beg, len)|;
            && w <= Width(s, repl, t, after, beg, len, w) <= w + n
            && (Width(s, repl, t, after, beg, len, w) < RECSIZE - 1 ==> Width(s, repl, t, after, beg, len, w) == w + n)
    ensures IsEmptyRound(s, beg, len) && Width(s, repl, t, after, beg, len, w) < RECSIZE ==>
              Width(s, repl, t, after, beg, len, w) == w + |Piece(s, repl, t, after, beg, len)|
  {
    if IsEmptyRound(s, beg, len) {
      CopiedExactly(w, repl, []);
    } else {
      CopiedExactly(CopiedPlain(w, beg - t), repl, s[beg..beg + len]);
    }
  }

  /** Copies until the buffer is full. */
  method CopyText(pb: seq<nat>, x: seq<nat>) returns (r: seq<nat>)
    ensures |pb| <= CopiedPlain(|pb|, |x|) <= |pb| + |x| && r == (pb + x)[..CopiedPlain(|pb|, |x|)]
  {
    r := pb;
    var k := 0;
    while k < |x| && |r| < RECSIZE - 1
      invariant 0 <= k <= |x| && r == pb + x[..k] && (k > 0 ==> |r| < RECSIZE)
    {
      r := r + [x[k]];
      k := k + 1;
    }
    assert pb + x[..k] == (pb + x)[..|pb| + k];
  }

  /** A round for an empty match in front of a character. */
  method EmptyRound(s: Text, repl: seq<nat>, pb: seq<nat>, t: nat, after: bool) returns (r: seq<nat>)
    requires t < |s| && |pb| < RECSIZE
    ensures |r| == (if after then |pb| else Copied(|pb|, repl, 0)) + 1
    ensures |r| < RECSIZE ==> r == pb + ((if after then [] else Expand(repl, [])) + [s[t]])
  {
    r := pb;
    CopiedExactly(|pb|, repl, []);
    if !after {
      r := AppendExpansion(r, repl, []);
    }
    ghost var sofar := r;
    r := r + [s[t]];
    if |r| < RECSIZE && !after {
      assert sofar == pb + Expand(repl, []);
      assert pb + Expand(repl, []) + [s[t]] == pb + (Expand(repl, []) + [s[t]]);
    }
  }

  /** A round for any other match. */
  method MatchRound(s: Text, repl: seq<nat>, pb: seq<nat>, t: nat, beg: nat, len: nat) returns (r: seq<nat>)
    requires t <= beg && beg + len <= |s| && |pb| < RECSIZE
    ensures |r| == Copied(CopiedPlain(|pb|, beg - t), repl, len)
    ensures var x := s[t..beg] + Expand(repl, s[beg..beg + len]);
            |r| < RECSIZE ==> |r| <= |pb| + |x| && r == (pb + x)[..|r|]
  {
    var before := CopyText(pb, s[t..beg]);
    ghost var matched := s[beg..beg + len];
    CopiedExactly(|before|, repl, matched);
    r := AppendExpansion(before, repl, s[beg..beg + len]);
    if |before| == |pb| + (beg - t) {
      CutWhole(pb, s[t..beg], Expand(repl, matched), r);
    } else if |r| < RECSIZE {
      CutPart(pb, s[t..beg], Expand(repl, matched), |before|);
    }
  }

  lemma {:induction false} CutWhole(a: seq<nat>, b: seq<nat>, c: seq<nat>, r: seq<nat>)
    requires |r| <= |a + b + c| && r == (a + b + c)[..|r|]
    ensures r == (a + (b + c))[..|r|]
  {
    assert a + b + c == a + (b + c);
  }

  lemma {:induction false} CutPart(a: seq<nat>, b: seq<nat>, c: seq<nat>, n: nat)
    requires n <= |a + b|
    ensures (a + b)[..n] == (a + (b + c))[..n] && ((a + b)[..n] + c)[..n] == (a + b)[..n]
  {
  }

  /** One round of the loop. */
  method Round(s: Text, repl: seq<nat>, pb: seq<nat>, t: nat, after: bool, beg: nat, len: nat) returns (r: seq<nat>)
    requires t <= beg && beg + len <= |s| && |pb| < RECSIZE
    ensures |r| == Width(s, repl, t, after, beg, len, |pb|)
    ensures |r| < RECSIZE ==>
              |r| <= |pb| + |Piece(s, repl, t, after, beg, len)|
                && r == (pb + Piece(s, repl, t, after, beg, len))[..|r|]
  {
    if len == 0 && beg < |s| {
      r := EmptyRound(s, repl, pb, t, after);
    } else {
      r := MatchRound(s, repl, pb, t, beg, len);
    }
  }

  // ----- gsub along its calls -----

  /**
   What a run of gsub comes to: the text it writes when the buffer is no limit and the number of replacements, what
   the automaton keeps, whether a call was led astray or took `^` again, whether everything fitted the buffer, and
   whether the end of the text was replaced.
   */
  datatype Tally = Tally(out: seq<nat>, num: nat, now: State, astray: bool, hatAgain: bool, fits: bool, atEnd: bool)

  /** A call from here takes `^` at its start, where that makes a difference. */
  ghost predicate TakesHat(a: Auto, st: State) {
    AtLineStart(a, st) && InitRow(a) != 2
  }

  /** The match that a call on the rest of the text from `t` has found lies within the text. */
  predicate Inside(s: Text, t: nat, o: Found) {
    o.found && 0 <= o.len && t + o.beg + o.len <= |s|
  }

  /** The loop, entered at `t` with the outcome `o` of a call there and `w` characters in the buffer. */
  ghost function Replacing(a: Auto, o: Found, s: Text, repl: seq<nat>, t: nat, after: bool, w: nat): Tally
    requires t <= |s|
    decreases |s| - t
  {
    if !Inside(s, t, o) then
      Tally(s[t..], 0, o.c.now, o.c.astray, false, w + |s[t..]| + 1 < RECSIZE, false)
    else
      var beg, len, st := t + o.beg, o.len as nat, o.c.now;
      var x := Piece(s, repl, t, after, beg, len);
      var w' := Width(s, repl, t, after, beg, len, w);
      if ReachesEnd(s, beg, len) then
        Tally(x, 1, st, o.c.astray, false, w' < RECSIZE, true)
      else
        var t' := NextPlace(s, t, beg, len);
        var rest := Replacing(a, CallAt(a, st, s, t'), s, repl, t', !IsEmptyRound(s, beg, len), w');
        Tally(x + rest.out, Replaced(s, after, beg, len) + rest.num, rest.now, o.c.astray || rest.astray,
              TakesHat(a, st) || rest.hatAgain, w' < RECSIZE && rest.fits, rest.atEnd)
  }

  /** A state with `^` put out of the way for the next call. */
  function WithoutHat(o: Found): Found {
    o.(c := o.c.(now := o.c.now.(initstat := 2)))
  }

  ghost function GsubRun(a: Auto, st: State, s: Text, repl: seq<nat>): Tally {
    var o := CallAt(a, st, s, 0);
    if !o.found then Tally(s, 0, o.c.now, o.c.astray, false, true, false)
    else
      var g := Replacing(a, WithoutHat(o), s, repl, 0, false, 0);
      g.(now := g.now.(initstat := o.c.now.initstat))
  }

  /** The result of `gsub`: refused, or the text written, cut where the buffer ends. */
  function GsubResult(g: Tally): Result<(Text, nat)> {
    if g.fits then Done((g.out[..if |g.out| < RECSIZE then |g.out| else RECSIZE - 1], g.num)) else TooBig
  }

  lemma {:induction false} WithoutHatRests(a: Auto, st: State)
    requires st in AtRest(a) && st.anchor
    ensures st.(initstat := 2) in AtRest(a)
    ensures forall i :: i == 2 || i == InitRow(a) ==> st.(initstat := i) in AtRest(a)
    ensures st.initstat == 2 || st.initstat == InitRow(a)
  {
  }

  /** Written so far and still to be written make up the whole run `g`. */
  ghost predicate Midway(g: Tally, rest: Tally, pb: seq<nat>, written: seq<nat>, num: nat) {
    && Buffered(pb, written) && g.out == written + rest.out && g.num == num + rest.num
    && g.now == rest.now && (g.fits <==> rest.fits) && (g.atEnd <==> rest.atEnd)
  }

  lemma {:induction false} MidwayNext(g: Tally, rest: Tally, pb: seq<nat>, written: seq<nat>, num: nat,
                                      x: seq<nat>, n: nat, pb': seq<nat>, rest': Tally)
    requires Midway(g, rest, pb, written, num) && rest.out == x + rest'.out && rest.num == n + rest'.num
    requires rest.now == rest'.now && (rest.fits <==> rest'.fits) && (rest.atEnd <==> rest'.atEnd)
    requires |pb| <= |pb'| < RECSIZE && |pb'| <= |pb + x| && pb' == (pb + x)[..|pb'|]
    requires |pb'| < RECSIZE - 1 ==> |pb'| == |pb| + |x|
    ensures Midway(g, rest', pb', written + x, num + n)
  {
    assert written + (x + rest'.out) == written + x + rest'.out;
    if |pb| == |written| {
      assert pb == written;
    } else {
      assert pb' == pb == (written + x)[..|pb|];
    }
  }

  /** A round that reaches the end of the text leaves nothing to do. */
  ghost predicate AtDone(g: Tally, pb: seq<nat>, num: nat, now: State) {
    if |pb| < RECSIZE then g.fits && Buffered(pb, g.out) && g.num == num && g.now == now else !g.fits
  }

  lemma {:induction false} RoundDone(a: Auto, g: Tally, o: Found, s: Text, repl: seq<nat>, t: nat, after: bool,
                                     pb: seq<nat>, written: seq<nat>, num: nat, pb': seq<nat>)
    requires t <= |s| && Inside(s, t, o) && ReachesEnd(s, t + o.beg, o.len)
    requires Midway(g, Replacing(a, o, s, repl, t, after, |pb|), pb, written, num)
    requires |pb'| == Width(s, repl, t, after, t + o.beg, o.len, |pb|)
    requires var x := Piece(s, repl, t, after, t + o.beg, o.len);
             |pb'| < RECSIZE ==> |pb'| <= |pb + x| && pb' == (pb + x)[..|pb'|]
    ensures AtDone(g, pb', num + 1, o.c.now)
  {
    hide CallAt;
    var x, none := Piece(s, repl, t, after, t + o.beg, o.len), Tally([], 0, o.c.now, false, false, true, true);
    WidthExactly(s, repl, t, after, t + o.beg, o.len, |pb|);
    if |pb'| < RECSIZE {
      assert x == x + [];
      MidwayNext(g, Replacing(a, o, s, repl, t, after, |pb|), pb, written, num, x, 1, pb', none);
      assert written + x + [] == written + x;
    }
  }

  lemma {:induction false} RoundNext(a: Auto, g: Tally, o: Found, s: Text, repl: seq<nat>, t: nat, after: bool,
                                     pb: seq<nat>, written: seq<nat>, num: nat, pb': seq<nat>)
    requires t <= |s| && Inside(s, t, o) && !ReachesEnd(s, t + o.beg, o.len)
    requires Midway(g, Replacing(a, o, s, repl, t, after, |pb|), pb, written, num)
    requires |pb'| == Width(s, repl, t, after, t + o.beg, o.len, |pb|)
    requires var x := Piece(s, repl, t, after, t + o.beg, o.len);
             |pb'| < RECSIZE ==> |pb'| <= |pb + x| && pb' == (pb + x)[..|pb'|]
    ensures var beg, len := t + o.beg, o.len;
            var t' := NextPlace(s, t, beg, len);
            && t < t' <= |s|
            && if |pb'| >= RECSIZE then !g.fits
               else Midway(g, Replacing(a, CallAt(a, o.c.now, s, t'), s, repl, t', !IsEmptyRound(s, beg, len), |pb'|),
                           pb', written + Piece(s, repl, t, after, beg, len), num + Replaced(s, after, beg, len))
  {
    hide CallAt, Piece, Width;
    var beg, len := t + o.beg, o.len;
    var t', x := NextPlace(s, t, beg, len), Piece(s, repl, t, after, beg, len);
    WidthExactly(s, repl, t, after, beg, len, |pb|);
    if |pb'| < RECSIZE {
      var rest := Replacing(a, CallAt(a, o.c.now, s, t'), s, repl, t', !IsEmptyRound(s, beg, len), |pb'|);
      MidwayNext(g, Replacing(a, o, s, repl, t, after, |pb|), pb, written, num, x, Replaced(s, after, beg, len),
                 pb', rest);
    }
  }

  /** The loop of gsub, entered with a first match found and `^` put out of the way. */
  method ReplaceAll(f: Fa, s: Text, repl: seq<nat>, beg0: nat, len0: nat, ghost o0: Found)
    returns (r: Result<(Text, nat)>)
    requires f.Valid() && f.anchor && IsLine(s) && Inside(s, 0, o0) && beg0 == o0.beg && len0 == o0.len
    requires f.Kept() == o0.c.now
    modifies f`gototab, f`posns, f`out, f`curstat, f`initstat, f`reset
    modifies f.statics`setcnt, f.statics`marked, f.statics`limit, f.statics.setvec
    ensures f.Valid()
    ensures var g := Replacing(f.auto, o0, s, repl, 0, false, 0); r == GsubResult(g) && (g.fits ==> f.Kept() == g.now)
  {
    hide Replacing, CallAt, Piece, Width, AtRest;
    ghost var a, o, written := f.auto, o0, [];
    ghost var g := Replacing(a, o0, s, repl, 0, false, 0);
    var found, beg, len := true, beg0, len0;
    var pb, num, t, mflag, done := [], 0, 0, false, false;
    while found && !done
      invariant f.Valid() && o.c.now == f.Kept() && t <= |s|
      invariant !done ==> Midway(g, Replacing(a, o, s, repl, t, mflag, |pb|), pb, written, num)
      invariant !done ==> (found <==> Inside(s, t, o)) && (found ==> beg == t + o.beg && len == o.len)
      invariant done ==> AtDone(g, pb, num, f.Kept())
      decreases |s| - t, !done
    {
      var pb' := Round(s, repl, pb, t, mflag, beg, len);
      if !(len == 0 && beg < |s|) && beg + len == |s| {
        RoundDone(a, g, o, s, repl, t, mflag, pb, written, num, pb');
        pb, num, t, done := pb', num + 1, |s|, true;
      } else {
        RoundNext(a, g, o, s, repl, t, mflag, pb, written, num, pb');
        if |pb'| >= RECSIZE {
          return TooBig;
        }
        written := written + Piece(s, repl, t, mflag, beg, len);
        if len == 0 && beg < |s| {
          num, t, mflag := (if mflag then num else num + 1), t + 1, false;
        } else {
          num, t, mflag := num + 1, beg + len, true;
        }
        pb := pb';
        o := CallAt(a, f.Kept(), s, t);
        found, beg, len := FindNext(f, s, t);
      }
    }
    r := Finish(s, pb, num, t, done, g, a, o, repl, mflag, written);
  }

  /** The rest of the text is copied unless its end was replaced, and the result is refused if it overran the buffer. */
  method Finish(s: Text, pb: seq<nat>, num: nat, t: nat, done: bool,
                ghost g: Tally, ghost a: Auto, ghost o: Found, ghost repl: seq<nat>, ghost after: bool,
                ghost written: seq<nat>)
    returns (r: Result<(Text, nat)>)
    requires t <= |s|
    requires if done then AtDone(g, pb, num, o.c.now)
             else !Inside(s, t, o) && Midway(g, Replacing(a, o, s, repl, t, after, |pb|), pb, written, num)
    ensures r == GsubResult(g) && (g.fits ==> o.c.now == g.now)
  {
    var q, cursor := pb, |pb|;
    if !done {
      q := pb + s[t..];
      cursor := |q| + 1;
      if |q| + 1 < RECSIZE { assert pb == written && g.out == q; }
    }
    if g.fits { assert g.out[..|g.out|] == g.out; }
    r := if cursor >= RECSIZE then TooBig else Done((q, num));
  }

  /** Replaces every match that the calls find. */
  method Gsub(f: Fa, s: Text, repl: seq<nat>) returns (r: Result<(Text, nat)>)
    requires f.Valid() && f.anchor && IsLine(s)
    modifies f`gototab, f`posns, f`out, f`curstat, f`initstat, f`reset
    modifies f.statics`setcnt, f.statics`marked, f.statics`limit, f.statics.setvec
    ensures f.Valid()
    ensures var g := GsubRun(f.auto, old(f.Kept()), s, repl);
            (if CallAt(f.auto, old(f.Kept()), s, 0).found then r == GsubResult(g) else r == Done((s, 0))) &&
            (r.Done? ==> f.Kept() == g.now)
    ensures MatchesOf(f.auto, s, AtLineStart(f.auto, old(f.Kept()))).n == |s|
    ensures var m := MatchesOf(f.auto, s, AtLineStart(f.auto, old(f.Kept())));
            var g := GsubRun(f.auto, old(f.Kept()), s, repl);
            !g.astray && !g.hatAgain ==> g.out == Output(m, s, 0, false, repl) && g.num == Count(m, 0, false)
  {
    hide Replacing, CallAt, AtRest, Fa.Compiled, MatchesOf, Output, Count, AtLineStart, Held;
    ghost var st := f.Kept();
    HeldAtRest(f.auto, st);
    MatchesSize(f.auto, s, AtLineStart(f.auto, st));
    if !GsubRun(f.auto, st, s, repl).astray && !GsubRun(f.auto, st, s, repl).hatAgain {
      GsubRight(f.auto, st, s, repl);
    }
    CallReady(f.auto, st, s, 0);
    var found, beg, len := FindNext(f, s, 0);
    if !found {
      return Done((s, 0));
    }
    ghost var o := CallAt(f.auto, st, s, 0);
    WithoutHatRests(f.auto, f.Kept());
    var tempstat := f.initstat;
    f.initstat := 2;
    r := ReplaceAll(f, s, repl, beg, len, WithoutHat(o));
    WithoutHatRests(f.auto, f.Kept());
    f.initstat := tempstat;
  }

  // ----- the replacement of the selected matches -----

  lemma {:induction false} LengthReached(m: Matches, i: nat, j: nat)
    requires i <= j <= m.n + 1 && LengthUpTo(m, i, j) >= 0
    ensures exists k :: i <= k <= j && m.at(i, k) && LenTo(m, i, k) == LengthUpTo(m, i, j)
    decreases j
  {
    if !m.at(i, j) {
      LengthReached(m, i, j - 1);
    }
  }

  /** A state that accepts at once does so wherever it is started. */
  lemma {:induction false} EmptyEverywhere(a: Auto, s: Text, bol: bool, t: nat, beg: nat)
    requires WellMade(a) && t <= beg <= |s| && MatchesOf(a, s, bol).at(beg, beg) && (beg == 0 ==> t == 0)
    ensures MatchesOf(a, s, bol).at(t, t)
  {
    var z := Terminated(s);
    if t < beg {
      assert z[beg..beg] == [] && z[t..t] == [];
      assert a.accept in a.starts - {0};
      assert a.starts <= Init(a);
      assert a.accept in FromAt(a, bol, t);
    }
  }

  lemma {:induction false} EmptyIsHere(a: Auto, s: Text, bol: bool, t: nat, beg: nat)
    requires WellMade(a) && t <= beg < |s|
    requires var m := MatchesOf(a, s, bol); NextStartOf(m, t) == beg && LengthAt(m, beg) == 0
    ensures beg == t
  {
    var m := MatchesOf(a, s, bol);
    LengthReached(m, beg, m.n + 1);
    EmptyEverywhere(a, s, bol, t, beg);
    assert StartsAt(m, t);
  }

  /** The match at the very end, seen as leaving nothing to write. */
  lemma {:induction false} EndRound(m: Matches, s: Text, t: nat, mflag: bool, repl: seq<nat>)
    requires t <= |s| == m.n && IsNext(m, t, true, |s|, 0) && !(mflag && t == |s|)
    ensures Output(m, s, t, mflag, repl) == s[t..|s|] + Expand(repl, s[|s|..|s|]) + Output(m, s, |s|, true, repl)
    ensures Count(m, t, mflag) == 1 + Count(m, |s|, true)
  {
    assert Selected(m, t, mflag) == Selected(m, t, false);
    EndStep(m, s, t, repl);
    LastStep(m, s, |s|, true, repl);
    assert s[|s|..|s|] == [] && s[|s|..] == [] && s[t..|s|] == s[t..];
  }

  /** A round for an empty match in front of a character does what the reference does. */
  lemma {:induction false} EmptyRight(a: Auto, s: Text, bol: bool, repl: seq<nat>, t: nat, after: bool, beg: nat)
    requires WellMade(a) && t <= beg < |s| && IsNext(MatchesOf(a, s, bol), t, true, beg, 0)
    ensures var m := MatchesOf(a, s, bol);
            && Output(m, s, t, after, repl) == Piece(s, repl, t, after, beg, 0) + Output(m, s, t + 1, false, repl)
            && Count(m, t, after) == Replaced(s, after, beg, 0) + Count(m, t + 1, false)
  {
    hide Output, Count, MatchesOf;
    var m := MatchesOf(a, s, bol);
    assert m.n == |s| by { MatchesSize(a, s, bol); }
    EmptyIsHere(a, s, bol, t, beg);
    EmptyStep(m, s, t, after, repl);
    var e, x, rest := if after then [] else Expand(repl, []), [s[t]], Output(m, s, t + 1, false, repl);
    assert e + (x + rest) == e + x + rest;
  }

  lemma {:induction false} MatchesSize(a: Auto, s: Text, bol: bool)
    ensures MatchesOf(a, s, bol).n == |s|
  {
  }

  /** A round for any other match does what the reference does. */
  lemma {:induction false} OtherRight(m: Matches, s: Text, repl: seq<nat>, t: nat, after: bool, beg: nat, len: nat)
    requires t <= beg && beg + len <= |s| == m.n && !IsEmptyRound(s, beg, len) && IsNext(m, t, true, beg, len)
    requires !(after && t == |s|)
    ensures Output(m, s, t, after, repl) == Piece(s, repl, t, after, beg, len) + Output(m, s, beg + len, true, repl)
    ensures Count(m, t, after) == Replaced(s, after, beg, len) + Count(m, beg + len, true)
    ensures beg + len == |s| ==> Output(m, s, |s|, true, repl) == [] && Count(m, |s|, true) == 0
  {
    hide Output, Count;
    if len > 0 {
      MatchStep(m, s, t, after, repl, beg, len);
    } else {
      EndRound(m, s, t, after, repl);
      assert s[beg..beg + len] == s[|s|..|s|];
    }
    LastStep(m, s, |s|, true, repl);
    assert s[|s|..] == [];
  }

  lemma {:induction false} AstrayStays(a: Auto, o: Found, s: Text, repl: seq<nat>, t: nat, after: bool, w: nat)
    requires t <= |s|
    ensures o.c.astray ==> Replacing(a, o, s, repl, t, after, w).astray
  {
    hide CallAt;
  }

  /** The rounds from `t` on, with `o` the next match there. */
  ghost predicate OnTrack(a: Auto, o: Found, s: Text, bol: bool, t: nat, after: bool) {
    && Held(a, o.c.now) && o.c.now.anchor && t <= |s| && !(after && t == |s|)
    && IsNext(MatchesOf(a, s, bol), t, o.found, t + o.beg, o.len) && (o.found ==> Inside(s, t, o))
  }

  /** The next call finds the next match. */
  lemma {:induction false} NextOnTrack(a: Auto, o: Found, s: Text, repl: seq<nat>, bol: bool, t: nat, after: bool,
                                       w: nat)
    requires IsLine(s) && OnTrack(a, o, s, bol, t, after) && o.found && !ReachesEnd(s, t + o.beg, o.len)
    requires !Replacing(a, o, s, repl, t, after, w).astray && !Replacing(a, o, s, repl, t, after, w).hatAgain
    ensures var t' := NextPlace(s, t, t + o.beg, o.len);
            var o' := CallAt(a, o.c.now, s, t');
            && t < t' <= |s| && OnTrack(a, o', s, bol, t', !IsEmptyRound(s, t + o.beg, o.len))
            && !Replacing(a, o', s, repl, t', !IsEmptyRound(s, t + o.beg, o.len),
                          Width(s, repl, t, after, t + o.beg, o.len, w)).astray
            && !Replacing(a, o', s, repl, t', !IsEmptyRound(s, t + o.beg, o.len),
                          Width(s, repl, t, after, t + o.beg, o.len, w)).hatAgain
  {
    hide CallAt, Piece, Width, Held, MatchesOf, IsNext;
    var beg, len := t + o.beg, o.len;
    var t' := NextPlace(s, t, beg, len);
    CallIsNext(a, o.c.now, s, bol, t');
    RestsHeld(a, o.c.now);
    CallReady(a, o.c.now, s, t');
    HeldAtRest(a, CallAt(a, o.c.now, s, t').c.now);
    AstrayStays(a, CallAt(a, o.c.now, s, t'), s, repl, t', !IsEmptyRound(s, beg, len),
                Width(s, repl, t, after, beg, len, w));
  }

  lemma {:induction false} RestsHeld(a: Auto, st: State)
    requires Held(a, st)
    ensures st in AtRest(a)
  {
  }

  /** Calls that are not led astray and do not take `^` again write what the reference has. */
  lemma {:induction false} ReplacingRight(a: Auto, o: Found, s: Text, repl: seq<nat>, bol: bool, t: nat, after: bool,
                                          w: nat)
    requires IsLine(s) && OnTrack(a, o, s, bol, t, after)
    requires !Replacing(a, o, s, repl, t, after, w).astray && !Replacing(a, o, s, repl, t, after, w).hatAgain
    ensures MatchesOf(a, s, bol).n == |s|
    ensures var g := Replacing(a, o, s, repl, t, after, w);
            g.out == Output(MatchesOf(a, s, bol), s, t, after, repl) && g.num == Count(MatchesOf(a, s, bol), t, after)
    decreases |s| - t
  {
    hide CallAt, Piece, Width, Held, Output, Count, MatchesOf, Replaced;
    var m := MatchesOf(a, s, bol);
    MatchesSize(a, s, bol);
    if !o.found {
      LastStep(m, s, t, after, repl);
    } else {
      var beg, len: nat := t + o.beg, o.len;
      var empty := IsEmptyRound(s, beg, len);
      if empty {
        HeldIsMade(a, o.c.now);
        EmptyRight(a, s, bol, repl, t, after, beg);
      } else {
        OtherRight(m, s, repl, t, after, beg, len);
      }
      if ReachesEnd(s, beg, len) {
        assert Piece(s, repl, t, after, beg, len) + [] == Piece(s, repl, t, after, beg, len);
        OneReplaced(s, after, beg, len);
      } else {
        NextOnTrack(a, o, s, repl, bol, t, after, w);
        var t' := NextPlace(s, t, beg, len);
        ReplacingRight(a, CallAt(a, o.c.now, s, t'), s, repl, bol, t', !empty, Width(s, repl, t, after, beg, len, w));
      }
    }
  }

  lemma {:induction false} OneReplaced(s: Text, after: bool, beg: nat, len: nat)
    requires !IsEmptyRound(s, beg, len)
    ensures Replaced(s, after, beg, len) == 1
  {
  }

  lemma {:induction false} HeldIsMade(a: Auto, st: State)
    requires Held(a, st)
    ensures WellMade(a)
  {
  }

  /**
   `gsub` writes the text with all selected matches replaced, and counts them, unless a call was led astray or took
   `^` again behind the start of the text.
   */
  lemma {:induction false} GsubRight(a: Auto, st: State, s: Text, repl: seq<nat>)
    requires Held(a, st) && st.anchor && IsLine(s)
    requires !GsubRun(a, st, s, repl).astray && !GsubRun(a, st, s, repl).hatAgain
    ensures MatchesOf(a, s, AtLineStart(a, st)).n == |s|
    ensures var m, g := MatchesOf(a, s, AtLineStart(a, st)), GsubRun(a, st, s, repl);
            g.out == Output(m, s, 0, false, repl) && g.num == Count(m, 0, false)
  {
    hide CallAt, Held, Output, Count, MatchesOf, Replacing, AtLineStart;
    var bol := AtLineStart(a, st);
    var o := CallAt(a, st, s, 0);
    MatchesSize(a, s, bol);
    RestsHeld(a, st);
    CallReady(a, st, s, 0);
    CallIsNext(a, st, s, bol, 0);
    if o.found {
      WithoutHatRests(a, o.c.now);
      HeldAtRest(a, WithoutHat(o).c.now);
      AstrayStays(a, WithoutHat(o), s, repl, 0, false, 0);
      ReplacingRight(a, WithoutHat(o), s, repl, bol, 0, false, 0);
    } else {
      LastStep(MatchesOf(a, s, bol), s, 0, false, repl);
      assert s[0..] == s;
    }
  }

  /** Where taking `^` makes no difference, no call takes it again. */
  lemma {:induction false} NoHatNoTrouble(a: Auto, st: State, s: Text, repl: seq<nat>)
    requires InitRow(a) == 2
    ensures !GsubRun(a, st, s, repl).hatAgain
  {
    hide CallAt, Replacing;
    if CallAt(a, st, s, 0).found { NoHatInRounds(a, WithoutHat(CallAt(a, st, s, 0)), s, repl, 0, false, 0); }
  }

  lemma {:induction false} NoHatInRounds(a: Auto, o: Found, s: Text, repl: seq<nat>, t: nat, after: bool, w: nat)
    requires InitRow(a) == 2 && t <= |s|
    ensures !Replacing(a, o, s, repl, t, after, w).hatAgain
    decreases |s| - t
  {
    hide CallAt, Piece, Width;
    if Inside(s, t, o) && !ReachesEnd(s, t + o.beg, o.len) {
      var beg, len: nat := t + o.beg, o.len;
      var t' := NextPlace(s, t, beg, len);
      NoHatInRounds(a, CallAt(a, o.c.now, s, t'), s, repl, t', !IsEmptyRound(s, beg, len),
                    Width(s, repl, t, after, beg, len, w));
    }
  }

  /** The number of characters read by calls at every place of a text of length `n`. */
  function CallsRead(n: nat): nat {
    CharsRead(n + 1) + if n == 0 then 0 else CallsRead(n - 1)
  }

  lemma {:induction false} CallsReadMore(m: nat, n: nat)
    requires m <= n
    ensures CallsRead(m) <= CallsRead(n)
    decreases n - m
  {
    if m < n { CallsReadMore(m, n - 1); }
  }

  /** The characters that calls behind `t` may read. */
  function LeftToRead(s: Text, t: nat): nat {
    if t < |s| then CallsRead(|s| - t - 1) else 0
  }

  lemma {:induction false} LessLeftToRead(s: Text, t: nat, t': nat)
    requires t < t' <= |s|
    ensures CharsRead(|s| - t' + 1) + LeftToRead(s, t') <= LeftToRead(s, t)
  {
    CallsReadMore(|s| - t', |s| - t - 1);
  }

  lemma {:induction false} ReplacingSafe(a: Auto, o: Found, s: Text, repl: seq<nat>, t: nat, after: bool, w: nat,
                                         family: set<set<nat>>)
    requires Held(a, o.c.now) && o.c.now.anchor && !o.c.now.reset && o.c.now.initstat == 2 && !o.c.astray && t <= |s|
    requires Roomy(a, o.c.now.table, LeftToRead(s, t), family)
    ensures var g := Replacing(a, o, s, repl, t, after, w); !g.astray && !g.hatAgain && !g.now.reset
    decreases |s| - t
  {
    hide CallAt, Piece, Width, Held, Few, Lives, LeftToRead;
    if Inside(s, t, o) && !ReachesEnd(s, t + o.beg, o.len) {
      var beg, len: nat := t + o.beg, o.len;
      var t' := NextPlace(s, t, beg, len);
      LessLeftToRead(s, t, t');
      CallSafe(a, o.c.now, s, t', LeftToRead(s, t'), family);
      ReplacingSafe(a, CallAt(a, o.c.now, s, t'), s, repl, t', !IsEmptyRound(s, beg, len),
                    Width(s, repl, t, after, beg, len, w), family);
    }
  }

  lemma {:induction false} CallSafe(a: Auto, st: State, s: Text, t: nat, n: nat, family: set<set<nat>>)
    requires Held(a, st) && st.anchor && !st.reset && t <= |s| && Roomy(a, st.table, CharsRead(|s| - t + 1) + n, family)
    ensures var o := CallAt(a, st, s, t);
            && !o.c.astray && !o.c.now.reset && o.c.now.initstat == st.initstat && Held(a, o.c.now) && o.c.now.anchor
            && Roomy(a, o.c.now.table, n, family)
  {
    hide Held, Few, Lives, PmatchCall;
    PmatchSafe(a, st, Terminated(s[t..]), 0, n, family);
  }

  /**
   With room in the table for one new state a character read, or for all states that the automaton has, `gsub` is not
   led astray and does not take `^` again.
   */
  lemma {:induction false} GsubSafe(a: Auto, st: State, s: Text, repl: seq<nat>, family: set<set<nat>>)
    requires Held(a, st) && st.anchor && !st.reset && Roomy(a, st.table, CallsRead(|s|), family)
    ensures var g := GsubRun(a, st, s, repl); !g.astray && !g.hatAgain && !g.now.reset && g.now.initstat == st.initstat
  {
    hide CallAt, Held, Replacing, Few, Lives;
    CallSafe(a, st, s, 0, LeftToRead(s, 0), family);
    var o := CallAt(a, st, s, 0);
    if o.found {
      RestsHeld(a, o.c.now);
      WithoutHatRests(a, o.c.now);
      HeldAtRest(a, WithoutHat(o).c.now);
      ReplacingSafe(a, WithoutHat(o), s, repl, 0, false, 0, family);
    }
  }

  // ----- when the result is refused -----

  lemma {:induction false} RoundsFit(a: Auto, o: Found, s: Text, repl: seq<nat>, t: nat, after: bool, w: nat)
    requires t <= |s| && w < RECSIZE
    ensures var g := Replacing(a, o, s, repl, t, after, w);
            && (w + |g.out| < RECSIZE - 1 ==> g.fits)
            && (g.atEnd && w + |g.out| < RECSIZE ==> g.fits)
            && (g.fits && !g.atEnd ==> w + |g.out| < RECSIZE - 1)
    decreases |s| - t
  {
    hide CallAt, Piece, Width;
    if Inside(s, t, o) {
      var beg, len: nat := t + o.beg, o.len;
      WidthExactly(s, repl, t, after, beg, len, w);
      if !ReachesEnd(s, beg, len) && Width(s, repl, t, after, beg, len, w) < RECSIZE {
        var t' := NextPlace(s, t, beg, len);
        RoundsFit(a, CallAt(a, o.c.now, s, t'), s, repl, t', !IsEmptyRound(s, beg, len),
                  Width(s, repl, t, after, beg, len, w));
      }
    }
  }

  /** The numbers of characters in the buffer after the rounds from `t` on. */
  ghost function Widths(a: Auto, o: Found, s: Text, repl: seq<nat>, t: nat, after: bool, w: nat): seq<nat>
    requires t <= |s|
    decreases |s| - t
  {
    if !Inside(s, t, o) then []
    else
      var beg, len := t + o.beg, o.len as nat;
      var w' := Width(s, repl, t, after, beg, len, w);
      [w'] + if ReachesEnd(s, beg, len) then [] else
             var t' := NextPlace(s, t, beg, len);
             Widths(a, CallAt(a, o.c.now, s, t'), s, repl, t', !IsEmptyRound(s, beg, len), w')
  }

  /** No round overruns the buffer, and the last one leaves it full. */
  predicate JustFull(ws: seq<nat>) {
    ws != [] && ws[|ws| - 1] == RECSIZE - 1 && forall i :: 0 <= i < |ws| - 1 ==> ws[i] < RECSIZE
  }

  lemma {:induction false} JustFullHead(w: nat, ws: seq<nat>)
    requires ws != []
    ensures JustFull([w] + ws) <==> w < RECSIZE && JustFull(ws)
  {
    var all := [w] + ws;
    if JustFull(all) {
      forall i | 0 <= i < |ws| - 1 ensures ws[i] < RECSIZE { assert all[i + 1] == ws[i]; }
      assert all[0] == w;
    }
  }

  /** When the end of the text is replaced, more than the buffer holds fits it if and only if it ends up just full. */
  lemma {:induction false} OverlongFits(a: Auto, o: Found, s: Text, repl: seq<nat>, t: nat, after: bool, w: nat)
    requires t <= |s| && w < RECSIZE
    ensures var g, ws := Replacing(a, o, s, repl, t, after, w), Widths(a, o, s, repl, t, after, w);
            g.atEnd ==> ws != [] && (w + |g.out| >= RECSIZE || w == RECSIZE - 1 ==> (g.fits <==> JustFull(ws)))
    decreases |s| - t
  {
    hide CallAt, Piece, Width;
    if Inside(s, t, o) {
      var beg, len: nat := t + o.beg, o.len;
      var w' := Width(s, repl, t, after, beg, len, w);
      WidthExactly(s, repl, t, after, beg, len, w);
      if !ReachesEnd(s, beg, len) && Replacing(a, o, s, repl, t, after, w).atEnd {
        var t' := NextPlace(s, t, beg, len);
        var o', after' := CallAt(a, o.c.now, s, t'), !IsEmptyRound(s, beg, len);
        AtEndHasRounds(a, o', s, repl, t', after', w');
        if w' < RECSIZE { OverlongFits(a, o', s, repl, t', after', w'); }
        JustFullHead(w', Widths(a, o', s, repl, t', after', w'));
      }
    }
  }

  lemma {:induction false} AtEndHasRounds(a: Auto, o: Found, s: Text, repl: seq<nat>, t: nat, after: bool, w: nat)
    requires t <= |s| && Replacing(a, o, s, repl, t, after, w).atEnd
    ensures Widths(a, o, s, repl, t, after, w) != []
  {
    hide CallAt, Piece, Width;
  }

  /**
   A result shorter than the buffer by two is accepted whole, and so is one shorter by one when the end of the text
   was replaced.  A longer one is refused, but when the end of the text was replaced and the rounds leave the buffer
   just full it is cut.
   */
  lemma {:induction false} FitsExactly(a: Auto, st: State, s: Text, repl: seq<nat>)
    requires CallAt(a, st, s, 0).found
    ensures var g, ws := GsubRun(a, st, s, repl), Widths(a, WithoutHat(CallAt(a, st, s, 0)), s, repl, 0, false, 0);
            GsubResult(g) ==
            if |g.out| < RECSIZE - 1 || (|g.out| == RECSIZE - 1 && g.atEnd) then Done((g.out, g.num))
            else if |g.out| >= RECSIZE && g.atEnd && JustFull(ws) then Done((g.out[..RECSIZE - 1], g.num))
            else TooBig
  {
    hide CallAt, Replacing, Widths;
    var g := GsubRun(a, st, s, repl);
    RoundsFit(a, WithoutHat(CallAt(a, st, s, 0)), s, repl, 0, false, 0);
    OverlongFits(a, WithoutHat(CallAt(a, st, s, 0)), s, repl, 0, false, 0);
    assert g.out[..|g.out|] == g.out;
  }

  /** The longest replacement that `gsub` and `sub` take for a plain one: nothing in it refers to the match. */
  predicate Plain(repl: seq<nat>) {
    AMPERSAND !in repl
  }

  lemma {:induction false} PlainCopied(len: nat, repl: seq<nat>, matched: Text)
    requires Plain(repl)
    ensures Expand(repl, matched) == repl && Copied(len, repl, |matched|) == CopiedPlain(len, |repl|)
    decreases |repl|
  {
    if repl != [] {
      assert repl[0] in repl && forall x :: x in repl[1..] ==> x in repl;
      if |repl| >= 2 { assert repl[1] in repl; }
      PlainCopied(len, repl[1..], matched);
      PlainCopied(len + 1, repl[1..], matched);
    }
  }

  /**
   The length of what is written from `t` on up to the last empty match in front of a character, with that character;
   0 if there is no such match.
   */
  ghost function UpToLastEmpty(a: Auto, o: Found, s: Text, repl: seq<nat>, t: nat, after: bool): nat
    requires t <= |s|
    decreases |s| - t
  {
    if !Inside(s, t, o) || ReachesEnd(s, t + o.beg, o.len) then 0
    else
      var beg, len := t + o.beg, o.len as nat;
      var t' := NextPlace(s, t, beg, len);
      var rest := UpToLastEmpty(a, CallAt(a, o.c.now, s, t'), s, repl, t', !IsEmptyRound(s, beg, len));
      if rest > 0 || IsEmptyRound(s, beg, len) then |Piece(s, repl, t, after, beg, len)| + rest else 0
  }

  /** With a plain replacement only an empty match in front of a character can overrun the buffer. */
  lemma {:induction false} PlainWidth(s: Text, repl: seq<nat>, t: nat, after: bool, beg: nat, len: nat, w: nat)
    requires Plain(repl) && t <= beg && beg + len <= |s| && w < RECSIZE
    ensures var n, w' := |Piece(s, repl, t, after, beg, len)|, Width(s, repl, t, after, beg, len, w);
            w' == if w + n < RECSIZE then w + n else if IsEmptyRound(s, beg, len) then RECSIZE else RECSIZE - 1
    ensures IsEmptyRound(s, beg, len) ==> Piece(s, repl, t, after, beg, len) != []
  {
    if IsEmptyRound(s, beg, len) {
      PlainCopied(w, repl, []);
    } else {
      PlainCopied(CopiedPlain(w, beg - t), repl, s[beg..beg + len]);
    }
  }

  lemma {:induction false} PlainFits(a: Auto, o: Found, s: Text, repl: seq<nat>, t: nat, after: bool, w: nat)
    requires Plain(repl) && t <= |s| && w < RECSIZE
    ensures var g := Replacing(a, o, s, repl, t, after, w);
            g.atEnd ==> (g.fits <==> w + UpToLastEmpty(a, o, s, repl, t, after) < RECSIZE)
    decreases |s| - t
  {
    hide CallAt, Piece, Width;
    if Inside(s, t, o) {
      var beg, len: nat := t + o.beg, o.len;
      var w' := Width(s, repl, t, after, beg, len, w);
      PlainWidth(s, repl, t, after, beg, len, w);
      if !ReachesEnd(s, beg, len) && w' < RECSIZE {
        var t' := NextPlace(s, t, beg, len);
        PlainFits(a, CallAt(a, o.c.now, s, t'), s, repl, t', !IsEmptyRound(s, beg, len), w');
      }
    }
  }

  /**
   With a plain replacement a result that is too long is cut if and only if the end of the text was replaced and what
   is written up to the last empty match in front of a character fits; otherwise it is refused.
   */
  lemma {:induction false} PlainIsCutExactly(a: Auto, st: State, s: Text, repl: seq<nat>)
    requires CallAt(a, st, s, 0).found && Plain(repl) && |GsubRun(a, st, s, repl).out| >= RECSIZE
    ensures var g := GsubRun(a, st, s, repl);
            GsubResult(g) ==
            if g.atEnd && UpToLastEmpty(a, WithoutHat(CallAt(a, st, s, 0)), s, repl, 0, false) < RECSIZE
            then Done((g.out[..RECSIZE - 1], g.num)) else TooBig
  {
    hide CallAt, Replacing, UpToLastEmpty;
    RoundsFit(a, WithoutHat(CallAt(a, st, s, 0)), s, repl, 0, false, 0);
    PlainFits(a, WithoutHat(CallAt(a, st, s, 0)), s, repl, 0, false, 0);
  }

  /** When the first match is the whole text, a plain replacement that does not fit the buffer is cut without a word. */
  lemma {:induction false} LongReplacementIsCut(a: Auto, st: State, s: Text, repl: seq<nat>)
    requires var o := CallAt(a, st, s, 0); o.found && o.beg == 0 && o.len == |s| > 0
    requires Plain(repl) && |repl| >= RECSIZE
    ensures GsubResult(GsubRun(a, st, s, repl)) == Done((repl[..RECSIZE - 1], 1))
  {
    hide CallAt, Replacing;
    WholeRound(a, WithoutHat(CallAt(a, st, s, 0)), s, repl);
  }

  /** A replacement of the whole text is the only one. */
  lemma {:induction false} WholeRound(a: Auto, o: Found, s: Text, repl: seq<nat>)
    requires o.found && o.beg == 0 && o.len == |s| > 0 && Plain(repl)
    ensures Replacing(a, o, s, repl, 0, false, 0) == Tally(repl, 1, o.c.now, o.c.astray, false, true, true)
  {
    hide CallAt;
    PlainCopied(0, repl, s);
    assert s[0..|s|] == s && s[0..0] == [];
    assert Piece(s, repl, 0, false, 0, |s|) == repl;
  }

  /** The matches of the automaton that `mkdfa` makes of `re` are the matches of `re`. */
  lemma {:induction false} MatchesMeaning(re: Tree, s: Text, bol: bool, i: nat, j: nat)
    requires NoFinal(re)
    ensures MatchesOf(AutoOf(re), s, bol).at(i, j) <==> i <= j <= |s| + 1 && MatchAt(re, s, bol, i, j)
  {
    if i <= j <= |s| + 1 {
      HitsIsMatch(re, s, bol, i, j);
    }
  }
}
