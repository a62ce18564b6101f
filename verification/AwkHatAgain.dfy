/**
 A run of `gsub` (cmd/awk/run.c) that takes `^` in the middle of the text: the call that finds the first match
 recycles the table, so that the next call makes it anew and starts from the state that has taken `^`.
 */
module AwkHatAgain {
  import opened AwkLanguage
  import opened AwkPositions
  import opened AwkPattern
  import opened AwkMeaning
  import opened AwkCompile
  import opened AwkCache
  import opened AwkRun
  import opened AwkAutomaton
  import opened AwkMatch
  import opened AwkReplacement
  import opened AwkSubstitute
  import opened AwkRecycle

  /** `n + 1` letters `a` and a `b`. */
  function AsThenB(n: nat): Text {
    As(n + 1) + [B]
  }

  lemma {:induction false} AcceptStops(n: nat, q: nat)
    requires n >= 29
    ensures q !in HatB(n).succ({n + 4}, B)
  {
    hide AutoOf;
    EitherSucc(HAT, B, n, {n + 4}, B, q);
  }

  /** The run over thirty letters `a` and a `b`. */
  lemma {:induction false} ClimbToTheEnd(n: nat, c: Config, q: nat)
    requires n == 29 && Climbing(n, c, 0) && q <= 31
    ensures var z := Terminated(AsThenB(n)); |z| == 32
    ensures var c' := Along(HatB(n), c, Terminated(AsThenB(n))[0..q]);
            && !c'.spoiled && (Accepts(c') <==> q == 30) && (q >= 1 ==> (c'.s == 1 <==> q == 31))
            && (q == 31 ==> c'.now.reset)
  {
    hide Turn, Climbing, HatB;
    var a, z := HatB(n), Terminated(AsThenB(n));
    if q <= 28 {
      ClimbRun(n, c, q);
      assert z[0..q] == As(q);
      ClimberRejects(n, Along(a, c, As(q)), q);
    } else {
      ClimbRun(n, c, 28);
      var top := Along(a, c, As(28));
      TopStep(n, top);
      assert z[0..28] == As(28) && z[28] == A && z[29] == A && z[30] == B;
      AlongNext(a, c, z, 0, 28);
      AlongNext(a, c, z, 0, 29);
      AlongNext(a, c, z, 0, 30);
      TopRejects(n, Turn(a, top, A));
      OverTheTop(n, Turn(a, top, A));
    }
  }

  /** The last letter leads to the accepting state, and `b` from there to the empty one. */
  lemma {:induction false} OverTheTop(n: nat, c: Config)
    requires n == 29 && Ready(HatB(n), c) && c.now.reset && !c.spoiled && c.s == 2 == c.now.table.curstat
    requires Holding(c) == AnchoredAfter(n)
    ensures var c' := Turn(HatB(n), c, A); var c'' := Turn(HatB(n), c', B);
            && Accepts(c') && c'.s != 1 && !c'.spoiled && !Accepts(c'') && c''.s == 1 && !c''.spoiled && c''.now.reset
  {
    hide Turn, HatB, Started, Exact;
    var a := HatB(n);
    HatBMade(n);
    HatBNext(n, n);
    NotMisled(a, c, A);
    assert n + 4 in AnchoredAfter(n + 1) && n + 4 !in AnchoredAfter(n);
    FreshStep(a, c, A);
    TurnReady(a, c, A);
    var c' := Turn(a, c, A);
    NotMisled(a, c', B);
    var last := Holding(c');
    assert last == {n + 4};
    forall q: nat ensures q !in a.succ(last, B) { AcceptStops(n, q); }
    assert a.succ(last, B) == {};
    DeadStep(a, c', B);
  }

  lemma {:induction false} StopsThere(a: Auto, c: Config, z: seq<nat>, q: nat, stop: nat)
    requires q <= stop < |z| && stop > 0 && Along(a, c, z[0..stop]).s == 1
    requires forall j :: q <= j < stop && 0 < j ==> Along(a, c, z[0..j]).s != 1
    ensures ScanStop(a, c, z, 0, q) == stop
    decreases stop - q
  {
    hide Along;
    if q < stop { StopsThere(a, c, z, q + 1, stop); }
  }

  /** The first call finds the letters and leaves a recycled table. */
  lemma {:induction false} FindsLetters(n: nat, st: State)
    requires n == 29 && Fresh(HatB(n), true, st)
    ensures var o := CallAt(HatB(n), st, AsThenB(n), 0);
            o.found && o.beg == 0 && o.len == 30 && o.c.now.reset && !o.c.astray && Held(HatB(n), o.c.now)
              && o.c.now.anchor
  {
    hide Turn, HatB, Climbing, Begin, WellMade, Usable, Started, Exact, Initial, Along;
    var a, c, s, z := HatB(n), Begin(HatB(n), st), AsThenB(n), Terminated(AsThenB(n));
    assert s[0..] == s && |z| == 32;
    BeginReady(a, st);
    FreshClimbs(n, st);
    forall q: nat | q <= 31
      ensures var c' := Along(HatB(n), c, z[0..q]);
              !c'.spoiled && (Accepts(c') <==> q == 30) && (q >= 1 ==> (c'.s == 1 <==> q == 31))
                && (q == 31 ==> c'.now.reset)
    {
      ClimbToTheEnd(n, c, q);
    }
    StopsThere(a, c, z, 0, 31);
    assert LastHit(a, c, z, 0, 31) == LastHit(a, c, z, 0, 30) == 30;
    SearchReady(a, c, z, 0, 0);
  }

  /** From a recycled table a call on `b` takes `^` and finds it. */
  lemma {:induction false} FindsB(n: nat, st: State)
    requires Held(HatB(n), st) && st.anchor && st.reset
    ensures var o := PmatchCall(HatB(n), st, Terminated([B]), 0);
            o.found && o.beg == 0 && o.len == 1 && !o.c.astray
  {
    hide Turn, Search, Usable, Started, Exact, WellMade, AutoOf;
    var a, re, z := HatB(n), Either(HAT, B, n), Terminated([B]);
    BeginReady(a, st);
    RemadeIsInitial(a, true, st.table);
    HatBInit(n);
    EitherTree(HAT, B, n);
    assert CharsRead(2) == 3;
    SearchRoom(a, Begin(a, st), z, 0, 0);
    SearchReady(a, Begin(a, st), z, 0, 0);
    PmatchAnswers(re, st, [B], 0);
    HatThenB(n);
    OneLong(n);
  }

  lemma {:induction false} OneLong(n: nat)
    ensures forall len :: LongestMatch(Either(HAT, B, n), [B], true, 0, len) ==> len == 1
  {
    var re := Either(HAT, B, n);
    HatThenB(n);
    HatBMatches(n);
  }

  lemma {:induction false} HatBMatches(n: nat)
    ensures MatchAt(Either(HAT, B, n), [B], true, 0, 1)
  {
    var re, hat, b := Either(HAT, B, n), Leaf(Char(HAT), 0), Leaf(Char(B), 0);
    var u := Syms(Terminated([B])[..1]);
    assert u == [Sym(B)];
    assert Lang(hat, [Sym(HAT)]) && Lang(b, [Sym(B)]);
    CatIntro(hat, b, [Sym(HAT)], [Sym(B)]);
    assert Lang(re, [Sym(HAT)] + u);
  }

  /** Behind the letters nothing matches. */
  lemma {:induction false} NothingBehind(n: nat, i: nat)
    requires n + 1 <= i <= n + 2
    ensures !StartsAt(MatchesOf(HatB(n), AsThenB(n), true), i)
  {
    var re, s, m := Either(HAT, B, n), AsThenB(n), MatchesOf(HatB(n), AsThenB(n), true);
    EitherTree(HAT, B, n);
    forall j: nat | i <= j <= m.n + 1 ensures !m.at(i, j) {
      MatchesMeaning(re, s, true, i, j);
      var w := Syms(Terminated(s)[i..j]);
      if Lang(re, w) {
        HatBWords(n, w);
        assert false;
      }
    }
  }

  lemma {:induction false} OneSelected(n: nat, m: Matches)
    requires m.n == n + 2 && NextStartOf(m, 0) == 0 && LengthAt(m, 0) == n + 1 && !StartsAt(m, n + 1)
             && !StartsAt(m, n + 2)
    ensures Count(m, 0, false) == 1
  {
    NextStartIsLeast(m, n + 1, n + 3);
    assert Selected(m, n + 1, true) == [];
    assert Selected(m, 0, false) == [Stretch(0, n + 1)] + Selected(m, n + 1, true);
  }

  lemma {:induction false} TwoRounds(a: Auto, o: Found, s: Text, repl: seq<nat>)
    requires |s| == 31 && o.found && o.beg == 0 && o.len == 30 && !o.c.astray && TakesHat(a, o.c.now)
    requires var o' := CallAt(a, o.c.now, s, 30); o'.found && o'.beg == 0 && o'.len == 1 && !o'.c.astray
    ensures var g := Replacing(a, o, s, repl, 0, false, 0); g.num == 2 && g.hatAgain && !g.astray
  {
    hide CallAt, Piece, Width, TakesHat;
    var o', w := CallAt(a, o.c.now, s, 30), Width(s, repl, 0, false, 0, 30, 0);
    var rest := Replacing(a, o', s, repl, 30, true, w);
    assert Inside(s, 30, o') && ReachesEnd(s, 30, 1);
    assert rest.num == 1 && !rest.astray;
    assert Inside(s, 0, o) && !ReachesEnd(s, 0, 30) && NextPlace(s, 0, 0, 30) == 30;
  }

  /**
   From the table that `mkdfa` makes of `^b|aaa...a`, with thirty letters `a`, `gsub` on thirty letters `a` and a `b`
   makes two replacements, although only the letters are a selected match.
   */
  lemma {:induction false} HatIsTakenAgain(n: nat, st: State, repl: seq<nat>)
    requires n == 29 && Fresh(AutoOf(Either(HAT, B, n)), true, st)
    ensures var a := AutoOf(Either(HAT, B, n)); var g := GsubRun(a, st, AsThenB(n), repl);
            && g.hatAgain && !g.astray && g.num == 2 && AtLineStart(a, st)
            && Count(MatchesOf(a, AsThenB(n), true), 0, false) == 1
  {
    hide AutoOf, PmatchCall, Held, Initial, Piece, Width, Count, MatchesOf, WellMade;
    var a, s := HatB(n), AsThenB(n);
    var o := CallAt(a, st, s, 0);
    FindsLetters(n, st);
    RestsHeld(a, o.c.now);
    WithoutHatRests(a, o.c.now);
    var st1 := WithoutHat(o).c.now;
    HeldAtRest(a, st1);
    FindsB(n, st1);
    assert s[30..] == [B];
    assert CallAt(a, st1, s, 30) == PmatchCall(a, st1, Terminated([B]), 0);
    HatBInit(n);
    TwoRounds(a, WithoutHat(o), s, repl);
    CallIsNext(a, st, s, true, 0);
    MatchesSize(a, s, true);
    NothingBehind(n, n + 1);
    NothingBehind(n, n + 2);
    OneSelected(n, MatchesOf(a, s, true));
  }
}
