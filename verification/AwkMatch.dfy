/**
 The matchers (cmd/awk/b.c: match, pmatch, nematch), first as runs through the table and then as matches of the
 expression.
 */
module AwkMatch {
  import opened AwkLanguage
  import opened AwkPositions
  import opened AwkPattern
  import opened AwkMeaning
  import opened AwkCompile
  import opened AwkCache
  import opened AwkRun
  import opened AwkAutomaton

  /** One transition: the table's entry if there is one, else `cgoto`. */
  method Next(f: Fa, s: nat, x: nat, ghost c: Config) returns (ns: nat)
    requires f.Compiled() && c in Running(f.auto) && c.now == f.Kept() && c.s == s && x < HATCOL
    modifies f`gototab, f`posns, f`out, f`curstat, f`reset
    modifies f.statics`setcnt, f.statics`marked, f.statics`limit, f.statics.setvec
    ensures f.Kept() == Turn(f.auto, c, x).now && ns == Turn(f.auto, c, x).s
  {
    ns := f.gototab[s][x];
    if ns == 0 {
      ns := f.Cgoto(s, x);
    }
  }

  /** Does row `s` accept? */
  method Final(f: Fa, s: nat, ghost c: Config) returns (b: bool)
    requires c in Running(f.auto) && c.now == f.Kept() && c.s == s
    ensures b == Accepts(c)
  {
    b := f.out[s];
  }

  /** Where a call starts: at the initial state, which is made anew if the table was recycled. */
  method Enter(f: Fa) returns (s: nat)
    requires f.Valid()
    modifies f`gototab, f`posns, f`out, f`curstat, f`reset
    modifies f.statics`setcnt, f.statics`marked, f.statics`limit, f.statics.setvec
    ensures f.Kept() == Begin(f.auto, old(f.Kept())).now && s == Begin(f.auto, old(f.Kept())).s
  {
    s := f.initstat;
    if f.reset {
      s := f.Makeinit();
    }
  }

  /** Does the searching automaton accept somewhere in the text? */
  method Match(f: Fa, p: Text) returns (r: bool)
    requires f.Valid() && !f.anchor && IsLine(p)
    modifies f`gototab, f`posns, f`out, f`curstat, f`reset
    modifies f.statics`setcnt, f.statics`marked, f.statics`limit, f.statics.setvec
    ensures f.Valid()
    ensures var end := MatchCall(f.auto, old(f.Kept()), Terminated(p)); f.Kept() == end.now && r == Accepts(end)
  {
    hide Turn, Begin;
    ghost var a, start := f.auto, Begin(f.auto, f.Kept());
    BeginRuns(a, f.Kept());
    var z := Terminated(p);
    var s := Enter(f);
    ghost var here := start;
    assert z[..0] == [] && z[0..0] == [];
    r := Final(f, s, here);
    var q := 0;
    while !r && q < |z|
      invariant 0 <= q <= |z| && here == Along(a, start, z[0..q]) && here in Running(a)
      invariant f.Kept() == here.now && s == here.s && r == Accepts(here) && z[0..q] == z[..q]
      invariant MatchStop(a, start, z, 0) == MatchStop(a, start, z, q)
    {
      s := Next(f, s, z[q], here);
      TurnRuns(a, start, z, 0, q);
      assert z[0..q + 1] == z[..q + 1];
      here := Along(a, start, z[0..q + 1]);
      q := q + 1;
      r := Final(f, s, here);
    }
    RunsAtRest(a, here);
  }

  /** The length kept by the inner loop when it comes to `q`, entered with `len0`. */
  ghost function LenBefore(a: Auto, c: Config, z: seq<nat>, i: nat, q: nat, len0: int): int
    requires i <= q <= |z|
  {
    if q == i || LastHit(a, c, z, i, q - 1) < 0 then len0 else LastHit(a, c, z, i, q - 1)
  }

  lemma {:induction false} LenNext(a: Auto, c: Config, z: seq<nat>, i: nat, q: nat, len0: int)
    requires i <= q <= |z| && i < |z|
    ensures (if Accepts(Along(a, c, z[i..q])) then TextLen(z, i, q) else LenBefore(a, c, z, i, q, len0)) ==
            (if LastHit(a, c, z, i, q) < 0 then len0 else LastHit(a, c, z, i, q))
  {
    LastHitBound(a, c, z, i, q);
  }

  lemma {:induction false} StopStep(a: Auto, c: Config, z: seq<nat>, i: nat, q: nat)
    requires i <= q <= |z|
    ensures ScanStop(a, c, z, i, q) ==
            if q == |z| || (q > i && Along(a, c, z[i..q]).s == 1) then q else ScanStop(a, c, z, i, q + 1)
  {
  }

  lemma {:induction false} RowOneRejects(a: Auto, c: Config)
    requires c in Running(a) && c.s == 1
    ensures !Accepts(c)
  {
  }

  /** The run of a scan from `i` is at `q`, in row `s` of the table. */
  ghost predicate Scanning(f: Fa, c: Config, z: seq<nat>, i: nat, q: nat, s: nat)
    requires i <= q <= |z|
    reads f
  {
    var here := Along(f.auto, c, z[i..q]);
    here in Running(f.auto) && here.now == f.Kept() && here.s == s
  }

  /** One round of the inner loop of `pmatch` and `nematch`. */
  method ScanOne(f: Fa, s: nat, z: seq<nat>, i: nat, q: nat, patlen: int, ghost len0: int, ghost c: Config)
    returns (ns: nat, len: int)
    requires f.Compiled() && c in Running(f.auto) && IsInput(z) && i <= q < |z| && Scanning(f, c, z, i, q, s)
    requires patlen == LenBefore(f.auto, c, z, i, q, len0)
    modifies f`gototab, f`posns, f`out, f`curstat, f`reset
    modifies f.statics`setcnt, f.statics`marked, f.statics`limit, f.statics.setvec
    ensures Scanning(f, c, z, i, q + 1, ns) && len == LenBefore(f.auto, c, z, i, q + 1, len0)
    ensures ns == 1 ==> LastHit(f.auto, c, z, i, q + 1) == LastHit(f.auto, c, z, i, q)
  {
    ghost var here := Along(f.auto, c, z[i..q]);
    LenNext(f.auto, c, z, i, q, len0);
    var final := Final(f, s, here);
    len := if final then q - i else patlen;
    ns := Next(f, s, z[q], here);
    TurnRuns(f.auto, c, z, i, q);
    if ns == 1 { RowOneRejects(f.auto, Along(f.auto, c, z[i..q + 1])); }
  }

  /** The inner loop; without an accepting row on the way the length is left as it was. */
  method ScanFrom(f: Fa, s0: nat, z: seq<nat>, i: nat, patlen0: int, ghost c: Config) returns (patlen: int)
    requires f.Compiled() && c in Running(f.auto) && c.now == f.Kept() && c.s == s0 && i < |z| && IsInput(z)
    modifies f`gototab, f`posns, f`out, f`curstat, f`reset
    modifies f.statics`setcnt, f.statics`marked, f.statics`limit, f.statics.setvec
    ensures f.Kept() == ScanEnd(f.auto, c, z, i).now
    ensures patlen == if ScanLen(f.auto, c, z, i) < 0 then patlen0 else ScanLen(f.auto, c, z, i)
  {
    hide Turn, LastHit, ScanStop;
    ghost var a, stop := f.auto, ScanStop(f.auto, c, z, i, i);
    var s, q := s0, i;
    patlen := patlen0;
    assert z[i..i] == [];
    while q < |z|
      invariant i <= q <= |z| && Scanning(f, c, z, i, q, s) && (q > i ==> s != 1)
      invariant patlen == LenBefore(a, c, z, i, q, patlen0)
      invariant stop == ScanStop(a, c, z, i, q)
    {
      StopStep(a, c, z, i, q);
      s, patlen := ScanOne(f, s, z, i, q, patlen, patlen0, c);
      q := q + 1;
      if s == 1 {
        StopStep(a, c, z, i, q);
        return;
      }
    }
    StopStep(a, c, z, i, q);
    LenNext(a, c, z, i, q, patlen0);
    var final := Final(f, s, Along(a, c, z[i..q]));
    if final {
      patlen := q - i - 1;
    }
  }

  /** Both go on at row 2; a recycled table is first reduced to the saved start state. */
  method GoOn(f: Fa, ghost c: Config)
    requires f.Compiled() && c in Running(f.auto) && c.now == f.Kept() && f.anchor
    modifies f`gototab, f`posns, f`out, f`curstat, f`initstat
    ensures f.Kept() == NextStart(c).now
  {
    if f.reset {
      f.posns := f.posns[2 := f.posns[0]];
      f.initstat := 2;
      f.curstat := 2;
      f.out := f.out[2 := f.out[0]];
      f.gototab := f.gototab[2 := ZeroRow()];
    }
  }

  /** One round of the outer loop: the automaton scans from `i`, and after a failure stands ready at the next start. */
  method TryStart(f: Fa, s: nat, z: seq<nat>, i: nat, patlen0: int, least: nat, ghost c: Config) returns (patlen: int)
    requires f.Compiled() && c in Running(f.auto) && c.now == f.Kept() && c.s == s && i < |z| && IsInput(z)
    requires f.anchor && patlen0 < least
    modifies f`gototab, f`posns, f`out, f`curstat, f`initstat, f`reset
    modifies f.statics`setcnt, f.statics`marked, f.statics`limit, f.statics.setvec
    ensures patlen >= least <==> ScanLen(f.auto, c, z, i) >= least
    ensures patlen >= least ==> patlen == ScanLen(f.auto, c, z, i) < |z| - i && f.Kept() == ScanEnd(f.auto, c, z, i).now
    ensures patlen < least ==> f.Kept() == NextStart(ScanEnd(f.auto, c, z, i)).now
  {
    ScanRuns(f.auto, c, z, i);
    LastHitBound(f.auto, c, z, i, ScanStop(f.auto, c, z, i, i));
    patlen := ScanFrom(f, s, z, i, patlen0, c);
    if patlen < least {
      GoOn(f, ScanEnd(f.auto, c, z, i));
    }
  }

  /** Finds the leftmost longest match; `^` may match at the start of the text if the call finds it so. */
  method Pmatch(f: Fa, p: Text) returns (r: bool, patbeg: nat, patlen: int)
    requires f.Valid() && f.anchor && IsLine(p)
    modifies f`gototab, f`posns, f`out, f`curstat, f`initstat, f`reset
    modifies f.statics`setcnt, f.statics`marked, f.statics`limit, f.statics.setvec
    ensures f.Valid() && (r ==> patlen >= 0 && patbeg + patlen <= |p|)
    ensures var o := PmatchCall(f.auto, old(f.Kept()), Terminated(p), 0);
            f.Kept() == o.c.now && r == o.found && (r ==> patbeg == o.beg && patlen == o.len)
  {
    hide Turn, ScanLen, ScanEnd, Begin, Running, AtRest, NextStart;
    ghost var a, c := f.auto, Begin(f.auto, f.Kept());
    BeginRuns(a, f.Kept());
    var z := Terminated(p);
    var s := Enter(f);
    patlen := -1;
    var i := 0;
    while i < |z|
      invariant 0 <= i <= |z| && c in Running(a) && c.now == f.Kept() && c.s == s && patlen < 0
      invariant PmatchCall(a, old(f.Kept()), z, 0) == Search(a, c, z, i, 0)
    {
      ScanRuns(a, c, z, i);
      patlen := TryStart(f, s, z, i, patlen, 0, c);
      if patlen >= 0 {
        RunsAtRest(a, ScanEnd(a, c, z, i));
        return true, i, patlen;
      }
      c := NextStart(ScanEnd(a, c, z, i));
      s := 2;
      i := i + 1;
    }
    RunsAtRest(a, c);
    return false, 0, patlen;
  }

  /** The same for matches that are not empty. */
  method Nematch(f: Fa, p: Text) returns (r: bool, patbeg: nat, patlen: int)
    requires f.Valid() && f.anchor && IsLine(p)
    modifies f`gototab, f`posns, f`out, f`curstat, f`initstat, f`reset
    modifies f.statics`setcnt, f.statics`marked, f.statics`limit, f.statics.setvec
    ensures f.Valid() && (r ==> patlen > 0 && patbeg + patlen <= |p|)
    ensures var o := PmatchCall(f.auto, old(f.Kept()), Terminated(p), 1);
            f.Kept() == o.c.now && r == o.found && (r ==> patbeg == o.beg && patlen == o.len)
  {
    hide Turn, ScanLen, ScanEnd, Begin, Running, AtRest, NextStart;
    ghost var a, c := f.auto, Begin(f.auto, f.Kept());
    BeginRuns(a, f.Kept());
    var z := Terminated(p);
    var s := Enter(f);
    patlen := -1;
    var i := 0;
    while z[i] != 0
      invariant 0 <= i < |z| && c in Running(a) && c.now == f.Kept() && c.s == s && patlen <= 0
      invariant PmatchCall(a, old(f.Kept()), z, 1) == Search(a, c, z, i, 1)
      decreases |z| - i
    {
      ScanRuns(a, c, z, i);
      patlen := TryStart(f, s, z, i, patlen, 1, c);
      if patlen > 0 {
        RunsAtRest(a, ScanEnd(a, c, z, i));
        return true, i, patlen;
      }
      c := NextStart(ScanEnd(a, c, z, i));
      s := 2;
      i := i + 1;
    }
    RunsAtRest(a, c);
    return false, 0, patlen;
  }

  // ----- the automaton of an expression -----

  /** Reading text columns in the automaton of `re` is reading text symbols in its tree. */
  lemma {:induction false} ReachRuns(re: Tree, s: set<nat>, w: seq<nat>)
    requires s <= Positions(Root(re))
    ensures Reach(AutoOf(re), s, w) == Run(Root(re), s, Syms(w))
    decreases |w|
  {
    if w != [] {
      var u, x := w[..|w| - 1], w[|w| - 1];
      ReachRuns(re, s, u);
      assert Syms(w) == Syms(u) + [Sym(x)];
      RunAppend(Root(re), s, Syms(u), Sym(x));
    }
  }

  lemma {:induction false} FromSets(re: Tree, bol: bool)
    requires NoFinal(re)
    ensures From(AutoOf(re), bol) == AnchoredFrom(re, bol)
  {
    AutoInit(re);
  }

  /** What the anchored automaton accepts is what the expression matches. */
  lemma {:induction false} HitsIsMatch(re: Tree, s: Text, bol: bool, i: nat, j: nat)
    requires NoFinal(re) && i <= j <= |s| + 1
    ensures Hits(AutoOf(re), FromAt(AutoOf(re), bol, i), Terminated(s), i, j) <==> MatchAt(re, s, bol, i, j)
  {
    FromSets(re, bol && i == 0);
    ReachRuns(re, AnchoredFrom(re, bol && i == 0), Terminated(s)[i..j]);
    AnchoredAccept(re, s, bol, i, j);
  }

  /** The length a match from `i` to `j` has for awk: the terminating 0 taken by `$` is not counted. */
  function MatchLen(s: Text, i: nat, j: nat): int {
    (if j <= |s| then j else |s|) - i
  }

  /** A match of length `least` or more starts at `i`. */
  ghost predicate LongFrom(re: Tree, s: Text, bol: bool, least: nat, i: nat)
    requires i <= |s|
  {
    exists j :: i <= j <= |s| + 1 && MatchAt(re, s, bol, i, j) && MatchLen(s, i, j) >= least
  }

  ghost predicate LongestMatch(re: Tree, s: Text, bol: bool, i: nat, len: int)
    requires i <= |s|
  {
    && (exists j :: i <= j <= |s| + 1 && MatchAt(re, s, bol, i, j) && len == MatchLen(s, i, j))
    && (forall j :: i <= j <= |s| + 1 && MatchAt(re, s, bol, i, j) ==> MatchLen(s, i, j) <= len)
  }

  /** The leftmost longest match of length `least` or more: any in `pmatch`, a non-empty one in `nematch`. */
  ghost predicate LeftmostLongestMatch(re: Tree, s: Text, bol: bool, least: nat, found: bool, beg: nat, len: int) {
    if found then
      && beg <= |s| && (forall i :: 0 <= i < beg ==> !LongFrom(re, s, bol, least, i))
      && len >= least && LongestMatch(re, s, bol, beg, len)
    else
      forall i :: 0 <= i <= |s| ==> !LongFrom(re, s, bol, least, i)
  }

  lemma {:induction false} FailsIsNoMatch(re: Tree, s: Text, bol: bool, least: nat, i: nat)
    requires NoFinal(re) && i <= |s|
    ensures Fails(AutoOf(re), FromAt(AutoOf(re), bol, i), Terminated(s), i, least) <==> !LongFrom(re, s, bol, least, i)
  {
    forall j: nat | i <= j <= |s| + 1
      ensures Hits(AutoOf(re), FromAt(AutoOf(re), bol, i), Terminated(s), i, j) <==> MatchAt(re, s, bol, i, j)
      ensures TextLen(Terminated(s), i, j) == MatchLen(s, i, j)
    {
      HitsIsMatch(re, s, bol, i, j);
    }
  }

  lemma {:induction false} LongestIsLongest(re: Tree, s: Text, bol: bool, i: nat, len: int)
    requires NoFinal(re) && i <= |s| && len >= 0
    ensures Longest(AutoOf(re), FromAt(AutoOf(re), bol, i), Terminated(s), i, |s| + 1, len) <==>
            LongestMatch(re, s, bol, i, len)
  {
    forall j: nat | i <= j <= |s| + 1
      ensures Hits(AutoOf(re), FromAt(AutoOf(re), bol, i), Terminated(s), i, j) <==> MatchAt(re, s, bol, i, j)
      ensures TextLen(Terminated(s), i, j) == MatchLen(s, i, j)
    {
      HitsIsMatch(re, s, bol, i, j);
    }
  }

  /** The automaton's leftmost-longest result is the expression's. */
  lemma {:induction false} PmatchMeaning(re: Tree, s: Text, bol: bool, least: nat, found: bool, beg: nat, len: int)
    requires NoFinal(re) && least <= 1 && LeftmostLongest(AutoOf(re), bol, Terminated(s), least, 0, found, beg, len)
    ensures LeftmostLongestMatch(re, s, bol, least, found, beg, len)
  {
    var last := if found then beg else |s| + 1 - least;
    forall i: nat | i < last ensures !LongFrom(re, s, bol, least, i) {
      FailsIsNoMatch(re, s, bol, least, i);
    }
    if found {
      LongestIsLongest(re, s, bol, beg, len);
    }
  }

  /** The searching automaton accepts somewhere exactly when the expression matches somewhere. */
  lemma {:induction false} MatchMeaning(re: Tree, s: Text)
    requires NoFinal(re) && IsLine(s)
    ensures (exists j :: 0 <= j <= |s| + 1 && Accept(re) in Reach(AutoOf(re), Init(AutoOf(re)), Terminated(s)[..j]))
            <==> MatchSomewhere(re, s)
  {
    AutoInit(re);
    forall j | 0 <= j <= |s| + 1
      ensures Reach(AutoOf(re), Init(AutoOf(re)), Terminated(s)[..j]) ==
              Run(Root(re), SearchInit(re), Syms(Terminated(s)[..j]))
    {
      ReachRuns(re, SearchInit(re), Terminated(s)[..j]);
    }
    SearchingDecides(re, s);
  }

  // ----- when the answers are those of the expression -----

  /** `match` answers right unless its run went astray, for which row 2 must have been spoiled before. */
  lemma {:induction false} MatchAnswers(re: Tree, st: State, s: Text)
    requires NoFinal(re) && IsLine(s) && Held(AutoOf(re), st) && !st.anchor
    ensures var end := MatchCall(AutoOf(re), st, Terminated(s));
            && (!end.astray ==> (Accepts(end) <==> MatchSomewhere(re, s))) && (end.astray ==> end.spoiled)
  {
    hide Turn, Along, Reach, Begin, Held, WellMade, Usable, Started, Exact, MatchSomewhere;
    var a, z := AutoOf(re), Terminated(s);
    BeginReady(a, st);
    AlongReady(a, Begin(a, st), z[..MatchStop(a, Begin(a, st), z, 0)]);
    if !MatchCall(a, st, z).astray {
      MatchRunRight(a, Begin(a, st), z);
      MatchMeaning(re, s);
    }
  }

  /** `match` spoils nothing when the table has room for one state a character, or for all states there are. */
  lemma {:induction false} MatchSafe(a: Auto, st: State, z: seq<nat>, family: set<set<nat>>)
    requires Held(a, st) && !st.reset
    requires st.table.curstat + |z| < NSTATES || (Few(a, family) && Lives(st.table, family))
    ensures var end := MatchCall(a, st, z); !end.spoiled && !end.now.reset
    ensures Few(a, family) && Lives(st.table, family) ==> Lives(MatchCall(a, st, z).now.table, family)
  {
    BeginReady(a, st);
    var w := z[..MatchStop(a, Begin(a, st), z, 0)];
    if Few(a, family) && Lives(st.table, family) {
      AlongFew(a, family, Begin(a, st), w);
    } else {
      AlongRoom(a, Begin(a, st), w);
    }
  }

  /** `pmatch` and `nematch` answer right unless the run went astray, for which row 2 must have been spoiled before. */
  lemma {:induction false} PmatchAnswers(re: Tree, st: State, s: Text, least: nat)
    requires NoFinal(re) && IsLine(s) && Held(AutoOf(re), st) && st.anchor && least <= 1
    ensures var o := PmatchCall(AutoOf(re), st, Terminated(s), least);
            && (!o.c.astray ==> LeftmostLongestMatch(re, s, AtLineStart(AutoOf(re), st), least, o.found, o.beg, o.len))
            && (o.c.astray ==> o.c.spoiled)
  {
    hide Turn, Along, Search, Begin, Held, WellMade, Usable, Started, Exact, LeftmostLongest, LeftmostLongestMatch;
    var a, z, bol := AutoOf(re), Terminated(s), AtLineStart(AutoOf(re), st);
    BeginReady(a, st);
    SearchReady(a, Begin(a, st), z, 0, least);
    var o := PmatchCall(a, st, z, least);
    if !o.c.astray {
      SearchRight(a, Begin(a, st), z, 0, least, bol);
      PmatchMeaning(re, s, bol, least, o.found, o.beg, o.len);
    }
  }

  /** The table has room for `n` more states, or for all states there are. */
  ghost predicate Roomy(a: Auto, k: Cache, n: nat, family: set<set<nat>>) {
    k.curstat + n < NSTATES || (Few(a, family) && Lives(k, family))
  }

  /** The table has room for `n` more states, or for all those of some family that transitions do not leave. */
  ghost predicate HasRoom(a: Auto, k: Cache, n: nat) {
    exists family :: Roomy(a, k, n, family)
  }

  /** With room for one state a character read they spoil nothing, recycle nothing and leave `initstat` alone. */
  lemma {:induction false} PmatchSafe(a: Auto, st: State, z: seq<nat>, least: nat, n: nat, family: set<set<nat>>)
    requires Held(a, st) && st.anchor && !st.reset && Roomy(a, st.table, CharsRead(|z|) + n, family)
    ensures var o := PmatchCall(a, st, z, least);
            && !o.c.spoiled && !o.c.astray && !o.c.now.reset && o.c.now.initstat == st.initstat
            && Held(a, o.c.now) && o.c.now.anchor && Roomy(a, o.c.now.table, n, family)
  {
    hide Search, Begin, Usable, Started, Exact, WellMade, Few, Lives;
    BeginReady(a, st);
    BeginSame(a, st);
    SearchReady(a, Begin(a, st), z, 0, least);
    if Few(a, family) && Lives(st.table, family) {
      SearchFew(a, family, Begin(a, st), z, 0, least);
    } else {
      SearchRoom(a, Begin(a, st), z, 0, least);
    }
  }

  lemma {:induction false} RoomSuffices(a: Auto, st: State, p: Text, least: nat)
    requires Held(a, st) && st.anchor && !st.reset && HasRoom(a, st.table, CharsRead(|p| + 1))
    ensures !PmatchCall(a, st, Terminated(p), least).c.astray
  {
    hide PmatchCall, Held, Few, Lives;
    var family :| Roomy(a, st.table, CharsRead(|p| + 1), family);
    PmatchSafe(a, st, Terminated(p), least, 0, family);
  }

  /** `match` on the automaton that `mkdfa` makes of `re`. */
  method MatchText(f: Fa, p: Text, ghost re: Tree) returns (r: bool)
    requires f.Valid() && !f.anchor && IsLine(p) && NoFinal(re) && f.auto == AutoOf(re)
    modifies f`gototab, f`posns, f`out, f`curstat, f`reset
    modifies f.statics`setcnt, f.statics`marked, f.statics`limit, f.statics.setvec
    ensures f.Valid()
    ensures var end := MatchCall(f.auto, old(f.Kept()), Terminated(p)); f.Kept() == end.now && r == Accepts(end)
    ensures !MatchCall(f.auto, old(f.Kept()), Terminated(p)).astray ==> (r <==> MatchSomewhere(re, p))
    ensures !old(f.reset) && HasRoom(f.auto, old(f.Kept()).table, |p| + 1) ==> (r <==> MatchSomewhere(re, p))
  {
    hide MatchCall, MatchSomewhere, Usable, WellMade, Started, Exact, AutoOf, Few, Lives;
    ghost var st := f.Kept();
    MatchAnswers(re, st, p);
    if !st.reset && HasRoom(f.auto, st.table, |p| + 1) {
      var family :| Roomy(f.auto, st.table, |p| + 1, family);
      MatchSafe(f.auto, st, Terminated(p), family);
    }
    r := Match(f, p);
  }

  /** `pmatch` on the automaton that `mkdfa` makes of `re`. */
  method PmatchText(f: Fa, p: Text, ghost re: Tree) returns (r: bool, patbeg: nat, patlen: int)
    requires f.Valid() && f.anchor && IsLine(p) && NoFinal(re) && f.auto == AutoOf(re)
    modifies f`gototab, f`posns, f`out, f`curstat, f`initstat, f`reset
    modifies f.statics`setcnt, f.statics`marked, f.statics`limit, f.statics.setvec
    ensures f.Valid() && (r ==> patlen >= 0 && patbeg + patlen <= |p|)
    ensures var o := PmatchCall(f.auto, old(f.Kept()), Terminated(p), 0);
            && f.Kept() == o.c.now && r == o.found && (r ==> patbeg == o.beg && patlen == o.len)
            && (!o.c.astray ==> LeftmostLongestMatch(re, p, AtLineStart(f.auto, old(f.Kept())), 0, r, patbeg, patlen))
    ensures !old(f.reset) && HasRoom(f.auto, old(f.Kept()).table, CharsRead(|p| + 1)) ==>
              LeftmostLongestMatch(re, p, AtLineStart(f.auto, old(f.Kept())), 0, r, patbeg, patlen)
  {
    hide PmatchCall, LongestMatch, LongFrom, AtLineStart, Usable, WellMade, Started, Exact, AutoOf, HasRoom;
    ghost var st := f.Kept();
    PmatchAnswers(re, st, p, 0);
    if !st.reset && HasRoom(f.auto, st.table, CharsRead(|p| + 1)) { RoomSuffices(f.auto, st, p, 0); }
    r, patbeg, patlen := Pmatch(f, p);
  }

  /** `nematch` on the automaton that `mkdfa` makes of `re`. */
  method NematchText(f: Fa, p: Text, ghost re: Tree) returns (r: bool, patbeg: nat, patlen: int)
    requires f.Valid() && f.anchor && IsLine(p) && NoFinal(re) && f.auto == AutoOf(re)
    modifies f`gototab, f`posns, f`out, f`curstat, f`initstat, f`reset
    modifies f.statics`setcnt, f.statics`marked, f.statics`limit, f.statics.setvec
    ensures f.Valid() && (r ==> patlen > 0 && patbeg + patlen <= |p|)
    ensures var o := PmatchCall(f.auto, old(f.Kept()), Terminated(p), 1);
            && f.Kept() == o.c.now && r == o.found && (r ==> patbeg == o.beg && patlen == o.len)
            && (!o.c.astray ==> LeftmostLongestMatch(re, p, AtLineStart(f.auto, old(f.Kept())), 1, r, patbeg, patlen))
    ensures !old(f.reset) && HasRoom(f.auto, old(f.Kept()).table, CharsRead(|p| + 1)) ==>
              LeftmostLongestMatch(re, p, AtLineStart(f.auto, old(f.Kept())), 1, r, patbeg, patlen)
  {
    hide PmatchCall, LongestMatch, LongFrom, AtLineStart, Usable, WellMade, Started, Exact, AutoOf, HasRoom;
    ghost var st := f.Kept();
    PmatchAnswers(re, st, p, 1);
    if !st.reset && HasRoom(f.auto, st.table, CharsRead(|p| + 1)) { RoomSuffices(f.auto, st, p, 1); }
    r, patbeg, patlen := Nematch(f, p);
  }
}
