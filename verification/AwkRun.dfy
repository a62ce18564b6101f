/**
 Runs through the table of states (cmd/awk/b.c: the loops of match, pmatch and nematch), as functions of what an
 automaton holds when it is called, and the runs over exact position sets that they stand for.

 A run also records two things the code does not: whether row 2 of a full table was spoiled on the way, and
 whether an entry was followed that does not name the exact successor.  Only the second can make an answer wrong.
 */
module AwkRun {
  import opened AwkCompile
  import opened AwkCache

  /** What an automaton keeps between calls. */
  datatype State = State(anchor: bool, table: Cache, initstat: nat, reset: bool)

  /** The automaton in the middle of a call, in row `s`. */
  datatype Config = Config(now: State, s: nat, spoiled: bool, astray: bool)

  /** The start states, which are there unless the table was recycled since they were made. */
  ghost predicate Started(a: Auto, st: State)
    requires Shaped(st.table)
  {
    && (st.initstat == 2 || st.initstat == InitRow(a))
    && (!st.anchor ==> st.initstat == InitRow(a))
    && (st.anchor ==> Members(st.table.posns[0]) == a.starts - {0} && IsState(a, st.table.posns[0]))
    && (st.anchor ==> (st.table.out[0] <==> a.accept in a.starts))
    && (!st.reset ==>
          && InitRow(a) <= st.table.curstat
          && Members(st.table.posns[InitRow(a)]) == (if st.anchor then Init(a) - {0} else Init(a))
          && (st.anchor ==> Members(st.table.posns[2]) == a.starts - {0}))
  }

  /** Between calls. */
  ghost predicate Held(a: Auto, st: State) {
    WellMade(a) && Usable(a, st.table) && Started(a, st) && (!st.reset ==> Exact(a, st.table))
  }

  /** During a call; a table that is not exact was spoiled in this call. */
  ghost predicate Ready(a: Auto, c: Config) {
    && WellMade(a) && Usable(a, c.now.table) && Started(a, c.now) && 1 <= c.s <= c.now.table.curstat
    && (c.spoiled ==> c.now.reset) && (!c.spoiled ==> Exact(a, c.now.table) && !c.astray)
  }

  /** The states between calls, as a set. */
  ghost function AtRest(a: Auto): iset<State> {
    iset st | Held(a, st)
  }

  /** The configurations during calls, as a set. */
  ghost function Running(a: Auto): iset<Config> {
    iset c | Ready(a, c)
  }

  /** Characters of a text and its terminating 0. */
  predicate IsInput(z: seq<nat>) {
    forall i :: 0 <= i < |z| ==> z[i] < HATCOL
  }

  /** The positions of the row that `c` is in. */
  ghost function Holding(c: Config): set<nat> {
    if c.s < |c.now.table.posns| then Members(c.now.table.posns[c.s]) else {}
  }

  ghost predicate Accepts(c: Config) {
    c.s < |c.now.table.out| && c.now.table.out[c.s]
  }

  // ----- one transition -----

  /** The transition from `c` on `x` finds no entry. */
  ghost predicate Misses(a: Auto, c: Config, x: nat) {
    Ready(a, c) && x < HATCOL && c.now.table.gototab[c.s][x] == 0
  }

  /** It finds one. */
  ghost predicate Finds(a: Auto, c: Config, x: nat) {
    Ready(a, c) && x < HATCOL && c.now.table.gototab[c.s][x] != 0
  }

  /** The transition from `c` on `x` follows an entry that does not name the exact successor. */
  ghost predicate Misled(a: Auto, c: Config, x: nat) {
    Finds(a, c, x) && Members(c.now.table.posns[c.now.table.gototab[c.s][x]]) != a.succ(Holding(c), x)
  }

  /** The transition from `c` on `x` spoils row 2. */
  ghost predicate Spoils(a: Auto, c: Config, x: nat) {
    Misses(a, c, x) && SpoilsRowTwo(a, c.now.table, c.s, x)
  }

  /** The transition from `c` on `x` recycles the table. */
  ghost predicate Overflows(a: Auto, c: Config, x: nat) {
    Misses(a, c, x) && Recycles(a, c.now.table, c.s, x)
  }

  /** One transition: the table's entry if there is one, else `cgoto`. */
  ghost function Turn(a: Auto, c: Config, x: nat): Config {
    if Misses(a, c, x) then
      var (k, r) := Goto(a, c.now.table, c.s, x);
      Config(c.now.(table := k, reset := c.now.reset || Overflows(a, c, x)), r, c.spoiled || Spoils(a, c, x), c.astray)
    else if Finds(a, c, x) then
      c.(s := c.now.table.gototab[c.s][x], astray := c.astray || Misled(a, c, x))
    else c
  }

  lemma {:induction false} GotoStarted(a: Auto, c: Config, x: nat)
    requires Misses(a, c, x) && Usable(a, Turn(a, c, x).now.table)
    ensures Started(a, Turn(a, c, x).now)
  {
    FirstRowIsNew(c.now.table, Target(a, c.now.table, c.s, x));
  }

  lemma {:induction false} TurnReady(a: Auto, c: Config, x: nat)
    requires Ready(a, c)
    ensures Ready(a, Turn(a, c, x))
  {
    if Misses(a, c, x) {
      GotoKeeps(a, c.now.table, c.s, x);
      GotoStarted(a, c, x);
    } else if Finds(a, c, x) && Exact(a, c.now.table) {
      assert ExactEntry(a, c.now.table, c.s, x);
    }
  }

  /** A transition reaches the exact successor if and only if it is not misled. */
  lemma {:induction false} TurnReads(a: Auto, c: Config, x: nat)
    requires Ready(a, c) && x < HATCOL
    ensures Holding(Turn(a, c, x)) == a.succ(Holding(c), x) <==> !Misled(a, c, x)
  {
    if Misses(a, c, x) { GotoKeeps(a, c.now.table, c.s, x); }
  }

  lemma {:induction false} TurnGrows(a: Auto, c: Config, x: nat)
    requires Ready(a, c)
    ensures Turn(a, c, x).now.table.curstat <= c.now.table.curstat + 1
    ensures c.now.table.curstat < NSTATES - 1 ==>
            Turn(a, c, x).now.reset == c.now.reset && Turn(a, c, x).spoiled == c.spoiled
  {
  }

  /** Row 1 is the empty state, and the only one. */
  lemma {:induction false} RowOneIsEmpty(a: Auto, k: Cache, i: nat)
    requires Usable(a, k) && 1 <= i <= k.curstat
    ensures Members(k.posns[i]) == {} <==> i == 1
  {
    EmptyState(a);
    if Members(k.posns[i]) == {} { SameSetSameState(a, k.posns[i], []); }
  }

  /** An entry that does not mislead names a live row that holds the exact successor. */
  lemma {:induction false} EntryLives(a: Auto, c: Config, x: nat)
    requires Finds(a, c, x) && !Misled(a, c, x)
    ensures 1 <= Turn(a, c, x).s <= c.now.table.curstat && Turn(a, c, x).now == c.now
    ensures Members(c.now.table.posns[Turn(a, c, x).s]) == a.succ(Holding(c), x)
  {
  }

  /** As long as row 2 has not been spoiled, no transition is misled. */
  lemma {:induction false} NotMisled(a: Auto, c: Config, x: nat)
    requires Ready(a, c) && !c.spoiled
    ensures !Misled(a, c, x)
  {
    if Finds(a, c, x) { assert ExactEntry(a, c.now.table, c.s, x); }
  }

  /** A new successor state takes the next row, or row 2 of a full table. */
  lemma {:induction false} FreshStep(a: Auto, c: Config, x: nat)
    requires Ready(a, c) && x < HATCOL && !Misled(a, c, x) && a.succ(Holding(c), x) != {}
    requires forall i :: 2 <= i <= c.now.table.curstat ==> Members(c.now.table.posns[i]) != a.succ(Holding(c), x)
    ensures var k, c' := c.now.table, Turn(a, c, x);
            && Misses(a, c, x) && IsNew(k, Target(a, k, c.s, x))
              && Members(Target(a, k, c.s, x)) == a.succ(Holding(c), x)
            && c'.now == c.now.(table := Extension(k, c.s, x, Target(a, k, c.s, x), a.accept in a.succ(Holding(c), x)),
                                reset := c.now.reset || k.curstat == NSTATES - 1)
            && c'.s == c'.now.table.curstat && Holding(c') == a.succ(Holding(c), x) && c'.astray == c.astray
            && c'.spoiled == (c.spoiled || SpoilsRowTwo(a, k, c.s, x))
  {
    hide Started, Exact;
    var k, p := c.now.table, Target(a, c.now.table, c.s, x);
    StateOfSet(a, a.succ(Holding(c), x));
    if Finds(a, c, x) {
      EntryLives(a, c, x);
      RowOneIsEmpty(a, k, Turn(a, c, x).s);
      assert false;
    }
    forall i: nat | 1 <= i <= k.curstat ensures k.posns[i] != p {
      if i == 1 { RowOneIsEmpty(a, k, 1); }
    }
    FirstRowIsNew(k, p);
  }

  /** An empty successor leads to row 1 and leaves the states as they are. */
  lemma {:induction false} DeadStep(a: Auto, c: Config, x: nat)
    requires Ready(a, c) && x < HATCOL && !Misled(a, c, x) && a.succ(Holding(c), x) == {}
    ensures var k, c' := c.now.table, Turn(a, c, x);
            && c'.s == 1 && !Accepts(c') && c'.now.table.posns == k.posns && c'.now.table.curstat == k.curstat
            && c'.now.table.out == k.out && c'.now == c.now.(table := c'.now.table)
            && c'.spoiled == c.spoiled && c'.astray == c.astray
  {
    hide Started, Exact;
    var k := c.now.table;
    if Finds(a, c, x) {
      EntryLives(a, c, x);
      RowOneIsEmpty(a, k, Turn(a, c, x).s);
    } else {
      DescendingNothing(a.accept + 1);
      FirstRowIsNew(k, []);
    }
  }

  // ----- many transitions -----

  /** The set reached from `s` by reading the columns `w`. */
  ghost function Reach(a: Auto, s: set<nat>, w: seq<nat>): set<nat> {
    if w == [] then s else a.succ(Reach(a, s, w[..|w| - 1]), w[|w| - 1])
  }

  lemma {:induction false} ReachNext(a: Auto, s: set<nat>, z: seq<nat>, i: nat, q: nat)
    requires i <= q < |z|
    ensures Reach(a, s, z[i..q + 1]) == a.succ(Reach(a, s, z[i..q]), z[q])
  {
    var w := z[i..q + 1];
    assert w[..|w| - 1] == z[i..q] && w[|w| - 1] == z[q];
  }

  /** Once the empty state is reached, nothing leads out of it. */
  lemma {:induction false} ReachDead(a: Auto, s: set<nat>, z: seq<nat>, i: nat, q: nat, j: nat)
    requires WellMade(a) && i <= q <= j <= |z| && Reach(a, s, z[i..q]) == {}
    ensures Reach(a, s, z[i..j]) == {}
    decreases j
  {
    if q < j {
      ReachDead(a, s, z, i, q, j - 1);
      ReachNext(a, s, z, i, j - 1);
    }
  }

  /** The automaton after reading `w`. */
  ghost function Along(a: Auto, c: Config, w: seq<nat>): Config {
    if w == [] then c else Turn(a, Along(a, c, w[..|w| - 1]), w[|w| - 1])
  }

  lemma {:induction false} AlongNothing(a: Auto, c: Config)
    ensures Along(a, c, []) == c
  {
  }

  lemma {:induction false} AlongNext(a: Auto, c: Config, z: seq<nat>, i: nat, q: nat)
    requires i <= q < |z|
    ensures Along(a, c, z[i..q + 1]) == Turn(a, Along(a, c, z[i..q]), z[q])
  {
    hide Turn;
    var w := z[i..q + 1];
    assert w[..|w| - 1] == z[i..q] && w[|w| - 1] == z[q];
  }

  lemma {:induction false} AlongReady(a: Auto, c: Config, w: seq<nat>)
    requires Ready(a, c)
    ensures Ready(a, Along(a, c, w))
    decreases |w|
  {
    if w != [] {
      AlongReady(a, c, w[..|w| - 1]);
      TurnReady(a, Along(a, c, w[..|w| - 1]), w[|w| - 1]);
    }
  }

  /** The `i`th transition of the run from `c` along `w` spoils row 2. */
  ghost predicate SpoilsAt(a: Auto, c: Config, w: seq<nat>, i: nat) {
    i < |w| && Spoils(a, Along(a, c, w[..i]), w[i])
  }

  /** The `i`th transition of the run from `c` along `w` is misled. */
  ghost predicate MisledAt(a: Auto, c: Config, w: seq<nat>, i: nat) {
    i < |w| && Misled(a, Along(a, c, w[..i]), w[i])
  }

  lemma {:induction false} PrefixMarks(a: Auto, c: Config, w: seq<nat>, n: nat, i: nat)
    requires i < n <= |w|
    ensures SpoilsAt(a, c, w[..n], i) <==> SpoilsAt(a, c, w, i)
    ensures MisledAt(a, c, w[..n], i) <==> MisledAt(a, c, w, i)
  {
    assert w[..n][..i] == w[..i];
  }

  lemma {:induction false} LastMark(a: Auto, c: Config, w: seq<nat>)
    requires w != []
    ensures Along(a, c, w).spoiled <==> Along(a, c, w[..|w| - 1]).spoiled || SpoilsAt(a, c, w, |w| - 1)
    ensures Along(a, c, w).astray <==> Along(a, c, w[..|w| - 1]).astray || MisledAt(a, c, w, |w| - 1)
  {
  }

  /** What holds at the end held at the start, or came about at some step. */
  lemma {:induction false} CameAbout(holds: seq<bool>, comes: seq<bool>)
    requires |holds| == |comes| + 1 && forall i :: 0 <= i < |comes| ==> (holds[i + 1] <==> holds[i] || comes[i])
    ensures holds[|comes|] <==> holds[0] || exists i :: 0 <= i < |comes| && comes[i]
    decreases |comes|
  {
    if comes != [] {
      var n := |comes| - 1;
      CameAbout(holds[..n + 1], comes[..n]);
      assert forall i :: 0 <= i < n ==> comes[..n][i] == comes[i];
    }
  }

  lemma {:induction false} MarkAt(a: Auto, c: Config, w: seq<nat>, i: nat)
    requires i < |w|
    ensures Along(a, c, w[..i + 1]).spoiled <==> Along(a, c, w[..i]).spoiled || SpoilsAt(a, c, w, i)
    ensures Along(a, c, w[..i + 1]).astray <==> Along(a, c, w[..i]).astray || MisledAt(a, c, w, i)
  {
    var u := w[..i + 1];
    assert u[..i] == w[..i];
    LastMark(a, c, u);
  }

  /** Row 2 was spoiled if and only if some transition did so. */
  lemma {:induction false} SpoiledExactly(a: Auto, c: Config, w: seq<nat>)
    ensures Along(a, c, w).spoiled <==> c.spoiled || exists i: nat :: SpoilsAt(a, c, w, i)
  {
    hide Along, Spoils;
    AlongNothing(a, c);
    assert w[..0] == [];
    var holds := seq(|w| + 1, i requires 0 <= i <= |w| => Along(a, c, w[..i]).spoiled);
    var comes := seq(|w|, i requires 0 <= i < |w| => SpoilsAt(a, c, w, i));
    forall i: nat | i < |w| ensures holds[i + 1] <==> holds[i] || comes[i] { MarkAt(a, c, w, i); }
    CameAbout(holds, comes);
    assert w[..|w|] == w;
    if i: nat :| SpoilsAt(a, c, w, i) { assert comes[i]; }
  }

  /** The run went astray if and only if some transition was misled. */
  lemma {:induction false} AstrayExactly(a: Auto, c: Config, w: seq<nat>)
    ensures Along(a, c, w).astray <==> c.astray || exists i: nat :: MisledAt(a, c, w, i)
  {
    var holds := seq(|w| + 1, i requires 0 <= i <= |w| => Along(a, c, w[..i]).astray);
    var comes := seq(|w|, i requires 0 <= i < |w| => MisledAt(a, c, w, i));
    forall i: nat | i < |w| ensures holds[i + 1] <==> holds[i] || comes[i] { MarkAt(a, c, w, i); }
    CameAbout(holds, comes);
    assert w[..|w|] == w;
    if i: nat :| MisledAt(a, c, w, i) { assert comes[i]; }
  }

  /** The run from `c` along `w` is in a row that holds the exact set. */
  ghost predicate OnSet(a: Auto, c: Config, w: seq<nat>) {
    Holding(Along(a, c, w)) == Reach(a, Holding(c), w)
  }

  /** One more transition keeps to the exact set unless it is misled. */
  lemma {:induction false} OnSetNext(a: Auto, c: Config, w: seq<nat>)
    requires Ready(a, c) && IsInput(w) && w != [] && OnSet(a, c, w[..|w| - 1])
    ensures OnSet(a, c, w) <==> !MisledAt(a, c, w, |w| - 1)
  {
    AlongReady(a, c, w[..|w| - 1]);
    TurnReads(a, Along(a, c, w[..|w| - 1]), w[|w| - 1]);
  }

  /** The rows that a run visits hold the exact sets if and only if the run does not go astray. */
  lemma {:induction false} VisitsExactSets(a: Auto, c: Config, w: seq<nat>)
    requires Ready(a, c) && IsInput(w) && !c.astray
    ensures !Along(a, c, w).astray <==> forall j :: 0 <= j <= |w| ==> OnSet(a, c, w[..j])
    decreases |w|
  {
    assert w[..|w|] == w;
    if w == [] {
      assert OnSet(a, c, []);
    } else {
      var u := w[..|w| - 1];
      VisitsExactSets(a, c, u);
      forall j: nat | j <= |u| ensures u[..j] == w[..j] {}
      assert u[..|u|] == u;
      LastMark(a, c, w);
      if OnSet(a, c, u) { OnSetNext(a, c, w); }
    }
  }

  lemma {:induction false} AlongExact(a: Auto, c: Config, z: seq<nat>, i: nat, q: nat, j: nat)
    requires Ready(a, c) && IsInput(z) && !c.astray && i <= q <= j <= |z| && !Along(a, c, z[i..j]).astray
    ensures OnSet(a, c, z[i..q])
  {
    VisitsExactSets(a, c, z[i..j]);
    assert z[i..j][..q - i] == z[i..q];
  }

  /** With room in the table for one new state a transition, nothing is recycled. */
  lemma {:induction false} AlongRoom(a: Auto, c: Config, w: seq<nat>)
    requires Ready(a, c) && c.now.table.curstat + |w| < NSTATES
    ensures var c' := Along(a, c, w);
            c'.now.table.curstat <= c.now.table.curstat + |w| && c'.spoiled == c.spoiled && c'.now.reset == c.now.reset
    decreases |w|
  {
    if w != [] {
      AlongRoom(a, c, w[..|w| - 1]);
      AlongReady(a, c, w[..|w| - 1]);
      TurnGrows(a, Along(a, c, w[..|w| - 1]), w[|w| - 1]);
    }
  }

  /** What a run never changes. */
  lemma {:induction false} AlongSame(a: Auto, c: Config, w: seq<nat>)
    ensures var c' := Along(a, c, w);
            && c'.now.initstat == c.now.initstat && c'.now.anchor == c.now.anchor
            && (c.now.reset ==> c'.now.reset) && (c.spoiled ==> c'.spoiled) && (c.astray ==> c'.astray)
    decreases |w|
  {
    if w != [] {
      AlongSame(a, c, w[..|w| - 1]);
    }
  }

  // ----- automata with few states -----

  /** A family of sets, small enough for the table, that transitions do not leave but to the empty set. */
  ghost predicate Few(a: Auto, family: set<set<nat>>) {
    && |family| <= NSTATES - 2 && {} !in family
    && forall s, x :: s in family && 0 <= x < HATCOL ==> a.succ(s, x) == {} || a.succ(s, x) in family
  }

  ghost predicate Lives(k: Cache, family: set<set<nat>>) {
    forall i :: 2 <= i <= k.curstat && i < |k.posns| ==> Members(k.posns[i]) in family
  }

  /** The sets that rows 2 to `n` hold. */
  ghost function LiveSets(k: Cache, n: nat): set<set<nat>>
    requires n < |k.posns|
  {
    if n < 2 then {} else LiveSets(k, n - 1) + {Members(k.posns[n])}
  }

  lemma {:induction false} LiveSetsInside(k: Cache, n: nat, family: set<set<nat>>)
    requires n < |k.posns| && n <= k.curstat && Lives(k, family)
    ensures LiveSets(k, n) <= family
  {
    if n >= 2 { LiveSetsInside(k, n - 1, family); }
  }

  lemma {:induction false} NotAmongLiveSets(a: Auto, k: Cache, n: nat, p: seq<nat>)
    requires Usable(a, k) && n <= k.curstat && IsState(a, p) && forall i :: 2 <= i <= n ==> k.posns[i] != p
    ensures Members(p) !in LiveSets(k, n)
  {
    if n >= 2 {
      NotAmongLiveSets(a, k, n - 1, p);
      assert IsState(a, k.posns[n]);
    }
  }

  lemma {:induction false} LiveSetsCount(a: Auto, k: Cache, n: nat)
    requires Usable(a, k) && 1 <= n <= k.curstat
    ensures |LiveSets(k, n)| == n - 1
  {
    if n > 1 {
      LiveSetsCount(a, k, n - 1);
      NotAmongLiveSets(a, k, n - 1, k.posns[n]);
    }
  }

  lemma {:induction false} Smaller<T>(s: set<T>, t: set<T>)
    requires s <= t
    ensures |s| <= |t|
  {
    if s != {} {
      var x :| x in s;
      Smaller(s - {x}, t - {x});
    }
  }

  lemma {:induction false} FewHasRoom(a: Auto, k: Cache, family: set<set<nat>>, p: seq<nat>)
    requires Usable(a, k) && Lives(k, family) && IsState(a, p) && IsNew(k, p) && Members(p) in family
    requires |family| <= NSTATES - 2
    ensures k.curstat < NSTATES - 1
  {
    LiveSetsCount(a, k, k.curstat);
    LiveSetsInside(k, k.curstat, family);
    NotAmongLiveSets(a, k, k.curstat, p);
    Smaller(LiveSets(k, k.curstat), family - {Members(p)});
  }

  /** An automaton with at most 30 states never overflows the table. */
  lemma {:induction false} FewNeverOverflow(a: Auto, family: set<set<nat>>, c: Config, x: nat)
    requires Ready(a, c) && Few(a, family) && Lives(c.now.table, family)
    ensures !Overflows(a, c, x) && Lives(Turn(a, c, x).now.table, family)
  {
    if Misses(a, c, x) {
      var k, p := c.now.table, Target(a, c.now.table, c.s, x);
      StateOfSet(a, a.succ(Holding(c), x));
      FirstRowIsNew(k, p);
      if IsNew(k, p) {
        assert c.s != 1 && Members(p) != {} by { NewIsNotEmpty(a, k, c.s, x); }
        assert Holding(c) in family;
        FewHasRoom(a, k, family, p);
      }
    }
  }

  lemma {:induction false} NewIsNotEmpty(a: Auto, k: Cache, s: nat, x: nat)
    requires WellMade(a) && Usable(a, k) && 1 <= s <= k.curstat && IsNew(k, Target(a, k, s, x))
    ensures s != 1 && Members(Target(a, k, s, x)) != {}
  {
    var p := Target(a, k, s, x);
    StateOfSet(a, Successor(a, k.posns[s], x));
    EmptyState(a);
    if Members(p) == {} { SameSetSameState(a, p, []); }
  }

  lemma {:induction false} AlongFew(a: Auto, family: set<set<nat>>, c: Config, w: seq<nat>)
    requires Ready(a, c) && Few(a, family) && Lives(c.now.table, family)
    ensures var c' := Along(a, c, w);
            Ready(a, c') && Lives(c'.now.table, family) && c'.now.reset == c.now.reset && c'.spoiled == c.spoiled
    decreases |w|
  {
    if w != [] {
      AlongFew(a, family, c, w[..|w| - 1]);
      TurnReady(a, Along(a, c, w[..|w| - 1]), w[|w| - 1]);
      FewNeverOverflow(a, family, Along(a, c, w[..|w| - 1]), w[|w| - 1]);
    }
  }

  // ----- match -----

  /** Where `match` stops reading: at the first accepting row, or behind the terminating 0. */
  ghost function MatchStop(a: Auto, c: Config, z: seq<nat>, q: nat): (stop: nat)
    requires q <= |z|
    ensures q <= stop <= |z|
    decreases |z| - q
  {
    if q == |z| || Accepts(Along(a, c, z[..q])) then q else MatchStop(a, c, z, q + 1)
  }

  /** Where `match` leaves the automaton; the answer is whether that row accepts. */
  ghost function MatchRun(a: Auto, c: Config, z: seq<nat>): Config {
    Along(a, c, z[..MatchStop(a, c, z, 0)])
  }

  lemma {:induction false} StopsAtFirst(a: Auto, c: Config, z: seq<nat>, q: nat, j: nat)
    requires q <= |z| && q <= j < MatchStop(a, c, z, q)
    ensures !Accepts(Along(a, c, z[..j]))
    decreases j - q
  {
    if q < j { StopsAtFirst(a, c, z, q + 1, j); }
  }

  lemma {:induction false} StopsOnlyThere(a: Auto, c: Config, z: seq<nat>, q: nat)
    requires q <= |z| && !Accepts(Along(a, c, z[..MatchStop(a, c, z, q)]))
    ensures MatchStop(a, c, z, q) == |z|
    decreases |z| - q
  {
    if q < |z| { StopsOnlyThere(a, c, z, q + 1); }
  }

  lemma {:induction false} AcceptsExactly(a: Auto, c: Config, w: seq<nat>)
    requires Ready(a, c) && OnSet(a, c, w)
    ensures Accepts(Along(a, c, w)) <==> a.accept in Reach(a, Holding(c), w)
  {
    AlongReady(a, c, w);
  }

  /** A run that is not led astray ends in an accepting row exactly when the automaton accepts somewhere. */
  lemma {:induction false} MatchRunRight(a: Auto, c: Config, z: seq<nat>)
    requires Ready(a, c) && IsInput(z) && !c.astray && !MatchRun(a, c, z).astray
    ensures Accepts(MatchRun(a, c, z)) <==> exists j :: 0 <= j <= |z| && a.accept in Reach(a, Holding(c), z[..j])
  {
    var stop := MatchStop(a, c, z, 0);
    assert z[0..stop] == z[..stop];
    forall j: nat | j <= stop ensures Accepts(Along(a, c, z[..j])) <==> a.accept in Reach(a, Holding(c), z[..j]) {
      assert z[0..j] == z[..j];
      AlongExact(a, c, z, 0, j, stop);
      AcceptsExactly(a, c, z[..j]);
    }
    if j :| 0 <= j <= |z| && a.accept in Reach(a, Holding(c), z[..j]) {
      if j < stop { StopsAtFirst(a, c, z, 0, j); }
      if !Accepts(MatchRun(a, c, z)) { StopsOnlyThere(a, c, z, 0); }
    }
  }

  // ----- leftmost longest -----

  /** Started from `from` at `i`, the automaton accepts after reading up to `j`. */
  ghost predicate Hits(a: Auto, from: set<nat>, z: seq<nat>, i: nat, j: nat)
    requires i <= j <= |z|
  {
    a.accept in Reach(a, from, z[i..j])
  }

  /** The length of what was read up to `j`, not counting the terminating 0. */
  function TextLen(z: seq<nat>, i: nat, j: nat): int {
    (if j < |z| then j else |z| - 1) - i
  }

  /** From `i` on the automaton accepts nothing of length `least` or more. */
  ghost predicate Fails(a: Auto, from: set<nat>, z: seq<nat>, i: nat, least: nat)
    requires i <= |z|
  {
    forall j :: i <= j <= |z| && Hits(a, from, z, i, j) ==> TextLen(z, i, j) < least
  }

  /**
   `len` is the longest length at which the automaton accepts from `i` on, among the ends up to `last`; -1 for none.
   */
  ghost predicate Longest(a: Auto, from: set<nat>, z: seq<nat>, i: nat, last: nat, len: int)
    requires i <= last <= |z|
  {
    && (len == -1 || exists j :: i <= j <= last && Hits(a, from, z, i, j) && len == TextLen(z, i, j))
    && (forall j :: i <= j <= last && Hits(a, from, z, i, j) ==> TextLen(z, i, j) <= len)
  }

  /** Where the inner loop of `pmatch` stops: in row 1, or behind the terminating 0. */
  ghost function ScanStop(a: Auto, c: Config, z: seq<nat>, i: nat, q: nat): (stop: nat)
    requires i <= q <= |z|
    ensures q <= stop <= |z|
    decreases |z| - q
  {
    if q == |z| || (q > i && Along(a, c, z[i..q]).s == 1) then q else ScanStop(a, c, z, i, q + 1)
  }

  /** The length up to the last accepting row that the run from `i` visits until `q`; -1 for none. */
  ghost function LastHit(a: Auto, c: Config, z: seq<nat>, i: nat, q: nat): int
    requires i <= q <= |z|
    decreases q
  {
    if Accepts(Along(a, c, z[i..q])) then TextLen(z, i, q) else if q == i then -1 else LastHit(a, c, z, i, q - 1)
  }

  ghost function ScanLen(a: Auto, c: Config, z: seq<nat>, i: nat): int
    requires i <= |z|
  {
    LastHit(a, c, z, i, ScanStop(a, c, z, i, i))
  }

  ghost function ScanEnd(a: Auto, c: Config, z: seq<nat>, i: nat): Config
    requires i <= |z|
  {
    Along(a, c, z[i..ScanStop(a, c, z, i, i)])
  }

  lemma {:induction false} ScanStopDead(a: Auto, c: Config, z: seq<nat>, i: nat, q: nat)
    requires i <= q <= |z| && ScanStop(a, c, z, i, q) < |z|
    ensures Along(a, c, z[i..ScanStop(a, c, z, i, q)]).s == 1
    decreases |z| - q
  {
    hide Along;
    if !(q == |z| || (q > i && Along(a, c, z[i..q]).s == 1)) { ScanStopDead(a, c, z, i, q + 1); }
  }

  lemma {:induction false} LastHitLongest(a: Auto, c: Config, z: seq<nat>, i: nat, q: nat)
    requires i <= q <= |z| && i < |z|
    requires forall j :: i <= j <= q ==> (Accepts(Along(a, c, z[i..j])) <==> Hits(a, Holding(c), z, i, j))
    ensures Longest(a, Holding(c), z, i, q, LastHit(a, c, z, i, q))
    decreases q
  {
    hide Along, Hits, Accepts, Holding;
    if Hits(a, Holding(c), z, i, q) {
      assert TextLen(z, i, q) == LastHit(a, c, z, i, q);
    } else if q > i {
      LastHitLongest(a, c, z, i, q - 1);
    }
  }

  /** A scan that is not led astray finds the longest accepted length. */
  lemma {:induction false} ScanRight(a: Auto, c: Config, z: seq<nat>, i: nat)
    requires Ready(a, c) && IsInput(z) && i < |z| && !c.astray && !ScanEnd(a, c, z, i).astray
    ensures Longest(a, Holding(c), z, i, |z|, ScanLen(a, c, z, i))
  {
    var stop := ScanStop(a, c, z, i, i);
    forall j: nat | i <= j <= stop ensures Accepts(Along(a, c, z[i..j])) <==> Hits(a, Holding(c), z, i, j) {
      AlongExact(a, c, z, i, j, stop);
      AcceptsExactly(a, c, z[i..j]);
    }
    LastHitLongest(a, c, z, i, stop);
    if stop < |z| {
      DeadStop(a, c, z, i);
      forall j | stop < j <= |z| ensures !Hits(a, Holding(c), z, i, j) { ReachDead(a, Holding(c), z, i, stop, j); }
    }
  }

  lemma {:induction false} DeadStop(a: Auto, c: Config, z: seq<nat>, i: nat)
    requires Ready(a, c) && IsInput(z) && i <= |z| && !c.astray && !ScanEnd(a, c, z, i).astray
    requires ScanStop(a, c, z, i, i) < |z|
    ensures Reach(a, Holding(c), z[i..ScanStop(a, c, z, i, i)]) == {}
  {
    var stop := ScanStop(a, c, z, i, i);
    ScanStopDead(a, c, z, i, i);
    AlongExact(a, c, z, i, stop, stop);
    AlongReady(a, c, z[i..stop]);
    EmptyState(a);
  }

  // ----- pmatch and nematch -----

  /** The start set of the anchored automaton, with and without taking `^` first. */
  ghost function From(a: Auto, bol: bool): set<nat> {
    if bol then Init(a) - {0} else a.starts - {0}
  }

  ghost function FromAt(a: Auto, bol: bool, i: nat): set<nat> {
    From(a, bol && i == 0)
  }

  /** The next start is row 2; a recycled table is first reduced to the saved start state. */
  ghost function NextStart(c: Config): Config {
    if c.now.reset && Shaped(c.now.table) then
      Config(c.now.(table := Restarted(c.now.table), initstat := 2), 2, c.spoiled, c.astray)
    else c.(s := 2)
  }

  lemma {:induction false} NextStartReady(a: Auto, c: Config)
    requires Ready(a, c) && c.now.anchor
    ensures Ready(a, NextStart(c)) && Holding(NextStart(c)) == From(a, false)
  {
    var k := c.now.table;
    if c.now.reset {
      var q :| q in a.starts && q != 0;
      assert q in Members(k.posns[0]);
      StartedOver(a, k, k.posns[0]);
      assert Restarted(k) == NewRow(k, 2, k.posns[0], a.accept in Members(k.posns[0]));
    }
  }

  datatype Found = Found(found: bool, beg: nat, len: int, c: Config)

  /** The outer loop from start `i` on, for matches of length `least` or more: 0 in `pmatch`, 1 in `nematch`. */
  ghost function Search(a: Auto, c: Config, z: seq<nat>, i: nat, least: nat): Found
    decreases |z| - i
  {
    if i + least >= |z| then Found(false, i, -1, c)
    else if ScanLen(a, c, z, i) >= least then Found(true, i, ScanLen(a, c, z, i), ScanEnd(a, c, z, i))
    else Search(a, NextStart(ScanEnd(a, c, z, i)), z, i + 1, least)
  }

  lemma {:induction false} SearchReady(a: Auto, c: Config, z: seq<nat>, i: nat, least: nat)
    requires Ready(a, c) && c.now.anchor
    ensures var f := Search(a, c, z, i, least);
            && Ready(a, f.c) && f.c.now.anchor && (c.now.reset ==> f.c.now.reset) && (c.spoiled ==> f.c.spoiled)
            && (c.astray ==> f.c.astray) && i <= f.beg && (f.found ==> f.beg + least < |z| && least <= f.len)
    decreases |z| - i
  {
    if i + least < |z| {
      var stop := ScanStop(a, c, z, i, i);
      AlongReady(a, c, z[i..stop]);
      AlongSame(a, c, z[i..stop]);
      if ScanLen(a, c, z, i) < least {
        NextStartReady(a, ScanEnd(a, c, z, i));
        SearchReady(a, NextStart(ScanEnd(a, c, z, i)), z, i + 1, least);
      }
    }
  }

  /** The length found ends within the text. */
  lemma {:induction false} LastHitBound(a: Auto, c: Config, z: seq<nat>, i: nat, q: nat)
    requires i <= q <= |z| && i < |z|
    ensures -1 <= LastHit(a, c, z, i, q) < |z| - i
    decreases q
  {
    if !Accepts(Along(a, c, z[i..q])) && q > i { LastHitBound(a, c, z, i, q - 1); }
  }

  /** No match of length `least` or more starts between `i` and `beg`. */
  ghost predicate NoneBetween(a: Auto, bol: bool, z: seq<nat>, least: nat, i: nat, beg: nat)
    requires beg <= |z|
  {
    forall h :: i <= h < beg ==> Fails(a, FromAt(a, bol, h), z, h, least)
  }

  /**
   The leftmost start at `i` or later from which the automaton accepts at least `least`, and the longest length from
   there.
   */
  ghost predicate LeftmostLongest(a: Auto, bol: bool, z: seq<nat>, least: nat, i: nat, found: bool, beg: nat,
                                  len: int) {
    if found then
      && i <= beg < |z| && len >= least && NoneBetween(a, bol, z, least, i, beg)
      && Longest(a, FromAt(a, bol, beg), z, beg, |z|, len)
    else
      least <= |z| && NoneBetween(a, bol, z, least, i, |z| - least)
  }

  /** From one start to the next. */
  lemma {:induction false} ScanNext(a: Auto, c: Config, z: seq<nat>, i: nat)
    requires Ready(a, c) && c.now.anchor && i <= |z|
    ensures var end := ScanEnd(a, c, z, i); var next := NextStart(end);
            && Ready(a, end) && Ready(a, next) && next.now.anchor && Holding(next) == From(a, false)
            && next.astray == end.astray && (c.astray ==> end.astray)
  {
    var w := z[i..ScanStop(a, c, z, i, i)];
    AlongReady(a, c, w);
    AlongSame(a, c, w);
    NextStartReady(a, ScanEnd(a, c, z, i));
  }

  lemma {:induction false} ScanFails(a: Auto, c: Config, z: seq<nat>, i: nat, least: nat)
    requires Ready(a, c) && IsInput(z) && i < |z| && !c.astray && !ScanEnd(a, c, z, i).astray
             && ScanLen(a, c, z, i) < least
    ensures Fails(a, Holding(c), z, i, least)
  {
    ScanRight(a, c, z, i);
  }

  lemma {:induction false} FailsFirst(a: Auto, bol: bool, z: seq<nat>, least: nat, i: nat, found: bool, beg: nat,
                                      len: int)
    requires i + least < |z| && Fails(a, FromAt(a, bol, i), z, i, least)
    requires LeftmostLongest(a, bol, z, least, i + 1, found, beg, len)
    ensures LeftmostLongest(a, bol, z, least, i, found, beg, len)
  {
  }

  lemma {:induction false} SearchEnds(a: Auto, c: Config, z: seq<nat>, i: nat, least: nat, bol: bool)
    requires Ready(a, c) && IsInput(z) && i + least <= |z| && !c.astray
    requires i + least == |z|
             || (ScanLen(a, c, z, i) >= least && Holding(c) == FromAt(a, bol, i) && !ScanEnd(a, c, z, i).astray)
    ensures var f := Search(a, c, z, i, least); LeftmostLongest(a, bol, z, least, i, f.found, f.beg, f.len)
  {
    if i + least < |z| { ScanRight(a, c, z, i); }
  }

  lemma {:induction false} SearchGoesOn(a: Auto, c: Config, z: seq<nat>, i: nat, least: nat)
    requires Ready(a, c) && c.now.anchor && i + least < |z| && ScanLen(a, c, z, i) < least
    ensures var next := NextStart(ScanEnd(a, c, z, i));
            Search(a, c, z, i, least) == Search(a, next, z, i + 1, least) &&
            (ScanEnd(a, c, z, i).astray ==> Search(a, next, z, i + 1, least).c.astray)
  {
    ScanNext(a, c, z, i);
    SearchReady(a, NextStart(ScanEnd(a, c, z, i)), z, i + 1, least);
  }

  /** A search that is not led astray finds the leftmost longest. */
  lemma {:induction false} SearchRight(a: Auto, c: Config, z: seq<nat>, i: nat, least: nat, bol: bool)
    requires Ready(a, c) && c.now.anchor && IsInput(z) && i + least <= |z|
    requires !c.astray && !Search(a, c, z, i, least).c.astray
    requires i + least < |z| ==> Holding(c) == FromAt(a, bol, i)
    ensures var f := Search(a, c, z, i, least); LeftmostLongest(a, bol, z, least, i, f.found, f.beg, f.len)
    decreases |z| - i
  {
    hide LeftmostLongest, ScanLen, ScanEnd, NextStart, Ready, Holding, Fails;
    if i + least < |z| && ScanLen(a, c, z, i) < least {
      var next := NextStart(ScanEnd(a, c, z, i));
      SearchGoesOn(a, c, z, i, least);
      ScanNext(a, c, z, i);
      SearchRight(a, next, z, i + 1, least, bol);
      ScanFails(a, c, z, i, least);
      var f := Search(a, next, z, i + 1, least);
      FailsFirst(a, bol, z, least, i, f.found, f.beg, f.len);
    } else {
      SearchEnds(a, c, z, i, least, bol);
    }
  }

  /** The number of characters read when every start in a text of length `n` is tried to the end. */
  function CharsRead(n: nat): nat {
    if n == 0 then 0 else n + CharsRead(n - 1)
  }

  lemma {:induction false} NextStartRoom(c: Config)
    requires !c.now.reset
    ensures var d := NextStart(c);
            && !d.now.reset && d.now.initstat == c.now.initstat && d.now.anchor == c.now.anchor
            && d.now.table.curstat == c.now.table.curstat && d.spoiled == c.spoiled
  {
  }

  /** With room for one new state a character read, a search recycles nothing and leaves `initstat` alone. */
  lemma {:induction false} SearchRoom(a: Auto, c: Config, z: seq<nat>, i: nat, least: nat)
    requires Ready(a, c) && c.now.anchor && i <= |z| && !c.now.reset && !c.spoiled
    requires c.now.table.curstat + CharsRead(|z| - i) < NSTATES
    ensures var f := Search(a, c, z, i, least);
            && !f.c.now.reset && f.c.now.initstat == c.now.initstat && !f.c.spoiled
            && f.c.now.table.curstat <= c.now.table.curstat + CharsRead(|z| - i)
    decreases |z| - i
  {
    if i + least < |z| {
      hide Along, ScanStop, ScanLen, Ready, NextStart;
      var end, w := ScanEnd(a, c, z, i), z[i..ScanStop(a, c, z, i, i)];
      AlongReady(a, c, w);
      AlongSame(a, c, w);
      AlongRoom(a, c, w);
      if ScanLen(a, c, z, i) < least {
        NextStartReady(a, end);
        NextStartRoom(end);
        SearchRoom(a, NextStart(end), z, i + 1, least);
      }
    }
  }

  /** An automaton with at most 30 states never recycles, however much it is used. */
  lemma {:induction false} SearchFew(a: Auto, family: set<set<nat>>, c: Config, z: seq<nat>, i: nat, least: nat)
    requires Ready(a, c) && c.now.anchor && !c.now.reset && !c.spoiled && Few(a, family) && Lives(c.now.table, family)
    ensures var f := Search(a, c, z, i, least);
            !f.c.now.reset && f.c.now.initstat == c.now.initstat && Lives(f.c.now.table, family) && !f.c.spoiled
    decreases |z| - i
  {
    if i + least < |z| {
      var end, w := ScanEnd(a, c, z, i), z[i..ScanStop(a, c, z, i, i)];
      AlongFew(a, family, c, w);
      AlongSame(a, c, w);
      if ScanLen(a, c, z, i) < least {
        NextStartReady(a, end);
        SearchFew(a, family, NextStart(end), z, i + 1, least);
      }
    }
  }

  // ----- whole calls -----

  /** Will the next call let `^` match at the start of its text? */
  ghost predicate AtLineStart(a: Auto, st: State) {
    st.reset || st.initstat == InitRow(a)
  }

  /** Where a call starts: at `initstat`, or at the initial state made anew if the table was recycled. */
  ghost function Begin(a: Auto, st: State): Config {
    if st.reset && WellMade(a) && Shaped(st.table) then
      var k := Remade(a, st.anchor, st.table);
      Config(st.(table := k, reset := false), k.curstat, false, false)
    else Config(st, st.initstat, false, false)
  }

  lemma {:induction false} BeginReady(a: Auto, st: State)
    requires Held(a, st)
    ensures Ready(a, Begin(a, st)) && !Begin(a, st).now.reset && !Begin(a, st).spoiled && !Begin(a, st).astray
    ensures Begin(a, st).now.anchor == st.anchor && Begin(a, st).now.initstat == st.initstat
    ensures Holding(Begin(a, st)) == if st.anchor then From(a, AtLineStart(a, st)) else Init(a)
  {
    if st.reset { RemadeIsInitial(a, st.anchor, st.table); }
  }

  lemma {:induction false} BeginSame(a: Auto, st: State)
    requires !st.reset
    ensures Begin(a, st).now == st
  {
  }

  /** `match`: the answer is whether the row it ends in accepts. */
  ghost function MatchCall(a: Auto, st: State, z: seq<nat>): Config {
    MatchRun(a, Begin(a, st), z)
  }

  /** `pmatch`, and `nematch` with `least` 1. */
  ghost function PmatchCall(a: Auto, st: State, z: seq<nat>, least: nat): Found {
    Search(a, Begin(a, st), z, 0, least)
  }

  // ----- what a search does to `initstat` -----

  /** From start `i` on, some start fails after the table has been recycled. */
  ghost predicate Restarts(a: Auto, c: Config, z: seq<nat>, i: nat, least: nat)
    decreases |z| - i
  {
    && i + least < |z| && ScanLen(a, c, z, i) < least
    && (ScanEnd(a, c, z, i).now.reset || Restarts(a, NextStart(ScanEnd(a, c, z, i)), z, i + 1, least))
  }

  /** `initstat` is 2 afterwards if some start failed after the table had been recycled; otherwise it is what it was. */
  lemma {:induction false} InitstatAfter(a: Auto, c: Config, z: seq<nat>, i: nat, least: nat)
    requires Ready(a, c) && c.now.anchor
    ensures Search(a, c, z, i, least).c.now.initstat == if Restarts(a, c, z, i, least) then 2 else c.now.initstat
    ensures Restarts(a, c, z, i, least) ==> Search(a, c, z, i, least).c.now.reset
    ensures !Search(a, c, z, i, least).found && i + least < |z| ==>
              (Restarts(a, c, z, i, least) <==> Search(a, c, z, i, least).c.now.reset)
    decreases |z| - i
  {
    hide Turn, Along, Ready;
    if i + least < |z| {
      var end := ScanEnd(a, c, z, i);
      AlongSame(a, c, z[i..ScanStop(a, c, z, i, i)]);
      ScanNext(a, c, z, i);
      if ScanLen(a, c, z, i) < least {
        EndShaped(a, end);
        SearchReady(a, NextStart(end), z, i + 1, least);
        InitstatAfter(a, NextStart(end), z, i + 1, least);
      }
    }
  }

  lemma {:induction false} EndShaped(a: Auto, c: Config)
    requires Ready(a, c)
    ensures Shaped(c.now.table)
  {
  }

  /** Where taking `^` first makes no difference, `^` can neither be lost nor be taken in the wrong place. */
  lemma {:induction false} HatMakesNoDifference(a: Auto, st: State)
    requires Held(a, st) && InitRow(a) == 2
    ensures AtLineStart(a, st) && From(a, true) == From(a, false)
    ensures forall z, least, i, found, beg, len ::
              LeftmostLongest(a, true, z, least, i, found, beg, len) <==>
                LeftmostLongest(a, false, z, least, i, found, beg, len)
  {
    forall z, least, i, found, beg, len
      ensures LeftmostLongest(a, true, z, least, i, found, beg, len) <==>
              LeftmostLongest(a, false, z, least, i, found, beg, len)
    {
      assert forall h: nat :: FromAt(a, true, h) == FromAt(a, false, h);
    }
  }

  lemma {:induction false} BeginRuns(a: Auto, st: State)
    requires st in AtRest(a)
    ensures Begin(a, st) in Running(a) && Begin(a, st).now.anchor == st.anchor
  {
    BeginReady(a, st);
  }

  lemma {:induction false} RunsAtRest(a: Auto, c: Config)
    requires c in Running(a)
    ensures c.now in AtRest(a)
  {
  }

  lemma {:induction false} TurnRuns(a: Auto, c: Config, z: seq<nat>, i: nat, q: nat)
    requires c in Running(a) && i <= q < |z|
    ensures Along(a, c, z[i..q + 1]) == Turn(a, Along(a, c, z[i..q]), z[q]) && Along(a, c, z[i..q + 1]) in Running(a)
  {
    AlongNext(a, c, z, i, q);
    AlongReady(a, c, z[i..q + 1]);
  }

  lemma {:induction false} ScanRuns(a: Auto, c: Config, z: seq<nat>, i: nat)
    requires c in Running(a) && c.now.anchor && i < |z|
    ensures ScanEnd(a, c, z, i) in Running(a) && NextStart(ScanEnd(a, c, z, i)) in Running(a)
    ensures NextStart(ScanEnd(a, c, z, i)).now.anchor && NextStart(ScanEnd(a, c, z, i)).s == 2
  {
    ScanNext(a, c, z, i);
  }

  lemma {:induction false} CallAnchored(a: Auto, st: State, z: seq<nat>, least: nat)
    requires st in AtRest(a) && st.anchor
    ensures PmatchCall(a, st, z, least).c.now.anchor
  {
    BeginReady(a, st);
    SearchReady(a, Begin(a, st), z, 0, least);
  }

  /** What a search has found lies within the text. */
  lemma {:induction false} CallInside(a: Auto, st: State, z: seq<nat>, least: nat)
    requires st in AtRest(a) && st.anchor
    ensures var o := PmatchCall(a, st, z, least);
            o.c in Running(a) && (o.found ==> o.len >= least && o.beg + o.len < |z|)
  {
    BeginReady(a, st);
    SearchReady(a, Begin(a, st), z, 0, least);
    SearchInside(a, Begin(a, st), z, 0, least);
  }

  lemma {:induction false} SearchInside(a: Auto, c: Config, z: seq<nat>, i: nat, least: nat)
    ensures var f := Search(a, c, z, i, least); f.found ==> f.beg + f.len < |z|
    decreases |z| - i
  {
    if i + least < |z| {
      LastHitBound(a, c, z, i, ScanStop(a, c, z, i, i));
      if ScanLen(a, c, z, i) < least { SearchInside(a, NextStart(ScanEnd(a, c, z, i)), z, i + 1, least); }
    }
  }
}
