/**
 The table of states that the automaton builds lazily (cmd/awk/b.c: posns, out, gototab, curstat), and what
 each way of extending it does to its invariant.  Nothing here depends on where the positions come from.
 */
module AwkCache {
  import opened AwkCompile

  const NSTATES := 32
  const NCHARS := 129
  /** The column of `^`; the columns below it are characters and the terminating 0. */
  const HATCOL := 128

  /** Positions 0 to `accept`, the successor of a set of positions on a column, and the set state 2 starts from. */
  datatype Auto = Auto(accept: nat, succ: (set<nat>, nat) -> set<nat>, starts: set<nat>)

  ghost predicate Within(a: Auto, s: set<nat>) {
    forall x :: x in s ==> x <= a.accept
  }

  ghost function Init(a: Auto): set<nat> {
    a.succ(a.starts, HATCOL)
  }

  ghost predicate WellMade(a: Auto) {
    && a.accept != 0
    && (forall s, x :: Within(a, s) ==> Within(a, a.succ(s, x)))
    && (forall x :: a.succ({}, x) == {})
    && Within(a, a.starts) && a.starts != {0} && 0 in a.starts && a.starts <= Init(a)
  }

  datatype Cache = Cache(gototab: seq<seq<nat>>, posns: seq<seq<nat>>, out: seq<bool>, curstat: nat)

  function ZeroRow(): (row: seq<nat>)
    ensures |row| == NCHARS && forall x :: 0 <= x < NCHARS ==> row[x] == 0
  {
    seq(NCHARS, _ => 0)
  }

  function Members(p: seq<nat>): set<nat> {
    set x | x in p
  }

  /** A state: positions, largest first. */
  ghost predicate IsState(a: Auto, p: seq<nat>) {
    Within(a, Members(p)) && p == Descending(Members(p), a.accept + 1)
  }

  ghost predicate Shaped(k: Cache) {
    && |k.gototab| == NSTATES && |k.posns| == NSTATES && |k.out| == NSTATES
    && (forall i :: 0 <= i < NSTATES ==> |k.gototab[i]| == NCHARS)
    && 2 <= k.curstat < NSTATES
    && k.posns[1] == [] && !k.out[1]
    && (forall x :: 0 <= x < NCHARS ==> k.gototab[1][x] <= 1)
  }

  /** Live states are distinct, and `out` marks those that hold the accept position. */
  ghost predicate GoodStates(a: Auto, k: Cache)
    requires Shaped(k)
  {
    && (forall i :: 1 <= i <= k.curstat ==> IsState(a, k.posns[i]))
    && (forall i, j :: 1 <= i < j <= k.curstat ==> k.posns[i] != k.posns[j])
    && (forall i :: 1 <= i <= k.curstat ==> (k.out[i] <==> a.accept in Members(k.posns[i])))
  }

  /** Entries of live rows name live rows. */
  ghost predicate InRange(k: Cache)
    requires Shaped(k)
  {
    forall i, x :: 1 <= i <= k.curstat && 0 <= x < NCHARS ==> k.gototab[i][x] <= k.curstat
  }

  ghost predicate Usable(a: Auto, k: Cache) {
    Shaped(k) && GoodStates(a, k) && InRange(k)
  }

  ghost function Successor(a: Auto, p: seq<nat>, x: nat): set<nat> {
    a.succ(Members(p), x)
  }

  ghost predicate ExactEntry(a: Auto, k: Cache, i: nat, x: nat)
    requires Usable(a, k) && 1 <= i <= k.curstat && x < NCHARS
  {
    k.gototab[i][x] != 0 ==> Members(k.posns[k.gototab[i][x]]) == Successor(a, k.posns[i], x)
  }

  /** Each nonzero entry of a live row names the exact successor; the column of HAT is used only by makeinit. */
  ghost predicate Exact(a: Auto, k: Cache)
    requires Usable(a, k)
  {
    forall i, x: nat :: 1 <= i <= k.curstat && x < HATCOL ==> ExactEntry(a, k, i, x)
  }

  // ----- states and sets -----

  lemma {:induction false} StateOfSet(a: Auto, s: set<nat>)
    requires Within(a, s)
    ensures Members(Descending(s, a.accept + 1)) == s
    ensures IsState(a, Descending(s, a.accept + 1))
  {
    DescendingMembers(s, a.accept + 1);
    assert forall x: nat :: x in Members(Descending(s, a.accept + 1)) <==> x in s;
  }

  lemma {:induction false} SameSetSameState(a: Auto, p: seq<nat>, q: seq<nat>)
    requires IsState(a, p) && IsState(a, q) && Members(p) == Members(q)
    ensures p == q
  {
  }

  lemma {:induction false} EmptyState(a: Auto)
    ensures IsState(a, []) && Members([]) == {}
  {
    var none: seq<nat> := [];
    assert Members(none) == {};
    DescendingNothing(a.accept + 1);
  }

  lemma {:induction false} DescendingNothing(n: nat)
    ensures Descending({}, n) == []
  {
    if n != 0 { DescendingNothing(n - 1); }
  }

  /** The accept position, when it is there, comes first. */
  lemma {:induction false} AcceptFirst(a: Auto, s: set<nat>)
    requires Within(a, s) && s != {}
    ensures var p := Descending(s, a.accept + 1); p != [] && (p[0] == a.accept <==> a.accept in s)
  {
    var p := Descending(s, a.accept + 1);
    DescendingMembers(s, a.accept + 1);
    var x :| x in s;
    assert x in p;
    if a.accept in s {
      var i :| 0 <= i < |p| && p[i] == a.accept;
      assert p[0] in p;
    }
  }

  // ----- ways of extending the table -----

  function SetEntry(k: Cache, s: nat, x: nat, target: nat): (k': Cache)
    requires |k.gototab| == NSTATES && s < NSTATES && |k.gototab[s]| == NCHARS && x < NCHARS
  {
    var row: seq<nat> := k.gototab[s][x := target];
    k.(gototab := k.gototab[s := row])
  }

  /** A new live row `row` for state `p`, with no entries yet; rows above it are dead. */
  function NewRow(k: Cache, row: nat, p: seq<nat>, accepting: bool): (k': Cache)
    requires |k.gototab| == NSTATES && |k.posns| == NSTATES && |k.out| == NSTATES && row < NSTATES
  {
    Cache(k.gototab[row := ZeroRow()], k.posns[row := p], k.out[row := accepting], row)
  }

  ghost predicate IsNew(k: Cache, p: seq<nat>)
    requires Shaped(k)
  {
    forall i :: 1 <= i <= k.curstat ==> k.posns[i] != p
  }

  /**
   The table after the new state `p` was reached from row `s` on `x`: it takes the next row, or row 2 if there is none.
   */
  function Extension(k: Cache, s: nat, x: nat, p: seq<nat>, accepting: bool): Cache
    requires Shaped(k) && s < NSTATES && x < NCHARS
  {
    var row := if k.curstat + 1 < NSTATES then k.curstat + 1 else 2;
    SetEntry(NewRow(k, row, p, accepting), s, x, row)
  }

  /** The first live row from `i` on that holds `p`, or the row behind the live ones. */
  function FirstRow(k: Cache, p: seq<nat>, i: nat): (r: nat)
    requires |k.posns| == NSTATES && k.curstat < NSTATES && i <= k.curstat + 1
    ensures i <= r <= k.curstat + 1 && (r <= k.curstat ==> k.posns[r] == p)
    decreases k.curstat + 1 - i
  {
    if i > k.curstat || k.posns[i] == p then i else FirstRow(k, p, i + 1)
  }

  lemma {:induction false} FirstRowSkips(k: Cache, p: seq<nat>, i: nat, j: nat)
    requires |k.posns| == NSTATES && k.curstat < NSTATES && i <= j <= k.curstat + 1
    requires forall h :: i <= h < j ==> k.posns[h] != p
    ensures FirstRow(k, p, i) == FirstRow(k, p, j)
    decreases j - i
  {
    if i < j { FirstRowSkips(k, p, i + 1, j); }
  }

  lemma {:induction false} FirstRowIsNew(k: Cache, p: seq<nat>)
    requires Shaped(k)
    ensures FirstRow(k, p, 1) > k.curstat <==> IsNew(k, p)
  {
    if IsNew(k, p) {
      FirstRowSkips(k, p, 1, k.curstat + 1);
    }
    if FirstRow(k, p, 1) > k.curstat {
      forall i: nat | 1 <= i <= k.curstat ensures k.posns[i] != p { NotHeldBefore(k, p, 1, i); }
    }
  }

  lemma {:induction false} NotHeldBefore(k: Cache, p: seq<nat>, i: nat, j: nat)
    requires |k.posns| == NSTATES && k.curstat < NSTATES && i <= k.curstat + 1 && i <= j < FirstRow(k, p, i)
    ensures k.posns[j] != p
    decreases j - i
  {
    if i < j { NotHeldBefore(k, p, i + 1, j); }
  }

  /** The positions of the state after row `s` on `x`, as tmpset. */
  ghost function Target(a: Auto, k: Cache, s: nat, x: nat): seq<nat>
    requires |k.posns| == NSTATES && s < NSTATES
  {
    Descending(Successor(a, k.posns[s], x), a.accept + 1)
  }

  /** `cgoto`: the table after row `s` was left on `x`, and the row that was reached. */
  ghost function Goto(a: Auto, k: Cache, s: nat, x: nat): (Cache, nat)
    requires Shaped(k) && s < NSTATES && x < NCHARS
  {
    var p := Target(a, k, s, x);
    var i := FirstRow(k, p, 1);
    if i <= k.curstat then (SetEntry(k, s, x, i), i)
    else
      var k' := Extension(k, s, x, p, a.accept in Members(p));
      (k', k'.curstat)
  }

  /** `cgoto` gives up all rows for the state after row `s` on `x`. */
  ghost predicate Recycles(a: Auto, k: Cache, s: nat, x: nat)
    requires Shaped(k) && s < NSTATES
  {
    IsNew(k, Target(a, k, s, x)) && k.curstat == NSTATES - 1
  }

  /** The one way in which an exact table stops being exact. */
  ghost predicate SpoilsRowTwo(a: Auto, k: Cache, s: nat, x: nat)
    requires Shaped(k) && s < NSTATES
  {
    var p := Target(a, k, s, x);
    Recycles(a, k, s, x) && s == 2 && x < HATCOL && Successor(a, p, x) != Members(p)
  }

  /** The successor was a live state already. */
  lemma {:induction false} FoundKeeps(a: Auto, k: Cache, s: nat, x: nat, i: nat)
    requires WellMade(a) && Usable(a, k) && 1 <= s <= k.curstat && x < NCHARS && 1 <= i <= k.curstat
    requires Members(k.posns[i]) == Successor(a, k.posns[s], x)
    ensures Usable(a, SetEntry(k, s, x, i))
    ensures Exact(a, k) ==> Exact(a, SetEntry(k, s, x, i))
  {
    var k' := SetEntry(k, s, x, i);
    if s == 1 {
      EmptyState(a);
      SameSetSameState(a, k.posns[i], k.posns[1]);
    }
    if Exact(a, k) {
      forall j, y: nat | 1 <= j <= k'.curstat && y < HATCOL ensures ExactEntry(a, k', j, y) {
        assert ExactEntry(a, k, j, y);
      }
    }
  }

  /** A free row takes the new state `p`. */
  lemma {:induction false} NewRowKeeps(a: Auto, k: Cache, p: seq<nat>)
    requires Usable(a, k) && k.curstat + 1 < NSTATES && IsState(a, p) && IsNew(k, p)
    ensures Usable(a, NewRow(k, k.curstat + 1, p, a.accept in Members(p)))
  {
    var k' := NewRow(k, k.curstat + 1, p, a.accept in Members(p));
    assert Shaped(k');
    forall i: nat | 1 <= i <= k'.curstat
      ensures IsState(a, k'.posns[i]) && (k'.out[i] <==> a.accept in Members(k'.posns[i]))
    {
      if i <= k.curstat { assert k'.posns[i] == k.posns[i] && k'.out[i] == k.out[i]; }
    }
    forall i: nat, j: nat | 1 <= i < j <= k'.curstat ensures k'.posns[i] != k'.posns[j] {
      assert k'.posns[i] == k.posns[i];
      if j <= k.curstat { assert k'.posns[j] == k.posns[j]; }
    }
    forall i: nat, x: nat | 1 <= i <= k'.curstat && x < NCHARS ensures k'.gototab[i][x] <= k'.curstat {
      if i <= k.curstat { assert k'.gototab[i] == k.gototab[i]; }
    }
  }

  lemma {:induction false} NewRowExact(a: Auto, k: Cache, p: seq<nat>)
    requires Usable(a, k) && k.curstat + 1 < NSTATES && Exact(a, k)
    requires Usable(a, NewRow(k, k.curstat + 1, p, a.accept in Members(p)))
    ensures Exact(a, NewRow(k, k.curstat + 1, p, a.accept in Members(p)))
  {
    var k' := NewRow(k, k.curstat + 1, p, a.accept in Members(p));
    forall j, y: nat | 1 <= j <= k'.curstat && y < HATCOL ensures ExactEntry(a, k', j, y) {
      if j <= k.curstat { assert ExactEntry(a, k, j, y); }
    }
  }

  /** There was a free row for the successor `p` of state `s`. */
  lemma {:induction false} AddedKeeps(a: Auto, k: Cache, s: nat, x: nat, p: seq<nat>)
    requires WellMade(a) && Usable(a, k) && k.curstat + 1 < NSTATES && IsState(a, p) && IsNew(k, p)
    requires 1 <= s <= k.curstat && x < NCHARS && Members(p) == Successor(a, k.posns[s], x)
    ensures var k' := SetEntry(NewRow(k, k.curstat + 1, p, a.accept in Members(p)), s, x, k.curstat + 1);
            Usable(a, k') && (Exact(a, k) ==> Exact(a, k'))
  {
    var k0 := NewRow(k, k.curstat + 1, p, a.accept in Members(p));
    NewRowKeeps(a, k, p);
    if Exact(a, k) { NewRowExact(a, k, p); }
    FoundKeeps(a, k0, s, x, k.curstat + 1);
  }

  /** Starting over with the single state `p` gives an exact table, whatever was there before. */
  lemma {:induction false} StartedOver(a: Auto, k: Cache, p: seq<nat>)
    requires WellMade(a) && Shaped(k) && IsState(a, p) && p != []
    ensures Usable(a, NewRow(k, 2, p, a.accept in Members(p)))
    ensures Exact(a, NewRow(k, 2, p, a.accept in Members(p)))
  {
    var k' := NewRow(k, 2, p, a.accept in Members(p));
    EmptyState(a);
    assert Usable(a, k');
    forall j, y: nat | 1 <= j <= k'.curstat && y < HATCOL ensures ExactEntry(a, k', j, y) {
      if j == 1 { assert k'.gototab[1][y] <= 1; }
    }
  }

  /**
   The table was full: all rows but the first are given up and row 2 becomes the successor `p` of state `s`.
   The entry that is then written for `s` is harmless unless `s` is row 2 itself, whose row by then belongs
   to `p`: the table stays exact if and only if `p` happens to be its own successor.
   */
  lemma {:induction false} RecycledKeeps(a: Auto, k: Cache, s: nat, x: nat, p: seq<nat>)
    requires WellMade(a) && Usable(a, k) && IsState(a, p) && IsNew(k, p)
    requires 1 <= s <= k.curstat && x < NCHARS && Members(p) == Successor(a, k.posns[s], x)
    ensures var k' := SetEntry(NewRow(k, 2, p, a.accept in Members(p)), s, x, 2);
            && Usable(a, k')
            && (Exact(a, k') <==> s != 2 || x >= HATCOL || Successor(a, p, x) == Members(p))
  {
    var k0 := NewRow(k, 2, p, a.accept in Members(p));
    var k' := SetEntry(k0, s, x, 2);
    assert p != k.posns[1];
    StartedOver(a, k, p);
    assert s != 1 by {
      EmptyState(a);
      if Members(p) == {} { SameSetSameState(a, p, []); }
    }
    assert Usable(a, k');
    forall j, y: nat | 1 <= j <= 2 && y < HATCOL && (j != s || y != x) ensures ExactEntry(a, k', j, y) {
      assert ExactEntry(a, k0, j, y);
    }
    if s == 2 && x < HATCOL {
      assert ExactEntry(a, k', 2, x) <==> Members(p) == Successor(a, p, x);
    }
  }

  lemma {:induction false} ExtensionKeeps(a: Auto, k: Cache, s: nat, x: nat, p: seq<nat>)
    requires WellMade(a) && Usable(a, k) && IsState(a, p) && IsNew(k, p)
    requires 1 <= s <= k.curstat && x < NCHARS && p == Target(a, k, s, x) && Members(p) == Successor(a, k.posns[s], x)
    ensures Usable(a, Extension(k, s, x, p, a.accept in Members(p)))
    ensures Exact(a, k) ==> (Exact(a, Extension(k, s, x, p, a.accept in Members(p))) <==> !SpoilsRowTwo(a, k, s, x))
  {
    if k.curstat + 1 < NSTATES {
      AddedKeeps(a, k, s, x, p);
    } else {
      RecycledKeeps(a, k, s, x, p);
    }
  }

  /** Every call of `cgoto` reaches the exact successor and keeps the table usable, and exact unless it spoils row 2. */
  lemma {:induction false} GotoKeeps(a: Auto, k: Cache, s: nat, x: nat)
    requires WellMade(a) && Usable(a, k) && 1 <= s <= k.curstat && x < NCHARS
    ensures var (k', r) := Goto(a, k, s, x);
            && Usable(a, k') && 1 <= r <= k'.curstat && Members(k'.posns[r]) == Successor(a, k.posns[s], x)
            && (Exact(a, k) ==> (Exact(a, k') <==> !SpoilsRowTwo(a, k, s, x)))
  {
    var p := Target(a, k, s, x);
    StateOfSet(a, Successor(a, k.posns[s], x));
    FirstRowIsNew(k, p);
    var i := FirstRow(k, p, 1);
    if i <= k.curstat {
      FoundKeeps(a, k, s, x, i);
    } else {
      ExtensionKeeps(a, k, s, x, p);
    }
  }

  // ----- tables just set up -----

  /** Rows 2 and up have no entries yet but in the column of HAT. */
  ghost predicate Blank(k: Cache)
    requires Shaped(k)
  {
    && (forall i, x :: 2 <= i <= k.curstat && 0 <= x < HATCOL ==> k.gototab[i][x] == 0)
    && (forall i :: 2 <= i <= k.curstat ==> k.gototab[i][HATCOL] <= k.curstat)
  }

  lemma {:induction false} BlankIsExact(a: Auto, k: Cache)
    requires WellMade(a) && Shaped(k) && GoodStates(a, k) && Blank(k)
    ensures Usable(a, k) && Exact(a, k)
  {
    forall i, x | 1 <= i <= k.curstat && 0 <= x < NCHARS ensures k.gototab[i][x] <= k.curstat {
      if i != 1 && x < HATCOL { assert k.gototab[i][x] == 0; }
    }
    EmptyState(a);
    forall j, y: nat | 1 <= j <= k.curstat && y < HATCOL ensures ExactEntry(a, k, j, y) {
      if j == 1 { assert k.gototab[1][y] <= 1; }
    }
  }

  /** The row of the initial state: row 2 unless taking `^` first makes a difference. */
  ghost function InitRow(a: Auto): nat {
    if Init(a) == a.starts then 2 else 3
  }

  /** The first transition, on `^`, finds or makes the row of the initial state. */
  lemma {:induction false} InitRowFound(a: Auto, k: Cache)
    requires WellMade(a) && Usable(a, k) && Blank(k) && k.curstat == 2 && Members(k.posns[2]) == a.starts
    ensures var (k', r) := Goto(a, k, 2, HATCOL);
            && r == k'.curstat == InitRow(a) && Members(k'.posns[2]) == a.starts && Blank(k') && Usable(a, k')
            && Members(k'.posns[r]) == Init(a)
  {
    var p := Target(a, k, 2, HATCOL);
    GotoKeeps(a, k, 2, HATCOL);
    StateOfSet(a, Init(a));
    FirstRowIsNew(k, p);
    EmptyState(a);
    assert 0 in Members(p);
    if Init(a) == a.starts {
      SameSetSameState(a, p, k.posns[2]);
      FirstRowSkips(k, p, 1, 2);
    } else {
      assert p != k.posns[2] && p != k.posns[1];
      assert IsNew(k, p);
    }
  }

  /** A table just set up: the start state in row 2 and the initial state in its row. */
  ghost predicate Initial(a: Auto, anchor: bool, k: Cache) {
    && Usable(a, k) && Exact(a, k) && k.curstat == InitRow(a)
    && Members(k.posns[2]) == (if anchor then a.starts - {0} else a.starts)
    && Members(k.posns[k.curstat]) == (if anchor then Init(a) - {0} else Init(a))
    && (anchor ==> k.posns[0] == k.posns[2] && k.out[0] == k.out[2])
  }

  lemma {:induction false} InitialSearch(a: Auto, k: Cache)
    requires WellMade(a) && Usable(a, k) && Blank(k) && k.curstat == InitRow(a)
    requires Members(k.posns[2]) == a.starts && Members(k.posns[k.curstat]) == Init(a)
    ensures Initial(a, false, k)
  {
    BlankIsExact(a, k);
  }

  /** The table of the anchored automaton: both start states without their last position, row 2 saved in row 0. */
  function Anchored(k: Cache): Cache
    requires Shaped(k) && 2 <= k.curstat <= 3 && k.posns[2] != [] && k.posns[k.curstat] != []
  {
    var starts := k.posns[2][..|k.posns[2]| - 1];
    var init := k.posns[k.curstat][..|k.posns[k.curstat]| - 1];
    k.(posns := k.posns[0 := starts][2 := starts][k.curstat := init], out := k.out[0 := k.out[2]])
  }

  lemma {:induction false} DroppedZero(a: Auto, p: seq<nat>)
    requires IsState(a, p) && 0 in Members(p)
    ensures |p| >= 1 && IsState(a, p[..|p| - 1]) && Members(p[..|p| - 1]) == Members(p) - {0}
  {
    DescendingDropsZero(Members(p), a.accept + 1);
    StateOfSet(a, Members(p) - {0});
  }

  lemma {:induction false} AnchoredDistinct(a: Auto, p: seq<nat>, q: seq<nat>)
    requires IsState(a, p) && IsState(a, q) && 0 in Members(p) && 0 in Members(q) && p != q
    ensures |p| >= 1 && |q| >= 1 && p[..|p| - 1] != q[..|q| - 1]
  {
    DroppedZero(a, p);
    DroppedZero(a, q);
    if p[..|p| - 1] == q[..|q| - 1] {
      assert Members(p) == Members(p) - {0} + {0} == Members(q) - {0} + {0} == Members(q);
      SameSetSameState(a, p, q);
      assert false;
    }
  }

  lemma {:induction false} AnchoredStates(a: Auto, k: Cache)
    requires WellMade(a) && Usable(a, k) && 2 <= k.curstat <= 3 && k.posns[2] != [] && k.posns[k.curstat] != []
    requires 0 in Members(k.posns[2]) && 0 in Members(k.posns[k.curstat])
    requires Members(Anchored(k).posns[2]) != {} && Members(Anchored(k).posns[k.curstat]) != {}
    ensures GoodStates(a, Anchored(k))
  {
    DroppedZero(a, k.posns[2]);
    DroppedZero(a, k.posns[k.curstat]);
    if k.curstat == 3 { AnchoredDistinct(a, k.posns[2], k.posns[3]); }
  }

  lemma {:induction false} InitialAnchored(a: Auto, k: Cache)
    requires WellMade(a) && Usable(a, k) && Blank(k) && k.curstat == InitRow(a)
    requires Members(k.posns[2]) == a.starts && Members(k.posns[k.curstat]) == Init(a)
    ensures k.posns[2] != [] && k.posns[k.curstat] != [] && Initial(a, true, Anchored(k))
  {
    DroppedZero(a, k.posns[2]);
    DroppedZero(a, k.posns[k.curstat]);
    var k' := Anchored(k);
    if k.curstat == 3 { AnchoredDistinct(a, k.posns[2], k.posns[3]); }
    var q :| q in a.starts && q != 0;
    assert q in Members(k'.posns[2]) && q in Members(k'.posns[k.curstat]);
    AnchoredStates(a, k);
    BlankIsExact(a, k');
  }

  // ----- starting over -----

  /** The table with nothing but the start state, in row 2. */
  ghost function StartTable(a: Auto, k: Cache): Cache
    requires Shaped(k)
  {
    NewRow(k, 2, Descending(a.starts, a.accept + 1), a.accept in a.starts)
  }

  lemma {:induction false} StartTableKeeps(a: Auto, k: Cache)
    requires WellMade(a) && Shaped(k)
    ensures var k' := StartTable(a, k);
            Usable(a, k') && Exact(a, k') && Blank(k') && k'.curstat == 2 && Members(k'.posns[2]) == a.starts
  {
    StateOfSet(a, a.starts);
    StartedOver(a, k, Descending(a.starts, a.accept + 1));
  }

  /** `makeinit`: the table it leaves, whatever was there before. */
  ghost function Remade(a: Auto, anchor: bool, k: Cache): Cache
    requires WellMade(a) && Shaped(k)
  {
    StartTableKeeps(a, k);
    InitRowFound(a, StartTable(a, k));
    var k' := Goto(a, StartTable(a, k), 2, HATCOL).0;
    InitialAnchored(a, k');
    if anchor then Anchored(k') else k'
  }

  lemma {:induction false} RemadeIsInitial(a: Auto, anchor: bool, k: Cache)
    requires WellMade(a) && Shaped(k)
    ensures Initial(a, anchor, Remade(a, anchor, k))
  {
    StartTableKeeps(a, k);
    InitRowFound(a, StartTable(a, k));
    var k' := Goto(a, StartTable(a, k), 2, HATCOL).0;
    InitialAnchored(a, k');
    InitialSearch(a, k');
  }

  /** What `pmatch` makes of a recycled table before it goes to the next start: the saved start state alone. */
  function Restarted(k: Cache): Cache
    requires Shaped(k)
  {
    NewRow(k, 2, k.posns[0], k.out[0])
  }
}
