/**
 The automaton of an expression and the object that builds its table as it goes (cmd/awk/b.c: mkdfa, makeinit,
 cgoto).  Every method leaves exactly the table that the functions of AwkCache compute.
 */
module AwkAutomaton {
  import opened AwkLanguage
  import opened AwkPositions
  import opened AwkPattern
  import opened AwkMeaning
  import opened AwkCompile
  import opened AwkCache
  import opened AwkRun

  /** What the rows say about the successor of a position set. */
  ghost function RowStep(rows: seq<Row>, s: set<nat>, x: nat): set<nat> {
    set p, q | p in s && p < |rows| && TakesSymbol(rows[p].ltype, x) && q in rows[p].lfollow :: q
  }

  lemma {:induction false} RowStepExtends(rows: seq<Row>, p: seq<nat>, i: nat, x: nat)
    requires i < |p| && p[i] < |rows|
    ensures RowStep(rows, Members(p[..i + 1]), x) ==
            RowStep(rows, Members(p[..i]), x)
              + (if TakesSymbol(rows[p[i]].ltype, x) then Members(rows[p[i]].lfollow) else {})
  {
    assert forall y :: y in p[..i + 1] <==> y in p[..i] || y == p[i];
  }

  /** The automaton of expression `re`. */
  ghost function AutoOf(re: Tree): Auto {
    Auto(Accept(re),
         (s, x) => if s <= Positions(Root(re)) then Step(Root(re), s, Sym(x)) else {},
         SearchStarts(re))
  }

  lemma {:induction false} AutoClosed(re: Tree)
    ensures forall s: set<nat> :: Within(AutoOf(re), s) <==> s <= Positions(Root(re))
    ensures forall s, x :: Within(AutoOf(re), s) ==> Within(AutoOf(re), AutoOf(re).succ(s, x))
  {
    RootShape(re);
    forall s: set<nat>, x: nat | Within(AutoOf(re), s) ensures Within(AutoOf(re), AutoOf(re).succ(s, x)) {
      assert AutoOf(re).succ(s, x) <= Positions(Root(re));
    }
  }

  lemma {:induction false} AutoInit(re: Tree)
    requires NoFinal(re)
    ensures Init(AutoOf(re)) == SearchInit(re) && SearchStarts(re) <= SearchInit(re)
    ensures 0 in SearchStarts(re) && SearchStarts(re) != {0}
  {
    InitSets(re);
    StartsNonempty(re);
    var q :| q in Starts(re);
    assert q in AnchoredStarts(re);
  }

  lemma {:induction false} AutoWellMade(re: Tree)
    requires NoFinal(re)
    ensures WellMade(AutoOf(re))
  {
    AutoClosed(re);
    AutoInit(re);
    assert forall x :: AutoOf(re).succ({}, x) == {};
  }

  /** An expression in which no leaf takes `^`. */
  predicate NoHat(t: Tree) {
    match t
    case Leaf(kind, _) => !TakesSymbol(kind, HAT)
    case Star(body) => NoHat(body)
    case Plus(body) => NoHat(body)
    case Quest(body) => NoHat(body)
    case Cat(left, right) => NoHat(left) && NoHat(right)
    case Or(left, right) => NoHat(left) && NoHat(right)
  }

  lemma {:induction false} NoHatAt(t: Tree, base: nat, p: nat)
    requires NoHat(t) && p in Positions(Number(t, base))
    ensures !TakesSymbol(KindAt(Number(t, base), p), HAT)
    decreases t
  {
    match t
    case Leaf(_, _) =>
    case Star(body) => NoHatAt(body, base, p);
    case Plus(body) => NoHatAt(body, base, p);
    case Quest(body) => NoHatAt(body, base, p);
    case Cat(left, right) =>
      if p in Positions(Number(left, base)) { NoHatAt(left, base, p); } else { NoHatAt(right, base + Size(left), p); }
    case Or(left, right) =>
      if p in Positions(Number(left, base)) { NoHatAt(left, base, p); } else { NoHatAt(right, base + Size(left), p); }
  }

  lemma {:induction false} StartTakesNoHat(re: Tree, p: nat)
    requires NoFinal(re) && NoHat(re) && p in Positions(Root(re)) && p != 0
    ensures !TakesSymbol(KindAt(Root(re), p), HAT)
  {
    hide Root;
    RootShape(re);
    KindsOfRoot(re);
    NumberPositions(re, 1);
    var root := Root(re);
    if p != Accept(re) {
      NoHatAt(re, 1, p);
      assert p in Positions(root.left) && p in Positions(Number(re, 1));
      assert KindAt(root, p) == KindAt(root.left, p) == KindAt(Number(re, 1), p);
    }
  }

  /** For such an expression taking `^` first makes no difference. */
  lemma {:induction false} InitRowWithoutHat(re: Tree)
    requires NoFinal(re) && NoHat(re)
    ensures InitRow(AutoOf(re)) == 2
  {
    hide Root, KindAt, Starts;
    InitSets(re);
    AutoInit(re);
    var root, some := Root(re), AnchoredStarts(re);
    forall p | p in some ensures !Takes(KindAt(root, p), p, Sym(HAT)) {
      StartTakesNoHat(re, p);
    }
    assert Step(root, some, Sym(HAT)) == {};
  }

  /** Rows filled by `cfoll` give the successors of the automaton. */
  lemma {:induction false} RowsGive(re: Tree, rows: seq<Row>, s: set<nat>, x: nat)
    requires |rows| == Accept(re) + 1 && s <= Positions(Root(re))
    requires forall p: nat :: p in Positions(Root(re)) && p < |rows| ==> rows[p] == RowOf(Root(re), p, Accept(re))
    ensures RowStep(rows, s, x) == Step(Root(re), s, Sym(x))
  {
    RootShape(re);
    forall p: nat | p in Positions(Root(re))
      ensures p < |rows| && Members(rows[p].lfollow) == LeafFollow(Root(re), p) && rows[p].ltype == KindAt(Root(re), p)
    {
      LeafFollowInside(Root(re), p);
      DescendingMembers(LeafFollow(Root(re), p), Accept(re) + 1);
      assert forall q: nat :: q in Members(rows[p].lfollow) <==> q in LeafFollow(Root(re), p);
    }
    assert forall p: nat, q: nat :: p in s ==> (q in rows[p].lfollow <==> q in Members(rows[p].lfollow));
  }

  /** The rows give the successors and the start of automaton `a`. */
  ghost predicate Belong(rows: seq<Row>, a: Auto) {
    && |rows| == a.accept + 1
    && (forall p, q: nat :: 0 <= p < |rows| && q in rows[p].lfollow ==> q < |rows|)
    && rows[0].lfollow == Descending(a.starts, |rows|)
    && (forall s, x {:trigger RowStep(rows, s, x)} :: Within(a, s) ==> a.succ(s, x) == RowStep(rows, s, x))
  }

  lemma {:induction false} RowsBelong(re: Tree, rows: seq<Row>)
    requires |rows| == Accept(re) + 1
    requires forall p: nat :: p in Positions(Root(re)) && p < |rows| ==> rows[p] == RowOf(Root(re), p, Accept(re))
    ensures Belong(rows, AutoOf(re))
  {
    RootShape(re);
    forall p, q: nat | 0 <= p < |rows| && q in rows[p].lfollow ensures q < |rows| {
      DescendingMembers(LeafFollow(Root(re), p), Accept(re) + 1);
    }
    StartsIsFollow(re);
    forall s: set<nat>, x: nat | Within(AutoOf(re), s) ensures AutoOf(re).succ(s, x) == RowStep(rows, s, x) {
      assert s <= Positions(Root(re));
      RowsGive(re, rows, s, x);
    }
  }

  /** `cfoll` on the entered tree of `mkdfa`. */
  method FollowRows(p1: Node, st: Statics, ghost re: Tree) returns (rows: array<Row>)
    requires p1.Valid() && p1.Entered(0) && p1.shape == Searching(re) && NoFinal(re)
    requires st.poscnt == Size(p1.shape) < MAXLIN && st.setvec.Length == MAXLIN
    modifies st`setcnt, st`marked, st`limit, st.setvec
    ensures fresh(rows) && rows.Length == st.poscnt == Accept(re) + 1
    ensures forall p: nat :: p in Positions(Root(re)) && p < rows.Length ==> rows[p] == RowOf(Root(re), p, Accept(re))
  {
    RootShape(re);
    RootCovered(re);
    NumberPositions(Searching(re), 0);
    EnteredStands(p1, 0, p1.repr);
    EnteredBelow(p1, 0);
    var accept := st.poscnt - 1;
    assert accept == Accept(re);
    rows := new Row[st.poscnt](_ => Row(All, []));
    assert Sits(p1, Root(re), Top, p1.repr);
    st.Cfoll(rows, accept, p1, Root(re), Top, p1.repr, Root(re));
  }

  class Fa {
    ghost const auto: Auto
    const anchor: bool
    const accept: nat
    const rows: array<Row>
    const statics: Statics

    var gototab: seq<seq<nat>>
    var posns: seq<seq<nat>>
    var out: seq<bool>
    var initstat: nat
    var curstat: nat
    var reset: bool

    ghost function Table(): Cache
      reads this
    {
      Cache(gototab, posns, out, curstat)
    }

    /** What `mkdfa` fixes once and for all. */
    ghost predicate Compiled()
      reads rows
    {
      && WellMade(auto) && accept == auto.accept
      && accept < MAXLIN - 1 && statics.setvec.Length == MAXLIN && Belong(rows[..], auto)
    }

    ghost function Kept(): State
      reads this
    {
      State(anchor, Table(), initstat, reset)
    }

    ghost predicate Valid()
      reads this, rows
    {
      Compiled() && Kept() in AtRest(auto)
    }

    constructor (ghost a: Auto, rw: array<Row>, st: Statics, anchor: bool)
      requires WellMade(a) && Belong(rw[..], a) && rw.Length < MAXLIN && st.setvec.Length == MAXLIN
      modifies st`setcnt, st`marked, st`limit, st.setvec
      ensures Valid() && auto == a && this.anchor == anchor && rows == rw && statics == st
      ensures !reset && initstat == InitRow(auto) && Initial(auto, anchor, Table())
    {
      auto, this.anchor, accept, rows, statics := a, anchor, rw.Length - 1, rw, st;
      gototab := seq(NSTATES, _ => ZeroRow());
      posns := seq(NSTATES, _ => []);
      out := seq(NSTATES, _ => false);
      initstat, curstat, reset := 2, 2, false;
      new;
      ghost var k := Table();
      initstat := Makeinit();
      RemadeIsInitial(a, anchor, k);
    }

    /** The positions of the state after state `p` on `c`, as tmpset. */
    method Successors(p: seq<nat>, c: nat) returns (tmpset: seq<nat>)
      requires Compiled() && IsState(auto, p)
      modifies statics`setcnt, statics`marked, statics`limit, statics.setvec
      ensures tmpset == Descending(Successor(auto, p, c), accept + 1)
      ensures statics.setvec[accept] == if accept in Successor(auto, p, c) then 1 else 0
    {
      statics.Clear(accept);
      for i := 0 to |p|
        invariant statics.Counted() && statics.limit == accept + 1
        invariant statics.marked == RowStep(rows[..], Members(p[..i]), c)
      {
        assert p[i] in Members(p);
        RowStepExtends(rows[..], p, i, c);
        MarkFollow(p[i], c);
      }
      assert p[..|p|] == p;
      tmpset := statics.Collect(accept);
    }

    /** Marks the follow set of leaf `p` if the leaf takes `c`. */
    method MarkFollow(p: nat, c: nat)
      requires p < rows.Length && statics.Counted() && (forall q :: q in rows[p].lfollow ==> q < statics.limit)
      modifies statics`setcnt, statics`marked, statics.setvec
      ensures statics.Counted()
      ensures statics.marked == old(statics.marked) +
              (if TakesSymbol(rows[p].ltype, c) then Members(rows[p].lfollow) else {})
    {
      if TakesSymbol(rows[p].ltype, c) {
        statics.MarkAll(rows[p].lfollow);
      }
    }

    /** The first live row that holds `tmpset`, or the row behind the live ones. */
    method FindState(tmpset: seq<nat>) returns (i: nat)
      requires Shaped(Table())
      ensures i == FirstRow(Table(), tmpset, 1)
    {
      i := 1;
      while i <= curstat && posns[i] != tmpset
        invariant 1 <= i <= curstat + 1
        invariant FirstRow(Table(), tmpset, i) == FirstRow(Table(), tmpset, 1)
      {
        i := i + 1;
      }
    }

    /** The state after state `s` on `c`, which becomes a live state if it is not one. */
    method Cgoto(s: nat, c: nat) returns (r: nat)
      requires Compiled() && Usable(auto, Table()) && 1 <= s <= curstat && c < NCHARS
      modifies this`gototab, this`posns, this`out, this`curstat, this`reset
      modifies statics`setcnt, statics`marked, statics`limit, statics.setvec
      ensures (Table(), r) == Goto(auto, old(Table()), s, c)
      ensures reset == (old(reset) || Recycles(auto, old(Table()), s, c))
    {
      var tmpset := Successors(posns[s], c);
      StateOfSet(auto, Successor(auto, posns[s], c));
      FirstRowIsNew(Table(), tmpset);
      var i := FindState(tmpset);
      if i <= curstat {
        var row: seq<nat> := gototab[s][c := i];
        gototab := gototab[s := row];
        r := i;
      } else {
        r := AddState(s, c, tmpset);
      }
    }

    method AddState(s: nat, c: nat, tmpset: seq<nat>) returns (r: nat)
      requires Compiled() && Shaped(Table()) && 1 <= s <= curstat && c < NCHARS
      requires statics.setvec[accept] == if accept in Members(tmpset) then 1 else 0
      modifies this`gototab, this`posns, this`out, this`curstat, this`reset
      ensures Table() == Extension(old(Table()), s, c, tmpset, auto.accept in Members(tmpset)) && r == curstat
      ensures reset == (old(reset) || old(curstat) == NSTATES - 1)
    {
      if curstat >= NSTATES - 1 {
        curstat := 2;
        reset := true;
      } else {
        curstat := curstat + 1;
      }
      gototab := gototab[curstat := ZeroRow()];
      posns := posns[curstat := tmpset];
      var row: seq<nat> := gototab[s][c := curstat];
      gototab := gototab[s := row];
      out := out[curstat := statics.setvec[accept] != 0];
      r := curstat;
    }

    method StartSearch()
      requires Compiled() && Shaped(Table())
      modifies this`gototab, this`posns, this`out, this`curstat, this`reset
      ensures Table() == StartTable(auto, old(Table())) && !reset
    {
      StateOfSet(auto, auto.starts);
      AcceptFirst(auto, auto.starts);
      curstat := 2;
      reset := false;
      posns := posns[2 := rows[0].lfollow];
      out := out[2 := posns[2][0] == accept];
      gototab := gototab[2 := ZeroRow()];
    }

    /** The anchored automaton does not skip: position 0 is left out of its start states. */
    method DropPositionZero()
      requires Shaped(Table()) && 2 <= curstat <= 3 && posns[2] != [] && posns[curstat] != []
      modifies this`posns, this`out
      ensures Table() == Anchored(old(Table()))
    {
      posns := posns[2 := posns[2][..|posns[2]| - 1]];
      posns := posns[0 := posns[2]];
      out := out[0 := out[2]];
      if curstat != 2 {
        posns := posns[curstat := posns[curstat][..|posns[curstat]| - 1]];
      }
    }

    /** Sets up the start states and returns the initial one. */
    method Makeinit() returns (r: nat)
      requires Compiled() && Shaped(Table())
      modifies this`gototab, this`posns, this`out, this`curstat, this`reset
      modifies statics`setcnt, statics`marked, statics`limit, statics.setvec
      ensures Table() == Remade(auto, anchor, old(Table())) && !reset && r == curstat
    {
      StartTableKeeps(auto, Table());
      InitRowFound(auto, StartTable(auto, Table()));
      StartSearch();
      ghost var k := Table();
      var first := Cgoto(2, HATCOL);
      curstat := first;
      InitialAnchored(auto, Table());
      if anchor {
        DropPositionZero();
      }
      r := curstat;
    }
  }

  /** `mkdfa`, from the parsed expression on. */
  method Mkdfa(p: Node, anchor: bool) returns (f: Fa)
    requires p.Valid() && NoFinal(p.shape) && Size(p.shape) + 2 < MAXLIN
    modifies p.repr
    ensures f.Valid() && f.auto == AutoOf(p.shape) && f.anchor == anchor
    ensures !f.reset && f.initstat == InitRow(f.auto) && Initial(f.auto, anchor, f.Table())
    ensures fresh(f) && fresh(f.rows) && fresh(f.statics) && fresh(f.statics.setvec)
  {
    var p1, st := SearchTree(p);
    var rows := FollowRows(p1, st, p.shape);
    assert Belong(rows[..], AutoOf(p.shape)) by { RowsBelong(p.shape, rows[..]); }
    assert WellMade(AutoOf(p.shape)) by { AutoWellMade(p.shape); }
    f := new Fa(AutoOf(p.shape), rows, st, anchor);
  }
}
