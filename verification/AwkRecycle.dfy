/**
 Runs in which the table overflows (cmd/awk/b.c: cgoto, match, pmatch), on expressions of the form `xy|aaa...a`
 with thirty `a`s or more: one in which `match` misses a match because row 2 was recycled, and one after which
 `pmatch` has lost `^`.
 */
module AwkRecycle {
  import opened AwkLanguage
  import opened AwkPositions
  import opened AwkPattern
  import opened AwkMeaning
  import opened AwkCompile
  import opened AwkCache
  import opened AwkRun
  import opened AwkAutomaton
  import opened AwkMatch

  const A := 97
  const B := 98
  const Z := 122

  /** `n + 1` letters `a`. */
  function Letters(n: nat): Tree {
    if n == 0 then Leaf(Char(A), 0) else Cat(Letters(n - 1), Leaf(Char(A), 0))
  }

  /** `xy` or `n + 1` letters `a`. */
  function Either(x: nat, y: nat, n: nat): Tree {
    Or(Cat(Leaf(Char(x), 0), Leaf(Char(y), 0)), Letters(n))
  }

  // ----- the positions of such an expression -----

  lemma {:induction false} LettersShape(n: nat, base: nat)
    ensures Size(Letters(n)) == n + 1 && NoFinal(Letters(n)) && !Nullable(Number(Letters(n), base))
    ensures First(Number(Letters(n), base)) == {base}
  {
    if n != 0 { LettersShape(n - 1, base); }
  }

  lemma {:induction false} LastLetter(before: Tree, p: nat, c: Ctx, q: nat)
    requires p !in Positions(before)
    ensures var t := Cat(before, Leaf(Char(A), p));
            && Positions(t) == Positions(before) + {p} && Locate(t, c, p) == InCatR(before, c)
            && KindAt(t, p) == Char(A)
            && Follow(InCatL(Leaf(Char(A), p), c)) == {p} && Follow(InCatR(before, c)) == Follow(c)
            && (q in Positions(before) ==>
                  && Locate(t, c, q) == Locate(before, InCatL(Leaf(Char(A), p), c), q)
                  && KindAt(t, q) == KindAt(before, q))
  {
  }

  lemma {:induction false} OneLetter(p: nat, c: Ctx)
    ensures var t := Number(Letters(0), p);
            Positions(t) == {p} && Locate(t, c, p) == c && KindAt(t, p) == Char(A)
  {
  }

  lemma {:induction false} MoreLetters(n: nat, base: nat)
    requires n > 0
    ensures Number(Letters(n), base) == Cat(Number(Letters(n - 1), base), Leaf(Char(A), base + n))
  {
    LettersShape(n - 1, base);
  }

  /** Each letter is followed by the next one, the last by what follows them all. */
  lemma {:induction false} LettersFollow(n: nat, base: nat, c: Ctx, p: nat)
    requires base <= p <= base + n
    ensures p in Positions(Number(Letters(n), base)) && KindAt(Number(Letters(n), base), p) == Char(A)
    ensures Follow(Locate(Number(Letters(n), base), c, p)) == if p == base + n then Follow(c) else {p + 1}
  {
    hide Letters, Number, Positions, Locate, KindAt, Follow, Distinct;
    if n == 0 {
      OneLetter(base, c);
    } else {
      var last := Leaf(Char(A), base + n);
      MoreLetters(n, base);
      LettersShape(n - 1, base);
      NumberPositions(Letters(n - 1), base);
      LastLetter(Number(Letters(n - 1), base), base + n, c, p);
      if p < base + n { LettersFollow(n - 1, base, InCatL(last, c), p); }
    }
  }

  /**
   What may come after leaf `p` of the tree of `Either(x, y, n)`: ALL is 0, `x` and `y` are 1 and 2, FINAL is `n + 4`.
   */
  function Leads(n: nat, p: nat): set<nat> {
    if p == 0 then {0, 1, 3} else if p == 2 || p == n + 3 then {n + 4} else if p < n + 3 then {p + 1} else {}
  }

  predicate TakesAt(x: nat, y: nat, n: nat, p: nat, c: nat) {
    if p == 0 then c != 0 else if p == 1 then c == x else if p == 2 then c == y else p < n + 4 && c == A
  }

  /** The pair `xy`, numbered. */
  lemma {:induction false} PairTree(x: nat, y: nat)
    ensures var pair := Cat(Leaf(Char(x), 0), Leaf(Char(y), 0));
            && Size(pair) == 2 && NoFinal(pair) && Number(pair, 1) == Cat(Leaf(Char(x), 1), Leaf(Char(y), 2))
            && First(Number(pair, 1)) == {1} && !Nullable(Number(pair, 1)) && Positions(Number(pair, 1)) == {1, 2}
  {
    var one, two := Leaf(Char(x), 0), Leaf(Char(y), 0);
    assert Size(one) == Size(two) == 1 && NoFinal(one) && NoFinal(two);
    assert Number(one, 1) == Leaf(Char(x), 1) && Number(two, 2) == Leaf(Char(y), 2);
  }

  lemma {:induction false} PairFollow(x: nat, y: nat, c: Ctx)
    ensures var pair := Cat(Leaf(Char(x), 1), Leaf(Char(y), 2));
            && {1, 2} <= Positions(pair) && KindAt(pair, 1) == Char(x) && KindAt(pair, 2) == Char(y)
            && Follow(Locate(pair, c, 1)) == {2} && Follow(Locate(pair, c, 2)) == Follow(c)
  {
    var one, two := Leaf(Char(x), 1), Leaf(Char(y), 2);
    assert Positions(one) == {1} && Positions(two) == {2};
    assert Locate(Cat(one, two), c, 1) == InCatL(two, c) && Locate(Cat(one, two), c, 2) == InCatR(one, c);
    assert First(two) == {2} && !Nullable(two);
  }

  /** The numbered tree. */
  lemma {:induction false} EitherTree(x: nat, y: nat, n: nat)
    ensures NoFinal(Either(x, y, n)) && Accept(Either(x, y, n)) == n + 4 && Size(Either(x, y, n)) == n + 3
    ensures Number(Either(x, y, n), 1) == Or(Cat(Leaf(Char(x), 1), Leaf(Char(y), 2)), Number(Letters(n), 3))
    ensures First(Number(Either(x, y, n), 1)) == {1, 3} && !Nullable(Number(Either(x, y, n), 1))
  {
    var pair, many := Cat(Leaf(Char(x), 0), Leaf(Char(y), 0)), Letters(n);
    PairTree(x, y);
    LettersShape(n, 3);
    assert Size(Or(pair, many)) == Size(pair) + Size(many) && NoFinal(Or(pair, many));
    assert Number(Or(pair, many), 1) == Or(Number(pair, 1), Number(many, 3));
    assert First(Or(Number(pair, 1), Number(many, 3))) == First(Number(pair, 1)) + First(Number(many, 3));
  }

  /** The leaves of the two branches, when `ctx` is what stands around them. */
  lemma {:induction false} BranchLeaf(x: nat, y: nat, n: nat, ctx: Ctx, p: nat)
    requires 1 <= p <= n + 3 && Follow(ctx) == {n + 4}
    ensures var t := Or(Cat(Leaf(Char(x), 1), Leaf(Char(y), 2)), Number(Letters(n), 3));
            && p in Positions(t) && Follow(Locate(t, ctx, p)) == Leads(n, p)
            && KindAt(t, p) == Char(if p == 1 then x else if p == 2 then y else A)
  {
    hide Letters, Number, First, Nullable, Distinct;
    var pair, many := Cat(Leaf(Char(x), 1), Leaf(Char(y), 2)), Number(Letters(n), 3);
    var t := Or(pair, many);
    assert Positions(pair) == Positions(Leaf(Char(x), 1)) + Positions(Leaf(Char(y), 2)) == {1, 2};
    if p >= 3 {
      LettersFollow(n, 3, InOrR(pair, ctx), p);
      assert Locate(t, ctx, p) == Locate(many, InOrR(pair, ctx), p) && KindAt(t, p) == KindAt(many, p);
    } else {
      PairFollow(x, y, InOrL(many, ctx));
      assert Locate(t, ctx, p) == Locate(pair, InOrL(many, ctx), p) && KindAt(t, p) == KindAt(pair, p);
    }
  }

  lemma {:induction false} EitherLeaf(x: nat, y: nat, n: nat, p: nat)
    requires 1 <= p <= n + 3
    ensures p in Positions(Root(Either(x, y, n)))
    ensures LeafFollow(Root(Either(x, y, n)), p) == Leads(n, p)
    ensures KindAt(Root(Either(x, y, n)), p) == Char(if p == 1 then x else if p == 2 then y else A)
  {
    hide Root, Nullable, Distinct, Locate, KindAt, Leads;
    var re := Either(x, y, n);
    var root := Root(re);
    var t := Or(Cat(Leaf(Char(x), 1), Leaf(Char(y), 2)), Number(Letters(n), 3));
    var ctx := InCatR(Star(Leaf(All, 0)), BeforeFinal(re));
    EitherTree(x, y, n);
    RootShape(re);
    NumberPositions(re, 1);
    NumberPositions(Letters(n), 3);
    LettersShape(n, 3);
    assert Fits(t, ctx, root) by { assert Fits(root.left, BeforeFinal(re), root); }
    LocateInside(t, ctx, root);
    assert Follow(ctx) == Follow(BeforeFinal(re)) == {n + 4};
    BranchLeaf(x, y, n, ctx, p);
  }


  /** Where the automaton of `Either(x, y, n)` goes. */
  lemma {:induction false} EitherSucc(x: nat, y: nat, n: nat, s: set<nat>, c: nat, q: nat)
    requires forall p :: p in s ==> p <= n + 4
    ensures q in AutoOf(Either(x, y, n)).succ(s, c) <==>
            exists p :: p in s && TakesAt(x, y, n, p, c) && q in Leads(n, p)
  {
    var re := Either(x, y, n);
    var root := Root(re);
    EitherTree(x, y, n);
    RootShape(re);
    KindsOfRoot(re);
    StartsOfEither(x, y, n);
    assert s <= Positions(root);
    forall p | p in s
      ensures p in Positions(root) && LeafFollow(root, p) == Leads(n, p)
      ensures TakesSymbol(KindAt(root, p), c) <==> TakesAt(x, y, n, p, c)
    {
      if 1 <= p <= n + 3 { EitherLeaf(x, y, n, p); }
      if p == n + 4 {
        RootContexts(re);
        assert Follow(InCatR(root.left, Top)) == Follow(Top) == {};
      }
    }
  }

  lemma {:induction false} StartsOfEither(x: nat, y: nat, n: nat)
    ensures 0 in Positions(Root(Either(x, y, n)))
    ensures LeafFollow(Root(Either(x, y, n)), 0) == SearchStarts(Either(x, y, n)) == {0, 1, 3}
  {
    var re := Either(x, y, n);
    EitherTree(x, y, n);
    StartsIsFollow(re);
    assert Starts(re) == Follow(InCatL(Number(re, 1), BeforeFinal(re))) == First(Number(re, 1));
  }

  lemma {:induction false} EitherMade(x: nat, y: nat, n: nat)
    ensures WellMade(AutoOf(Either(x, y, n))) && AutoOf(Either(x, y, n)).accept == n + 4
            && AutoOf(Either(x, y, n)).starts == {0, 1, 3}
  {
    EitherTree(x, y, n);
    AutoWellMade(Either(x, y, n));
    StartsOfEither(x, y, n);
  }

  // ----- `zz|aaa...a`: a match is missed -----

  function As(j: nat): seq<nat> {
    seq(j, _ => A)
  }

  /** The state of the searching automaton of `Either(Z, Z, n)` after `j` letters `a`. */
  function AfterAs(j: nat): set<nat> {
    if j == 0 then {0, 1, 3} else AfterAs(j - 1) + {j + 3}
  }

  lemma {:induction false} AfterAsMembers(j: nat, q: nat)
    ensures q in AfterAs(j) <==> q <= j + 3 && q != 2
  {
    if j != 0 { AfterAsMembers(j - 1, q); }
  }

  ghost function ZZ(n: nat): Auto {
    AutoOf(Either(Z, Z, n))
  }

  lemma {:induction false} ZZMade(n: nat)
    ensures WellMade(ZZ(n)) && ZZ(n).accept == n + 4 && ZZ(n).starts == AfterAs(0)
  {
    EitherMade(Z, Z, n);
  }

  lemma {:induction false} ZZSteps(n: nat, j: nat)
    requires j <= n
    ensures j < n ==> ZZ(n).succ(AfterAs(j), A) == AfterAs(j + 1)
    ensures ZZ(n).succ(AfterAs(j), 0) == {}
  {
    hide AutoOf, AfterAs;
    var a, s := ZZ(n), AfterAs(j);
    AfterAsBound(n, j);
    forall q: nat ensures j < n ==> (q in a.succ(s, A) <==> q in AfterAs(j + 1)) {
      EitherSucc(Z, Z, n, s, A, q);
      AfterAsMembers(j + 1, q);
      if q in a.succ(s, A) {
        var p :| p in s && TakesAt(Z, Z, n, p, A) && q in Leads(n, p);
        AfterAsMembers(j, p);
      }
      if j < n && q in AfterAs(j + 1) {
        var p := if q <= 3 then 0 else q - 1;
        AfterAsMembers(j, p);
        assert p in s && q in Leads(n, p);
      }
    }
    forall q: nat ensures q !in a.succ(s, 0) { EitherSucc(Z, Z, n, s, 0, q); }
  }

  lemma {:induction false} AfterAsBound(n: nat, j: nat)
    requires j <= n
    ensures forall p :: p in AfterAs(j) ==> p <= n + 4
  {
    forall p | p in AfterAs(j) ensures p <= n + 4 { AfterAsMembers(j, p); }
  }

  lemma {:induction false} ZZOnStart(n: nat, q: nat)
    ensures q in ZZ(n).succ(AfterAs(0), HATCOL) <==> q in {0, 1, 3}
    ensures q in ZZ(n).succ(AfterAs(0), Z) <==> q in {0, 1, 2, 3}
  {
    hide AutoOf;
    var s := AfterAs(0);
    EitherSucc(Z, Z, n, s, HATCOL, q);
    EitherSucc(Z, Z, n, s, Z, q);
    assert 0 in s && 1 in s && Leads(n, 0) == {0, 1, 3} && Leads(n, 1) == {2};
  }

  lemma {:induction false} ZZOnZ(n: nat, q: nat)
    ensures n + 4 in ZZ(n).succ({0, 1, 2, 3}, Z) && q !in ZZ(n).succ({0, 1, 2, 3}, 0)
  {
    hide AutoOf;
    var s := {0, 1, 2, 3};
    EitherSucc(Z, Z, n, s, Z, n + 4);
    EitherSucc(Z, Z, n, s, 0, q);
    assert 2 in s && n + 4 in Leads(n, 2);
  }

  lemma {:induction false} ZZStart(n: nat)
    ensures Init(ZZ(n)) == ZZ(n).starts == AfterAs(0) && InitRow(ZZ(n)) == 2
    ensures ZZ(n).succ(AfterAs(0), Z) == {0, 1, 2, 3} && ZZ(n).succ({0, 1, 2, 3}, 0) == {}
    ensures n + 4 in ZZ(n).succ({0, 1, 2, 3}, Z)
  {
    hide ZZ;
    ZZMade(n);
    forall q: nat
      ensures q in ZZ(n).succ(AfterAs(0), HATCOL) <==> q in {0, 1, 3}
      ensures q in ZZ(n).succ(AfterAs(0), Z) <==> q in {0, 1, 2, 3}
      ensures q !in ZZ(n).succ({0, 1, 2, 3}, 0)
    {
      ZZOnStart(n, q);
      ZZOnZ(n, q);
    }
    ZZOnZ(n, 0);
  }

  /** Rows 2 to `j + 2` hold the states after 0 to `j` letters, and the run is in the last of them. */
  ghost predicate Filled(n: nat, c: Config, j: nat) {
    && Ready(ZZ(n), c) && !c.spoiled && !c.now.reset && c.s == c.now.table.curstat == j + 2
    && forall i :: 0 <= i <= j ==> Members(c.now.table.posns[i + 2]) == AfterAs(i)
  }

  lemma {:induction false} FillStep(n: nat, c: Config, j: nat)
    requires j < 29 <= n && Filled(n, c, j)
    ensures Filled(n, Turn(ZZ(n), c, A), j + 1) && !Accepts(Turn(ZZ(n), c, A))
  {
    hide Turn, WellMade, Started, ZZ, AfterAs;
    var a := ZZ(n);
    ZZSteps(n, j);
    AfterAsMembers(j + 1, j + 4);
    forall i | 2 <= i <= j + 2 ensures Members(c.now.table.posns[i]) != AfterAs(j + 1) {
      assert Members(c.now.table.posns[i - 2 + 2]) == AfterAs(i - 2);
      AfterAsMembers(i - 2, j + 4);
    }
    assert Holding(c) == Members(c.now.table.posns[j + 2]) == AfterAs(j);
    TurnReady(a, c, A);
    NotMisled(a, c, A);
    FreshStep(a, c, A);
    AfterAsMembers(j + 1, n + 4);
    ZZMade(n);
  }

  lemma {:induction false} AsShorter(j: nat, z: seq<nat>)
    requires j < |z| && forall i :: 0 <= i < |z| - 1 ==> z[i] == A
    ensures z[..j] == As(j)
  {
  }

  /** The run over `aa...a` fills the table. */
  lemma {:induction false} FillRun(n: nat, c: Config, j: nat)
    requires j <= 29 <= n && Filled(n, c, 0)
    ensures Filled(n, Along(ZZ(n), c, As(j)), j) && !Accepts(Along(ZZ(n), c, As(j)))
  {
    hide Turn, Filled;
    if j == 0 {
      StartRejects(n, c);
    } else {
      FillRun(n, c, j - 1);
      assert As(j)[..j - 1] == As(j - 1);
      FillStep(n, Along(ZZ(n), c, As(j - 1)), j - 1);
    }
  }

  lemma {:induction false} StartRejects(n: nat, c: Config)
    requires Filled(n, c, 0)
    ensures !Accepts(c)
  {
    hide Turn, ZZ;
    ZZMade(n);
    assert Members(c.now.table.posns[0 + 2]) == AfterAs(0);
  }

  /** What `mkdfa` makes of an expression: the initial table, and nothing recycled. */
  ghost predicate Fresh(a: Auto, anchor: bool, st: State) {
    WellMade(a) && Held(a, st) && Initial(a, anchor, st.table) && st.anchor == anchor && st.initstat == InitRow(a)
      && !st.reset
  }

  lemma {:induction false} FreshFilled(n: nat, st: State)
    requires Fresh(ZZ(n), false, st)
    ensures Filled(n, Begin(ZZ(n), st), 0) && !Begin(ZZ(n), st).astray
  {
    hide ZZ, Remade, Usable, Started, Exact;
    BeginReady(ZZ(n), st);
    ZZStart(n);
  }

  /** A full table: rows 2 to 31 hold the states after 0 to 29 letters. */
  ghost predicate Full(n: nat, st: State) {
    && Held(ZZ(n), st) && !st.reset && st.initstat == 2 && !st.anchor && st.table.curstat == NSTATES - 1
    && forall i :: 0 <= i <= 29 ==> Members(st.table.posns[i + 2]) == AfterAs(i)
  }

  lemma {:induction false} DeadAfterAs(n: nat, c: Config)
    requires n >= 29 && Filled(n, c, 29) && c.now.initstat == 2 && !c.now.anchor
    ensures !Accepts(Turn(ZZ(n), c, 0)) && Full(n, Turn(ZZ(n), c, 0).now) && !Turn(ZZ(n), c, 0).spoiled
  {
    hide Turn, ZZ, AfterAs;
    ZZSteps(n, 29);
    assert Holding(c) == Members(c.now.table.posns[29 + 2]);
    TurnReady(ZZ(n), c, 0);
    NotMisled(ZZ(n), c, 0);
    DeadStep(ZZ(n), c, 0);
  }

  /** `match` on twenty-nine letters `a` fails and leaves the table full. */
  lemma {:induction false} FirstCall(n: nat, st: State)
    requires n >= 29 && Fresh(ZZ(n), false, st)
    ensures var end := MatchCall(ZZ(n), st, Terminated(As(29))); !Accepts(end) && Full(n, end.now) && !end.spoiled
  {
    hide Turn, Filled, Full, Begin, AfterAs, ZZ, Usable, Started, Exact;
    var a, c, z := ZZ(n), Begin(ZZ(n), st), Terminated(As(29));
    FreshFilled(n, st);
    ZZStart(n);
    forall q: nat | q <= 29 ensures !Accepts(Along(a, c, z[..q])) {
      AsShorter(q, z);
      FillRun(n, c, q);
    }
    FillRun(n, c, 29);
    AsShorter(29, z);
    assert z[..30] == z && z[..29] == As(29) && z[29] == 0 && z[0..29] == As(29) && z[0..30] == z;
    AlongNext(a, c, z, 0, 29);
    BeginSame(a, st);
    AlongSame(a, c, As(29));
    DeadAfterAs(n, Along(a, c, As(29)));
    NeverStops(a, c, z, 0);
  }

  lemma {:induction false} NeverStops(a: Auto, c: Config, z: seq<nat>, q: nat)
    requires q <= |z| && forall j :: q <= j < |z| ==> !Accepts(Along(a, c, z[..j]))
    ensures MatchStop(a, c, z, q) == |z|
    decreases |z| - q
  {
    if q < |z| { NeverStops(a, c, z, q + 1); }
  }

  /** From row 2 of the full table `z` recycles it, and the entry for `z` of the new row 2 then names row 2 itself. */
  lemma {:induction false} ZSpoils(n: nat, c: Config)
    requires Ready(ZZ(n), c) && Full(n, c.now) && c.s == 2 && !c.spoiled
    ensures var c' := Turn(ZZ(n), c, Z);
            && Spoils(ZZ(n), c, Z) && Ready(ZZ(n), c') && c'.spoiled && c'.s == 2 && Holding(c') == {0, 1, 2, 3}
            && !Accepts(c')
            && c'.now.table.gototab[2][Z] == 2 && c'.now.table.gototab[2][0] == 0
  {
    hide Turn, ZZ, AfterAs, Started, Exact;
    var a, k := ZZ(n), c.now.table;
    ZZStart(n);
    ZZMade(n);
    assert Holding(c) == Members(k.posns[0 + 2]) == AfterAs(0);
    forall i | 2 <= i <= k.curstat ensures Members(k.posns[i]) != {0, 1, 2, 3} {
      assert Members(k.posns[i - 2 + 2]) == AfterAs(i - 2);
      AfterAsMembers(i - 2, 2);
    }
    NotMisled(a, c, Z);
    FreshStep(a, c, Z);
    TurnReady(a, c, Z);
    assert Members(Target(a, k, 2, Z)) == {0, 1, 2, 3} && Spoils(a, c, Z);
  }

  /** There a second `z` stays in row 2, and the end of the text leads to row 1. */
  lemma {:induction false} ZStays(n: nat, c: Config)
    requires Ready(ZZ(n), c) && c.s == 2 && Holding(c) == {0, 1, 2, 3} && !Accepts(c)
    requires c.now.table.gototab[2][Z] == 2 && c.now.table.gototab[2][0] == 0
    ensures var c' := Turn(ZZ(n), c, Z);
            && Misled(ZZ(n), c, Z) && c'.astray && c'.now == c.now && c'.s == 2 && !Accepts(c')
            && !Accepts(Turn(ZZ(n), c', 0))
            && c'.spoiled == c.spoiled && Turn(ZZ(n), c', 0).astray && Turn(ZZ(n), c', 0).spoiled == c.spoiled
  {
    hide ZZ;
    ZZStart(n);
    var c' := Turn(ZZ(n), c, Z);
    TurnReady(ZZ(n), c, Z);
    DeadStep(ZZ(n), c', 0);
  }

  lemma {:induction false} FullBegins(n: nat, st: State)
    requires Full(n, st)
    ensures var c := Begin(ZZ(n), st);
            Ready(ZZ(n), c) && Full(n, c.now) && c.s == 2 && !c.spoiled && !Accepts(c)
  {
    hide ZZ, Remade, Exact;
    BeginReady(ZZ(n), st);
    ZZMade(n);
    assert Members(st.table.posns[0 + 2]) == AfterAs(0);
  }

  lemma {:induction false} ThreeTurns(a: Auto, c: Config, z: seq<nat>)
    requires |z| == 3
    ensures Along(a, c, z[..0]) == c && Along(a, c, z[..1]) == Turn(a, c, z[0])
    ensures Along(a, c, z[..2]) == Turn(a, Turn(a, c, z[0]), z[1])
    ensures Along(a, c, z[..3]) == Turn(a, Turn(a, Turn(a, c, z[0]), z[1]), z[2])
  {
    hide Turn;
    assert z[..0] == z[0..0] == [] && z[..1] == z[0..1] && z[..2] == z[0..2] && z[..3] == z[0..3];
    AlongNext(a, c, z, 0, 0);
    AlongNext(a, c, z, 0, 1);
    AlongNext(a, c, z, 0, 2);
  }

  /** The second call, on `zz`, fails: it is misled by the entry that it has spoiled itself. */
  lemma {:induction false} SecondCall(n: nat, st: State)
    requires Full(n, st)
    ensures var end := MatchCall(ZZ(n), st, Terminated([Z, Z])); !Accepts(end) && end.spoiled && end.astray
  {
    hide Turn, ZZ, Full, Begin, Ready;
    var a, c, z := ZZ(n), Begin(ZZ(n), st), Terminated([Z, Z]);
    FullBegins(n, st);
    ZSpoils(n, c);
    ZStays(n, Turn(a, c, Z));
    assert z == [Z, Z, 0];
    ThreeTurns(a, c, z);
    NeverStops(a, c, z, 0);
  }

  lemma {:induction false} ZZMatches(n: nat)
    ensures MatchSomewhere(Either(Z, Z, n), [Z, Z])
  {
    var re, s := Either(Z, Z, n), [Z, Z];
    var one, w := Leaf(Char(Z), 0), Syms(Terminated([Z, Z])[0..2]);
    assert w == [Sym(Z)] + [Sym(Z)];
    assert Lang(one, [Sym(Z)]);
    CatIntro(one, one, [Sym(Z)], [Sym(Z)]);
    assert Lang(re, w);
    assert MatchAt(re, s, true, 0, 2);
    assert MatchFrom(re, s, true, 0);
  }

  /**
   From the table that `mkdfa` makes of `zz|aaa...a`, with thirty letters `a` or more, `match` on twenty-nine letters
   `a` fills the table, and then `match` on `zz` fails although `zz` matches.
   */
  lemma {:induction false} RecyclingFromRowTwoMissesAMatch(n: nat, st: State)
    requires n >= 29 && Fresh(AutoOf(Either(Z, Z, n)), false, st)
    ensures var a := AutoOf(Either(Z, Z, n));
            var first := MatchCall(a, st, Terminated(As(29)));
            var second := MatchCall(a, first.now, Terminated([Z, Z]));
            && !first.spoiled && !Accepts(second) && second.spoiled && second.astray
            && MatchSomewhere(Either(Z, Z, n), [Z, Z])
  {
    hide MatchCall, Full;
    FirstCall(n, st);
    SecondCall(n, MatchCall(ZZ(n), st, Terminated(As(29))).now);
    ZZMatches(n);
  }

  // ----- `^b|aaa...a`: `^` is lost -----

  ghost function HatB(n: nat): Auto {
    AutoOf(Either(HAT, B, n))
  }

  lemma {:induction false} HatBMade(n: nat)
    ensures WellMade(HatB(n)) && HatB(n).accept == n + 4 && HatB(n).starts == {0, 1, 3}
  {
    EitherMade(HAT, B, n);
  }

  lemma {:induction false} HatBOnHat(n: nat, q: nat)
    ensures q in HatB(n).succ({0, 1, 3}, HATCOL) <==> q in {0, 1, 2, 3}
  {
    hide AutoOf;
    var s := {0, 1, 3};
    EitherSucc(HAT, B, n, s, HATCOL, q);
    assert 0 in s && 1 in s && Leads(n, 0) == {0, 1, 3} && Leads(n, 1) == {2};
  }

  lemma {:induction false} HatBInit(n: nat)
    ensures Init(HatB(n)) == {0, 1, 2, 3} && InitRow(HatB(n)) == 3
    ensures From(HatB(n), true) == {1, 2, 3} && From(HatB(n), false) == {1, 3}
  {
    hide HatB;
    HatBMade(n);
    forall q: nat ensures q in Init(HatB(n)) <==> q in {0, 1, 2, 3} { HatBOnHat(n, q); }
    assert 2 in Init(HatB(n)) && 2 !in HatB(n).starts;
  }

  /** The state of the anchored automaton after `j` letters `a`, from the start of a line. */
  ghost function AnchoredAfter(j: nat): set<nat> {
    if j == 0 then {1, 2, 3} else {j + 3}
  }

  lemma {:induction false} HatBSteps(n: nat, j: nat, q: nat)
    requires j <= n
    ensures q in HatB(n).succ(AnchoredAfter(j), A) <==> q in AnchoredAfter(j + 1)
    ensures q !in HatB(n).succ(AnchoredAfter(j), 0)
  {
    hide AutoOf;
    var s := AnchoredAfter(j);
    EitherSucc(HAT, B, n, s, A, q);
    EitherSucc(HAT, B, n, s, 0, q);
    assert j + 3 in s && Leads(n, j + 3) == {j + 4};
  }

  lemma {:induction false} HatBNext(n: nat, j: nat)
    requires j <= n
    ensures HatB(n).succ(AnchoredAfter(j), A) == AnchoredAfter(j + 1) && HatB(n).succ(AnchoredAfter(j), 0) == {}
  {
    hide HatB, AnchoredAfter;
    forall q: nat
      ensures q in HatB(n).succ(AnchoredAfter(j), A) <==> q in AnchoredAfter(j + 1)
      ensures q !in HatB(n).succ(AnchoredAfter(j), 0)
    {
      HatBSteps(n, j, q);
    }
  }

  /**
   Row 2 holds the start state, rows 3 to `j + 3` those after 0 to `j` letters, and the run is in the last of them.
   */
  ghost predicate Climbing(n: nat, c: Config, j: nat) {
    && Ready(HatB(n), c) && !c.spoiled && !c.now.reset && c.s == c.now.table.curstat == j + 3
    && Members(c.now.table.posns[2]) == {1, 3}
    && forall i :: 0 <= i <= j ==> Members(c.now.table.posns[i + 3]) == AnchoredAfter(i)
  }

  lemma {:induction false} NotYet(n: nat, c: Config, j: nat)
    requires j <= n && Climbing(n, c, j)
    ensures forall i :: 2 <= i <= c.now.table.curstat ==> Members(c.now.table.posns[i]) != AnchoredAfter(j + 1)
  {
    hide HatB, WellMade, GoodStates, InRange, Started, Exact;
    forall i | 2 <= i <= c.now.table.curstat ensures Members(c.now.table.posns[i]) != AnchoredAfter(j + 1) {
      if i == 2 {
        assert 1 in Members(c.now.table.posns[2]);
      } else {
        assert Members(c.now.table.posns[i - 3 + 3]) == AnchoredAfter(i - 3);
        if i == 3 { assert 1 in AnchoredAfter(0); } else { assert i in AnchoredAfter(i - 3); }
      }
    }
  }

  lemma {:induction false} ClimbStep(n: nat, c: Config, j: nat)
    requires j < 28 <= n && Climbing(n, c, j)
    ensures Climbing(n, Turn(HatB(n), c, A), j + 1)
  {
    hide Turn, HatB, Started, Exact;
    NotYet(n, c, j);
    HatBNext(n, j);
    assert Holding(c) == Members(c.now.table.posns[j + 3]) == AnchoredAfter(j);
    TurnReady(HatB(n), c, A);
    NotMisled(HatB(n), c, A);
    FreshStep(HatB(n), c, A);
  }

  lemma {:induction false} ClimbRun(n: nat, c: Config, j: nat)
    requires j <= 28 <= n && Climbing(n, c, 0)
    ensures Climbing(n, Along(HatB(n), c, As(j)), j)
  {
    hide Turn, Climbing;
    if j != 0 {
      ClimbRun(n, c, j - 1);
      assert As(j)[..j - 1] == As(j - 1);
      ClimbStep(n, Along(HatB(n), c, As(j - 1)), j - 1);
    }
  }

  /** The twenty-ninth letter recycles the full table from row 31, which spoils nothing. */
  lemma {:induction false} TopStep(n: nat, c: Config)
    requires 28 <= n && Climbing(n, c, 28)
    ensures var c' := Turn(HatB(n), c, A);
            && Ready(HatB(n), c') && c'.now.reset && !c'.spoiled && c'.s == 2 == c'.now.table.curstat
            && Holding(c') == AnchoredAfter(29)
            && c'.now.table.gototab[2][A] == 0 && c'.now.table.gototab[2][0] == 0
  {
    hide Turn, HatB, Started, Exact;
    NotYet(n, c, 28);
    HatBNext(n, 28);
    assert Holding(c) == Members(c.now.table.posns[28 + 3]) == AnchoredAfter(28);
    TurnReady(HatB(n), c, A);
    NotMisled(HatB(n), c, A);
    FreshStep(HatB(n), c, A);
  }

  lemma {:induction false} FreshClimbs(n: nat, st: State)
    requires Fresh(HatB(n), true, st)
    ensures Climbing(n, Begin(HatB(n), st), 0) && !Begin(HatB(n), st).astray
  {
    hide HatB, Remade, Usable, Started, Exact;
    BeginReady(HatB(n), st);
    HatBInit(n);
    HatBMade(n);
  }

  /** The run over twenty-nine letters `a` and the end of the text. */
  lemma {:induction false} ClimbAndFall(n: nat, c: Config, q: nat)
    requires n >= 29 && Climbing(n, c, 0) && q <= 30
    ensures var c' := Along(HatB(n), c, Terminated(As(29))[0..q]);
            && !Accepts(c') && !c'.spoiled && (1 <= q <= 29 ==> c'.s != 1) && (q == 30 ==> c'.now.reset)
  {
    hide Turn, Climbing, HatB, AnchoredAfter;
    var a, z := HatB(n), Terminated(As(29));
    if q <= 28 {
      ClimbRun(n, c, q);
      assert z[0..q] == As(q);
      ClimberRejects(n, Along(a, c, As(q)), q);
    } else {
      ClimbRun(n, c, 28);
      var top := Along(a, c, As(28));
      TopStep(n, top);
      assert z[0..28] == As(28) && z[28] == A && z[29] == 0;
      AlongNext(a, c, z, 0, 28);
      AlongNext(a, c, z, 0, 29);
      TopRejects(n, Turn(a, top, A));
    }
  }

  lemma {:induction false} ClimberRejects(n: nat, c: Config, j: nat)
    requires j <= 28 < n && Climbing(n, c, j)
    ensures !Accepts(c) && c.s != 1 && !c.spoiled
  {
    hide HatB, Started, Exact;
    HatBMade(n);
    assert Holding(c) == Members(c.now.table.posns[j + 3]) == AnchoredAfter(j);
  }

  lemma {:induction false} TopRejects(n: nat, c: Config)
    requires n >= 29 && Ready(HatB(n), c) && c.now.reset && !c.spoiled && c.s == 2 && Holding(c) == AnchoredAfter(29)
    ensures !Accepts(c) && !Accepts(Turn(HatB(n), c, 0)) && Turn(HatB(n), c, 0).now.reset
            && !Turn(HatB(n), c, 0).spoiled
  {
    hide Turn, HatB, Started, Exact;
    HatBMade(n);
    HatBNext(n, 29);
    NotMisled(HatB(n), c, 0);
    DeadStep(HatB(n), c, 0);
  }

  lemma {:induction false} NothingHit(a: Auto, c: Config, z: seq<nat>, i: nat, q: nat)
    requires i <= q <= |z| && forall j :: i <= j <= q ==> !Accepts(Along(a, c, z[i..j]))
    ensures LastHit(a, c, z, i, q) == -1
    decreases q
  {
    if q > i { NothingHit(a, c, z, i, q - 1); }
  }

  lemma {:induction false} ScansOn(a: Auto, c: Config, z: seq<nat>, i: nat, q: nat)
    requires i <= q <= |z| && forall j :: q <= j < |z| && i < j ==> Along(a, c, z[i..j]).s != 1
    ensures ScanStop(a, c, z, i, q) == |z|
    decreases |z| - q
  {
    if q < |z| { ScansOn(a, c, z, i, q + 1); }
  }

  /** `pmatch` on twenty-nine letters `a` recycles the table, fails at its first start and sets `initstat` to 2. */
  lemma {:induction false} CallRestarts(n: nat, st: State)
    requires n >= 29 && Fresh(HatB(n), true, st)
    ensures var o := PmatchCall(HatB(n), st, Terminated(As(29)), 0);
            o.c.now.initstat == 2 && o.c.now.reset && Held(HatB(n), o.c.now) && o.c.now.anchor
  {
    hide Turn, HatB, Climbing, Begin, WellMade, Usable, Started, Exact, Initial;
    var a, c, z := HatB(n), Begin(HatB(n), st), Terminated(As(29));
    BeginReady(a, st);
    FreshClimbs(n, st);
    forall q: nat | q <= 30
      ensures !Accepts(Along(a, c, z[0..q])) && (1 <= q <= 29 ==> Along(a, c, z[0..q]).s != 1)
    {
      ClimbAndFall(n, c, q);
    }
    ScansOn(a, c, z, 0, 0);
    NothingHit(a, c, z, 0, 30);
    ClimbAndFall(n, c, 30);
    assert Restarts(a, c, z, 0, 0);
    InitstatAfter(a, c, z, 0, 0);
    SearchReady(a, c, z, 0, 0);
  }

  /** A call on the empty text then makes the table anew but leaves `initstat` at 2. */
  lemma {:induction false} CallRemakes(n: nat, st: State)
    requires Held(HatB(n), st) && st.anchor && st.initstat == 2 && st.reset
    ensures var o := PmatchCall(HatB(n), st, Terminated([]), 0);
            && o.c.now.initstat == 2 && !o.c.now.reset && Held(HatB(n), o.c.now) && o.c.now.anchor
            && o.c.now.table.curstat <= 4
  {
    hide Turn, HatB, Usable, Started, Exact, Search;
    var a, c := HatB(n), Begin(HatB(n), st);
    BeginReady(a, st);
    RemadeIsInitial(a, true, st.table);
    HatBInit(n);
    assert CharsRead(1) == 1 && Terminated([]) == [0];
    SearchRoom(a, c, [0], 0, 0);
    SearchReady(a, c, [0], 0, 0);
  }

  lemma {:induction false} LettersStart(n: nat, w: Word)
    requires Lang(Letters(n), w)
    ensures w != [] && (w[0] == Sym(A) || w[0].At?)
  {
    if n != 0 {
      var k :| 0 <= k <= |w| && Lang(Letters(n - 1), w[..k]) && Lang(Leaf(Char(A), 0), w[k..]);
      LettersStart(n - 1, w[..k]);
    }
  }

  lemma {:induction false} HatBWords(n: nat, w: Word)
    requires Lang(Either(HAT, B, n), w) && IsText(w)
    ensures w != [] && (w[0] == Sym(A) || w[0] == Sym(HAT))
  {
    if Lang(Letters(n), w) {
      LettersStart(n, w);
    } else {
      var k :| 0 <= k <= |w| && Lang(Leaf(Char(HAT), 0), w[..k]) && Lang(Leaf(Char(B), 0), w[k..]);
      assert w[..k][0] == w[0];
    }
  }

  /** Without `^` the expression does not match in `b`. */
  lemma {:induction false} NoHatNoB(n: nat, i: nat)
    requires i <= 1
    ensures !LongFrom(Either(HAT, B, n), [B], false, 0, i)
  {
    var re, z := Either(HAT, B, n), Terminated([B]);
    forall j: nat | i <= j <= 2 ensures !MatchAt(re, [B], false, i, j) {
      if Lang(re, Syms(z[i..j])) {
        HatBWords(n, Syms(z[i..j]));
        assert false;
      }
    }
  }

  /** With `^` it does, at the start. */
  lemma {:induction false} HatThenB(n: nat)
    ensures LongFrom(Either(HAT, B, n), [B], true, 0, 0)
  {
    var re, hat, b := Either(HAT, B, n), Leaf(Char(HAT), 0), Leaf(Char(B), 0);
    var u := Syms(Terminated([B])[..1]);
    assert u == [Sym(B)];
    assert Lang(hat, [Sym(HAT)]) && Lang(b, [Sym(B)]);
    CatIntro(hat, b, [Sym(HAT)], [Sym(B)]);
    assert Lang(re, [Sym(HAT)] + u);
    assert MatchAt(re, [B], true, 0, 1);
  }

  /**
   From the table that `mkdfa` makes of `^b|aaa...a`, with thirty letters `a` or more, `pmatch` finds `b`; but after
   calls on twenty-nine letters `a` and on the empty text it does not find it any more.
   */
  lemma {:induction false} HatIsLost(n: nat, st: State)
    requires n >= 29 && Fresh(AutoOf(Either(HAT, B, n)), true, st)
    ensures var a := AutoOf(Either(HAT, B, n));
            var first := PmatchCall(a, st, Terminated(As(29)), 0).c.now;
            var second := PmatchCall(a, first, Terminated([]), 0).c.now;
            && PmatchCall(a, st, Terminated([B]), 0).found
            && !AtLineStart(a, second) && !PmatchCall(a, second, Terminated([B]), 0).found
  {
    hide PmatchCall, AutoOf, Held, WellMade;
    var a, re := HatB(n), Either(HAT, B, n);
    EitherTree(HAT, B, n);
    HatBInit(n);
    CallRestarts(n, st);
    var first := PmatchCall(a, st, Terminated(As(29)), 0).c.now;
    CallRemakes(n, first);
    var second := PmatchCall(a, first, Terminated([]), 0).c.now;
    AnswersOnB(n, st);
    AnswersOnB(n, second);
    HatThenB(n);
    NoHatNoB(n, 0);
    NoHatNoB(n, 1);
  }

  lemma {:induction false} AnswersOnB(n: nat, st: State)
    requires Held(HatB(n), st) && st.anchor && !st.reset && st.table.curstat <= 4
    ensures var o := PmatchCall(HatB(n), st, Terminated([B]), 0);
            LeftmostLongestMatch(Either(HAT, B, n), [B], AtLineStart(HatB(n), st), 0, o.found, o.beg, o.len)
  {
    hide PmatchCall, AutoOf, LeftmostLongestMatch, Usable, WellMade, Started, Exact;
    EitherTree(HAT, B, n);
    PmatchAnswers(Either(HAT, B, n), st, [B], 0);
    assert CharsRead(2) == 3;
    PmatchSafe(HatB(n), st, Terminated([B]), 0, 0, {});
  }
}
