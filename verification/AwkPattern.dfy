/**
 The tree that `mkdfa` builds around an expression (cmd/awk/b.c): ALL STAR in front, FINAL behind, leaves
 numbered from left to right.  Reading a text from its start sets reaches the accept position exactly when
 the expression matches.
 */
module AwkPattern {
  import opened AwkLanguage
  import opened AwkPositions

  /** Number of leaves. */
  function Size(t: Tree): (n: nat)
    ensures n >= 1
  {
    match t
    case Leaf(_, _) => 1
    case Star(body) => Size(body)
    case Plus(body) => Size(body)
    case Quest(body) => Size(body)
    case Cat(left, right) => Size(left) + Size(right)
    case Or(left, right) => Size(left) + Size(right)
  }

  /** `penter`: the leaves of `t` get the numbers from `base` on. */
  function Number(t: Tree, base: nat): Tree {
    match t
    case Leaf(kind, _) => Leaf(kind, base)
    case Star(body) => Star(Number(body, base))
    case Plus(body) => Plus(Number(body, base))
    case Quest(body) => Quest(Number(body, base))
    case Cat(left, right) => Cat(Number(left, base), Number(right, base + Size(left)))
    case Or(left, right) => Or(Number(left, base), Number(right, base + Size(left)))
  }

  lemma {:induction false} NumberPositions(t: Tree, base: nat)
    ensures forall p: nat :: p in Positions(Number(t, base)) <==> base <= p < base + Size(t)
    ensures Distinct(Number(t, base))
    decreases t
  {
    match t
    case Leaf(_, _) =>
    case Star(body) => NumberPositions(body, base);
    case Plus(body) => NumberPositions(body, base);
    case Quest(body) => NumberPositions(body, base);
    case Cat(left, right) =>
      NumberPositions(left, base);
      NumberPositions(right, base + Size(left));
    case Or(left, right) =>
      NumberPositions(left, base);
      NumberPositions(right, base + Size(left));
  }

  /** A word with no position letters. */
  ghost predicate Unnumbered(w: Word) {
    forall i :: 0 <= i < |w| ==> !w[i].At?
  }

  /** Numbering the leaves does not change what the tree matches. */
  lemma {:induction false} NumberLang(t: Tree, base: nat, w: Word)
    requires Unnumbered(w)
    ensures Lang(Number(t, base), w) <==> Lang(t, w)
    decreases t, 0
  {
    match t
    case Leaf(_, _) =>
    case Star(body) =>
      NumberStarLang(body, base, w);
    case Plus(body) =>
      forall k | 0 <= k <= |w|
        ensures Lang(Number(body, base), w[..k]) <==> Lang(body, w[..k])
        ensures StarLang(Number(body, base), w[k..]) <==> StarLang(body, w[k..])
      {
        NumberLang(body, base, w[..k]);
        NumberStarLang(body, base, w[k..]);
      }
    case Quest(body) =>
      NumberLang(body, base, w);
    case Cat(left, right) =>
      forall k | 0 <= k <= |w|
        ensures Lang(Number(left, base), w[..k]) <==> Lang(left, w[..k])
        ensures Lang(Number(right, base + Size(left)), w[k..]) <==> Lang(right, w[k..])
      {
        NumberLang(left, base, w[..k]);
        NumberLang(right, base + Size(left), w[k..]);
      }
    case Or(left, right) =>
      NumberLang(left, base, w);
      NumberLang(right, base + Size(left), w);
  }

  lemma {:induction false} NumberStarLang(body: Tree, base: nat, w: Word)
    requires Unnumbered(w)
    ensures StarLang(Number(body, base), w) <==> StarLang(body, w)
    decreases body, |w| + 1
  {
    forall k | 1 <= k <= |w|
      ensures Lang(Number(body, base), w[..k]) <==> Lang(body, w[..k])
      ensures StarLang(Number(body, base), w[k..]) <==> StarLang(body, w[k..])
    {
      NumberLang(body, base, w[..k]);
      NumberStarLang(body, base, w[k..]);
    }
  }

  /** The parser makes no FINAL leaf; `mkdfa` adds the only one. */
  predicate NoFinal(t: Tree) {
    match t
    case Leaf(kind, _) => !kind.Final?
    case Star(body) => NoFinal(body)
    case Plus(body) => NoFinal(body)
    case Quest(body) => NoFinal(body)
    case Cat(left, right) => NoFinal(left) && NoFinal(right)
    case Or(left, right) => NoFinal(left) && NoFinal(right)
  }

  lemma {:induction false} NoFinalAt(t: Tree, p: nat)
    requires NoFinal(t) && p in Positions(t)
    ensures !KindAt(t, p).Final?
    decreases t
  {
    match t
    case Leaf(_, _) =>
    case Star(body) => NoFinalAt(body, p);
    case Plus(body) => NoFinalAt(body, p);
    case Quest(body) => NoFinalAt(body, p);
    case Cat(left, right) => if p in Positions(left) { NoFinalAt(left, p); } else { NoFinalAt(right, p); }
    case Or(left, right) => if p in Positions(left) { NoFinalAt(left, p); } else { NoFinalAt(right, p); }
  }

  lemma {:induction false} NumberNoFinal(t: Tree, base: nat)
    requires NoFinal(t)
    ensures NoFinal(Number(t, base))
    decreases t
  {
    match t
    case Leaf(_, _) =>
    case Star(body) => NumberNoFinal(body, base);
    case Plus(body) => NumberNoFinal(body, base);
    case Quest(body) => NumberNoFinal(body, base);
    case Cat(left, right) => NumberNoFinal(left, base); NumberNoFinal(right, base + Size(left));
    case Or(left, right) => NumberNoFinal(left, base); NumberNoFinal(right, base + Size(left));
  }

  // ----- the tree of mkdfa -----

  function Searching(re: Tree): Tree {
    Cat(Cat(Star(Leaf(All, 0)), re), Leaf(Final, 0))
  }

  function Root(re: Tree): Tree {
    Number(Searching(re), 0)
  }

  /** The position of FINAL. */
  function Accept(re: Tree): nat {
    Size(re) + 1
  }

  lemma {:induction false} RootShape(re: Tree)
    ensures Root(re) == Cat(Cat(Star(Leaf(All, 0)), Number(re, 1)), Leaf(Final, Accept(re)))
    ensures forall p: nat :: p in Positions(Root(re)) <==> 0 <= p <= Accept(re)
    ensures Distinct(Root(re))
  {
    NumberPositions(Searching(re), 0);
    var skip := Star(Leaf(All, 0));
    assert Size(skip) == Size(Leaf(All, 0)) == 1;
    assert Number(skip, 0) == Star(Number(Leaf(All, 0), 0));
    assert Size(Cat(skip, re)) == 1 + Size(re);
    assert Number(Cat(skip, re), 0) == Cat(skip, Number(re, 1));
    assert Number(Leaf(Final, 0), 1 + Size(re)) == Leaf(Final, Accept(re));
    assert Root(re) == Cat(Number(Cat(skip, re), 0), Number(Leaf(Final, 0), Size(Cat(skip, re))));
    assert Size(Searching(re)) == Size(Cat(skip, re)) + Size(Leaf(Final, 0));
  }

  /** What surrounds everything but FINAL. */
  function BeforeFinal(re: Tree): Ctx {
    InCatL(Leaf(Final, Accept(re)), Top)
  }

  /** What surrounds the ALL STAR in front. */
  function AfterPrefix(re: Tree): Ctx {
    InCatL(Number(re, 1), BeforeFinal(re))
  }

  lemma {:induction false} RootContexts(re: Tree)
    ensures Fits(Star(Leaf(All, 0)), AfterPrefix(re), Root(re))
    ensures 0 in Positions(Root(re)) && Accept(re) in Positions(Root(re))
    ensures Locate(Root(re), Top, 0) == InStar(Leaf(All, 0), AfterPrefix(re))
    ensures Locate(Root(re), Top, Accept(re)) == InCatR(Root(re).left, Top)
  {
    RootShape(re);
    NumberPositions(re, 1);
    var prefix := Cat(Star(Leaf(All, 0)), Number(re, 1));
    var root := Root(re);
    assert Accept(re) !in Positions(prefix);
    assert Locate(root, Top, 0) == Locate(prefix, BeforeFinal(re), 0);
    assert Locate(prefix, BeforeFinal(re), 0) == Locate(Star(Leaf(All, 0)), AfterPrefix(re), 0);
    assert Locate(Star(Leaf(All, 0)), AfterPrefix(re), 0) ==
           Locate(Leaf(All, 0), InStar(Leaf(All, 0), AfterPrefix(re)), 0);
    assert Fits(prefix, BeforeFinal(re), root);
  }

  lemma {:induction false} KindsOfRoot(re: Tree)
    requires NoFinal(re)
    ensures forall p: nat :: p in Positions(Root(re)) ==> (KindAt(Root(re), p).Final? <==> p == Accept(re))
    ensures 0 in Positions(Root(re)) && KindAt(Root(re), 0) == All
  {
    RootShape(re);
    NumberPositions(re, 1);
    NumberNoFinal(re, 1);
    var prefix := Cat(Star(Leaf(All, 0)), Number(re, 1));
    assert NoFinal(prefix);
    forall p: nat | p in Positions(Root(re))
      ensures KindAt(Root(re), p).Final? <==> p == Accept(re)
    {
      if p in Positions(prefix) { NoFinalAt(prefix, p); }
    }
    assert KindAt(prefix, 0) == KindAt(Star(Leaf(All, 0)), 0);
  }

  /** A state accepts exactly when the end mark may come next. */
  lemma {:induction false} AcceptReads(re: Tree, s: set<nat>)
    requires NoFinal(re) && s <= Positions(Root(re))
    ensures Accept(re) in s <==> Reads(Root(re), s, [End])
  {
    RootContexts(re);
    KindsOfRoot(re);
    var w: Word := [End];
    assert w[1..] == [];
    if Accept(re) in s {
      assert Rest(Locate(Root(re), Top, Accept(re)), w[1..]);
    }
  }

  /** The positions from which a match starts: `lfollow` of position 0 without position 0. */
  function Starts(re: Tree): set<nat> {
    Follow(AfterPrefix(re))
  }

  lemma {:induction false} StartsIsFollow(re: Tree)
    ensures 0 in Positions(Root(re)) && 0 !in Starts(re)
    ensures Starts(re) <= Positions(Root(re))
    ensures LeafFollow(Root(re), 0) == Starts(re) + {0}
  {
    RootContexts(re);
    RootShape(re);
    NumberPositions(re, 1);
    FollowInside(Star(Leaf(All, 0)), AfterPrefix(re), Root(re));
    assert Follow(InStar(Leaf(All, 0), AfterPrefix(re))) == {0} + Follow(AfterPrefix(re));
    assert Follow(AfterPrefix(re)) <= Positions(Number(re, 1)) + {Accept(re)};
  }

  /** A word of text symbols: neither positions nor the end mark. */
  ghost predicate IsText(w: Word) {
    forall i :: 0 <= i < |w| ==> w[i].Sym?
  }

  lemma {:induction false} RestBeforeFinal(re: Tree, u: Word)
    requires forall i :: 0 <= i < |u| ==> !u[i].At?
    ensures Rest(BeforeFinal(re), u) <==> u == [End]
  {
    var final := Leaf(Final, Accept(re));
    if Rest(BeforeFinal(re), u) {
      var k :| 0 <= k <= |u| && Lang(final, u[..k]) && Rest(Top, u[k..]);
      assert u[..k] == u;
      assert Takes(Final, Accept(re), u[0]);
      assert u == [u[0]];
    }
    if u == [End] {
      RestCatIntro(final, Top, u, []);
      assert u + [] == u;
    }
  }

  lemma {:induction false} RestAfterPrefix(re: Tree, u: Word)
    requires IsText(u)
    ensures Rest(AfterPrefix(re), u + [End]) <==> Lang(re, u)
  {
    var w := u + [End];
    NumberLang(re, 1, u);
    if Rest(AfterPrefix(re), w) {
      var k :| 0 <= k <= |w| && Lang(Number(re, 1), w[..k]) && Rest(BeforeFinal(re), w[k..]);
      assert w[..k] == u by { RestBeforeFinal(re, w[k..]); }
    }
    if Lang(re, u) {
      assert Rest(BeforeFinal(re), [End]) by { RestBeforeFinal(re, [End]); }
      RestCatIntro(Number(re, 1), BeforeFinal(re), u, [End]);
    }
  }

  /** From the start positions the accept position is reached by exactly the words of the expression. */
  lemma {:induction false} StartsAccept(re: Tree, u: Word)
    requires NoFinal(re) && IsText(u)
    ensures Starts(re) <= Positions(Root(re))
    ensures Accept(re) in Run(Root(re), Starts(re), u) <==> Lang(re, u)
  {
    StartsIsFollow(re);
    RootContexts(re);
    RootShape(re);
    AcceptReads(re, Run(Root(re), Starts(re), u));
    RunReads(Root(re), Starts(re), u, [End]);
    FollowReads(Root(re), Star(Leaf(All, 0)), AfterPrefix(re), u + [End]);
    RestAfterPrefix(re, u);
  }

  // ----- ALL STAR in front -----

  ghost predicate Skippable(w: Word) {
    forall i :: 0 <= i < |w| ==> w[i].Sym? && w[i].c != 0
  }

  lemma {:induction false} StarOfAll(w: Word)
    requires Unnumbered(w)
    ensures StarLang(Leaf(All, 0), w) <==> Skippable(w)
    decreases |w|
  {
    var all := Leaf(All, 0);
    if w != [] {
      StarOfAll(w[1..]);
      assert w == [w[0]] + w[1..];
      if Skippable(w) {
        StarIntro(all, [w[0]], w[1..]);
      }
      if StarLang(all, w) {
        var k :| 1 <= k <= |w| && Lang(all, w[..k]) && StarLang(all, w[k..]);
        assert k == 1;
      }
    }
  }

  /** With position 0 kept, any number of nonzero symbols may be skipped first. */
  lemma {:induction false} SearchAccept(re: Tree, u: Word)
    requires NoFinal(re) && IsText(u)
    ensures Starts(re) + {0} <= Positions(Root(re))
    ensures Accept(re) in Run(Root(re), Starts(re) + {0}, u) <==>
            exists i :: 0 <= i <= |u| && Skippable(u[..i]) && Lang(re, u[i..])
  {
    var s := Starts(re) + {0};
    StartsIsFollow(re);
    RootContexts(re);
    RootShape(re);
    AcceptReads(re, Run(Root(re), s, u));
    RunReads(Root(re), s, u, [End]);
    LeafFollowReads(Root(re), 0, u + [End]);
    if Rest(InStar(Leaf(All, 0), AfterPrefix(re)), u + [End]) {
      var i := SkipElim(re, u);
    }
    if i :| 0 <= i <= |u| && Skippable(u[..i]) && Lang(re, u[i..]) {
      SkipIntro(re, u, i);
    }
  }

  lemma {:induction false} SkipElim(re: Tree, u: Word) returns (i: nat)
    requires IsText(u) && Rest(InStar(Leaf(All, 0), AfterPrefix(re)), u + [End])
    ensures i <= |u| && Skippable(u[..i]) && Lang(re, u[i..])
  {
    var w := u + [End];
    i := RestStarElim(Leaf(All, 0), AfterPrefix(re), w);
    StarOfAll(w[..i]);
    assert i < |w|;
    CutEnd(u, i);
    RestAfterPrefix(re, u[i..]);
  }

  lemma {:induction false} CutEnd(u: Word, i: nat)
    requires i <= |u|
    ensures (u + [End])[..i] == u[..i] && (u + [End])[i..] == u[i..] + [End]
  {
  }

  lemma {:induction false} SkipIntro(re: Tree, u: Word, i: nat)
    requires IsText(u) && i <= |u| && Skippable(u[..i]) && Lang(re, u[i..])
    ensures Rest(InStar(Leaf(All, 0), AfterPrefix(re)), u + [End])
  {
    var a, b, all := u[..i], u[i..] + [End], Leaf(All, 0);
    assert a + b == u + [End];
    assert StarLang(all, a) by { StarOfAll(a); }
    assert Rest(AfterPrefix(re), b) by { RestAfterPrefix(re, u[i..]); }
    RestStarIntro(all, AfterPrefix(re), a, b);
  }
}
