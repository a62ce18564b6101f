/**
 Sets of positions as states (cmd/awk/b.c): reading a word by stepping from position set to position set
 agrees with the words of the tree, and the follow sets are exactly the successions that occur in words.
 */
module AwkPositions {
  import opened AwkLanguage

  /** Some leaf of `s` takes the first letter of `w`, and the rest of `w` may come after that leaf. */
  ghost predicate Reads(root: Tree, s: set<nat>, w: Word)
    requires s <= Positions(root)
  {
    w != [] && exists q :: q in s && Takes(KindAt(root, q), q, w[0]) && Rest(Locate(root, Top, q), w[1..])
  }

  /** The positions `cgoto` enters into setvec for state `s` and letter `x`. */
  function Step(root: Tree, s: set<nat>, x: Letter): (t: set<nat>)
    requires s <= Positions(root)
    ensures t <= Positions(root)
  {
    var t := set p, q | p in s && Takes(KindAt(root, p), p, x) && q in LeafFollow(root, p) :: q;
    assert t <= Positions(root) by {
      forall q | q in t ensures q in Positions(root) {
        var p :| p in s && Takes(KindAt(root, p), p, x) && q in LeafFollow(root, p);
        LeafFollowInside(root, p);
      }
    }
    t
  }

  function Run(root: Tree, s: set<nat>, w: Word): (t: set<nat>)
    requires s <= Positions(root)
    ensures t <= Positions(root)
    decreases w
  {
    if w == [] then s else Run(root, Step(root, s, w[0]), w[1..])
  }

  lemma {:induction false} FollowReads(root: Tree, t: Tree, c: Ctx, w: Word)
    requires Fits(t, c, root) && Distinct(root) && w != []
    ensures Follow(c) <= Positions(root)
    ensures Rest(c, w) <==> Reads(root, Follow(c), w)
  {
    FollowInside(t, c, root);
    if Rest(c, w) {
      var q := FollowComplete(t, c, root, w);
    }
    if Reads(root, Follow(c), w) {
      var q :| q in Follow(c) && Takes(KindAt(root, q), q, w[0]) && Rest(Locate(root, Top, q), w[1..]);
      FollowSound(t, c, root, q, w[0], w[1..]);
      assert [w[0]] + w[1..] == w;
    }
  }

  lemma {:induction false} LeafFollowReads(root: Tree, p: nat, w: Word)
    requires Distinct(root) && p in Positions(root) && w != []
    ensures LeafFollow(root, p) <= Positions(root)
    ensures Rest(Locate(root, Top, p), w) <==> Reads(root, LeafFollow(root, p), w)
  {
    LocateFits(root, Top, root, p);
    FollowReads(root, Leaf(KindAt(root, p), p), Locate(root, Top, p), w);
  }

  /** One step of the automaton consumes one letter. */
  lemma {:induction false} StepReads(root: Tree, s: set<nat>, x: Letter, w: Word)
    requires Distinct(root) && s <= Positions(root) && w != []
    ensures Reads(root, s, [x] + w) <==> Reads(root, Step(root, s, x), w)
  {
    assert ([x] + w)[1..] == w;
    if Reads(root, s, [x] + w) {
      var p :| p in s && Takes(KindAt(root, p), p, x) && Rest(Locate(root, Top, p), w);
      LeafFollowReads(root, p, w);
      var q :| q in LeafFollow(root, p) && Takes(KindAt(root, q), q, w[0]) && Rest(Locate(root, Top, q), w[1..]);
      assert q in Step(root, s, x);
    }
    if Reads(root, Step(root, s, x), w) {
      var q :| q in Step(root, s, x) && Takes(KindAt(root, q), q, w[0]) && Rest(Locate(root, Top, q), w[1..]);
      var p :| p in s && Takes(KindAt(root, p), p, x) && q in LeafFollow(root, p);
      LeafFollowReads(root, p, w);
    }
  }

  lemma {:induction false} RunReads(root: Tree, s: set<nat>, u: Word, w: Word)
    requires Distinct(root) && s <= Positions(root) && w != []
    ensures Reads(root, s, u + w) <==> Reads(root, Run(root, s, u), w)
    decreases u
  {
    if u == [] {
      assert u + w == w;
    } else {
      assert u + w == [u[0]] + (u[1..] + w);
      StepReads(root, s, u[0], u[1..] + w);
      RunReads(root, Step(root, s, u[0]), u[1..], w);
    }
  }

  lemma {:induction false} RunAppend(root: Tree, s: set<nat>, u: Word, x: Letter)
    requires s <= Positions(root)
    ensures Run(root, s, u + [x]) == Step(root, Run(root, s, u), x)
    decreases u
  {
    if u == [] {
      assert u + [x] == [x];
    } else {
      assert (u + [x])[0] == u[0] && (u + [x])[1..] == u[1..] + [x];
      RunAppend(root, Step(root, s, u[0]), u[1..], x);
    }
  }

  // ----- the follow sets are exact -----

  /** Every tree has a word. */
  lemma {:induction false} SomeWord(t: Tree) returns (w: Word)
    ensures Lang(t, w)
    decreases t
  {
    match t
    case Leaf(_, pos) => w := [At(pos)];
    case Star(_) => w := [];
    case Plus(body) => w := SomeWord(body); PlusIntro(body, w, []); assert w + [] == w;
    case Quest(_) => w := [];
    case Cat(left, right) =>
      var a := SomeWord(left);
      var b := SomeWord(right);
      CatIntro(left, right, a, b);
      w := a + b;
    case Or(left, _) => w := SomeWord(left);
  }

  /** Whatever the context, something may come after. */
  lemma {:induction false} SomeRest(c: Ctx) returns (w: Word)
    ensures Rest(c, w)
    decreases c
  {
    match c
    case Top => w := [];
    case InStar(body, up) => w := SomeRest(up); RestStarIntro(body, up, [], w); assert [] + w == w;
    case InPlus(body, up) => w := SomeRest(up); RestStarIntro(body, up, [], w); assert [] + w == w;
    case InQuest(up) => w := SomeRest(up);
    case InCatL(right, up) =>
      var a := SomeWord(right);
      var b := SomeRest(up);
      RestCatIntro(right, up, a, b);
      w := a + b;
    case InCatR(_, up) => w := SomeRest(up);
    case InOrL(_, up) => w := SomeRest(up);
    case InOrR(_, up) => w := SomeRest(up);
  }

  /** A word of `t` and what may come after it complete to a word of the root. */
  lemma {:induction false} Complete(t: Tree, c: Ctx, root: Tree, a: Word, b: Word) returns (u: Word)
    requires Fits(t, c, root) && Lang(t, a) && Rest(c, b)
    ensures Lang(root, u + a + b)
    decreases c
  {
    if c.Top? {
      u := [];
      assert u + a + b == a;
    } else if c.InStar? || c.InPlus? {
      var k := RestStarElim(t, c.up, b);
      RoundsIntro(t, a, b[..k], a + b[..k]);
      u := Complete(Wrap(t, c), c.up, root, a + b[..k], b[k..]);
      Regroup(u, a, b, k);
    } else if c.InCatL? {
      var k :| 0 <= k <= |b| && Lang(c.right, b[..k]) && Rest(c.up, b[k..]);
      CatIntro(t, c.right, a, b[..k]);
      u := Complete(Wrap(t, c), c.up, root, a + b[..k], b[k..]);
      Regroup(u, a, b, k);
    } else if c.InCatR? {
      var l := SomeWord(c.left);
      CatIntro(c.left, t, l, a);
      var v := Complete(Wrap(t, c), c.up, root, l + a, b);
      u := v + l;
      assert v + (l + a) + b == u + a + b;
    } else {
      u := Complete(Wrap(t, c), c.up, root, a, b);
    }
  }

  lemma {:induction false} Regroup(u: Word, a: Word, b: Word, k: nat)
    requires k <= |b|
    ensures u + (a + b[..k]) + b[k..] == u + a + b
  {
    assert b[..k] + b[k..] == b;
  }

  lemma {:induction false} ReadsWhole(root: Tree, w: Word)
    requires Distinct(root) && w != [] && Lang(root, w)
    ensures Reads(root, First(root), w)
  {
    var q := FirstComplete(root, Top, w, []);
    assert w[1..] + [] == w[1..];
  }

  /** After a word of position letters has been read up to leaf `p`, what is left may come after `p`. */
  lemma {:induction false} AfterLeaf(root: Tree, u: Word, p: nat, v: Word)
    requires Distinct(root) && p in Positions(root) && Lang(root, u + [At(p)] + v)
    ensures Rest(Locate(root, Top, p), v)
  {
    var w := [At(p)] + v;
    assert u + [At(p)] + v == u + w;
    ReadsWhole(root, u + w);
    RunReads(root, First(root), u, w);
    assert w[0] == At(p) && w[1..] == v;
  }

  /** `lfollow` of a leaf is exactly the set of leaves that come next in some word of the numbered tree. */
  lemma {:induction false} LeafFollowExact(root: Tree, p: nat, q: nat)
    requires Distinct(root) && p in Positions(root) && q in Positions(root)
    ensures q in LeafFollow(root, p) <==> exists u: Word, v: Word :: Lang(root, u + [At(p)] + ([At(q)] + v))
  {
    var leaf, c := Leaf(KindAt(root, p), p), Locate(root, Top, p);
    LocateFits(root, Top, root, p);
    if q in LeafFollow(root, p) {
      var v := SomeRest(Locate(root, Top, q));
      FollowSound(leaf, c, root, q, At(q), v);
      var u := Complete(leaf, c, root, [At(p)], [At(q)] + v);
    }
    if u: Word, v: Word :| Lang(root, u + [At(p)] + ([At(q)] + v)) {
      AfterLeaf(root, u, p, [At(q)] + v);
      var q' := FollowComplete(leaf, c, root, [At(q)] + v);
    }
  }

  /** `first` enters exactly the leaves that start some word of the subtree. */
  lemma {:induction false} FirstExact(t: Tree, q: nat)
    requires Distinct(t) && q in Positions(t)
    ensures q in First(t) <==> exists v: Word :: Lang(t, [At(q)] + v)
  {
    if q in First(t) {
      var v := SomeRest(Locate(t, Top, q));
      var k := FirstSound(t, Top, q, At(q), v);
      assert Lang(t, [At(q)] + v[..k]);
    }
    if v: Word :| Lang(t, [At(q)] + v) {
      var q' := FirstComplete(t, Top, [At(q)] + v, []);
    }
  }
}
