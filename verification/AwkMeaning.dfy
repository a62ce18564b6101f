/**
 What it means for an awk expression to match in a text (cmd/awk/b.c), and the start sets of the automaton
 that decide it.  A text is a sequence of character codes without 0; the automaton reads it followed by the
 terminating 0, which stands for `$`, and may read HAT, which stands for `^`, before its first character.
 */
module AwkMeaning {
  import opened AwkLanguage
  import opened AwkPositions
  import opened AwkPattern

  type Text = seq<nat>

  /** Characters the transition table has a column for, without the two marks. */
  predicate IsLine(s: Text) {
    forall i :: 0 <= i < |s| ==> 0 < s[i] < HAT
  }

  function Syms(s: Text): (w: Word)
    ensures |w| == |s| && IsText(w)
    ensures forall i :: 0 <= i < |s| ==> w[i] == Sym(s[i])
  {
    seq(|s|, i requires 0 <= i < |s| => Sym(s[i]))
  }

  /** The text as the automaton sees it. */
  function Terminated(s: Text): Text {
    s + [0]
  }

  /** The expression matches what stands between `i` and `j`; `bol` says whether `^` holds at the start of `s`. */
  ghost predicate MatchAt(re: Tree, s: Text, bol: bool, i: nat, j: nat)
    requires i <= j <= |s| + 1
  {
    || Lang(re, Syms(Terminated(s)[i..j]))
    || (bol && i == 0 && Lang(re, [Sym(HAT)] + Syms(Terminated(s)[..j])))
  }

  ghost predicate MatchFrom(re: Tree, s: Text, bol: bool, i: nat)
    requires i <= |s|
  {
    exists j :: i <= j <= |s| + 1 && MatchAt(re, s, bol, i, j)
  }

  /** The expression matches somewhere in `s`. */
  ghost predicate MatchSomewhere(re: Tree, s: Text) {
    exists i :: 0 <= i <= |s| && MatchFrom(re, s, true, i)
  }

  // ----- start sets -----

  /** State 2 of the searching automaton. */
  function SearchStarts(re: Tree): (s: set<nat>)
    ensures s <= Positions(Root(re))
  {
    StartsIsFollow(re);
    Starts(re) + {0}
  }

  /** The initial state of the searching automaton: state 2 after `^`. */
  function SearchInit(re: Tree): (s: set<nat>)
    ensures s <= Positions(Root(re))
  {
    Step(Root(re), SearchStarts(re), Sym(HAT))
  }

  /** State 2 of the anchored automaton. */
  function AnchoredStarts(re: Tree): (s: set<nat>)
    ensures s <= Positions(Root(re))
  {
    SearchStarts(re) - {0}
  }

  /** The initial state of the anchored automaton. */
  function AnchoredInit(re: Tree): (s: set<nat>)
    ensures s <= Positions(Root(re))
  {
    SearchInit(re) - {0}
  }

  /** Where an anchored scan starts: at the beginning of the text `^` may be taken. */
  function AnchoredFrom(re: Tree, bol: bool): (s: set<nat>)
    ensures s <= Positions(Root(re))
  {
    if bol then AnchoredInit(re) else AnchoredStarts(re)
  }

  /** Position 0 comes after no other position. */
  lemma {:induction false} ZeroFollowsOnlyZero(re: Tree, p: nat)
    requires p in Positions(Root(re)) && p != 0
    ensures 0 !in LeafFollow(Root(re), p)
  {
    RootShape(re);
    RootContexts(re);
    NumberPositions(re, 1);
    var root := Root(re);
    var prefix := root.left;
    if p in Positions(prefix) {
      assert p in Positions(Number(re, 1)) && p !in Positions(prefix.left);
      assert Locate(root, Top, p) == Locate(prefix, BeforeFinal(re), p);
      assert Locate(prefix, BeforeFinal(re), p) == Locate(Number(re, 1), InCatR(prefix.left, BeforeFinal(re)), p);
      FollowBetween(Number(re, 1), InCatR(prefix.left, BeforeFinal(re)), p);
    } else {
      assert Locate(root, Top, p) == InCatR(prefix, Top);
      assert Follow(InCatR(prefix, Top)) == Follow(Top) == {};
    }
  }

  lemma {:induction false} FollowBetween(t: Tree, c: Ctx, p: nat)
    requires p in Positions(t)
    ensures Follow(Locate(t, c, p)) <= Positions(t) + Follow(c)
    decreases t
  {
    match t
    case Leaf(_, _) =>
    case Star(body) => FollowBetween(body, InStar(body, c), p);
    case Plus(body) => FollowBetween(body, InPlus(body, c), p);
    case Quest(body) => FollowBetween(body, InQuest(c), p);
    case Cat(left, right) =>
      if p in Positions(left) { FollowBetween(left, InCatL(right, c), p); }
      else { FollowBetween(right, InCatR(left, c), p); }
    case Or(left, right) =>
      if p in Positions(left) { FollowBetween(left, InOrL(right, c), p); }
      else { FollowBetween(right, InOrR(left, c), p); }
  }

  /** The initial states in terms of the states that have not seen `^`. */
  lemma {:induction false} InitSets(re: Tree)
    requires NoFinal(re)
    ensures SearchInit(re) == SearchStarts(re) + Step(Root(re), AnchoredStarts(re), Sym(HAT))
    ensures AnchoredInit(re) == AnchoredStarts(re) + Step(Root(re), AnchoredStarts(re), Sym(HAT))
    ensures 0 in SearchStarts(re) && 0 in SearchInit(re)
    ensures AnchoredStarts(re) == Starts(re)
  {
    StartsIsFollow(re);
    KindsOfRoot(re);
    var root, x := Root(re), Sym(HAT);
    var all, some := SearchStarts(re), AnchoredStarts(re);
    forall q: nat ensures q in Step(root, all, x) <==> q in all || q in Step(root, some, x) {
      if q in all {
        assert 0 in all && Takes(KindAt(root, 0), 0, x) && q in LeafFollow(root, 0);
      }
    }
    forall p: nat | p in some ensures 0 !in LeafFollow(root, p) {
      ZeroFollowsOnlyZero(re, p);
    }
  }

  lemma {:induction false} FirstNonempty(t: Tree)
    ensures First(t) != {}
    decreases t
  {
    match t
    case Leaf(_, pos) => assert pos in First(t);
    case Star(body) => FirstNonempty(body);
    case Plus(body) => FirstNonempty(body);
    case Quest(body) => FirstNonempty(body);
    case Cat(left, right) => FirstNonempty(left); var q :| q in First(left); assert q in First(t);
    case Or(left, right) => FirstNonempty(left); var q :| q in First(left); assert q in First(t);
  }

  lemma {:induction false} StartsNonempty(re: Tree)
    ensures Starts(re) != {}
  {
    FirstNonempty(Number(re, 1));
    var q :| q in First(Number(re, 1));
    assert q in Starts(re);
  }

  lemma {:induction false} RunUnion(root: Tree, a: set<nat>, b: set<nat>, u: Word, w: Word)
    requires Distinct(root) && a <= Positions(root) && b <= Positions(root) && w != []
    ensures Reads(root, Run(root, a + b, u), w) <==> Reads(root, Run(root, a, u), w) || Reads(root, Run(root, b, u), w)
  {
    RunReads(root, a + b, u, w);
    RunReads(root, a, u, w);
    RunReads(root, b, u, w);
  }

  // ----- the decisions of the automaton -----

  lemma {:induction false} AcceptUnion(re: Tree, a: set<nat>, b: set<nat>, u: Word)
    requires NoFinal(re) && a <= Positions(Root(re)) && b <= Positions(Root(re))
    ensures Accept(re) in Run(Root(re), a + b, u) <==>
            Accept(re) in Run(Root(re), a, u) || Accept(re) in Run(Root(re), b, u)
  {
    RootShape(re);
    AcceptReads(re, Run(Root(re), a + b, u));
    AcceptReads(re, Run(Root(re), a, u));
    AcceptReads(re, Run(Root(re), b, u));
    RunUnion(Root(re), a, b, u, [End]);
  }

  lemma {:induction false} RunCons(root: Tree, s: set<nat>, x: Letter, u: Word)
    requires s <= Positions(root)
    ensures Run(root, s, [x] + u) == Run(root, Step(root, s, x), u)
  {
    var w := [x] + u;
    assert w[0] == x && w[1..] == u;
  }

  lemma {:induction false} HatAccept(re: Tree, u: Word)
    requires NoFinal(re) && IsText(u)
    ensures Accept(re) in Run(Root(re), AnchoredInit(re), u) <==> Lang(re, u) || Lang(re, [Sym(HAT)] + u)
  {
    InitSets(re);
    StartsAccept(re, u);
    HatStep(re, u);
    AcceptUnion(re, Starts(re), Step(Root(re), Starts(re), Sym(HAT)), u);
  }

  lemma {:induction false} HatStep(re: Tree, u: Word)
    requires NoFinal(re) && IsText(u)
    requires Starts(re) <= Positions(Root(re))
    ensures Accept(re) in Run(Root(re), Step(Root(re), Starts(re), Sym(HAT)), u) <==> Lang(re, [Sym(HAT)] + u)
  {
    StartsAccept(re, [Sym(HAT)] + u);
    RunCons(Root(re), Starts(re), Sym(HAT), u);
  }

  /** The anchored automaton accepts after exactly the matches that start where it was started. */
  lemma {:induction false} AnchoredAccept(re: Tree, s: Text, bol: bool, i: nat, j: nat)
    requires NoFinal(re) && i <= j <= |s| + 1
    ensures Accept(re) in Run(Root(re), AnchoredFrom(re, bol && i == 0), Syms(Terminated(s)[i..j])) <==>
            MatchAt(re, s, bol, i, j)
  {
    var u := Syms(Terminated(s)[i..j]);
    if bol && i == 0 {
      assert Terminated(s)[i..j] == Terminated(s)[..j];
      HatAccept(re, u);
    } else {
      InitSets(re);
      StartsAccept(re, u);
    }
  }

  /** The searching automaton accepts after exactly the ends of matches that start anywhere before. */
  lemma {:induction false} SearchingAccept(re: Tree, s: Text, j: nat)
    requires NoFinal(re) && IsLine(s) && j <= |s| + 1
    ensures Accept(re) in Run(Root(re), SearchInit(re), Syms(Terminated(s)[..j])) <==>
            exists i :: 0 <= i <= j && i <= |s| && MatchAt(re, s, true, i, j)
  {
    var u := Syms(Terminated(s)[..j]);
    var w := [Sym(HAT)] + u;
    assert w[0] == Sym(HAT) && w[1..] == u;
    SearchAccept(re, w);
    if k :| 0 <= k <= |w| && Skippable(w[..k]) && Lang(re, w[k..]) {
      var i := SkipToMatch(re, s, j, w, k);
    }
    if i :| 0 <= i <= j && i <= |s| && MatchAt(re, s, true, i, j) {
      var k := MatchToSkip(re, s, j, w, i);
    }
  }

  lemma {:induction false} SkipToMatch(re: Tree, s: Text, j: nat, w: Word, k: nat) returns (i: nat)
    requires IsLine(s) && j <= |s| + 1 && w == [Sym(HAT)] + Syms(Terminated(s)[..j])
    requires k <= |w| && Skippable(w[..k]) && Lang(re, w[k..])
    ensures i <= j && i <= |s| && MatchAt(re, s, true, i, j)
  {
    if k == 0 {
      assert w[0..] == w;
      i := 0;
    } else {
      i := k - 1;
      forall p | 0 <= p < k ensures w[p].Sym? && w[p].c != 0 { assert w[..k][p] == w[p]; }
      if j == |s| + 1 { assert w[|s| + 1] == Sym(0); }
      assert w[k..] == Syms(Terminated(s)[i..j]);
    }
  }

  lemma {:induction false} MatchToSkip(re: Tree, s: Text, j: nat, w: Word, i: nat) returns (k: nat)
    requires IsLine(s) && j <= |s| + 1 && w == [Sym(HAT)] + Syms(Terminated(s)[..j])
    requires i <= j && i <= |s| && MatchAt(re, s, true, i, j)
    ensures k <= |w| && Skippable(w[..k]) && Lang(re, w[k..])
  {
    if Lang(re, Syms(Terminated(s)[i..j])) {
      k := i + 1;
      assert w[k..] == Syms(Terminated(s)[i..j]);
    } else {
      k := 0;
      assert w[0..] == w;
    }
  }

  /** A text matches somewhere exactly when the searching automaton accepts at some point. */
  lemma {:induction false} SearchingDecides(re: Tree, s: Text)
    requires NoFinal(re) && IsLine(s)
    ensures MatchSomewhere(re, s) <==>
            exists j :: 0 <= j <= |s| + 1 && Accept(re) in Run(Root(re), SearchInit(re), Syms(Terminated(s)[..j]))
  {
    if MatchSomewhere(re, s) {
      var i :| 0 <= i <= |s| && MatchFrom(re, s, true, i);
      var j :| i <= j <= |s| + 1 && MatchAt(re, s, true, i, j);
      SearchingAccept(re, s, j);
    }
    if j :| 0 <= j <= |s| + 1 && Accept(re) in Run(Root(re), SearchInit(re), Syms(Terminated(s)[..j])) {
      SearchingAccept(re, s, j);
      var i :| 0 <= i <= j && i <= |s| && MatchAt(re, s, true, i, j);
      assert MatchFrom(re, s, true, i);
    }
  }
}
