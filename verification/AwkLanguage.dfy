/**
 The language of an awk regular expression (cmd/awk/b.c), defined independently of the automaton.

 A tree denotes a set of words.  Words are made of letters: a text symbol, the end mark that only FINAL
 consumes, or the position of a leaf.  Text symbols give the meaning of the expression; position letters
 give the words of the numbered expression, in which every leaf stands for itself.  The one definition
 serves both readings.
 */
module AwkLanguage {

  /** Stands for `^` in the automaton's alphabet; the terminating 0 of a string stands for `$`. */
  const HAT := 128

  datatype LeafKind =
    | Char(value: nat)
    | Dot
    | All
    | Ccl(members: seq<nat>)
    | Nccl(members: seq<nat>)
    | Final

  datatype Tree =
    | Leaf(kind: LeafKind, pos: nat)
    | Star(body: Tree)
    | Plus(body: Tree)
    | Quest(body: Tree)
    | Cat(left: Tree, right: Tree)
    | Or(left: Tree, right: Tree)

  datatype Letter = Sym(c: nat) | At(pos: nat) | End

  type Word = seq<Letter>

  /** The test of `cgoto` on one leaf, for text symbols. */
  predicate TakesSymbol(kind: LeafKind, c: nat) {
    match kind
    case Char(value) => c == value
    case Dot => c != 0 && c != HAT
    case All => c != 0
    case Ccl(members) => c != 0 && c in members
    case Nccl(members) => !(c != 0 && c in members) && c != 0 && c != HAT
    case Final => false
  }

  predicate Takes(kind: LeafKind, pos: nat, x: Letter) {
    match x
    case Sym(c) => TakesSymbol(kind, c)
    case At(p) => p == pos
    case End => kind.Final?
  }

  /** The leaf written `()`: a character class with no members. */
  predicate IsEmptyClass(kind: LeafKind) {
    kind.Ccl? && kind.members == []
  }

  // ----- words of a tree -----

  ghost predicate Lang(t: Tree, w: Word)
    decreases t, 0
  {
    match t
    case Leaf(kind, pos) => (w == [] && IsEmptyClass(kind)) || (|w| == 1 && Takes(kind, pos, w[0]))
    case Star(body) => StarLang(body, w)
    case Plus(body) => exists k :: 0 <= k <= |w| && Lang(body, w[..k]) && StarLang(body, w[k..])
    case Quest(body) => w == [] || Lang(body, w)
    case Cat(left, right) => exists k :: 0 <= k <= |w| && Lang(left, w[..k]) && Lang(right, w[k..])
    case Or(left, right) => Lang(left, w) || Lang(right, w)
  }

  /** Words that are a sequence of words of `body`; empty rounds add nothing and are left out. */
  ghost predicate StarLang(body: Tree, w: Word)
    decreases body, |w| + 1
  {
    w == [] || exists k :: 1 <= k <= |w| && Lang(body, w[..k]) && StarLang(body, w[k..])
  }

  lemma {:induction false} CatIntro(left: Tree, right: Tree, a: Word, b: Word)
    requires Lang(left, a) && Lang(right, b)
    ensures Lang(Cat(left, right), a + b)
  {
    var w := a + b;
    assert w[..|a|] == a && w[|a|..] == b;
  }

  lemma {:induction false} StarIntro(body: Tree, a: Word, b: Word)
    requires Lang(body, a) && StarLang(body, b)
    ensures StarLang(body, a + b)
  {
    var w := a + b;
    assert w[..|a|] == a && w[|a|..] == b;
    if a == [] { assert w == b; }
  }

  lemma {:induction false} PlusIntro(body: Tree, a: Word, b: Word)
    requires Lang(body, a) && StarLang(body, b)
    ensures Lang(Plus(body), a + b)
  {
    var w := a + b;
    assert w[..|a|] == a && w[|a|..] == b;
  }

  // ----- regrouping of split words -----

  lemma {:induction false} TailOfSplit(a: Word, k: nat, b: Word)
    requires 1 <= k <= |a|
    ensures a[..k][0] == a[0] && a[..k][1..] + (a[k..] + b) == a[1..] + b
  {
  }

  lemma {:induction false} TailOfWhole(w: Word, k: nat)
    requires 1 <= k <= |w|
    ensures w[..k][0] == w[0] && w[..k][1..] + w[k..] == w[1..]
  {
  }

  lemma {:induction false} Resplit(x: Letter, w: Word, j: nat, i: nat)
    requires j <= |w| && i <= |w[j..]|
    ensures [x] + w[..j] + w[j..][..i] == [x] + w[..j + i] && w[j..][i..] == w[j + i..]
  {
    assert w[..j] + w[j..][..i] == w[..j + i];
  }

  // ----- contexts: what surrounds a subtree, innermost first -----

  datatype Ctx =
    | Top
    | InStar(body: Tree, up: Ctx)
    | InPlus(body: Tree, up: Ctx)
    | InQuest(up: Ctx)
    | InCatL(right: Tree, up: Ctx)
    | InCatR(left: Tree, up: Ctx)
    | InOrL(right: Tree, up: Ctx)
    | InOrR(left: Tree, up: Ctx)

  /** The node directly around `t`. */
  function Wrap(t: Tree, c: Ctx): Tree
    requires !c.Top?
  {
    match c
    case InStar(_, _) => Star(t)
    case InPlus(_, _) => Plus(t)
    case InQuest(_) => Quest(t)
    case InCatL(right, _) => Cat(t, right)
    case InCatR(left, _) => Cat(left, t)
    case InOrL(right, _) => Or(t, right)
    case InOrR(left, _) => Or(left, t)
  }

  /** `t` surrounded by `c` is `root`. */
  ghost predicate Fits(t: Tree, c: Ctx, root: Tree)
    decreases c
  {
    if c.Top? then t == root
    else (c.InStar? || c.InPlus? ==> c.body == t) && Fits(Wrap(t, c), c.up, root)
  }

  /** The words that may come after a subtree that sits in context `c` has been matched. */
  ghost predicate Rest(c: Ctx, w: Word)
    decreases c
  {
    match c
    case Top => w == []
    case InStar(body, up) => exists k :: 0 <= k <= |w| && StarLang(body, w[..k]) && Rest(up, w[k..])
    case InPlus(body, up) => exists k :: 0 <= k <= |w| && StarLang(body, w[..k]) && Rest(up, w[k..])
    case InQuest(up) => Rest(up, w)
    case InCatL(right, up) => exists k :: 0 <= k <= |w| && Lang(right, w[..k]) && Rest(up, w[k..])
    case InCatR(_, up) => Rest(up, w)
    case InOrL(_, up) => Rest(up, w)
    case InOrR(_, up) => Rest(up, w)
  }

  lemma {:induction false} RestStarIntro(body: Tree, up: Ctx, a: Word, b: Word)
    requires StarLang(body, a) && Rest(up, b)
    ensures Rest(InStar(body, up), a + b) && Rest(InPlus(body, up), a + b)
  {
    var w := a + b;
    assert w[..|a|] == a && w[|a|..] == b;
  }

  lemma {:induction false} RestCatIntro(right: Tree, up: Ctx, a: Word, b: Word)
    requires Lang(right, a) && Rest(up, b)
    ensures Rest(InCatL(right, up), a + b)
  {
    var w := a + b;
    assert w[..|a|] == a && w[|a|..] == b;
  }

  // ----- leaves -----

  function Positions(t: Tree): set<nat> {
    match t
    case Leaf(_, pos) => {pos}
    case Star(body) => Positions(body)
    case Plus(body) => Positions(body)
    case Quest(body) => Positions(body)
    case Cat(left, right) => Positions(left) + Positions(right)
    case Or(left, right) => Positions(left) + Positions(right)
  }

  ghost predicate Distinct(t: Tree) {
    match t
    case Leaf(_, _) => true
    case Star(body) => Distinct(body)
    case Plus(body) => Distinct(body)
    case Quest(body) => Distinct(body)
    case Cat(left, right) => Positions(left) !! Positions(right) && Distinct(left) && Distinct(right)
    case Or(left, right) => Positions(left) !! Positions(right) && Distinct(left) && Distinct(right)
  }

  function KindAt(t: Tree, p: nat): LeafKind
    requires p in Positions(t)
  {
    match t
    case Leaf(kind, _) => kind
    case Star(body) => KindAt(body, p)
    case Plus(body) => KindAt(body, p)
    case Quest(body) => KindAt(body, p)
    case Cat(left, right) => if p in Positions(left) then KindAt(left, p) else KindAt(right, p)
    case Or(left, right) => if p in Positions(left) then KindAt(left, p) else KindAt(right, p)
  }

  /** The context of leaf `p` of `t`, when `t` itself sits in context `c`. */
  function Locate(t: Tree, c: Ctx, p: nat): Ctx
    requires p in Positions(t)
  {
    match t
    case Leaf(_, _) => c
    case Star(body) => Locate(body, InStar(body, c), p)
    case Plus(body) => Locate(body, InPlus(body, c), p)
    case Quest(body) => Locate(body, InQuest(c), p)
    case Cat(left, right) =>
      if p in Positions(left) then Locate(left, InCatL(right, c), p) else Locate(right, InCatR(left, c), p)
    case Or(left, right) =>
      if p in Positions(left) then Locate(left, InOrL(right, c), p) else Locate(right, InOrR(left, c), p)
  }

  /** Descending from the root or from a subtree in its context finds the same leaf. */
  lemma {:induction false} LocateInside(t: Tree, c: Ctx, root: Tree)
    requires Fits(t, c, root) && Distinct(root)
    ensures Distinct(t) && Positions(t) <= Positions(root)
    ensures forall p | p in Positions(t) ::
              Locate(root, Top, p) == Locate(t, c, p) && KindAt(root, p) == KindAt(t, p)
    decreases c
  {
    if !c.Top? {
      LocateInside(Wrap(t, c), c.up, root);
    }
  }

  /** The context found for a leaf does surround it. */
  lemma {:induction false} LocateFits(t: Tree, c: Ctx, root: Tree, p: nat)
    requires Fits(t, c, root) && p in Positions(t)
    ensures Fits(Leaf(KindAt(t, p), p), Locate(t, c, p), root)
    decreases t
  {
    match t
    case Leaf(_, _) =>
    case Star(body) => LocateFits(body, InStar(body, c), root, p);
    case Plus(body) => LocateFits(body, InPlus(body, c), root, p);
    case Quest(body) => LocateFits(body, InQuest(c), root, p);
    case Cat(left, right) =>
      if p in Positions(left) { LocateFits(left, InCatL(right, c), root, p); }
      else { LocateFits(right, InCatR(left, c), root, p); }
    case Or(left, right) =>
      if p in Positions(left) { LocateFits(left, InOrL(right, c), root, p); }
      else { LocateFits(right, InOrR(left, c), root, p); }
  }

  // ----- the sets computed by first and follow -----

  /** `first` returns 0 exactly when this holds. */
  predicate Nullable(t: Tree) {
    match t
    case Leaf(kind, _) => IsEmptyClass(kind)
    case Star(_) => true
    case Plus(body) => Nullable(body)
    case Quest(_) => true
    case Cat(left, right) => Nullable(left) && Nullable(right)
    case Or(left, right) => Nullable(left) || Nullable(right)
  }

  /** The leaves `first` enters into setvec. */
  function First(t: Tree): (s: set<nat>)
    ensures s <= Positions(t)
  {
    match t
    case Leaf(_, pos) => {pos}
    case Star(body) => First(body)
    case Plus(body) => First(body)
    case Quest(body) => First(body)
    case Cat(left, right) => if Nullable(left) then First(left) + First(right) else First(left)
    case Or(left, right) => First(left) + First(right)
  }

  /** The leaves `follow` enters into setvec while it climbs out of context `c`. */
  function Follow(c: Ctx): set<nat> {
    match c
    case Top => {}
    case InStar(body, up) => First(body) + Follow(up)
    case InPlus(body, up) => First(body) + Follow(up)
    case InQuest(up) => Follow(up)
    case InCatL(right, up) => if Nullable(right) then First(right) + Follow(up) else First(right)
    case InCatR(_, up) => Follow(up)
    case InOrL(_, up) => Follow(up)
    case InOrR(_, up) => Follow(up)
  }

  function LeafFollow(root: Tree, p: nat): set<nat>
    requires p in Positions(root)
  {
    Follow(Locate(root, Top, p))
  }

  lemma {:induction false} FollowInside(t: Tree, c: Ctx, root: Tree)
    requires Fits(t, c, root)
    ensures Positions(t) <= Positions(root)
    ensures Follow(c) <= Positions(root)
    decreases c
  {
    if !c.Top? {
      FollowInside(Wrap(t, c), c.up, root);
    }
  }

  lemma {:induction false} LeafFollowInside(root: Tree, p: nat)
    requires p in Positions(root)
    ensures LeafFollow(root, p) <= Positions(root)
  {
    LocateFits(root, Top, root, p);
    FollowInside(Leaf(KindAt(root, p), p), Locate(root, Top, p), root);
  }

  /** `first` reports exactly the subtrees that match the empty string. */
  lemma {:induction false} NullableIsEmptyWord(t: Tree)
    ensures Nullable(t) <==> Lang(t, [])
    decreases t
  {
    var e: Word := [];
    assert e[..0] == e && e[0..] == e;
    match t
    case Leaf(_, _) =>
    case Star(body) =>
    case Plus(body) => NullableIsEmptyWord(body);
    case Quest(body) =>
    case Cat(left, right) => NullableIsEmptyWord(left); NullableIsEmptyWord(right);
    case Or(left, right) => NullableIsEmptyWord(left); NullableIsEmptyWord(right);
  }

  /** A word of `t` starts at some leaf of `First(t)` and goes on in that leaf's context. */
  lemma {:induction false} FirstComplete(t: Tree, c: Ctx, a: Word, b: Word) returns (q: nat)
    requires Distinct(t) && Lang(t, a) && a != [] && Rest(c, b)
    ensures q in First(t) && Takes(KindAt(t, q), q, a[0]) && Rest(Locate(t, c, q), a[1..] + b)
    decreases t, 2
  {
    match t
    case Leaf(_, pos) =>
      q := pos;
      assert a[1..] + b == b;
    case Star(body) =>
      q := FirstOfStar(body, c, InStar(body, c), a, b);
    case Plus(body) =>
      var k :| 0 <= k <= |a| && Lang(body, a[..k]) && StarLang(body, a[k..]);
      if k == 0 {
        assert a[0..] == a;
        q := FirstOfStar(body, c, InPlus(body, c), a, b);
      } else {
        q := FirstOfRound(body, c, InPlus(body, c), a, b, k);
      }
    case Quest(body) =>
      q := FirstComplete(body, InQuest(c), a, b);
    case Cat(left, right) =>
      q := FirstOfCat(left, right, c, a, b);
    case Or(left, right) =>
      if Lang(left, a) {
        q := FirstComplete(left, InOrL(right, c), a, b);
      } else {
        q := FirstComplete(right, InOrR(left, c), a, b);
      }
  }

  lemma {:induction false} FirstOfCat(left: Tree, right: Tree, c: Ctx, a: Word, b: Word) returns (q: nat)
    requires Distinct(Cat(left, right)) && Lang(Cat(left, right), a) && a != [] && Rest(c, b)
    ensures q in First(Cat(left, right)) && Takes(KindAt(Cat(left, right), q), q, a[0])
    ensures Rest(Locate(Cat(left, right), c, q), a[1..] + b)
    decreases Cat(left, right), 1
  {
    var k :| 0 <= k <= |a| && Lang(left, a[..k]) && Lang(right, a[k..]);
    if k == 0 {
      assert a[..0] == [] && a[0..] == a;
      NullableIsEmptyWord(left);
      q := FirstComplete(right, InCatR(left, c), a, b);
    } else {
      RestCatIntro(right, c, a[k..], b);
      q := FirstComplete(left, InCatL(right, c), a[..k], a[k..] + b);
      TailOfSplit(a, k, b);
    }
  }

  lemma {:induction false} FirstOfStar(body: Tree, c: Ctx, loop: Ctx, a: Word, b: Word) returns (q: nat)
    requires loop == InStar(body, c) || loop == InPlus(body, c)
    requires Distinct(body) && StarLang(body, a) && a != [] && Rest(c, b)
    ensures q in First(body) && Takes(KindAt(body, q), q, a[0]) && Rest(Locate(body, loop, q), a[1..] + b)
    decreases body, 4
  {
    var k :| 1 <= k <= |a| && Lang(body, a[..k]) && StarLang(body, a[k..]);
    q := FirstOfRound(body, c, loop, a, b, k);
  }

  lemma {:induction false} FirstOfRound(body: Tree, c: Ctx, loop: Ctx, a: Word, b: Word, k: nat) returns (q: nat)
    requires loop == InStar(body, c) || loop == InPlus(body, c)
    requires 1 <= k <= |a| && Lang(body, a[..k]) && StarLang(body, a[k..])
    requires Distinct(body) && Rest(c, b)
    ensures q in First(body) && Takes(KindAt(body, q), q, a[0]) && Rest(Locate(body, loop, q), a[1..] + b)
    decreases body, 3
  {
    RestStarIntro(body, c, a[k..], b);
    q := FirstComplete(body, loop, a[..k], a[k..] + b);
    TailOfSplit(a, k, b);
  }

  /** Starting at a leaf of `First(t)` and going on in its context reads a word of `t` and then the rest. */
  lemma {:induction false} FirstSound(t: Tree, c: Ctx, q: nat, x: Letter, w: Word) returns (k: nat)
    requires Distinct(t) && q in First(t) && Takes(KindAt(t, q), q, x) && Rest(Locate(t, c, q), w)
    ensures k <= |w| && Lang(t, [x] + w[..k]) && Rest(c, w[k..])
    decreases t, 1
  {
    match t
    case Leaf(_, _) =>
      k := 0;
      assert [x] + w[..0] == [x] && w[0..] == w;
    case Star(body) =>
      var j := FirstSound(body, InStar(body, c), q, x, w);
      k := FirstThenStar(body, c, x, w, j);
    case Plus(body) =>
      var j := FirstSound(body, InPlus(body, c), q, x, w);
      k := FirstThenStar(body, c, x, w, j);
    case Quest(body) =>
      k := FirstSound(body, InQuest(c), q, x, w);
    case Cat(left, right) =>
      k := FirstSoundCat(left, right, c, q, x, w);
    case Or(left, right) =>
      if q in Positions(left) {
        k := FirstSound(left, InOrL(right, c), q, x, w);
      } else {
        k := FirstSound(right, InOrR(left, c), q, x, w);
      }
  }

  lemma {:induction false} FirstSoundCat(left: Tree, right: Tree, c: Ctx, q: nat, x: Letter, w: Word)
    returns (k: nat)
    requires Distinct(Cat(left, right)) && q in First(Cat(left, right))
    requires Takes(KindAt(Cat(left, right), q), q, x) && Rest(Locate(Cat(left, right), c, q), w)
    ensures k <= |w| && Lang(Cat(left, right), [x] + w[..k]) && Rest(c, w[k..])
    decreases Cat(left, right), 0
  {
    if q in Positions(left) {
      var j := FirstSound(left, InCatL(right, c), q, x, w);
      k := FirstThenCat(left, right, c, x, w, j);
    } else {
      k := FirstSound(right, InCatR(left, c), q, x, w);
      NullableIsEmptyWord(left);
      CatIntro(left, right, [], [x] + w[..k]);
      assert [] + ([x] + w[..k]) == [x] + w[..k];
    }
  }

  lemma {:induction false} FirstThenCat(left: Tree, right: Tree, c: Ctx, x: Letter, w: Word, j: nat) returns (k: nat)
    requires j <= |w| && Lang(left, [x] + w[..j]) && Rest(InCatL(right, c), w[j..])
    ensures k <= |w| && Lang(Cat(left, right), [x] + w[..k]) && Rest(c, w[k..])
  {
    var i :| 0 <= i <= |w[j..]| && Lang(right, w[j..][..i]) && Rest(c, w[j..][i..]);
    k := j + i;
    CatIntro(left, right, [x] + w[..j], w[j..][..i]);
    Resplit(x, w, j, i);
  }

  lemma {:induction false} RestStarElim(body: Tree, c: Ctx, w: Word) returns (i: nat)
    requires Rest(InStar(body, c), w)
    ensures i <= |w| && StarLang(body, w[..i]) && Rest(c, w[i..])
  {
    i :| 0 <= i <= |w| && StarLang(body, w[..i]) && Rest(c, w[i..]);
  }

  lemma {:induction false} RoundsIntro(body: Tree, a: Word, b: Word, w: Word)
    requires Lang(body, a) && StarLang(body, b) && w == a + b
    ensures StarLang(body, w) && Lang(Plus(body), w)
  {
    StarIntro(body, a, b);
    PlusIntro(body, a, b);
  }

  lemma {:induction false} FirstThenStar(body: Tree, c: Ctx, x: Letter, w: Word, j: nat) returns (k: nat)
    requires j <= |w| && Lang(body, [x] + w[..j]) && Rest(InStar(body, c), w[j..])
    ensures k <= |w| && StarLang(body, [x] + w[..k]) && Lang(Plus(body), [x] + w[..k]) && Rest(c, w[k..])
  {
    var i := RestStarElim(body, c, w[j..]);
    k := j + i;
    Resplit(x, w, j, i);
    RoundsIntro(body, [x] + w[..j], w[j..][..i], [x] + w[..k]);
  }

  /** What may come after `t` in context `c` starts at a leaf of `Follow(c)`. */
  lemma {:induction false} FollowComplete(t: Tree, c: Ctx, root: Tree, w: Word) returns (q: nat)
    requires Fits(t, c, root) && Distinct(root) && Rest(c, w) && w != []
    ensures q in Follow(c) && q in Positions(root) && Takes(KindAt(root, q), q, w[0])
    ensures Rest(Locate(root, Top, q), w[1..])
    decreases c, 1
  {
    if c.InStar? || c.InPlus? {
      q := FollowCompleteLoop(t, c, root, w);
    } else if c.InCatL? {
      q := FollowCompleteCat(t, c.right, c.up, root, w);
    } else {
      q := FollowComplete(Wrap(t, c), c.up, root, w);
    }
  }

  lemma {:induction false} FollowCompleteLoop(t: Tree, c: Ctx, root: Tree, w: Word) returns (q: nat)
    requires c.InStar? || c.InPlus?
    requires Fits(t, c, root) && Distinct(root) && Rest(c, w) && w != []
    ensures q in Follow(c) && q in Positions(root) && Takes(KindAt(root, q), q, w[0])
    ensures Rest(Locate(root, Top, q), w[1..])
    decreases c, 0
  {
    var k := RestStarElim(t, c.up, w);
    if k == 0 {
      assert w[0..] == w;
      q := FollowComplete(Wrap(t, c), c.up, root, w);
    } else {
      LocateInside(t, c, root);
      q := FirstOfStar(t, c.up, c, w[..k], w[k..]);
      TailOfWhole(w, k);
    }
  }

  lemma {:induction false} FollowCompleteCat(t: Tree, right: Tree, up: Ctx, root: Tree, w: Word) returns (q: nat)
    requires Fits(t, InCatL(right, up), root) && Distinct(root) && Rest(InCatL(right, up), w) && w != []
    ensures q in Follow(InCatL(right, up)) && q in Positions(root) && Takes(KindAt(root, q), q, w[0])
    ensures Rest(Locate(root, Top, q), w[1..])
    decreases InCatL(right, up), 0
  {
    var k :| 0 <= k <= |w| && Lang(right, w[..k]) && Rest(up, w[k..]);
    if k == 0 {
      assert w[..0] == [] && w[0..] == w;
      NullableIsEmptyWord(right);
      q := FollowComplete(Cat(t, right), up, root, w);
    } else {
      LocateInside(right, InCatR(t, up), root);
      q := FirstComplete(right, InCatR(t, up), w[..k], w[k..]);
      TailOfWhole(w, k);
    }
  }

  /** Starting at a leaf of `Follow(c)` reads what may come after `t` in context `c`. */
  lemma {:induction false} FollowSound(t: Tree, c: Ctx, root: Tree, q: nat, x: Letter, w: Word)
    requires Fits(t, c, root) && Distinct(root)
    requires q in Follow(c) && q in Positions(root) && Takes(KindAt(root, q), q, x)
    requires Rest(Locate(root, Top, q), w)
    ensures Rest(c, [x] + w)
    decreases c, 1
  {
    if c.InStar? || c.InPlus? {
      FollowSoundLoop(t, c, root, q, x, w);
    } else if c.InCatL? {
      FollowSoundCat(t, c.right, c.up, root, q, x, w);
    } else {
      FollowSound(Wrap(t, c), c.up, root, q, x, w);
    }
  }

  lemma {:induction false} FollowSoundLoop(t: Tree, c: Ctx, root: Tree, q: nat, x: Letter, w: Word)
    requires c.InStar? || c.InPlus?
    requires Fits(t, c, root) && Distinct(root)
    requires q in Follow(c) && q in Positions(root) && Takes(KindAt(root, q), q, x)
    requires Rest(Locate(root, Top, q), w)
    ensures Rest(c, [x] + w)
    decreases c, 0
  {
    if q in First(t) {
      LocateInside(t, c, root);
      var k := FirstSound(t, c, q, x, w);
      FirstThenLoop(t, c.up, x, w, k);
    } else {
      FollowSound(Wrap(t, c), c.up, root, q, x, w);
      var e: Word := [];
      RestStarIntro(t, c.up, e, [x] + w);
      assert e + ([x] + w) == [x] + w;
    }
  }

  lemma {:induction false} FollowSoundCat(t: Tree, right: Tree, up: Ctx, root: Tree, q: nat, x: Letter, w: Word)
    requires Fits(t, InCatL(right, up), root) && Distinct(root)
    requires q in Follow(InCatL(right, up)) && q in Positions(root) && Takes(KindAt(root, q), q, x)
    requires Rest(Locate(root, Top, q), w)
    ensures Rest(InCatL(right, up), [x] + w)
    decreases InCatL(right, up), 0
  {
    if q in First(right) {
      LocateInside(right, InCatR(t, up), root);
      var k := FirstSound(right, InCatR(t, up), q, x, w);
      FirstThenUp(right, up, x, w, k);
    } else {
      FollowSound(Cat(t, right), up, root, q, x, w);
      SkipEmpty(right, up, [x] + w);
    }
  }

  lemma {:induction false} FirstThenUp(right: Tree, up: Ctx, x: Letter, w: Word, k: nat)
    requires k <= |w| && Lang(right, [x] + w[..k]) && Rest(up, w[k..])
    ensures Rest(InCatL(right, up), [x] + w)
  {
    RestCatIntro(right, up, [x] + w[..k], w[k..]);
    assert w[..k] + w[k..] == w;
    assert [x] + w[..k] + w[k..] == [x] + w;
  }

  lemma {:induction false} SkipEmpty(right: Tree, up: Ctx, w: Word)
    requires Nullable(right) && Rest(up, w)
    ensures Rest(InCatL(right, up), w)
  {
    NullableIsEmptyWord(right);
    RestCatIntro(right, up, [], w);
    assert [] + w == w;
  }

  lemma {:induction false} FirstThenLoop(body: Tree, up: Ctx, x: Letter, w: Word, j: nat)
    requires j <= |w| && Lang(body, [x] + w[..j]) && Rest(InStar(body, up), w[j..])
    ensures Rest(InStar(body, up), [x] + w) && Rest(InPlus(body, up), [x] + w)
  {
    var k := FirstThenStar(body, up, x, w, j);
    ghost var loops, more := [x] + w[..k], w[k..];
    assert loops + more == [x] + w by { assert w[..k] + w[k..] == w; }
    RestStarIntro(body, up, loops, more);
  }
}
