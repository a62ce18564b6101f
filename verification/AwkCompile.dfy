/**
 Numbering a parse tree and computing the follow set of each leaf (cmd/awk/b.c: penter, first, follow, cfoll).
 Nodes carry parent pointers; the marks collected so far live in the file's scratch arrays.
 */
module AwkCompile {
  import opened AwkLanguage
  import opened AwkPositions
  import opened AwkPattern

  const MAXLIN := 256

  datatype NodeType = LeafNode(kind: LeafKind) | StarNode | PlusNode | QuestNode | CatNode | OrNode

  class Node {
    const nobj: NodeType
    const left: Node?
    const right: Node?
    /** In the original a leaf keeps its number in the space of its left child. */
    var index: nat
    var parent: Node?

    ghost const shape: Tree
    ghost const repr: set<Node>

    ghost predicate Valid()
      decreases shape
    {
      && this in repr
      && match nobj
         case LeafNode(kind) => shape == Leaf(kind, 0) && repr == {this}
         case StarNode => ValidUnary() && shape == Star(left.shape) && left.Valid()
         case PlusNode => ValidUnary() && shape == Plus(left.shape) && left.Valid()
         case QuestNode => ValidUnary() && shape == Quest(left.shape) && left.Valid()
         case CatNode => ValidBinary() && shape == Cat(left.shape, right.shape) && left.Valid() && right.Valid()
         case OrNode => ValidBinary() && shape == Or(left.shape, right.shape) && left.Valid() && right.Valid()
    }

    ghost predicate ValidUnary() {
      left != null && left in left.repr && repr == left.repr + {this} && this !in left.repr
    }

    ghost predicate ValidBinary() {
      && left != null && right != null && left in left.repr && right in right.repr
      && left.repr !! right.repr
      && repr == left.repr + right.repr + {this} && this !in left.repr + right.repr
    }

    constructor LeafOf(kind: LeafKind)
      ensures Valid() && shape == Leaf(kind, 0) && fresh(repr)
    {
      nobj, left, right := LeafNode(kind), null, null;
      index, parent := 0, null;
      shape, repr := Leaf(kind, 0), {this};
    }

    constructor StarOf(body: Node)
      requires body.Valid()
      ensures Valid() && shape == Star(body.shape) && fresh(repr - body.repr)
    {
      nobj, left, right := StarNode, body, null;
      index, parent := 0, null;
      shape, repr := Star(body.shape), body.repr + {this};
    }

    constructor CatOf(l: Node, r: Node)
      requires l.Valid() && r.Valid() && l.repr !! r.repr
      ensures Valid() && shape == Cat(l.shape, r.shape) && fresh(repr - l.repr - r.repr)
    {
      nobj, left, right := CatNode, l, r;
      index, parent := 0, null;
      shape, repr := Cat(l.shape, r.shape), l.repr + r.repr + {this};
    }

    /** Leaves are numbered from `base` on and children know their parent. */
    ghost predicate Entered(base: nat)
      requires Valid()
      reads repr`index, (repr - {this})`parent
      decreases shape
    {
      match nobj
      case LeafNode(_) => index == base
      case StarNode | PlusNode | QuestNode => left.parent == this && left.Entered(base)
      case CatNode | OrNode =>
        && left.parent == this && right.parent == this
        && left.Entered(base) && right.Entered(base + Size(left.shape))
    }
  }

  /** Node `p` is the root of a linked copy of the numbered tree `t`, all of it inside `region`. */
  ghost predicate Stands(p: Node, t: Tree, region: set<Node>)
    reads region
    decreases t
  {
    && p in region
    && match t
       case Leaf(kind, pos) => p.nobj == LeafNode(kind) && p.index == pos
       case Star(body) => p.nobj == StarNode && HasLeft(p, region) && Stands(p.left, body, region)
       case Plus(body) => p.nobj == PlusNode && HasLeft(p, region) && Stands(p.left, body, region)
       case Quest(body) => p.nobj == QuestNode && HasLeft(p, region) && Stands(p.left, body, region)
       case Cat(l, r) =>
         p.nobj == CatNode && HasBoth(p, region) && Stands(p.left, l, region) && Stands(p.right, r, region)
       case Or(l, r) =>
         p.nobj == OrNode && HasBoth(p, region) && Stands(p.left, l, region) && Stands(p.right, r, region)
  }

  ghost predicate HasLeft(p: Node, region: set<Node>)
    reads region
  {
    p.left != null && p.left in region && p.left.parent == p
  }

  ghost predicate HasBoth(p: Node, region: set<Node>)
    reads region
  {
    && p.left != null && p.left in region && p.left.parent == p
    && p.right != null && p.right in region && p.right.parent == p && p.left != p.right
  }

  /** What `penter` leaves behind is a linked copy of the numbered tree. */
  lemma {:induction false} EnteredStands(p: Node, base: nat, region: set<Node>)
    requires p.Valid() && p.Entered(base) && p.repr <= region
    ensures Stands(p, Number(p.shape, base), region)
    decreases p.shape
  {
    match p.nobj
    case LeafNode(_) =>
    case StarNode | PlusNode | QuestNode =>
      EnteredStands(p.left, base, region);
    case CatNode | OrNode =>
      EnteredStands(p.left, base, region);
      EnteredStands(p.right, base + Size(p.left.shape), region);
  }

  /** All leaf numbers lie below the end of the numbering. */
  lemma {:induction false} EnteredBelow(p: Node, base: nat)
    requires p.Valid() && p.Entered(base)
    ensures forall n :: n in p.repr && n.nobj.LeafNode? ==> n.index < base + Size(p.shape)
    decreases p.shape
  {
    match p.nobj
    case LeafNode(_) =>
    case StarNode | PlusNode | QuestNode =>
      EnteredBelow(p.left, base);
    case CatNode | OrNode =>
      EnteredBelow(p.left, base);
      EnteredBelow(p.right, base + Size(p.left.shape));
  }

  /** Climbing from `v`, a copy of `t`, through parent pointers passes exactly the context `c`. */
  ghost predicate Sits(v: Node, t: Tree, c: Ctx, region: set<Node>)
    reads region
    decreases c
  {
    && Stands(v, t, region)
    && (!c.Top? ==>
          && (c.InStar? || c.InPlus? ==> c.body == t)
          && v.parent != null && Sits(v.parent, Wrap(t, c), c.up, region)
          && (if c.InCatR? || c.InOrR? then v.parent.right == v else v.parent.left == v))
  }

  ghost function Sitting(t: Tree, c: Ctx, region: set<Node>): set<Node>
    reads region
  {
    set v | v in region && Sits(v, t, c, region)
  }

  /** The parent tells which context the node sits in. */
  lemma {:induction false} Climb(v: Node, t: Tree, c: Ctx, region: set<Node>)
    requires v in Sitting(t, c, region) && !c.Top?
    ensures Stands(v, t, region)
    ensures v.parent != null && v.parent in Sitting(Wrap(t, c), c.up, region)
    ensures c.InStar? <==> v.parent.nobj.StarNode?
    ensures c.InPlus? <==> v.parent.nobj.PlusNode?
    ensures c.InQuest? <==> v.parent.nobj.QuestNode?
    ensures c.InOrL? || c.InOrR? <==> v.parent.nobj.OrNode?
    ensures c.InCatL? <==> v.parent.nobj.CatNode? && v == v.parent.left
    ensures c.InCatR? <==> v.parent.nobj.CatNode? && v != v.parent.left
    ensures c.InStar? || c.InPlus? ==> c.body == t
    ensures c.InCatL? ==> v.parent.right != null && Stands(v.parent.right, c.right, region)
  {
    assert Sits(v, t, c, region);
    assert Sits(v.parent, Wrap(t, c), c.up, region);
    assert Stands(v.parent, Wrap(t, c), region);
  }

  /** Climbing out of `c` stops before the root: some right neighbour on the way cannot be empty. */
  predicate Stops(c: Ctx) {
    match c
    case Top => false
    case InStar(_, up) => Stops(up)
    case InPlus(_, up) => Stops(up)
    case InQuest(up) => Stops(up)
    case InCatL(right, up) => !Nullable(right) || Stops(up)
    case InCatR(_, up) => Stops(up)
    case InOrL(_, up) => Stops(up)
    case InOrR(_, up) => Stops(up)
  }

  /** Every leaf below can be followed: FINAL has nothing after it, and every other leaf stops before the root. */
  ghost predicate Covered(t: Tree, c: Ctx)
    decreases t
  {
    match t
    case Leaf(kind, _) => if kind.Final? then Follow(c) == {} else Stops(c)
    case Star(body) => Covered(body, InStar(body, c))
    case Plus(body) => Covered(body, InPlus(body, c))
    case Quest(body) => Covered(body, InQuest(c))
    case Cat(left, right) => Covered(left, InCatL(right, c)) && Covered(right, InCatR(left, c))
    case Or(left, right) => Covered(left, InOrL(right, c)) && Covered(right, InOrR(left, c))
  }

  lemma {:induction false} StopsCovers(t: Tree, c: Ctx)
    requires NoFinal(t) && Stops(c)
    ensures Covered(t, c)
    decreases t
  {
    match t
    case Leaf(_, _) =>
    case Star(body) => StopsCovers(body, InStar(body, c));
    case Plus(body) => StopsCovers(body, InPlus(body, c));
    case Quest(body) => StopsCovers(body, InQuest(c));
    case Cat(left, right) => StopsCovers(left, InCatL(right, c)); StopsCovers(right, InCatR(left, c));
    case Or(left, right) => StopsCovers(left, InOrL(right, c)); StopsCovers(right, InOrR(left, c));
  }

  /** In the tree of `mkdfa` no climb passes the root, because FINAL is not nullable. */
  lemma {:induction false} RootCovered(re: Tree)
    requires NoFinal(re)
    ensures Covered(Root(re), Top)
  {
    RootShape(re);
    NumberNoFinal(re, 1);
    var before := InCatL(Leaf(Final, Accept(re)), Top);
    assert Stops(before);
    StopsCovers(Root(re).left, before);
    assert Follow(InCatR(Root(re).left, Top)) == Follow(Top);
  }

  function LeftOf(t: Tree): Tree
    requires !t.Leaf?
  {
    if t.Cat? || t.Or? then t.left else t.body
  }

  function LeftCtx(t: Tree, c: Ctx): Ctx
    requires !t.Leaf?
  {
    match t
    case Star(body) => InStar(body, c)
    case Plus(body) => InPlus(body, c)
    case Quest(_) => InQuest(c)
    case Cat(_, right) => InCatL(right, c)
    case Or(_, right) => InOrL(right, c)
  }

  function RightCtx(t: Tree, c: Ctx): Ctx
    requires t.Cat? || t.Or?
  {
    if t.Cat? then InCatR(t.left, c) else InOrR(t.left, c)
  }

  /** The children of a node sit in the contexts its tree gives them. */
  lemma {:induction false} Descend(v: Node, t: Tree, c: Ctx, region: set<Node>, root: Tree)
    requires v in Sitting(t, c, region) && Fits(t, c, root) && Covered(t, c) && !t.Leaf?
    ensures !v.nobj.LeafNode? && v.left != null && LeftOf(t) < t
    ensures v.left in Sitting(LeftOf(t), LeftCtx(t, c), region)
    ensures Fits(LeftOf(t), LeftCtx(t, c), root) && Covered(LeftOf(t), LeftCtx(t, c))
    ensures v.nobj.CatNode? || v.nobj.OrNode? <==> t.Cat? || t.Or?
    ensures t.Cat? || t.Or? ==>
              && v.right != null && v.right in Sitting(t.right, RightCtx(t, c), region)
              && Fits(t.right, RightCtx(t, c), root) && Covered(t.right, RightCtx(t, c))
  {
    assert Sits(v, t, c, region);
  }

  /** One row of the automaton's table of leaves. */
  datatype Row = Row(ltype: LeafKind, lfollow: seq<nat>)

  // ----- position sets as descending lists -----

  /** The members of `s` below `n`, largest first. */
  function Descending(s: set<nat>, n: nat): seq<nat> {
    if n == 0 then [] else (if n - 1 in s then [n - 1] else []) + Descending(s, n - 1)
  }

  lemma {:induction false} DescendingMembers(s: set<nat>, n: nat)
    ensures forall x: nat :: x in Descending(s, n) <==> x in s && x < n
    ensures forall i, j :: 0 <= i < j < |Descending(s, n)| ==> Descending(s, n)[i] > Descending(s, n)[j]
    decreases n
  {
    if n != 0 {
      DescendingMembers(s, n - 1);
      var tail := Descending(s, n - 1);
      forall i, j | 0 <= i < j < |Descending(s, n)| ensures Descending(s, n)[i] > Descending(s, n)[j] {
        assert Descending(s, n)[j] in tail;
      }
    }
  }

  /** Position 0, when it is there, is the last of the list. */
  lemma {:induction false} DescendingDropsZero(s: set<nat>, n: nat)
    requires 0 in s && n >= 1
    ensures |Descending(s, n)| >= 1
    ensures Descending(s - {0}, n) == Descending(s, n)[..|Descending(s, n)| - 1]
    decreases n
  {
    if n == 1 {
      assert Descending(s, 1) == [0] + Descending(s, 0);
      assert Descending(s - {0}, 1) == [] + Descending(s - {0}, 0);
    } else {
      DescendingDropsZero(s, n - 1);
    }
  }

  // ----- the scratch arrays and the functions that fill them -----

  class Statics {
    const setvec: array<int>
    var setcnt: nat
    var poscnt: nat
    ghost var marked: set<nat>
    ghost var limit: nat

    constructor ()
      ensures setvec.Length == MAXLIN && fresh(setvec) && poscnt == 0
    {
      setvec := new int[MAXLIN];
      setcnt, poscnt := 0, 0;
      marked, limit := {}, 0;
    }

    /** Below `limit`, setvec and setcnt describe the set `marked`. */
    ghost predicate Counted()
      reads this, setvec
    {
      && setcnt == |marked|
      && limit <= setvec.Length
      && (forall i :: i in marked ==> i < limit)
      && (forall i: nat :: i < limit ==> setvec[i] == if i in marked then 1 else 0)
    }

    /** Sets up parent pointers and leaf numbers. */
    method Penter(p: Node)
      requires p.Valid()
      modifies this`poscnt, p.repr
      ensures p.Entered(old(poscnt)) && poscnt == old(poscnt) + Size(p.shape)
      decreases p.shape, 1
    {
      if p.nobj.LeafNode? {
        p.index := poscnt;
        poscnt := poscnt + 1;
      } else if p.nobj.StarNode? || p.nobj.PlusNode? || p.nobj.QuestNode? {
        Penter(p.left);
        p.left.parent := p;
      } else {
        PenterBinary(p);
      }
    }

    method PenterBinary(p: Node)
      requires p.Valid() && (p.nobj.CatNode? || p.nobj.OrNode?)
      modifies this`poscnt, p.repr
      ensures p.Entered(old(poscnt)) && poscnt == old(poscnt) + Size(p.shape)
      decreases p.shape, 0
    {
      Penter(p.left);
      Penter(p.right);
      p.left.parent := p;
      p.right.parent := p;
    }

    ghost predicate Fitting(region: set<Node>)
      reads this, region
    {
      forall n :: n in region && n.nobj.LeafNode? ==> n.index < limit
    }

    /** Collects the leaves that can start `p`; the result is 0 exactly when `p` matches the empty string. */
    method First(p: Node, ghost t: Tree, ghost region: set<Node>) returns (r: int)
      requires Stands(p, t, region) && Fitting(region) && Counted()
      modifies this`setcnt, this`marked, setvec
      ensures Counted() && marked == old(marked) + AwkLanguage.First(t)
      ensures r == if Nullable(t) then 0 else 1
      decreases t, 1
    {
      match p.nobj
      case LeafNode(kind) =>
        Mark(p.index);
        r := if IsEmptyClass(kind) then 0 else 1;
      case PlusNode =>
        r := First(p.left, t.body, region);
      case StarNode | QuestNode =>
        r := First(p.left, t.body, region);
        r := 0;
      case CatNode =>
        r := First(p.left, t.left, region);
        if r == 0 {
          r := First(p.right, t.right, region);
        }
      case OrNode =>
        r := FirstOfOr(p, t, region);
    }

    method FirstOfOr(p: Node, ghost t: Tree, ghost region: set<Node>) returns (r: int)
      requires Stands(p, t, region) && Fitting(region) && Counted() && p.nobj == OrNode
      modifies this`setcnt, this`marked, setvec
      ensures Counted() && marked == old(marked) + AwkLanguage.First(t)
      ensures r == if Nullable(t) then 0 else 1
      decreases t, 0
    {
      var b := First(p.right, t.right, region);
      r := First(p.left, t.left, region);
      if b == 0 {
        r := 0;
      }
    }

    method Mark(i: nat)
      requires i < limit && Counted()
      modifies this`setcnt, this`marked, setvec
      ensures Counted() && marked == old(marked) + {i}
    {
      if setvec[i] != 1 {
        setvec[i] := 1;
        setcnt := setcnt + 1;
        marked := marked + {i};
      }
    }

    method MarkAll(q: seq<nat>)
      requires Counted() && forall x :: x in q ==> x < limit
      modifies this`setcnt, this`marked, setvec
      ensures Counted() && marked == old(marked) + set x | x in q
    {
      for j := 0 to |q|
        invariant Counted() && marked == old(marked) + set x | x in q[..j]
      {
        assert q[..j + 1] == q[..j] + [q[j]] && q[j] in q;
        Mark(q[j]);
      }
      assert q[..|q|] == q;
    }

    /** Collects the leaves that can come after `v`. */
    method Follow(v: Node, ghost t: Tree, ghost c: Ctx, ghost region: set<Node>)
      requires v in Sitting(t, c, region) && Fitting(region) && Counted()
      requires if v.nobj == LeafNode(Final) then AwkLanguage.Follow(c) == {} else Stops(c)
      modifies this`setcnt, this`marked, setvec
      ensures Counted() && marked == old(marked) + AwkLanguage.Follow(c)
      decreases c, 1
    {
      if v.nobj == LeafNode(Final) {
        return;
      }
      Climb(v, t, c, region);
      if v.parent.nobj.StarNode? || v.parent.nobj.PlusNode? {
        FollowInLoop(v, t, c, region);
      } else if v.parent.nobj.CatNode? && v == v.parent.left {
        FollowLeftOfCat(v, t, c, region);
      } else {
        Follow(v.parent, Wrap(t, c), c.up, region);
      }
    }

    method FollowInLoop(v: Node, ghost t: Tree, ghost c: Ctx, ghost region: set<Node>)
      requires v in Sitting(t, c, region) && Fitting(region) && Counted() && Stops(c) && (c.InStar? || c.InPlus?)
      modifies this`setcnt, this`marked, setvec
      ensures Counted() && marked == old(marked) + AwkLanguage.Follow(c)
      decreases c, 0
    {
      Climb(v, t, c, region);
      var _ := First(v, t, region);
      Follow(v.parent, Wrap(t, c), c.up, region);
    }

    method FollowLeftOfCat(v: Node, ghost t: Tree, ghost c: Ctx, ghost region: set<Node>)
      requires v in Sitting(t, c, region) && Fitting(region) && Counted() && Stops(c) && c.InCatL?
      modifies this`setcnt, this`marked, setvec
      ensures Counted() && marked == old(marked) + AwkLanguage.Follow(c)
      decreases c, 0
    {
      Climb(v, t, c, region);
      var r := First(v.parent.right, c.right, region);
      if r == 0 {
        Follow(v.parent, Wrap(t, c), c.up, region);
      }
    }

    method Clear(accept: nat)
      requires accept < setvec.Length
      modifies this`setcnt, this`marked, this`limit, setvec
      ensures Counted() && marked == {} && limit == accept + 1
    {
      for i := 0 to accept + 1
        invariant forall j :: 0 <= j < i ==> setvec[j] == 0
      {
        setvec[i] := 0;
      }
      setcnt := 0;
      marked, limit := {}, accept + 1;
    }

    /** The marked positions, largest first. */
    method Collect(accept: nat) returns (p: seq<nat>)
      requires Counted() && limit == accept + 1
      ensures p == Descending(marked, accept + 1)
    {
      p := [];
      for i := accept + 1 downto 0
        invariant p + Descending(marked, i) == Descending(marked, accept + 1)
      {
        if setvec[i] == 1 {
          p := p + [i];
        }
      }
    }

    /** Enters the follow set of each leaf below `v` into its row. */
    method Cfoll(rows: array<Row>, accept: nat, v: Node, ghost t: Tree, ghost c: Ctx, ghost region: set<Node>,
                 ghost root: Tree)
      requires v in Sitting(t, c, region) && Fits(t, c, root) && Distinct(root) && Covered(t, c)
      requires forall n :: n in region && n.nobj.LeafNode? ==> n.index <= accept
      requires accept < setvec.Length && accept < rows.Length
      modifies this`setcnt, this`marked, this`limit, setvec, rows
      ensures Positions(t) <= Positions(root)
      ensures forall p: nat :: p in Positions(t) && p < rows.Length ==> rows[p] == RowOf(root, p, accept)
      ensures forall p: nat :: p !in Positions(t) && p < rows.Length ==> rows[p] == old(rows[p])
      decreases t
    {
      if v.nobj.LeafNode? {
        CfollLeaf(rows, accept, v, t, c, region, root);
      } else {
        assert Sits(v, t, c, region);
        Descend(v, t, c, region, root);
        Cfoll(rows, accept, v.left, LeftOf(t), LeftCtx(t, c), region, root);
        if v.nobj.CatNode? || v.nobj.OrNode? {
          Cfoll(rows, accept, v.right, t.right, RightCtx(t, c), region, root);
        }
      }
      LocateInside(t, c, root);
    }

    method CfollLeaf(rows: array<Row>, accept: nat, v: Node, ghost t: Tree, ghost c: Ctx, ghost region: set<Node>,
                     ghost root: Tree)
      requires v in Sitting(t, c, region) && Fits(t, c, root) && Distinct(root) && Covered(t, c) && v.nobj.LeafNode?
      requires forall n :: n in region && n.nobj.LeafNode? ==> n.index <= accept
      requires accept < setvec.Length && accept < rows.Length
      modifies this`setcnt, this`marked, this`limit, setvec, rows
      ensures Positions(t) <= Positions(root)
      ensures forall p: nat :: p in Positions(t) && p < rows.Length ==> rows[p] == RowOf(root, p, accept)
      ensures forall p: nat :: p !in Positions(t) && p < rows.Length ==> rows[p] == old(rows[p])
    {
      assert Sits(v, t, c, region);
      LocateInside(t, c, root);
      Clear(accept);
      Follow(v, t, c, region);
      var p := Collect(accept);
      rows[v.index] := Row(v.nobj.kind, p);
    }
  }

  ghost function RowOf(root: Tree, p: nat, accept: nat): Row
    requires p in Positions(root)
  {
    Row(KindAt(root, p), Descending(LeafFollow(root, p), accept + 1))
  }

  /** The tree of `mkdfa` around the parsed expression, numbered and linked. */
  method SearchTree(p: Node) returns (p1: Node, st: Statics)
    requires p.Valid()
    modifies p.repr
    ensures p1.Valid() && p1.shape == Searching(p.shape) && p1.Entered(0)
    ensures fresh(st) && fresh(st.setvec) && st.setvec.Length == MAXLIN && st.poscnt == Size(p1.shape)
  {
    var all := new Node.LeafOf(All);
    var skip := new Node.StarOf(all);
    var front := new Node.CatOf(skip, p);
    var final := new Node.LeafOf(Final);
    p1 := new Node.CatOf(front, final);
    st := new Statics();
    st.Penter(p1);
  }
}
