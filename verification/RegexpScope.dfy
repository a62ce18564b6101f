/**
 What the group registers hold at each place of a pattern, and which of them a failed attempt may overwrite.
 */
module RegexpScope {
  import opened RegexpMeaning

  ghost predicate OpenOk(r: Regs, i: nat, k: nat, grown: bool) {
    k < |r.bras| && 0 <= r.bras[k] <= i && (grown ==> r.bras[k] < i)
  }

  ghost predicate ClosedOk(t: string, r: Regs, k: nat, solid: bool) {
    k < |r.bras| && k < |r.brae| && 0 <= r.bras[k] <= r.brae[k] < |t| && (solid ==> r.bras[k] < r.brae[k])
  }

  /** The registers of open groups hold where they started, those of closed groups where they started and ended. */
  ghost predicate RegsOk(s: Scope, t: string, i: nat, r: Regs) {
    && IsRegs(r) && i < |t| && s.grown <= s.open && s.solid <= s.closed && s.open !! s.closed
    && (forall k :: k in s.open ==> OpenOk(r, i, k, k in s.grown))
    && (forall k :: k in s.closed ==> ClosedOk(t, r, k, k in s.solid))
  }

  lemma {:induction false} StreakInside(a: Atom, t: string, i: nat)
    requires IsText(t) && i < |t|
    ensures i + Streak(a, t, i) < |t|
    decreases |t| - i
  {
    if Takes(a, t[i]) { StreakInside(a, t, i + 1); }
  }

  lemma {:induction false} PrefixInside(w: string, t: string, i: nat)
    requires IsText(t) && i < |t| && NUL !in w && w <= t[i..]
    ensures i + |w| < |t|
  {
    assert w == "" || (t[i..][|w| - 1] == w[|w| - 1] && w[|w| - 1] in w);
  }

  lemma {:induction false} CopiesInside(w: string, t: string, i: nat, n: nat)
    requires IsText(t) && i < |t| && NUL !in w && n <= Copies(w, t, i)
    ensures i + n * |w| < |t|
    decreases n
  {
    if n > 0 {
      PrefixInside(w, t, i);
      CopiesInside(w, t, i + |w|, n - 1);
      assert n * |w| == |w| + (n - 1) * |w|;
    }
  }

  lemma {:induction false} GroupTextExact(s: Scope, t: string, i: nat, r: Regs, k: nat)
    requires IsText(t) && RegsOk(s, t, i, r) && k in s.closed
    ensures GroupText(t, r, k) == t[r.bras[k]..r.brae[k]] && NUL !in GroupText(t, r, k)
    ensures k in s.solid ==> GroupText(t, r, k) != ""
  {
    assert ClosedOk(t, r, k, k in s.solid);
  }

  /** The element takes at least one character. */
  predicate Grows(e: Elem, s: Scope) {
    match e
    case One(_) => true
    case Range(_, low, _) => low > 0
    case Back(k) => k in s.solid
    case _ => false
  }

  /** Where an element leads is still inside the line. */
  lemma {:induction false} PassInside(e: Elem, s: Scope, t: string, i: nat, r: Regs, n: nat)
    requires IsText(t) && RegsOk(s, t, i, r) && Allowed(e, s) && Pass(e, t, i, r, n).Some?
    ensures i <= Pass(e, t, i, r, n).value < |t|
    ensures Grows(e, s) ==> i < Pass(e, t, i, r, n).value
  {
    match e
    case Many(a) => StreakInside(a, t, i);
    case Range(a, _, _) => StreakInside(a, t, i);
    case Back(k) => BackInside(s, t, i, r, k);
    case BackMany(k) => BackManyInside(s, t, i, r, k, n);
    case _ =>
  }

  lemma {:induction false} BackInside(s: Scope, t: string, i: nat, r: Regs, k: nat)
    requires IsText(t) && RegsOk(s, t, i, r) && k in s.closed && GroupText(t, r, k) <= t[i..]
    ensures i + |GroupText(t, r, k)| < |t| && (k in s.solid ==> GroupText(t, r, k) != "")
  {
    GroupTextExact(s, t, i, r, k);
    PrefixInside(GroupText(t, r, k), t, i);
  }

  lemma {:induction false} BackManyInside(s: Scope, t: string, i: nat, r: Regs, k: nat, n: nat)
    requires IsText(t) && RegsOk(s, t, i, r) && k in s.closed && n <= Copies(GroupText(t, r, k), t, i)
    ensures 0 <= n * |GroupText(t, r, k)| && i + n * |GroupText(t, r, k)| < |t|
  {
    GroupTextExact(s, t, i, r, k);
    CopiesInside(GroupText(t, r, k), t, i, n);
  }

  lemma {:induction false} LaterOk(s: Scope, t: string, i: nat, r: Regs, j: nat, grow: bool)
    requires RegsOk(s, t, i, r) && i <= j < |t| && (grow ==> i < j)
    ensures RegsOk(if grow then s.(grown := s.open) else s, t, j, r)
  {
    forall k | k in s.open ensures OpenOk(r, j, k, grow || k in s.grown) {
      assert OpenOk(r, i, k, k in s.grown);
    }
  }

  lemma {:induction false} OpenedOk(s: Scope, t: string, i: nat, r: Regs, k: nat)
    requires RegsOk(s, t, i, r) && Allowed(Open(k), s)
    ensures RegsOk(Behind(Open(k), s), t, i, Set(Open(k), i, r))
  {
    var r', s' := Set(Open(k), i, r), Behind(Open(k), s);
    forall m | m in s'.open ensures OpenOk(r', i, m, m in s'.grown) {
      if m in s.open { assert OpenOk(r, i, m, m in s.grown); }
    }
    forall m | m in s'.closed ensures ClosedOk(t, r', m, m in s'.solid) {
      assert ClosedOk(t, r, m, m in s.solid);
    }
  }

  lemma {:induction false} ClosedGroupOk(s: Scope, t: string, i: nat, r: Regs, k: nat)
    requires RegsOk(s, t, i, r) && Allowed(Close(k), s)
    ensures RegsOk(Behind(Close(k), s), t, i, Set(Close(k), i, r))
  {
    var r', s' := Set(Close(k), i, r), Behind(Close(k), s);
    assert OpenOk(r, i, k, k in s.grown);
    forall m | m in s'.open ensures OpenOk(r', i, m, m in s'.grown) {
      assert OpenOk(r, i, m, m in s.grown);
    }
    forall m | m in s'.closed ensures ClosedOk(t, r', m, m in s'.solid) {
      if m != k { assert ClosedOk(t, r, m, m in s.solid); }
    }
  }

  /** Every element keeps the registers right. */
  lemma {:induction false} PassOk(e: Elem, s: Scope, t: string, i: nat, r: Regs, n: nat)
    requires IsText(t) && RegsOk(s, t, i, r) && Allowed(e, s) && Pass(e, t, i, r, n).Some?
    ensures i <= Pass(e, t, i, r, n).value < |t|
    ensures RegsOk(Behind(e, s), t, Pass(e, t, i, r, n).value, Set(e, i, r))
  {
    PassInside(e, s, t, i, r, n);
    var j := Pass(e, t, i, r, n).value;
    match e
    case Open(k) => OpenedOk(s, t, i, r, k);
    case Close(k) => ClosedGroupOk(s, t, i, r, k);
    case _ => LaterOk(s, t, i, r, j, Grows(e, s));
  }

  // ----- what attempts may overwrite -----

  /** Registers that are alike as far as the scope goes. */
  ghost predicate Agree(s: Scope, r: Regs, x: Regs) {
    && IsRegs(r) && IsRegs(x)
    && (forall k :: k in s.open || k in s.closed ==> k < NBRA && r.bras[k] == x.bras[k])
    && (forall k :: k in s.closed ==> r.brae[k] == x.brae[k])
  }

  lemma {:induction false} AgreeSet(e: Elem, s: Scope, r: Regs, x: Regs, i: nat)
    requires Agree(s, r, x) && Allowed(e, s) && s.open !! s.closed
    ensures Agree(Behind(e, s), Set(e, i, r), Set(e, i, x)) && Agree(s, r, Set(e, i, x))
  {
  }
}
