/**
 The interpreter of the byte code of head/regexp.h as it runs (advance, getrnge, ecmp), with its group registers.
 */
module RegexpAdvance {
  import opened Options
  import opened RegexpMeaning
  import opened RegexpCode
  import opened RegexpScope
  import opened RegexpMatch

  lemma {:induction false} StreakStep(a: Atom, t: string, i: nat)
    requires IsText(t) && i < |t|
    ensures if Takes(a, t[i]) then i + 1 < |t| && Streak(a, t, i) == 1 + Streak(a, t, i + 1) else Streak(a, t, i) == 0
  {
  }

  class Matcher {
    const braslist: array<int>
    const braelist: array<int>
    var loc1: int
    var loc2: int
    var low: int
    var size: int
    var circf: bool

    ghost predicate Valid() {
      braslist.Length == NBRA && braelist.Length == NBRA && braslist != braelist
    }

    ghost function Registers(): (r: Regs)
      requires Valid()
      reads braslist, braelist
      ensures IsRegs(r)
    {
      Regs(braslist[..], braelist[..])
    }

    constructor ()
      ensures Valid() && fresh(braslist) && fresh(braelist)
    {
      braslist := new int[NBRA](_ => 0);
      braelist := new int[NBRA](_ => 0);
      loc1, loc2, low, size, circf := 0, 0, 0, 0, false;
    }

    /** Takes characters as long as the test holds; the result is behind the first that fails. */
    method TakeAll(t: string, lp: nat, code: seq<int>, op: int, ep: nat, ghost a: Atom) returns (j: nat)
      requires IsText(t) && lp < |t| && a in AtomsAt(code, op, ep)
      ensures j == lp + Streak(a, t, lp) + 1 <= |t|
    {
      j := lp;
      while true
        invariant lp <= j < |t| && Streak(a, t, lp) == j - lp + Streak(a, t, j)
        decreases |t| - j
      {
        StreakStep(a, t, j);
        MatchesExact(code, ep, a, t[j]);
        j := j + 1;
        if !Matches(code, op, ep, t[j - 1]) {
          return;
        }
      }
    }

    /** Takes `low` characters, and then at most `size` more; the result is one behind where that ends. */
    method TakeRange(t: string, lp: nat, code: seq<int>, op: int, ep: nat, ghost a: Atom)
      returns (ok: bool, curlp: nat, j: nat)
      requires IsText(t) && lp < |t| && a in AtomsAt(code, op, ep) && low >= 0 && size >= 0
      modifies this`low, this`size
      ensures ok <==> old(low) <= Streak(a, t, lp)
      ensures ok ==> curlp == lp + old(low)
      ensures ok ==>
              j == lp + 1 + if Streak(a, t, lp) < old(low) + old(size) then Streak(a, t, lp) else old(low) + old(size)
    {
      ok, j, curlp := true, lp, lp;
      ghost var n := low;
      while low > 0
        invariant 0 <= low <= n && j == lp + n - low < |t| && Streak(a, t, lp) == j - lp + Streak(a, t, j)
        invariant size == old(size)
      {
        StreakStep(a, t, j);
        MatchesExact(code, ep, a, t[j]);
        low := low - 1;
        j := j + 1;
        if !Matches(code, op, ep, t[j - 1]) {
          ok := false;
          return;
        }
      }
      curlp := j;
      while true
        invariant 0 <= size && j == curlp + old(size) - size < |t| && Streak(a, t, lp) == j - lp + Streak(a, t, j)
        decreases size
      {
        size := size - 1;
        if size < 0 {
          break;
        }
        StreakStep(a, t, j);
        MatchesExact(code, ep, a, t[j]);
        j := j + 1;
        if !Matches(code, op, ep, t[j - 1]) {
          break;
        }
      }
      if size < 0 {
        j := j + 1;
      }
    }

    /** The bounds of a range. */
    method GetRange(code: seq<int>, ep: nat)
      requires ep + 1 < |code|
      modifies this`low, this`size
      ensures low == code[ep] && size == if code[ep + 1] == OPENEND then LONGEST else code[ep + 1] - low
    {
      low := code[ep];
      size := if code[ep + 1] == OPENEND then LONGEST else code[ep + 1] - low;
    }

    /** Compares `ct` characters, up to the first that differs. */
    method Same(t: string, bbeg: nat, lp: nat, ct: nat) returns (same: bool)
      requires IsText(t) && bbeg + ct < |t| && lp < |t|
      ensures same <==> t[bbeg..bbeg + ct] <= t[lp..]
    {
      var k := 0;
      while k < ct
        invariant 0 <= k <= ct && lp + k < |t| && t[bbeg..bbeg + k] == t[lp..lp + k]
      {
        if t[bbeg + k] != t[lp + k] {
          assert t[bbeg..bbeg + ct][k] == t[bbeg + k] && t[lp..][k] == t[lp + k];
          return false;
        }
        assert t[bbeg + k] != NUL;
        assert t[bbeg..bbeg + k + 1] == t[bbeg..bbeg + k] + [t[bbeg + k]];
        assert t[lp..lp + k + 1] == t[lp..lp + k] + [t[lp + k]];
        k := k + 1;
      }
      assert t[lp..lp + ct] <= t[lp..];
      return true;
    }

    /** Goes back from `from` to `curlp` in steps of `ct` and tries the rest of the code each time. */
    method TryDown(t: string, curlp: nat, from: nat, ct: nat, code: seq<int>, ep: nat, ghost l: Ladder, ghost n: nat,
                   ghost found: Option<Found>)
      returns (ok: bool)
      requires Valid() && l in Ladders(t, code, curlp, ct, ep) && (n, found) in l.stages && ct > 0
      requires from == curlp + n * ct && Registers() in l.like
      modifies this`loc2, this`low, this`size, braslist, braelist
      ensures ok == found.Some?
      ensures ok ==> loc2 == found.value.end && Registers() in Like(l.final, found.value.regs)
      ensures !ok ==> Registers() in l.like
      decreases l.length, 0
    {
      var lp := from;
      ghost var k: nat, left := n, found;
      while true
        invariant lp == curlp + k * ct && (k, left) in l.stages
        invariant left == found && Registers() in l.like
        decreases k
      {
        ghost var q, left' := RungOf(t, code, l, k, left, curlp, ct, ep);
        ok := Advance(t, lp, code, ep, q);
        if ok {
          return;
        }
        StepBack(k, ct);
        if lp <= curlp {
          return;
        }
        lp := lp - ct;
        k, left := k - 1, left';
      }
    }

    /**
     Matches the code from `from` on against the line from `start` on. On success the registers are those of the
     way that was found, whatever failed attempts have left in them; on failure those of earlier groups are kept.
     */
    method Advance(t: string, start: nat, code: seq<int>, from: nat, ghost p0: Place) returns (ok: bool)
      requires Valid() && p0 in Places(t, code) && p0.i == start < |t| && p0.ep == from
               && Registers() in Like(p0.s, p0.r)
      modifies this`loc2, this`low, this`size, braslist, braelist
      ensures ok == Result(t, p0).Some?
      ensures ok ==>
              loc2 == Result(t, p0).value.end && Registers() in Like(Final(p0.es, p0.s), Result(t, p0).value.regs)
      ensures !ok ==> Registers() in Like(p0.s, p0.r)
      decreases |p0.es|, 3
    {
      var lp, ep := start, from;
      ghost var p := p0;
      while true
        invariant p in Places(t, code) && p.i == lp < |t| && p.ep == ep && |p.es| <= |p0.es|
        invariant Result(t, p) == Result(t, p0) && Final(p.es, p.s) == Final(p0.es, p0.s)
        invariant Registers() in Like(p.s, p.r) && Like(p.s, p.r) <= Like(p0.s, p0.r)
        decreases |p.es|
      {
        Dispatch(t, code, p);
        var op := code[ep];
        if op == CCEOF {
          loc2 := lp;
          return true;
        } else if IsAtomOp(op - STAR) {
          ok := FromMany(t, lp, code, op - STAR, ep + 1, p);
          return;
        } else if IsAtomOp(op - RNGE) {
          ok := FromRange(t, lp, code, op - RNGE, ep + 1, p);
          return;
        } else if op == CBACK + STAR {
          ok := FromBack(t, lp, code, ep + 1, p);
          return;
        }
        ghost var q;
        ok, lp, ep, q := AdvanceOne(t, lp, code, ep, p);
        if !ok {
          return;
        }
        NextMeans(t, code, p, lp, ep, Registers(), q);
        p := q;
      }
    }

    /** An element that is not repeated. */
    method AdvanceOne(t: string, lp: nat, code: seq<int>, ep: nat, ghost p: Place)
      returns (ok: bool, lp': nat, ep': nat, ghost q: Place)
      requires Valid() && p in OnePlaces(t, code) && p.i == lp < |t| && p.ep == ep && Registers() in Like(p.s, p.r)
      modifies braslist, braelist
      ensures if ok then q in Nexts(t, code, p, lp', ep', Registers())
              else Result(t, p).None? && Registers() in Like(p.s, p.r)
    {
      var op := code[ep];
      ok, lp', ep', q := true, lp, ep, p;
      if IsAtomOp(op) {
        q := AtomStep(t, code, p, Registers());
        ok, lp', ep' := Matches(code, op, ep + 1, t[lp]), lp + 1, ep + 1 + OperandLength(op);
      } else if op == CDOL {
        q := EndStep(t, code, p, Registers());
        ok, ep' := t[lp] == NUL, ep + 1;
      } else if op == CBRA {
        q := OpenStep(t, code, p, Registers());
        SetStart(code[ep + 1], lp);
        ep' := ep + 2;
      } else if op == CKET {
        q := CloseStep(t, code, p, Registers());
        SetEnd(code[ep + 1], lp);
        ep' := ep + 2;
      } else {
        q := BackStep(t, code, p, Registers());
        var bbeg: nat := braslist[code[ep + 1]];
        var ct: nat := braelist[code[ep + 1]] - bbeg;
        ok := Same(t, bbeg, lp, ct);
        lp', ep' := lp + ct, ep + 2;
      }
    }

    method SetStart(k: nat, lp: nat)
      requires Valid() && k < NBRA
      modifies braslist
      ensures Registers() == old(Registers()).(bras := old(Registers()).bras[k := lp])
    {
      braslist[k] := lp;
    }

    method SetEnd(k: nat, lp: nat)
      requires Valid() && k < NBRA
      modifies braelist
      ensures Registers() == old(Registers()).(brae := old(Registers()).brae[k := lp])
    {
      braelist[k] := lp;
    }

    /** A repeated single-character test. */
    method AdvanceMany(t: string, lp: nat, code: seq<int>, op: int, ep: nat, ghost a: Atom, ghost l: Ladder,
                       ghost found: Option<Found>)
      returns (ok: bool)
      requires Valid() && IsText(t) && lp < |t| && a in AtomsAt(code, op, ep) && Registers() in l.like
      requires l in Ladders(t, code, lp, 1, ep + OperandLength(op)) && (Streak(a, t, lp), found) in l.stages
      modifies this`loc2, this`low, this`size, braslist, braelist
      ensures ok == found.Some?
      ensures ok ==> loc2 == found.value.end && Registers() in Like(l.final, found.value.regs)
      ensures !ok ==> Registers() in l.like
      decreases l.length, 1
    {
      var j := TakeAll(t, lp, code, op, ep, a);
      ok := TryDown(t, lp, j - 1, 1, code, ep + OperandLength(op), l, j - 1 - lp, found);
    }

    /** A single-character test with a range. */
    method AdvanceRange(t: string, lp: nat, code: seq<int>, op: int, ep: nat, ghost a: Atom, ghost l: Ladder,
                        ghost found: Option<Found>)
      returns (ok: bool)
      requires Valid() && IsText(t) && lp < |t| && a in AtomsAt(code, op, ep) && Registers() in l.like
      requires RangeStages(t, lp, code, ep + OperandLength(op), a, l, found)
      modifies this`loc2, this`low, this`size, braslist, braelist
      ensures ok == found.Some?
      ensures ok ==> loc2 == found.value.end && Registers() in Like(l.final, found.value.regs)
      ensures !ok ==> Registers() in l.like
      decreases l.length, 1
    {
      var after := ep + OperandLength(op);
      GetRange(code, after);
      var curlp, j;
      ok, curlp, j := TakeRange(t, lp, code, op, ep, a);
      if !ok {
        return;
      }
      ok := TryDown(t, curlp, j - 1, 1, code, after + 2, l, j - 1 - curlp, found);
    }

    /** A repeated back-reference. */
    method AdvanceBack(t: string, lp: nat, code: seq<int>, ep: nat, ghost l: Ladder, ghost found: Option<Found>)
      returns (ok: bool)
      requires Valid() && IsText(t) && lp < |t| && Registers() in l.like
      requires BackStages(t, lp, code, ep, Registers(), l, found)
      modifies this`loc2, this`low, this`size, braslist, braelist
      ensures ok == found.Some?
      ensures ok ==> loc2 == found.value.end && Registers() in Like(l.final, found.value.regs)
      ensures !ok ==> Registers() in l.like
      decreases l.length, 1
    {
      var bbeg: nat := braslist[code[ep]];
      var ct: nat := braelist[code[ep]] - bbeg;
      var j := TakeCopies(t, lp, bbeg, ct);
      assert t[bbeg..bbeg + ct] == t[bbeg..braelist[code[ep]]];
      ok := TryDown(t, lp, j, ct, code, ep + 1, l, Copies(t[bbeg..bbeg + ct], t, lp), found);
    }

    /** Goes on as long as the text of the group stands there. */
    method TakeCopies(t: string, lp: nat, bbeg: nat, ct: nat) returns (j: nat)
      requires IsText(t) && lp < |t| && bbeg + ct < |t| && ct > 0
      ensures j == lp + Copies(t[bbeg..bbeg + ct], t, lp) * ct
    {
      ghost var w := t[bbeg..bbeg + ct];
      j := lp;
      ghost var n := 0;
      while true
        invariant j == lp + n * ct < |t| && Copies(w, t, lp) == n + Copies(w, t, j)
        decreases |t| - j
      {
        var same := Same(t, bbeg, j, ct);
        if !same {
          return;
        }
        PrefixInside(w, t, j);
        StepBack(n + 1, ct);
        j := j + ct;
        n := n + 1;
      }
    }

    method FromMany(t: string, lp: nat, code: seq<int>, op: int, ep: nat, ghost p: Place) returns (ok: bool)
      requires Valid() && p in ManyPlaces(t, code, op) && p.i == lp < |t| && p.ep + 1 == ep
               && Registers() in Like(p.s, p.r)
      modifies this`loc2, this`low, this`size, braslist, braelist
      ensures ok == Result(t, p).Some?
      ensures ok ==> loc2 == Result(t, p).value.end && Registers() in Like(Final(p.es, p.s), Result(t, p).value.regs)
      ensures !ok ==> Registers() in Like(p.s, p.r)
      decreases |p.es|, 2
    {
      ghost var a, l := ManyLadder(t, code, p, op, ep, ep + OperandLength(op));
      ok := AdvanceMany(t, lp, code, op, ep, a, l, Result(t, p));
    }

    method FromRange(t: string, lp: nat, code: seq<int>, op: int, ep: nat, ghost p: Place) returns (ok: bool)
      requires Valid() && p in RangePlaces(t, code, op) && p.i == lp < |t| && p.ep + 1 == ep
               && Registers() in Like(p.s, p.r)
      modifies this`loc2, this`low, this`size, braslist, braelist
      ensures ok == Result(t, p).Some?
      ensures ok ==> loc2 == Result(t, p).value.end && Registers() in Like(Final(p.es, p.s), Result(t, p).value.regs)
      ensures !ok ==> Registers() in Like(p.s, p.r)
      decreases |p.es|, 2
    {
      ghost var a, l := RangeLadder(t, code, p, op, ep, ep + OperandLength(op));
      ok := AdvanceRange(t, lp, code, op, ep, a, l, Result(t, p));
    }

    method FromBack(t: string, lp: nat, code: seq<int>, ep: nat, ghost p: Place) returns (ok: bool)
      requires Valid() && p in BackPlaces(t, code) && p.i == lp < |t| && p.ep + 1 == ep && Registers() in Like(p.s, p.r)
      modifies this`loc2, this`low, this`size, braslist, braelist
      ensures ok == Result(t, p).Some?
      ensures ok ==> loc2 == Result(t, p).value.end && Registers() in Like(Final(p.es, p.s), Result(t, p).value.regs)
      ensures !ok ==> Registers() in Like(p.s, p.r)
      decreases |p.es|, 2
    {
      ghost var l := BackLadder(t, code, p, Registers());
      ok := AdvanceBack(t, lp, code, ep, l, Result(t, p));
    }
  }

  ghost predicate RangeStages(t: string, lp: nat, code: seq<int>, o: nat, a: Atom, l: Ladder, found: Option<Found>)
    requires lp < |t|
  {
    && o + 1 < |code| && 0 <= code[o]
    && var low, streak := code[o], Streak(a, t, lp);
       var size := if code[o + 1] == OPENEND then LONGEST else code[o + 1] - low;
       && size >= 0
       && if low > streak then found.None?
          else
            && l in Ladders(t, code, lp + low, 1, o + 2)
            && (if streak < low + size then streak - low else size, found) in l.stages
  }

  ghost predicate BackStages(t: string, lp: nat, code: seq<int>, ep: nat, x: Regs, l: Ladder, found: Option<Found>)
    requires lp < |t|
  {
    && IsRegs(x) && ep < |code| && 0 <= code[ep] < NBRA
    && var bbeg, bend := x.bras[code[ep]], x.brae[code[ep]];
       && 0 <= bbeg < bend < |t|
       && l in Ladders(t, code, lp, bend - bbeg, ep + 1) && (Copies(t[bbeg..bend], t, lp), found) in l.stages
  }

  // ----- elements that are not repeated -----

  /** The place behind an element that is not repeated, with the registers there. */
  ghost predicate IsNext(t: string, code: seq<int>, p: Place, lp: nat, ep: nat, x: Regs, q: Place)
    requires p.i < |t|
  {
    && q in Places(t, code) && q.i == lp < |t| && q.ep == ep && |q.es| < |p.es|
    && Result(t, q) == Result(t, p) && Final(q.es, q.s) == Final(p.es, p.s)
    && x in Like(q.s, q.r) && Like(q.s, q.r) <= Like(p.s, p.r)
  }

  ghost function Nexts(t: string, code: seq<int>, p: Place, lp: nat, ep: nat, x: Regs): iset<Place>
    requires p.i < |t|
  {
    iset q: Place | IsNext(t, code, p, lp, ep, x, q)
  }

  lemma {:induction false} NextMeans(t: string, code: seq<int>, p: Place, lp: nat, ep: nat, x: Regs, q: Place)
    requires p.i < |t| && q in Nexts(t, code, p, lp, ep, x)
    ensures q in Places(t, code) && q.i == lp < |t| && q.ep == ep && |q.es| < |p.es|
    ensures Result(t, q) == Result(t, p) && Final(q.es, q.s) == Final(p.es, p.s)
    ensures x in Like(q.s, q.r) && Like(q.s, q.r) <= Like(p.s, p.r)
  {
  }

  /** The element is passed, or the search fails. */
  lemma {:induction false} OneStep(t: string, code: seq<int>, p: Place, x: Regs) returns (q: Place)
    requires p in OnePlaces(t, code) && x in Like(p.s, p.r)
    ensures p.i < |t| && p.es != []
    ensures match Pass(p.es[0], t, p.i, p.r, 1)
            case None => Result(t, p).None?
            case Some(j) => q in Nexts(t, code, p, j, p.ep + |EncodeElem(p.es[0])|, Set(p.es[0], p.i, x))
  {
    q := p;
    if Pass(p.es[0], t, p.i, p.r, 1).Some? {
      q := SimpleAhead(t, code, p, x);
    } else {
      SimpleStep(t, p);
    }
  }

  lemma {:induction false} AtomStep(t: string, code: seq<int>, p: Place, x: Regs) returns (q: Place)
    requires p in OnePlaces(t, code) && x in Like(p.s, p.r) && p.ep < |code| && IsAtomOp(code[p.ep])
    ensures p.i < |t| && p.ep + 1 + OperandLength(code[p.ep]) <= |code|
    ensures if Matches(code, code[p.ep], p.ep + 1, t[p.i])
            then q in Nexts(t, code, p, p.i + 1, p.ep + 1 + OperandLength(code[p.ep]), x) else Result(t, p).None?
  {
    q := OneStep(t, code, p, x);
    Decode(t, code, p);
    DecodeAtom(code, p.ep, p.es[0]);
    MatchesExact(code, p.ep + 1, p.es[0].atom, t[p.i]);
  }

  lemma {:induction false} EndStep(t: string, code: seq<int>, p: Place, x: Regs) returns (q: Place)
    requires p in OnePlaces(t, code) && x in Like(p.s, p.r) && p.ep < |code| && code[p.ep] == CDOL
    ensures p.i < |t|
    ensures if t[p.i] == NUL then q in Nexts(t, code, p, p.i, p.ep + 1, x) else Result(t, p).None?
  {
    q := OneStep(t, code, p, x);
    Decode(t, code, p);
  }

  lemma {:induction false} OpenStep(t: string, code: seq<int>, p: Place, x: Regs) returns (q: Place)
    requires p in OnePlaces(t, code) && x in Like(p.s, p.r) && p.ep < |code| && code[p.ep] == CBRA
    ensures p.i < |t| && p.ep + 1 < |code| && 0 <= code[p.ep + 1] < NBRA == |x.bras|
    ensures q in Nexts(t, code, p, p.i, p.ep + 2, x.(bras := x.bras[code[p.ep + 1] := p.i]))
  {
    q := OneStep(t, code, p, x);
    Decode(t, code, p);
    CodeHere(t, code, p);
    DecodeGroup(code, p.ep, p.es[0]);
  }

  lemma {:induction false} CloseStep(t: string, code: seq<int>, p: Place, x: Regs) returns (q: Place)
    requires p in OnePlaces(t, code) && x in Like(p.s, p.r) && p.ep < |code| && code[p.ep] == CKET
    ensures p.i < |t| && p.ep + 1 < |code| && 0 <= code[p.ep + 1] < NBRA == |x.brae|
    ensures q in Nexts(t, code, p, p.i, p.ep + 2, x.(brae := x.brae[code[p.ep + 1] := p.i]))
  {
    q := OneStep(t, code, p, x);
    Decode(t, code, p);
    CodeHere(t, code, p);
    DecodeGroup(code, p.ep, p.es[0]);
    assert p.es[0].k in p.s.open;
  }

  lemma {:induction false} BackStep(t: string, code: seq<int>, p: Place, x: Regs) returns (q: Place)
    requires p in OnePlaces(t, code) && x in Like(p.s, p.r) && p.ep < |code|
    requires !IsAtomOp(code[p.ep]) && code[p.ep] != CDOL && code[p.ep] != CBRA && code[p.ep] != CKET
    ensures p.i < |t| && p.ep + 1 < |code| && 0 <= code[p.ep + 1] < NBRA == |x.bras| == |x.brae|
    ensures var b, e := x.bras[code[p.ep + 1]], x.brae[code[p.ep + 1]];
            && 0 <= b <= e < |t|
            && if t[b..e] <= t[p.i..] then q in Nexts(t, code, p, p.i + e - b, p.ep + 2, x) else Result(t, p).None?
  {
    q := OneStep(t, code, p, x);
    CodeHere(t, code, p);
    BackIsLast(t, code, p);
    GroupTextExact(p.s, t, p.i, p.r, p.es[0].k);
  }

  lemma {:induction false} BackIsLast(t: string, code: seq<int>, p: Place)
    requires p in OnePlaces(t, code) && p.ep < |code|
    requires !IsAtomOp(code[p.ep]) && code[p.ep] != CDOL && code[p.ep] != CBRA && code[p.ep] != CKET
    ensures p.es != [] && p.es[0].Back? && |EncodeElem(p.es[0])| == 2 && p.ep + 1 < |code|
            && code[p.ep + 1] == p.es[0].k
  {
    CodeHere(t, code, p);
    var e := p.es[0];
    if e.One? {
      DecodeAtom(code, p.ep, e);
    } else if e.EndOfLine? {
      DecodeEnd(code, p.ep, e);
    } else {
      DecodeGroup(code, p.ep, e);
    }
  }

  // ----- which element is next -----

  ghost function AtomsAt(code: seq<int>, op: int, ep: nat): iset<Atom> {
    iset a: Atom | AtomAt(code, op, ep, a)
  }

  ghost function OnePlaces(t: string, code: seq<int>): iset<Place> {
    iset p: Place |
      p in Places(t, code) && p.i < |t| && p.ep < |code| && p.es != [] && !p.es[0].Many? && !p.es[0].Range?
        && !p.es[0].BackMany?
  }

  ghost function ManyPlaces(t: string, code: seq<int>, op: int): iset<Place> {
    iset p: Place | p in Places(t, code) && p.i < |t| && p.es != [] && p.es[0].Many? &&
                    AtomOp(code, op, p.ep + 1, p.es[0])
  }

  ghost function RangePlaces(t: string, code: seq<int>, op: int): iset<Place> {
    iset p: Place | p in Places(t, code) && p.i < |t| && p.es != [] && p.es[0].Range? &&
                    AtomOp(code, op, p.ep + 1, p.es[0])
  }

  ghost function BackPlaces(t: string, code: seq<int>): iset<Place> {
    iset p: Place |
      && p in Places(t, code) && p.i < |t| && p.ep + 1 < |code|
      && p.es != [] && p.es[0].BackMany? && code[p.ep + 1] == p.es[0].k && |EncodeElem(p.es[0])| == 2
  }

  /** What the opcode at a place announces. */
  lemma {:induction false} Dispatch(t: string, code: seq<int>, p: Place)
    requires p in Places(t, code)
    ensures p.i < |t| && p.ep < |code|
    ensures var op := code[p.ep];
            if op == CCEOF then Result(t, p) == Some(Found(p.i, p.r)) && Final(p.es, p.s) == p.s
            else if IsAtomOp(op - STAR) then p in ManyPlaces(t, code, op - STAR)
            else if IsAtomOp(op - RNGE) then p in RangePlaces(t, code, op - RNGE)
            else if op == CBACK + STAR then p in BackPlaces(t, code)
            else p in OnePlaces(t, code)
  {
    CodeHere(t, code, p);
    if p.es != [] {
      var e := p.es[0];
      if e.One? || e.Many? || e.Range? {
        DecodeAtom(code, p.ep, e);
      } else if e.EndOfLine? {
        DecodeEnd(code, p.ep, e);
      } else {
        DecodeGroup(code, p.ep, e);
      }
    }
  }

  /** The opcode and the operands of an element with a single-character test. */
  ghost predicate AtomOp(code: seq<int>, op: int, ep: nat, e: Elem)
    requires e.One? || e.Many? || e.Range?
  {
    && AtomAt(code, op, ep, e.atom) && |EncodeElem(e)| == 1 + OperandLength(op) + (if e.Range? then 2 else 0)
    && (e.Range? ==>
          var o := ep + OperandLength(op);
          && o + 1 < |code| && code[o] == e.low && e.low < 255
          && (if code[o + 1] == OPENEND then LONGEST else code[o + 1] - e.low) == e.size)
  }

  lemma {:induction false} RangeLadder(t: string, code: seq<int>, p: Place, op: int, ep: nat, after: nat)
    returns (a: Atom, l: Ladder)
    requires p in RangePlaces(t, code, op) && ep == p.ep + 1 && after == ep + OperandLength(op)
    ensures IsText(t) && p.i < |t| && a in AtomsAt(code, op, ep) && RangeStages(t, p.i, code, after, a, l, Result(t, p))
    ensures l.length == |p.es| && l.like == Like(p.s, p.r) && l.final == Final(p.es, p.s)
  {
    a := p.es[0].atom;
    if p.es[0].low <= Streak(a, t, p.i) {
      l := RangeLadderOf(t, code, p, after + 2);
    } else {
      NoRungs(t, p);
      l := Ladder(|p.es|, Like(p.s, p.r), Final(p.es, p.s), iset{});
    }
  }

  lemma {:induction false} RangeLadderOf(t: string, code: seq<int>, p: Place, ep: nat) returns (l: Ladder)
    requires p in Places(t, code) && p.i < |t| && p.es != [] && p.es[0].Range? && ep == p.ep + |EncodeElem(p.es[0])|
    requires p.es[0].low <= Streak(p.es[0].atom, t, p.i)
    ensures l in Ladders(t, code, p.i + p.es[0].low, 1, ep)
    ensures (Greatest(p.es[0], t, p.i, p.r) - p.es[0].low, Result(t, p)) in l.stages
    ensures l.length == |p.es| && l.like == Like(p.s, p.r) && l.final == Final(p.es, p.s)
  {
    var curlp := p.i + p.es[0].low;
    l := MakeLadder(t, code, p, curlp, 1, ep);
    assert Repeats(t, p, curlp, 1);
  }

  lemma {:induction false} ManyLadder(t: string, code: seq<int>, p: Place, op: int, ep: nat, after: nat)
    returns (a: Atom, l: Ladder)
    requires p in ManyPlaces(t, code, op) && ep == p.ep + 1 && after == ep + OperandLength(op)
    ensures IsText(t) && p.i < |t| && a in AtomsAt(code, op, ep)
    ensures l in Ladders(t, code, p.i, 1, after) && (Streak(a, t, p.i), Result(t, p)) in l.stages
    ensures l.length == |p.es| && l.like == Like(p.s, p.r) && l.final == Final(p.es, p.s)
  {
    a := p.es[0].atom;
    l := MakeLadder(t, code, p, p.i, 1, after);
    assert Repeats(t, p, p.i, 1);
  }

  lemma {:induction false} BackLadder(t: string, code: seq<int>, p: Place, x: Regs) returns (l: Ladder)
    requires p in BackPlaces(t, code) && x in Like(p.s, p.r)
    ensures IsText(t) && p.i < |t| && BackStages(t, p.i, code, p.ep + 1, x, l, Result(t, p))
    ensures l.length == |p.es| && l.like == Like(p.s, p.r) && l.final == Final(p.es, p.s)
  {
    var k := p.es[0].k;
    CodeHere(t, code, p);
    GroupTextExact(p.s, t, p.i, p.r, k);
    assert GroupText(t, p.r, k) != "";
    var ct := |GroupText(t, p.r, k)|;
    l := MakeLadder(t, code, p, p.i, ct, p.ep + 2);
    assert Repeats(t, p, p.i, ct);
  }

  /** The first element is repeated, in steps of `ct` from `curlp` on; it sets no register. */
  ghost predicate Repeats(t: string, p: Place, curlp: nat, ct: nat)
    requires p.i < |t|
  {
    && p.es != [] && (p.es[0].Many? || p.es[0].Range? || p.es[0].BackMany?) && ct > 0
    && forall k: nat :: Spaced(t, p, curlp, ct, k)
  }

  /** `k` repetitions more than the least. */
  ghost predicate Spaced(t: string, p: Place, curlp: nat, ct: nat, k: nat)
    requires p.i < |t| && p.es != []
  {
    var j := Pass(p.es[0], t, p.i, p.r, Least(p.es[0]) + k);
    j.Some? ==> j.value == curlp + k * ct
  }

  /** Registers that are alike as far as a scope goes. */
  ghost function Like(s: Scope, r: Regs): iset<Regs> {
    iset x: Regs | Agree(s, r, x)
  }

  ghost function Strides(t: string, p: Place): iset<(nat, nat)>
    requires p.i < |t|
  {
    iset c: (nat, nat) | Repeats(t, p, c.0, c.1)
  }

  lemma {:induction false} LikeBehind(e: Elem, s: Scope, r: Regs, i: nat)
    requires e.Many? || e.Range? || e.BackMany?
    ensures Like(Behind(e, s), Set(e, i, r)) == Like(s, r)
  {
    assert Set(e, i, r) == r && Behind(e, s).open == s.open && Behind(e, s).closed == s.closed;
  }

  /**
   The place behind `k` more than the least repetitions: registers that fit there fit before, and the other way round.
   */
  lemma {:induction false} TryPlace(t: string, code: seq<int>, p: Place, k: nat, curlp: nat, ct: nat) returns (q: Place)
    requires p in Places(t, code) && p.i < |t| && p.es != [] && (curlp, ct) in Strides(t, p)
    requires Least(p.es[0]) + k <= Greatest(p.es[0], t, p.i, p.r) && EndsDown(p.es, t, p.i, p.r, Least(p.es[0]) + k)
    ensures q in Places(t, code) && q.i == curlp + k * ct < |t|
    ensures q.ep == p.ep + |EncodeElem(p.es[0])| && |q.es| < |p.es|
    ensures Like(q.s, q.r) == Like(p.s, p.r) && Final(q.es, q.s) == Final(p.es, p.s)
    ensures Tries(t, p, Least(p.es[0]) + k) ==
            if Result(t, q).Some? then Result(t, q) else Tries(t, p, Least(p.es[0]) + k - 1)
    ensures Result(t, q).None? ==> EndsDown(p.es, t, p.i, p.r, Least(p.es[0]) + k - 1)
    ensures k == 0 ==> Tries(t, p, Least(p.es[0]) + k - 1).None?
  {
    hide EndsDown, Ends, Pass, Greatest, Least, IsPlace, Agree, Attempts, Search;
    var m := Least(p.es[0]) + k;
    PassInterval(p.es[0], t, p.i, p.r, m);
    assert Spaced(t, p, curlp, ct, k);
    EndsStep(t, p, m);
    q := Ahead(t, p, m);
    assert q in Places(t, code) && q.i < |t| by { AheadIsPlace(t, code, p, m); }
    assert Tries(t, p, m) == if Result(t, q).Some? then Result(t, q) else Tries(t, p, m - 1) by { TryStep(t, p, m); }
    assert Like(q.s, q.r) == Like(p.s, p.r) by { LikeBehind(p.es[0], p.s, p.r, p.i); }
    TriesEnd(t, p);
  }

  lemma {:induction false} TriesEnd(t: string, p: Place)
    requires p.i < |t| && p.es != []
    ensures Least(p.es[0]) - 1 <= Greatest(p.es[0], t, p.i, p.r) ==> Tries(t, p, Least(p.es[0]) - 1).None?
  {
  }

  lemma {:induction false} StepBack(k: nat, ct: nat)
    requires ct > 0
    ensures if k > 0 then k * ct == (k - 1) * ct + ct > 0 else k * ct == 0
  {
  }

  /** Numbers of steps behind `curlp`, each with what is left to find from there down. */
  ghost function Stages(t: string, p: Place, curlp: nat, ct: nat, ep: nat): iset<(int, Option<Found>)>
    requires p.i < |t| && p.es != []
  {
    iset x: (int, Option<Found>) |
      && Repeats(t, p, curlp, ct) && ep == p.ep + |EncodeElem(p.es[0])|
      && -1 <= x.0 && Least(p.es[0]) + x.0 <= Greatest(p.es[0], t, p.i, p.r) && x.1 == Tries(t, p, Least(p.es[0]) + x.0)
      && EndsDown(p.es, t, p.i, p.r, Least(p.es[0]) + x.0)
  }

  /** One stage: the place that is tried, and the stage below. */
  lemma {:induction false} Rung(t: string, code: seq<int>, p: Place, k: nat, left: Option<Found>, curlp: nat, ct: nat,
                                ep: nat)
    returns (q: Place, left': Option<Found>)
    requires p in Places(t, code) && p.i < |t| && p.es != [] && (k, left) in Stages(t, p, curlp, ct, ep)
    ensures q in Places(t, code) && q.i == curlp + k * ct < |t| && q.ep == ep && |q.es| < |p.es|
    ensures Like(q.s, q.r) == Like(p.s, p.r) && Final(q.es, q.s) == Final(p.es, p.s)
    ensures left == if Result(t, q).Some? then Result(t, q) else left'
    ensures (Result(t, q).None? ==> (k - 1, left') in Stages(t, p, curlp, ct, ep)) && (k == 0 ==> left'.None?)
  {
    left' := NextStage(t, p, k, left, curlp, ct, ep);
    q := TryPlace(t, code, p, k, curlp, ct);
  }

  lemma {:induction false} NextStage(t: string, p: Place, k: nat, left: Option<Found>, curlp: nat, ct: nat, ep: nat)
    returns (left': Option<Found>)
    requires p.i < |t| && p.es != [] && (k, left) in Stages(t, p, curlp, ct, ep)
    ensures Least(p.es[0]) + k <= Greatest(p.es[0], t, p.i, p.r) && (curlp, ct) in Strides(t, p)
    ensures left' == Tries(t, p, Least(p.es[0]) + k - 1) && left == Tries(t, p, Least(p.es[0]) + k)
    ensures EndsDown(p.es, t, p.i, p.r, Least(p.es[0]) + k) && ep == p.ep + |EncodeElem(p.es[0])|
    ensures EndsDown(p.es, t, p.i, p.r, Least(p.es[0]) + k - 1) ==> (k - 1, left') in Stages(t, p, curlp, ct, ep)
  {
    left' := Tries(t, p, Least(p.es[0]) + k - 1);
  }

  /** The stages of a repeated element, without the element. */
  datatype Ladder = Ladder(length: nat, like: iset<Regs>, final: Scope, stages: iset<(int, Option<Found>)>)

  ghost predicate IsRung(t: string, code: seq<int>, l: Ladder, k: nat, left: Option<Found>, curlp: nat, ct: nat,
                         ep: nat, q: Place, left': Option<Found>) {
    && q in Places(t, code) && q.i == curlp + k * ct < |t| && q.ep == ep && |q.es| < l.length
    && Like(q.s, q.r) == l.like && Final(q.es, q.s) == l.final
    && left == (if Result(t, q).Some? then Result(t, q) else left')
    && (Result(t, q).None? ==> (k - 1, left') in l.stages) && (k == 0 ==> left'.None?)
  }

  ghost predicate HasRung(t: string, code: seq<int>, l: Ladder, k: nat, left: Option<Found>, curlp: nat, ct: nat,
                          ep: nat) {
    exists q, left' :: IsRung(t, code, l, k, left, curlp, ct, ep, q, left')
  }

  ghost function Ladders(t: string, code: seq<int>, curlp: nat, ct: nat, ep: nat): iset<Ladder> {
    iset l: Ladder | IsLadder(t, code, l, curlp, ct, ep)
  }

  ghost predicate IsLadder(t: string, code: seq<int>, l: Ladder, curlp: nat, ct: nat, ep: nat) {
    forall k: nat, left :: IsStage(l, k, left) ==> HasRung(t, code, l, k, left, curlp, ct, ep)
  }

  ghost predicate IsStage(l: Ladder, k: nat, left: Option<Found>) {
    (k, left) in l.stages
  }

  lemma {:induction false} RungOf(t: string, code: seq<int>, l: Ladder, k: nat, left: Option<Found>, curlp: nat,
                                  ct: nat, ep: nat)
    returns (q: Place, left': Option<Found>)
    requires l in Ladders(t, code, curlp, ct, ep) && (k, left) in l.stages
    ensures q in Places(t, code) && q.i == curlp + k * ct < |t| && q.ep == ep && |q.es| < l.length
    ensures Like(q.s, q.r) == l.like && Final(q.es, q.s) == l.final
    ensures left == if Result(t, q).Some? then Result(t, q) else left'
    ensures (Result(t, q).None? ==> (k - 1, left') in l.stages) && (k == 0 ==> left'.None?)
  {
    assert IsStage(l, k, left);
    q, left' :| IsRung(t, code, l, k, left, curlp, ct, ep, q, left');
  }

  lemma {:induction false} MakeLadder(t: string, code: seq<int>, p: Place, curlp: nat, ct: nat, ep: nat)
    returns (l: Ladder)
    requires p in Places(t, code) && p.i < |t| && p.es != []
    ensures l in Ladders(t, code, curlp, ct, ep) && l.stages == Stages(t, p, curlp, ct, ep)
    ensures l.length == |p.es| && l.like == Like(p.s, p.r) && l.final == Final(p.es, p.s)
  {
    l := Ladder(|p.es|, Like(p.s, p.r), Final(p.es, p.s), Stages(t, p, curlp, ct, ep));
    forall k: nat, left | IsStage(l, k, left) ensures HasRung(t, code, l, k, left, curlp, ct, ep) {
      var q, left' := Rung(t, code, p, k, left, curlp, ct, ep);
      assert IsRung(t, code, l, k, left, curlp, ct, ep, q, left');
    }
  }

  /** An element that has no possible count is not found. */
  lemma {:induction false} NoRungs(t: string, p: Place)
    requires p.i < |t| && p.es != [] && Greatest(p.es[0], t, p.i, p.r) < Least(p.es[0])
    ensures Result(t, p).None?
  {
    assert Attempts(p.es, t, p.i, p.r, Greatest(p.es[0], t, p.i, p.r)).None?;
  }

  lemma {:induction false} LikeAhead(e: Elem, s: Scope, r: Regs, i: nat, x: Regs)
    requires Allowed(e, s) && s.open !! s.closed && x in Like(s, r)
    ensures Set(e, i, x) in Like(Behind(e, s), Set(e, i, r)) && Like(Behind(e, s), Set(e, i, r)) <= Like(s, r)
  {
    AgreeSet(e, s, r, x, i);
    forall y | y in Like(Behind(e, s), Set(e, i, r)) ensures y in Like(s, r) {
    }
  }

  /** Behind an element that is not repeated. */
  lemma {:induction false} SimpleAhead(t: string, code: seq<int>, p: Place, x: Regs) returns (q: Place)
    requires p in Places(t, code) && p.i < |t| && p.es != [] && !p.es[0].Many? && !p.es[0].Range? && !p.es[0].BackMany?
    requires Pass(p.es[0], t, p.i, p.r, 1).Some? && x in Like(p.s, p.r)
    ensures q in Places(t, code) && q.i == Pass(p.es[0], t, p.i, p.r, 1).value < |t|
    ensures q.ep == p.ep + |EncodeElem(p.es[0])| && |q.es| < |p.es| && Final(q.es, q.s) == Final(p.es, p.s)
    ensures Result(t, q) == Result(t, p)
    ensures Set(p.es[0], p.i, x) in Like(q.s, q.r) && Like(q.s, q.r) <= Like(p.s, p.r)
  {
    SimpleEnds(t, p);
    q := Ahead(t, p, 1);
    AheadIsPlace(t, code, p, 1);
    SimpleStep(t, p);
    LikeAhead(p.es[0], p.s, p.r, p.i, x);
  }
}
