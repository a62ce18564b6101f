/**
 Single elements in a run of the matcher of head/regexp.h (advance): the test of a character against the byte code,
 and how the search goes on at a place of the line and of the code.
 */
module RegexpMatch {
  import opened Options
  import opened RegexpMeaning
  import opened RegexpCode
  import opened RegexpScope

  // ----- places in a run -----

  /** A position in the line and one in the code, with the elements, scope and registers there. */
  datatype Place = Place(i: nat, ep: nat, es: seq<Elem>, s: Scope, r: Regs)

  ghost predicate IsPlace(t: string, code: seq<int>, p: Place) {
    && IsText(t) && (forall i :: 0 <= i < |t| ==> t[i] as int < 256)
    && WellScoped(p.es, p.s) && GoodCode(p.es) && RegsOk(p.s, t, p.i, p.r)
    && p.ep <= |code| && code[p.ep..] == Encode(p.es) && Ends(p.es, t, p.i, p.r)
  }

  ghost function Places(t: string, code: seq<int>): iset<Place> {
    iset p: Place | IsPlace(t, code, p)
  }

  /** What the search finds from a place on. */
  ghost function Result(t: string, p: Place): Option<Found>
    requires p.i < |t|
  {
    Search(p.es, t, p.i, p.r)
  }

  /** The place behind the first element when it is repeated `n` times. */
  ghost function Ahead(t: string, p: Place, n: nat): Place
    requires p.i < |t| && p.es != [] && Pass(p.es[0], t, p.i, p.r, n).Some?
  {
    var e := p.es[0];
    Place(Pass(e, t, p.i, p.r, n).value, p.ep + |EncodeElem(e)|, p.es[1..], Behind(e, p.s), Set(e, p.i, p.r))
  }

  lemma {:induction false} Cut(a: seq<int>, b: seq<int>, code: seq<int>, ep: nat)
    requires ep <= |code| && code[ep..] == a + b
    ensures ep + |a| <= |code| && code[ep..ep + |a|] == a && code[ep + |a|..] == b
  {
    assert code[ep..][..|a|] == a && code[ep..][|a|..] == b;
  }

  /** The code at a place is the code of the first element. */
  lemma {:induction false} CodeHere(t: string, code: seq<int>, p: Place)
    requires p in Places(t, code)
    ensures p.i < |t| && p.ep < |code|
    ensures p.es == [] ==> code[p.ep] == CCEOF
    ensures p.es != [] ==>
              var c := EncodeElem(p.es[0]);
              p.ep + |c| <= |code| && code[p.ep..p.ep + |c|] == c && GoodElem(p.es[0]) && Allowed(p.es[0], p.s)
  {
    assert Encode(p.es)[0] == code[p.ep..][0];
    if p.es != [] { Cut(EncodeElem(p.es[0]), Encode(p.es[1..]), code, p.ep); }
  }

  lemma {:induction false} AheadIsPlace(t: string, code: seq<int>, p: Place, n: nat)
    requires p in Places(t, code) && p.i < |t| && p.es != [] && Pass(p.es[0], t, p.i, p.r, n).Some?
    requires var q := Ahead(t, p, n); q.i < |t| ==> Ends(q.es, t, q.i, q.r)
    ensures Ahead(t, p, n) in Places(t, code) && Ahead(t, p, n).i < |t|
  {
    PassOk(p.es[0], p.s, t, p.i, p.r, n);
    Cut(EncodeElem(p.es[0]), Encode(p.es[1..]), code, p.ep);
  }

  // ----- testing a character -----

  /** The test of CCHR, CDOT, CCL and NCCL, with the operand at `ep`. */
  predicate Matches(code: seq<int>, op: int, ep: nat, c: char)
    requires (op == CCHR ==> ep < |code|) && (op == CCL || op == NCCL ==> ep + 16 <= |code|)
  {
    if op == CCHR then code[ep] == c as int
    else if op == CDOT then c != NUL
    else if op == CCL || op == NCCL then ((c as int < 128 && IsThere(code[ep..ep + 16], c as int)) != (op == NCCL))
    else false
  }

  lemma {:induction false} MatchesExact(code: seq<int>, ep: nat, a: Atom, c: char)
    requires GoodAtom(a) && ep + |Operand(a)| <= |code| && code[ep..ep + |Operand(a)|] == Operand(a)
    ensures Matches(code, Opcode(a), ep, c) <==> Takes(a, c)
  {
    match a
    case Char(d) => assert code[ep] == code[ep..ep + 1][0];
    case Any =>
    case Class(neg, members) =>
      if c as int < 128 { BitmapExact(if neg then members + {0} else members, c as int); }
  }

  predicate IsAtomOp(op: int) {
    op == CCHR || op == CDOT || op == CCL || op == NCCL
  }

  function OperandLength(op: int): nat {
    if op == CCHR then 1 else if op == CCL || op == NCCL then 16 else 0
  }

  /** The operand of a single-character test, and what follows the whole element. */
  ghost predicate AtomAt(code: seq<int>, op: int, ep: nat, a: Atom) {
    && GoodAtom(a) && op == Opcode(a) && |Operand(a)| == OperandLength(op)
    && ep + |Operand(a)| <= |code| && code[ep..ep + |Operand(a)|] == Operand(a)
  }

  lemma {:induction false} Sub1(code: seq<int>, ep: nat, x: int, a: seq<int>, b: seq<int>)
    requires ep + 1 + |a| + |b| <= |code| && code[ep..ep + 1 + |a| + |b|] == [x] + a + b
    ensures code[ep] == x && code[ep + 1..ep + 1 + |a|] == a && code[ep + 1 + |a|..ep + 1 + |a| + |b|] == b
  {
    var c := code[ep..ep + 1 + |a| + |b|];
    assert c[0] == x && c[1..1 + |a|] == a && c[1 + |a|..] == b;
    Slice(code, ep, |c|, 1, 1 + |a|);
    Slice(code, ep, |c|, 1 + |a|, |c|);
  }

  lemma {:induction false} Slice(code: seq<int>, ep: nat, n: nat, i: nat, j: nat)
    requires ep + n <= |code| && i <= j <= n
    ensures code[ep..ep + n][i..j] == code[ep + i..ep + j]
  {
    var a, b := code[ep..ep + n][i..j], code[ep + i..ep + j];
    forall k | 0 <= k < |a| ensures a[k] == b[k] {
      assert a[k] == code[ep..ep + n][i + k];
    }
  }

  /** What the opcode of an element tells about the element. */
  lemma {:induction false} DecodeAtom(code: seq<int>, ep: nat, e: Elem)
    requires GoodElem(e) && ep + |EncodeElem(e)| <= |code| && code[ep..ep + |EncodeElem(e)|] == EncodeElem(e)
    requires e.One? || e.Many? || e.Range?
    ensures AtomAt(code, Opcode(e.atom), ep + 1, e.atom) && IsAtomOp(Opcode(e.atom))
    ensures code[ep] == Opcode(e.atom) + (if e.One? then 0 else if e.Many? then STAR else RNGE)
    ensures |EncodeElem(e)| == 1 + OperandLength(Opcode(e.atom)) + (if e.Range? then 2 else 0)
    ensures e.Range? ==>
              var o := ep + 1 + OperandLength(Opcode(e.atom));
              o + 1 < |code| && code[o] == e.low && code[o + 1] == if e.size == LONGEST then OPENEND else e.low + e.size
  {
    hide Bitmap, GoodElem;
    AtomOfGood(e);
    var op := EncodeElem(e)[0];
    match e
    case One(a) => assert EncodeElem(e) == [op] + Operand(a) + []; Sub1(code, ep, op, Operand(a), []);
    case Many(a) => assert EncodeElem(e) == [op] + Operand(a) + []; Sub1(code, ep, op, Operand(a), []);
    case Range(a, low, size) =>
      var b := [low, if size == LONGEST then OPENEND else low + size];
      Sub1(code, ep, op, Operand(a), b);
      Two(code, ep + 1 + |Operand(a)|, b[0], b[1]);
  }

  lemma {:induction false} AtomOfGood(e: Elem)
    requires GoodElem(e) && (e.One? || e.Many? || e.Range?)
    ensures GoodAtom(e.atom) && |Operand(e.atom)| == OperandLength(Opcode(e.atom)) && IsAtomOp(Opcode(e.atom))
  {
  }

  lemma {:induction false} Two(code: seq<int>, o: nat, x: int, y: int)
    requires o + 2 <= |code| && code[o..o + 2] == [x, y]
    ensures code[o] == x && code[o + 1] == y
  {
    assert code[o] == code[o..o + 2][0] && code[o + 1] == code[o..o + 2][1];
  }

  lemma {:induction false} DecodeGroup(code: seq<int>, ep: nat, e: Elem)
    requires ep + |EncodeElem(e)| <= |code| && code[ep..ep + |EncodeElem(e)|] == EncodeElem(e)
    requires e.Open? || e.Close? || e.Back? || e.BackMany?
    ensures |EncodeElem(e)| == 2 && ep + 1 < |code| && code[ep + 1] == e.k
    ensures code[ep] == if e.Open? then CBRA else if e.Close? then CKET else if e.Back? then CBACK else CBACK + STAR
  {
    assert code[ep] == code[ep..ep + 2][0] && code[ep + 1] == code[ep..ep + 2][1];
  }

  lemma {:induction false} DecodeEnd(code: seq<int>, ep: nat, e: Elem)
    requires ep + |EncodeElem(e)| <= |code| && code[ep..ep + |EncodeElem(e)|] == EncodeElem(e) && e.EndOfLine?
    ensures |EncodeElem(e)| == 1 && ep < |code| && code[ep] == CDOL
  {
    assert code[ep] == code[ep..ep + 1][0];
  }

  /** Which element the opcode at a place announces. */
  lemma {:induction false} Decode(t: string, code: seq<int>, p: Place)
    requires p in Places(t, code)
    ensures p.i < |t| && p.ep < |code|
    ensures var op := code[p.ep];
            && (op == CCEOF ==> p.es == [])
            && (IsAtomOp(op) ==> p.es != [] && p.es[0].One?)
            && (IsAtomOp(op - STAR) ==> p.es != [] && p.es[0].Many?)
            && (IsAtomOp(op - RNGE) ==> p.es != [] && p.es[0].Range?)
            && (op == CBRA ==> p.es != [] && p.es[0].Open?) && (op == CKET ==> p.es != [] && p.es[0].Close?)
            && (op == CBACK ==> p.es != [] && p.es[0].Back?) && (op == CBACK + STAR ==> p.es != [] && p.es[0].BackMany?)
            && (op == CDOL ==> p.es != [] && p.es[0].EndOfLine?)
    ensures p.es != [] ==>
              var e := p.es[0];
              GoodElem(e) && p.ep + |EncodeElem(e)| <= |code| && code[p.ep..p.ep + |EncodeElem(e)|] == EncodeElem(e)
  {
    CodeHere(t, code, p);
    if p.es != [] {
      var e := p.es[0];
      if e.One? || e.Many? || e.Range? {
        DecodeAtom(code, p.ep, e);
      } else if e.EndOfLine? {
        DecodeEnd(code, p.ep, e);
      } else {
        DecodeGroup(code, p.ep, e);
      }
    }
  }

  // ----- steps of the search -----

  /** An element that is not repeated: the search goes on behind it, or fails. */
  lemma {:induction false} SimpleStep(t: string, p: Place)
    requires p.i < |t| && p.es != [] && !p.es[0].Many? && !p.es[0].Range? && !p.es[0].BackMany?
    ensures Pass(p.es[0], t, p.i, p.r, 1).None? ==> Result(t, p).None?
    ensures Pass(p.es[0], t, p.i, p.r, 1).Some? && Ahead(t, p, 1).i < |t| ==> Result(t, p) == Result(t, Ahead(t, p, 1))
  {
    var n := Greatest(p.es[0], t, p.i, p.r);
    assert Attempts(p.es, t, p.i, p.r, 0).None?;
    if n == 1 { AttemptsNext(p.es, t, p.i, p.r, 1); }
  }

  /** Behind an element that is not repeated the search still ends. */
  lemma {:induction false} SimpleEnds(t: string, p: Place)
    requires p.i < |t| && p.es != [] && !p.es[0].Many? && !p.es[0].Range? && !p.es[0].BackMany?
    requires Ends(p.es, t, p.i, p.r) && Pass(p.es[0], t, p.i, p.r, 1).Some?
    ensures var q := Ahead(t, p, 1); q.i < |t| ==> Ends(q.es, t, q.i, q.r)
  {
  }

  /** One attempt: what is behind it ends, and if it fails what is left to try ends. */
  lemma {:induction false} EndsStep(t: string, p: Place, n: nat)
    requires p.i < |t| && p.es != [] && Least(p.es[0]) <= n <= Greatest(p.es[0], t, p.i, p.r)
    requires EndsDown(p.es, t, p.i, p.r, n)
    ensures Pass(p.es[0], t, p.i, p.r, n).Some?
    ensures var q := Ahead(t, p, n);
            q.i < |t| ==>
              Ends(q.es, t, q.i, q.r) && (Result(t, q).None? ==> EndsDown(p.es, t, p.i, p.r, n - 1))
  {
    PassInterval(p.es[0], t, p.i, p.r, n);
  }

  /** What is still to be tried with at most `n` repetitions of the first element. */
  ghost function Tries(t: string, p: Place, n: int): Option<Found>
    requires p.i < |t| && p.es != [] && n <= Greatest(p.es[0], t, p.i, p.r)
  {
    Attempts(p.es, t, p.i, p.r, n)
  }

  lemma {:induction false} TryStep(t: string, p: Place, n: nat)
    requires p.i < |t| && p.es != [] && Least(p.es[0]) <= n <= Greatest(p.es[0], t, p.i, p.r)
    ensures Pass(p.es[0], t, p.i, p.r, n).Some?
    ensures Ahead(t, p, n).i < |t| ==>
              Tries(t, p, n) ==
                if Result(t, Ahead(t, p, n)).Some? then Result(t, Ahead(t, p, n)) else Tries(t, p, n - 1)
  {
    PassInterval(p.es[0], t, p.i, p.r, n);
    AttemptsNext(p.es, t, p.i, p.r, n);
  }
}
