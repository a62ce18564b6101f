/**
 The compiler of head/regexp.h: it writes byte code into a buffer and patches the opcode of the last element when
 a repetition follows.
 */
module RegexpCompile {
  import opened RegexpMeaning
  import opened RegexpCode
  import opened RegexpSyntax

  // ----- the code so far -----

  /** The code of elements, without the end mark. */
  function EncodeAll(es: seq<Elem>): seq<int> {
    if es == [] then [] else EncodeAll(es[..|es| - 1]) + EncodeElem(es[|es| - 1])
  }

  lemma {:induction false} EncodeAllAdd(es: seq<Elem>, e: Elem)
    ensures EncodeAll(es + [e]) == EncodeAll(es) + EncodeElem(e)
  {
    assert (es + [e])[..|es|] == es;
  }

  lemma {:induction false} EncodeAllAppend(a: seq<Elem>, b: seq<Elem>)
    ensures Encode(a + b) == EncodeAll(a) + Encode(b)
    decreases |a|
  {
    if a == [] {
      assert a + b == b;
    } else {
      var n := |a| - 1;
      var init, last := a[..n], a[n];
      assert a + b == init + ([last] + b);
      EncodeAllAppend(init, [last] + b);
      assert ([last] + b)[1..] == b;
      assert EncodeAll(init) + (EncodeElem(last) + Encode(b)) == EncodeAll(init) + EncodeElem(last) + Encode(b);
    }
  }

  /** The end mark completes the code. */
  lemma {:induction false} EncodeDone(es: seq<Elem>)
    ensures EncodeAll(es) + [CCEOF] == Encode(es)
  {
    EncodeAllAppend(es, []);
    assert es + [] == es;
  }

  /** Setting the low bits of an opcode. */
  function Or(b: int, bits: int): int {
    if bits == RNGE then b - b % 4 + 3 else if b % 2 == 1 then b else b + 1
  }

  /** Patching the opcode of the last element, with more bytes behind it. */
  lemma {:induction false} Patch(init: seq<Elem>, old_: Elem, new_: Elem, op: int, more: seq<int>)
    requires EncodeElem(new_) == [op] + EncodeElem(old_)[1..] + more
    ensures var code, at := EncodeAll(init + [old_]), |EncodeAll(init)|;
            at < |code| && code[at := op] + more == EncodeAll(init + [new_])
  {
    EncodeAllAdd(init, old_);
    EncodeAllAdd(init, new_);
    PatchBytes(EncodeAll(init), EncodeElem(old_), op, more);
  }

  lemma {:induction false} PatchBytes(a: seq<int>, b: seq<int>, op: int, more: seq<int>)
    requires b != []
    ensures (a + b)[|a| := op] + more == a + ([op] + b[1..] + more)
  {
    assert (a + b)[|a| := op] == a + ([op] + b[1..]);
  }

  // ----- bracket expressions -----

  method Place(bits: seq<int>, c: int, ghost members: set<int>) returns (r: seq<int>)
    requires 0 <= c < 128 && bits == Bitmap(members)
    ensures r == Bitmap(members + {c})
  {
    PlaceExact(members, c);
    r := bits[c / 8 := WithBit(bits[c / 8], c % 8)];
  }

  method PlaceSpan(bits: seq<int>, lo: int, hi: int, ghost members: set<int>) returns (r: seq<int>)
    requires 0 <= lo && hi <= 128 && bits == Bitmap(members)
    ensures r == Bitmap(members + Span(lo, hi))
  {
    r := bits;
    var lc := lo;
    ghost var placed := members;
    assert members + Span(lo, hi) == members + Span(lc, hi);
    while lc < hi
      invariant lo <= lc && (lc <= hi || lc == lo) && r == Bitmap(placed)
                && placed + Span(lc, hi) == members + Span(lo, hi)
    {
      r := Place(r, lc, placed);
      assert placed + Span(lc, hi) == placed + {lc} + Span(lc + 1, hi);
      placed := placed + {lc};
      lc := lc + 1;
    }
    assert placed + {} == placed;
  }

  /** Fills the bit map; `s` is the text behind the bracket and the caret. */
  method FillMap(s: string) returns (r: Result<seq<int>>, rest: string)
    ensures match Items(s, 0, {})
            case Ok(b) => r == Ok(Bitmap(b.members)) && rest == b.rest
            case Error(code) => r == Error(code)
            case Outside => r == Outside
  {
    var bits := seq(16, _ => 0);
    ghost var members: set<int> := {};
    rest := s;
    assert bits == Bitmap({});
    var lc := 0;
    while true
      invariant bits == Bitmap(members) && 0 <= lc < 128
      invariant Items(rest, lc, members) == Items(s, 0, {})
      decreases |rest|
    {
      if rest == "" || rest[0] == NUL || rest[0] == '\n' {
        return Error(49), rest;
      }
      var c := rest[0];
      if c as int >= 128 {
        return Outside, rest;
      }
      rest := rest[1..];
      if c == '-' && lc != 0 {
        if rest == "" {
          return Outside, rest;
        }
        c := rest[0];
        rest := rest[1..];
        if c == ']' {
          bits := Place(bits, '-' as int, members);
          members := members + {'-' as int};
          return Ok(bits), rest;
        }
        if !IsPlain(c) {
          return Outside, rest;
        }
        bits := PlaceSpan(bits, lc, c as int, members);
        members := members + Span(lc, c as int);
      }
      lc := c as int;
      bits := Place(bits, lc, members);
      members := members + {lc};
      if rest != "" && rest[0] == ']' {
        return Ok(bits), rest[1..];
      }
    }
  }

  // ----- ranges -----

  method ReadNumber(s: string) returns (r: Result<nat>, rest: string)
    ensures match Number(s, 0)
            case Ok(n) => r == Ok(n.0) && rest == n.1
            case Error(code) => r == Error(code)
            case Outside => r == Outside
  {
    var i: nat := 0;
    rest := s;
    while true
      invariant Number(rest, i) == Number(s, 0)
      decreases |rest|
    {
      if rest == "" || !IsDigit(rest[0]) {
        return Error(16), rest;
      }
      i := 10 * i + (rest[0] as int - '0' as int);
      rest := rest[1..];
      if rest != "" && (rest[0] == '\\' || rest[0] == ',') {
        return Ok(i), rest;
      }
    }
  }

  /** The two bytes of a range. */
  method ReadBounds(s: string) returns (r: Result<seq<int>>, rest: string)
    ensures match BoundsAt(s)
            case Ok(b) => r == Ok(BoundBytes(b.low, b.size)) && rest == b.rest
            case Error(code) => r == Error(code)
            case Outside => r == Outside
  {
    var n;
    n, rest := ReadNumber(s);
    if !n.Ok? {
      return if n.Error? then Error(n.code) else Outside, rest;
    }
    var low := n.value;
    if low >= 255 {
      return Error(11), rest;
    }
    var high := low;
    var c := rest[0];
    rest := rest[1..];
    if c == ',' {
      if rest != "" && rest[0] == '\\' {
        high := OPENEND;
        rest := rest[1..];
      } else {
        n, rest := ReadNumber(rest);
        if !n.Ok? {
          return if n.Error? then Error(n.code) else Outside, rest;
        }
        high := n.value;
        if high >= 255 {
          return Error(11), rest;
        }
        if rest[0] == ',' {
          return Error(44), rest;
        }
        rest := rest[1..];
      }
    }
    if rest == "" || rest[0] != '}' {
      return Error(45), rest;
    }
    if high < low {
      return Error(46), rest;
    }
    return Ok([low, high]), rest[1..];
  }

  function BoundBytes(low: nat, size: nat): seq<int> {
    [low, if size == LONGEST then OPENEND else low + size]
  }

  // ----- the compiler -----

  /** The buffer, where the last element starts (-1 before the first), and the counters of groups. */
  datatype Buffer = Buffer(code: seq<int>, lastep: int, bracket: seq<nat>, nbra: nat, closed: nat)

  /** The buffer holds the elements of the state. */
  ghost predicate Holds(b: Buffer, st: State) {
    && b.code == EncodeAll(st.done) && b.bracket == st.stack && b.nbra == st.nbra && b.closed == st.closed
    && b.lastep == (if st.done == [] then -1 else |EncodeAll(st.done[..|st.done| - 1])|)
  }

  ghost function Held(b: Buffer): iset<State> {
    iset st: State | Holds(b, st)
  }

  function Emit(b: Buffer, bytes: seq<int>): Buffer {
    b.(code := b.code + bytes, lastep := |b.code|)
  }

  lemma {:induction false} EmitHolds(b: Buffer, st: State, e: Elem)
    requires Holds(b, st)
    ensures Holds(Emit(b, EncodeElem(e)), Add(st, e))
  {
    EncodeAllAdd(st.done, e);
    assert (st.done + [e])[..|st.done|] == st.done;
  }

  lemma {:induction false} HasOpcode(e: Elem)
    ensures EncodeElem(e) != []
  {
  }

  /** The opcode that the last pointer points to. */
  lemma {:induction false} LastOpcode(b: Buffer, st: State)
    requires Holds(b, st) && st.done != []
    ensures 0 <= b.lastep < |b.code| && b.code[b.lastep] == EncodeElem(Last(st))[0]
  {
    hide EncodeElem, EncodeAll;
    var n := |st.done| - 1;
    HasOpcode(st.done[n]);
    EncodeAllAdd(st.done[..n], st.done[n]);
    assert st.done == st.done[..n] + [st.done[n]];
  }

  lemma {:induction false} PatchHolds(b: Buffer, st: State, e: Elem, op: int, more: seq<int>)
    requires Holds(b, st) && st.done != [] && EncodeElem(e) == [op] + EncodeElem(Last(st))[1..] + more
    ensures 0 <= b.lastep < |b.code| && Holds(b.(code := b.code[b.lastep := op] + more), Replace(st, e))
  {
    var init := st.done[..|st.done| - 1];
    assert st.done == init + [Last(st)];
    Patch(init, Last(st), e, op, more);
    assert (init + [e])[..|init|] == init;
  }

  lemma {:induction false} Tail(op: int, a: seq<int>)
    ensures ([op] + a)[1..] == a && ([op] + a)[0] == op && [op + STAR] + a == [op + STAR] + a + []
  {
  }

  lemma {:induction false} StarEncodes(a: Atom)
    ensures EncodeElem(Many(a)) == [Or(Opcode(a), STAR)] + EncodeElem(One(a))[1..] + []
            && EncodeElem(One(a))[0] == Opcode(a)
  {
    Tail(Opcode(a), Operand(a));
  }

  /** A star leaves an element alone that is repeated already. */
  lemma {:induction false} StarredTwice(b: Buffer, st: State)
    requires Holds(b, st) && st.done != [] && (Last(st).Many? || Last(st).Range? || Last(st).BackMany?)
    ensures 0 <= b.lastep < |b.code| && Or(b.code[b.lastep], STAR) == b.code[b.lastep] && StarAt(st) == st
    ensures b.code[b.lastep] != CBRA && b.code[b.lastep] != CKET
  {
    LastOpcode(b, st);
    RepeatedIsOdd(Last(st));
  }

  lemma {:induction false} RepeatedIsOdd(e: Elem)
    requires e.Many? || e.Range? || e.BackMany?
    ensures EncodeElem(e)[0] % 2 == 1
  {
    assert forall a: Atom :: Opcode(a) % 4 == 0;
  }

  lemma {:induction false} StarPatches(b: Buffer, st: State)
    requires Holds(b, st) && st.done != [] && (Last(st).One? || Last(st).Back?)
    ensures 0 <= b.lastep < |b.code| && b.code[b.lastep] != CBRA && b.code[b.lastep] != CKET
    ensures Holds(b.(code := b.code[b.lastep := Or(b.code[b.lastep], STAR)]), StarAt(st))
  {
    LastOpcode(b, st);
    var e, op := Last(st), Or(b.code[b.lastep], STAR);
    if e.One? {
      assert EncodeElem(Many(e.atom)) == [op] + EncodeElem(e)[1..] + [] by { StarEncodes(e.atom); }
      PatchHolds(b, st, Many(e.atom), op, []);
    } else {
      PatchHolds(b, st, BackMany(e.k), op, []);
    }
    AppendNothing(b.code[b.lastep := op]);
  }

  lemma {:induction false} AppendNothing(s: seq<int>)
    ensures s + [] == s
  {
  }

  /** A star behind the start or the end of a group stands for itself. */
  lemma {:induction false} StarStands(b: Buffer, st: State)
    requires Holds(b, st) && (st.done == [] || Last(st).Open? || Last(st).Close?)
    ensures b.lastep == -1 || (0 <= b.lastep < |b.code| && (b.code[b.lastep] == CBRA || b.code[b.lastep] == CKET))
    ensures Holds(Emit(b, [CCHR, '*' as int]), StarAt(st))
  {
    EmitHolds(b, st, One(Char('*')));
    assert EncodeElem(One(Char('*'))) == [CCHR, '*' as int];
    if st.done != [] { LastOpcode(b, st); }
  }

  method Star(b: Buffer, ghost st: State) returns (r: Buffer)
    requires st in Held(b) && (st.done != [] ==> !Last(st).EndOfLine?)
    ensures StarAt(st) in Held(r)
  {
    if st.done == [] || Last(st).Open? || Last(st).Close? {
      StarStands(b, st);
    } else if Last(st).One? || Last(st).Back? {
      StarPatches(b, st);
    } else {
      StarredTwice(b, st);
    }
    if b.lastep == -1 || b.code[b.lastep] == CBRA || b.code[b.lastep] == CKET {
      r := Emit(b, [CCHR, '*' as int]);
    } else {
      r := b.(code := b.code[b.lastep := Or(b.code[b.lastep], STAR)]);
    }
  }

  lemma {:induction false} RangeEncodes(e: Elem, low: nat, size: nat)
    requires e.One? || e.Many?
    ensures EncodeElem(Range(e.atom, low, size))
         == [Or(EncodeElem(e)[0], RNGE)] + EncodeElem(e)[1..] + BoundBytes(low, size)
  {
    Tail(Opcode(e.atom), Operand(e.atom));
    Tail(Opcode(e.atom) + STAR, Operand(e.atom));
  }

  lemma {:induction false} RangePatches(b: Buffer, st: State, low: nat, size: nat)
    requires Holds(b, st) && st.done != [] && (Last(st).One? || Last(st).Many?)
    ensures 0 <= b.lastep < |b.code|
    ensures Holds(b.(code := b.code[b.lastep := Or(b.code[b.lastep], RNGE)] + BoundBytes(low, size)),
                  Replace(st, Range(Last(st).atom, low, size)))
  {
    LastOpcode(b, st);
    RangeEncodes(Last(st), low, size);
    PatchHolds(b, st, Range(Last(st).atom, low, size), Or(b.code[b.lastep], RNGE), BoundBytes(low, size));
  }

  /** The element before a range can be told from its opcode. */
  lemma {:induction false} CanRange(b: Buffer, st: State)
    requires Holds(b, st) && st.done != []
    ensures 0 <= b.lastep < |b.code|
    ensures Rangeable(b.code[b.lastep]) <==> Last(st).One? || Last(st).Many?
  {
    LastOpcode(b, st);
    RangeableExact(Last(st));
  }

  lemma {:induction false} RangeableExact(e: Elem)
    ensures EncodeElem(e) != [] && (Rangeable(EncodeElem(e)[0]) <==> e.One? || e.Many?)
  {
  }

  predicate Rangeable(op: int) {
    op == CCHR || op == CDOT || op == CCL || op == NCCL || op == CCHR + STAR || op == CDOT + STAR || op == CCL + STAR
    || op == NCCL + STAR
  }

  /** What a part of the compiler returns for what the text says. */
  ghost predicate Agrees(said: Result<(State, string)>, r: Result<Buffer>, rest: string) {
    match said
    case Error(code) => r == Error(code)
    case Outside => r == Outside
    case Ok(p) => r.Ok? && rest == p.1 && Holds(r.value, p.0)
  }

  ghost function Returns(said: Result<(State, string)>): iset<(Result<Buffer>, string)> {
    iset x: (Result<Buffer>, string) | Agrees(said, x.0, x.1)
  }

  /** A range: the last opcode is patched and two bytes are appended. */
  method Repeat(s: string, b: Buffer, ghost st: State) returns (r: Result<Buffer>, rest: string)
    requires st in Held(b) && st.done != []
    ensures (r, rest) in Returns(RangeAt(st, s))
  {
    var bytes;
    bytes, rest := ReadBounds(s);
    match bytes
    case Error(code) => r := Error(code);
    case Outside => r := Outside;
    case Ok(two) =>
      CanRange(b, st);
      if !Rangeable(b.code[b.lastep]) {
        return Outside, rest;
      }
      ghost var n := BoundsAt(s).value;
      RangePatches(b, st, n.low, n.size);
      r := Ok(b.(code := b.code[b.lastep := Or(b.code[b.lastep], RNGE)] + two));
  }

  lemma {:induction false} OpenHolds(b: Buffer, st: State)
    requires Holds(b, st)
    ensures Holds(Emit(b, [CBRA, b.nbra]).(bracket := b.bracket + [b.nbra], nbra := b.nbra + 1),
                  Add(st, Open(st.nbra)).(stack := st.stack + [st.nbra], nbra := st.nbra + 1))
  {
    EmitHolds(b, st, Open(st.nbra));
  }

  lemma {:induction false} CloseHolds(b: Buffer, st: State, top: nat)
    requires Holds(b, st) && b.bracket != [] && top == |b.bracket| - 1
    ensures Holds(Emit(b, [CKET, b.bracket[top]]).(bracket := b.bracket[..top], closed := b.closed + 1),
                  Add(st, Close(st.stack[top])).(stack := st.stack[..top], closed := st.closed + 1))
  {
    EmitHolds(b, st, Close(st.stack[top]));
  }

  lemma {:induction false} EmitBack(b: Buffer, st: State, k: nat)
    requires Holds(b, st)
    ensures Holds(Emit(b, [CBACK, k]), Add(st, Back(k)))
  {
    EmitHolds(b, st, Back(k));
  }

  method EmitChar(b: Buffer, c: char, rest: string, ghost st: State) returns (r: Result<Buffer>)
    requires st in Held(b)
    ensures (r, rest) in Returns(Ok((Add(st, One(Char(c))), rest)))
  {
    EmitHolds(b, st, One(Char(c)));
    r := Ok(Emit(b, [CCHR] + [c as int]));
  }

  /** An element that is encoded by its opcode alone. */
  method EmitOpcode(b: Buffer, op: int, ghost e: Elem, rest: string, ghost st: State) returns (r: Result<Buffer>)
    requires st in Held(b) && EncodeElem(e) == [op]
    ensures (r, rest) in Returns(Ok((Add(st, e), rest)))
  {
    hide EncodeElem;
    EmitHolds(b, st, e);
    r := Ok(Emit(b, [op]));
  }

  lemma {:induction false} OpcodesAlone()
    ensures EncodeElem(One(Any)) == [CDOT] && EncodeElem(EndOfLine) == [CDOL]
  {
  }

  lemma {:induction false} ReturnsHeld(b: Buffer, st: State, rest: string)
    requires st in Held(b)
    ensures (Ok(b), rest) in Returns(Ok((st, rest)))
  {
  }

  lemma {:induction false} ReturnsOutside(rest: string)
    ensures (Outside, rest) in Returns(Outside)
  {
  }

  method OpenGroup(b: Buffer, rest: string, ghost st: State) returns (r: Result<Buffer>)
    requires st in Held(b)
    ensures (r, rest) in Returns(OpenAt(st, rest))
  {
    if b.nbra >= NBRA {
      return Error(43);
    }
    OpenHolds(b, st);
    r := Ok(Emit(b, [CBRA, b.nbra]).(bracket := b.bracket + [b.nbra], nbra := b.nbra + 1));
  }

  method CloseGroup(b: Buffer, rest: string, ghost st: State) returns (r: Result<Buffer>)
    requires st in Held(b)
    ensures (r, rest) in Returns(CloseAt(st, rest))
  {
    if b.bracket == [] {
      return Error(42);
    }
    var top := |b.bracket| - 1;
    CloseHolds(b, st, top);
    r := Ok(Emit(b, [CKET, b.bracket[top]]).(bracket := b.bracket[..top], closed := b.closed + 1));
  }

  method Reference(b: Buffer, k: nat, rest: string, ghost st: State) returns (r: Result<Buffer>)
    requires st in Held(b)
    ensures (r, rest) in Returns(BackAt(st, k, rest))
  {
    if k >= b.closed {
      return Error(25);
    }
    EmitBack(b, st, k);
    r := Ok(Emit(b, [CBACK, k]));
  }

  lemma {:induction false} NothingYet(b: Buffer, st: State)
    requires st in Held(b)
    ensures b.lastep == -1 <==> st.done == []
  {
  }

  /** What follows a backslash. */
  method Escape(s: string, b: Buffer, ghost st: State) returns (r: Result<Buffer>, rest: string)
    requires st in Held(b)
    ensures (r, rest) in Returns(EscapeAt(s, st))
  {
    rest := s;
    if s == "" || !IsPlain(s[0]) {
      return Outside, rest;
    }
    NothingYet(b, st);
    var c := s[0];
    rest := s[1..];
    if c == '(' {
      r := OpenGroup(b, rest, st);
    } else if c == ')' {
      r := CloseGroup(b, rest, st);
    } else if c == '{' && b.lastep != -1 {
      r, rest := Repeat(rest, b, st);
    } else if '1' <= c <= '9' {
      r := Reference(b, c as int - '1' as int, rest, st);
    } else {
      r := EmitChar(b, if c == 'n' then '\n' else c, rest, st);
    }
  }

  /** A bracket expression. */
  method CompileBracket(s: string, b: Buffer, ghost st: State) returns (r: Result<Buffer>, rest: string)
    requires st in Held(b)
    ensures (r, rest) in Returns(match BracketAt(s)
                                 case Ok(x) => Ok((Add(st, One(x.0)), x.1))
                                 case Error(code) => Error(code)
                                 case Outside => Outside)
  {
    var neg := s != "" && s[0] == '^';
    var bits;
    bits, rest := FillMap(if neg then s[1..] else s);
    match bits
    case Error(code) => r := Error(code);
    case Outside => r := Outside;
    case Ok(m) =>
      ghost var members := Items(if neg then s[1..] else s, 0, {}).value.members;
      EmitHolds(b, st, One(Class(neg, members)));
      if neg {
        var n := Place(m, 0, members);
        r := Ok(Emit(b, [NCCL] + n));
      } else {
        r := Ok(Emit(b, [CCL] + m));
      }
  }

  /** One piece of the text. */
  method CompilePiece(s: string, b: Buffer, ghost st: State) returns (r: Result<Buffer>, rest: string)
    requires s != "" && st in Held(b) && (st.done != [] ==> !Last(st).EndOfLine?)
    ensures (r, rest) in Returns(Piece(s, st))
  {
    hide Returns, Held, EscapeAt, BracketAt, StarAt, Add, EncodeElem;
    OpcodesAlone();
    ReturnsOutside(s[1..]);
    var c := s[0];
    rest := s[1..];
    if !IsPlain(c) {
      r := Outside;
    } else if c == '.' {
      r := EmitOpcode(b, CDOT, One(Any), rest, st);
    } else if c == '*' {
      var b' := Star(b, st);
      ReturnsHeld(b', StarAt(st), rest);
      r := Ok(b');
    } else if c == '$' && rest == "" {
      r := EmitOpcode(b, CDOL, EndOfLine, rest, st);
    } else if c == '[' {
      r, rest := CompileBracket(rest, b, st);
    } else if c == '\\' {
      r, rest := Escape(rest, b, st);
    } else {
      r := EmitChar(b, c, rest, st);
    }
  }

  /** The dollar sign of the end comes last. */
  lemma {:induction false} EndComesLast(s: string, st: State)
    requires s != "" && (st.done != [] ==> !Last(st).EndOfLine?)
    ensures Piece(s, st).Ok? && Piece(s, st).value.1 != "" ==>
              var st' := Piece(s, st).value.0; st'.done != [] ==> !Last(st').EndOfLine?
  {
  }

  /** Compiles a pattern: the code of its elements, or the error it has. */
  method Compile(text: string) returns (r: Result<(bool, seq<int>)>)
    ensures match Parse(text)
            case Ok(p) => r == Ok((p.circf, Encode(p.es)))
            case Error(code) => r == Error(code)
            case Outside => r == Outside
  {
    if text == "" {
      return Outside;
    }
    var circf := text[0] == '^';
    var rest := if circf then text[1..] else text;
    var b := Buffer([], -1, [], 0, 0);
    ghost var st := atStart;
    ghost var whole := Elements(rest, st);
    while rest != ""
      invariant st in Held(b) && Elements(rest, st) == whole
      invariant rest != "" && st.done != [] ==> !Last(st).EndOfLine?
      decreases |rest|
    {
      EndComesLast(rest, st);
      PieceShorter(rest, st);
      var r', rest' := CompilePiece(rest, b, st);
      if r'.Error? {
        return Error(r'.code);
      }
      if r'.Outside? {
        return Outside;
      }
      st := Piece(rest, st).value.0;
      b, rest := r'.value, rest';
    }
    if b.bracket != [] {
      return Error(42);
    }
    EncodeDone(st.done);
    r := Ok((circf, b.code + [CCEOF]));
  }
}
