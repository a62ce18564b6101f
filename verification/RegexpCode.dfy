/**
 The byte code of head/regexp.h: how the compiled form of a pattern looks.
 */
module RegexpCode {
  import opened RegexpMeaning

  const CBRA := 2
  const CCHR := 4
  const CDOT := 8
  const CCL := 12
  const CDOL := 20
  const CCEOF := 22
  const CKET := 24
  const CBACK := 36
  const NCCL := 40

  const STAR := 1
  const RNGE := 3

  /** The upper bound byte of a range that is left open, and what it stands for. */
  const OPENEND := 255
  const LONGEST := 20000

  // ----- bit maps -----

  function BitTab(k: nat): nat
    requires k < 8
  {
    match k
    case 0 => 1
    case 1 => 2
    case 2 => 4
    case 3 => 8
    case 4 => 16
    case 5 => 32
    case 6 => 64
    case 7 => 128
  }

  /** b & bittab[k] */
  predicate HasBit(b: int, k: nat)
    requires k < 8
  {
    b / BitTab(k) % 2 == 1
  }

  /** b | bittab[k] */
  function WithBit(b: int, k: nat): int
    requires k < 8
  {
    if HasBit(b, k) then b else b + BitTab(k)
  }

  predicate IsThere(bits: seq<int>, c: int)
    requires |bits| == 16 && 0 <= c < 128
  {
    HasBit(bits[c / 8], c % 8)
  }

  /** The members of a class among the codes below 128. */
  function Bit(members: set<int>, c: int): (b: nat)
    ensures b <= 1
  {
    if c in members then 1 else 0
  }

  function Byte(members: set<int>, i: nat): int {
    Bit(members, 8 * i) + 2 * Bit(members, 8 * i + 1) + 4 * Bit(members, 8 * i + 2) + 8 * Bit(members, 8 * i + 3)
    + 16 * Bit(members, 8 * i + 4) + 32 * Bit(members, 8 * i + 5) + 64 * Bit(members, 8 * i + 6)
    + 128 * Bit(members, 8 * i + 7)
  }

  function Bitmap(members: set<int>): (bits: seq<int>)
    ensures |bits| == 16 && forall i :: 0 <= i < 16 ==> bits[i] == Byte(members, i)
  {
    seq(16, i requires 0 <= i < 16 => Byte(members, i))
  }

  lemma {:induction false} SumBit(a: nat, b: nat, c: nat, d: nat, e: nat, f: nat, g: nat, h: nat, k: nat)
    requires a <= 1 && b <= 1 && c <= 1 && d <= 1 && e <= 1 && f <= 1 && g <= 1 && h <= 1 && k < 8
    ensures HasBit(a + 2 * b + 4 * c + 8 * d + 16 * e + 32 * f + 64 * g + 128 * h, k) <==>
            [a, b, c, d, e, f, g, h][k] == 1
  {
    var low, high := a + 2 * b + 4 * c + 8 * d, e + 2 * f + 4 * g + 8 * h;
    if k < 4 {
      LowBit(a, b, c, d, high, k);
    } else {
      var s := low + 16 * high;
      assert s / 16 == high && BitTab(k) == 16 * BitTab(k - 4);
      assert s / BitTab(k) == high / BitTab(k - 4);
      LowBit(e, f, g, h, 0, k - 4);
    }
  }

  lemma {:induction false} LowBit(a: nat, b: nat, c: nat, d: nat, high: nat, k: nat)
    requires a <= 1 && b <= 1 && c <= 1 && d <= 1 && k < 4
    ensures HasBit(a + 2 * b + 4 * c + 8 * d + 16 * high, k) <==> [a, b, c, d][k] == 1
  {
    var s := a + 2 * b + 4 * c + 8 * d + 16 * high;
    match k
    case 0 => assert s / 1 % 2 == a;
    case 1 => assert s / 2 == b + 2 * (c + 2 * d + 4 * high);
    case 2 => assert s / 4 == c + 2 * (d + 2 * high);
    case 3 => assert s / 8 == d + 2 * high;
  }

  lemma {:induction false} ByteBit(members: set<int>, i: nat, k: nat)
    requires k < 8
    ensures HasBit(Byte(members, i), k) <==> 8 * i + k in members
  {
    SumBit(Bit(members, 8 * i), Bit(members, 8 * i + 1), Bit(members, 8 * i + 2), Bit(members, 8 * i + 3),
           Bit(members, 8 * i + 4), Bit(members, 8 * i + 5), Bit(members, 8 * i + 6), Bit(members, 8 * i + 7), k);
  }

  /** ISTHERE after the map has been built. */
  lemma {:induction false} BitmapExact(members: set<int>, c: int)
    requires 0 <= c < 128
    ensures IsThere(Bitmap(members), c) <==> c in members
  {
    ByteBit(members, c / 8, c % 8);
    assert 8 * (c / 8) + c % 8 == c;
  }

  lemma {:induction false} BitMore(members: set<int>, d: int, c: int)
    ensures Bit(members + {d}, c) == if c == d then 1 else Bit(members, c)
  {
  }

  lemma {:induction false} ByteMore(members: set<int>, d: int, i: nat)
    ensures !(8 * i <= d < 8 * i + 8) ==> Byte(members + {d}, i) == Byte(members, i)
    ensures 8 * i <= d < 8 * i + 8 && d !in members ==> Byte(members + {d}, i) == Byte(members, i) + BitTab(d - 8 * i)
  {
    BitMore(members, d, 8 * i);
    BitMore(members, d, 8 * i + 1);
    BitMore(members, d, 8 * i + 2);
    BitMore(members, d, 8 * i + 3);
    BitMore(members, d, 8 * i + 4);
    BitMore(members, d, 8 * i + 5);
    BitMore(members, d, 8 * i + 6);
    BitMore(members, d, 8 * i + 7);
  }

  lemma {:induction false} PlaceByte(members: set<int>, i: nat, k: nat)
    requires k < 8
    ensures Byte(members + {8 * i + k}, i) == WithBit(Byte(members, i), k)
  {
    ByteBit(members, i, k);
    if 8 * i + k in members {
      assert members + {8 * i + k} == members;
    } else {
      ByteMore(members, 8 * i + k, i);
    }
  }

  /** PLACE adds one member to a map. */
  lemma {:induction false} PlaceExact(members: set<int>, c: int)
    requires 0 <= c < 128
    ensures Bitmap(members + {c}) == Bitmap(members)[c / 8 := WithBit(Bitmap(members)[c / 8], c % 8)]
  {
    var i, k := c / 8, c % 8;
    assert c == 8 * i + k;
    PlaceByte(members, i, k);
    OtherBytes(members, i, k);
    OneByte(members + {c}, members, i, Byte(members + {c}, i));
  }

  lemma {:induction false} OtherBytes(members: set<int>, i: nat, k: nat)
    requires k < 8
    ensures forall j: nat :: j != i ==> Byte(members + {8 * i + k}, j) == Byte(members, j)
  {
    forall j: nat | j != i ensures Byte(members + {8 * i + k}, j) == Byte(members, j) {
      OtherByte(members, i, k, j);
    }
  }

  lemma {:induction false} OtherByte(members: set<int>, i: nat, k: nat, j: nat)
    requires k < 8 && j != i
    ensures Byte(members + {8 * i + k}, j) == Byte(members, j)
  {
    hide Byte;
    ByteMore(members, 8 * i + k, j);
  }

  lemma {:induction false} OneByte(a: set<int>, b: set<int>, i: nat, x: int)
    requires i < 16 && Byte(a, i) == x && forall j: nat :: j < 16 && j != i ==> Byte(a, j) == Byte(b, j)
    ensures Bitmap(a) == Bitmap(b)[i := x]
  {
  }

  // ----- the code -----

  /** Codes below 128, without NUL. */
  ghost predicate IsAscii(members: set<int>) {
    forall c :: c in members ==> 0 < c < 128
  }

  /** Characters are ASCII and not NUL. */
  ghost predicate GoodAtom(a: Atom) {
    match a
    case Char(c) => 0 < c as int < 128
    case Any => true
    case Class(_, members) => IsAscii(members)
  }

  function Opcode(a: Atom): int {
    match a
    case Char(_) => CCHR
    case Any => CDOT
    case Class(neg, _) => if neg then NCCL else CCL
  }

  /** The bytes behind the opcode; a negated class has NUL in its map so that NUL does not match. */
  function Operand(a: Atom): seq<int> {
    match a
    case Char(c) => [c as int]
    case Any => []
    case Class(neg, members) => Bitmap(if neg then members + {0} else members)
  }

  function EncodeElem(e: Elem): seq<int> {
    match e
    case One(a) => [Opcode(a)] + Operand(a)
    case Many(a) => [Opcode(a) + STAR] + Operand(a)
    case Range(a, low, size) => [Opcode(a) + RNGE] + Operand(a) + [low, if size == LONGEST then OPENEND else low + size]
    case Open(k) => [CBRA, k]
    case Close(k) => [CKET, k]
    case Back(k) => [CBACK, k]
    case BackMany(k) => [CBACK + STAR, k]
    case EndOfLine => [CDOL]
  }

  function Encode(es: seq<Elem>): (code: seq<int>)
    ensures code != []
  {
    if es == [] then [CCEOF] else EncodeElem(es[0]) + Encode(es[1..])
  }

  ghost predicate GoodElem(e: Elem) {
    match e
    case One(a) => GoodAtom(a)
    case Many(a) => GoodAtom(a)
    case Range(a, _, _) => GoodAtom(a)
    case _ => true
  }

  ghost predicate GoodCode(es: seq<Elem>) {
    forall i :: 0 <= i < |es| ==> GoodElem(es[i])
  }
}
