/**
 Writing patterns: every pattern of the supported kind, written out, is read back as the elements it was written for.
 */
module RegexpShow {
  import opened RegexpMeaning
  import opened RegexpSyntax

  // ----- patterns as written -----

  /** `Through(c)`: a hyphen and a character, a range from the member before. */
  datatype Item = Single(c: char) | Through(c: char)

  /** `dash`: a hyphen in front of the closing bracket. */
  datatype Written =
    | Letter(c: char)
    | Dot
    | Set(neg: bool, items: seq<Item>, dash: bool)

  datatype Bound = Same | Unlimited | UpTo(high: nat)

  datatype Part =
    | Once(w: Written)
    | Star(w: Written)
    | Times(w: Written, low: nat, bound: Bound)
    | Begin
    | Finish
    | Again(k: nat)
    | AgainStar(k: nat)
    | Dollar

  // ----- what they stand for -----

  function Members(items: seq<Item>, lc: int, members: set<int>): set<int> {
    if items == [] then members
    else match items[0]
      case Single(c) => Members(items[1..], c as int, members + {c as int})
      case Through(c) => Members(items[1..], c as int, members + Span(lc, c as int) + {c as int})
  }

  function AtomOf(w: Written): Atom {
    match w
    case Letter(c) => Char(c)
    case Dot => Any
    case Set(neg, items, dash) => Class(neg, Members(items, 0, {}) + if dash then {'-' as int} else {})
  }

  function SizeOf(low: nat, bound: Bound): nat {
    match bound
    case Same => 0
    case Unlimited => 20000
    case UpTo(high) => if high >= low then high - low else 0
  }

  /** The state behind a part: groups are numbered in the order in which they begin. */
  function Behind(st: State, p: Part): State {
    match p
    case Once(w) => Add(st, One(AtomOf(w)))
    case Star(w) => Add(st, Many(AtomOf(w)))
    case Times(w, low, bound) => Add(st, Range(AtomOf(w), low, SizeOf(low, bound)))
    case Begin => Add(st, Open(st.nbra)).(stack := st.stack + [st.nbra], nbra := st.nbra + 1)
    case Finish =>
      if st.stack == [] then st
      else
        var top := |st.stack| - 1;
        Add(st, Close(st.stack[top])).(stack := st.stack[..top], closed := st.closed + 1)
    case Again(k) => Add(st, Back(k))
    case AgainStar(k) => Add(st, BackMany(k))
    case Dollar => Add(st, EndOfLine)
  }

  function Meaning(st: State, ps: seq<Part>): State
    decreases |ps|
  {
    if ps == [] then st else Meaning(Behind(st, ps[0]), ps[1..])
  }

  // ----- which are proper -----

  predicate ProperItem(i: Item, first: bool, neg: bool) {
    match i
    case Single(c) => IsPlain(c) && if first then (c == '^' ==> neg) else c != '-' && c != ']'
    case Through(c) => IsPlain(c) && c != ']' && !first
  }

  predicate ProperItems(items: seq<Item>, first: bool, neg: bool) {
    items == [] || (ProperItem(items[0], first, neg) && ProperItems(items[1..], false, neg))
  }

  predicate ProperWritten(w: Written) {
    match w
    case Letter(c) => IsPlain(c) || c == '\n'
    case Dot => true
    case Set(neg, items, _) => items != [] && ProperItems(items, true, neg)
  }

  predicate ProperPart(st: State, p: Part, last: bool) {
    match p
    case Once(w) => ProperWritten(w)
    case Star(w) => ProperWritten(w)
    case Times(w, low, bound) =>
      ProperWritten(w) && low < 255 && (bound.UpTo? ==> low <= bound.high < 255)
    case Begin => st.nbra < NBRA
    case Finish => st.stack != []
    case Again(k) => k < st.closed && k < NBRA
    case AgainStar(k) => k < st.closed && k < NBRA
    case Dollar => last
  }

  predicate ProperParts(st: State, ps: seq<Part>)
    decreases |ps|
  {
    if ps == [] then st.stack == []
    else ProperPart(st, ps[0], |ps| == 1) && ProperParts(Behind(st, ps[0]), ps[1..])
  }

  // ----- writing -----

  predicate Special(c: char) { c == '.' || c == '*' || c == '$' || c == '[' || c == '\\' || c == '^' }

  function ShowItem(i: Item): string {
    match i
    case Single(c) => [c]
    case Through(c) => ['-', c]
  }

  function ShowItems(items: seq<Item>): string {
    if items == [] then "" else ShowItem(items[0]) + ShowItems(items[1..])
  }

  function ShowWritten(w: Written): string {
    match w
    case Letter(c) => if c == '\n' then "\\n" else if Special(c) then ['\\', c] else [c]
    case Dot => "."
    case Set(neg, items, dash) => "[" + (if neg then "^" else "") + ShowItems(items) + (if dash then "-]" else "]")
  }

  function Digit(d: nat): char
    requires d < 10
  {
    ('0' as int + d) as char
  }

  function Digits(n: nat): string {
    if n < 10 then [Digit(n)] else Digits(n / 10) + [Digit(n % 10)]
  }

  function ShowBound(bound: Bound): string {
    match bound
    case Same => ""
    case Unlimited => ","
    case UpTo(high) => "," + Digits(high)
  }

  function ShowPart(p: Part): string {
    match p
    case Once(w) => ShowWritten(w)
    case Star(w) => ShowWritten(w) + "*"
    case Times(w, low, bound) => ShowWritten(w) + ("\\{" + (Digits(low) + (ShowBound(bound) + "\\}")))
    case Begin => "\\("
    case Finish => "\\)"
    case Again(k) => if k < NBRA then ['\\', Digit(k + 1)] else ""
    case AgainStar(k) => if k < NBRA then ['\\', Digit(k + 1), '*'] else ""
    case Dollar => "$"
  }

  function Show(ps: seq<Part>): string {
    if ps == [] then "" else ShowPart(ps[0]) + Show(ps[1..])
  }

  // ----- bracket expressions are read back -----

  lemma {:induction false} ReadItems(items: seq<Item>, lc: int, members: set<int>, neg: bool, first: bool, dash: bool,
                                     t: string)
    requires ProperItems(items, first, neg) && (first <==> lc == 0) && lc >= 0 && (first ==> items != [])
    ensures var s := ShowItems(items) + (if dash then "-]" else "]") + t;
            var all := Members(items, lc, members) + if dash then {'-' as int} else {};
            (if first then Items(s, lc, members) else MoreItems(s, lc, members)) == Ok(Bracket(all, t))
    decreases |items|
  {
    var close := if dash then "-]" else "]";
    var s := ShowItems(items) + close + t;
    if items == [] {
      assert s == close + t;
      if dash {
        assert s[0] == '-' && s[1] == ']' && s[2..] == t;
      } else {
        assert s[0] == ']' && s[1..] == t && members + {} == members;
      }
    } else {
      var more := ShowItems(items[1..]) + close + t;
      match items[0]
      case Single(c) =>
        assert s == [c] + more && s[1..] == more;
        ReadItems(items[1..], c as int, members + {c as int}, neg, false, dash, t);
      case Through(c) =>
        assert s == ['-', c] + more && s[2..] == more;
        ReadItems(items[1..], c as int, members + Span(lc, c as int) + {c as int}, neg, false, dash, t);
    }
  }

  lemma {:induction false} ReadSet(neg: bool, items: seq<Item>, dash: bool, t: string)
    requires ProperWritten(Set(neg, items, dash))
    ensures var s := (if neg then "^" else "") + ShowItems(items) + (if dash then "-]" else "]") + t;
            BracketAt(s) == Ok((AtomOf(Set(neg, items, dash)), t))
  {
    var body := ShowItems(items) + (if dash then "-]" else "]") + t;
    ReadItems(items, 0, {}, neg, true, dash, t);
    if neg {
      var s := "^" + ShowItems(items) + (if dash then "-]" else "]") + t;
      assert s == "^" + body && s[1..] == body;
    } else {
      assert "" + ShowItems(items) == ShowItems(items);
      assert body[0] == items[0].c;
    }
  }

  lemma {:induction false} OnePiece(s: string, st: State, st': State, t: string)
    requires s != "" && Piece(s, st) == Ok((st', t))
    ensures Elements(s, st) == Elements(t, st')
  {
    PieceShorter(s, st);
  }

  lemma {:induction false} PieceLetter(c: char, t: string, st: State)
    requires IsPlain(c) || c == '\n'
    ensures Piece(ShowWritten(Letter(c)) + t, st) == Ok((Add(st, One(Char(c))), t))
  {
    var s := ShowWritten(Letter(c)) + t;
    if c == '\n' || Special(c) {
      assert s[1..] == (if c == '\n' then "n" else [c]) + t;
      assert s[1..][1..] == t;
    } else {
      assert s[1..] == t;
    }
  }

  lemma {:induction false} PieceSet(neg: bool, items: seq<Item>, dash: bool, t: string, st: State)
    requires ProperWritten(Set(neg, items, dash))
    ensures Piece(ShowWritten(Set(neg, items, dash)) + t, st) == Ok((Add(st, One(AtomOf(Set(neg, items, dash)))), t))
  {
    var s := ShowWritten(Set(neg, items, dash)) + t;
    ReadSet(neg, items, dash, t);
    var body := (if neg then "^" else "") + ShowItems(items) + (if dash then "-]" else "]") + t;
    InFront("[", if neg then "^" else "", ShowItems(items), if dash then "-]" else "]", t);
    assert s == "[" + body && s[1..] == body;
  }

  lemma {:induction false} InFront(a: string, b: string, c: string, d: string, t: string)
    ensures a + b + c + d + t == a + (b + c + d + t)
  {
  }

  /** A character, a dot or a bracket expression. */
  lemma {:induction false} ReadWritten(w: Written, t: string, st: State)
    requires ProperWritten(w)
    ensures Elements(ShowWritten(w) + t, st) == Elements(t, Add(st, One(AtomOf(w))))
  {
    var s := ShowWritten(w) + t;
    match w
    case Letter(c) => PieceLetter(c, t, st);
    case Dot => assert s[1..] == t;
    case Set(neg, items, dash) => PieceSet(neg, items, dash, t, st);
    OnePiece(s, st, Add(st, One(AtomOf(w))), t);
  }

  // ----- ranges are read back -----

  /** The value a number has when its digits follow those of `i`. */
  function Shifted(i: nat, n: nat): nat
    decreases n
  {
    if n < 10 then 10 * i + n else 10 * Shifted(i, n / 10) + n % 10
  }

  lemma {:induction false} NotShifted(n: nat)
    ensures Shifted(0, n) == n
  {
    if n >= 10 { NotShifted(n / 10); }
  }

  lemma {:induction false} NextDigit(d: nat, u: string, i: nat)
    requires d < 10 && u != ""
    ensures Number([Digit(d)] + u, i) ==
            if u[0] == '\\' || u[0] == ',' then Ok((10 * i + d, u)) else Number(u, 10 * i + d)
  {
    var s := [Digit(d)] + u;
    assert s[1..] == u;
  }

  /** The digits of a number that is followed by more digits. */
  lemma {:induction false} ReadDigits(n: nat, u: string, i: nat)
    requires u != "" && IsDigit(u[0])
    ensures Number(Digits(n) + u, i) == Number(u, Shifted(i, n))
    decreases n
  {
    if n < 10 {
      NextDigit(n, u, i);
    } else {
      var v := [Digit(n % 10)] + u;
      assert Digits(n) + u == Digits(n / 10) + v;
      ReadDigits(n / 10, v, i);
      NextDigit(n % 10, u, Shifted(i, n / 10));
    }
  }

  lemma {:induction false} ReadNumber(n: nat, t: string)
    requires t != "" && (t[0] == '\\' || t[0] == ',')
    ensures Number(Digits(n) + t, 0) == Ok((n, t))
  {
    if n < 10 {
      NextDigit(n, t, 0);
    } else {
      var v := [Digit(n % 10)] + t;
      assert Digits(n) + t == Digits(n / 10) + v;
      ReadDigits(n / 10, v, 0);
      NotShifted(n / 10);
      NextDigit(n % 10, t, n / 10);
    }
  }

  lemma {:induction false} BoundsSame(s: string, low: nat, t: string)
    requires low < 255 && Number(s, 0) == Ok((low, "\\}" + t))
    ensures BoundsAt(s) == Ok(Bounds(low, 0, t))
  {
    var u := "\\}" + t;
    assert u[1..] == "}" + t && u[1..][1..] == t;
  }

  lemma {:induction false} BoundsUnlimited(s: string, low: nat, t: string)
    requires low < 255 && Number(s, 0) == Ok((low, ",\\}" + t))
    ensures BoundsAt(s) == Ok(Bounds(low, 20000, t))
  {
    var u := ",\\}" + t;
    assert u[2..] == "}" + t && u[2..][1..] == t;
  }

  lemma {:induction false} BoundsUpTo(s: string, low: nat, high: nat, t: string)
    requires low <= high < 255 && Number(s, 0) == Ok((low, "," + (Digits(high) + ("\\}" + t))))
    ensures BoundsAt(s) == Ok(Bounds(low, high - low, t))
  {
    var v := "\\}" + t;
    var u := "," + (Digits(high) + v);
    assert u[1..] == Digits(high) + v;
    ReadNumber(high, v);
    DigitFirst(high, v);
    assert u[1] == (Digits(high) + v)[0];
    assert v[2..] == t;
  }

  lemma {:induction false} ReadBounds(low: nat, bound: Bound, t: string)
    requires low < 255 && (bound.UpTo? ==> low <= bound.high < 255)
    ensures BoundsAt(Digits(low) + (ShowBound(bound) + "\\}") + t) == Ok(Bounds(low, SizeOf(low, bound), t))
  {
    var u := ShowBound(bound) + "\\}" + t;
    var s := Digits(low) + (ShowBound(bound) + "\\}") + t;
    assert s == Digits(low) + u;
    ReadNumber(low, u);
    match bound
    case Same =>
      assert u == "\\}" + t;
      BoundsSame(s, low, t);
    case Unlimited =>
      assert u == ",\\}" + t;
      BoundsUnlimited(s, low, t);
    case UpTo(high) =>
      assert u == "," + (Digits(high) + ("\\}" + t));
      BoundsUpTo(s, low, high, t);
  }

  lemma {:induction false} DigitFirst(n: nat, t: string)
    ensures Digits(n) + t != "" && IsDigit((Digits(n) + t)[0])
  {
    if n >= 10 {
      DigitFirst(n / 10, [Digit(n % 10)] + t);
      assert Digits(n) + t == Digits(n / 10) + ([Digit(n % 10)] + t);
    }
  }

  // ----- parts are read back -----

  lemma {:induction false} ReadStar(st: State, e: Elem, t: string)
    requires e.One? || e.Back?
    ensures Elements("*" + t, Add(st, e)) == Elements(t, Add(st, if e.One? then Many(e.atom) else BackMany(e.k)))
  {
    var s := "*" + t;
    assert s[1..] == t;
    assert (st.done + [e])[..|st.done|] == st.done;
    OnePiece(s, Add(st, e), Add(st, if e.One? then Many(e.atom) else BackMany(e.k)), t);
  }

  lemma {:induction false} ReadTimes(st: State, a: Atom, low: nat, bound: Bound, t: string)
    requires low < 255 && (bound.UpTo? ==> low <= bound.high < 255)
    ensures Elements("\\{" + (Digits(low) + (ShowBound(bound) + "\\}")) + t, Add(st, One(a)))
         == Elements(t, Add(st, Range(a, low, SizeOf(low, bound))))
  {
    var body := Digits(low) + (ShowBound(bound) + "\\}") + t;
    var s := "\\{" + (Digits(low) + (ShowBound(bound) + "\\}")) + t;
    assert s == "\\{" + body && s[1..] == "{" + body && s[1..][1..] == body;
    ReadBounds(low, bound, t);
    assert (st.done + [One(a)])[..|st.done|] == st.done;
    OnePiece(s, Add(st, One(a)), Add(st, Range(a, low, SizeOf(low, bound))), t);
  }

  lemma {:induction false} ReadBack(st: State, k: nat, t: string)
    requires k < st.closed && k < NBRA
    ensures Elements(['\\', Digit(k + 1)] + t, st) == Elements(t, Add(st, Back(k)))
  {
    var s := ['\\', Digit(k + 1)] + t;
    assert s[1..] == [Digit(k + 1)] + t && s[1..][1..] == t;
    OnePiece(s, st, Add(st, Back(k)), t);
  }

  lemma {:induction false} ReadGroup(st: State, p: Part, t: string)
    requires (p.Begin? && st.nbra < NBRA) || (p.Finish? && st.stack != [])
    ensures Elements(ShowPart(p) + t, st) == Elements(t, Behind(st, p))
  {
    var s := ShowPart(p) + t;
    assert s[1..] == (if p.Begin? then "(" else ")") + t && s[1..][1..] == t;
    OnePiece(s, st, Behind(st, p), t);
  }

  /** A part that is written is read as what it stands for. */
  lemma {:induction false} ReadPart(st: State, p: Part, t: string)
    requires ProperPart(st, p, t == "")
    ensures Elements(ShowPart(p) + t, st) == Elements(t, Behind(st, p))
  {
    hide Elements, Digits, ShowBound, ShowWritten;
    match p
    case Once(w) => ReadWritten(w, t, st);
    case Star(w) =>
      assert ShowPart(p) + t == ShowWritten(w) + ("*" + t);
      ReadWritten(w, "*" + t, st);
      ReadStar(st, One(AtomOf(w)), t);
    case Times(w, low, bound) =>
      var times := "\\{" + (Digits(low) + (ShowBound(bound) + "\\}"));
      assert ShowPart(p) + t == ShowWritten(w) + (times + t);
      ReadWritten(w, times + t, st);
      ReadTimes(st, AtomOf(w), low, bound, t);
    case Begin => ReadGroup(st, p, t);
    case Finish => ReadGroup(st, p, t);
    case Again(k) => ReadBack(st, k, t);
    case AgainStar(k) =>
      assert ShowPart(p) + t == ['\\', Digit(k + 1)] + ("*" + t);
      ReadBack(st, k, "*" + t);
      ReadStar(st, Back(k), t);
    case Dollar =>
      assert ShowPart(p) + t == "$" && "$"[1..] == t;
      OnePiece("$", st, Behind(st, p), t);
  }

  lemma {:induction false} ReadParts(st: State, ps: seq<Part>)
    requires ProperParts(st, ps)
    ensures Elements(Show(ps), st) == Ok(Meaning(st, ps).done)
    decreases |ps|
  {
    if ps != [] {
      var rest := ps[1..];
      assert |ps| == 1 ==> rest == [] && Show(rest) == "";
      if ps[0].Dollar? { assert Show(rest) == ""; }
      ReadPart(st, ps[0], Show(rest));
      ReadParts(Behind(st, ps[0]), rest);
    }
  }

  lemma {:induction false} NoCaretFirst(st: State, ps: seq<Part>)
    requires ProperParts(st, ps) && ps != []
    ensures Show(ps) != "" && Show(ps)[0] != '^'
  {
    assert ShowPart(ps[0]) != "" && ShowPart(ps[0])[0] != '^';
  }

  /** Every proper pattern is read back as what it was written for. */
  lemma {:induction false} RoundTrip(circf: bool, ps: seq<Part>)
    requires ProperParts(atStart, ps) && (circf || ps != [])
    ensures Parse((if circf then "^" else "") + Show(ps)) == Ok(Pattern(circf, Meaning(atStart, ps).done))
  {
    var text := (if circf then "^" else "") + Show(ps);
    ReadParts(atStart, ps);
    if circf {
      assert text[1..] == Show(ps);
    } else {
      assert text == Show(ps);
      NoCaretFirst(atStart, ps);
    }
  }

  /**
   The compiler only counts the closed groups: it accepts a back-reference to a group that is still open once
   another one has been closed.
   */
  lemma {:induction false} OpenGroupReferenced(a: Written)
    requires ProperWritten(a)
    ensures exists ps ::
              ProperParts(atStart, ps)
              && Parse(Show(ps)) == Ok(Pattern(false, [Open(0), Open(1), One(AtomOf(a)), Close(1), Back(0), Close(0)]))
    ensures !WellScoped([Open(0), Open(1), One(AtomOf(a)), Close(1), Back(0), Close(0)], outside)
  {
    var s1 := Behind(atStart, Begin);
    var s2 := Behind(s1, Begin);
    var s3 := Behind(s2, Once(a));
    var s4 := Behind(s3, Finish);
    var s5 := Behind(s4, Again(0));
    assert s2 == State([Open(0), Open(1)], [0, 1], 2, 0);
    assert s3 == State([Open(0), Open(1), One(AtomOf(a))], [0, 1], 2, 0);
    assert s4 == State([Open(0), Open(1), One(AtomOf(a)), Close(1)], [0], 2, 1);
    assert Behind(s5, Finish).done == [Open(0), Open(1), One(AtomOf(a)), Close(1), Back(0), Close(0)];
    var rest := OpenReference(s1, s2, s3, s4, s5, a);
    var ps := InFrontOf(atStart, s1, Begin, rest);
    RoundTrip(false, ps);
    assert "" + Show(ps) == Show(ps);
    NotScoped(One(AtomOf(a)));
  }

  lemma {:induction false} OpenReference(s1: State, s2: State, s3: State, s4: State, s5: State, a: Written)
    returns (ps: seq<Part>)
    requires s1 == State([Open(0)], [0], 1, 0) && s2 == Behind(s1, Begin) && s3 == Behind(s2, Once(a))
             && ProperWritten(a)
    requires s4 == Behind(s3, Finish) && s5 == Behind(s4, Again(0))
    ensures ps != [] && ProperParts(s1, ps) && Meaning(s1, ps) == Behind(s5, Finish)
  {
    ps := InFrontOf(s5, Behind(s5, Finish), Finish, []);
    ps := InFrontOf(s4, s5, Again(0), ps);
    ps := InFrontOf(s3, s4, Finish, ps);
    ps := InFrontOf(s2, s3, Once(a), ps);
    ps := InFrontOf(s1, s2, Begin, ps);
  }

  lemma {:induction false} InFrontOf(st: State, st': State, p: Part, rest: seq<Part>) returns (ps: seq<Part>)
    requires ProperPart(st, p, rest == []) && st' == Behind(st, p) && ProperParts(st', rest)
    ensures ps != [] && ProperParts(st, ps) && Meaning(st, ps) == Meaning(st', rest)
  {
    ps := [p] + rest;
    assert ps[1..] == rest;
  }

  lemma {:induction false} NotScoped(e: Elem)
    requires e.One?
    ensures !WellScoped([Open(0), Open(1), e, Close(1), Back(0), Close(0)], outside)
  {
    var es := [Open(0), Open(1), e, Close(1), Back(0), Close(0)];
    var s1 := RegexpMeaning.Behind(es[0], outside);
    var s2 := RegexpMeaning.Behind(es[1], s1);
    var s3 := RegexpMeaning.Behind(es[2], s2);
    var s4 := RegexpMeaning.Behind(es[3], s3);
    assert es[3..][1..] == es[4..] && es[2..][1..] == es[3..] && es[1..][1..] == es[2..];
    assert !WellScoped(es[4..], s4);
    assert !WellScoped(es[3..], s3);
    assert !WellScoped(es[2..], s2);
    assert !WellScoped(es[1..], s1);
  }
}
