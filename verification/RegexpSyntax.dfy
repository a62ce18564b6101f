/**
 The pattern syntax that head/regexp.h compiles: which elements a pattern text stands for. The text is ASCII and
 ends with the end of the string.
 */
module RegexpSyntax {
  import opened RegexpMeaning

  /** `Outside`: a pattern that is not of the supported kind. */
  datatype Result<T> = Ok(value: T) | Error(code: nat) | Outside

  // ----- bracket expressions -----

  datatype Bracket = Bracket(members: set<int>, rest: string)

  /** The codes from `lo` up to but not including `hi`. */
  function Span(lo: int, hi: int): set<int>
    decreases hi - lo
  {
    if lo >= hi then {} else {lo} + Span(lo + 1, hi)
  }

  lemma {:induction false} SpanExact(lo: int, hi: int, x: int)
    ensures x in Span(lo, hi) <==> lo <= x < hi
    decreases hi - lo
  {
    if lo < hi { SpanExact(lo + 1, hi, x); }
  }

  predicate IsPlain(c: char) { c != NUL && c != '\n' && c as int < 128 }

  /** The members from here on; `lc` is the last one, 0 before the first. */
  function Items(s: string, lc: int, members: set<int>): Result<Bracket>
    decreases |s|, 0
  {
    if s == "" || s[0] == NUL || s[0] == '\n' then Error(49)
    else if s[0] as int >= 128 then Outside
    else if s[0] == '-' && lc != 0 then
      if |s| == 1 then Outside
      else if s[1] == ']' then Ok(Bracket(members + {'-' as int}, s[2..]))
      else if !IsPlain(s[1]) then Outside
      else MoreItems(s[2..], s[1] as int, members + Span(lc, s[1] as int) + {s[1] as int})
    else MoreItems(s[1..], s[0] as int, members + {s[0] as int})
  }

  function MoreItems(s: string, lc: int, members: set<int>): Result<Bracket>
    decreases |s|, 1
  {
    if s != "" && s[0] == ']' then Ok(Bracket(members, s[1..])) else Items(s, lc, members)
  }

  /** What follows the opening bracket. */
  function BracketAt(s: string): Result<(Atom, string)> {
    var neg := s != "" && s[0] == '^';
    match Items(if neg then s[1..] else s, 0, {})
    case Ok(b) => Ok((Class(neg, b.members), b.rest))
    case Error(code) => Error(code)
    case Outside => Outside
  }

  // ----- ranges -----

  predicate IsDigit(c: char) { '0' <= c <= '9' }

  /** A number and the text from the character behind it on, which is a backslash or a comma. */
  function Number(s: string, i: nat): (r: Result<(nat, string)>)
    ensures r.Ok? ==> r.value.1 != "" && |r.value.1| < |s| && (r.value.1[0] == '\\' || r.value.1[0] == ',')
  {
    if s == "" || !IsDigit(s[0]) then Error(16)
    else
      var n := 10 * i + (s[0] as int - '0' as int);
      if |s| > 1 && (s[1] == '\\' || s[1] == ',') then Ok((n, s[1..])) else Number(s[1..], n)
  }

  datatype Bounds = Bounds(low: nat, size: nat, rest: string)

  /** The end of a range: a backslash has been read. */
  function Closing(low: nat, size: nat, s: string): Result<Bounds> {
    if s != "" && s[0] == '}' then Ok(Bounds(low, size, s[1..])) else Error(45)
  }

  function SecondBound(low: nat, s: string): Result<Bounds> {
    match Number(s, 0)
    case Error(code) => Error(code)
    case Outside => Outside
    case Ok(n) =>
      if n.0 >= 255 then Error(11)
      else if n.1[0] == ',' then Error(44)
      else if |n.1| == 1 || n.1[1] != '}' then Error(45)
      else if n.0 < low then Error(46)
      else Ok(Bounds(low, n.0 - low, n.1[2..]))
  }

  function BoundsAt(s: string): Result<Bounds> {
    match Number(s, 0)
    case Error(code) => Error(code)
    case Outside => Outside
    case Ok(n) =>
      if n.0 >= 255 then Error(11)
      else if n.1[0] == '\\' then Closing(n.0, 0, n.1[1..])
      else if |n.1| > 1 && n.1[1] == '\\' then Closing(n.0, 20000, n.1[2..])
      else SecondBound(n.0, n.1[1..])
  }

  // ----- patterns -----

  /** The elements so far, the numbers of the open groups, how many groups were opened and closed. */
  datatype State = State(done: seq<Elem>, stack: seq<nat>, nbra: nat, closed: nat)

  function Add(st: State, e: Elem): State {
    st.(done := st.done + [e])
  }

  function Last(st: State): Elem
    requires st.done != []
  {
    st.done[|st.done| - 1]
  }

  function Replace(st: State, e: Elem): State
    requires st.done != []
  {
    st.(done := st.done[..|st.done| - 1] + [e])
  }

  /** A star: it repeats the last element, or stands for itself. */
  function StarAt(st: State): State {
    if st.done == [] then Add(st, One(Char('*')))
    else match Last(st)
      case Open(_) => Add(st, One(Char('*')))
      case Close(_) => Add(st, One(Char('*')))
      case One(a) => Replace(st, Many(a))
      case Back(k) => Replace(st, BackMany(k))
      case _ => st
  }

  function OpenAt(st: State, rest: string): Result<(State, string)> {
    if st.nbra >= NBRA then Error(43)
    else Ok((Add(st, Open(st.nbra)).(stack := st.stack + [st.nbra], nbra := st.nbra + 1), rest))
  }

  function CloseAt(st: State, rest: string): Result<(State, string)> {
    if st.stack == [] then Error(42)
    else
      var top := |st.stack| - 1;
      Ok((Add(st, Close(st.stack[top])).(stack := st.stack[..top], closed := st.closed + 1), rest))
  }

  /** A range, which is for single characters. */
  function RangeAt(st: State, rest: string): Result<(State, string)>
    requires st.done != []
  {
    match BoundsAt(rest)
    case Error(code) => Error(code)
    case Outside => Outside
    case Ok(b) =>
      if Last(st).One? || Last(st).Many? then Ok((Replace(st, Range(Last(st).atom, b.low, b.size)), b.rest))
      else Outside
  }

  function BackAt(st: State, k: nat, rest: string): Result<(State, string)> {
    if k >= st.closed then Error(25) else Ok((Add(st, Back(k)), rest))
  }

  /** What follows a backslash. */
  function EscapeAt(s: string, st: State): Result<(State, string)> {
    if s == "" || !IsPlain(s[0]) then Outside
    else
      var c, rest := s[0], s[1..];
      if c == '(' then OpenAt(st, rest)
      else if c == ')' then CloseAt(st, rest)
      else if c == '{' && st.done != [] then RangeAt(st, rest)
      else if '1' <= c <= '9' then BackAt(st, c as int - '1' as int, rest)
      else Ok((Add(st, One(Char(if c == 'n' then '\n' else c))), rest))
  }

  /** One piece of the text. */
  function Piece(s: string, st: State): Result<(State, string)>
    requires s != ""
  {
    var c, rest := s[0], s[1..];
    if !IsPlain(c) then Outside
    else if c == '.' then Ok((Add(st, One(Any)), rest))
    else if c == '*' then Ok((StarAt(st), rest))
    else if c == '$' && rest == "" then Ok((Add(st, EndOfLine), rest))
    else if c == '[' then
      match BracketAt(rest)
      case Ok(b) => Ok((Add(st, One(b.0)), b.1))
      case Error(code) => Error(code)
      case Outside => Outside
    else if c == '\\' then EscapeAt(rest, st)
    else Ok((Add(st, One(Char(c))), rest))
  }

  lemma {:induction false} ItemsShorter(s: string, lc: int, members: set<int>)
    ensures Items(s, lc, members).Ok? ==> |Items(s, lc, members).value.rest| < |s|
    ensures MoreItems(s, lc, members).Ok? ==> |MoreItems(s, lc, members).value.rest| < |s|
    decreases |s|
  {
    if s != "" {
      if |s| > 1 { ItemsShorter(s[2..], s[1] as int, members + Span(lc, s[1] as int) + {s[1] as int}); }
      ItemsShorter(s[1..], s[0] as int, members + {s[0] as int});
    }
  }

  lemma {:induction false} PieceShorter(s: string, st: State)
    requires s != ""
    ensures Piece(s, st).Ok? ==> |Piece(s, st).value.1| < |s|
  {
    var rest := s[1..];
    ItemsShorter(rest, 0, {});
    if rest != "" { ItemsShorter(rest[1..], 0, {}); }
  }

  /** The elements of the text. */
  function Elements(s: string, st: State): Result<seq<Elem>>
    decreases |s|
  {
    if s == "" then (if st.stack != [] then Error(42) else Ok(st.done))
    else
      match Piece(s, st)
      case Error(code) => Error(code)
      case Outside => Outside
      case Ok(p) => (PieceShorter(s, st); Elements(p.1, p.0))
  }

  const atStart := State([], [], 0, 0)

  datatype Pattern = Pattern(circf: bool, es: seq<Elem>)

  /** A whole pattern; a caret in front anchors it. The empty text stands for the pattern before it. */
  function Parse(text: string): Result<Pattern> {
    if text == "" then Outside else
    var circf := text[0] == '^';
    match Elements(if circf then text[1..] else text, atStart)
    case Ok(es) => Ok(Pattern(circf, es))
    case Error(code) => Error(code)
    case Outside => Outside
  }
}
