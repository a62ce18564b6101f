/**
 What simple patterns of head/regexp.h find, said of the pattern text and the characters of the line alone; and how the
 ways through a longer pattern are put together.
 */
module RegexpLaws {
  import opened Options
  import opened RegexpMeaning
  import opened RegexpScope
  import opened RegexpStep
  import opened RegexpSyntax
  import opened RegexpRefusals
  import Show = RegexpShow

  /** What the search for a pattern text at `i` finds. */
  function Hit(text: string, t: string, i: nat): Option<Found> {
    if Parse(text).Ok? && i < |t| then Search(Parse(text).value.es, t, i, blank) else None
  }

  predicate FoundAt(text: string, t: string, i: nat) {
    Hit(text, t, i).Some?
  }

  // ----- one part -----

  lemma {:induction false} OnePart(p: Show.Part)
    requires Show.ProperParts(atStart, [p])
    ensures Parse(Show.ShowPart(p)) == Ok(Pattern(false, Show.Behind(atStart, p).done))
  {
    var ps := [p];
    assert ps[1..] == [] && Show.Show(ps) == Show.ShowPart(p) && "" + Show.Show(ps) == Show.Show(ps);
    Show.RoundTrip(false, ps);
    assert Show.Meaning(atStart, ps) == Show.Meaning(Show.Behind(atStart, p), []);
  }

  /** The longest repetition of a last element is found, if it can stand there at all. */
  lemma {:induction false} LastSearch(e: Elem, t: string, i: nat, r: Regs)
    requires i < |t| && Least(e) <= Greatest(e, t, i, r)
    requires var n := Greatest(e, t, i, r); Pass(e, t, i, r, n).Some? ==> Pass(e, t, i, r, n).value < |t|
    ensures var n := Greatest(e, t, i, r);
            && Pass(e, t, i, r, n).Some?
            && Search([e], t, i, r) == Some(Found(Pass(e, t, i, r, n).value, Set(e, i, r)))
  {
    var es, n := [e], Greatest(e, t, i, r);
    assert es[1..] == [];
    PassInterval(e, t, i, r, n);
    AttemptsNext(es, t, i, r, n);
  }

  lemma {:induction false} NoSearch(e: Elem, t: string, i: nat, r: Regs)
    requires i < |t| && Least(e) > Greatest(e, t, i, r)
    ensures Search([e], t, i, r) == None
  {
  }

  lemma {:induction false} WrittenFound(w: Show.Written, t: string, i: nat)
    requires Show.ProperWritten(w) && IsText(t) && i < |t|
    ensures FoundAt(Show.ShowWritten(w), t, i) <==> Takes(Show.AtomOf(w), t[i])
    ensures FoundAt(Show.ShowWritten(w), t, i) ==> Hit(Show.ShowWritten(w), t, i).value.end == i + 1 < |t|
  {
    var e := One(Show.AtomOf(w));
    OnePart(Show.Once(w));
    assert Show.Behind(atStart, Show.Once(w)).done == [e];
    if Takes(e.atom, t[i]) { LastSearch(e, t, i, blank); } else { NoSearch(e, t, i, blank); }
  }

  /** A character, written with a backslash where it has a meaning, is found where it stands. */
  lemma {:induction false} CharacterFound(c: char, t: string, i: nat)
    requires IsPlain(c) && IsText(t) && i < |t|
    ensures !Show.Special(c) ==> (FoundAt([c], t, i) <==> t[i] == c)
    ensures Show.Special(c) ==> (FoundAt(['\\', c], t, i) <==> t[i] == c)
    ensures FoundAt("\\n", t, i) <==> t[i] == '\n'
  {
    WrittenFound(Show.Letter(c), t, i);
    WrittenFound(Show.Letter('\n'), t, i);
  }

  /** A dot is found at every character of the line. */
  lemma {:induction false} DotFound(t: string, i: nat)
    requires IsText(t) && i < |t|
    ensures FoundAt(".", t, i) <==> i < |t| - 1
  {
    WrittenFound(Show.Dot, t, i);
  }

  /** A dollar at the end of the pattern is found at the end of the line. */
  lemma {:induction false} DollarFound(t: string, i: nat)
    requires IsText(t) && i < |t|
    ensures FoundAt("$", t, i) <==> i == |t| - 1
  {
    OnePart(Show.Dollar);
    assert Show.Behind(atStart, Show.Dollar).done == [EndOfLine];
    if t[i] == NUL { LastSearch(EndOfLine, t, i, blank); } else { NoSearch(EndOfLine, t, i, blank); }
  }

  /** A star with nothing to repeat stands for itself. */
  lemma {:induction false} StarFound(t: string, i: nat)
    requires IsText(t) && i < |t|
    ensures FoundAt("*", t, i) <==> t[i] == '*'
  {
    var s, e := "*", One(Char('*'));
    assert s[1..] == "" && Piece(s, atStart) == Ok((Add(atStart, e), s[1..]));
    Show.OnePiece(s, atStart, Add(atStart, e), "");
    assert [] + [e] == [e];
    if t[i] == '*' { LastSearch(e, t, i, blank); } else { NoSearch(e, t, i, blank); }
  }

  // ----- bracket expressions -----

  /** The items name `c`: it is one of them, or lies between the two ends of a range. */
  predicate Names(items: seq<Show.Item>, c: char) {
    exists k :: 0 <= k < |items|
                && (items[k].c == c || (items[k].Through? && k > 0 && items[k - 1].c <= c <= items[k].c))
  }

  lemma {:induction false} MembersExact(items: seq<Show.Item>, lc: int, members: set<int>, c: char)
    requires items != []
    ensures c as int in Show.Members(items, lc, members) <==>
            c as int in members || Names(items, c) || (items[0].Through? && lc <= c as int <= items[0].c as int)
    decreases |items|
  {
    var d, more := items[0].c as int, items[1..];
    var now := if items[0].Single? then members + {d} else members + Span(lc, d) + {d};
    SpanExact(lc, d, c as int);
    assert Show.Members(items, lc, members) == Show.Members(more, d, now);
    if more == [] {
      assert items == [items[0]];
    } else {
      MembersExact(more, d, now, c);
      NamesFirst(items, c);
    }
  }

  lemma {:induction false} NamesFirst(items: seq<Show.Item>, c: char)
    requires |items| > 1
    ensures Names(items, c) <==>
            items[0].c == c || Names(items[1..], c) || (items[1].Through? && items[0].c <= c <= items[1].c)
  {
    var more := items[1..];
    if Names(items, c) {
      var k :| 0 <= k < |items|
               && (items[k].c == c || (items[k].Through? && k > 0 && items[k - 1].c <= c <= items[k].c));
      if k > 0 { assert more[k - 1] == items[k]; }
    }
    if Names(more, c) {
      var k :| 0 <= k < |more|
               && (more[k].c == c || (more[k].Through? && k > 0 && more[k - 1].c <= c <= more[k].c));
      assert items[k + 1] == more[k];
    }
  }

  /** A bracket expression is found where a character stands that it names, or does not name behind a caret. */
  lemma {:induction false} BracketFound(neg: bool, items: seq<Show.Item>, dash: bool, t: string, i: nat)
    requires Show.ProperWritten(Show.Set(neg, items, dash)) && IsText(t) && i < |t|
    ensures FoundAt("[" + (if neg then "^" else "") + Show.ShowItems(items) + (if dash then "-]" else "]"), t, i) <==>
            i < |t| - 1 && (Names(items, t[i]) || (dash && t[i] == '-')) != neg
  {
    WrittenFound(Show.Set(neg, items, dash), t, i);
    MembersExact(items, 0, {}, t[i]);
    assert !items[0].Through?;
  }

  // ----- repetition -----

  lemma {:induction false} StreakExact(a: Atom, t: string, i: nat)
    requires IsText(t) && i < |t|
    ensures var n := Streak(a, t, i);
            i + n < |t| && !Takes(a, t[i + n]) && forall j :: i <= j < i + n ==> Takes(a, t[j])
    decreases |t| - i
  {
    if Takes(a, t[i]) { StreakExact(a, t, i + 1); }
  }

  /** A star takes all characters in a row that the part in front of it would be found at. */
  lemma {:induction false} StarTakesAll(w: Show.Written, t: string, i: nat)
    requires Show.ProperWritten(w) && IsText(t) && i < |t|
    ensures var hit := Hit(Show.ShowWritten(w) + "*", t, i);
            && hit.Some? && i <= hit.value.end < |t| && !FoundAt(Show.ShowWritten(w), t, hit.value.end)
            && forall j: nat :: i <= j < hit.value.end ==> FoundAt(Show.ShowWritten(w), t, j)
  {
    var e := Many(Show.AtomOf(w));
    OnePart(Show.Star(w));
    assert Show.Behind(atStart, Show.Star(w)).done == [e];
    StreakExact(e.atom, t, i);
    LastSearch(e, t, i, blank);
    var end := i + Streak(e.atom, t, i);
    WrittenFound(w, t, end);
    forall j: nat | i <= j < end ensures FoundAt(Show.ShowWritten(w), t, j) { WrittenFound(w, t, j); }
  }

  /** From `i` on the part would be found at `n` characters in a row. */
  predicate InARow(w: Show.Written, t: string, i: nat, n: nat) {
    i + n <= |t| && forall j: nat :: i <= j < i + n ==> FoundAt(Show.ShowWritten(w), t, j)
  }

  /** The most that bounds allow. */
  function Most(low: nat, bound: Show.Bound): nat {
    match bound
    case Same => low
    case Unlimited => low + 20000
    case UpTo(high) => high
  }

  /** Bounds: found if there are enough characters in a row; all are taken, up to the most allowed. */
  lemma {:induction false} BoundsTake(w: Show.Written, low: nat, bound: Show.Bound, t: string, i: nat)
    requires Show.ProperWritten(w) && IsText(t) && i < |t|
    requires low < 255 && (bound.UpTo? ==> low <= bound.high < 255)
    ensures var hit := Hit(Show.ShowPart(Show.Times(w, low, bound)), t, i);
            && (hit.Some? <==> InARow(w, t, i, low))
            && (hit.Some? ==>
                  var n := hit.value.end - i;
                  && low <= n <= Most(low, bound) && InARow(w, t, i, n)
                  && (n < Most(low, bound) ==> !FoundAt(Show.ShowWritten(w), t, hit.value.end)))
  {
    var p := Show.Times(w, low, bound);
    var e := Range(Show.AtomOf(w), low, Show.SizeOf(low, bound));
    OnePart(p);
    assert Show.Behind(atStart, p).done == [e];
    var n := Streak(e.atom, t, i);
    StreakExact(e.atom, t, i);
    forall j: nat | i <= j <= i + n ensures FoundAt(Show.ShowWritten(w), t, j) <==> j < i + n { WrittenFound(w, t, j); }
    if n < low {
      NoSearch(e, t, i, blank);
      assert !FoundAt(Show.ShowWritten(w), t, i + n);
    } else {
      LastSearch(e, t, i, blank);
    }
  }

  // ----- characters that stand for themselves -----

  /** Behind the same parts, texts with the same elements give the same pattern. */
  lemma {:induction false} SamePattern(ps: seq<Show.Part>, s: string, u: string)
    requires ProperFront(atStart, ps) && ps != []
    requires Elements(s, Show.Meaning(atStart, ps)) == Elements(u, Show.Meaning(atStart, ps))
    ensures Parse(Show.Show(ps) + s) == Parse(Show.Show(ps) + u)
  {
    ReadFront(atStart, ps, s);
    ReadFront(atStart, ps, u);
    NoCaretFirst(ps);
  }

  /** A backslash in front of a character that is not a digit, a brace, a parenthesis or an n changes nothing. */
  lemma {:induction false} Escaped(c: char, t: string, st: RegexpSyntax.State)
    requires IsPlain(c) && c !in "(){n" && !('1' <= c <= '9')
    ensures Elements(['\\', c] + t, st) == Elements(t, Add(st, One(Char(c))))
  {
    var s := ['\\', c] + t;
    assert s[1..] == [c] + t && s[1..][1..] == t;
    Show.OnePiece(s, st, Add(st, One(Char(c))), t);
  }

  lemma {:induction false} Bare(c: char, t: string, st: RegexpSyntax.State)
    requires IsPlain(c) && c !in ".*[\\" && (c == '$' ==> t != "")
    ensures Elements([c] + t, st) == Elements(t, Add(st, One(Char(c))))
  {
    var s := [c] + t;
    assert s[1..] == t;
    Show.OnePiece(s, st, Add(st, One(Char(c))), t);
  }

  /** A dollar in front of more text, a caret behind something, and all that is not special stand for themselves. */
  lemma {:induction false} StandsForItself(ps: seq<Show.Part>, c: char, t: string)
    requires ProperFront(atStart, ps) && ps != []
    requires IsPlain(c) && c !in "(){n.*[\\" && !('1' <= c <= '9') && (c == '$' ==> t != "")
    ensures Parse(Show.Show(ps) + ([c] + t)) == Parse(Show.Show(ps) + (['\\', c] + t))
  {
    Escaped(c, t, Show.Meaning(atStart, ps));
    Bare(c, t, Show.Meaning(atStart, ps));
    SamePattern(ps, [c] + t, ['\\', c] + t);
  }

  /** A star behind the beginning or the end of a group stands for itself; behind a repetition it changes nothing. */
  lemma {:induction false} StarBehind(ps: seq<Show.Part>, t: string)
    requires ProperFront(atStart, ps) && ps != []
    ensures var last := ps[|ps| - 1];
            && (last.Begin? || last.Finish? ==> Parse(Show.Show(ps) + ("*" + t)) == Parse(Show.Show(ps) + ("\\*" + t)))
            && (last.Star? || last.Times? || last.AgainStar? ==>
                  Parse(Show.Show(ps) + ("*" + t)) == Parse(Show.Show(ps) + t))
  {
    var st, s := Show.Meaning(atStart, ps), "*" + t;
    MeaningLast(atStart, ps);
    assert s[1..] == t;
    Show.OnePiece(s, st, StarAt(st), t);
    Escaped('*', t, st);
    if Elements(s, st) == Elements(t, st) { SamePattern(ps, s, t); }
    if Elements(s, st) == Elements("\\*" + t, st) { SamePattern(ps, s, "\\*" + t); }
  }

  lemma {:induction false} MeaningLast(st: RegexpSyntax.State, ps: seq<Show.Part>)
    requires ProperFront(st, ps) && ps != []
    ensures var last, m := ps[|ps| - 1], Show.Meaning(st, ps);
            && m.done != []
            && (last.Begin? ==> Last(m).Open?) && (last.Finish? ==> Last(m).Close?) && (last.Star? ==> Last(m).Many?)
            && (last.Times? ==> Last(m).Range?) && (last.AgainStar? ==> Last(m).BackMany?)
    decreases |ps|
  {
    if |ps| > 1 { MeaningLast(Show.Behind(st, ps[0]), ps[1..]); }
  }

  /** With nothing in front an opening brace stands for itself even behind a backslash. */
  lemma {:induction false} NothingToRepeat(t: string)
    ensures Parse("\\{" + t) == Parse("{" + t)
  {
    var s := "\\{" + t;
    assert s[1..] == "{" + t && s[1..][1..] == t;
    Show.OnePiece(s, atStart, Add(atStart, One(Char('{'))), t);
    Bare('{', t, atStart);
  }

  // ----- anchoring -----

  /** A caret in front of a pattern anchors it and changes nothing else. */
  lemma {:induction false} CaretAnchors(s: string, es: seq<Elem>)
    requires s != "" && s[0] != '^'
    ensures Parse(s) == Ok(Pattern(false, es)) <==> Parse("^" + s) == Ok(Pattern(true, es))
  {
    assert ("^" + s)[1..] == s;
  }

  // ----- longer patterns -----

  /** A way through two patterns, one behind the other, is one through the first and then one through the second. */
  lemma {:induction false} FollowBehind(es: seq<Elem>, fs: seq<Elem>, t: string, i: nat, r: Regs, ns: seq<nat>,
                                        ms: seq<nat>)
    requires i < |t| && |ns| == |es|
    ensures Follow(es, t, i, r, ns).Some? ==> Follow(es, t, i, r, ns).value.end < |t|
    ensures Follow(es + fs, t, i, r, ns + ms)
         == match Follow(es, t, i, r, ns)
            case None => None
            case Some(f) => Follow(fs, t, f.end, f.regs, ms)
    decreases |es|
  {
    if es == [] {
      assert es + fs == fs && ns + ms == ms;
    } else {
      assert (es + fs)[1..] == es[1..] + fs && (ns + ms)[1..] == ns[1..] + ms;
      match Pass(es[0], t, i, r, ns[0])
      case None =>
      case Some(j) => if j < |t| { FollowBehind(es[1..], fs, t, j, Set(es[0], i, r), ns[1..], ms); }
    }
  }

  // ----- groups -----

  /** The states behind the beginning, the character and the end of a group of one character. */
  lemma {:induction false} GroupStates(w: Show.Written)
    ensures Show.Behind(atStart, Show.Begin) == State([Open(0)], [0], 1, 0)
    ensures Show.Behind(State([Open(0)], [0], 1, 0), Show.Once(w)) == Inner(w)
    ensures Show.Behind(Inner(w), Show.Finish) == State([Open(0), One(Show.AtomOf(w)), Close(0)], [], 1, 1)
  {
    hide Show.AtomOf;
  }

  function Inner(w: Show.Written): RegexpSyntax.State {
    State([Open(0), One(Show.AtomOf(w))], [0], 1, 0)
  }

  /** The parts of a group of one character with a back-reference, and their elements. */
  lemma {:induction false} GroupParts(w: Show.Written, p: Show.Part, e: Elem) returns (ps: seq<Show.Part>)
    requires Show.ProperWritten(w) && (p == Show.Again(0) || p == Show.AgainStar(0))
    requires e == if p.Again? then Back(0) else BackMany(0)
    ensures ps == [Show.Begin, Show.Once(w), Show.Finish, p] && Show.ProperParts(atStart, ps)
    ensures Show.Meaning(atStart, ps).done == [Open(0), One(Show.AtomOf(w)), Close(0), e]
  {
    hide Show.ProperWritten, Show.AtomOf;
    var s3 := State([Open(0), One(Show.AtomOf(w)), Close(0)], [], 1, 1);
    assert Show.Behind(s3, p).done == [Open(0), One(Show.AtomOf(w)), Close(0), e];
    ps := InFront(s3, p, []);
    GroupStates(w);
    hide Show.Behind;
    ps := InFront(Inner(w), Show.Finish, ps);
    ps := InFront(State([Open(0)], [0], 1, 0), Show.Once(w), ps);
    ps := InFront(atStart, Show.Begin, ps);
  }

  /** Such a pattern is read as these elements. */
  lemma {:induction false} GroupRead(w: Show.Written, p: Show.Part) returns (e: Elem)
    requires Show.ProperWritten(w) && (p == Show.Again(0) || p == Show.AgainStar(0))
    ensures e == if p.Again? then Back(0) else BackMany(0)
    ensures Parse("\\(" + (Show.ShowWritten(w) + ("\\)" + Show.ShowPart(p))))
         == Ok(Pattern(false, [Open(0), One(Show.AtomOf(w)), Close(0), e]))
  {
    e := if p.Again? then Back(0) else BackMany(0);
    var ps := GroupParts(w, p, e);
    hide Show.ProperWritten, Show.AtomOf, Show.ShowWritten, Show.ProperParts, Show.Meaning, Parse;
    Show.RoundTrip(false, ps);
    assert "" + Show.Show(ps) == Show.Show(ps);
    ShowFour(ps);
  }

  lemma {:induction false} ShowFour(ps: seq<Show.Part>)
    requires |ps| == 4
    ensures Show.Show(ps)
         == Show.ShowPart(ps[0]) + (Show.ShowPart(ps[1]) + (Show.ShowPart(ps[2]) + Show.ShowPart(ps[3])))
  {
    hide Show.ShowPart;
    var last := ps[3..];
    assert ps[1..][1..] == ps[2..] && ps[2..][1..] == last && last[1..] == [];
    assert Show.Show(last) == Show.ShowPart(ps[3]) + "" == Show.ShowPart(ps[3]);
    assert Show.Show(ps[2..]) == Show.ShowPart(ps[2]) + Show.Show(last);
    assert Show.Show(ps[1..]) == Show.ShowPart(ps[1]) + Show.Show(ps[2..]);
  }

  lemma {:induction false} InFront(st: RegexpSyntax.State, p: Show.Part, rest: seq<Show.Part>)
    returns (ps: seq<Show.Part>)
    requires Show.ProperPart(st, p, rest == []) && Show.ProperParts(Show.Behind(st, p), rest)
    ensures ps != [] && Show.ProperParts(st, ps) && Show.Meaning(st, ps) == Show.Meaning(Show.Behind(st, p), rest)
    ensures ps == [p] + rest
  {
    ps := [p] + rest;
    assert ps[1..] == rest;
  }

  /** An element that is not repeated, in front of others. */
  lemma {:induction false} SearchNext(e: Elem, es: seq<Elem>, t: string, i: nat, r: Regs)
    requires IsText(t) && i < |t| && (e.Open? || e.Close? || e.One?)
    ensures match Pass(e, t, i, r, 1)
            case None => Search([e] + es, t, i, r) == None
            case Some(j) => j < |t| && Search([e] + es, t, i, r) == Search(es, t, j, Set(e, i, r))
  {
    var all := [e] + es;
    assert all[1..] == es;
    PassInterval(e, t, i, r, 1);
    if Pass(e, t, i, r, 1).Some? {
      AttemptsNext(all, t, i, r, 1);
      assert Attempts(all, t, i, r, 0) == None;
    }
  }

  /** The search for a group of one character comes to what is behind it, with its registers set. */
  lemma {:induction false} BehindGroup(a: Atom, e: Elem, t: string, i: nat) returns (r: Regs)
    requires IsText(t) && i < |t|
    ensures r == Regs(blank.bras[0 := i], blank.brae[0 := i + 1])
    ensures var es := [Open(0), One(a), Close(0), e];
            Search(es, t, i, blank) == if Takes(a, t[i]) then Search([e], t, i + 1, r) else None
    ensures Takes(a, t[i]) ==> i + 1 < |t| && GroupText(t, r, 0) == [t[i]]
  {
    r := Regs(blank.bras[0 := i], blank.brae[0 := i + 1]);
    var es := [Open(0), One(a), Close(0), e];
    assert es == [es[0]] + es[1..] && es[1..] == [es[1]] + es[2..] && es[2..] == [es[2]] + [e];
    SearchNext(es[0], es[1..], t, i, blank);
    SearchNext(es[1], es[2..], t, i, Set(Open(0), i, blank));
    if Takes(a, t[i]) {
      SearchNext(es[2], [e], t, i + 1, Set(Open(0), i, blank));
    }
  }

  /** A group of one character and a back-reference: found where the same character stands twice. */
  lemma {:induction false} GroupAgain(w: Show.Written, t: string, i: nat)
    requires Show.ProperWritten(w) && IsText(t) && i < |t|
    ensures var hit := Hit("\\(" + (Show.ShowWritten(w) + "\\)\\1"), t, i);
            && (hit.Some? <==> FoundAt(Show.ShowWritten(w), t, i) && i + 1 < |t| && t[i + 1] == t[i])
            && (hit.Some? ==> hit.value.end == i + 2 && |hit.value.regs.bras| == |hit.value.regs.brae| == NBRA
                              && hit.value.regs.bras[0] == i && hit.value.regs.brae[0] == i + 1)
  {
    var e := GroupRead(w, Show.Again(0));
    assert Show.ShowPart(Show.Again(0)) == "\\1" && "\\)" + "\\1" == "\\)\\1";
    WrittenFound(w, t, i);
    var r := BehindGroup(Show.AtomOf(w), e, t, i);
    if Takes(Show.AtomOf(w), t[i]) {
      assert [t[i]] <= t[i + 1..] <==> t[i + 1] == t[i];
      if t[i + 1] == t[i] { LastSearch(e, t, i + 1, r); } else { NoSearch(e, t, i + 1, r); }
    }
  }

  lemma {:induction false} CopiesExact(c: char, t: string, i: nat)
    requires IsText(t) && i < |t| && c != NUL
    ensures var n := Copies([c], t, i);
            i + n < |t| && t[i + n] != c && forall j: nat :: i <= j < i + n ==> t[j] == c
    decreases |t| - i
  {
    assert [c] <= t[i..] <==> t[i] == c;
    if t[i] == c { CopiesExact(c, t, i + 1); }
  }

  /** With a star behind the back-reference all further copies of the character are taken. */
  lemma {:induction false} GroupAgainStar(w: Show.Written, t: string, i: nat)
    requires Show.ProperWritten(w) && IsText(t) && i < |t|
    ensures var hit := Hit("\\(" + (Show.ShowWritten(w) + "\\)\\1*"), t, i);
            && (hit.Some? <==> FoundAt(Show.ShowWritten(w), t, i))
            && (hit.Some? ==> i < hit.value.end < |t| && t[hit.value.end] != t[i]
                              && forall j: nat :: i <= j < hit.value.end ==> t[j] == t[i])
  {
    hide Search, Parse, Takes, Show.ShowWritten;
    var e := GroupRead(w, Show.AgainStar(0));
    assert Show.ShowPart(Show.AgainStar(0)) == "\\1*" && "\\)" + "\\1*" == "\\)\\1*";
    WrittenFound(w, t, i);
    var r := BehindGroup(Show.AtomOf(w), e, t, i);
    if Takes(Show.AtomOf(w), t[i]) {
      CopiesExact(t[i], t, i + 1);
      assert |[t[i]]| == 1;
      LastSearch(e, t, i + 1, r);
    }
  }
}
