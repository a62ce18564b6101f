/**
 Which patterns the compiler of head/regexp.h refuses, and with which error: groups that do not match up (42, 43),
 back-references to groups that are not closed (25), bounds (11, 16, 44, 45, 46) and open brackets (49).
 */
module RegexpRefusals {
  import opened RegexpMeaning
  import opened RegexpSyntax
  import opened RegexpGroups
  import Show = RegexpShow

  // ----- what is accepted has matching groups -----

  /** A group that was open is closed by one of the elements, or still open behind them. */
  lemma {:induction false} OpenOrClosed(es: seq<Elem>, s: Scope, k: nat)
    requires Grouped(es, s)
    ensures k in s.open ==> Close(k) in es || k in Final(es, s).open
    ensures k in Final(es, s).open ==> k in s.open || Open(k) in es
  {
    if es != [] {
      var t := Behind(es[0], s);
      OpenOrClosed(es[1..], t, k);
      assert es == [es[0]] + es[1..];
    }
  }

  lemma {:induction false} GroupedSplit(es: seq<Elem>, s: Scope, i: nat)
    requires Grouped(es, s) && i <= |es|
    ensures Grouped(es[..i], s) && Grouped(es[i..], Final(es[..i], s))
    ensures Final(es, s) == Final(es[i..], Final(es[..i], s))
  {
    if i == 0 {
      assert es[..0] == [] && es[0..] == es;
    } else {
      GroupedSplit(es[1..], Behind(es[0], s), i - 1);
      assert es[..i][1..] == es[1..][..i - 1] && es[i..] == es[1..][i - 1..];
    }
  }

  /** In what compiles every group that begins ends behind that, and every end has its beginning in front. */
  lemma {:induction false} GroupsMatch(text: string, i: nat)
    requires Parse(text).Ok? && i < |Parse(text).value.es|
    ensures var es := Parse(text).value.es;
            && (es[i].Open? ==> Close(es[i].k) in es[i + 1..])
            && (es[i].Close? ==> Open(es[i].k) in es[..i])
  {
    var es := Parse(text).value.es;
    ElementsBalanced(if text[0] == '^' then text[1..] else text, atStart);
    GroupedSplit(es, outside, i);
    var s, rest := Final(es[..i], outside), es[i..];
    assert rest[0] == es[i] && rest[1..] == es[i + 1..];
    if es[i].Open? { OpenOrClosed(es[i + 1..], Behind(es[i], s), es[i].k); }
    if es[i].Close? { OpenOrClosed(es[..i], outside, es[i].k); }
  }

  lemma {:induction false} ElementsBalanced(s: string, st: RegexpSyntax.State)
    requires Sound(st)
    ensures Elements(s, st).Ok? ==>
              var es := Elements(s, st).value; Grouped(es, outside) && forall k: nat :: k !in Final(es, outside).open
    decreases |s|
  {
    if s != "" && Piece(s, st).Ok? {
      SoundPiece(s, st);
      PieceShorter(s, st);
      ElementsBalanced(Piece(s, st).value.1, Piece(s, st).value.0);
    }
  }

  // ----- reading the front of a text -----

  /** Parts that something may follow; groups may be left open. */
  predicate ProperFront(st: RegexpSyntax.State, ps: seq<Show.Part>)
    decreases |ps|
  {
    ps == [] || (Show.ProperPart(st, ps[0], false) && ProperFront(Show.Behind(st, ps[0]), ps[1..]))
  }

  lemma {:induction false} ReadFront(st: RegexpSyntax.State, ps: seq<Show.Part>, t: string)
    requires ProperFront(st, ps)
    ensures Elements(Show.Show(ps) + t, st) == Elements(t, Show.Meaning(st, ps))
    decreases |ps|
  {
    if ps == [] {
      assert "" + t == t;
    } else {
      var rest := Show.Show(ps[1..]);
      Show.ReadPart(st, ps[0], rest + t);
      ReadFront(Show.Behind(st, ps[0]), ps[1..], t);
      assert Show.ShowPart(ps[0]) + (rest + t) == Show.ShowPart(ps[0]) + rest + t;
    }
  }

  /** How many groups the parts begin, and how many they end. */
  function Begins(ps: seq<Show.Part>): nat {
    if ps == [] then 0 else (if ps[0].Begin? then 1 else 0) + Begins(ps[1..])
  }

  function Finishes(ps: seq<Show.Part>): nat {
    if ps == [] then 0 else (if ps[0].Finish? then 1 else 0) + Finishes(ps[1..])
  }

  lemma {:induction false} CountsGroups(st: RegexpSyntax.State, ps: seq<Show.Part>)
    requires ProperFront(st, ps)
    ensures var m := Show.Meaning(st, ps);
            && m.nbra == st.nbra + Begins(ps) && m.closed == st.closed + Finishes(ps)
            && |m.stack| + Finishes(ps) == |st.stack| + Begins(ps)
    decreases |ps|
  {
    if ps != [] { CountsGroups(Show.Behind(st, ps[0]), ps[1..]); }
  }

  lemma {:induction false} NoCaretFirst(ps: seq<Show.Part>)
    requires ProperFront(atStart, ps) && ps != []
    ensures Show.Show(ps) != "" && Show.Show(ps)[0] != '^'
  {
    assert Show.ShowPart(ps[0]) != "" && Show.ShowPart(ps[0])[0] != '^';
  }

  /** A pattern that is proper up to a text that starts with a backslash or is empty. */
  lemma {:induction false} FrontParsed(ps: seq<Show.Part>, t: string)
    requires ProperFront(atStart, ps) && (ps != [] || t != "") && (t == "" || t[0] != '^')
    ensures Elements(t, Show.Meaning(atStart, ps)).Error? ==>
              Parse(Show.Show(ps) + t) == Error(Elements(t, Show.Meaning(atStart, ps)).code)
  {
    var text := Show.Show(ps) + t;
    ReadFront(atStart, ps, t);
    if ps == [] { assert text == t; } else { NoCaretFirst(ps); }
  }

  lemma {:induction false} PieceRefused(s: string, st: RegexpSyntax.State, code: nat)
    requires s != "" && Piece(s, st) == Error(code)
    ensures Elements(s, st) == Error(code)
  {
  }

  // ----- groups -----

  /** A group that is not closed at the end is error 42. */
  lemma {:induction false} OpenAtTheEnd(ps: seq<Show.Part>)
    requires ProperFront(atStart, ps) && Begins(ps) > Finishes(ps)
    ensures Parse(Show.Show(ps)) == Error(42)
  {
    CountsGroups(atStart, ps);
    FrontParsed(ps, "");
    assert Show.Show(ps) + "" == Show.Show(ps);
  }

  /** The end of a group when none is open is error 42. */
  lemma {:induction false} NothingToClose(ps: seq<Show.Part>, t: string)
    requires ProperFront(atStart, ps) && Begins(ps) == Finishes(ps)
    ensures Parse(Show.Show(ps) + ("\\)" + t)) == Error(42)
  {
    CountsGroups(atStart, ps);
    var s := "\\)" + t;
    assert s[1..] == ")" + t;
    PieceRefused(s, Show.Meaning(atStart, ps), 42);
    FrontParsed(ps, s);
  }

  /** A tenth group is error 43. */
  lemma {:induction false} TenthGroup(ps: seq<Show.Part>, t: string)
    requires ProperFront(atStart, ps) && Begins(ps) == 9
    ensures Parse(Show.Show(ps) + ("\\(" + t)) == Error(43)
  {
    CountsGroups(atStart, ps);
    var s := "\\(" + t;
    assert s[1..] == "(" + t;
    PieceRefused(s, Show.Meaning(atStart, ps), 43);
    FrontParsed(ps, s);
  }

  /** A back-reference with a number greater than that of the groups closed so far is error 25. */
  lemma {:induction false} NotYetClosed(ps: seq<Show.Part>, c: char, t: string)
    requires ProperFront(atStart, ps) && '1' <= c <= '9' && c as int - '0' as int > Finishes(ps)
    ensures Parse(Show.Show(ps) + (['\\', c] + t)) == Error(25)
  {
    CountsGroups(atStart, ps);
    var s := ['\\', c] + t;
    assert s[1..] == [c] + t;
    PieceRefused(s, Show.Meaning(atStart, ps), 25);
    FrontParsed(ps, s);
  }

  // ----- bounds -----

  /** Wrong bounds behind an element are the error that reading them gives. */
  lemma {:induction false} BoundsRefused(ps: seq<Show.Part>, w: Show.Written, s: string, code: nat)
    requires ProperFront(atStart, ps) && Show.ProperWritten(w) && BoundsAt(s) == Error(code)
    ensures Parse(Show.Show(ps + [Show.Once(w)]) + ("\\{" + s)) == Error(code)
  {
    var st, t, all := Show.Meaning(atStart, ps), "\\{" + s, ps + [Show.Once(w)];
    FrontAdd(atStart, ps, Show.Once(w));
    assert t[1..] == "{" + s && t[1..][1..] == s;
    PieceRefused(t, Show.Meaning(atStart, all), code);
    FrontParsed(all, t);
  }

  lemma {:induction false} FrontAdd(st: RegexpSyntax.State, ps: seq<Show.Part>, p: Show.Part)
    requires ProperFront(st, ps) && p.Once? && Show.ProperWritten(p.w)
    ensures ProperFront(st, ps + [p]) && Show.Meaning(st, ps + [p]) == Show.Behind(Show.Meaning(st, ps), p)
    decreases |ps|
  {
    if ps == [] {
      assert [] + [p] == [p] && [p][1..] == [];
    } else {
      FrontAdd(Show.Behind(st, ps[0]), ps[1..], p);
      assert (ps + [p])[1..] == ps[1..] + [p];
    }
  }

  /** A bound of 255 or more is error 11. */
  lemma {:induction false} BoundTooBig(low: nat, high: nat, t: string)
    requires t != "" && (t[0] == '\\' || t[0] == ',')
    ensures low >= 255 ==> BoundsAt(Show.Digits(low) + t) == Error(11)
    ensures low < 255 <= high ==> BoundsAt(Show.Digits(low) + ("," + (Show.Digits(high) + t))) == Error(11)
  {
    Show.ReadNumber(low, t);
    SecondRead(low, high, t);
  }

  lemma {:induction false} SecondRead(low: nat, high: nat, t: string)
    requires t != "" && (t[0] == '\\' || t[0] == ',')
    ensures low < 255 ==>
              BoundsAt(Show.Digits(low) + ("," + (Show.Digits(high) + t))) == SecondBound(low, Show.Digits(high) + t)
    ensures Number(Show.Digits(high) + t, 0) == Ok((high, t))
  {
    var u := "," + (Show.Digits(high) + t);
    Show.ReadNumber(low, u);
    Show.ReadNumber(high, t);
    Show.DigitFirst(high, t);
    assert u[1..] == Show.Digits(high) + t && u[1] == (Show.Digits(high) + t)[0];
  }

  /** A third bound is error 44, and an upper bound below the lower one is error 46. */
  lemma {:induction false} SecondBoundRefused(low: nat, high: nat, t: string)
    requires low < 255 && high < 255
    ensures BoundsAt(Show.Digits(low) + ("," + (Show.Digits(high) + ("," + t)))) == Error(44)
    ensures high < low ==> BoundsAt(Show.Digits(low) + ("," + (Show.Digits(high) + ("\\}" + t)))) == Error(46)
  {
    SecondRead(low, high, "," + t);
    SecondRead(low, high, "\\}" + t);
  }

  /** A backslash that no closing brace follows is error 45. */
  lemma {:induction false} BraceMissing(low: nat, high: nat, t: string)
    requires low < 255 && high < 255 && (t == "" || t[0] != '}')
    ensures BoundsAt(Show.Digits(low) + ("\\" + t)) == Error(45)
    ensures BoundsAt(Show.Digits(low) + (",\\" + t)) == Error(45)
    ensures BoundsAt(Show.Digits(low) + ("," + (Show.Digits(high) + ("\\" + t)))) == Error(45)
  {
    var u, v := "\\" + t, ",\\" + t;
    Show.ReadNumber(low, u);
    Show.ReadNumber(low, v);
    assert u[1..] == t && v[2..] == t;
    SecondRead(low, high, u);
    if t != "" { assert u[1] == t[0]; }
  }

  /** A bound that does not start with a digit is error 16. */
  lemma {:induction false} NoDigit(s: string, low: nat)
    requires s == "" || !('0' <= s[0] <= '9')
    ensures BoundsAt(s) == Error(16)
    ensures low < 255 && (s == "" || s[0] != '\\') ==> BoundsAt(Show.Digits(low) + ("," + s)) == Error(16)
  {
    var u := "," + s;
    Show.ReadNumber(low, u);
    assert u[1..] == s;
    if s != "" { assert u[1] == s[0]; }
  }

  // ----- brackets -----

  /** A bracket that is not closed is error 49. */
  lemma {:induction false} OpenBracket(ps: seq<Show.Part>, s: string)
    requires ProperFront(atStart, ps) && forall i :: 0 <= i < |s| ==> IsPlain(s[i]) && s[i] != ']' && s[i] != '-'
    ensures Parse(Show.Show(ps) + ("[" + s)) == Error(49)
  {
    var t := "[" + s;
    assert t[1..] == s;
    var body := if s != "" && s[0] == '^' then s[1..] else s;
    NoClosingBracket(body, 0, {});
    PieceRefused(t, Show.Meaning(atStart, ps), 49);
    FrontParsed(ps, t);
  }

  lemma {:induction false} NoClosingBracket(s: string, lc: int, members: set<int>)
    requires forall i :: 0 <= i < |s| ==> IsPlain(s[i]) && s[i] != ']' && s[i] != '-'
    ensures Items(s, lc, members) == Error(49) && MoreItems(s, lc, members) == Error(49)
    decreases |s|
  {
    if s != "" { NoClosingBracket(s[1..], s[0] as int, members + {s[0] as int}); }
  }
}
