/**
 What awk's expressions match (cmd/awk/b.c), one construct at a time and in terms of the characters of the text: the
 test of `cgoto` on a leaf (706-717), the two marks, and sequences of matches.
 */
module AwkLaws {
  import opened AwkLanguage
  import opened AwkMeaning

  // ----- leaves -----

  lemma {:induction false} LeafWord(kind: LeafKind, pos: nat, s: Text, bol: bool, i: nat, j: nat)
    requires IsLine(s) && i <= j <= |s| + 1 && !IsEmptyClass(kind) && !kind.Final?
    ensures MatchAt(Leaf(kind, pos), s, bol, i, j) <==>
            || (j == i + 1 && TakesSymbol(kind, Terminated(s)[i]))
            || (bol && i == j == 0 && TakesSymbol(kind, HAT))
  {
    var z := Terminated(s);
    var w, v := Syms(z[i..j]), [Sym(HAT)] + Syms(z[..j]);
    assert |w| == j - i && |v| == j + 1 && v[0] == Sym(HAT);
    if j == i + 1 { assert z[i..j][0] == z[i] && w[0] == Sym(z[i]); }
  }

  /** A character stands for itself. */
  lemma {:induction false} CharMatches(c: nat, pos: nat, s: Text, bol: bool, i: nat, j: nat)
    requires IsLine(s) && i <= j <= |s| + 1 && 0 < c < HAT
    ensures MatchAt(Leaf(Char(c), pos), s, bol, i, j) <==> j == i + 1 <= |s| && s[i] == c
  {
    LeafWord(Char(c), pos, s, bol, i, j);
  }

  /** `.` is any one character of the text. */
  lemma {:induction false} DotMatches(pos: nat, s: Text, bol: bool, i: nat, j: nat)
    requires IsLine(s) && i <= j <= |s| + 1
    ensures MatchAt(Leaf(Dot, pos), s, bol, i, j) <==> j == i + 1 <= |s|
  {
    LeafWord(Dot, pos, s, bol, i, j);
  }

  /** A class is any one of its members. */
  lemma {:induction false} ClassMatches(ms: seq<nat>, pos: nat, s: Text, bol: bool, i: nat, j: nat)
    requires IsLine(s) && i <= j <= |s| + 1 && ms != [] && HAT !in ms
    ensures MatchAt(Leaf(Ccl(ms), pos), s, bol, i, j) <==> j == i + 1 <= |s| && s[i] in ms
  {
    LeafWord(Ccl(ms), pos, s, bol, i, j);
  }

  /** A negated class is any one character of the text but its members. */
  lemma {:induction false} NegatedClassMatches(ms: seq<nat>, pos: nat, s: Text, bol: bool, i: nat, j: nat)
    requires IsLine(s) && i <= j <= |s| + 1
    ensures MatchAt(Leaf(Nccl(ms), pos), s, bol, i, j) <==> j == i + 1 <= |s| && s[i] !in ms
  {
    LeafWord(Nccl(ms), pos, s, bol, i, j);
  }

  /** `^` is the empty stretch at the start of the line. */
  lemma {:induction false} HatMatches(pos: nat, s: Text, bol: bool, i: nat, j: nat)
    requires IsLine(s) && i <= j <= |s| + 1
    ensures MatchAt(Leaf(Char(HAT), pos), s, bol, i, j) <==> bol && i == j == 0
  {
    LeafWord(Char(HAT), pos, s, bol, i, j);
  }

  /** `$` is the empty stretch at the end of the text, which reads the terminating 0. */
  lemma {:induction false} DollarMatches(pos: nat, s: Text, bol: bool, i: nat, j: nat)
    requires IsLine(s) && i <= j <= |s| + 1
    ensures MatchAt(Leaf(Char(0), pos), s, bol, i, j) <==> i == |s| && j == |s| + 1
  {
    LeafWord(Char(0), pos, s, bol, i, j);
  }

  /** `()` is the empty stretch anywhere. */
  lemma {:induction false} EmptyMatches(pos: nat, s: Text, bol: bool, i: nat, j: nat)
    requires IsLine(s) && i <= j <= |s| + 1
    ensures MatchAt(Leaf(Ccl([]), pos), s, bol, i, j) <==> i == j
  {
    var z := Terminated(s);
    assert |Syms(z[i..j])| == j - i && |[Sym(HAT)] + Syms(z[..j])| == j + 1;
  }

  // ----- one leaf somewhere in a text -----

  lemma {:induction false} Somewhere(re: Tree, s: Text, chosen: set<nat>)
    requires IsLine(s)
    requires forall i: nat, j: nat :: i <= j <= |s| + 1 ==>
               (MatchAt(re, s, true, i, j) <==> j == i + 1 <= |s| && s[i] in chosen)
    ensures MatchSomewhere(re, s) <==> exists k :: 0 <= k < |s| && s[k] in chosen
  {
    if MatchSomewhere(re, s) {
      var i :| 0 <= i <= |s| && MatchFrom(re, s, true, i);
      var j :| i <= j <= |s| + 1 && MatchAt(re, s, true, i, j);
      assert s[i] in chosen;
    }
    if k :| 0 <= k < |s| && s[k] in chosen {
      assert MatchAt(re, s, true, k, k + 1);
      assert MatchFrom(re, s, true, k);
    }
  }

  /** Whether `match` should find an expression of one leaf, in terms of the characters of the text. */
  lemma {:induction false} OneLeafSomewhere(c: nat, ms: seq<nat>, pos: nat, s: Text)
    requires IsLine(s) && 0 < c < HAT && ms != [] && HAT !in ms
    ensures MatchSomewhere(Leaf(Char(c), pos), s) <==> c in s
    ensures MatchSomewhere(Leaf(Dot, pos), s) <==> s != []
    ensures MatchSomewhere(Leaf(Ccl(ms), pos), s) <==> exists k :: 0 <= k < |s| && s[k] in ms
    ensures MatchSomewhere(Leaf(Nccl(ms), pos), s) <==> exists k :: 0 <= k < |s| && s[k] !in ms
  {
    hide MatchAt, MatchSomewhere;
    var all := set k | 0 <= k < |s| :: s[k];
    var some := set x | x in ms;
    forall i: nat, j: nat | i <= j <= |s| + 1
      ensures MatchAt(Leaf(Char(c), pos), s, true, i, j) <==> j == i + 1 <= |s| && s[i] in {c}
      ensures MatchAt(Leaf(Dot, pos), s, true, i, j) <==> j == i + 1 <= |s| && s[i] in all
      ensures MatchAt(Leaf(Ccl(ms), pos), s, true, i, j) <==> j == i + 1 <= |s| && s[i] in some
      ensures MatchAt(Leaf(Nccl(ms), pos), s, true, i, j) <==> j == i + 1 <= |s| && s[i] in all - some
    {
      CharMatches(c, pos, s, true, i, j);
      DotMatches(pos, s, true, i, j);
      ClassMatches(ms, pos, s, true, i, j);
      NegatedClassMatches(ms, pos, s, true, i, j);
    }
    Somewhere(Leaf(Char(c), pos), s, {c});
    Somewhere(Leaf(Dot, pos), s, all);
    Somewhere(Leaf(Ccl(ms), pos), s, some);
    Somewhere(Leaf(Nccl(ms), pos), s, all - some);
    if s != [] { assert s[0] in all; }
  }

  // ----- sequences of words -----

  function Joined(ws: seq<Word>): Word {
    if ws == [] then [] else ws[0] + Joined(ws[1..])
  }

  ghost predicate AllIn(t: Tree, ws: seq<Word>) {
    forall i :: 0 <= i < |ws| ==> Lang(t, ws[i])
  }

  /** A star stands for the words made of any number of words of its operand. */
  lemma {:induction false} StarIsRepetition(t: Tree, w: Word)
    ensures Lang(Star(t), w) <==> exists ws: seq<Word> :: AllIn(t, ws) && Joined(ws) == w
  {
    if Lang(Star(t), w) {
      var ws := Factors(t, w);
      assert AllIn(t, ws);
    }
    if exists ws: seq<Word> :: AllIn(t, ws) && Joined(ws) == w {
      var ws: seq<Word> :| AllIn(t, ws) && Joined(ws) == w;
      Repeated(t, ws);
    }
  }

  lemma {:induction false} Factors(t: Tree, w: Word) returns (ws: seq<Word>)
    requires StarLang(t, w)
    ensures AllIn(t, ws) && Joined(ws) == w
    decreases |w|
  {
    if w == [] {
      ws := [];
    } else {
      var k :| 1 <= k <= |w| && Lang(t, w[..k]) && StarLang(t, w[k..]);
      var more := Factors(t, w[k..]);
      ws := [w[..k]] + more;
      assert ws[1..] == more && w[..k] + w[k..] == w;
    }
  }

  lemma {:induction false} Repeated(t: Tree, ws: seq<Word>)
    requires AllIn(t, ws)
    ensures StarLang(t, Joined(ws))
  {
    if ws != [] {
      Repeated(t, ws[1..]);
      StarIntro(t, ws[0], Joined(ws[1..]));
    }
  }

  /** `+` is one repetition or more. */
  lemma {:induction false} PlusIsRepetition(t: Tree, w: Word)
    ensures Lang(Plus(t), w) <==> exists ws: seq<Word> :: ws != [] && AllIn(t, ws) && Joined(ws) == w
  {
    hide StarLang, AllIn;
    if Lang(Plus(t), w) {
      var k :| 0 <= k <= |w| && Lang(t, w[..k]) && StarLang(t, w[k..]);
      var more := Factors(t, w[k..]);
      MoreIn(t, w[..k], more);
      assert ([w[..k]] + more)[1..] == more && w[..k] + w[k..] == w;
    }
    if exists ws: seq<Word> :: ws != [] && AllIn(t, ws) && Joined(ws) == w {
      var ws: seq<Word> :| ws != [] && AllIn(t, ws) && Joined(ws) == w;
      assert ws == [ws[0]] + ws[1..];
      MoreIn(t, ws[0], ws[1..]);
      Repeated(t, ws[1..]);
      PlusIntro(t, ws[0], Joined(ws[1..]));
    }
  }

  lemma {:induction false} MoreIn(t: Tree, u: Word, ws: seq<Word>)
    ensures AllIn(t, [u] + ws) <==> Lang(t, u) && AllIn(t, ws)
  {
    var all := [u] + ws;
    if AllIn(t, all) {
      assert Lang(t, all[0]);
      forall i | 0 <= i < |ws| ensures Lang(t, ws[i]) { assert all[i + 1] == ws[i]; }
    }
  }

  /** `?` is none or one. */
  lemma {:induction false} QuestIsOption(t: Tree, w: Word)
    ensures Lang(Quest(t), w) <==> exists ws: seq<Word> :: |ws| <= 1 && AllIn(t, ws) && Joined(ws) == w
  {
    if Lang(Quest(t), w) {
      var none: seq<Word> := [];
      assert AllIn(t, none) && Joined(none) == [];
      var one := [w];
      assert one[1..] == none && w + [] == w;
      if Lang(t, w) { assert AllIn(t, one) && Joined(one) == w; }
    }
    if exists ws: seq<Word> :: |ws| <= 1 && AllIn(t, ws) && Joined(ws) == w {
      var ws: seq<Word> :| |ws| <= 1 && AllIn(t, ws) && Joined(ws) == w;
      if ws != [] { assert ws[1..] == [] && ws[0] + [] == ws[0]; }
    }
  }

  ghost predicate InTwo(t: Tree, u: Tree, a: Word, b: Word, w: Word) {
    Lang(t, a) && Lang(u, b) && a + b == w
  }

  /** A concatenation has exactly the words made of one of each. */
  lemma {:induction false} CatIsConcatenation(t: Tree, u: Tree, w: Word)
    ensures Lang(Cat(t, u), w) <==> exists a: Word, b: Word :: InTwo(t, u, a, b, w)
  {
    if Lang(Cat(t, u), w) {
      var k :| 0 <= k <= |w| && Lang(t, w[..k]) && Lang(u, w[k..]);
      assert w[..k] + w[k..] == w;
      assert InTwo(t, u, w[..k], w[k..], w);
    } else {
      forall a: Word, b: Word | InTwo(t, u, a, b, w) ensures false { CatIntro(t, u, a, b); }
    }
  }

  /** An alternative has those of either. */
  lemma {:induction false} OrIsUnion(t: Tree, u: Tree, w: Word)
    ensures Lang(Or(t, u), w) <==> Lang(t, w) || Lang(u, w)
  {
  }
}
