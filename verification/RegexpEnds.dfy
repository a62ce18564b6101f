/**
 Repetitions that never end (head/regexp.h: advance, CBACK with STAR).  A repeated back-reference to a group with an
 empty text is found again and again at the same place; `Ends` says that a search does not come to one.
 */
module RegexpEnds {
  import opened Options
  import opened RegexpMeaning
  import opened RegexpScope
  import opened RegexpStep
  import opened RegexpSyntax
  import Show = RegexpShow

  // ----- the loop -----

  /** The `ct` characters from `bbeg` on stand at `lp`, too. */
  predicate StandsAt(t: string, bbeg: nat, ct: nat, lp: nat)
    requires bbeg + ct <= |t|
  {
    lp <= |t| && t[bbeg..bbeg + ct] <= t[lp..]
  }

  /** The loop over the copies of a group goes on after every round if and only if the group is empty. */
  lemma {:induction false} LoopsForever(t: string, bbeg: nat, ct: nat, lp: nat)
    requires bbeg + ct <= |t| && lp <= |t|
    ensures (forall n: nat :: StandsAt(t, bbeg, ct, lp + n * ct)) <==> ct == 0
  {
    if ct == 0 {
      forall n: nat ensures StandsAt(t, bbeg, ct, lp + n * ct) {
        assert lp + n * ct == lp;
      }
    } else {
      Far(|t| + 1, ct);
      assert !StandsAt(t, bbeg, ct, lp + (|t| + 1) * ct);
    }
  }

  lemma {:induction false} Far(n: nat, ct: nat)
    requires ct > 0
    ensures n * ct >= n
  {
  }

  // ----- coming to it -----

  /** The attempt with `m` repetitions of the first element comes to an end and fails. */
  ghost predicate Misses(es: seq<Elem>, t: string, i: nat, r: Regs, m: nat)
    requires i < |t| && es != []
  {
    Attempt(es, t, i, r, m).None? &&
    match Pass(es[0], t, i, r, m)
    case None => true
    case Some(j) => j < |t| ==> Ends(es[1..], t, j, Set(es[0], i, r))
  }

  /**
   With the counts `ns`, and after the attempts with more repetitions have all failed, the search comes to a repeated
   back-reference to an empty group.
   */
  ghost predicate Caught(es: seq<Elem>, t: string, i: nat, r: Regs, ns: seq<nat>)
    requires i < |t|
    decreases |ns|
  {
    es != [] &&
    if ns == [] then es[0].BackMany? && GroupText(t, r, es[0].k) == ""
    else
      && (es[0].BackMany? ==> GroupText(t, r, es[0].k) != "")
      && (forall m :: ns[0] < m <= Greatest(es[0], t, i, r) ==> Misses(es, t, i, r, m))
      && match Pass(es[0], t, i, r, ns[0])
         case None => false
         case Some(j) => j < |t| && Caught(es[1..], t, j, Set(es[0], i, r), ns[1..])
  }

  lemma {:induction false} FindCaught(es: seq<Elem>, t: string, i: nat, r: Regs) returns (ns: seq<nat>)
    requires i < |t| && !Ends(es, t, i, r)
    ensures Caught(es, t, i, r, ns)
    decreases |es|, 0
  {
    if es[0].BackMany? && GroupText(t, r, es[0].k) == "" {
      ns := [];
    } else {
      ns := FindCaughtBelow(es, t, i, r, Greatest(es[0], t, i, r));
    }
  }

  lemma {:induction false} FindCaughtBelow(es: seq<Elem>, t: string, i: nat, r: Regs, n: int) returns (ns: seq<nat>)
    requires i < |t| && es != [] && n <= Greatest(es[0], t, i, r) && !EndsDown(es, t, i, r, n)
    requires es[0].BackMany? ==> GroupText(t, r, es[0].k) != ""
    requires forall m: nat :: n < m <= Greatest(es[0], t, i, r) ==> Misses(es, t, i, r, m)
    ensures Caught(es, t, i, r, ns)
    decreases |es|, 0, n + 1
  {
    PassInterval(es[0], t, i, r, n);
    var j := Pass(es[0], t, i, r, n).value;
    if j < |t| && !Ends(es[1..], t, j, Set(es[0], i, r)) {
      var rest := FindCaught(es[1..], t, j, Set(es[0], i, r));
      ns := [n] + rest;
      assert ns[1..] == rest;
    } else {
      ns := FindCaughtBelow(es, t, i, r, n - 1);
    }
  }

  lemma {:induction false} CaughtNeverEnds(es: seq<Elem>, t: string, i: nat, r: Regs, ns: seq<nat>)
    requires i < |t| && Caught(es, t, i, r, ns)
    ensures !Ends(es, t, i, r)
    decreases |ns|
  {
    if ns != [] {
      var j := Pass(es[0], t, i, r, ns[0]).value;
      CaughtNeverEnds(es[1..], t, j, Set(es[0], i, r), ns[1..]);
      PassInterval(es[0], t, i, r, ns[0]);
      CaughtBelow(es, t, i, r, ns[0], Greatest(es[0], t, i, r));
    }
  }

  lemma {:induction false} CaughtBelow(es: seq<Elem>, t: string, i: nat, r: Regs, n: nat, m: nat)
    requires i < |t| && es != [] && Least(es[0]) <= n <= m <= Greatest(es[0], t, i, r)
    requires !EndsDown(es, t, i, r, n)
    requires forall k :: n < k <= m ==> Misses(es, t, i, r, k)
    ensures !EndsDown(es, t, i, r, m)
    decreases m
  {
    if n < m {
      CaughtBelow(es, t, i, r, n, m - 1);
      PassInterval(es[0], t, i, r, m);
      assert Misses(es, t, i, r, m);
    }
  }

  /** A search does not end if and only if it comes to a repeated back-reference to an empty group. */
  lemma {:induction false} EndlessExactly(es: seq<Elem>, t: string, i: nat, r: Regs)
    requires i < |t|
    ensures !Ends(es, t, i, r) <==> exists ns: seq<nat> :: Caught(es, t, i, r, ns)
  {
    hide Ends, Caught;
    if Ends(es, t, i, r) {
      forall ns | Caught(es, t, i, r, ns) ensures false { CaughtNeverEnds(es, t, i, r, ns); }
    } else {
      var ns := FindCaught(es, t, i, r);
      assert Caught(es, t, i, r, ns);
    }
  }

  // ----- patterns for which it cannot happen -----

  /** Repeated back-references are to groups that cannot be empty. */
  predicate Solid(es: seq<Elem>, s: Scope) {
    es == [] || ((es[0].BackMany? ==> es[0].k in s.solid) && Solid(es[1..], Behind(es[0], s)))
  }

  /** The search for such a pattern ends everywhere. */
  lemma {:induction false} SolidEnds(es: seq<Elem>, s: Scope, t: string, i: nat, r: Regs)
    requires IsText(t) && RegsOk(s, t, i, r) && WellScoped(es, s) && Solid(es, s)
    ensures i < |t| && Ends(es, t, i, r)
    decreases |es|, 0
  {
    if es != [] {
      if es[0].BackMany? { GroupTextExact(s, t, i, r, es[0].k); }
      SolidEndsDown(es, s, t, i, r, Greatest(es[0], t, i, r));
    }
  }

  lemma {:induction false} SolidEndsDown(es: seq<Elem>, s: Scope, t: string, i: nat, r: Regs, n: int)
    requires IsText(t) && RegsOk(s, t, i, r) && WellScoped(es, s) && Solid(es, s) && es != []
    requires n <= Greatest(es[0], t, i, r)
    ensures EndsDown(es, t, i, r, n)
    decreases |es|, 0, n + 1
  {
    if n >= Least(es[0]) {
      PassInterval(es[0], t, i, r, n);
      PassOk(es[0], s, t, i, r, n);
      var j := Pass(es[0], t, i, r, n).value;
      SolidEnds(es[1..], Behind(es[0], s), t, j, Set(es[0], i, r));
      SolidEndsDown(es, s, t, i, r, n - 1);
    }
  }

  /** At the start of a pattern no register matters. */
  lemma {:induction false} SolidEndsFrom(es: seq<Elem>, t: string, start: nat, circf: bool)
    requires IsText(t) && WellScoped(es, outside) && Solid(es, outside)
    ensures EndsFrom(es, t, start, circf)
  {
    forall i | Tried(es, t, start, circf, i) ensures Ends(es, t, i, blank) {
      SolidEnds(es, outside, t, i, blank);
    }
  }

  // ----- a pattern for which it does -----

  /** The elements of a group of any number of characters, and any number of copies of it. */
  function Copied(a: Atom): seq<Elem> {
    [Open(0), Many(a), Close(0), BackMany(0)]
  }

  /** The compiler accepts such a pattern, and the search for it at the start of a line ends only if `a` takes one. */
  lemma {:induction false} EmptyGroupCopied(a: Show.Written, t: string)
    requires Show.ProperWritten(a) && IsText(t)
    ensures exists ps :: Show.ProperParts(atStart, ps)
                         && Parse(Show.Show(ps)) == Ok(Pattern(false, Copied(Show.AtomOf(a))))
    ensures WellScoped(Copied(Show.AtomOf(a)), outside)
    ensures Ends(Copied(Show.AtomOf(a)), t, 0, blank) <==> Takes(Show.AtomOf(a), t[0])
  {
    var ps := CopiedText(a);
    Show.RoundTrip(false, ps);
    assert "" + Show.Show(ps) == Show.Show(ps);
    CopiedScope(Show.AtomOf(a));
    CopiedEnds(Show.AtomOf(a), t);
  }

  lemma {:induction false} CopiedText(a: Show.Written) returns (ps: seq<Show.Part>)
    requires Show.ProperWritten(a)
    ensures ps != [] && Show.ProperParts(atStart, ps) && Show.Meaning(atStart, ps).done == Copied(Show.AtomOf(a))
  {
    var s1 := Show.Behind(atStart, Show.Begin);
    var s2 := Show.Behind(s1, Show.Star(a));
    var s3 := Show.Behind(s2, Show.Finish);
    var s4 := Show.Behind(s3, Show.AgainStar(0));
    assert s1 == State([Open(0)], [0], 1, 0);
    assert s2 == State([Open(0), Many(Show.AtomOf(a))], [0], 1, 0);
    assert s3 == State([Open(0), Many(Show.AtomOf(a)), Close(0)], [], 1, 1);
    assert s4.done == Copied(Show.AtomOf(a));
    ps := Show.InFrontOf(s3, s4, Show.AgainStar(0), []);
    ps := Show.InFrontOf(s2, s3, Show.Finish, ps);
    ps := Show.InFrontOf(s1, s2, Show.Star(a), ps);
    ps := Show.InFrontOf(atStart, s1, Show.Begin, ps);
  }

  lemma {:induction false} CopiedScope(a: Atom)
    ensures WellScoped(Copied(a), outside)
  {
    var es := Copied(a);
    var s1 := Behind(es[0], outside);
    var s3 := Behind(es[2], s1);
    assert es[1..][1..] == es[2..] && es[2..][1..] == es[3..] && es[3..][1..] == [];
    assert WellScoped(es[3..], s3);
    assert WellScoped(es[2..], s1);
    assert WellScoped(es[1..], s1);
  }

  /** Behind the group, with its registers at 0 and `n`. */
  lemma {:induction false} CopiesEnd(t: string, n: nat, r: Regs)
    requires IsText(t) && n < |t| && IsRegs(r) && r.bras[0] == 0 && r.brae[0] == n
    ensures Ends([BackMany(0)], t, n, r) <==> n > 0
    ensures n > 0 ==> Search([BackMany(0)], t, n, r).Some?
  {
    var es := [BackMany(0)];
    assert es[1..] == [];
    assert GroupText(t, r, 0) == t[0..n];
    if n > 0 {
      EndsDownLast(es, t, n, r, Greatest(es[0], t, n, r));
      assert Follow(es, t, n, r, [0]).Some? by { assert [0][1..] == []; }
      FollowSearch(es, t, n, r, [0]);
    }
  }

  lemma {:induction false} EndsDownLast(es: seq<Elem>, t: string, i: nat, r: Regs, n: int)
    requires i < |t| && |es| == 1 && n <= Greatest(es[0], t, i, r)
    ensures EndsDown(es, t, i, r, n)
    decreases n + 1
  {
    if n >= Least(es[0]) {
      PassInterval(es[0], t, i, r, n);
      EndsDownLast(es, t, i, r, n - 1);
    }
  }

  lemma {:induction false} CopiedEnds(a: Atom, t: string)
    requires IsText(t)
    ensures Ends(Copied(a), t, 0, blank) <==> Takes(a, t[0])
  {
    var es, n := Copied(a), Streak(a, t, 0);
    StreakInside(a, t, 0);
    var r := Set(Close(0), n, Set(Open(0), 0, blank));
    CopiesEnd(t, n, r);
    OnceEnds(es, t, 0, blank);
    ManyEnds(es[1..], t, 0, Set(Open(0), 0, blank));
    OnceEnds(es[2..], t, n, Set(Open(0), 0, blank));
    assert es[1..][1..] == es[2..] && es[2..][1..] == [BackMany(0)];
  }

  /** The bounds of a group are noted, and the search goes on. */
  lemma {:induction false} OnceEnds(es: seq<Elem>, t: string, i: nat, r: Regs)
    requires i < |t| && es != [] && (es[0].Open? || es[0].Close?)
    ensures Ends(es, t, i, r) <==> Ends(es[1..], t, i, Set(es[0], i, r))
    ensures Search(es, t, i, r).Some? <==> Search(es[1..], t, i, Set(es[0], i, r)).Some?
  {
    AttemptsNext(es, t, i, r, 1);
    assert Attempts(es, t, i, r, 0).None? && EndsDown(es, t, i, r, 0);
    EndsTop(es, t, i, r, 1, i);
  }

  /** The first attempt of a search. */
  lemma {:induction false} EndsTop(es: seq<Elem>, t: string, i: nat, r: Regs, n: nat, j: nat)
    requires i < |t| && es != [] && !es[0].BackMany? && n == Greatest(es[0], t, i, r) >= Least(es[0])
    requires Pass(es[0], t, i, r, n) == Some(j) && j < |t|
    ensures Ends(es, t, i, r) <==>
              && Ends(es[1..], t, j, Set(es[0], i, r))
              && (Search(es[1..], t, j, Set(es[0], i, r)).None? ==> EndsDown(es, t, i, r, n - 1))
  {
  }

  /** The longest repetition is tried first; when it is found nothing else is tried. */
  lemma {:induction false} ManyEnds(es: seq<Elem>, t: string, i: nat, r: Regs)
    requires i < |t| && es != [] && es[0].Many? && i + Streak(es[0].atom, t, i) < |t|
    ensures var j := i + Streak(es[0].atom, t, i);
            && (Ends(es, t, i, r) ==> Ends(es[1..], t, j, r))
            && (Ends(es[1..], t, j, r) && Search(es[1..], t, j, r).Some? ==> Ends(es, t, i, r))
  {
    var n := Streak(es[0].atom, t, i);
    PassInterval(es[0], t, i, r, n);
    EndsTop(es, t, i, r, n, i + n);
  }

  // ----- back-references to open groups -----

  /** A group with a back-reference to itself inside; the compiler accepts it behind another closed group. */
  function SelfReferring(c: char): seq<Elem> {
    [Open(0), Open(1), One(Char(c)), Close(1), Back(0), Close(0)]
  }

  /** Whether such a pattern matches depends on where a group ended in an earlier search. */
  lemma {:induction false} LeftoversDecide(c: char, x: Regs, y: Regs)
    requires c != NUL && IsRegs(x) && IsRegs(y) && x.brae[0] == 1 && y.brae[0] == 2
    ensures Search(SelfReferring(c), [c, c, NUL], 0, x).Some?
    ensures Search(SelfReferring(c), [c, c, NUL], 0, y).None?
  {
    var es, t := SelfReferring(c), [c, c, NUL];
    var u := Set(Open(1), 0, Set(Open(0), 0, x));
    var v := Set(Open(1), 0, Set(Open(0), 0, y));
    var u', v' := Set(Close(1), 1, u), Set(Close(1), 1, v);
    assert GroupText(t, u', 0) == [c] && GroupText(t, v', 0) == [c, c];
    SelfReferringEnds(es, t, x, u', true);
    SelfReferringEnds(es, t, y, v', false);
  }

  lemma {:induction false} SelfReferringEnds(es: seq<Elem>, t: string, x: Regs, u: Regs, found: bool)
    requires |t| == 3 && t[0] != NUL && t == [t[0], t[0], NUL] && es == SelfReferring(t[0]) && IsRegs(x)
    requires u == Set(Close(1), 1, Set(Open(1), 0, Set(Open(0), 0, x)))
    requires GroupText(t, u, 0) == if found then [t[0]] else [t[0], t[0]]
    ensures Search(es, t, 0, x).Some? <==> found
  {
    var u1 := Set(Open(0), 0, x);
    var u2 := Set(Open(1), 0, u1);
    OnceEnds(es, t, 0, x);
    OnceEnds(es[1..], t, 0, u1);
    assert es[1..][1..] == es[2..] && es[2..][1..] == es[3..] && es[3..][1..] == es[4..] && es[4..][1..] == es[5..];
    SingleFound(es[2..], t, 0, u2);
    OnceEnds(es[3..], t, 1, u2);
    SingleFound(es[4..], t, 1, u);
    if found {
      OnceEnds(es[5..], t, 2, u);
      assert es[5..][1..] == [];
    }
  }

  lemma {:induction false} SingleFound(es: seq<Elem>, t: string, i: nat, r: Regs)
    requires i < |t| && es != [] && (es[0].One? || es[0].Back?)
    ensures match Pass(es[0], t, i, r, 1)
            case None => Search(es, t, i, r).None?
            case Some(j) => Search(es, t, i, r).Some? <==> j < |t| && Search(es[1..], t, j, r).Some?
  {
    assert Attempts(es, t, i, r, 0).None?;
    if Pass(es[0], t, i, r, 1).Some? { AttemptsNext(es, t, i, r, 1); }
  }
}
