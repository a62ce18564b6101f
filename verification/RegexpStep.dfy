/**
 Finding a match in a line (head/regexp.h: step).
 */
module RegexpStep {
  import opened Options
  import opened RegexpMeaning
  import opened RegexpCode
  import opened RegexpScope
  import opened RegexpMatch
  import opened RegexpAdvance

  /** Registers before anything is matched; what they hold does not matter. */
  const blank := Regs([0, 0, 0, 0, 0, 0, 0, 0, 0], [0, 0, 0, 0, 0, 0, 0, 0, 0])

  /** A compiled pattern of the supported kind and a line. */
  ghost predicate Compiled(es: seq<Elem>, t: string, code: seq<int>) {
    && WellScoped(es, outside) && GoodCode(es) && code == Encode(es)
    && IsText(t) && forall i :: 0 <= i < |t| ==> t[i] as int < 256
  }

  /** The pattern matches at `i`: there is a way through it. */
  ghost predicate MatchesAt(es: seq<Elem>, t: string, i: nat) {
    i < |t| && exists ns :: Follow(es, t, i, blank, ns).Some?
  }

  lemma {:induction false} MatchesAtExact(es: seq<Elem>, t: string, i: nat)
    requires i < |t|
    ensures MatchesAt(es, t, i) <==> Search(es, t, i, blank).Some?
  {
    if Search(es, t, i, blank).Some? {
      var ns := SearchFollows(es, t, i, blank);
    } else if MatchesAt(es, t, i) {
      var ns :| Follow(es, t, i, blank, ns).Some?;
      FollowSearch(es, t, i, blank, ns);
    }
  }

  lemma {:induction false} StartPlace(es: seq<Elem>, t: string, code: seq<int>, i: nat)
    requires Compiled(es, t, code) && i < |t| && Ends(es, t, i, blank)
    ensures Place(i, 0, es, outside, blank) in Places(t, code)
  {
    assert code[0..] == code;
  }

  lemma {:induction false} AnyRegisters(x: Regs)
    requires IsRegs(x)
    ensures x in Like(outside, blank)
  {
  }

  /** The quick test: where the first character is missing there is no match. */
  lemma {:induction false} FirstCharacter(es: seq<Elem>, t: string, code: seq<int>, i: nat)
    requires Compiled(es, t, code) && i < |t| && code[0] == CCHR && Ends(es, t, i, blank)
    ensures 1 < |code| && (code[1] != t[i] as int ==> !MatchesAt(es, t, i))
  {
    StartPlace(es, t, code, i);
    var p := Place(i, 0, es, outside, blank);
    Decode(t, code, p);
    DecodeAtom(code, 0, es[0]);
    MatchesExact(code, 1, es[0].atom, t[i]);
    SimpleStep(t, p);
    MatchesAtExact(es, t, i);
  }

  /** What a successful match leaves: where it ends, and the groups of the way that is found first. */
  ghost predicate Reported(es: seq<Elem>, t: string, i: nat, end: int, x: Regs) {
    && i < |t| && Search(es, t, i, blank).Some?
    && end == Search(es, t, i, blank).value.end && x in Like(Final(es, outside), Search(es, t, i, blank).value.regs)
  }

  method Try(m: Matcher, t: string, i: nat, code: seq<int>, ghost es: seq<Elem>) returns (ok: bool)
    requires m.Valid() && Compiled(es, t, code) && i < |t| && Ends(es, t, i, blank)
    modifies m`loc2, m`low, m`size, m.braslist, m.braelist
    ensures ok <==> MatchesAt(es, t, i)
    ensures ok ==> Reported(es, t, i, m.loc2, m.Registers())
  {
    StartPlace(es, t, code, i);
    AnyRegisters(m.Registers());
    MatchesAtExact(es, t, i);
    ok := m.Advance(t, i, code, 0, Place(i, 0, es, outside, blank));
  }

  /** The search comes to `i`: nothing matches before it. */
  ghost predicate Tried(es: seq<Elem>, t: string, start: nat, circf: bool, i: nat) {
    start <= i < |t| && (circf ==> i == start) && forall j :: start <= j < i ==> !MatchesAt(es, t, j)
  }

  /** At no place that the search comes to does it repeat an empty group. */
  ghost predicate EndsFrom(es: seq<Elem>, t: string, start: nat, circf: bool) {
    forall i :: Tried(es, t, start, circf, i) ==> Ends(es, t, i, blank)
  }

  /** Finds the leftmost place from `start` on where the pattern matches; only `start` itself when it is anchored. */
  method Step(m: Matcher, t: string, start: nat, code: seq<int>, ghost es: seq<Elem>) returns (ok: bool)
    requires m.Valid() && Compiled(es, t, code) && start < |t| && EndsFrom(es, t, start, m.circf)
    modifies m`loc1, m`loc2, m`low, m`size, m.braslist, m.braelist
    ensures m.circf ==> (ok <==> MatchesAt(es, t, start)) && m.loc1 == start
    ensures !m.circf ==> (ok <==> exists i :: start <= i < |t| && MatchesAt(es, t, i))
    ensures ok ==> start <= m.loc1 && Reported(es, t, m.loc1, m.loc2, m.Registers())
    ensures ok ==> MatchesAt(es, t, m.loc1) && forall i :: start <= i < m.loc1 ==> !MatchesAt(es, t, i)
  {
    if m.circf {
      m.loc1 := start;
      assert Tried(es, t, start, m.circf, start);
      ok := Try(m, t, start, code, es);
      return;
    }
    var p1 := start;
    while p1 < |t|
      invariant start <= p1 <= |t| && forall i :: start <= i < p1 ==> !MatchesAt(es, t, i)
      invariant m.circf == old(m.circf)
    {
      assert Tried(es, t, start, m.circf, p1);
      if code[0] == CCHR {
        FirstCharacter(es, t, code, p1);
      }
      if code[0] != CCHR || code[1] == t[p1] as int {
        ok := Try(m, t, p1, code, es);
        if ok {
          m.loc1 := p1;
          return;
        }
      }
      p1 := p1 + 1;
    }
    ok := false;
  }
}
