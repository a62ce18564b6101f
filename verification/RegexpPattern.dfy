/**
 Compiling and matching together (head/regexp.h: compile, step).
 */
module RegexpPattern {
  import opened RegexpMeaning
  import opened RegexpCode
  import opened RegexpScope
  import opened RegexpAdvance
  import opened RegexpStep
  import opened RegexpSyntax
  import opened RegexpCompile
  import opened RegexpGroups

  /** Members that are read are ASCII. */
  lemma {:induction false} ItemsAscii(s: string, lc: int, members: set<int>)
    requires IsAscii(members) && 0 <= lc < 128
    ensures Items(s, lc, members).Ok? ==> IsAscii(Items(s, lc, members).value.members)
    ensures MoreItems(s, lc, members).Ok? && lc > 0 ==> IsAscii(MoreItems(s, lc, members).value.members)
    decreases |s|
  {
    if s != "" && IsPlain(s[0]) {
      if s[0] == '-' && lc != 0 {
        if |s| > 1 && IsPlain(s[1]) {
          var d := s[1] as int;
          forall x | x in Span(lc, d) ensures 0 < x < 128 { SpanExact(lc, d, x); }
          ItemsAscii(s[2..], d, members + Span(lc, d) + {d});
        }
      } else {
        ItemsAscii(s[1..], s[0] as int, members + {s[0] as int});
      }
    }
  }

  lemma {:induction false} PieceGood(s: string, st: State)
    requires s != "" && GoodCode(st.done)
    ensures Piece(s, st).Ok? ==> GoodCode(Piece(s, st).value.0.done)
  {
    var rest := s[1..];
    ItemsAscii(rest, 0, {});
    if rest != "" { ItemsAscii(rest[1..], 0, {}); }
  }

  /** What is compiled is of the kind that the matcher can run. */
  lemma {:induction false} ElementsGood(s: string, st: State)
    requires GoodCode(st.done)
    ensures Elements(s, st).Ok? ==> GoodCode(Elements(s, st).value)
    decreases |s|
  {
    if s != "" {
      PieceGood(s, st);
      PieceShorter(s, st);
      if Piece(s, st).Ok? { ElementsGood(Piece(s, st).value.1, Piece(s, st).value.0); }
    }
  }

  /** Where a pattern may start to match. */
  ghost predicate MayStart(p: Pattern, t: string, i: nat) {
    i < |t| && (p.circf ==> i == 0)
  }

  /**
   Compiles a pattern and looks for it in a line; back-references are to groups closed before them, and the search comes
   to no repetition of an empty group. The pattern is found exactly when it matches somewhere, at the leftmost place;
   the registers then hold the groups of the way that comes first.
   */
  method Find(m: Matcher, text: string, t: string) returns (r: Result<bool>)
    requires m.Valid() && IsText(t) && forall i :: 0 <= i < |t| ==> t[i] as int < 256
    requires Parse(text).Ok? ==>
               var p := Parse(text).value; ClosedBefore(p.es) && EndsFrom(p.es, t, 0, p.circf)
    modifies m, m.braslist, m.braelist
    ensures Parse(text).Error? ==> r == Error(Parse(text).code)
    ensures Parse(text).Outside? ==> r == Outside
    ensures Parse(text).Ok? ==>
              var p := Parse(text).value;
              && r.Ok? && (r.value <==> exists i :: MayStart(p, t, i) && MatchesAt(p.es, t, i))
              && (r.value ==>
                    && 0 <= m.loc1 && MayStart(p, t, m.loc1) && MatchesAt(p.es, t, m.loc1)
                    && Reported(p.es, t, m.loc1, m.loc2, m.Registers())
                    && forall i :: 0 <= i < m.loc1 ==> !MatchesAt(p.es, t, i))
  {
    var c := Compile(text);
    if c.Error? {
      return Error(c.code);
    }
    ghost var p := Parse(text);
    if c.Outside? {
      return Outside;
    }
    WellScopedExactly(text);
    ElementsGood(if text[0] == '^' then text[1..] else text, atStart);
    m.circf := c.value.0;
    var found := Step(m, t, 0, c.value.1, p.value.es);
    r := Ok(found);
  }
}
