/**
 Which patterns that compile (head/regexp.h: compile) have registers the matcher can rely on: those in which every
 back-reference names a group that is closed before it. All else that scoping wants the compiler sees to.
 */
module RegexpGroups {
  import opened RegexpMeaning
  import opened RegexpSyntax

  predicate IsBack(e: Elem) {
    e.Back? || e.BackMany?
  }

  /** Every back-reference names a group that is closed before it. */
  ghost predicate ClosedBefore(es: seq<Elem>) {
    forall i :: 0 <= i < |es| && IsBack(es[i]) ==> Close(es[i].k) in es[..i]
  }

  /** Everything but the back-references is as it should be. */
  predicate Grouped(es: seq<Elem>, s: Scope) {
    es == [] || ((IsBack(es[0]) || Allowed(es[0], s)) && Grouped(es[1..], Behind(es[0], s)))
  }

  /** The same with groups that are closed from the start. */
  ghost predicate ClosedAt(es: seq<Elem>, s: Scope, i: nat)
    requires i < |es|
  {
    IsBack(es[i]) ==> es[i].k in s.closed || Close(es[i].k) in es[..i]
  }

  lemma {:induction false} ScopedExactly(es: seq<Elem>, s: Scope)
    requires Grouped(es, s)
    ensures WellScoped(es, s) <==> forall i :: 0 <= i < |es| ==> ClosedAt(es, s, i)
  {
    if es != [] {
      var rest, t := es[1..], Behind(es[0], s);
      ScopedExactly(rest, t);
      assert ClosedAt(es, s, 0) <==> Allowed(es[0], s);
      forall i | 0 <= i < |rest| ensures ClosedAt(es, s, i + 1) <==> ClosedAt(rest, t, i) {
        assert es[..i + 1] == [es[0]] + rest[..i] && es[i + 1] == rest[i];
      }
      forall i | 0 < i < |es| && (forall j :: 0 <= j < |rest| ==> ClosedAt(rest, t, j)) ensures ClosedAt(es, s, i) {
        assert ClosedAt(rest, t, i - 1) && ClosedAt(es, s, i - 1 + 1);
      }
    }
  }

  // ----- adding elements -----

  lemma {:induction false} GroupedAdd(es: seq<Elem>, e: Elem, s: Scope)
    ensures Grouped(es + [e], s) <==> Grouped(es, s) && (IsBack(e) || Allowed(e, Final(es, s)))
    ensures Final(es + [e], s) == Behind(e, Final(es, s))
  {
    if es == [] {
      assert [] + [e] == [e] && [e][1..] == [];
    } else {
      assert (es + [e])[1..] == es[1..] + [e];
      GroupedAdd(es[1..], e, Behind(es[0], s));
    }
  }

  predicate Distinct(ks: seq<nat>) {
    forall i, j :: 0 <= i < j < |ks| ==> ks[i] != ks[j]
  }

  /** The groups on the stack are open, those begun before and not on it are closed. */
  ghost predicate Matched(s: Scope, stack: seq<nat>, nbra: nat) {
    && nbra <= NBRA && Distinct(stack) && (forall k: nat :: k in s.open <==> k in stack)
    && (forall k: nat :: k in s.open || k in s.closed <==> k < nbra)
  }

  ghost predicate Sound(st: State) {
    Grouped(st.done, outside) && Matched(Final(st.done, outside), st.stack, st.nbra)
  }

  lemma {:induction false} SoundAdd(st: State, e: Elem)
    requires Sound(st) && !e.Open? && !e.Close? && (IsBack(e) || Allowed(e, Final(st.done, outside)))
    ensures Sound(Add(st, e))
  {
    GroupedAdd(st.done, e, outside);
  }

  /** The last element is replaced by a repetition of it. */
  lemma {:induction false} SoundReplace(st: State, e: Elem)
    requires Sound(st) && st.done != [] && !Last(st).Open? && !Last(st).Close? && !e.Open? && !e.Close?
    requires IsBack(e) || Allowed(e, outside)
    ensures Sound(Replace(st, e))
  {
    var n := |st.done| - 1;
    GroupedAdd(st.done[..n], st.done[n], outside);
    assert st.done == st.done[..n] + [st.done[n]];
    GroupedAdd(st.done[..n], e, outside);
  }

  lemma {:induction false} SoundOpen(st: State)
    requires Sound(st) && st.nbra < NBRA
    ensures Sound(Add(st, Open(st.nbra)).(stack := st.stack + [st.nbra], nbra := st.nbra + 1))
  {
    GroupedAdd(st.done, Open(st.nbra), outside);
    assert st.nbra !in st.stack;
  }

  lemma {:induction false} SoundClose(st: State, top: nat)
    requires Sound(st) && top == |st.stack| - 1
    ensures Sound(Add(st, Close(st.stack[top])).(stack := st.stack[..top], closed := st.closed + 1))
  {
    GroupedAdd(st.done, Close(st.stack[top]), outside);
    assert st.stack == st.stack[..top] + [st.stack[top]];
    assert st.stack[top] !in st.stack[..top];
  }

  /** The bounds of a range are within the limits. */
  lemma {:induction false} BoundsLimited(s: string)
    ensures BoundsAt(s).Ok? ==> var b := BoundsAt(s).value; b.low < 255 && (b.size == 20000 || b.low + b.size < 255)
  {
  }

  lemma {:induction false} SoundEscape(s: string, st: State)
    requires Sound(st) && EscapeAt(s, st).Ok?
    ensures Sound(EscapeAt(s, st).value.0)
  {
    hide Sound, BoundsAt;
    var c, rest := s[0], s[1..];
    if c == '(' {
      SoundOpen(st);
    } else if c == ')' {
      SoundClose(st, |st.stack| - 1);
    } else if c == '{' && st.done != [] {
      BoundsLimited(rest);
      var b := BoundsAt(rest).value;
      SoundReplace(st, Range(Last(st).atom, b.low, b.size));
    } else if '1' <= c <= '9' {
      SoundAdd(st, Back(c as int - '1' as int));
    } else {
      SoundAdd(st, One(Char(if c == 'n' then '\n' else c)));
    }
  }

  lemma {:induction false} SoundPiece(s: string, st: State)
    requires s != "" && Sound(st) && Piece(s, st).Ok?
    ensures Sound(Piece(s, st).value.0)
  {
    hide Sound, BracketAt, EscapeAt;
    var c, rest := s[0], s[1..];
    if c == '.' {
      SoundAdd(st, One(Any));
    } else if c == '*' {
      SoundAdd(st, One(Char('*')));
      if st.done != [] && Last(st).One? { SoundReplace(st, Many(Last(st).atom)); }
      if st.done != [] && Last(st).Back? { SoundReplace(st, BackMany(Last(st).k)); }
    } else if c == '$' && rest == "" {
      SoundAdd(st, EndOfLine);
    } else if c == '[' {
      SoundAdd(st, One(BracketAt(rest).value.0));
    } else if c == '\\' {
      SoundEscape(rest, st);
    } else {
      SoundAdd(st, One(Char(c)));
    }
  }

  lemma {:induction false} ElementsGrouped(s: string, st: State)
    requires Sound(st)
    ensures Elements(s, st).Ok? ==> Grouped(Elements(s, st).value, outside)
    decreases |s|
  {
    if s != "" && Piece(s, st).Ok? {
      SoundPiece(s, st);
      PieceShorter(s, st);
      ElementsGrouped(Piece(s, st).value.1, Piece(s, st).value.0);
    }
  }

  /** What compiles is well scoped if and only if every back-reference names a group that is closed before it. */
  lemma {:induction false} WellScopedExactly(text: string)
    requires Parse(text).Ok?
    ensures var es := Parse(text).value.es; WellScoped(es, outside) <==> ClosedBefore(es)
  {
    var es := Parse(text).value.es;
    ElementsGrouped(if text[0] == '^' then text[1..] else text, atStart);
    ScopedExactly(es, outside);
    forall i | 0 <= i < |es| ensures ClosedAt(es, outside, i) <==> (IsBack(es[i]) ==> Close(es[i].k) in es[..i]) {
    }
  }
}
