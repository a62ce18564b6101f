/**
 Fields separated by a regular expression (cmd/awk/lib.c: refldbld): first what the calls of `nematch` cut off, then
 the pieces between the leftmost longest matches that are not empty.
 */
module AwkFields {
  import opened AwkLanguage
  import opened AwkPattern
  import opened AwkMeaning
  import opened AwkCache
  import opened AwkRun
  import opened AwkAutomaton
  import opened AwkMatch
  import opened AwkReplacement
  import opened AwkSubstitute
  import Fields

  // ----- the reference -----

  /** Where the next match from `cur` on that is not empty starts; the end of the text if there is none. */
  ghost function NextSeparator(m: Matches, cur: nat): (i: nat)
    requires cur <= m.n
    ensures cur <= i <= m.n && (i < m.n ==> LengthAt(m, i) > 0)
    decreases m.n - cur
  {
    if cur == m.n || LengthAt(m, cur) > 0 then cur else NextSeparator(m, cur + 1)
  }

  /** The pieces of the text from `cur` on between matches that are not empty, each the longest at its start. */
  ghost function SplitAt(m: Matches, s: Text, cur: nat): seq<Text>
    requires cur <= |s| == m.n
    decreases |s| - cur
  {
    var i := NextSeparator(m, cur);
    if i == m.n then [s[cur..]] else [s[cur..i]] + SplitAt(m, s, i + LengthAt(m, i))
  }

  lemma {:induction false} NextSeparatorIs(m: Matches, cur: nat, i: nat)
    requires cur <= i <= m.n && (forall h :: cur <= h < i ==> LengthAt(m, h) <= 0) && (i < m.n ==> LengthAt(m, i) > 0)
    ensures NextSeparator(m, cur) == i
    decreases i - cur
  {
    if cur < i { NextSeparatorIs(m, cur + 1, i); }
  }

  lemma {:induction false} NextSeparatorExact(m: Matches, cur: nat)
    requires cur <= m.n
    ensures var i := NextSeparator(m, cur);
            forall h :: cur <= h < i ==> LengthAt(m, h) <= 0
    decreases m.n - cur
  {
    if cur < m.n && LengthAt(m, cur) <= 0 { NextSeparatorExact(m, cur + 1); }
  }

  /** At a start without a match that is not empty no stretch of the text that is not empty matches. */
  lemma {:induction false} NoLength(m: Matches, i: nat, j: nat, k: nat)
    requires i <= k <= j <= m.n + 1 && i <= m.n && LengthUpTo(m, i, j) <= 0 && m.at(i, k)
    ensures LenTo(m, i, k) <= 0
    decreases j
  {
    if !m.at(i, j) { NoLength(m, i, j - 1, k); }
  }

  /** Nothing that is not empty matches anywhere inside a piece. */
  lemma {:induction false} PieceIsClean(m: Matches, cur: nat, i: nat, j: nat)
    requires cur <= m.n && cur <= i < NextSeparator(m, cur) && i < j <= m.n
    ensures !m.at(i, j)
  {
    NextSeparatorExact(m, cur);
    assert LengthAt(m, i) <= 0;
    if m.at(i, j) { NoLength(m, i, m.n + 1, j); }
  }

  // ----- what the calls of nematch cut off -----

  /** `nematch` called on the rest of the text. */
  ghost function CutAt(a: Auto, st: State, s: Text, t: nat): Found
    requires t <= |s|
  {
    PmatchCall(a, st, Terminated(s[t..]), 1)
  }

  predicate Cuts(s: Text, t: nat, o: Found) {
    o.found && 0 < o.len && t + o.beg + o.len <= |s|
  }

  /**
   What the loop comes to: the fields, the separators between them, what the automaton keeps, and whether a call was
   led astray or took `^` again behind the start of the record.
   */
  datatype Cutting = Cutting(fields: seq<Text>, gaps: seq<Text>, now: State, astray: bool, hatAgain: bool)

  /** The loop from `t` on with room for `room` more fields; `kept` is the value that `initstat` gets back. */
  ghost function Splitting(a: Auto, st: State, s: Text, t: nat, room: nat, kept: nat): Cutting
    requires t <= |s|
    decreases room
  {
    if room == 0 then Cutting([], [], st, false, false)
    else
      var o := CutAt(a, st, s, t);
      if !Cuts(s, t, o) then Cutting([s[t..]], [], o.c.now.(initstat := kept), o.c.astray, false)
      else
        var b, next := t + o.beg, o.c.now.(initstat := 2);
        var rest := Splitting(a, next, s, b + o.len, room - 1, kept);
        Cutting([s[t..b]] + rest.fields, [s[b..b + o.len]] + rest.gaps, rest.now, o.c.astray || rest.astray,
                TakesHat(a, next) || rest.hatAgain)
  }

  lemma {:induction false} SplittingStep(a: Auto, st: State, s: Text, t: nat, room: nat, kept: nat)
    requires t <= |s| && room > 0
    ensures var o, g := CutAt(a, st, s, t), Splitting(a, st, s, t, room, kept);
            if !Cuts(s, t, o) then g == Cutting([s[t..]], [], o.c.now.(initstat := kept), o.c.astray, false)
            else
              var b, next := t + o.beg, o.c.now.(initstat := 2);
              var rest := Splitting(a, next, s, b + o.len, room - 1, kept);
              g == Cutting([s[t..b]] + rest.fields, [s[b..b + o.len]] + rest.gaps, rest.now, o.c.astray || rest.astray,
                           TakesHat(a, next) || rest.hatAgain)
  {
  }

  lemma {:induction false} NoRoom(a: Auto, st: State, s: Text, t: nat, kept: nat)
    requires t <= |s|
    ensures Splitting(a, st, s, t, 0, kept) == Cutting([], [], st, false, false)
  {
  }

  lemma {:induction false} CutReady(a: Auto, st: State, s: Text, t: nat)
    requires st in AtRest(a) && st.anchor && t <= |s|
    ensures var o := CutAt(a, st, s, t);
            && o.c.now in AtRest(a) && o.c.now.anchor && (o.found <==> Cuts(s, t, o))
  {
    hide Search, Begin, Ready, Held;
    CallInside(a, st, Terminated(s[t..]), 1);
    RunsAtRest(a, CutAt(a, st, s, t).c);
    CallAnchored(a, st, Terminated(s[t..]), 1);
  }

  // ----- refldbld -----

  /** The strings of the fields in the buffer, each with its terminating 0. */
  function Packed(fields: seq<Text>): seq<nat> {
    if fields == [] then [] else Packed(fields[..|fields| - 1]) + Terminated(fields[|fields| - 1])
  }

  /** `n`: how many fields there are, or MAXFLD if there is no room for them. */
  method Refldbld(f: Fa, rec: Text) returns (fields: seq<Text>, buffer: seq<nat>, n: nat)
    requires f.Valid() && f.anchor && IsLine(rec)
    modifies f`gototab, f`posns, f`out, f`curstat, f`initstat, f`reset
    modifies f.statics`setcnt, f.statics`marked, f.statics`limit, f.statics.setvec
    ensures f.Valid() && buffer == Packed(fields)
    ensures rec == [] ==> fields == [] && n == 0 && f.Kept() == old(f.Kept())
    ensures rec != [] ==>
              var g := Splitting(f.auto, old(f.Kept()), rec, 0, Fields.MAXFLD - 1, old(f.initstat));
              && fields == g.fields && f.Kept() == g.now
              && n == if |g.gaps| == |g.fields| then Fields.MAXFLD else |g.fields|
  {
    hide Splitting, CutAt, AtRest, PmatchCall, InitRow, Packed;
    NonePacked();
    fields, buffer, n := [], [], 0;
    if rec == [] {
      return;
    }
    var tempstat := f.initstat;
    WithoutHatRests(f.auto, f.Kept());
    var t: nat, max: nat := 0, Fields.MAXFLD;
    ghost var a, gaps := f.auto, [];
    ghost var g := Splitting(a, f.Kept(), rec, 0, max - 1, tempstat);
    assert [] + g.fields == g.fields && [] + g.gaps == g.gaps;
    n := 1;
    while n < max
      invariant f.Valid() && t <= |rec| && 1 <= n <= max && |fields| == |gaps| == n - 1
      invariant buffer == Packed(fields) && (tempstat == 2 || tempstat == InitRow(a))
      invariant Agree(g, Behind(fields, gaps, Splitting(a, f.Kept(), rec, t, max - n, tempstat)))
      decreases max - n
    {
      ghost var st, o := f.Kept(), CutAt(a, f.Kept(), rec, t);
      CutReady(a, st, rec, t);
      CutIsCall(a, st, rec, t);
      var r, beg, len := Nematch(f, rec[t..]);
      WithoutHatRests(a, f.Kept());
      if r {
        CutNext(a, g, st, rec, t, max - n, tempstat, fields, gaps);
        f.initstat := 2;
        var field := rec[t..][..beg];
        assert field == rec[t..t + beg];
        PackedNext(fields, field);
        gaps := gaps + [rec[t + beg..t + beg + len]];
        fields, buffer, t := fields + [field], buffer + Terminated(field), t + beg + len;
      } else {
        CutLast(a, g, st, rec, t, max - n, tempstat, fields, gaps);
        f.initstat := tempstat;
        PackedNext(fields, rec[t..]);
        fields, buffer := fields + [rec[t..]], buffer + Terminated(rec[t..]);
        return;
      }
      n := n + 1;
    }
    NoRoom(a, f.Kept(), rec, t, tempstat);
    assert fields + [] == fields && gaps + [] == gaps;
  }

  /** One more field is cut off. */
  lemma {:induction false} CutNext(a: Auto, g: Cutting, st: State, s: Text, t: nat, room: nat, kept: nat,
                                   fields: seq<Text>, gaps: seq<Text>)
    requires t <= |s| && room > 0 && Agree(g, Behind(fields, gaps, Splitting(a, st, s, t, room, kept)))
    requires Cuts(s, t, CutAt(a, st, s, t))
    ensures var o := CutAt(a, st, s, t);
            var b, next := t + o.beg, o.c.now.(initstat := 2);
            Agree(g, Behind(fields + [s[t..b]], gaps + [s[b..b + o.len]],
                            Splitting(a, next, s, b + o.len, room - 1, kept)))
  {
    hide CutAt, Splitting, TakesHat;
    SplittingStep(a, st, s, t, room, kept);
    var o := CutAt(a, st, s, t);
    var b, next := t + o.beg, o.c.now.(initstat := 2);
    var rest := Splitting(a, next, s, b + o.len, room - 1, kept);
    assert fields + ([s[t..b]] + rest.fields) == fields + [s[t..b]] + rest.fields;
    assert gaps + ([s[b..b + o.len]] + rest.gaps) == gaps + [s[b..b + o.len]] + rest.gaps;
  }

  /** The rest is the last field. */
  lemma {:induction false} CutLast(a: Auto, g: Cutting, st: State, s: Text, t: nat, room: nat, kept: nat,
                                   fields: seq<Text>, gaps: seq<Text>)
    requires t <= |s| && room > 0 && Agree(g, Behind(fields, gaps, Splitting(a, st, s, t, room, kept)))
    requires !Cuts(s, t, CutAt(a, st, s, t))
    ensures g.fields == fields + [s[t..]] && g.gaps == gaps
    ensures g.now == CutAt(a, st, s, t).c.now.(initstat := kept)
  {
    hide CutAt, Splitting;
    SplittingStep(a, st, s, t, room, kept);
    assert gaps + [] == gaps;
  }

  lemma {:induction false} CutIsCall(a: Auto, st: State, s: Text, t: nat)
    requires t <= |s|
    ensures CutAt(a, st, s, t) == PmatchCall(a, st, Terminated(s[t..]), 1)
  {
  }

  /** Fields and separators in front of what is still cut off. */
  ghost function Behind(fields: seq<Text>, gaps: seq<Text>, g: Cutting): Cutting {
    g.(fields := fields + g.fields, gaps := gaps + g.gaps)
  }

  /** The same fields, separators and state. */
  predicate Agree(g: Cutting, h: Cutting) {
    g.fields == h.fields && g.gaps == h.gaps && g.now == h.now
  }

  lemma {:induction false} NonePacked()
    ensures Packed([]) == []
  {
  }

  lemma {:induction false} PackedNext(fields: seq<Text>, x: Text)
    ensures Packed(fields + [x]) == Packed(fields) + Terminated(x)
  {
    assert (fields + [x])[..|fields|] == fields;
  }

  // ----- whatever the table -----

  /** Fields and separators put together again. */
  function Rejoined(fields: seq<Text>, gaps: seq<Text>): seq<nat>
    requires |gaps| <= |fields| <= |gaps| + 1
    decreases |fields|
  {
    if fields == [] then [] else fields[0] + if gaps == [] then [] else gaps[0] + Rejoined(fields[1..], gaps[1..])
  }

  /** Fields and separators make up the record, and no separator is empty; that holds even with a spoiled table. */
  lemma {:induction false} NothingIsLost(a: Auto, st: State, s: Text, t: nat, room: nat, kept: nat)
    requires t <= |s|
    ensures var g := Splitting(a, st, s, t, room, kept);
            && |g.gaps| <= |g.fields| <= |g.gaps| + 1 && (|g.gaps| == |g.fields| ==> |g.fields| == room)
            && Rejoined(g.fields, g.gaps) <= s[t..] && (forall i :: 0 <= i < |g.gaps| ==> g.gaps[i] != [])
            && (|g.gaps| < |g.fields| ==> Rejoined(g.fields, g.gaps) == s[t..])
            && |Packed(g.fields)| <= |Rejoined(g.fields, g.gaps)| + |g.fields| - |g.gaps|
    decreases room
  {
    hide CutAt, Packed, TakesHat, Splitting, Rejoined;
    NonePacked();
    NoRoom(a, st, s, t, kept);
    RejoinedOne(s[t..]);
    if room > 0 {
      SplittingStep(a, st, s, t, room, kept);
      var o := CutAt(a, st, s, t);
      if Cuts(s, t, o) {
        var b, next := t + o.beg, o.c.now.(initstat := 2);
        var rest := Splitting(a, next, s, b + o.len, room - 1, kept);
        NothingIsLost(a, next, s, b + o.len, room - 1, kept);
        PutInFront(s, t, b, b + o.len, rest.fields, rest.gaps);
        PackedFirst(s[t..b], rest.fields);
      } else {
        PackedFirst(s[t..], []);
        assert [s[t..]] + [] == [s[t..]];
      }
    }
  }

  lemma {:induction false} RejoinedOne(x: Text)
    ensures Rejoined([], []) == [] && Rejoined([x], []) == x
  {
    assert x + [] == x;
  }

  lemma {:induction false} PutInFront(s: Text, t: nat, b: nat, e: nat, fields: seq<Text>, gaps: seq<Text>)
    requires t <= b < e <= |s| && |gaps| <= |fields| <= |gaps| + 1 && Rejoined(fields, gaps) <= s[e..]
    ensures var r := Rejoined([s[t..b]] + fields, [s[b..e]] + gaps);
            && r <= s[t..] && |r| == e - t + |Rejoined(fields, gaps)|
            && (Rejoined(fields, gaps) == s[e..] ==> r == s[t..])
  {
    var fs, gs := [s[t..b]] + fields, [s[b..e]] + gaps;
    assert fs[1..] == fields && gs[1..] == gaps;
    assert s[t..] == s[t..b] + (s[b..e] + s[e..]);
  }

  lemma {:induction false} PackedFirst(x: Text, fields: seq<Text>)
    ensures |Packed([x] + fields)| == |x| + 1 + |Packed(fields)|
    decreases |fields|
  {
    var all := [x] + fields;
    if fields == [] {
      assert all[..0] == [];
    } else {
      assert all[..|all| - 1] == [x] + fields[..|fields| - 1];
      PackedFirst(x, fields[..|fields| - 1]);
    }
  }

  /** The strings of the fields with their terminators take one more than the record at most. */
  lemma {:induction false} BufferSuffices(a: Auto, st: State, s: Text, room: nat, kept: nat)
    ensures |Packed(Splitting(a, st, s, 0, room, kept).fields)| <= |s| + 1
  {
    NothingIsLost(a, st, s, 0, room, kept);
    assert s[0..] == s;
  }

  // ----- the fields are those of the expression -----

  lemma {:induction false} NotLong(a: Auto, s: Text, bol: bool, t: nat, rbol: bool, i: nat)
    requires t + i <= |s| && Fails(a, FromAt(a, rbol, i), Terminated(s[t..]), i, 1)
    requires if t == 0 then rbol == bol else rbol ==> Init(a) == a.starts
    ensures LengthAt(MatchesOf(a, s, bol), t + i) <= 0
  {
    hide Hits, FromAt, Init;
    var m, k := MatchesOf(a, s, bol), t + i;
    forall j: nat | k <= j <= m.n + 1 && m.at(k, j) ensures LenTo(m, k, j) <= 0 {
      RestHits(a, s, bol, t, rbol, i, j - t);
    }
    if LengthAt(m, k) >= 0 { LengthReached(m, k, m.n + 1); }
  }

  /** A call finds the next separator unless it is led astray, or takes `^` behind the start of the record. */
  lemma {:induction false} CutIsNext(a: Auto, st: State, s: Text, bol: bool, t: nat)
    requires Held(a, st) && st.anchor && IsLine(s) && t <= |s|
    requires if t == 0 then AtLineStart(a, st) == bol else AtLineStart(a, st) ==> InitRow(a) == 2
    ensures MatchesOf(a, s, bol).n == |s|
    ensures var m, o := MatchesOf(a, s, bol), CutAt(a, st, s, t);
            !o.c.astray && (o.found ==> Cuts(s, t, o)) ==>
              if o.found then NextSeparator(m, t) == t + o.beg < |s| && LengthAt(m, t + o.beg) == o.len
              else NextSeparator(m, t) == |s|
  {
    hide Search, Begin, Ready, Usable, Started, Exact, WellMade, MatchesOf, Longest, Fails, LengthAt, Init;
    var z, m, rbol := Terminated(s[t..]), MatchesOf(a, s, bol), AtLineStart(a, st);
    MatchesSize(a, s, bol);
    BeginReady(a, st);
    var o := CutAt(a, st, s, t);
    if !o.c.astray && (o.found ==> Cuts(s, t, o)) {
      SearchRight(a, Begin(a, st), z, 0, 1, rbol);
      var last := if o.found then o.beg else |s| - t;
      forall h | t <= h < t + last ensures LengthAt(m, h) <= 0 {
        NotLong(a, s, bol, t, rbol, h - t);
      }
      if o.found { LongestFound(a, s, bol, t, rbol, o.beg, o.len); }
      NextSeparatorIs(m, t, t + last);
    }
  }

  /**
   Calls that are not led astray and do not take `^` again cut off the pieces of the reference, as far as there is
   room.
   */
  lemma {:induction false} SplittingRight(a: Auto, st: State, s: Text, bol: bool, t: nat, room: nat, kept: nat)
    requires Held(a, st) && st.anchor && IsLine(s) && t <= |s| && room > 0
    requires if t == 0 then AtLineStart(a, st) == bol else AtLineStart(a, st) ==> InitRow(a) == 2
    requires !Splitting(a, st, s, t, room, kept).astray && !Splitting(a, st, s, t, room, kept).hatAgain
    ensures MatchesOf(a, s, bol).n == |s|
    ensures var all, g := SplitAt(MatchesOf(a, s, bol), s, t), Splitting(a, st, s, t, room, kept);
            && g.fields == (if |all| <= room then all else all[..room])
            && (|g.gaps| == |g.fields| <==> |all| > room)
    decreases room
  {
    hide CutAt, Held, MatchesOf, AtLineStart, NextSeparator, LengthAt;
    var m, o := MatchesOf(a, s, bol), CutAt(a, st, s, t);
    RestsHeld(a, st);
    CutReady(a, st, s, t);
    SplittingStep(a, st, s, t, room, kept);
    CutIsNext(a, st, s, bol, t);
    if o.found {
      var b, next := t + o.beg, o.c.now.(initstat := 2);
      WithoutHatRests(a, o.c.now);
      HeldAtRest(a, next);
      HatAgainOrNot(a, next);
      FirstPiece(m, s, t, b, b + o.len);
      if room == 1 {
        NoRoom(a, next, s, b + o.len, kept);
      } else {
        SplittingRight(a, next, s, bol, b + o.len, room - 1, kept);
      }
    }
  }

  lemma {:induction false} HatAgainOrNot(a: Auto, st: State)
    ensures !TakesHat(a, st) ==> AtLineStart(a, st) ==> InitRow(a) == 2
  {
  }

  lemma {:induction false} FirstPiece(m: Matches, s: Text, t: nat, b: nat, e: nat)
    requires t <= b < e <= |s| == m.n && NextSeparator(m, t) == b && LengthAt(m, b) == e - b
    ensures SplitAt(m, s, t) == [s[t..b]] + SplitAt(m, s, e) && SplitAt(m, s, e) != []
  {
  }

  /**
   `refldbld` makes the fields that the leftmost longest matches of the expression separate, unless a call was led
   astray or took `^` again behind the start of the record; with too many fields it says so and makes the first ones.
   */
  lemma {:induction false} FieldsRight(re: Tree, st: State, s: Text, room: nat)
    requires NoFinal(re) && IsLine(s) && Held(AutoOf(re), st) && st.anchor && room > 0
    requires var g := Splitting(AutoOf(re), st, s, 0, room, st.initstat); !g.astray && !g.hatAgain
    ensures var m := MatchesOf(AutoOf(re), s, AtLineStart(AutoOf(re), st));
            && m.n == |s|
            && (forall i: nat, j: nat ::
                  m.at(i, j) <==> i <= j <= |s| + 1 && MatchAt(re, s, AtLineStart(AutoOf(re), st), i, j))
            && var all, g := SplitAt(m, s, 0), Splitting(AutoOf(re), st, s, 0, room, st.initstat);
               && g.fields == (if |all| <= room then all else all[..room])
               && (|g.gaps| == |g.fields| <==> |all| > room)
  {
    hide AutoOf, Held, MatchesOf, AtLineStart, Splitting, SplitAt, MatchAt;
    var bol := AtLineStart(AutoOf(re), st);
    SplittingRight(AutoOf(re), st, s, bol, 0, room, st.initstat);
    forall i: nat, j: nat
      ensures MatchesOf(AutoOf(re), s, bol).at(i, j) <==> i <= j <= |s| + 1 && MatchAt(re, s, bol, i, j)
    {
      MatchesMeaning(re, s, bol, i, j);
    }
  }

  // ----- when nothing goes wrong -----

  /** Where taking `^` makes no difference, no call takes it again. */
  lemma {:induction false} NoHatNoCut(a: Auto, st: State, s: Text, t: nat, room: nat, kept: nat)
    requires InitRow(a) == 2 && t <= |s|
    ensures !Splitting(a, st, s, t, room, kept).hatAgain
    decreases room
  {
    hide CutAt;
    var o := CutAt(a, st, s, t);
    if room > 0 && Cuts(s, t, o) {
      NoHatNoCut(a, o.c.now.(initstat := 2), s, t + o.beg + o.len, room - 1, kept);
    }
  }

  lemma {:induction false} CutSafe(a: Auto, st: State, s: Text, t: nat, n: nat, family: set<set<nat>>)
    requires Held(a, st) && st.anchor && !st.reset && t <= |s| && Roomy(a, st.table, CharsRead(|s| - t + 1) + n, family)
    ensures var o := CutAt(a, st, s, t);
            && !o.c.astray && !o.c.now.reset && Held(a, o.c.now) && o.c.now.anchor
            && Roomy(a, o.c.now.table, n, family)
  {
    hide Held, Few, Lives, PmatchCall;
    PmatchSafe(a, st, Terminated(s[t..]), 1, n, family);
  }

  /** With room for one new state a character read, or for all states there are, nothing goes wrong. */
  lemma {:induction false} SplittingSafe(a: Auto, st: State, s: Text, t: nat, room: nat, kept: nat,
                                         family: set<set<nat>>)
    requires Held(a, st) && st.anchor && !st.reset && t <= |s| && Roomy(a, st.table, CallsRead(|s| - t), family)
    ensures var g := Splitting(a, st, s, t, room, kept); !g.astray && !g.hatAgain && !g.now.reset
    decreases room
  {
    hide CutAt, Held, Few, Lives, AtRest;
    if room > 0 {
      var n := if t == |s| then 0 else CallsRead(|s| - t - 1);
      CutSafe(a, st, s, t, n, family);
      var o := CutAt(a, st, s, t);
      if Cuts(s, t, o) {
        var next := o.c.now.(initstat := 2);
        RestsHeld(a, o.c.now);
        WithoutHatRests(a, o.c.now);
        HeldAtRest(a, next);
        CallsReadMore(|s| - (t + o.beg + o.len), |s| - t - 1);
        SplittingSafe(a, next, s, t + o.beg + o.len, room - 1, kept, family);
      }
    }
  }
}
