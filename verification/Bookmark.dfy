/**
 The line counter of a work file (cmd/bnu/anlwrk.c: anlwrk) over crashes and restarts. The lines of a
 work file are handed out one by one; a bookmark file remembers how far the work got.
 */
module Bookmark {
  import opened ShortIntegers

  // ----- the file system and the process -----

  /** The bookmark file. `Unreadable`: its count cannot be scanned, as when a write was torn. */
  datatype Mark = NoMark | Unreadable | Count(count: int)

  datatype File = Present | Finished | Stashed(at: nat)

  /** `Marked`: the line at `pos` is read and the bookmark written, but the line not yet handed out. */
  datatype Process = Closed | Reading(pos: nat, acount: int) | Marked(pos: nat, acount: int)

  datatype Event = Handed(line: nat) | Crashed

  datatype State = State(file: File, mark: Mark, process: Process, log: seq<Event>)

  /** A work file: its lines, and which of them are sane requests. */
  datatype Work = Work(lines: seq<string>, sane: string -> bool)

  /** Adding one to a short. */
  function Increment(a: int): int {
    if a == 32767 then -32768 else a + 1
  }

  lemma {:induction false} IncrementIsShort(n: int)
    ensures Increment(Short(n)) == Short(n + 1)
    ensures 0 <= n < 32768 ==> Short(n) == n
    ensures n == 32768 ==> Short(n) == -32768
  {
  }

  /** The count found in the bookmark file at the opening of the work file. */
  function Found(mark: Mark): int {
    if mark.Count? then mark.count else 0
  }

  /** How many lines the skipping loop reads. */
  function Skipped(n: nat, count: int): nat {
    if count <= 0 then 0 else if count <= n then count else n
  }

  // ----- steps -----

  /** What a write of the bookmark leaves: when writes are not `sure`, also the old file or a torn one. */
  predicate Writes(sure: bool, old_: Mark, acount: int, new_: Mark) {
    new_ == Count(acount) || (!sure && (new_ == old_ || new_ == Unreadable))
  }

  predicate Opens(w: Work, s: State, t: State) {
    && s.file.Present? && s.process.Closed?
    && t == s.(process := Reading(Skipped(|w.lines|, Found(s.mark)), Found(s.mark)))
  }

  predicate Marks(w: Work, sure: bool, s: State, t: State) {
    && s.file.Present? && s.process.Reading? && s.process.pos < |w.lines| && w.sane(w.lines[s.process.pos])
    && Writes(sure, s.mark, s.process.acount, t.mark)
    && t == s.(mark := t.mark, process := Marked(s.process.pos, s.process.acount))
  }

  predicate HandsOut(s: State, t: State) {
    && s.process.Marked?
    && t == s.(process := Reading(s.process.pos + 1, Increment(s.process.acount)),
                  log := s.log + [Handed(s.process.pos)])
  }

  /** At the end of the work file it is removed. */
  predicate Finishes(w: Work, s: State, t: State) {
    && s.file.Present? && s.process.Reading? && s.process.pos >= |w.lines|
    && t == s.(file := Finished)
  }

  /** A work file with a bad line is stashed away. */
  predicate Stashes(w: Work, s: State, t: State) {
    && s.file.Present? && s.process.Reading? && s.process.pos < |w.lines| && !w.sane(w.lines[s.process.pos])
    && t == s.(file := Stashed(s.process.pos))
  }

  /** After the work file the bookmark goes, and the stream is closed. */
  predicate CleansUp(s: State, t: State) {
    !s.file.Present? && s.process.Reading? && t == s.(mark := NoMark, process := Closed)
  }

  predicate Crashes(s: State, t: State) {
    t == s.(process := Closed, log := s.log + [Crashed])
  }

  predicate Step(w: Work, sure: bool, s: State, t: State) {
    || Opens(w, s, t) || Marks(w, sure, s, t) || HandsOut(s, t)
    || Finishes(w, s, t) || Stashes(w, s, t) || CleansUp(s, t) || Crashes(s, t)
  }

  const start := State(Present, NoMark, Closed, [])

  predicate Run(w: Work, sure: bool, run: seq<State>) {
    && |run| > 0 && run[0] == start
    && forall i :: 0 < i < |run| ==> Step(w, sure, run[i - 1], run[i])
  }

  // ----- what the log says -----

  /** The line most recently handed out, -1 before the first. */
  function Latest(log: seq<Event>): (l: int)
    ensures l >= -1
  {
    if log == [] then -1
    else match log[|log| - 1]
      case Handed(line) => line
      case Crashed => Latest(log[..|log| - 1])
  }

  predicate CrashedSince(log: seq<Event>) {
    log != [] && log[|log| - 1].Crashed?
  }

  /** Each line handed out is the one after the latest or, only after a crash, the latest again. */
  predicate OnlyLatestRepeats(log: seq<Event>) {
    log != [] ==>
      var before, last := log[..|log| - 1], log[|log| - 1];
      && OnlyLatestRepeats(before)
      && (last.Handed? ==> last.line == Latest(before) + 1 || (last.line == Latest(before) && CrashedSince(before)))
  }

  /** No line is handed out whose predecessor was not. */
  predicate NoneSkipped(log: seq<Event>) {
    forall i :: 0 <= i < |log| ==> Prepared(log, i)
  }

  predicate Prepared(log: seq<Event>, i: nat)
    requires i < |log|
  {
    log[i].Handed? ==> log[i].line == 0 || Handed(log[i].line - 1) in log[..i]
  }

  lemma {:induction false} Extended(log: seq<Event>, e: Event)
    ensures (log + [e])[..|log|] == log && (log + [e])[|log|] == e && log + [e] != []
  {
  }

  lemma {:induction false} ExtendNoneSkipped(log: seq<Event>, e: Event)
    requires NoneSkipped(log) && (e.Handed? ==> e.line == 0 || Handed(e.line - 1) in log)
    ensures NoneSkipped(log + [e])
  {
    var longer := log + [e];
    forall i | 0 <= i < |longer| ensures Prepared(longer, i) {
      if i < |log| {
        assert Prepared(log, i);
        assert longer[..i] == log[..i];
      } else {
        assert longer[..i] == log;
      }
    }
  }

  /** Exactly the lines up to the latest have been handed out. */
  lemma {:induction false} HandedUpToLatest(log: seq<Event>, k: nat)
    requires OnlyLatestRepeats(log)
    ensures Handed(k) in log <==> k <= Latest(log)
  {
    if log != [] {
      var before, last := log[..|log| - 1], log[|log| - 1];
      HandedUpToLatest(before, k);
      assert log == before + [last];
    }
  }

  /** Lines are handed out in order. */
  lemma {:induction false} InOrder(log: seq<Event>, i: nat, j: nat)
    requires OnlyLatestRepeats(log) && i < j < |log| && log[i].Handed? && log[j].Handed?
    ensures log[i].line <= log[j].line
  {
    var before := log[..|log| - 1];
    if j < |before| {
      InOrder(before, i, j);
    } else {
      assert before[i] in before;
      HandedUpToLatest(before, log[i].line);
    }
  }

  lemma {:induction false} RepeatsSkipNone(log: seq<Event>)
    requires OnlyLatestRepeats(log)
    ensures NoneSkipped(log)
  {
    if log != [] {
      var before, last := log[..|log| - 1], log[|log| - 1];
      RepeatsSkipNone(before);
      assert log == before + [last];
      if last.Handed? && last.line > 0 { HandedUpToLatest(before, last.line - 1); }
      ExtendNoneSkipped(before, last);
    }
  }

  // ----- with sure writes, up to 32768 lines -----

  /** The bookmark names the latest line, or the next one when the crash came just before handing it out. */
  ghost predicate MarkInv(w: Work, s: State) {
    var l := Latest(s.log);
    match s.mark
    case NoMark => l == -1
    case Unreadable => false
    case Count(c) => 0 <= c < |w.lines| && (c == l || c == l + 1)
  }

  /** The process is where the counter says: after the latest line or, only after a crash, at it. */
  ghost predicate ProcessInv(w: Work, s: State) {
    var l := Latest(s.log);
    match s.process
    case Closed => l == -1 || CrashedSince(s.log)
    case Reading(pos, acount) =>
      pos <= |w.lines| && acount == (if pos == 32768 then -32768 else pos)
      && (pos == l + 1 || (pos == l && CrashedSince(s.log) && pos < |w.lines|))
    case Marked(pos, acount) =>
      pos < |w.lines| && acount == pos && s.mark == Count(pos) && w.sane(w.lines[pos])
      && (pos == l + 1 || (pos == l && CrashedSince(s.log)))
  }

  ghost predicate Inv(w: Work, s: State) {
    && OnlyLatestRepeats(s.log)
    && (s.file.Present? ==> MarkInv(w, s) && ProcessInv(w, s))
    && (s.file.Finished? ==> Latest(s.log) == |w.lines| - 1)
    && (s.file.Stashed? ==> s.file.at == Latest(s.log) + 1 < |w.lines| && !w.sane(w.lines[s.file.at]))
    && Latest(s.log) < |w.lines| && (Latest(s.log) >= 0 ==> w.sane(w.lines[Latest(s.log)]))
    && (!s.file.Present? ==> !s.process.Marked?)
  }

  lemma {:induction false} StepKeepsInv(w: Work, s: State, t: State)
    requires |w.lines| <= 32768 && Inv(w, s) && Step(w, true, s, t)
    ensures Inv(w, t)
  {
    if Crashes(s, t) {
      Extended(s.log, Crashed);
    } else if HandsOut(s, t) {
      Extended(s.log, Handed(s.process.pos));
    }
  }

  lemma {:induction false} RunKeepsInv(w: Work, run: seq<State>, i: nat)
    requires |w.lines| <= 32768 && Run(w, true, run) && i < |run|
    ensures Inv(w, run[i])
  {
    if i > 0 {
      RunKeepsInv(w, run, i - 1);
      StepKeepsInv(w, run[i - 1], run[i]);
    }
  }

  /**
   For one work file over any number of crashes and restarts: lines are handed out in order, none is skipped,
   and only the latest can come again, after a crash.
   */
  lemma {:induction false} CrashesRepeatOnlyTheLatest(w: Work, run: seq<State>, s: State)
    requires |w.lines| <= 32768 && Run(w, true, run) && s == run[|run| - 1]
    ensures OnlyLatestRepeats(s.log) && NoneSkipped(s.log)
    ensures forall i, j :: 0 <= i < j < |s.log| && s.log[i].Handed? && s.log[j].Handed? ==>
            s.log[i].line <= s.log[j].line
  {
    RunKeepsInv(w, run, |run| - 1);
    RepeatsSkipNone(s.log);
    forall i, j | 0 <= i < j < |s.log| && s.log[i].Handed? && s.log[j].Handed? ensures s.log[i].line <= s.log[j].line {
      InOrder(s.log, i, j);
    }
  }

  /** When the work file is gone, every line has been handed out, or every line before the first bad one. */
  lemma {:induction false} GoneOnlyWhenDone(w: Work, run: seq<State>, s: State, k: nat)
    requires |w.lines| <= 32768 && Run(w, true, run) && s == run[|run| - 1]
    ensures s.file.Finished? ==> (Handed(k) in s.log <==> k < |w.lines|)
    ensures s.file.Stashed? ==> (Handed(k) in s.log <==> k < s.file.at)
    ensures Handed(k) in s.log ==> k < |w.lines|
  {
    RunKeepsInv(w, run, |run| - 1);
    HandedUpToLatest(s.log, k);
  }

  // ----- writes that can fail, any number of lines -----

  /** Neither the process nor the bookmark is ahead of the lines handed out. */
  ghost predicate WeakInv(w: Work, s: State) {
    && NoneSkipped(s.log)
    && Found(s.mark) >= -32768 && Reached(s.log, Found(s.mark))
    && match s.process
       case Closed => true
       case Reading(pos, acount) => Reached(s.log, pos) && acount >= -32768 && (pos < |w.lines| ==> acount <= pos)
       case Marked(pos, acount) => Reached(s.log, pos) && -32768 <= acount <= pos
  }

  /** All lines before `pos` have been handed out at least once. */
  ghost predicate Reached(log: seq<Event>, pos: int) {
    pos > 0 ==> Handed(pos - 1) in log
  }

  lemma {:induction false} Downward(log: seq<Event>, p: int, q: int)
    requires NoneSkipped(log) && Reached(log, p) && q <= p
    ensures Reached(log, q)
    decreases p - q
  {
    if q < p && p > 1 {
      var i :| 0 <= i < |log| && log[i] == Handed(p - 1);
      assert Prepared(log, i);
      Downward(log, p - 1, q);
    }
  }

  lemma {:induction false} ReachedLater(log: seq<Event>, e: Event, pos: int)
    requires Reached(log, pos) || (pos > 0 && e == Handed(pos - 1))
    ensures Reached(log + [e], pos)
  {
  }

  lemma {:induction false} HandsOutKeepsWeakInv(w: Work, s: State, t: State)
    requires WeakInv(w, s) && HandsOut(s, t)
    ensures WeakInv(w, t)
  {
    var e := Handed(s.process.pos);
    ExtendNoneSkipped(s.log, e);
    ReachedLater(s.log, e, Found(s.mark));
    ReachedLater(s.log, e, s.process.pos + 1);
  }

  lemma {:induction false} StepKeepsWeakInv(w: Work, s: State, t: State)
    requires WeakInv(w, s) && Step(w, false, s, t)
    ensures WeakInv(w, t)
  {
    if HandsOut(s, t) {
      HandsOutKeepsWeakInv(w, s, t);
    } else if Opens(w, s, t) {
      Downward(s.log, if Found(s.mark) > 0 then Found(s.mark) else 0, t.process.pos);
    } else if Marks(w, false, s, t) {
      Downward(s.log, s.process.pos, s.process.acount);
    } else if Crashes(s, t) {
      ExtendNoneSkipped(s.log, Crashed);
      ReachedLater(s.log, Crashed, Found(s.mark));
    }
  }

  /** Whatever happens to the bookmarks, no line is ever skipped. */
  lemma {:induction false} NothingIsSkipped(w: Work, run: seq<State>, i: nat)
    requires Run(w, false, run) && i < |run|
    ensures NoneSkipped(run[i].log) && WeakInv(w, run[i])
  {
    if i > 0 {
      NothingIsSkipped(w, run, i - 1);
      StepKeepsWeakInv(w, run[i - 1], run[i]);
    }
  }

  // ----- more than 32768 lines -----

  ghost predicate Reachable(w: Work, s: State) {
    exists run :: Run(w, true, run) && run[|run| - 1] == s
  }

  lemma {:induction false} ReachNext(w: Work, s: State, t: State)
    requires Reachable(w, s) && Step(w, true, s, t)
    ensures Reachable(w, t)
  {
    var run :| Run(w, true, run) && run[|run| - 1] == s;
    var longer := run + [t];
    assert forall i :: 0 < i < |longer| ==> Step(w, true, longer[i - 1], longer[i]);
    assert Run(w, true, longer) && longer[|longer| - 1] == t;
  }

  ghost predicate AllSane(w: Work) {
    forall i :: 0 <= i < |w.lines| ==> w.sane(w.lines[i])
  }

  function Counted(n: nat): (log: seq<Event>)
    ensures |log| == n && forall i :: 0 <= i < n ==> log[i] == Handed(i)
  {
    seq(n, i requires 0 <= i < n => Handed(i))
  }

  /** Without a crash the first `n` lines come one after the other. */
  lemma {:induction false} ReachCounted(w: Work, n: nat)
    requires AllSane(w) && 0 < n <= |w.lines|
    ensures Reachable(w, State(Present, Count(Short(n - 1)), Reading(n, Short(n)), Counted(n)))
  {
    var before :=
      if n == 1 then State(Present, NoMark, Reading(0, 0), [])
      else State(Present, Count(Short(n - 2)), Reading(n - 1, Short(n - 1)), Counted(n - 1));
    if n == 1 {
      assert Run(w, true, [start]) && [start][0] == start;
      ReachNext(w, start, before);
    } else {
      ReachCounted(w, n - 1);
    }
    var marked := before.(mark := Count(Short(n - 1)), process := Marked(n - 1, Short(n - 1)));
    ReachNext(w, before, marked);
    IncrementIsShort(n - 1);
    assert Counted(n) == before.log + [Handed(n - 1)];
    ReachNext(w, marked, State(Present, Count(Short(n - 1)), Reading(n, Short(n)), Counted(n)));
  }

  /** Behind line 32768 the counter is negative, and a crash brings the first line again. */
  lemma {:induction false} ManyLinesStartOver(w: Work, n: nat)
    requires AllSane(w) && n == 32769 <= |w.lines|
    ensures exists s :: Reachable(w, s) && !OnlyLatestRepeats(s.log)
  {
    ReachCounted(w, n);
    IncrementIsShort(32768);
    var s0 := State(Present, Count(Short(n - 1)), Reading(n, Short(n)), Counted(n));
    var s1 := s0.(process := Closed, log := s0.log + [Crashed]);
    var s2 := s1.(process := Reading(0, -32768));
    var s3 := s2.(mark := Count(-32768), process := Marked(0, -32768));
    var s4 := s3.(process := Reading(1, -32767), log := s1.log + [Handed(0)]);
    assert Opens(w, s1, s2);
    ReachNext(w, s0, s1);
    ReachNext(w, s1, s2);
    ReachNext(w, s2, s3);
    ReachNext(w, s3, s4);
    Extended(s0.log, Crashed);
    Extended(s1.log, Handed(0));
    assert Latest(s0.log) == n - 1;
    assert Latest(s1.log) == n - 1;
    assert !OnlyLatestRepeats(s4.log);
  }

  /** For sane lines and sure writes: only the latest line repeats exactly when the file has at most 32768 lines. */
  lemma {:induction false} RepeatsExactly(w: Work)
    requires AllSane(w)
    ensures (forall s :: Reachable(w, s) ==> OnlyLatestRepeats(s.log)) <==> |w.lines| <= 32768
  {
    if |w.lines| <= 32768 {
      forall s | Reachable(w, s) ensures OnlyLatestRepeats(s.log) {
        var run :| Run(w, true, run) && run[|run| - 1] == s;
        CrashesRepeatOnlyTheLatest(w, run, s);
      }
    } else {
      ManyLinesStartOver(w, 32769);
    }
  }

  // ----- the routine -----

  /** The state once the work file is open. */
  ghost function Opened(w: Work, s: State): State {
    if s.process.Closed? then s.(process := Reading(Skipped(|w.lines|, Found(s.mark)), Found(s.mark))) else s
  }

  ghost predicate Delivers(w: Work, sure: bool, s: State, t: State) {
    exists m :: Marks(w, sure, s, m) && HandsOut(m, t)
  }

  ghost predicate Removes(w: Work, s: State, t: State) {
    exists m :: (Finishes(w, s, m) || Stashes(w, s, m)) && CleansUp(m, t)
  }

  /** A process with its static variables, the files it works on, and what it has handed out. */
  class Spool {
    const w: Work
    var file: File
    var mark: Mark
    /** The open work file: its position. */
    var fp: int
    var acount: int
    ghost var log: seq<Event>

    /** Between two calls. */
    ghost function Now(): State
      reads this
    {
      State(file, mark, if fp < 0 then Closed else Reading(fp, acount), log)
    }

    constructor (w: Work)
      ensures Now() == start && this.w == w
    {
      this.w, file, mark, fp, acount, log := w, Present, NoMark, -1, 0, [];
    }

    /** A crash loses the static variables; the files stay. */
    method Restart()
      modifies this
      ensures Crashes(old(Now()), Now())
    {
      fp, acount, log := -1, 0, log + [Crashed];
    }

    /** Opens the work file, reads the bookmark and skips the lines it counts. */
    method Open()
      requires file.Present? && fp < 0
      modifies this`fp, this`acount
      ensures Opens(w, old(Now()), Now())
    {
      acount := 0;
      fp := 0;
      match mark
      case NoMark =>
      case Unreadable =>
      case Count(count) =>
        acount := count;
        var i := 0;
        while i < acount && fp < |w.lines|
          invariant 0 <= i <= fp <= |w.lines| && i == fp && (acount <= 0 ==> i == 0) && (acount > 0 ==> i <= acount)
          invariant acount == count
        {
          fp := fp + 1;
          i := i + 1;
        }
    }

    /**
     Hands out the next line; when there is none or it is bad, removes the work file and then its bookmark.
     `opens`: the bookmark can be opened for writing.
     */
    method Anlwrk(opens: bool) returns (found: bool, line: string)
      requires !file.Present? ==> fp < 0
      modifies this
      ensures !file.Present? ==> fp < 0
      ensures old(file.Present?) && found ==>
                Delivers(w, opens, Opened(w, old(Now())), Now()) && 0 < fp <= |w.lines| && line == w.lines[fp - 1]
      ensures old(file.Present?) && !found ==> Removes(w, Opened(w, old(Now())), Now())
      ensures !old(file.Present?) ==> !found && Now() == old(Now())
    {
      found, line := false, "";
      if fp < 0 {
        if !file.Present? {
          return;
        }
        Open();
      }
      ghost var s := Now();
      if fp >= |w.lines| {
        file := Finished;
        ghost var m := Now();
        mark := NoMark;
        fp := -1;
        assert Finishes(w, s, m) && CleansUp(m, Now());
        return;
      }
      line := w.lines[fp];
      if !w.sane(line) {
        file := Stashed(fp);
        ghost var m := Now();
        mark := NoMark;
        fp := -1;
        assert Stashes(w, s, m) && CleansUp(m, Now());
        return;
      }
      if opens {
        mark := Count(acount);
      }
      ghost var m := s.(mark := mark, process := Marked(fp, acount));
      found := true;
      acount := Increment(acount);
      fp := fp + 1;
      log := log + [Handed(fp - 1)];
      assert Marks(w, opens, s, m) && HandsOut(m, Now());
    }
  }
}
