/**
 The conversation of two uucico programs (cmd/bnu/cntrl.c: cntrl, rmesg, wmesg) as the steps of two ends over
 two FIFO channels.  A step reads at most one message and writes at most one.  Local checks and the outcome of
 a data transfer are free choices; an end that gives up keeps its place and takes no more steps.
 */
module Conversation {

  datatype Kind = SNDFILE | RCVFILE | RQSTCMPT | HUP | XUUCP
  datatype Reply = None | Yes | No
  /** A message is its type and the first letter behind it; the data of one file is one abstract item. */
  datatype Item = Msg(kind: Kind, reply: Reply) | Data

  datatype Role = MASTER | SLAVE

  /** The place an end has reached between two reads or writes. */
  datatype Pc =
    | Top
    | Await(want: Kind)       // a typed read
    | Process(got: Item)      // the switch on the message just read
    | PutData                 // about to send the file
    | TakeData                // about to receive the file
    | Report                  // file received, about to say how it went
    | Returned                // cntrl has returned 0
    | WrongRole               // an assertion on Role has fired
    | BadRead                 // a read got something else than it asked for

  datatype End = End(role: Role, pc: Pc, dead: bool)

  /** One end with the channel it reads and the channel it writes. */
  datatype Local = Local(end: End, inbox: seq<Item>, outbox: seq<Item>)

  // ----- the steps of one end -----

  predicate Writes(l: Local, l': Local, x: Item, role: Role, pc: Pc) {
    l' == Local(End(role, pc, false), l.inbox, l.outbox + [x])
  }

  predicate Goes(l: Local, l': Local, role: Role, pc: Pc) {
    l' == Local(End(role, pc, false), l.inbox, l.outbox)
  }

  predicate GivesUp(l: Local, l': Local) {
    l' == l.(end := l.end.(dead := true))
  }

  /** The master gets work, asks for a hangup if there is none, or drops a job that fails a local check. */
  predicate MasterTop(l: Local, l': Local) {
    && l.end.pc == Top && l.end.role == MASTER
    && (|| Writes(l, l', Msg(HUP, None), MASTER, Await(HUP))
        || Writes(l, l', Msg(SNDFILE, None), MASTER, Await(SNDFILE))
        || Writes(l, l', Msg(RCVFILE, None), MASTER, Await(RCVFILE))
        || Goes(l, l', MASTER, Top)
        || GivesUp(l, l'))
  }

  /** The slave takes whatever message comes. */
  predicate SlaveTop(l: Local, l': Local) {
    && l.end.pc == Top && l.end.role == SLAVE && l.inbox != []
    && l' == Local(End(SLAVE, Process(l.inbox[0]), false), l.inbox[1..], l.outbox)
  }

  /** `rmesg` with a message type. */
  predicate TypedRead(l: Local, l': Local) {
    && l.end.pc.Await? && l.inbox != []
    && var x := l.inbox[0];
       var pc := if x.Msg? && x.kind == l.end.pc.want then Process(x) else BadRead;
       l' == Local(End(l.end.role, pc, false), l.inbox[1..], l.outbox)
  }

  /** The file transfer itself. */
  predicate Transfers(l: Local, l': Local) {
    || (l.end.pc == PutData && (Writes(l, l', Data, l.end.role, Await(RQSTCMPT)) || GivesUp(l, l')))
    || (&& l.end.pc == TakeData && l.inbox != []
        && l' == Local(End(l.end.role, if l.inbox[0].Data? then Report else BadRead, false), l.inbox[1..], l.outbox))
    || (&& l.end.pc == Report
        && (|| Writes(l, l', Msg(RQSTCMPT, Yes), l.end.role, Top)
            || Writes(l, l', Msg(RQSTCMPT, No), l.end.role, Top)
            || GivesUp(l, l')))
  }

  predicate ProcessHup(l: Local, l': Local, reply: Reply) {
    match reply
    case Yes => Writes(l, l', Msg(HUP, Yes), l.end.role, Returned)
    case No => if l.end.role == MASTER then Goes(l, l', SLAVE, Top) else Goes(l, l', l.end.role, WrongRole)
    case None =>
      || Writes(l, l', Msg(HUP, Yes), l.end.role, Await(HUP))
      || Writes(l, l', Msg(HUP, No), MASTER, Top)
  }

  predicate ProcessSend(l: Local, l': Local, reply: Reply) {
    match reply
    case No =>
      if l.end.role == MASTER then Goes(l, l', MASTER, Top) || GivesUp(l, l') else Goes(l, l', l.end.role, WrongRole)
    case Yes =>
      if l.end.role == MASTER then Goes(l, l', MASTER, PutData) || GivesUp(l, l')
      else Goes(l, l', l.end.role, WrongRole)
    case None =>
      if l.end.role == SLAVE then
        Writes(l, l', Msg(SNDFILE, No), SLAVE, Top) || Writes(l, l', Msg(SNDFILE, Yes), SLAVE, TakeData)
      else Goes(l, l', l.end.role, WrongRole)
  }

  predicate ProcessReceive(l: Local, l': Local, reply: Reply) {
    match reply
    case No => if l.end.role == MASTER then Goes(l, l', MASTER, Top) else Goes(l, l', l.end.role, WrongRole)
    case Yes => if l.end.role == MASTER then Goes(l, l', MASTER, TakeData) else Goes(l, l', l.end.role, WrongRole)
    case None =>
      if l.end.role == SLAVE then
        || Writes(l, l', Msg(RCVFILE, No), SLAVE, Top)
        || Writes(l, l', Msg(RCVFILE, Yes), SLAVE, PutData)
        || GivesUp(l, l')
      else Goes(l, l', l.end.role, WrongRole)
  }

  /** The switch on the message just read. */
  predicate Processes(l: Local, l': Local) {
    && l.end.pc.Process?
    && match l.end.pc.got
       case Data => Goes(l, l', l.end.role, BadRead)
       case Msg(kind, reply) =>
         match kind
         case RQSTCMPT => Goes(l, l', l.end.role, Top)
         case HUP => ProcessHup(l, l', reply)
         case XUUCP => Writes(l, l', Msg(XUUCP, No), l.end.role, Top)
         case SNDFILE => ProcessSend(l, l', reply)
         case RCVFILE => ProcessReceive(l, l', reply)
  }

  /** The end is about to read. */
  predicate Reads(e: End) {
    e.pc.Await? || e.pc == TakeData || (e.pc == Top && e.role == SLAVE)
  }

  /** The end may be about to write. */
  predicate MayWrite(e: End) {
    match e.pc
    case Top => e.role == MASTER
    case PutData => true
    case Report => true
    case Process(Msg(HUP, reply)) => reply != No
    case Process(Msg(XUUCP, _)) => true
    case Process(Msg(kind, None)) => kind != RQSTCMPT && e.role == SLAVE
    case _ => false
  }

  /** A read or a write of a message fails: `cntrl` gives up. */
  predicate LineFails(l: Local, l': Local) {
    (Reads(l.end) || MayWrite(l.end)) && GivesUp(l, l')
  }

  predicate EndStep(l: Local, l': Local) {
    && !l.end.dead
    && (|| MasterTop(l, l') || SlaveTop(l, l') || TypedRead(l, l') || Processes(l, l') || Transfers(l, l')
        || LineFails(l, l'))
  }

  // ----- two ends -----

  /** `ab` carries what the first end wrote to the second, `ba` the other way. */
  datatype World = World(a: End, b: End, ab: seq<Item>, ba: seq<Item>)

  function Mirror(w: World): World {
    World(w.b, w.a, w.ba, w.ab)
  }

  predicate FirstSteps(w: World, w': World) {
    w'.b == w.b && EndStep(Local(w.a, w.ba, w.ab), Local(w'.a, w'.ba, w'.ab))
  }

  predicate Step(w: World, w': World) {
    FirstSteps(w, w') || FirstSteps(Mirror(w), Mirror(w'))
  }

  /** After `startup`: the caller is master, the called side slave, nothing under way. */
  predicate Start(w: World) {
    && w.a == End(MASTER, Top, false) && w.b == End(SLAVE, Top, false) && w.ab == [] && w.ba == []
  }

  ghost predicate Run(ws: seq<World>) {
    ws != [] && Start(ws[0]) && forall i :: 0 <= i < |ws| - 1 ==> Step(ws[i], ws[i + 1])
  }

  // ----- the invariant: where the master stands tells where the slave is and what is under way -----

  predicate IsRequest(k: Kind) {
    k == SNDFILE || k == RCVFILE || k == HUP
  }

  predicate IsDone(x: Item) {
    x.Msg? && x.kind == RQSTCMPT
  }

  /** The other end is ready for the next request, or will be once it has read `pre`. */
  predicate CatchingUp(s: End, pre: seq<Item>) {
    || (s.role == SLAVE && s.pc == Top && pre == [])
    || (s.role == SLAVE && s.pc == Await(RQSTCMPT) && |pre| == 1 && IsDone(pre[0]))
    || (s.role == SLAVE && s.pc.Process? && IsDone(s.pc.got) && pre == [])
    || RefusalUnderWay(s, pre)
  }

  /** An end that asked for a hangup and has not yet acted on the refusal is still called MASTER. */
  predicate RefusalUnderWay(s: End, pre: seq<Item>) {
    && s.role == MASTER
    && ((s.pc == Await(HUP) && pre == [Msg(HUP, No)]) || (s.pc == Process(Msg(HUP, No)) && pre == []))
  }

  predicate Asked(k: Kind, s: End, ms: seq<Item>, sm: seq<Item>) {
    && IsRequest(k) && sm == []
    && (|| (ms != [] && ms[|ms| - 1] == Msg(k, None) && CatchingUp(s, ms[..|ms| - 1]))
        || (ms == [] && s.role == SLAVE && s.pc == Process(Msg(k, None))))
  }

  predicate Answered(k: Kind, s: End, ms: seq<Item>, sm: seq<Item>) {
    && ms == [] && s.role == SLAVE
    && match k
       case SNDFILE => (s.pc == Top && sm == [Msg(k, No)]) || (s.pc == TakeData && sm == [Msg(k, Yes)])
       case RCVFILE =>
         || (s.pc == Top && sm == [Msg(k, No)])
         || (s.pc == PutData && sm == [Msg(k, Yes)])
         || (s.pc == Await(RQSTCMPT) && sm == [Msg(k, Yes), Data])
       case HUP => s.pc == Await(HUP) && sm == [Msg(k, Yes)]
       case _ => false
  }

  predicate MasterProcesses(x: Item, s: End, ms: seq<Item>, sm: seq<Item>) {
    && ms == [] && s.role == SLAVE && x.Msg?
    && match x
       case Msg(SNDFILE, No) => s.pc == Top && sm == []
       case Msg(SNDFILE, Yes) => s.pc == TakeData && sm == []
       case Msg(RCVFILE, No) => s.pc == Top && sm == []
       case Msg(RCVFILE, Yes) => Sending(s, sm)
       case Msg(RQSTCMPT, _) => s.pc == Top && sm == []
       case Msg(HUP, Yes) => s.pc == Await(HUP) && sm == []
       case _ => false
  }

  predicate Sending(s: End, sm: seq<Item>) {
    (s.pc == PutData && sm == []) || (s.pc == Await(RQSTCMPT) && sm == [Data])
  }

  /** `m` leads the conversation, `s` follows; `ms` and `sm` are the channels from and to `m`. */
  predicate Shape(m: End, s: End, ms: seq<Item>, sm: seq<Item>) {
    && m.role == MASTER
    && match m.pc
       case Top => sm == [] && CatchingUp(s, ms)
       case Await(k) =>
         || Asked(k, s, ms, sm) || Answered(k, s, ms, sm)
         || (k == RQSTCMPT && s.role == SLAVE &&
               (|| (s.pc == TakeData && ms == [Data] && sm == [])
                || (s.pc == Report && ms == [] && sm == [])
                || (s.pc == Top && ms == [] && |sm| == 1 && IsDone(sm[0]))))
       case Process(x) => MasterProcesses(x, s, ms, sm)
       case PutData => s.role == SLAVE && s.pc == TakeData && ms == [] && sm == []
       case TakeData => s.role == SLAVE && ms == [] && Sending(s, sm)
       case Report => s.role == SLAVE && s.pc == Await(RQSTCMPT) && ms == [] && sm == []
       case Returned =>
         && s.role == SLAVE
         && (|| (s.pc == Await(HUP) && ms == [Msg(HUP, Yes)] && sm == [])
             || (s.pc == Process(Msg(HUP, Yes)) && ms == [] && sm == [])
             || (s.pc == Returned && ms == [] && sm == [Msg(HUP, Yes)]))
       case _ => false
  }

  predicate Inv(w: World) {
    Shape(w.a, w.b, w.ab, w.ba) || Shape(w.b, w.a, w.ba, w.ab)
  }

  /** A step of the leading end. */
  lemma {:induction false} LeaderSteps(w: World, w': World)
    requires Shape(w.a, w.b, w.ab, w.ba) && FirstSteps(w, w')
    ensures Inv(w')
  {
    if w.a.pc.Process? {
      LeaderProcesses(w, w');
    } else if w'.a.pc == w.a.pc {
      LeaderStays(w, w');
    }
  }

  lemma {:induction false} LeaderProcesses(w: World, w': World)
    requires Shape(w.a, w.b, w.ab, w.ba) && FirstSteps(w, w') && w.a.pc.Process?
    ensures Inv(w')
  {
  }

  lemma {:induction false} LeaderStays(w: World, w': World)
    requires Shape(w.a, w.b, w.ab, w.ba) && FirstSteps(w, w') && w'.a.pc == w.a.pc
    ensures Inv(w')
  {
  }

  /** A step of the following end that reads. */
  lemma {:induction false} FollowerReads(w: World, w': World)
    requires Shape(w.b, w.a, w.ba, w.ab) && FirstSteps(w, w') && w'.ba != w.ba
    ensures Inv(w')
  {
    var l, l' := Local(w.a, w.ba, w.ab), Local(w'.a, w'.ba, w'.ab);
    assert SlaveTop(l, l') || TypedRead(l, l') || Transfers(l, l');
  }

  /** A step of the following end that does not read. */
  lemma {:induction false} FollowerActs(w: World, w': World)
    requires Shape(w.b, w.a, w.ba, w.ab) && FirstSteps(w, w') && w'.ba == w.ba
    ensures Inv(w')
  {
    var l, l' := Local(w.a, w.ba, w.ab), Local(w'.a, w'.ba, w'.ab);
    if w.ba != [] { assert |w.ba[1..]| < |w.ba|; }
    assert Processes(l, l') || Transfers(l, l') || LineFails(l, l');
  }

  lemma {:induction false} StepKeepsInv(w: World, w': World)
    requires Inv(w) && Step(w, w')
    ensures Inv(w')
  {
    var v, v' := if FirstSteps(w, w') then w else Mirror(w), if FirstSteps(w, w') then w' else Mirror(w');
    if Shape(v.a, v.b, v.ab, v.ba) {
      LeaderSteps(v, v');
    } else if v'.ba != v.ba {
      FollowerReads(v, v');
    } else {
      FollowerActs(v, v');
    }
  }

  /** The invariant holds throughout every run. */
  lemma {:induction false} RunKeepsInv(ws: seq<World>, i: nat)
    requires Run(ws) && i < |ws|
    ensures Inv(ws[i])
  {
    if i > 0 {
      RunKeepsInv(ws, i - 1);
      StepKeepsInv(ws[i - 1], ws[i]);
    }
  }

  // ----- what every run keeps -----

  /** No assertion on the role fires and every typed read gets the type it asked for. */
  lemma {:induction false} NoWrongRoleNoBadRead(ws: seq<World>, i: nat)
    requires Run(ws) && i < |ws|
    ensures !ws[i].a.pc.WrongRole? && !ws[i].b.pc.WrongRole?
    ensures !ws[i].a.pc.BadRead? && !ws[i].b.pc.BadRead?
  {
    RunKeepsInv(ws, i);
  }

  /** The end asked for a hangup, was refused, and has not acted on the refusal yet. */
  predicate Refused(e: End, inbox: seq<Item>) {
    e.pc == Process(Msg(HUP, No)) || (e.pc == Await(HUP) && inbox != [] && inbox[0] == Msg(HUP, No))
  }

  /** Both ends are called MASTER exactly while a refused hangup is on its way to the end that asked for it. */
  lemma {:induction false} TwoMastersOnlyDuringRefusal(ws: seq<World>, i: nat)
    requires Run(ws) && i < |ws|
    ensures ws[i].a.role == MASTER && ws[i].b.role == MASTER <==>
            Refused(ws[i].a, ws[i].ba) || Refused(ws[i].b, ws[i].ab)
  {
    RunKeepsInv(ws, i);
    var w := ws[i];
    if w.ab != [] && w.ab[..|w.ab| - 1] == [Msg(HUP, No)] { assert w.ab[0] == w.ab[..|w.ab| - 1][0]; }
    if w.ba != [] && w.ba[..|w.ba| - 1] == [Msg(HUP, No)] { assert w.ba[0] == w.ba[..|w.ba| - 1][0]; }
  }

  /** That does happen: the refusing end is master before the other has read the refusal. */
  lemma {:induction false} TwoMastersHappen() returns (ws: seq<World>)
    ensures Run(ws) && |ws| == 4 && ws[3].a.role == MASTER && ws[3].b.role == MASTER
  {
    var w0 := World(End(MASTER, Top, false), End(SLAVE, Top, false), [], []);
    var w1 := World(End(MASTER, Await(HUP), false), End(SLAVE, Top, false), [Msg(HUP, None)], []);
    var w2 := World(End(MASTER, Await(HUP), false), End(SLAVE, Process(Msg(HUP, None)), false), [], []);
    var w3 := World(End(MASTER, Await(HUP), false), End(MASTER, Top, false), [], [Msg(HUP, No)]);
    ws := [w0, w1, w2, w3];
    assert FirstSteps(w0, w1);
    assert SlaveTop(Local(w1.b, w1.ab, w1.ba), Local(w2.b, w2.ab, w2.ba));
    assert FirstSteps(Mirror(w1), Mirror(w2));
    assert FirstSteps(Mirror(w2), Mirror(w3));
  }

  predicate Waits(e: End, inbox: seq<Item>) {
    inbox == [] && Reads(e)
  }

  /** The ends never wait for each other. */
  lemma {:induction false} NeverBothWaiting(ws: seq<World>, i: nat)
    requires Run(ws) && i < |ws|
    ensures !(Waits(ws[i].a, ws[i].ba) && Waits(ws[i].b, ws[i].ab))
  {
    RunKeepsInv(ws, i);
  }

  /** An end that does not wait and has not finished can step. */
  lemma {:induction false} ReadyEndSteps(l: Local) returns (l': Local)
    requires !l.end.dead && !Waits(l.end, l.inbox)
    requires !l.end.pc.Returned? && !l.end.pc.WrongRole? && !l.end.pc.BadRead?
    ensures EndStep(l, l')
  {
    var r := l.end.role;
    match l.end.pc
    case Top =>
      l' := if r == MASTER then Local(End(MASTER, Await(HUP), false), l.inbox, l.outbox + [Msg(HUP, None)])
            else Local(End(SLAVE, Process(l.inbox[0]), false), l.inbox[1..], l.outbox);
    case Await(k) =>
      var pc := if l.inbox[0].Msg? && l.inbox[0].kind == k then Process(l.inbox[0]) else BadRead;
      l' := Local(End(r, pc, false), l.inbox[1..], l.outbox);
    case PutData => l' := Local(End(r, Await(RQSTCMPT), false), l.inbox, l.outbox + [Data]);
    case TakeData => l' := Local(End(r, if l.inbox[0].Data? then Report else BadRead, false), l.inbox[1..], l.outbox);
    case Report => l' := Local(End(r, Top, false), l.inbox, l.outbox + [Msg(RQSTCMPT, Yes)]);
    case Process(x) => l' := ProcessSomehow(l);
  }

  lemma {:induction false} ProcessSomehow(l: Local) returns (l': Local)
    requires l.end.pc.Process?
    ensures Processes(l, l')
  {
    var r := l.end.role;
    match l.end.pc.got
    case Data => l' := Local(End(r, BadRead, false), l.inbox, l.outbox);
    case Msg(RQSTCMPT, _) => l' := Local(End(r, Top, false), l.inbox, l.outbox);
    case Msg(XUUCP, _) => l' := Local(End(r, Top, false), l.inbox, l.outbox + [Msg(XUUCP, No)]);
    case Msg(HUP, Yes) => l' := Local(End(r, Returned, false), l.inbox, l.outbox + [Msg(HUP, Yes)]);
    case Msg(HUP, No) =>
      l' := Local(if r == MASTER then End(SLAVE, Top, false) else End(r, WrongRole, false), l.inbox, l.outbox);
    case Msg(HUP, None) => l' := Local(End(r, Await(HUP), false), l.inbox, l.outbox + [Msg(HUP, Yes)]);
    case Msg(kind, Yes) =>
      var pc := if r != MASTER then WrongRole else if kind == SNDFILE then PutData else TakeData;
      l' := Local(End(r, pc, false), l.inbox, l.outbox);
    case Msg(kind, No) => l' := Local(End(r, if r == MASTER then Top else WrongRole, false), l.inbox, l.outbox);
    case Msg(kind, None) =>
      l' := if r == SLAVE then Local(End(SLAVE, Top, false), l.inbox, l.outbox + [Msg(kind, No)])
            else Local(End(r, WrongRole, false), l.inbox, l.outbox);
  }

  /** While no end has given up, some end can step until both have returned 0. */
  lemma {:induction false} NeverStuck(ws: seq<World>, i: nat) returns (w': World)
    requires Run(ws) && i < |ws| && !ws[i].a.dead && !ws[i].b.dead
    requires !(ws[i].a.pc.Returned? && ws[i].b.pc.Returned?)
    ensures Step(ws[i], w')
  {
    var w := ws[i];
    RunKeepsInv(ws, i);
    if !Waits(w.a, w.ba) && !w.a.pc.Returned? {
      var l := ReadyEndSteps(Local(w.a, w.ba, w.ab));
      w' := World(l.end, w.b, l.outbox, l.inbox);
      assert FirstSteps(w, w');
    } else {
      var l := ReadyEndSteps(Local(w.b, w.ab, w.ba));
      w' := World(w.a, l.end, l.inbox, l.outbox);
      assert FirstSteps(Mirror(w), Mirror(w'));
    }
  }

  /** The end has nothing left to do but return 0. */
  predicate ReturnsNext(e: End, inbox: seq<Item>) {
    || e.pc == Returned
    || e.pc == Process(Msg(HUP, Yes))
    || (e.pc == Await(HUP) && inbox == [Msg(HUP, Yes)])
  }

  /** Once one end has returned 0, the other is on its last steps towards the same. */
  lemma {:induction false} HangupReachesBoth(ws: seq<World>, i: nat)
    requires Run(ws) && i < |ws|
    ensures ws[i].a.pc == Returned ==> ReturnsNext(ws[i].b, ws[i].ab)
    ensures ws[i].b.pc == Returned ==> ReturnsNext(ws[i].a, ws[i].ba)
  {
    RunKeepsInv(ws, i);
  }

  function StepsToReturn(e: End): nat {
    if e.pc == Returned then 0 else if e.pc.Process? then 1 else 2
  }

  /** Such an end can always step, and each of its steps brings it nearer to returning 0, unless the line fails. */
  lemma {:induction false} LastStepsReturn(l: Local)
    requires ReturnsNext(l.end, l.inbox) && l.end.pc != Returned && !l.end.dead
    ensures exists l' :: EndStep(l, l')
    ensures forall l' :: EndStep(l, l') ==>
              || LineFails(l, l')
              || (!l'.end.dead && ReturnsNext(l'.end, l'.inbox) && StepsToReturn(l'.end) < StepsToReturn(l.end))
  {
    var l' := if l.end.pc.Process? then Local(End(l.end.role, Returned, false), l.inbox, l.outbox + [Msg(HUP, Yes)])
              else Local(End(l.end.role, Process(Msg(HUP, Yes)), false), l.inbox[1..], l.outbox);
    assert EndStep(l, l');
  }

  // ----- refusals nobody asked for -----

  const refusal := Msg(SNDFILE, No)

  /** A master whose seek in the destination file fails sends an unasked-for refusal and goes on (474-479). */
  predicate SeekFails(l: Local, l': Local) {
    l.end.pc == Top && l.end.role == MASTER && !l.end.dead && Writes(l, l', refusal, MASTER, Top)
  }

  predicate FirstSeekFails(w: World, w': World) {
    w'.b == w.b && SeekFails(Local(w.a, w.ba, w.ab), Local(w'.a, w'.ba, w'.ab))
  }

  /** The end has read a refusal without having asked: its assertion on the role has fired or is next. */
  predicate Caught(s: End) {
    s.pc == WrongRole || (s.role == SLAVE && s.pc == Process(refusal))
  }

  /** There is an unasked refusal in the inbox behind `n` other messages, or it has been read when `n` is -1. */
  predicate Doomed(s: End, inbox: seq<Item>, n: int) {
    if n == -1 then Caught(s)
    else 0 <= n <= 1 && n < |inbox| && inbox[n] == refusal && CatchingUp(s, inbox[..n])
  }

  /** The greatest number of steps that are left to a doomed end. */
  function StepsToWrongRole(s: End): nat {
    if s.dead || s.pc == WrongRole then 0
    else if s.pc == Process(refusal) then 1
    else if s.pc == Top then 2
    else if s.pc.Process? then 3
    else 4
  }

  /** In every state that the invariant allows, an unasked refusal dooms the end it is sent to. */
  lemma {:induction false} SeekFailsDooms(w: World, w': World)
    requires Inv(w) && FirstSeekFails(w, w')
    ensures w.ba == [] && |w.ab| <= 1 && Doomed(w'.b, w'.ab, |w.ab|)
  {
    assert w'.ab[..|w.ab|] == w.ab;
  }

  /** Whatever the other end sends after it, the end stays doomed. */
  lemma {:induction false} StaysDoomed(s: End, inbox: seq<Item>, n: int, more: seq<Item>)
    requires Doomed(s, inbox, n)
    ensures Doomed(s, inbox + more, n)
  {
    if n >= 0 { assert (inbox + more)[..n] == inbox[..n]; }
  }

  /** Every step of a doomed end brings it nearer to the assertion, and it writes nothing. */
  lemma {:induction false} DoomedSteps(l: Local, l': Local, n: int)
    requires Doomed(l.end, l.inbox, n) && EndStep(l, l')
    ensures Doomed(l'.end, l'.inbox, n - (|l.inbox| - |l'.inbox|)) && |l.inbox| - 1 <= |l'.inbox| <= |l.inbox|
    ensures l'.outbox == l.outbox && StepsToWrongRole(l'.end) < StepsToWrongRole(l.end) <= 4
    ensures l.end.pc == Process(refusal) ==> l'.end.pc == WrongRole
  {
    if n == 1 { assert l.inbox[..1] == [l.inbox[0]] && l.inbox[1..][..0] == []; }
    if n == 0 { assert l.inbox[..0] == []; }
    if l.inbox != [] && l'.inbox == l.inbox { assert |l.inbox[1..]| < |l.inbox|; }
  }

  /** Until the assertion has fired, a doomed end can step. */
  lemma {:induction false} DoomedCanStep(l: Local, n: int) returns (l': Local)
    requires Doomed(l.end, l.inbox, n) && !l.end.dead && l.end.pc != WrongRole
    ensures EndStep(l, l')
  {
    if n >= 0 { assert |l.inbox[..n]| == n; }
    l' := ReadyEndSteps(l);
  }

  // ----- runs in which seeks fail -----

  /** The first end has sent an unasked refusal; it waits for ever, or goes on sending. */
  predicate Stray(w: World, n: int) {
    w.a.role == MASTER && (w.a.pc == Top || w.a.pc.Await?) && w.ba == [] && Doomed(w.b, w.ab, n)
  }

  predicate AnyStep(w: World, w': World) {
    Step(w, w') || FirstSeekFails(w, w') || FirstSeekFails(Mirror(w), Mirror(w'))
  }

  /** A run from any state that the invariant allows, in which seeks may fail. */
  ghost predicate SeekingRun(ws: seq<World>) {
    ws != [] && Inv(ws[0]) && forall i :: 0 <= i < |ws| - 1 ==> AnyStep(ws[i], ws[i + 1])
  }

  /** Step `j` of the run is a failing seek of the first end. */
  predicate Strays(ws: seq<World>, j: nat) {
    j < |ws| - 1 && FirstSeekFails(ws[j], ws[j + 1])
  }

  /** How many messages are in front of the one written at step `j`, in state `i`; -1 or less when it has been read. */
  function InFront(ws: seq<World>, j: nat, i: nat): int
    requires j < i < |ws|
  {
    if i == j + 1 then |ws[j].ab|
    else InFront(ws, j, i - 1) - if |ws[i].ab| < |ws[i - 1].ab| then 1 else 0
  }

  /** The second end has read an unasked refusal. */
  ghost predicate HasRead(ws: seq<World>, i: nat)
    requires i < |ws|
  {
    exists j: nat :: j < i && Strays(ws, j) && InFront(ws, j, i) < 0
  }

  /** A step of either end once the first has strayed. */
  lemma {:induction false} StrayStays(w: World, w': World, n: int)
    requires Stray(w, n) && AnyStep(w, w')
    ensures Stray(w', n - if |w'.ab| < |w.ab| then 1 else 0)
    ensures !FirstSeekFails(Mirror(w), Mirror(w'))
  {
    if FirstSteps(w, w') || FirstSeekFails(w, w') {
      var more := w'.ab[|w.ab|..];
      assert w'.ab == w.ab + more;
      StaysDoomed(w.b, w.ab, n, more);
    } else if FirstSteps(Mirror(w), Mirror(w')) {
      DoomedSteps(Local(w.b, w.ab, w.ba), Local(w'.b, w'.ab, w'.ba), n);
    }
  }

  /** No seek has failed before step `i`. */
  ghost predicate Quiet(ws: seq<World>, i: nat) {
    forall j: nat :: j < i ==> !Strays(ws, j) && !OtherStrays(ws, j)
  }

  /** Step `j` of the run is a failing seek of the second end. */
  predicate OtherStrays(ws: seq<World>, j: nat) {
    j < |ws| - 1 && FirstSeekFails(Mirror(ws[j]), Mirror(ws[j + 1]))
  }

  lemma {:induction false} QuietKeepsInv(ws: seq<World>, i: nat)
    requires SeekingRun(ws) && i < |ws| && Quiet(ws, i)
    ensures Inv(ws[i])
  {
    if i > 0 {
      QuietKeepsInv(ws, i - 1);
      assert !Strays(ws, i - 1) && !OtherStrays(ws, i - 1) && AnyStep(ws[i - 1], ws[i]);
      StepKeepsInv(ws[i - 1], ws[i]);
    }
  }

  lemma {:induction false} StrayStarts(w: World, w': World)
    requires Inv(w) && FirstSeekFails(w, w')
    ensures Stray(w', |w.ab|)
  {
    SeekFailsDooms(w, w');
  }

  /** From its first failing seek on the first end has strayed. */
  lemma {:induction false} StrayFrom(ws: seq<World>, j: nat, i: nat)
    requires SeekingRun(ws) && Quiet(ws, j) && Strays(ws, j) && j < i < |ws|
    ensures Stray(ws[i], InFront(ws, j, i))
  {
    hide Stray, Inv, Step, FirstSeekFails;
    if i == j + 1 {
      QuietKeepsInv(ws, j);
      StrayStarts(ws[j], ws[i]);
    } else {
      StrayFrom(ws, j, i - 1);
      StrayStays(ws[i - 1], ws[i], InFront(ws, j, i - 1));
    }
  }

  lemma {:induction false} InvMirrors(w: World)
    ensures Inv(Mirror(w)) <==> Inv(w)
  {
  }

  lemma {:induction false} AnyStepMirrors(w: World, w': World)
    ensures AnyStep(Mirror(w), Mirror(w')) <==> AnyStep(w, w')
  {
    assert Mirror(Mirror(w)) == w && Mirror(Mirror(w')) == w';
  }

  lemma {:induction false} OtherStrayFrom(ws: seq<World>, j: nat, i: nat) returns (n: int)
    requires SeekingRun(ws) && Quiet(ws, j) && OtherStrays(ws, j) && j < i < |ws|
    ensures Stray(Mirror(ws[i]), n)
  {
    hide Stray, Inv, Step, FirstSeekFails;
    if i == j + 1 {
      QuietKeepsInv(ws, j);
      InvMirrors(ws[j]);
      StrayStarts(Mirror(ws[j]), Mirror(ws[i]));
      n := |ws[j].ba|;
    } else {
      var m := OtherStrayFrom(ws, j, i - 1);
      AnyStepMirrors(ws[i - 1], ws[i]);
      StrayStays(Mirror(ws[i - 1]), Mirror(ws[i]), m);
      n := m - if |ws[i].ba| < |ws[i - 1].ba| then 1 else 0;
    }
  }

  /** The second end reads the refusals in the order in which they were sent. */
  lemma {:induction false} LaterBehind(ws: seq<World>, j: nat, k: nat, i: nat)
    requires SeekingRun(ws) && Quiet(ws, j) && Strays(ws, j) && Strays(ws, k) && j < k < i < |ws|
    ensures InFront(ws, j, i) < InFront(ws, k, i)
  {
    hide Inv, AnyStep, Stray, FirstSeekFails, Quiet;
    if i == k + 1 {
      StrayFrom(ws, j, k);
      OneMore(ws[k], ws[i], InFront(ws, j, k));
    } else {
      LaterBehind(ws, j, k, i - 1);
    }
  }

  lemma {:induction false} OneMore(w: World, w': World, n: int)
    requires Stray(w, n) && FirstSeekFails(w, w')
    ensures n < |w.ab| < |w'.ab|
  {
  }

  lemma {:induction false} FirstFailure(ws: seq<World>, i: nat) returns (j: nat)
    requires !Quiet(ws, i)
    ensures j < i && Quiet(ws, j) && (Strays(ws, j) || OtherStrays(ws, j))
  {
    if Quiet(ws, i - 1) {
      j := i - 1;
    } else {
      j := FirstFailure(ws, i - 1);
    }
  }

  /** When the second end has strayed first, the first never does. */
  lemma {:induction false} OnlyOneStrays(ws: seq<World>, j: nat, k: nat)
    requires SeekingRun(ws) && Quiet(ws, j) && OtherStrays(ws, j)
    ensures !Strays(ws, k)
  {
    if j < k < |ws| - 1 {
      var n := OtherStrayFrom(ws, j, k);
      StrayStays(Mirror(ws[k]), Mirror(ws[k + 1]), n);
    } else if k < j {
      assert !Strays(ws, k);
    }
  }

  /** An end is at its assertion, or has run into it, if and only if it has read an unasked refusal. */
  lemma {:induction false} CaughtExactly(ws: seq<World>, i: nat)
    requires SeekingRun(ws) && i < |ws|
    ensures Caught(ws[i].b) <==> HasRead(ws, i)
    ensures ws[i].b.pc != BadRead
  {
    if Quiet(ws, i) {
      QuietKeepsInv(ws, i);
    } else {
      var j := FirstFailure(ws, i);
      if Strays(ws, j) {
        StrayFrom(ws, j, i);
        assert forall k: nat :: k < j ==> !Strays(ws, k);
        forall k: nat | j < k < i && Strays(ws, k) ensures InFront(ws, j, i) < InFront(ws, k, i) {
          LaterBehind(ws, j, k, i);
        }
      } else {
        var n := OtherStrayFrom(ws, j, i);
        forall k: nat ensures !Strays(ws, k) { OnlyOneStrays(ws, j, k); }
      }
    }
  }

  /** Which end is called the first does not matter. */
  lemma {:induction false} SeekingRunMirrors(ws: seq<World>, vs: seq<World>)
    requires SeekingRun(ws) && |vs| == |ws| && forall i :: 0 <= i < |ws| ==> vs[i] == Mirror(ws[i])
    ensures SeekingRun(vs)
  {
    InvMirrors(ws[0]);
    forall i | 0 <= i < |vs| - 1 ensures AnyStep(vs[i], vs[i + 1]) { AnyStepMirrors(ws[i], ws[i + 1]); }
  }

  /** The steps of the second end between the states behind step `j` and `i`. */
  function OwnSteps(ws: seq<World>, j: nat, i: nat): nat
    requires j < i < |ws|
  {
    if i == j + 1 then 0
    else OwnSteps(ws, j, i - 1) + if FirstSteps(Mirror(ws[i - 1]), Mirror(ws[i])) then 1 else 0
  }

  /**
   With its first failing seek an end makes the other run into its assertion, or lose its line, within four steps of
   its own, and until then the other can always step.
   */
  lemma {:induction false} UnaskedRefusalFiresAssertion(ws: seq<World>, j: nat, i: nat)
    requires SeekingRun(ws) && Quiet(ws, j) && Strays(ws, j) && j < i < |ws|
    ensures OwnSteps(ws, j, i) + StepsToWrongRole(ws[i].b) <= 4
    ensures OwnSteps(ws, j, i) == 4 ==> ws[i].b.dead || ws[i].b.pc == WrongRole
    ensures !ws[i].b.dead && ws[i].b.pc != WrongRole ==> exists w' :: FirstSteps(Mirror(ws[i]), Mirror(w'))
  {
    StrayFrom(ws, j, i);
    if i > j + 1 {
      UnaskedRefusalFiresAssertion(ws, j, i - 1);
      StrayFrom(ws, j, i - 1);
      var w, w' := ws[i - 1], ws[i];
      assert AnyStep(w, w');
      StrayStays(w, w', InFront(ws, j, i - 1));
      if FirstSteps(Mirror(w), Mirror(w')) {
        DoomedSteps(Local(w.b, w.ab, w.ba), Local(w'.b, w'.ab, w'.ba), InFront(ws, j, i - 1));
      }
    }
    if !ws[i].b.dead && ws[i].b.pc != WrongRole {
      var w := ws[i];
      var l := DoomedCanStep(Local(w.b, w.ab, w.ba), InFront(ws, j, i));
      assert FirstSteps(Mirror(w), Mirror(World(w.a, l.end, l.inbox, l.outbox)));
    }
  }
}
