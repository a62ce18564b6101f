/**
 What the two ends of the conversation (cmd/bnu/cntrl.c: cntrl) can do: files are sent and received, refused, and the
 hangup is agreed on or refused.  Each run is given by all states it goes through, from both ends at the top of their
 loops with nothing under way.
 */
module ConversationRuns {
  import opened Conversation

  function M(pc: Pc): End { End(MASTER, pc, false) }

  function S(pc: Pc): End { End(SLAVE, pc, false) }

  const start: World := World(M(Top), S(Top), [], [])

  /** The states follow each other, step by step. */
  ghost predicate Path(ws: seq<World>) {
    forall i :: 0 <= i < |ws| - 1 ==> Step(ws[i], ws[i + 1])
  }

  lemma {:induction false} PathsMeet(us: seq<World>, ws: seq<World>)
    requires Path(us) && Path(ws) && us != [] && ws != [] && us[|us| - 1] == ws[0]
    ensures Path(us + ws[1..])
  {
    hide Step;
    var all := us + ws[1..];
    forall i | 0 <= i < |all| - 1 ensures Step(all[i], all[i + 1]) {
      if i < |us| - 1 {
        assert Step(us[i], us[i + 1]);
      } else {
        var k := i - |us| + 1;
        assert all[i] == ws[k] && all[i + 1] == ws[k + 1];
        assert Step(ws[k], ws[k + 1]);
      }
    }
  }

  // ----- a request -----

  /** The first end asks and the other answers and goes to `e`; the answer is then processed. */
  function Asking(k: Kind, reply: Reply, e: End): seq<World> {
    [start,
     World(M(Await(k)), S(Top), [Msg(k, None)], []),
     World(M(Await(k)), S(Process(Msg(k, None))), [], []),
     World(M(Await(k)), e, [], [Msg(k, reply)]),
     World(M(Process(Msg(k, reply))), e, [], [])]
  }

  /** What may be answered, and where the answering end is then. */
  predicate MayAnswer(k: Kind, reply: Reply, e: End) {
    match k
    case SNDFILE => (reply == Yes && e == S(TakeData)) || (reply == No && e == S(Top))
    case RCVFILE => (reply == Yes && e == S(PutData)) || (reply == No && e == S(Top))
    case HUP => (reply == Yes && e == S(Await(HUP))) || (reply == No && e == M(Top))
    case _ => false
  }

  lemma {:induction false} AskingRuns(k: Kind, reply: Reply, e: End)
    requires MayAnswer(k, reply, e)
    ensures Path(Asking(k, reply, e))
  {
    var ws := Asking(k, reply, e);
    Asked(k, reply, e);
    Answered(k, reply, e);
    hide Step;
    forall i | 0 <= i < |ws| - 1 ensures Step(ws[i], ws[i + 1]) {
      assert i == 0 || i == 1 || i == 2 || i == 3;
    }
  }

  lemma {:induction false} Asked(k: Kind, reply: Reply, e: End)
    requires MayAnswer(k, reply, e)
    ensures var ws := Asking(k, reply, e); Step(ws[0], ws[1]) && Step(ws[1], ws[2])
  {
    var ws := Asking(k, reply, e);
    var asked := [Msg(k, None)];
    assert [] + asked == asked && asked[1..] == [];
    assert FirstSteps(ws[0], ws[1]) && FirstSteps(Mirror(ws[1]), Mirror(ws[2]));
  }

  lemma {:induction false} Answered(k: Kind, reply: Reply, e: End)
    requires MayAnswer(k, reply, e)
    ensures var ws := Asking(k, reply, e); Step(ws[2], ws[3]) && Step(ws[3], ws[4])
  {
    var ws := Asking(k, reply, e);
    var answered := [Msg(k, reply)];
    assert [] + answered == answered && answered[1..] == [];
    assert FirstSteps(Mirror(ws[2]), Mirror(ws[3])) && FirstSteps(ws[3], ws[4]);
  }

  // ----- files -----

  /** From the permission to send to the report: the data goes over and the answer `done` comes back. */
  function Sending(done: Reply): seq<World> {
    [World(M(Process(Msg(SNDFILE, Yes))), S(TakeData), [], []),
     World(M(PutData), S(TakeData), [], []),
     World(M(Await(RQSTCMPT)), S(TakeData), [Data], []),
     World(M(Await(RQSTCMPT)), S(Report), [], []),
     World(M(Await(RQSTCMPT)), S(Top), [], [Msg(RQSTCMPT, done)]),
     World(M(Process(Msg(RQSTCMPT, done))), S(Top), [], []),
     start]
  }

  /** The same for a file that is received. */
  function Receiving(done: Reply): seq<World> {
    [World(M(Process(Msg(RCVFILE, Yes))), S(PutData), [], []),
     World(M(TakeData), S(PutData), [], []),
     World(M(TakeData), S(Await(RQSTCMPT)), [], [Data]),
     World(M(Report), S(Await(RQSTCMPT)), [], []),
     World(M(Top), S(Await(RQSTCMPT)), [Msg(RQSTCMPT, done)], []),
     World(M(Top), S(Process(Msg(RQSTCMPT, done))), [], []),
     start]
  }

  lemma {:induction false} DataGoes(done: Reply)
    requires done != None
    ensures var ws := Sending(done); Step(ws[0], ws[1]) && Step(ws[1], ws[2]) && Step(ws[2], ws[3])
  {
    var ws := Sending(done);
    assert [] + [Data] == [Data] && [Data][1..] == [];
    assert FirstSteps(ws[0], ws[1]) && FirstSteps(ws[1], ws[2]) && FirstSteps(Mirror(ws[2]), Mirror(ws[3]));
  }

  lemma {:induction false} ReportComes(done: Reply)
    requires done != None
    ensures var ws := Sending(done); Step(ws[3], ws[4]) && Step(ws[4], ws[5]) && Step(ws[5], ws[6])
  {
    var ws := Sending(done);
    var said := [Msg(RQSTCMPT, done)];
    assert [] + said == said && said[1..] == [];
    assert FirstSteps(Mirror(ws[3]), Mirror(ws[4])) && FirstSteps(ws[4], ws[5]) && FirstSteps(ws[5], ws[6]);
  }

  lemma {:induction false} DataComes(done: Reply)
    requires done != None
    ensures var ws := Receiving(done); Step(ws[0], ws[1]) && Step(ws[1], ws[2]) && Step(ws[2], ws[3])
  {
    var ws := Receiving(done);
    assert [] + [Data] == [Data] && [Data][1..] == [];
    assert FirstSteps(ws[0], ws[1]) && FirstSteps(Mirror(ws[1]), Mirror(ws[2])) && FirstSteps(ws[2], ws[3]);
  }

  lemma {:induction false} ReportGoes(done: Reply)
    requires done != None
    ensures var ws := Receiving(done); Step(ws[3], ws[4]) && Step(ws[4], ws[5]) && Step(ws[5], ws[6])
  {
    var ws := Receiving(done);
    var said := [Msg(RQSTCMPT, done)];
    assert [] + said == said && said[1..] == [];
    assert FirstSteps(ws[3], ws[4]);
    assert FirstSteps(Mirror(ws[4]), Mirror(ws[5])) && FirstSteps(Mirror(ws[5]), Mirror(ws[6]));
  }

  /** A file is asked for, allowed, sent and reported as `done`, and both ends are again where they started. */
  lemma {:induction false} FileIsSent(done: Reply)
    requires done != None
    ensures Path(Asking(SNDFILE, Yes, S(TakeData)) + Sending(done)[1..])
    ensures Sending(done)[|Sending(done)| - 1] == start
  {
    var ws := Sending(done);
    DataGoes(done);
    ReportComes(done);
    AskingRuns(SNDFILE, Yes, S(TakeData));
    hide Step;
    assert Path(ws);
    PathsMeet(Asking(SNDFILE, Yes, S(TakeData)), ws);
  }

  /** A file is asked for, allowed, received and reported as `done`, and both ends are again where they started. */
  lemma {:induction false} FileIsReceived(done: Reply)
    requires done != None
    ensures Path(Asking(RCVFILE, Yes, S(PutData)) + Receiving(done)[1..])
    ensures Receiving(done)[|Receiving(done)| - 1] == start
  {
    var ws := Receiving(done);
    DataComes(done);
    ReportGoes(done);
    AskingRuns(RCVFILE, Yes, S(PutData));
    hide Step;
    assert Path(ws);
    PathsMeet(Asking(RCVFILE, Yes, S(PutData)), ws);
  }

  /** A refused request leaves both ends where they started. */
  lemma {:induction false} RequestIsRefused(k: Kind)
    requires k == SNDFILE || k == RCVFILE
    ensures Path(Asking(k, No, S(Top)) + [start])
  {
    var us, ws := Asking(k, No, S(Top)), [World(M(Process(Msg(k, No))), S(Top), [], []), start];
    AskingRuns(k, No, S(Top));
    assert FirstSteps(ws[0], ws[1]);
    hide Step;
    assert Path(ws);
    PathsMeet(us, ws);
    assert us + ws[1..] == us + [start];
  }

  // ----- hanging up -----

  /** From the agreement to hang up until both ends have returned. */
  function Leaving(): seq<World> {
    [World(M(Process(Msg(HUP, Yes))), S(Await(HUP)), [], []),
     World(M(Returned), S(Await(HUP)), [Msg(HUP, Yes)], []),
     World(M(Returned), S(Process(Msg(HUP, Yes))), [], []),
     World(M(Returned), S(Returned), [], [Msg(HUP, Yes)])]
  }

  /** A hangup is asked for and agreed on, and both ends return. */
  lemma {:induction false} HangupIsAgreed()
    ensures Path(Asking(HUP, Yes, S(Await(HUP))) + Leaving()[1..])
  {
    var ws := Leaving();
    var said := [Msg(HUP, Yes)];
    assert [] + said == said && said[1..] == [];
    assert FirstSteps(ws[0], ws[1]);
    assert FirstSteps(Mirror(ws[1]), Mirror(ws[2])) && FirstSteps(Mirror(ws[2]), Mirror(ws[3]));
    AskingRuns(HUP, Yes, S(Await(HUP)));
    hide Step;
    assert Path(ws);
    PathsMeet(Asking(HUP, Yes, S(Await(HUP))), ws);
  }

  /** A slave with work refuses to hang up, and the ends exchange their roles. */
  lemma {:induction false} RolesAreExchanged()
    ensures Path(Asking(HUP, No, M(Top)) + [Mirror(start)])
  {
    var us, ws := Asking(HUP, No, M(Top)), [World(M(Process(Msg(HUP, No))), M(Top), [], []), Mirror(start)];
    AskingRuns(HUP, No, M(Top));
    assert FirstSteps(ws[0], ws[1]);
    hide Step;
    assert Path(ws);
    PathsMeet(us, ws);
    assert us + ws[1..] == us + [Mirror(start)];
  }
}
