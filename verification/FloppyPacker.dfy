/**
 Packing a list of files onto floppies (proto/cpout.c): a file that does not fit is put off into a queue.
 */
module FloppyPacker {

  /** How much may be wasted without searching further, and the length of the trailer. */
  const CRITSIZE := 512
  const TRAILERLEN := 87

  /** The size includes the header. */
  datatype File = File(name: string, size: nat, isdir: bool)

  // ----- what the packing is to achieve -----

  /** The numbers below `n`. */
  ghost function UpTo(n: nat): multiset<nat> {
    if n == 0 then multiset{} else UpTo(n - 1) + multiset{n - 1}
  }

  ghost function Total(files: seq<File>, volume: seq<nat>): nat {
    if volume == [] then 0
    else
      var last := volume[|volume| - 1];
      Total(files, volume[..|volume| - 1]) + if last < |files| then files[last].size else 0
  }

  /** The files in the order in which they are written. */
  ghost function Flat(volumes: seq<seq<nat>>): seq<nat> {
    if volumes == [] then [] else Flat(volumes[..|volumes| - 1]) + volumes[|volumes| - 1]
  }

  /** The files of `out` that are in `chosen`. */
  ghost function Pick(out: seq<nat>, chosen: seq<nat>): seq<nat> {
    if out == [] then []
    else
      var last := out[|out| - 1];
      Pick(out[..|out| - 1], chosen) + if last in chosen then [last] else []
  }

  ghost predicate Increasing(s: seq<nat>) {
    forall i, j :: 0 <= i < j < |s| ==> s[i] < s[j]
  }

  /** No volume is overfull. */
  ghost predicate Fit(files: seq<File>, volumes: seq<seq<nat>>, capacity: int) {
    forall v :: 0 <= v < |volumes| ==> Total(files, volumes[v]) <= capacity
  }

  /** A directory is written before anything that is listed after it. */
  ghost predicate DirectoriesFirst(files: seq<File>, out: seq<nat>) {
    forall p :: 0 <= p < |out| ==> Preceded(files, out, p)
  }

  ghost predicate Preceded(files: seq<File>, out: seq<nat>, p: nat)
    requires p < |out|
  {
    forall d :: 0 <= d < out[p] && d < |files| && files[d].isdir ==> d in out[..p]
  }

  lemma {:induction false} FlatAdd(volumes: seq<seq<nat>>, f: nat)
    requires volumes != []
    ensures Flat(Put(volumes, f)) == Flat(volumes) + [f]
  {
    var n := |volumes| - 1;
    assert Put(volumes, f)[..n] == volumes[..n];
  }

  /** One more file on the last volume. */
  function Put(volumes: seq<seq<nat>>, f: nat): seq<seq<nat>> {
    if volumes == [] then [[f]]
    else
      var n := |volumes| - 1;
      volumes[..n] + [volumes[n] + [f]]
  }

  lemma {:induction false} FlatVolume(volumes: seq<seq<nat>>)
    ensures Flat(volumes + [[]]) == Flat(volumes)
  {
    assert (volumes + [[]])[..|volumes|] == volumes;
  }

  lemma {:induction false} TotalAdd(files: seq<File>, volume: seq<nat>, f: nat)
    requires f < |files|
    ensures Total(files, volume + [f]) == Total(files, volume) + files[f].size
  {
    assert (volume + [f])[..|volume|] == volume;
  }

  lemma {:induction false} PickAdd(out: seq<nat>, f: nat, chosen: seq<nat>)
    ensures Pick(out + [f], chosen) == Pick(out, chosen) + if f in chosen then [f] else []
  {
    assert (out + [f])[..|out|] == out;
  }

  lemma {:induction false} PickMore(out: seq<nat>, chosen: seq<nat>, k: nat)
    requires k !in out
    ensures Pick(out, chosen + [k]) == Pick(out, chosen)
  {
    if out != [] { PickMore(out[..|out| - 1], chosen, k); }
  }

  lemma {:induction false} UpToExact(n: nat, x: nat)
    ensures UpTo(n)[x] == if x < n then 1 else 0
  {
    if n > 0 { UpToExact(n - 1, x); }
  }

  lemma {:induction false} DirectoriesStay(files: seq<File>, out: seq<nat>, f: nat)
    requires DirectoriesFirst(files, out) && forall d :: 0 <= d < f && d < |files| && files[d].isdir ==> d in out
    ensures DirectoriesFirst(files, out + [f])
  {
    var longer := out + [f];
    forall p | 0 <= p < |longer| ensures Preceded(files, longer, p) {
      if p < |out| {
        assert longer[..p] == out[..p] && Preceded(files, out, p);
      } else {
        assert longer[..p] == out;
      }
    }
  }

  // ----- the state of the packing, and one round of the loop -----

  /**
   The files on each volume, the queue, those reported as too big, all that were ever put off, the place in the list
   and what remains on the last volume.
   */
  datatype Packing = Packing(volumes: seq<seq<nat>>, queue: seq<nat>, big: seq<nat>, deferred: seq<nat>, k: nat,
                             remains: int)

  function Capacity(targetsize: nat): int {
    targetsize - TRAILERLEN
  }

  function Size(files: seq<File>, f: nat): nat {
    if f < |files| then files[f].size else 0
  }

  /** The file at hand; at the end of the list the last file stays. */
  function Current(files: seq<File>, p: Packing): nat {
    if p.k < |files| then p.k else if files == [] then 0 else |files| - 1
  }

  function NextPlace(files: seq<File>, p: Packing): nat {
    if p.k < |files| then p.k + 1 else p.k
  }

  function Start(targetsize: nat): Packing {
    Packing([[]], [], [], [], 0, Capacity(targetsize))
  }

  /** `nextfloppy`. */
  function Turned(targetsize: nat, p: Packing): Packing {
    p.(volumes := p.volumes + [[]], remains := Capacity(targetsize))
  }

  function Dequeued(files: seq<File>, p: Packing): Packing
    requires p.queue != []
  {
    p.(volumes := Put(p.volumes, p.queue[0]), queue := p.queue[1..], remains := p.remains - Size(files, p.queue[0]))
  }

  function Inlined(files: seq<File>, p: Packing): Packing {
    var f := Current(files, p);
    p.(volumes := Put(p.volumes, f), k := NextPlace(files, p), remains := p.remains - Size(files, f))
  }

  function Enqueued(files: seq<File>, p: Packing): Packing {
    var f := Current(files, p);
    p.(queue := p.queue + [f], deferred := p.deferred + [f], k := NextPlace(files, p))
  }

  function Skipped(files: seq<File>, p: Packing): Packing {
    p.(big := p.big + [Current(files, p)], k := NextPlace(files, p))
  }

  predicate HeadFits(files: seq<File>, p: Packing) {
    p.queue != [] && Size(files, p.queue[0]) <= p.remains
  }

  predicate CurrentFits(files: seq<File>, p: Packing) {
    Size(files, Current(files, p)) <= p.remains
  }

  predicate IsDir(files: seq<File>, f: nat) {
    f < |files| && files[f].isdir
  }

  /**
   The file at hand is put off: neither it nor the queue fits, and there is too much room to go on to the next volume.
   */
  predicate PutsOff(files: seq<File>, targetsize: nat, p: Packing) {
    && !HeadFits(files, p) && !CurrentFits(files, p) && !IsDir(files, Current(files, p)) && p.remains >= CRITSIZE
    && Size(files, Current(files, p)) <= targetsize
  }

  function Act(files: seq<File>, targetsize: nat, p: Packing): Packing {
    if HeadFits(files, p) then Dequeued(files, p)
    else if CurrentFits(files, p) then Inlined(files, p)
    else if IsDir(files, Current(files, p)) || p.remains < CRITSIZE then Turned(targetsize, p)
    else if Size(files, Current(files, p)) > targetsize then Skipped(files, p)
    else Enqueued(files, p)
  }

  predicate Done(files: seq<File>, p: Packing) {
    p.k >= |files| && p.queue == []
  }

  /** At the end of the list a new volume is taken if the head of the queue does not fit. */
  function Ready(files: seq<File>, targetsize: nat, p: Packing): Packing {
    if p.k >= |files| && p.queue != [] && !HeadFits(files, p) then Turned(targetsize, p) else p
  }

  /** One round of the loop. */
  function Step(files: seq<File>, targetsize: nat, p: Packing): Packing {
    if Done(files, p) then p else Act(files, targetsize, Ready(files, targetsize, p))
  }

  /** `n` rounds from the start. */
  function Rounds(files: seq<File>, targetsize: nat, n: nat): Packing {
    if n == 0 then Start(targetsize) else Step(files, targetsize, Rounds(files, targetsize, n - 1))
  }

  /** Once the packer is done it stays so. */
  lemma {:induction false} DoneStays(files: seq<File>, targetsize: nat, m: nat, n: nat)
    requires m <= n && Done(files, Rounds(files, targetsize, m))
    ensures Rounds(files, targetsize, n) == Rounds(files, targetsize, m)
  {
    if m < n { DoneStays(files, targetsize, m, n - 1); }
  }

  // ----- what the rounds keep -----

  /** The file can be put on some volume, or is reported as too big. */
  predicate Placeable(file: File, targetsize: nat) {
    || file.size <= Capacity(targetsize)
    || (!file.isdir && file.size > targetsize && Capacity(targetsize) >= CRITSIZE)
  }

  ghost predicate Reasonable(files: seq<File>, targetsize: nat) {
    Capacity(targetsize) >= 0 && forall i :: 0 <= i < |files| ==> Placeable(files[i], targetsize)
  }

  /** Every file listed so far is written, queued or too big, once. */
  ghost predicate Counted(out: seq<nat>, queue: seq<nat>, big: seq<nat>, k: nat) {
    multiset(out) + multiset(queue) + multiset(big) == UpTo(k)
  }

  /** Files that were put off leave the queue in the order in which they were listed. */
  ghost predicate Ordered(out: seq<nat>, queue: seq<nat>, deferred: seq<nat>, k: nat) {
    && Increasing(deferred) && (forall x :: x in deferred ==> x < k)
    && Pick(out, deferred) + queue == deferred
  }

  /** Only files that were put off are written after files listed behind them. */
  ghost predicate LateOnes(out: seq<nat>, deferred: seq<nat>) {
    forall i, j :: 0 <= i < j < |out| && out[i] > out[j] ==> out[j] in deferred
  }

  /** All directories listed so far are written, each before anything listed after it. */
  ghost predicate DirectoriesOut(files: seq<File>, out: seq<nat>, k: nat) {
    && k <= |files| && DirectoriesFirst(files, out)
    && forall d :: 0 <= d < k && files[d].isdir ==> d in out
  }

  ghost predicate Sizes(files: seq<File>, queue: seq<nat>, big: seq<nat>, k: nat, targetsize: nat) {
    && k <= |files|
    && (forall x :: x in queue ==> x < k && files[x].size <= Capacity(targetsize))
    && (forall x :: x in big ==> x < k && files[x].size > targetsize)
  }

  ghost predicate RemainsRight(files: seq<File>, volumes: seq<seq<nat>>, remains: int, targetsize: nat) {
    volumes != [] && remains == Capacity(targetsize) - Total(files, volumes[|volumes| - 1])
  }

  ghost predicate Inv(files: seq<File>, p: Packing, targetsize: nat) {
    && RemainsRight(files, p.volumes, p.remains, targetsize) && Fit(files, p.volumes, Capacity(targetsize))
    && Counted(Flat(p.volumes), p.queue, p.big, p.k) && Ordered(Flat(p.volumes), p.queue, p.deferred, p.k)
    && LateOnes(Flat(p.volumes), p.deferred) && DirectoriesOut(files, Flat(p.volumes), p.k)
    && Sizes(files, p.queue, p.big, p.k, targetsize)
  }

  lemma {:induction false} FitAdd(files: seq<File>, volumes: seq<seq<nat>>, f: nat, remains: int, targetsize: nat)
    requires RemainsRight(files, volumes, remains, targetsize) && Fit(files, volumes, Capacity(targetsize))
    requires f < |files| && Size(files, f) <= remains
    ensures Fit(files, Put(volumes, f), Capacity(targetsize))
    ensures RemainsRight(files, Put(volumes, f), remains - Size(files, f), targetsize)
  {
    TotalAdd(files, volumes[|volumes| - 1], f);
  }

  lemma {:induction false} OrderedDequeue(out: seq<nat>, queue: seq<nat>, deferred: seq<nat>, k: nat)
    requires Ordered(out, queue, deferred, k) && queue != []
    ensures Ordered(out + [queue[0]], queue[1..], deferred, k) && queue[0] in deferred
  {
    var f := queue[0];
    PickAdd(out, f, deferred);
    assert queue == [f] + queue[1..];
    assert deferred[|Pick(out, deferred)|] == f;
  }

  lemma {:induction false} CountedDequeue(out: seq<nat>, queue: seq<nat>, big: seq<nat>, k: nat)
    requires Counted(out, queue, big, k) && queue != []
    ensures Counted(out + [queue[0]], queue[1..], big, k)
  {
    assert queue == [queue[0]] + queue[1..];
  }

  lemma {:induction false} LateAdd(out: seq<nat>, deferred: seq<nat>, f: nat)
    requires LateOnes(out, deferred) && (f in deferred || forall x :: x in out ==> x <= f)
    ensures LateOnes(out + [f], deferred)
  {
    var longer := out + [f];
    forall i, j | 0 <= i < j < |longer| && longer[i] > longer[j] ensures longer[j] in deferred {
      if j == |out| { assert longer[i] in out; }
    }
  }

  lemma {:induction false} SizesDequeue(files: seq<File>, queue: seq<nat>, big: seq<nat>, k: nat, targetsize: nat)
    requires Sizes(files, queue, big, k, targetsize) && queue != []
    ensures Sizes(files, queue[1..], big, k, targetsize) && queue[0] < |files|
            && files[queue[0]].size <= Capacity(targetsize)
  {
    assert queue[0] in queue && forall x :: x in queue[1..] ==> x in queue;
  }

  /** A file from the queue is written. */
  lemma {:induction false} DequeueKeeps(files: seq<File>, p: Packing, targetsize: nat)
    requires Inv(files, p, targetsize) && HeadFits(files, p)
    ensures Inv(files, Dequeued(files, p), targetsize)
  {
    hide Fit, RemainsRight, Counted, Ordered, LateOnes, Sizes, Put, Total, Flat;
    var out := Flat(p.volumes);
    SizesDequeue(files, p.queue, p.big, p.k, targetsize);
    FitAdd(files, p.volumes, p.queue[0], p.remains, targetsize);
    NotEmpty(files, p.volumes, p.remains, targetsize);
    FlatAdd(p.volumes, p.queue[0]);
    CountedDequeue(out, p.queue, p.big, p.k);
    OrderedDequeue(out, p.queue, p.deferred, p.k);
    LateAdd(out, p.deferred, p.queue[0]);
    DirectoriesLater(files, out, p.k, p.queue[0], p.deferred, p.queue);
  }

  lemma {:induction false} NotEmpty(files: seq<File>, volumes: seq<seq<nat>>, remains: int, targetsize: nat)
    requires RemainsRight(files, volumes, remains, targetsize)
    ensures volumes != []
  {
  }

  lemma {:induction false} DirectoriesLater(files: seq<File>, out: seq<nat>, k: nat, f: nat, deferred: seq<nat>,
                                            queue: seq<nat>)
    requires DirectoriesOut(files, out, k) && queue != [] && Ordered(out + [f], queue[1..], deferred, k)
             && f in deferred
    ensures DirectoriesOut(files, out + [f], k)
  {
    DirectoriesStay(files, out, f);
  }

  lemma {:induction false} CountedNext(out: seq<nat>, queue: seq<nat>, big: seq<nat>, k: nat)
    requires Counted(out, queue, big, k)
    ensures Counted(out + [k], queue, big, k + 1)
    ensures Counted(out, queue + [k], big, k + 1)
    ensures Counted(out, queue, big + [k], k + 1)
    ensures k !in out && forall x :: x in out ==> x < k
  {
    UpToExact(k, k);
    var written: multiset<nat>, put: multiset<nat>, more: multiset<nat> := multiset(out), multiset(queue),
      multiset(big);
    assert (written + put + more)[k] == 0;
    forall x | x in out ensures x < k {
      UpToExact(k, x);
      assert x in written && (written + put + more)[x] > 0;
    }
  }

  lemma {:induction false} DirectoriesNext(files: seq<File>, out: seq<nat>, k: nat)
    requires DirectoriesOut(files, out, k) && k < |files|
    ensures DirectoriesOut(files, out + [k], k + 1)
    ensures !files[k].isdir ==> DirectoriesOut(files, out, k + 1)
  {
    DirectoriesStay(files, out, k);
  }

  lemma {:induction false} OrderedInline(out: seq<nat>, queue: seq<nat>, deferred: seq<nat>, k: nat)
    requires Ordered(out, queue, deferred, k)
    ensures Ordered(out + [k], queue, deferred, k + 1)
  {
    PickAdd(out, k, deferred);
    assert k !in deferred;
  }

  lemma {:induction false} OrderedEnqueue(out: seq<nat>, queue: seq<nat>, deferred: seq<nat>, k: nat)
    requires Ordered(out, queue, deferred, k) && k !in out
    ensures Ordered(out, queue + [k], deferred + [k], k + 1)
  {
    PickMore(out, deferred, k);
    assert Pick(out, deferred) + (queue + [k]) == deferred + [k];
    assert forall i :: 0 <= i < |deferred| ==> deferred[i] in deferred;
  }

  /** The file at hand is written. */
  lemma {:induction false} InlineKeeps(files: seq<File>, p: Packing, targetsize: nat)
    requires Inv(files, p, targetsize) && p.k < |files| && CurrentFits(files, p)
    ensures Inv(files, Inlined(files, p), targetsize)
  {
    hide Fit, RemainsRight, Counted, Ordered, LateOnes, Put, Total, Flat, DirectoriesOut;
    var out := Flat(p.volumes);
    FitAdd(files, p.volumes, p.k, p.remains, targetsize);
    NotEmpty(files, p.volumes, p.remains, targetsize);
    FlatAdd(p.volumes, p.k);
    CountedNext(out, p.queue, p.big, p.k);
    OrderedInline(out, p.queue, p.deferred, p.k);
    LateAdd(out, p.deferred, p.k);
    DirectoriesNext(files, out, p.k);
  }

  /** The file at hand is put off. */
  lemma {:induction false} EnqueueKeeps(files: seq<File>, p: Packing, targetsize: nat)
    requires Inv(files, p, targetsize) && p.k < |files| && !files[p.k].isdir && files[p.k].size <= Capacity(targetsize)
    ensures Inv(files, Enqueued(files, p), targetsize)
  {
    hide Fit, RemainsRight, Counted, Ordered, Put, Total, Flat, DirectoriesOut;
    var out := Flat(p.volumes);
    CountedNext(out, p.queue, p.big, p.k);
    OrderedEnqueue(out, p.queue, p.deferred, p.k);
    DirectoriesNext(files, out, p.k);
  }

  /** The file at hand is too big for any volume. */
  lemma {:induction false} SkipKeeps(files: seq<File>, p: Packing, targetsize: nat)
    requires Inv(files, p, targetsize) && p.k < |files| && !files[p.k].isdir && files[p.k].size > targetsize
    ensures Inv(files, Skipped(files, p), targetsize)
  {
    hide Fit, RemainsRight, Counted, LateOnes, Put, Total, Flat, DirectoriesOut;
    var out := Flat(p.volumes);
    CountedNext(out, p.queue, p.big, p.k);
    DirectoriesNext(files, out, p.k);
  }

  /** A new volume is taken. */
  lemma {:induction false} TurnKeeps(files: seq<File>, p: Packing, targetsize: nat)
    requires Inv(files, p, targetsize) && Capacity(targetsize) >= 0
    ensures Inv(files, Turned(targetsize, p), targetsize)
  {
    hide Counted, Ordered, LateOnes, DirectoriesOut, Sizes;
    FlatVolume(p.volumes);
  }

  lemma {:induction false} StartKeeps(files: seq<File>, targetsize: nat)
    requires Capacity(targetsize) >= 0
    ensures Inv(files, Start(targetsize), targetsize)
  {
    var p, none: seq<seq<nat>> := Start(targetsize), [];
    assert p.volumes[..0] == none && Flat(none) == [];
    assert Flat(p.volumes) == [];
  }

  /** Each round keeps everything in order. */
  lemma {:induction false} StepKeeps(files: seq<File>, p: Packing, targetsize: nat)
    requires Reasonable(files, targetsize) && Inv(files, p, targetsize)
    ensures Inv(files, Step(files, targetsize, p), targetsize)
  {
    hide Inv, Turned, Dequeued, Inlined, Enqueued, Skipped;
    InvBounds(files, p, targetsize);
    if !Done(files, p) {
      var q := Ready(files, targetsize, p);
      TurnKeeps(files, p, targetsize);
      TurnedParts(targetsize, p);
      if HeadFits(files, q) {
        DequeueKeeps(files, q, targetsize);
      } else if CurrentFits(files, q) {
        InlineKeeps(files, q, targetsize);
      } else if IsDir(files, q.k) || q.remains < CRITSIZE {
        TurnKeeps(files, q, targetsize);
      } else if Size(files, q.k) > targetsize {
        SkipKeeps(files, q, targetsize);
      } else {
        EnqueueKeeps(files, q, targetsize);
      }
    }
  }

  lemma {:induction false} TurnedParts(targetsize: nat, p: Packing)
    ensures Turned(targetsize, p).k == p.k && Turned(targetsize, p).queue == p.queue
    ensures Turned(targetsize, p).remains == Capacity(targetsize)
  {
  }

  lemma {:induction false} InvBounds(files: seq<File>, p: Packing, targetsize: nat)
    requires Inv(files, p, targetsize)
    ensures p.k <= |files| && p.remains <= Capacity(targetsize)
    ensures p.queue != [] ==> p.queue[0] < |files| && Size(files, p.queue[0]) <= Capacity(targetsize)
  {
    if p.queue != [] { SizesDequeue(files, p.queue, p.big, p.k, targetsize); }
  }
  // ----- the class -----

  class Packer {
    const files: seq<File>
    const targetsize: nat
    var remains: int
    /** The files of each volume, and those reported as too big. */
    var volumes: seq<seq<nat>>
    var big: seq<nat>
    var queue: seq<nat>
    /** The place in the list, and the file there; at the end of the list the last file stays. */
    var k: nat
    var current: File
    ghost var deferred: seq<nat>

    ghost function State(): Packing
      reads this
    {
      Packing(volumes, queue, big, deferred, k, remains)
    }

    /** The file at hand is the one at the place reached. */
    ghost predicate AtHand()
      reads this
    {
      && k <= |files| && volumes != [] && (forall i :: 0 <= i < |queue| ==> queue[i] < |files|)
      && (files != [] ==> current == files[Current(files, State())]) && (files == [] ==> queue == [])
    }

    constructor (files: seq<File>, targetsize: nat)
      ensures this.files == files && this.targetsize == targetsize && State() == Start(targetsize) && AtHand()
    {
      this.files, this.targetsize := files, targetsize;
      remains, volumes, big, queue, k, deferred := targetsize - TRAILERLEN, [[]], [], [], 0, [];
      current := if files == [] then File("", 0, false) else files[0];
    }

    method NextFloppy()
      requires AtHand()
      modifies this`remains, this`volumes
      ensures State() == Turned(targetsize, old(State())) && AtHand()
    {
      volumes := volumes + [[]];
      remains := targetsize - TRAILERLEN;
    }

    /** At the end of the list there is no next file, and the one at hand stays. */
    method NextFile()
      requires k <= |files|
      modifies this`k, this`current
      ensures k == NextPlace(files, old(State()))
              && (if k < |files| then current == files[k] else current == old(current))
    {
      if k < |files| {
        k := k + 1;
        if k < |files| {
          current := files[k];
        }
      }
    }

    /** Writes the first file of the queue. */
    method WriteQueued()
      requires AtHand() && queue != []
      modifies this`remains, this`volumes, this`queue
      ensures State() == Dequeued(files, old(State())) && AtHand()
    {
      volumes := Put(volumes, queue[0]);
      remains := remains - files[queue[0]].size;
      queue := queue[1..];
    }

    /** Writes the file at hand. */
    method WriteCurrent()
      requires AtHand() && files != []
      modifies this`remains, this`volumes, this`k, this`current
      ensures State() == Inlined(files, old(State())) && AtHand()
    {
      volumes := Put(volumes, if k < |files| then k else |files| - 1);
      remains := remains - current.size;
      NextFile();
    }

    method PutOff()
      requires AtHand() && files != []
      modifies this`queue, this`deferred, this`k, this`current
      ensures State() == Enqueued(files, old(State())) && AtHand()
    {
      var f := if k < |files| then k else |files| - 1;
      queue, deferred := queue + [f], deferred + [f];
      NextFile();
    }

    method ReportBig()
      requires AtHand() && files != []
      modifies this`big, this`k, this`current
      ensures State() == Skipped(files, old(State())) && AtHand()
    {
      big := big + [if k < |files| then k else |files| - 1];
      NextFile();
    }

    /** Places one file, or goes on to the next volume. */
    method Place()
      requires AtHand() && files != []
      modifies this
      ensures State() == Act(files, targetsize, old(State())) && AtHand()
    {
      if queue != [] && files[queue[0]].size <= remains {
        WriteQueued();
      } else if current.size <= remains {
        WriteCurrent();
      } else if current.isdir || remains < CRITSIZE {
        NextFloppy();
      } else if current.size > targetsize {
        ReportBig();
      } else {
        PutOff();
      }
    }

    /** Packs until the list and the queue are empty. */
    method PackAll() returns (ghost rounds: nat)
      requires Reasonable(files, targetsize) && AtHand() && State() == Start(targetsize)
      modifies this
      ensures State() == Rounds(files, targetsize, rounds) && k == |files| && queue == []
    {
      hide Inv, Act, Rounds, Start, Reasonable, Work;
      rounds := 0;
      RoundsOpen(files, targetsize, 0);
      StartKeeps(files, targetsize);
      while true
        invariant AtHand() && State() == Rounds(files, targetsize, rounds) && Inv(files, State(), targetsize)
        decreases Work(files, targetsize, State())
      {
        ghost var p := State();
        RoundsOpen(files, targetsize, rounds + 1);
        StepKeeps(files, p, targetsize);
        if !Done(files, p) { StepWorks(files, p, targetsize); }
        if k == |files| {
          if queue == [] {
            break;
          }
          if files[queue[0]].size > remains {
            NextFloppy();
          }
        }
        assert State() == Ready(files, targetsize, p);
        Place();
        rounds := rounds + 1;
      }
    }
  }

  lemma {:induction false} RoundsOpen(files: seq<File>, targetsize: nat, n: nat)
    ensures Rounds(files, targetsize, n) ==
            if n == 0 then Start(targetsize) else Step(files, targetsize, Rounds(files, targetsize, n - 1))
    ensures Reasonable(files, targetsize) ==> Capacity(targetsize) >= 0
  {
  }

  // ----- termination -----

  /** What remains to be done. */
  ghost function Work(files: seq<File>, targetsize: nat, p: Packing): nat {
    2 * (2 * (if p.k <= |files| then |files| - p.k else 0) + |p.queue|)
      + if p.remains == Capacity(targetsize) then 0 else 1
  }

  /** Each round leaves less to be done. */
  lemma {:induction false} StepWorks(files: seq<File>, p: Packing, targetsize: nat)
    requires Reasonable(files, targetsize) && Inv(files, p, targetsize) && !Done(files, p)
    ensures Work(files, targetsize, Step(files, targetsize, p)) < Work(files, targetsize, p)
  {
    hide Inv, Put;
    InvBounds(files, p, targetsize);
    if p.k < |files| { assert Placeable(files[p.k], targetsize); }
  }

  /** From any round on the packer comes to an end. */
  lemma {:induction false} Ends(files: seq<File>, targetsize: nat, n: nat) returns (m: nat)
    requires Reasonable(files, targetsize) && Inv(files, Rounds(files, targetsize, n), targetsize)
    ensures m >= n && Done(files, Rounds(files, targetsize, m))
    decreases Work(files, targetsize, Rounds(files, targetsize, n))
  {
    hide Inv, Work, Step, Reasonable, Rounds;
    var p := Rounds(files, targetsize, n);
    if Done(files, p) {
      m := n;
    } else {
      RoundsOpen(files, targetsize, n + 1);
      StepKeeps(files, p, targetsize);
      StepWorks(files, p, targetsize);
      m := Ends(files, targetsize, n + 1);
    }
  }

  /** A file that cannot be placed is still to come, or waits in the queue. */
  ghost predicate Stuck(files: seq<File>, targetsize: nat, p: Packing, j: nat) {
    p.k <= |files| && p.remains <= Capacity(targetsize) && (p.k <= j || j in p.queue)
  }

  lemma {:induction false} StaysStuck(files: seq<File>, targetsize: nat, n: nat, j: nat)
    requires j < |files| && !Placeable(files[j], targetsize) && Capacity(targetsize) >= 0
    ensures Stuck(files, targetsize, Rounds(files, targetsize, n), j) && !Done(files, Rounds(files, targetsize, n))
  {
    if n != 0 {
      StaysStuck(files, targetsize, n - 1, j);
      StepStuck(files, targetsize, Rounds(files, targetsize, n - 1), j);
    }
  }

  lemma {:induction false} StepStuck(files: seq<File>, targetsize: nat, p: Packing, j: nat)
    requires j < |files| && !Placeable(files[j], targetsize) && Capacity(targetsize) >= 0
    requires Stuck(files, targetsize, p, j)
    ensures Stuck(files, targetsize, Step(files, targetsize, p), j)
  {
    hide Put;
    var q := Ready(files, targetsize, p);
    if HeadFits(files, q) { assert q.queue == [q.queue[0]] + q.queue[1..]; }
  }

  /** The packer comes to an end if and only if every file can be placed. */
  lemma {:induction false} TerminatesExactly(files: seq<File>, targetsize: nat)
    requires Capacity(targetsize) >= 0
    ensures (exists n: nat :: Done(files, Rounds(files, targetsize, n))) <==> Reasonable(files, targetsize)
  {
    hide Placeable, Rounds, Stuck;
    if Reasonable(files, targetsize) {
      StartKeeps(files, targetsize);
      RoundsOpen(files, targetsize, 0);
      var m := Ends(files, targetsize, 0);
    } else {
      var j: nat :| j < |files| && !Placeable(files[j], targetsize);
      forall n: nat ensures !Done(files, Rounds(files, targetsize, n)) { StaysStuck(files, targetsize, n, j); }
    }
  }

  // ----- a file that is never written, and one that is written again and again -----

  /** The list is at its end and the head of the queue fits no volume. */
  ghost predicate Hopeless(files: seq<File>, targetsize: nat, p: Packing) {
    p.k == |files| && p.queue != [] && Size(files, p.queue[0]) > Capacity(targetsize)
      && p.remains <= Capacity(targetsize)
  }

  /** Each round then takes a new volume and writes the last file of the list on it. */
  lemma {:induction false} HopelessStep(files: seq<File>, targetsize: nat, p: Packing)
    requires Hopeless(files, targetsize, p) && files != [] && files[|files| - 1].size <= Capacity(targetsize)
    ensures Hopeless(files, targetsize, Step(files, targetsize, p))
    ensures Flat(Step(files, targetsize, p).volumes) == Flat(p.volumes) + [|files| - 1]
  {
    FlatVolume(p.volumes);
    FlatAdd(p.volumes + [[]], |files| - 1);
  }

  lemma {:induction false} HopelessRounds(files: seq<File>, targetsize: nat, m: nat, i: nat)
    requires Hopeless(files, targetsize, Rounds(files, targetsize, m))
    requires files != [] && files[|files| - 1].size <= Capacity(targetsize)
    ensures Hopeless(files, targetsize, Rounds(files, targetsize, m + i))
    ensures multiset(Flat(Rounds(files, targetsize, m + i).volumes))[|files| - 1] >= i
  {
    hide Hopeless, Step;
    if i != 0 {
      HopelessRounds(files, targetsize, m, i - 1);
      HopelessStep(files, targetsize, Rounds(files, targetsize, m + i - 1));
      RoundsOpen(files, targetsize, m + i);
    }
  }

  /** File `j` is larger than a volume but not larger than the media; volumes and directories are of reasonable size. */
  ghost predicate Blocked(files: seq<File>, targetsize: nat, j: nat) {
    && j < |files| && !files[j].isdir && Capacity(targetsize) < files[j].size <= targetsize
    && Capacity(targetsize) >= CRITSIZE
    && forall i :: 0 <= i < |files| && files[i].isdir ==> files[i].size <= Capacity(targetsize)
  }

  lemma {:induction false} BlockedWorks(files: seq<File>, targetsize: nat, p: Packing, j: nat)
    requires Blocked(files, targetsize, j) && Stuck(files, targetsize, p, j) && !Hopeless(files, targetsize, p)
    ensures Work(files, targetsize, Step(files, targetsize, p)) < Work(files, targetsize, p)
  {
    hide Put;
  }

  lemma {:induction false} GetsHopeless(files: seq<File>, targetsize: nat, n: nat, j: nat) returns (m: nat)
    requires Blocked(files, targetsize, j) && Stuck(files, targetsize, Rounds(files, targetsize, n), j)
    ensures Hopeless(files, targetsize, Rounds(files, targetsize, m))
    decreases Work(files, targetsize, Rounds(files, targetsize, n))
  {
    hide Work, Step, Rounds, Hopeless, Stuck;
    var p := Rounds(files, targetsize, n);
    if Hopeless(files, targetsize, p) {
      m := n;
    } else {
      RoundsOpen(files, targetsize, n + 1);
      StepStuck(files, targetsize, p, j);
      BlockedWorks(files, targetsize, p, j);
      m := GetsHopeless(files, targetsize, n + 1, j);
    }
  }

  /** With such a file in the list, and a last file that fits a volume, the last file is written any number of times. */
  lemma {:induction false} WrittenAgainAndAgain(files: seq<File>, targetsize: nat, j: nat, times: nat)
    requires Blocked(files, targetsize, j) && files[|files| - 1].size <= Capacity(targetsize)
    ensures exists n: nat :: multiset(Flat(Rounds(files, targetsize, n).volumes))[|files| - 1] >= times
  {
    hide Hopeless;
    var m := GetsHopeless(files, targetsize, 0, j);
    HopelessRounds(files, targetsize, m, times);
  }

  // ----- the files that are put off -----

  /** Round `i` puts file `x` off, which neither fits what remains of the volume nor ends it. */
  ghost predicate PutOffIn(files: seq<File>, targetsize: nat, i: nat, x: nat) {
    var p := Rounds(files, targetsize, i);
    var q := Ready(files, targetsize, p);
    !Done(files, p) && PutsOff(files, targetsize, q) && Current(files, q) == x
  }

  lemma {:induction false} StepDefers(files: seq<File>, targetsize: nat, p: Packing)
    ensures var q := Ready(files, targetsize, p);
            Step(files, targetsize, p).deferred ==
            p.deferred + if !Done(files, p) && PutsOff(files, targetsize, q) then [Current(files, q)] else []
  {
  }

  /** A file is among those put off exactly if some round put it off. */
  lemma {:induction false} DeferredExactly(files: seq<File>, targetsize: nat, n: nat, x: nat)
    ensures x in Rounds(files, targetsize, n).deferred <==> exists i: nat :: i < n && PutOffIn(files, targetsize, i, x)
  {
    hide Step, PutsOff, Ready, Done, Current;
    if n != 0 {
      DeferredExactly(files, targetsize, n - 1, x);
      StepDefers(files, targetsize, Rounds(files, targetsize, n - 1));
      assert x in Rounds(files, targetsize, n).deferred <==>
             x in Rounds(files, targetsize, n - 1).deferred || PutOffIn(files, targetsize, n - 1, x);
    }
  }

  lemma {:induction false} DistinctOut(out: seq<nat>, queue: seq<nat>, big: seq<nat>, k: nat, i: nat, j: nat)
    requires Counted(out, queue, big, k) && i < j < |out|
    ensures out[i] != out[j]
  {
    var x := out[i];
    UpToExact(k, x);
    assert out == out[..i] + [x] + out[i + 1..j] + [out[j]] + out[j + 1..];
    assert (multiset(out) + multiset(queue) + multiset(big))[x] <= 1;
  }

  /** The files that were not put off are written in the order of the list as well. */
  lemma {:induction false} OthersInOrder(files: seq<File>, p: Packing, targetsize: nat, i: nat, j: nat)
    requires Inv(files, p, targetsize) && i < j < |Flat(p.volumes)| && Flat(p.volumes)[j] !in p.deferred
    ensures Flat(p.volumes)[i] < Flat(p.volumes)[j]
  {
    DistinctOut(Flat(p.volumes), p.queue, p.big, p.k, i, j);
  }

  /**
   Packs all files, as the rounds do: each is written exactly once unless it is too big for any volume, no volume is
   overfull, files that are put off are written in the order of the list, only they are written behind files listed
   after them, and a directory is written before anything listed after it.
   */
  method Pack(files: seq<File>, targetsize: nat)
    returns (volumes: seq<seq<nat>>, big: seq<nat>, remains: int, ghost deferred: seq<nat>, ghost rounds: nat)
    requires Reasonable(files, targetsize)
    ensures Packing(volumes, [], big, deferred, |files|, remains) == Rounds(files, targetsize, rounds)
    ensures Fit(files, volumes, Capacity(targetsize))
    ensures multiset(Flat(volumes)) + multiset(big) == UpTo(|files|)
    ensures forall x :: x in big ==> x < |files| && files[x].size > targetsize
    ensures Increasing(deferred) && Pick(Flat(volumes), deferred) == deferred && LateOnes(Flat(volumes), deferred)
    ensures DirectoriesFirst(files, Flat(volumes))
  {
    hide Rounds, Start, Fit, LateOnes, Pick, Flat;
    var packer := new Packer(files, targetsize);
    rounds := packer.PackAll();
    volumes, big, remains, deferred := packer.volumes, packer.big, packer.remains, packer.deferred;
    RoundsKeep(files, targetsize, rounds);
    assert Pick(Flat(volumes), deferred) + [] == Pick(Flat(volumes), deferred);
    assert multiset(packer.queue) == multiset{};
  }

  lemma {:induction false} RoundsKeep(files: seq<File>, targetsize: nat, n: nat)
    requires Reasonable(files, targetsize)
    ensures Inv(files, Rounds(files, targetsize, n), targetsize)
  {
    hide Inv, Step, Start;
    if n == 0 {
      StartKeeps(files, targetsize);
    } else {
      RoundsKeep(files, targetsize, n - 1);
      StepKeeps(files, Rounds(files, targetsize, n - 1), targetsize);
    }
  }
}
