/**
 In which order the packer of proto/cpout.c places files, seen in what is on the volumes: a file that was put off goes
 out as soon as it fits, and a volume is left only when what waits and what comes next do not fit.
 */
module FloppyOrder {
  import opened FloppyPacker

  /** What is written before place `j` of volume `v`. */
  ghost function BeforePlace(volumes: seq<seq<nat>>, v: nat, j: nat): seq<nat>
    requires v < |volumes| && j <= |volumes[v]|
  {
    Flat(volumes[..v]) + volumes[v][..j]
  }

  /** The bytes that are left for files on volume `v` before place `j`; 87 go to the trailer. */
  ghost function RoomAt(files: seq<File>, volumes: seq<seq<nat>>, targetsize: nat, v: nat, j: nat): int
    requires v < |volumes| && j <= |volumes[v]|
  {
    targetsize - 87 - Total(files, volumes[v][..j])
  }

  /** `y` is the first of the deferred files listed before `x` that are not written yet. */
  ghost predicate FirstWaiting(out: seq<nat>, deferred: seq<nat>, x: nat, y: nat) {
    && y in deferred && y < x && y !in out
    && forall z :: z in deferred && z < y ==> z in out
  }

  /** No deferred file that has to be written before `x` would fit there. */
  ghost predicate NoneWaitsFor(files: seq<File>, volumes: seq<seq<nat>>, deferred: seq<nat>, targetsize: nat,
                               v: nat, j: nat, x: nat)
    requires v < |volumes| && j <= |volumes[v]|
  {
    forall y: nat :: FirstWaiting(BeforePlace(volumes, v, j), deferred, x, y) ==>
      y < |files| && files[y].size > RoomAt(files, volumes, targetsize, v, j)
  }

  /** Wherever a file is written, the first one that waits does not fit. */
  ghost predicate Prompt(files: seq<File>, volumes: seq<seq<nat>>, deferred: seq<nat>, targetsize: nat) {
    forall v: nat, j: nat :: v < |volumes| && j < |volumes[v]| ==>
      NoneWaitsFor(files, volumes, deferred, targetsize, v, j, volumes[v][j])
  }

  /**
   Volume `v` is left when file `k` is next: all before it are dealt with, the first one that waits does not fit, and
   neither does `k`, which is a directory or finds less than 512 bytes; at the end of the list some file waits.
   */
  ghost predicate LeftFor(files: seq<File>, volumes: seq<seq<nat>>, deferred: seq<nat>, big: seq<nat>, targetsize: nat,
                          v: nat, k: nat)
    requires v < |volumes|
  {
    var n := |volumes[v]|;
    var out := BeforePlace(volumes, v, n);
    && k <= |files| && (forall x :: x in out ==> x < k)
    && (forall x: nat :: x < k ==> x in out || x in deferred || x in big)
    && NoneWaitsFor(files, volumes, deferred, targetsize, v, n, k)
    && if k < |files| then
         && files[k].size > RoomAt(files, volumes, targetsize, v, n)
         && (files[k].isdir || RoomAt(files, volumes, targetsize, v, n) < 512)
       else exists y: nat :: FirstWaiting(out, deferred, k, y)
  }

  ghost predicate LeftWell(files: seq<File>, p: Packing, targetsize: nat, v: nat)
    requires v < |p.volumes|
  {
    exists k: nat :: k <= p.k && LeftFor(files, p.volumes, p.deferred, p.big, targetsize, v, k)
  }

  /** File `x` was put off at place `j` of volume `v`: it did not fit, nor did what waited, and 512 bytes were left. */
  ghost predicate PutOffAt(files: seq<File>, volumes: seq<seq<nat>>, deferred: seq<nat>, targetsize: nat, x: nat,
                           v: nat, j: nat)
  {
    && v < |volumes| && j <= |volumes[v]| && x < |files| && !files[x].isdir && files[x].size <= targetsize
    && files[x].size > RoomAt(files, volumes, targetsize, v, j) >= 512
    && (forall z :: z in BeforePlace(volumes, v, j) ==> z < x)
    && NoneWaitsFor(files, volumes, deferred, targetsize, v, j, x)
  }

  ghost predicate PutOffWell(files: seq<File>, p: Packing, targetsize: nat, x: nat) {
    exists v: nat, j: nat :: PutOffAt(files, p.volumes, p.deferred, targetsize, x, v, j)
  }

  ghost predicate WellOrdered(files: seq<File>, p: Packing, targetsize: nat) {
    && Prompt(files, p.volumes, p.deferred, targetsize)
    && (forall v: nat :: v < |p.volumes| - 1 ==> LeftWell(files, p, targetsize, v))
    && (forall x :: x in p.deferred ==> PutOffWell(files, p, targetsize, x))
  }

  // ----- the end of what is written -----

  lemma {:induction false} FlatSplit(volumes: seq<seq<nat>>)
    requires volumes != []
    ensures var n := |volumes| - 1;
            BeforePlace(volumes, n, |volumes[n]|) == Flat(volumes) && volumes[n][..|volumes[n]|] == volumes[n]
  {
  }

  lemma {:induction false} PickedOut(out: seq<nat>, chosen: seq<nat>, z: nat)
    ensures z in Pick(out, chosen) <==> z in out && z in chosen
  {
    if out != [] {
      var n := |out| - 1;
      PickedOut(out[..n], chosen, z);
      assert out == out[..n] + [out[n]];
    }
  }

  /** Of the deferred files those in front of the queue are written and those in the queue are not. */
  lemma {:induction false} QueueNotOut(out: seq<nat>, queue: seq<nat>, deferred: seq<nat>, k: nat)
    requires Ordered(out, queue, deferred, k)
    ensures forall z: nat :: z in deferred ==> (z in out <==> z !in queue)
    ensures queue != [] ==> queue[0] in deferred && queue[0] < k && forall z: nat :: z in queue ==> queue[0] <= z
    ensures forall z: nat :: z in queue ==> z in deferred
  {
    var done := Pick(out, deferred);
    assert deferred == done + queue;
    forall z: nat | z in deferred ensures z in out <==> z !in queue {
      PickedOut(out, deferred, z);
      if z in done { TwiceThere(done, queue, z); }
    }
    if queue != [] { assert deferred[|done|] == queue[0]; }
    forall z: nat | z in queue ensures queue[0] <= z {
      var j :| 0 <= j < |queue| && queue[j] == z;
      assert deferred[|done| + j] == z;
    }
  }

  lemma {:induction false} TwiceThere(a: seq<nat>, b: seq<nat>, z: nat)
    requires Increasing(a + b) && z in a
    ensures z !in b
  {
    var i :| 0 <= i < |a| && a[i] == z;
    forall j | 0 <= j < |b| ensures b[j] != z { assert (a + b)[i] < (a + b)[|a| + j]; }
  }

  /** The first file that waits is the head of the queue. */
  lemma {:induction false} WaitsFirst(out: seq<nat>, queue: seq<nat>, deferred: seq<nat>, k: nat, x: nat)
    requires Ordered(out, queue, deferred, k)
    ensures forall y: nat :: FirstWaiting(out, deferred, x, y) <==> queue != [] && y == queue[0] && y < x
  {
    QueueNotOut(out, queue, deferred, k);
    if queue != [] { assert queue[0] in queue; }
    forall y: nat | FirstWaiting(out, deferred, x, y) ensures queue != [] && y == queue[0] {
      assert y in queue;
    }
  }

  // ----- what later rounds leave alone -----

  /** The places of `vs` are places of `ws`; only on the last volume something may follow. */
  ghost predicate SamePlaces(vs: seq<seq<nat>>, ws: seq<seq<nat>>) {
    && |vs| <= |ws| && (forall v :: 0 <= v < |vs| ==> vs[v] <= ws[v])
    && (forall v :: 0 <= v < |vs| - 1 ==> vs[v] == ws[v])
  }

  lemma {:induction false} PlaceStays(files: seq<File>, vs: seq<seq<nat>>, ws: seq<seq<nat>>, targetsize: nat, v: nat,
                                      j: nat)
    requires SamePlaces(vs, ws) && v < |vs| && j <= |vs[v]|
    ensures j <= |ws[v]| && BeforePlace(ws, v, j) == BeforePlace(vs, v, j) && ws[v][..j] == vs[v][..j]
    ensures RoomAt(files, ws, targetsize, v, j) == RoomAt(files, vs, targetsize, v, j)
  {
    assert ws[..v] == vs[..v];
    assert ws[v][..j] == vs[v][..j];
  }

  /** A file put off later does not matter. */
  lemma {:induction false} WaitingStays(out: seq<nat>, deferred: seq<nat>, more: seq<nat>, x: nat)
    requires more == deferred || exists k :: more == deferred + [k] && k >= x
    ensures forall y :: FirstWaiting(out, more, x, y) <==> FirstWaiting(out, deferred, x, y)
  {
  }

  /** The next round: the same places, perhaps the file at hand put off, or one more reported as too big. */
  ghost predicate Goes(p: Packing, q: Packing) {
    && SamePlaces(p.volumes, q.volumes) && p.k <= q.k
    && (q.deferred == p.deferred || q.deferred == p.deferred + [p.k])
    && forall x :: x in p.big ==> x in q.big
  }

  lemma {:induction false} NoneWaitsStays(files: seq<File>, p: Packing, q: Packing, targetsize: nat, v: nat, j: nat,
                                          x: nat)
    requires Goes(p, q) && v < |p.volumes| && j <= |p.volumes[v]| && x <= p.k
    requires NoneWaitsFor(files, p.volumes, p.deferred, targetsize, v, j, x)
    ensures v < |q.volumes| && j <= |q.volumes[v]| && NoneWaitsFor(files, q.volumes, q.deferred, targetsize, v, j, x)
  {
    PlaceStays(files, p.volumes, q.volumes, targetsize, v, j);
    WaitingStays(BeforePlace(p.volumes, v, j), p.deferred, q.deferred, x);
  }

  lemma {:induction false} LeftStays(files: seq<File>, p: Packing, q: Packing, targetsize: nat, v: nat)
    requires Goes(p, q) && v < |p.volumes| - 1 && LeftWell(files, p, targetsize, v)
    ensures v < |q.volumes| - 1 && LeftWell(files, q, targetsize, v)
  {
    var k: nat :| k <= p.k && LeftFor(files, p.volumes, p.deferred, p.big, targetsize, v, k);
    var n := |p.volumes[v]|;
    PlaceStays(files, p.volumes, q.volumes, targetsize, v, n);
    NoneWaitsStays(files, p, q, targetsize, v, n, k);
    WaitingStays(BeforePlace(p.volumes, v, n), p.deferred, q.deferred, k);
    assert LeftFor(files, q.volumes, q.deferred, q.big, targetsize, v, k);
  }

  lemma {:induction false} PutOffStays(files: seq<File>, p: Packing, q: Packing, targetsize: nat, x: nat)
    requires Goes(p, q) && x <= p.k && PutOffWell(files, p, targetsize, x)
    ensures PutOffWell(files, q, targetsize, x)
  {
    var v: nat, j: nat :| PutOffAt(files, p.volumes, p.deferred, targetsize, x, v, j);
    PlaceStays(files, p.volumes, q.volumes, targetsize, v, j);
    NoneWaitsStays(files, p, q, targetsize, v, j, x);
    assert PutOffAt(files, q.volumes, q.deferred, targetsize, x, v, j);
  }

  lemma {:induction false} WrittenBelow(files: seq<File>, p: Packing, targetsize: nat, v: nat, j: nat)
    requires Inv(files, p, targetsize) && v < |p.volumes| && j < |p.volumes[v]|
    ensures p.volumes[v][j] < p.k
  {
    hide RemainsRight, Fit, Ordered, LateOnes, DirectoriesOut, Sizes;
    CountedNext(Flat(p.volumes), p.queue, p.big, p.k);
    InFlat(p.volumes, v, j);
  }

  lemma {:induction false} InFlat(volumes: seq<seq<nat>>, v: nat, j: nat)
    requires v < |volumes| && j < |volumes[v]|
    ensures volumes[v][j] in Flat(volumes)
  {
    var n := |volumes| - 1;
    if v < n { InFlat(volumes[..n], v, j); }
  }

  /** What is known of earlier places stays known. */
  lemma {:induction false} OrderStays(files: seq<File>, p: Packing, q: Packing, targetsize: nat)
    requires WellOrdered(files, p, targetsize) && Inv(files, p, targetsize) && Goes(p, q)
    ensures forall v: nat, j: nat :: v < |p.volumes| && j < |p.volumes[v]| ==>
              v < |q.volumes| && j < |q.volumes[v]|
              && NoneWaitsFor(files, q.volumes, q.deferred, targetsize, v, j, q.volumes[v][j])
    ensures forall v: nat :: v < |p.volumes| - 1 ==> v < |q.volumes| - 1 && LeftWell(files, q, targetsize, v)
    ensures forall x :: x in p.deferred ==> PutOffWell(files, q, targetsize, x)
  {
    hide Inv, LeftWell, PutOffWell, NoneWaitsFor;
    forall v: nat, j: nat | v < |p.volumes| && j < |p.volumes[v]|
      ensures j < |q.volumes[v]| && NoneWaitsFor(files, q.volumes, q.deferred, targetsize, v, j, q.volumes[v][j])
    {
      WrittenBelow(files, p, targetsize, v, j);
      NoneWaitsStays(files, p, q, targetsize, v, j, p.volumes[v][j]);
    }
    forall v: nat | v < |p.volumes| - 1 ensures LeftWell(files, q, targetsize, v) {
      LeftStays(files, p, q, targetsize, v);
    }
    forall x | x in p.deferred ensures PutOffWell(files, q, targetsize, x) {
      DeferredBelow(files, p, targetsize, x);
      PutOffStays(files, p, q, targetsize, x);
    }
  }

  lemma {:induction false} DeferredBelow(files: seq<File>, p: Packing, targetsize: nat, x: nat)
    requires Inv(files, p, targetsize) && x in p.deferred
    ensures x < p.k
  {
  }

  // ----- one round -----

  /** At the end of what is written the head of the queue does not fit, so nothing that waits does. */
  lemma {:induction false} NoneWaitsNow(files: seq<File>, p: Packing, targetsize: nat, x: nat)
    requires Inv(files, p, targetsize) && (p.queue != [] && p.queue[0] < x ==> !HeadFits(files, p))
    ensures var v := |p.volumes| - 1;
            && v >= 0 && BeforePlace(p.volumes, v, |p.volumes[v]|) == Flat(p.volumes)
            && RoomAt(files, p.volumes, targetsize, v, |p.volumes[v]|) == p.remains
            && NoneWaitsFor(files, p.volumes, p.deferred, targetsize, v, |p.volumes[v]|, x)
  {
    hide Fit, Counted, LateOnes, DirectoriesOut, Ordered;
    FlatSplit(p.volumes);
    WaitsFirst(Flat(p.volumes), p.queue, p.deferred, p.k, x);
    if p.queue != [] { assert p.queue[0] in p.queue; }
  }

  lemma {:induction false} TurnOrders(files: seq<File>, p: Packing, targetsize: nat)
    requires Inv(files, p, targetsize) && WellOrdered(files, p, targetsize) && !HeadFits(files, p)
    requires if p.k < |files| then !CurrentFits(files, p) && (files[p.k].isdir || p.remains < 512) else p.queue != []
    ensures WellOrdered(files, Turned(targetsize, p), targetsize)
  {
    hide NoneWaitsFor, PutOffWell, Inv;
    var q, v := Turned(targetsize, p), |p.volumes| - 1;
    NoneWaitsNow(files, p, targetsize, p.k);
    OrderStays(files, p, q, targetsize);
    PlaceStays(files, p.volumes, q.volumes, targetsize, v, |p.volumes[v]|);
    NoneWaitsStays(files, p, q, targetsize, v, |p.volumes[v]|, p.k);
    AllDealtWith(files, p, targetsize);
    assert LeftFor(files, q.volumes, q.deferred, q.big, targetsize, v, p.k);
  }

  lemma {:induction false} AllDealtWith(files: seq<File>, p: Packing, targetsize: nat)
    requires Inv(files, p, targetsize)
    ensures p.k <= |files| && (forall x :: x in Flat(p.volumes) ==> x < p.k)
    ensures forall x: nat :: x < p.k ==> x in Flat(p.volumes) || x in p.deferred || x in p.big
    ensures p.queue != [] ==> exists y: nat :: FirstWaiting(Flat(p.volumes), p.deferred, p.k, y)
  {
    hide RemainsRight, Fit, LateOnes, Ordered;
    var out := Flat(p.volumes);
    CountedNext(out, p.queue, p.big, p.k);
    QueueNotOut(out, p.queue, p.deferred, p.k);
    WaitsFirst(out, p.queue, p.deferred, p.k, p.k);
    var written: multiset<nat>, put: multiset<nat>, more: multiset<nat> := multiset(out), multiset(p.queue),
      multiset(p.big);
    forall x: nat | x < p.k ensures x in out || x in p.queue || x in p.big {
      UpToExact(p.k, x);
      assert (written + put + more)[x] == 1;
    }
    if p.queue != [] { assert FirstWaiting(out, p.deferred, p.k, p.queue[0]); }
  }

  /** One more file `x` on the last volume. */
  lemma {:induction false} WriteOrders(files: seq<File>, p: Packing, q: Packing, targetsize: nat, x: nat)
    requires Inv(files, p, targetsize) && WellOrdered(files, p, targetsize) && Goes(p, q) && x <= p.k
    requires p.volumes != [] && q.volumes == Put(p.volumes, x) && q.deferred == p.deferred
    requires p.queue != [] && p.queue[0] < x ==> !HeadFits(files, p)
    ensures WellOrdered(files, q, targetsize)
  {
    hide NoneWaitsFor, PutOffWell, LeftWell, Inv;
    var n := |p.volumes| - 1;
    NoneWaitsNow(files, p, targetsize, x);
    OrderStays(files, p, q, targetsize);
    NoneWaitsStays(files, p, q, targetsize, n, |p.volumes[n]|, x);
    assert q.volumes[n][|p.volumes[n]|] == x;
  }

  lemma {:induction false} DequeueOrders(files: seq<File>, p: Packing, targetsize: nat)
    requires Inv(files, p, targetsize) && WellOrdered(files, p, targetsize) && HeadFits(files, p)
    ensures WellOrdered(files, Dequeued(files, p), targetsize)
  {
    hide WellOrdered, Inv;
    HasVolume(files, p, targetsize);
    QueueBelow(files, p, targetsize);
    WriteOrders(files, p, Dequeued(files, p), targetsize, p.queue[0]);
  }

  lemma {:induction false} QueueBelow(files: seq<File>, p: Packing, targetsize: nat)
    requires Inv(files, p, targetsize) && p.queue != []
    ensures p.queue[0] < p.k
  {
    assert p.queue[0] in p.queue;
  }

  lemma {:induction false} HasVolume(files: seq<File>, p: Packing, targetsize: nat)
    requires Inv(files, p, targetsize)
    ensures p.volumes != []
  {
  }

  lemma {:induction false} InlineOrders(files: seq<File>, p: Packing, targetsize: nat)
    requires Inv(files, p, targetsize) && WellOrdered(files, p, targetsize) && !HeadFits(files, p) && p.k < |files|
    ensures WellOrdered(files, Inlined(files, p), targetsize)
  {
    hide WellOrdered, Inv;
    HasVolume(files, p, targetsize);
    WriteOrders(files, p, Inlined(files, p), targetsize, p.k);
  }

  lemma {:induction false} EnqueueOrders(files: seq<File>, p: Packing, targetsize: nat)
    requires Inv(files, p, targetsize) && WellOrdered(files, p, targetsize) && !HeadFits(files, p) && p.k < |files|
    requires !CurrentFits(files, p) && !files[p.k].isdir && p.remains >= 512 && files[p.k].size <= targetsize
    ensures WellOrdered(files, Enqueued(files, p), targetsize)
  {
    hide NoneWaitsFor, LeftWell, Inv;
    var q, v := Enqueued(files, p), |p.volumes| - 1;
    NoneWaitsNow(files, p, targetsize, p.k);
    OrderStays(files, p, q, targetsize);
    NoneWaitsStays(files, p, q, targetsize, v, |p.volumes[v]|, p.k);
    AllDealtWith(files, p, targetsize);
    assert PutOffAt(files, q.volumes, q.deferred, targetsize, p.k, v, |p.volumes[v]|);
  }

  lemma {:induction false} SkipOrders(files: seq<File>, p: Packing, targetsize: nat)
    requires Inv(files, p, targetsize) && WellOrdered(files, p, targetsize)
    ensures WellOrdered(files, Skipped(files, p), targetsize)
  {
    hide NoneWaitsFor, PutOffWell, LeftWell, Inv;
    OrderStays(files, p, Skipped(files, p), targetsize);
  }

  lemma {:induction false} ActOrders(files: seq<File>, p: Packing, targetsize: nat)
    requires Reasonable(files, targetsize) && Inv(files, p, targetsize) && WellOrdered(files, p, targetsize)
    requires p.k < |files| || HeadFits(files, p)
    ensures WellOrdered(files, Act(files, targetsize, p), targetsize)
  {
    hide WellOrdered, Inv, Turned, Dequeued, Inlined, Enqueued, Skipped;
    if HeadFits(files, p) {
      DequeueOrders(files, p, targetsize);
    } else if CurrentFits(files, p) {
      InlineOrders(files, p, targetsize);
    } else if IsDir(files, p.k) || p.remains < 512 {
      TurnOrders(files, p, targetsize);
    } else if Size(files, p.k) > targetsize {
      SkipOrders(files, p, targetsize);
    } else {
      EnqueueOrders(files, p, targetsize);
    }
  }

  lemma {:induction false} StepOrders(files: seq<File>, p: Packing, targetsize: nat)
    requires Reasonable(files, targetsize) && Inv(files, p, targetsize) && WellOrdered(files, p, targetsize)
    ensures WellOrdered(files, Step(files, targetsize, p), targetsize)
  {
    hide WellOrdered, Inv, Act, Turned;
    InvBounds(files, p, targetsize);
    if !Done(files, p) {
      TurnedParts(targetsize, p);
      if p.k >= |files| && !HeadFits(files, p) {
        TurnOrders(files, p, targetsize);
        TurnKeeps(files, p, targetsize);
      }
      ActOrders(files, Ready(files, targetsize, p), targetsize);
    }
  }

  /**
   After any number of rounds, and so in what `Pack` returns: wherever a file is written no deferred file listed before
   it would fit; a volume is left only when neither the first file that waits nor the next one fits, and the next one is
   a directory or finds less than 512 bytes; and a file was put off only where neither it nor what waited fitted and at
   least 512 bytes were left.
   */
  lemma {:induction false} PackedInOrder(files: seq<File>, targetsize: nat, n: nat)
    requires Reasonable(files, targetsize)
    ensures WellOrdered(files, Rounds(files, targetsize, n), targetsize)
  {
    hide WellOrdered, Inv, Step, Start;
    if n == 0 {
      StartsInOrder(files, targetsize);
    } else {
      PackedInOrder(files, targetsize, n - 1);
      RoundsKeep(files, targetsize, n - 1);
      StepOrders(files, Rounds(files, targetsize, n - 1), targetsize);
    }
  }

  lemma {:induction false} StartsInOrder(files: seq<File>, targetsize: nat)
    ensures WellOrdered(files, Start(targetsize), targetsize)
  {
  }
}
