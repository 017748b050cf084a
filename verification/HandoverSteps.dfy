/** A TRANSFER in the small steps main takes, with stores of workers to shared memory between
    them, and why the single step of the state machine stands for it. */
module HandoverSteps {
  import opened Common
  import opened Handover

  /** A worker's store to a slot. */
  predicate IsStore(c: Config, e: Event) {
    match e
    case WorkerSetsFd(slot, _) => InRange(c, slot)
    case WorkerSetsGeneration(slot, generation) => InRange(c, slot) && (generation == 0 || generation == PENDING)
    case _ => false
  }

  predicate AreStores(c: Config, es: seq<Event>) {
    forall i :: 0 <= i < |es| ==> IsStore(c, es[i])
  }

  /** Going on from a state. */
  function RunFrom(c: Config, w: World, es: seq<Event>): (w': World)
    requires Sized(c, w)
    ensures Sized(c, w')
  {
    if es == [] then w else Step(c, RunFrom(c, w, es[..|es| - 1]), es[|es| - 1])
  }

  // ---------------------------------------------------------------------
  // The small steps
  // ---------------------------------------------------------------------

  /** The fd is stored; only then does main look at shared memory again. */
  function FdStored(c: Config, w: World, slot: int, fd: int, dup2Works: bool): (w': World)
    requires Sized(c, w) && InRange(c, slot)
    ensures Sized(c, w')
  {
    w.(table := FilesAfter(c, w, slot, fd, dup2Works), received := w.received + 1,
       shared := w.shared[slot := w.shared[slot].(fd := Home(c, slot, fd))])
  }

  /** The fd is read back. */
  function ReadBack(c: Config, w: World, slot: int): (w': World)
    requires Sized(c, w) && InRange(c, slot)
    ensures Sized(c, w')
  {
    w.(known := w.known[slot := w.shared[slot].fd])
  }

  /** The generation is stored. */
  function Published(c: Config, w: World, slot: int): (w': World)
    requires Sized(c, w) && InRange(c, slot)
    ensures Sized(c, w')
  {
    var g := w.counter + 1;
    w.(counter := g, gens := w.gens[slot := g], shared := w.shared[slot := w.shared[slot].(generation := g)])
  }

  /** A whole TRANSFER: a are the stores of workers between main's store of the fd and its
      reading back, b those from there to the store of the generation. */
  function SmallSteps(c: Config, w: World, slot: int, fd: int, dup2Works: bool, a: seq<Event>,
                      b: seq<Event>): (w': World)
    requires Sized(c, w)
    ensures Sized(c, w')
  {
    if !Takes(c, w, slot, fd, dup2Works) then
      RunFrom(c, w.(table := FilesAfter(c, w, slot, fd, dup2Works), received := w.received + 1), a + b)
    else
      var w1 := RunFrom(c, FdStored(c, w, slot, fd, dup2Works), a);
      var w2 := RunFrom(c, ReadBack(c, w1, slot), b);
      Published(c, w2, slot)
  }

  // ---------------------------------------------------------------------
  // What stores do
  // ---------------------------------------------------------------------

  /** The fd and the generation of a slot after some stores. */
  function FdAfter(es: seq<Event>, s: int, fd: int): int {
    if es == [] then fd
    else
      var e := es[|es| - 1];
      if e.WorkerSetsFd? && e.slot == s then e.fd else FdAfter(es[..|es| - 1], s, fd)
  }

  function GenerationAfter(es: seq<Event>, s: int, g: int): int {
    if es == [] then g
    else
      var e := es[|es| - 1];
      if e.WorkerSetsGeneration? && e.slot == s then e.generation else GenerationAfter(es[..|es| - 1], s, g)
  }

  /** Stores change shared memory and nothing else. */
  lemma {:induction false} StoresAre(c: Config, w: World, es: seq<Event>)
    requires Sized(c, w) && AreStores(c, es)
    ensures var w' := RunFrom(c, w, es);
            && w' == w.(shared := w'.shared)
            && forall s :: InRange(c, s) ==>
                 w'.shared[s] == Slot(FdAfter(es, s, w.shared[s].fd), GenerationAfter(es, s, w.shared[s].generation))
  {
    if es == [] {
    } else {
      var front, e := es[..|es| - 1], es[|es| - 1];
      assert IsStore(c, e);
      StoresAre(c, w, front);
    }
  }

  lemma {:induction false} AfterBoth(a: seq<Event>, b: seq<Event>, s: int, fd: int, g: int)
    ensures FdAfter(a + b, s, fd) == FdAfter(b, s, FdAfter(a, s, fd))
    ensures GenerationAfter(a + b, s, g) == GenerationAfter(b, s, GenerationAfter(a, s, g))
  {
    if b == [] {
      assert a + b == a;
    } else {
      var n := |b| - 1;
      assert (a + b)[..|a + b| - 1] == a + b[..n] && (a + b)[|a + b| - 1] == b[n];
      AfterBoth(a, b[..n], s, fd, g);
    }
  }

  /** The stores to the fd of one slot. */
  function FdStores(es: seq<Event>, slot: int): seq<Event> {
    if es == [] then []
    else
      var e, front := es[|es| - 1], FdStores(es[..|es| - 1], slot);
      if e.WorkerSetsFd? && e.slot == slot then front + [e] else front
  }

  lemma {:induction false} FdStoresAre(c: Config, es: seq<Event>, slot: int, s: int, fd: int, g: int)
    requires AreStores(c, es)
    ensures AreStores(c, FdStores(es, slot))
    ensures FdAfter(FdStores(es, slot), s, fd) == if s == slot then FdAfter(es, s, fd) else fd
    ensures GenerationAfter(FdStores(es, slot), s, g) == g
  {
    if es == [] {
    } else {
      var front, e := es[..|es| - 1], es[|es| - 1];
      FdStoresAre(c, front, slot, s, fd, g);
      assert IsStore(c, e);
      var kept := FdStores(front, slot);
      assert (kept + [e])[..|kept|] == kept;
    }
  }

  // ---------------------------------------------------------------------
  // One step stands for all of them
  // ---------------------------------------------------------------------

  /** The steps in between see the same files and the same memory of main. */
  lemma {:induction false} SameDecision(c: Config, w: World, v: World, slot: int, fd: int, dup2Works: bool)
    requires Sized(c, w) && Sized(c, v) && v == w.(shared := v.shared)
    ensures Takes(c, v, slot, fd, dup2Works) == Takes(c, w, slot, fd, dup2Works)
    ensures FilesAfter(c, v, slot, fd, dup2Works) == FilesAfter(c, w, slot, fd, dup2Works)
  {
  }

  /** However the stores of workers fall between the small steps, the state in the end is
      that of the single step, with all of the stores before it and those to the slot's fd
      that came after the reading back once more behind it. */
  lemma {:induction false} SmallStepsAreOne(c: Config, w: World, slot: int, fd: int, dup2Works: bool, a: seq<Event>,
                                            b: seq<Event>)
    requires Sized(c, w) && AreStores(c, a) && AreStores(c, b)
    ensures var v := TransferStep(c, RunFrom(c, w, a + b), slot, fd, dup2Works, FdAfter(a, slot, Home(c, slot, fd)));
            SmallSteps(c, w, slot, fd, dup2Works, a, b) == RunFrom(c, v, FdStores(b, slot))
  {
    hide Takes, FilesAfter, RunFrom, FdAfter, GenerationAfter, FdStores, Step, Home;
    var before := RunFrom(c, w, a + b);
    var v := TransferStep(c, before, slot, fd, dup2Works, FdAfter(a, slot, Home(c, slot, fd)));
    var fine, coarse := SmallSteps(c, w, slot, fd, dup2Works, a, b), RunFrom(c, v, FdStores(b, slot));
    StoresAre(c, w, a + b);
    SameDecision(c, w, before, slot, fd, dup2Works);
    FdStoresAre(c, b, slot, slot, 0, 0);
    StoresAre(c, v, FdStores(b, slot));
    if Takes(c, w, slot, fd, dup2Works) {
      TakenIs(c, w, slot, fd, dup2Works, a, b);
    } else {
      StoresAre(c, w.(table := FilesAfter(c, w, slot, fd, dup2Works), received := w.received + 1), a + b);
    }
    forall s | InRange(c, s) ensures fine.shared[s] == coarse.shared[s] {
      SlotsAgree(c, w, slot, fd, a, b, s);
    }
    assert fine.shared == coarse.shared;
  }

  lemma {:induction false} TakenIs(c: Config, w: World, slot: int, fd: int, dup2Works: bool, a: seq<Event>,
                                   b: seq<Event>)
    requires Sized(c, w) && AreStores(c, a) && AreStores(c, b) && Takes(c, w, slot, fd, dup2Works)
    ensures var w' := SmallSteps(c, w, slot, fd, dup2Works, a, b);
            var table, n := FilesAfter(c, w, slot, fd, dup2Works), FdAfter(a, slot, Home(c, slot, fd));
            var g := w.counter + 1;
            && w' == World(table, w.received + 1, w.known[slot := n], w.gens[slot := g], g, w'.shared)
            && forall s :: InRange(c, s) ==>
                 w'.shared[s] == if s == slot then Slot(FdAfter(b, s, n), g)
                                 else Slot(FdAfter(b, s, FdAfter(a, s, w.shared[s].fd)),
                                           GenerationAfter(b, s, GenerationAfter(a, s, w.shared[s].generation)))
  {
    hide FilesAfter, Incoming, Moves, RunFrom, FdAfter, GenerationAfter, Step, Home;
    var w0 := FdStored(c, w, slot, fd, dup2Works);
    var w1 := RunFrom(c, w0, a);
    StoresAre(c, w0, a);
    StoresAre(c, ReadBack(c, w1, slot), b);
  }

  /** A slot in shared memory, either way. */
  lemma {:induction false} SlotsAgree(c: Config, w: World, slot: int, fd: int, a: seq<Event>, b: seq<Event>, s: int)
    requires Sized(c, w) && AreStores(c, a) && AreStores(c, b) && InRange(c, s)
    ensures var back, more := FdAfter(a, slot, Home(c, slot, fd)), FdStores(b, slot);
            && FdAfter(a + b, s, w.shared[s].fd) == FdAfter(b, s, FdAfter(a, s, w.shared[s].fd))
            && GenerationAfter(a + b, s, w.shared[s].generation) ==
               GenerationAfter(b, s, GenerationAfter(a, s, w.shared[s].generation))
            && FdAfter(more, s, back) == (if s == slot then FdAfter(b, s, back) else back)
            && (forall v, g :: GenerationAfter(more, s, g) == g && (s != slot ==> FdAfter(more, s, v) == v))
            && FdAfter(more, s, FdAfter(a + b, s, w.shared[s].fd)) == FdAfter(a + b, s, w.shared[s].fd)
  {
    hide FdAfter, GenerationAfter, FdStores, Home;
    var back := FdAfter(a, slot, Home(c, slot, fd));
    AfterBoth(a, b, s, w.shared[s].fd, w.shared[s].generation);
    FdStoresAre(c, b, slot, s, back, 0);
    forall v, g ensures GenerationAfter(FdStores(b, slot), s, g) == g
        && (s != slot ==> FdAfter(FdStores(b, slot), s, v) == v) {
      FdStoresAre(c, b, slot, s, v, g);
    }
    var all := FdAfter(b, s, FdAfter(a, s, w.shared[s].fd));
    FdStoresAre(c, b, slot, s, all, 0);
    Twice(b, s, FdAfter(a, s, w.shared[s].fd));
  }

  lemma {:induction false} Twice(es: seq<Event>, s: int, fd: int)
    ensures FdAfter(es, s, FdAfter(es, s, fd)) == FdAfter(es, s, fd)
  {
    LastStore(es, s, fd, FdAfter(es, s, fd));
  }

  lemma {:induction false} LastStore(es: seq<Event>, s: int, v: int, v': int)
    ensures FdAfter(es, s, v) == FdAfter(es, s, v') || (FdAfter(es, s, v) == v && FdAfter(es, s, v') == v')
  {
    if es == [] {
    } else {
      LastStore(es[..|es| - 1], s, v, v');
    }
  }

  // ---------------------------------------------------------------------
  // Runs in small steps
  // ---------------------------------------------------------------------

  /** An event, or a TRANSFER with stores of workers between its small steps. */
  datatype Fine = Plain(e: Event) | Interleaved(slot: int, fd: int, dup2Works: bool, a: seq<Event>, b: seq<Event>)

  function FineStep(c: Config, w: World, f: Fine): (w': World)
    requires Sized(c, w)
    ensures Sized(c, w')
  {
    match f
    case Plain(e) => Step(c, w, e)
    case Interleaved(slot, fd, dup2Works, a, b) => SmallSteps(c, w, slot, fd, dup2Works, a, b)
  }

  /** The descriptor has arrived, and main reads back what it stored. */
  ghost predicate FinePossible(c: Config, w: World, f: Fine) {
    match f
    case Plain(e) => Possible(c, w, e)
    case Interleaved(slot, fd, dup2Works, a, b) =>
      && 0 <= fd && fd !in w.table && AreStores(c, a) && AreStores(c, b)
      && FdAfter(a, slot, Home(c, slot, fd)) == Home(c, slot, fd)
  }

  function FineRun(c: Config, own: set<int>, fs: seq<Fine>): (w: World)
    ensures Sized(c, w)
  {
    if fs == [] then Start(c, own) else FineStep(c, FineRun(c, own, fs[..|fs| - 1]), fs[|fs| - 1])
  }

  ghost predicate IsFineRun(c: Config, own: set<int>, fs: seq<Fine>) {
    CanStart(c, own) && forall i :: 0 <= i < |fs| ==> FinePossible(c, FineRun(c, own, fs[..i]), fs[i])
  }

  /** The events an entry of a fine run stands for. */
  function EventsOf(f: Fine): seq<Event> {
    match f
    case Plain(e) => [e]
    case Interleaved(slot, fd, dup2Works, a, b) => a + b + [Transfer(slot, fd, dup2Works)] + FdStores(b, slot)
  }

  function Coarse(fs: seq<Fine>): seq<Event> {
    if fs == [] then [] else Coarse(fs[..|fs| - 1]) + EventsOf(fs[|fs| - 1])
  }

  /** Every event is possible where it happens, going on from a state. */
  ghost predicate CanRunFrom(c: Config, w: World, es: seq<Event>)
    requires Sized(c, w)
  {
    es == [] || (CanRunFrom(c, w, es[..|es| - 1]) && Possible(c, RunFrom(c, w, es[..|es| - 1]), es[|es| - 1]))
  }

  lemma {:induction false} RunOn(c: Config, w: World, x: seq<Event>, y: seq<Event>)
    requires Sized(c, w)
    ensures RunFrom(c, w, x + y) == RunFrom(c, RunFrom(c, w, x), y)
    ensures CanRunFrom(c, w, x) && CanRunFrom(c, RunFrom(c, w, x), y) ==> CanRunFrom(c, w, x + y)
  {
    hide Step, Possible;
    if y == [] {
      assert x + y == x;
    } else {
      var n := |y| - 1;
      assert (x + y)[..|x + y| - 1] == x + y[..n] && (x + y)[|x + y| - 1] == y[n];
      RunOn(c, w, x, y[..n]);
    }
  }

  lemma {:induction false} StoresCanRun(c: Config, w: World, es: seq<Event>)
    requires Sized(c, w) && AreStores(c, es)
    ensures CanRunFrom(c, w, es)
  {
    hide Step;
    if es == [] {
    } else {
      assert IsStore(c, es[|es| - 1]);
      StoresCanRun(c, w, es[..|es| - 1]);
    }
  }

  lemma {:induction false} OneEvent(c: Config, w: World, e: Event)
    requires Sized(c, w)
    ensures RunFrom(c, w, [e]) == Step(c, w, e) && (Possible(c, w, e) ==> CanRunFrom(c, w, [e]))
  {
    hide Step, Possible;
    assert [e][..0] == [];
  }

  /** An entry of a fine run is its events, one after the other. */
  lemma {:induction false} FineIsCoarse(c: Config, w: World, f: Fine)
    requires Sized(c, w) && FinePossible(c, w, f)
    ensures RunFrom(c, w, EventsOf(f)) == FineStep(c, w, f) && CanRunFrom(c, w, EventsOf(f))
  {
    hide Step, RunFrom, CanRunFrom, SmallSteps, FdStores, FdAfter, Home, TransferStep;
    match f
    case Plain(e) => OneEvent(c, w, e);
    case Interleaved(slot, fd, dup2Works, a, b) =>
      InterleavedIsCoarse(c, w, slot, fd, dup2Works, a, b);
  }

  lemma {:induction false} InterleavedIsCoarse(c: Config, w: World, slot: int, fd: int, dup2Works: bool,
                                               a: seq<Event>, b: seq<Event>)
    requires Sized(c, w) && FinePossible(c, w, Interleaved(slot, fd, dup2Works, a, b))
    ensures var es := a + b + [Transfer(slot, fd, dup2Works)] + FdStores(b, slot);
            RunFrom(c, w, es) == SmallSteps(c, w, slot, fd, dup2Works, a, b) && CanRunFrom(c, w, es)
  {
    hide RunFrom, CanRunFrom, SmallSteps, FdStores, FdAfter, Home, TransferStep;
    var e, more := Transfer(slot, fd, dup2Works), FdStores(b, slot);
    var before := RunFrom(c, w, a + b);
    StoresAre(c, w, a + b);
    StoresCanRun(c, w, a + b);
    OneEvent(c, before, e);
    RunOn(c, w, a + b, [e]);
    var done := RunFrom(c, w, a + b + [e]);
    FdStoresAre(c, b, slot, slot, 0, 0);
    StoresCanRun(c, done, more);
    RunOn(c, w, a + b + [e], more);
    SmallStepsAreOne(c, w, slot, fd, dup2Works, a, b);
  }

  lemma {:induction false} RunIsRunFrom(c: Config, own: set<int>, es: seq<Event>)
    ensures Run(c, own, es) == RunFrom(c, Start(c, own), es)
  {
    hide Step;
    if es == [] {
    } else {
      RunIsRunFrom(c, own, es[..|es| - 1]);
    }
  }

  lemma {:induction false} CanRunIsRun(c: Config, own: set<int>, es: seq<Event>)
    requires CanStart(c, own) && CanRunFrom(c, Start(c, own), es)
    ensures IsRun(c, own, es)
  {
    hide Step, Possible, CanStart;
    if es == [] {
    } else {
      var n := |es| - 1;
      CanRunIsRun(c, own, es[..n]);
      RunIsRunFrom(c, own, es[..n]);
      forall i | 0 <= i < |es| ensures Possible(c, Run(c, own, es[..i]), es[i]) {
        if i < n {
          assert es[..n][..i] == es[..i] && es[..n][i] == es[i];
        }
      }
    }
  }

  lemma {:induction false} FineFrom(c: Config, own: set<int>, fs: seq<Fine>)
    requires IsFineRun(c, own, fs)
    ensures RunFrom(c, Start(c, own), Coarse(fs)) == FineRun(c, own, fs) && CanRunFrom(c, Start(c, own), Coarse(fs))
  {
    hide FineStep, FinePossible, EventsOf, Step, Possible, CanStart;
    if fs == [] {
    } else {
      var n := |fs| - 1;
      forall i | 0 <= i < n ensures FinePossible(c, FineRun(c, own, fs[..n][..i]), fs[..n][i]) {
        assert fs[..n][..i] == fs[..i];
      }
      FineFrom(c, own, fs[..n]);
      assert FinePossible(c, FineRun(c, own, fs[..n]), fs[n]);
      FineIsCoarse(c, FineRun(c, own, fs[..n]), fs[n]);
      RunOn(c, Start(c, own), Coarse(fs[..n]), EventsOf(fs[n]));
    }
  }

  /** Every run in small steps ends where a run of whole steps ends; so whatever holds after
      every run holds after it. */
  lemma {:induction false} FineRunIsRun(c: Config, own: set<int>, fs: seq<Fine>)
    requires IsFineRun(c, own, fs)
    ensures IsRun(c, own, Coarse(fs)) && FineRun(c, own, fs) == Run(c, own, Coarse(fs))
    ensures Inv(c, FineRun(c, own, fs), Recorded(c, Coarse(fs)))
  {
    hide FineRun, Run, Recorded, IsRun, Inv, CanRunFrom, RunFrom, Coarse;
    FineFrom(c, own, fs);
    CanRunIsRun(c, own, Coarse(fs));
    RunIsRunFrom(c, own, Coarse(fs));
    EveryRunKeepsInv(c, own, Coarse(fs));
  }

  /** In the middle of a TRANSFER, whatever workers store, no slot shows a generation but 0, the
      pending mark and that of its latest transfer before this one: the new generation is not
      seen before main holds the descriptor. */
  lemma {:induction false} NotSeenTooEarly(c: Config, w: World, r: Record, slot: int, fd: int, dup2Works: bool,
                                           a: seq<Event>, b: seq<Event>, s: int)
    requires Inv(c, w, r) && InRange(c, slot) && InRange(c, s) && AreStores(c, a) && AreStores(c, b)
    ensures var w1 := RunFrom(c, FdStored(c, w, slot, fd, dup2Works), a);
            SlotShared(c, w1, r, s) && SlotShared(c, RunFrom(c, ReadBack(c, w1, slot), b), r, s)
  {
    hide RunFrom, FdAfter, GenerationAfter, FilesAfter, NoLeak, Different, Home;
    assert SlotFine(c, w, r, s);
    var w0 := FdStored(c, w, slot, fd, dup2Works);
    var w1 := RunFrom(c, w0, a);
    StoresAre(c, w0, a);
    StoresAre(c, ReadBack(c, w1, slot), b);
    StoredGeneration(c, a, s, w.shared[s].generation);
    StoredGeneration(c, b, s, w1.shared[s].generation);
  }

  lemma {:induction false} StoredGeneration(c: Config, es: seq<Event>, s: int, g: int)
    requires AreStores(c, es)
    ensures GenerationAfter(es, s, g) == g || GenerationAfter(es, s, g) == 0 || GenerationAfter(es, s, g) == PENDING
  {
    if es == [] {
    } else {
      assert IsStore(c, es[|es| - 1]);
      StoredGeneration(c, es[..|es| - 1], s, g);
    }
  }

  // ---------------------------------------------------------------------
  // Runs in which descriptors get lost and slots are overwritten
  // ---------------------------------------------------------------------

  /** The descriptor may be lost, which reads as number 0, and workers may store anything in
      the slot before main reads it back. */
  ghost predicate LoosePossible(c: Config, w: World, f: Fine) {
    match f
    case Plain(e) => Possible(c, w, e)
    case Interleaved(slot, fd, dup2Works, a, b) =>
      0 <= fd && (fd !in w.table || fd == 0) && AreStores(c, a) && AreStores(c, b)
  }

  ghost predicate IsLooseRun(c: Config, own: set<int>, fs: seq<Fine>) {
    CanStart(c, own) && forall i :: 0 <= i < |fs| ==> LoosePossible(c, FineRun(c, own, fs[..i]), fs[i])
  }

  /** A TRANSFER that main keeps has its descriptor, and main reads back what it stored. */
  ghost predicate Clean(c: Config, w: World, f: Fine) {
    match f
    case Plain(_) => true
    case Interleaved(slot, fd, dup2Works, a, b) =>
      Kept(c, slot, fd, dup2Works) ==> fd !in w.table && FdAfter(a, slot, Home(c, slot, fd)) == Home(c, slot, fd)
  }

  function EventOf(f: Fine): Event {
    match f
    case Plain(e) => e
    case Interleaved(slot, fd, dup2Works, _, _) => Transfer(slot, fd, dup2Works)
  }

  function FineRecorded(c: Config, fs: seq<Fine>): (r: Record)
    ensures Covers(c, r)
  {
    if fs == [] then NewRecord(c) else Note(c, FineRecorded(c, fs[..|fs| - 1]), EventOf(fs[|fs| - 1]))
  }

  /** The order between memory and files does not depend on the fds in shared memory, nor on
      the generations workers store. */
  lemma {:induction false} StoresKeepInv(c: Config, w: World, r: Record, es: seq<Event>)
    requires Sized(c, w) && AreStores(c, es)
    ensures Inv(c, w, r) ==> Inv(c, RunFrom(c, w, es), r)
    ensures (forall s, g :: GenerationAfter(es, s, g) == g) && Inv(c, RunFrom(c, w, es), r) ==> Inv(c, w, r)
  {
    hide RunFrom, FdAfter, GenerationAfter, Different;
    var w' := RunFrom(c, w, es);
    StoresAre(c, w, es);
    if Inv(c, w, r) {
      forall s | InRange(c, s) ensures SlotFine(c, w', r, s) {
        assert SlotFine(c, w, r, s);
        StoredGeneration(c, es, s, w.shared[s].generation);
      }
    }
    if (forall s, g :: GenerationAfter(es, s, g) == g) && Inv(c, w', r) {
      forall s | InRange(c, s) ensures SlotFine(c, w, r, s) {
        assert SlotFine(c, w', r, s);
      }
    }
  }

  /** A TRANSFER that main does not keep does no harm, with or without its descriptor. */
  lemma {:induction false} NotKept(c: Config, w: World, r: Record, slot: int, fd: int, dup2Works: bool, readBack: int)
    requires Inv(c, w, r) && !Kept(c, slot, fd, dup2Works) && (fd !in w.table || fd == 0)
    ensures Inv(c, TransferStep(c, w, slot, fd, dup2Works, readBack), Note(c, r, Transfer(slot, fd, dup2Works)))
  {
    hide Different;
    if InRange(c, slot) {
      assert SlotFine(c, w, r, slot);
    }
    var w', r' := TransferStep(c, w, slot, fd, dup2Works, readBack), Note(c, r, Transfer(slot, fd, dup2Works));
    assert w'.table == w.table - {fd};
    forall s | InRange(c, s) ensures SlotFine(c, w', r', s) {
      assert SlotFine(c, w, r, s);
      assert fd in w.table ==> Number(c, s) != fd;
    }
    forall s, t | InRange(c, s) && InRange(c, t) ensures Different(r', s, t) {
      StillDifferent(r, r', s, t);
    }
  }

  lemma {:induction false} StillDifferent(r: Record, r': Record, s: int, t: int)
    requires r'.latest == r.latest && 0 <= s < |r.latest| && 0 <= t < |r.latest| && Different(r, s, t)
    ensures Different(r', s, t)
  {
  }

  lemma {:induction false} InterleavedNeedsClean(c: Config, w: World, r: Record, slot: int, fd: int, dup2Works: bool,
                                                 a: seq<Event>, b: seq<Event>)
    requires Inv(c, w, r) && LoosePossible(c, w, Interleaved(slot, fd, dup2Works, a, b))
    ensures Inv(c, SmallSteps(c, w, slot, fd, dup2Works, a, b), Note(c, r, Transfer(slot, fd, dup2Works))) <==>
            Clean(c, w, Interleaved(slot, fd, dup2Works, a, b))
  {
    hide Inv, RunFrom, FdAfter, GenerationAfter, FdStores, TransferStep, SmallSteps, Note, Home, Kept;
    InvIsSized(c, w, r);
    var before, back, more := RunFrom(c, w, a + b), FdAfter(a, slot, Home(c, slot, fd)), FdStores(b, slot);
    var r' := Note(c, r, Transfer(slot, fd, dup2Works));
    SmallStepsAreOne(c, w, slot, fd, dup2Works, a, b);
    StoresAre(c, w, a + b);
    StoresKeepInv(c, w, r, a + b);
    if Kept(c, slot, fd, dup2Works) {
      TransferNeedsArrival(c, before, r, slot, fd, dup2Works, back);
    } else {
      NotKept(c, before, r, slot, fd, dup2Works, back);
    }
    forall s, g ensures GenerationAfter(more, s, g) == g {
      FdStoresAre(c, b, slot, s, 0, g);
    }
    FdStoresAre(c, b, slot, slot, 0, 0);
    StoresKeepInv(c, TransferStep(c, before, slot, fd, dup2Works, back), r', more);
  }

  lemma {:induction false} InvIsSized(c: Config, w: World, r: Record)
    requires Inv(c, w, r)
    ensures Sized(c, w) && Covers(c, r)
  {
  }

  lemma {:induction false} FineStepNeedsClean(c: Config, w: World, r: Record, f: Fine)
    requires Inv(c, w, r) && LoosePossible(c, w, f)
    ensures Sized(c, w) && Covers(c, r)
    ensures Inv(c, FineStep(c, w, f), Note(c, r, EventOf(f))) <==> Clean(c, w, f)
  {
    hide Inv, SmallSteps, Note, Step, Possible;
    InvIsSized(c, w, r);
    match f
    case Plain(e) => StepKeepsInv(c, w, r, e);
    case Interleaved(slot, fd, dup2Works, a, b) =>
      InterleavedNeedsClean(c, w, r, slot, fd, dup2Works, a, b);
  }

  /** Main's memory and its files agree at every point of a run exactly if every TRANSFER
      that main keeps is clean. */
  lemma {:induction false} AlwaysInOrder(c: Config, own: set<int>, fs: seq<Fine>)
    requires IsLooseRun(c, own, fs)
    ensures (forall k :: 0 <= k <= |fs| ==> Inv(c, FineRun(c, own, fs[..k]), FineRecorded(c, fs[..k]))) <==>
            (forall i :: 0 <= i < |fs| ==> Clean(c, FineRun(c, own, fs[..i]), fs[i]))
  {
    hide Inv, FineRun, FineRecorded, Clean, LoosePossible, CanStart;
    if forall i :: 0 <= i < |fs| ==> Clean(c, FineRun(c, own, fs[..i]), fs[i]) {
      forall k | 0 <= k <= |fs| ensures Inv(c, FineRun(c, own, fs[..k]), FineRecorded(c, fs[..k])) {
        InOrderUpTo(c, own, fs, k);
      }
    }
    if forall k :: 0 <= k <= |fs| ==> Inv(c, FineRun(c, own, fs[..k]), FineRecorded(c, fs[..k])) {
      forall i | 0 <= i < |fs| ensures Clean(c, FineRun(c, own, fs[..i]), fs[i]) {
        OneMore(c, own, fs, i);
        FineStepNeedsClean(c, FineRun(c, own, fs[..i]), FineRecorded(c, fs[..i]), fs[i]);
      }
    }
  }

  lemma {:induction false} OneMore(c: Config, own: set<int>, fs: seq<Fine>, i: nat)
    requires i < |fs|
    ensures FineRun(c, own, fs[..i + 1]) == FineStep(c, FineRun(c, own, fs[..i]), fs[i])
    ensures FineRecorded(c, fs[..i + 1]) == Note(c, FineRecorded(c, fs[..i]), EventOf(fs[i]))
  {
    hide FineStep, Note;
    assert fs[..i + 1][..i] == fs[..i];
  }

  lemma {:induction false} InOrderUpTo(c: Config, own: set<int>, fs: seq<Fine>, k: nat)
    requires IsLooseRun(c, own, fs) && k <= |fs| && forall i :: 0 <= i < |fs| ==>
             Clean(c, FineRun(c, own, fs[..i]), fs[i])
    ensures Inv(c, FineRun(c, own, fs[..k]), FineRecorded(c, fs[..k]))
  {
    hide Inv, FineStep, Note, Clean, LoosePossible, CanStart;
    if k == 0 {
      StartIsFine(c, own);
    } else {
      InOrderUpTo(c, own, fs, k - 1);
      OneMore(c, own, fs, k - 1);
      FineStepNeedsClean(c, FineRun(c, own, fs[..k - 1]), FineRecorded(c, fs[..k - 1]), fs[k - 1]);
    }
  }
}
