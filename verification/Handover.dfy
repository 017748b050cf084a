/** The hand-over of server descriptors from worker processes to main: the steps main
    takes on the messages it receives, and what holds after every run of them. */
module Handover {
  import opened Common

  const LLONG_MAX := 0x7FFF_FFFF_FFFF_FFFF

  /** The generation of a slot whose descriptor is on its way to main. */
  const PENDING := LLONG_MAX

  /** What a descriptor number of main refers to: the server connection that arrived with
      the id-th TRANSFER message, or a file main opened for itself. */
  datatype File = Backend(id: nat) | Own

  /** A slot in shared memory, which workers write too. */
  datatype Slot = Slot(fd: int, generation: int)

  /** known and gens are process memory of main; table is its descriptor table and
      received counts the TRANSFER messages. */
  datatype World = World(
    table: map<int, File>, received: nat,
    known: seq<int>, gens: seq<int>, counter: int,
    shared: seq<Slot>)

  /** One step. Messages are arbitrary, so every delay, reordering, loss and replay of
      the messages workers send is one of the runs. */
  datatype Event =
    | Transfer(slot: int, fd: int, dup2Works: bool)
    | Kill(slot: int, generation: int)
    | GetFd(slot: int)
    | WorkerSetsFd(slot: int, fd: int)
    | WorkerSetsGeneration(slot: int, generation: int)
    | MainOpens(n: int)
    | MainCloses(n: int)

  /** How many slots there are and the number of the first one's descriptor. */
  datatype Config = Config(max: nat, base: int)

  predicate InRange(c: Config, slot: int) {
    0 <= slot < c.max
  }

  /** The number a slot's descriptor lives at. */
  function Number(c: Config, slot: int): int {
    c.base + slot
  }

  predicate IsSlotNumber(c: Config, n: int) {
    InRange(c, n - c.base)
  }

  // ---------------------------------------------------------------------
  // The steps
  // ---------------------------------------------------------------------

  /** The files main has open for itself. */
  ghost function OwnNumbers(w: World): set<int> {
    set n | n in w.table && w.table[n] == Own
  }

  /** The number the kernel gives to a file that is opened. */
  predicate LowestFree(w: World, n: int) {
    0 <= n && n !in w.table && forall m :: 0 <= m < n ==> m in w.table
  }

  /** A descriptor in a message arrives at a free number; main opens a file of its own at the
      lowest free one, and has fewer of them open than there are numbers below the base;
      workers store no generation but 0 and PENDING. */
  ghost predicate Possible(c: Config, w: World, e: Event) {
    match e
    case Transfer(_, fd, _) => 0 <= fd && fd !in w.table
    case Kill(_, _) => true
    case GetFd(_) => true
    case WorkerSetsFd(slot, _) => InRange(c, slot)
    case WorkerSetsGeneration(slot, generation) => InRange(c, slot) && (generation == 0 || generation == PENDING)
    case MainOpens(n) => LowestFree(w, n) && |OwnNumbers(w)| < c.base
    case MainCloses(n) => n in w.table && w.table[n] == Own
  }

  predicate Sized(c: Config, w: World) {
    |w.known| == |w.gens| == |w.shared| == c.max
  }

  /** A transfer is kept unless the slot is bad or the descriptor cannot be moved to the
      slot's number; with a base that is not positive it is not moved. */
  predicate Kept(c: Config, slot: int, fd: int, dup2Works: bool) {
    InRange(c, slot) && (c.base <= 0 || fd == Number(c, slot) || dup2Works)
  }

  /** Where a kept descriptor ends up. */
  function Home(c: Config, slot: int, fd: int): int {
    if 0 < c.base then Number(c, slot) else fd
  }

  /** A TRANSFER in all its detail. The descriptor arrives at number fd, which the kernel
      has free, unless the control message is lost; readBack is what the slot's fd in shared
      memory is when main reads back what it has just stored there. */
  function TransferStep(c: Config, w: World, slot: int, fd: int, dup2Works: bool, readBack: int): (w': World)
    requires Sized(c, w)
    ensures Sized(c, w')
  {
    var id, table := w.received + 1, FilesAfter(c, w, slot, fd, dup2Works);
    if Takes(c, w, slot, fd, dup2Works)
    then
      var g := w.counter + 1;
      World(table, id, w.known[slot := readBack], w.gens[slot := g], g, w.shared[slot := Slot(readBack, g)])
    else w.(table := table, received := id)
  }

  /** Main's open files once the descriptor is in and, for a slot in range, an older one of
      the slot that is not at the slot's number is closed. */
  function Incoming(c: Config, w: World, slot: int, fd: int): (table: map<int, File>)
    requires Sized(c, w)
  {
    var here := if fd in w.table then w.table else w.table[fd := Backend(w.received + 1)];
    if InRange(c, slot) && w.known[slot] > 0 && w.known[slot] != Number(c, slot) then here - {w.known[slot]} else here
  }

  predicate Takes(c: Config, w: World, slot: int, fd: int, dup2Works: bool)
    requires Sized(c, w)
  {
    InRange(c, slot) && Moves(c, Incoming(c, w, slot, fd), slot, fd, dup2Works)
  }

  function FilesAfter(c: Config, w: World, slot: int, fd: int, dup2Works: bool): (table: map<int, File>)
    requires Sized(c, w)
  {
    var table, n := Incoming(c, w, slot, fd), Home(c, slot, fd);
    if !Takes(c, w, slot, fd, dup2Works) then table - {fd}
    else if n == fd then table
    else table[n := table[fd]] - {fd}
  }

  predicate Moves(c: Config, table: map<int, File>, slot: int, fd: int, dup2Works: bool) {
    Home(c, slot, fd) == fd || (dup2Works && fd in table)
  }

  /** As a rule the descriptor has arrived and nobody writes the slot in between. */
  predicate Arrived(c: Config, w: World, slot: int, fd: int, readBack: int) {
    fd !in w.table && readBack == Home(c, slot, fd)
  }

  function Step(c: Config, w: World, e: Event): (w': World)
    requires Sized(c, w)
    ensures Sized(c, w')
  {
    match e
    case Transfer(slot, fd, dup2Works) => TransferStep(c, w, slot, fd, dup2Works, Home(c, slot, fd))
    case Kill(slot, generation) =>
      if InRange(c, slot) && generation > 0 && w.gens[slot] == generation then
        w.(table := w.table - {w.known[slot]}, known := w.known[slot := 0], gens := w.gens[slot := 0])
      else w
    case GetFd(_) => w
    case WorkerSetsFd(slot, fd) =>
      if InRange(c, slot) then w.(shared := w.shared[slot := w.shared[slot].(fd := fd)]) else w
    case WorkerSetsGeneration(slot, generation) =>
      if InRange(c, slot) then w.(shared := w.shared[slot := w.shared[slot].(generation := generation)]) else w
    case MainOpens(n) => w.(table := w.table[n := Own])
    case MainCloses(n) => w.(table := w.table - {n})
  }

  /** Main's reply to GET_FD: the generation and, when it is positive, the file that the
      number in shared memory names in main at the time it is sent. */
  datatype Reply = Refused | Answer(generation: int, sent: Option<File>)

  function GetFdReply(c: Config, w: World, slot: int, fdAtSend: int): Reply
    requires Sized(c, w)
  {
    if !InRange(c, slot) then Refused
    else if w.shared[slot].fd != w.known[slot] then Answer(0, None)
    else Answer(w.gens[slot], if w.gens[slot] > 0 && fdAtSend in w.table then Some(w.table[fdAtSend]) else None)
  }

  // ---------------------------------------------------------------------
  // The record: what the messages mean, without descriptor numbers
  // ---------------------------------------------------------------------

  /** The transfer that brought a descriptor: its generation and its TRANSFER message. */
  datatype Copy = Copy(generation: int, id: nat)

  /** latest is the last transfer kept for each slot; live is that transfer until a KILL
      with its generation has been processed. */
  datatype Record = Record(received: nat, count: nat, latest: seq<Option<Copy>>, live: seq<Option<Copy>>)

  predicate Covers(c: Config, r: Record) {
    |r.latest| == |r.live| == c.max
  }

  function Note(c: Config, r: Record, e: Event): (r': Record)
    requires Covers(c, r)
    ensures Covers(c, r')
  {
    match e
    case Transfer(slot, fd, dup2Works) =>
      if !Kept(c, slot, fd, dup2Works) then r.(received := r.received + 1)
      else
        var copy := Some(Copy(r.count + 1, r.received + 1));
        Record(r.received + 1, r.count + 1, r.latest[slot := copy], r.live[slot := copy])
    case Kill(slot, generation) =>
      if InRange(c, slot) && r.live[slot].Some? && r.live[slot].value.generation == generation
      then r.(live := r.live[slot := None])
      else r
    case _ => r
  }

  // ---------------------------------------------------------------------
  // The invariant
  // ---------------------------------------------------------------------

  /** Main holds the descriptor of a slot exactly while a transfer is live there. */
  predicate SlotHolds(c: Config, w: World, r: Record, s: int)
    requires Sized(c, w) && Covers(c, r) && InRange(c, s)
  {
    match r.live[s]
    case None => w.known[s] == 0 && w.gens[s] == 0
    case Some(copy) =>
      && w.known[s] == Number(c, s) && w.gens[s] == copy.generation
      && Number(c, s) in w.table && w.table[Number(c, s)] == Backend(copy.id)
      && r.latest[s] == Some(copy)
  }

  /** A generation in shared memory that is not 0 or PENDING is the latest one. */
  predicate SlotShared(c: Config, w: World, r: Record, s: int)
    requires Sized(c, w) && Covers(c, r) && InRange(c, s)
  {
    var g := w.shared[s].generation;
    g == 0 || g == PENDING || (r.latest[s].Some? && r.latest[s].value.generation == g)
  }

  predicate Counted(r: Record, s: int)
    requires 0 <= s < |r.latest|
  {
    r.latest[s].Some? ==> 0 < r.latest[s].value.generation <= r.count && 0 < r.latest[s].value.id <= r.received
  }

  /** Two slots never have a transfer in common. */
  predicate Different(r: Record, s: int, t: int)
    requires 0 <= s < |r.latest| && 0 <= t < |r.latest|
  {
    s != t && r.latest[s].Some? && r.latest[t].Some? ==>
      && r.latest[s].value.generation != r.latest[t].value.generation
      && r.latest[s].value.id != r.latest[t].value.id
  }

  /** Every backend in the table belongs to a slot with a live transfer. */
  predicate NoLeak(c: Config, w: World, r: Record)
    requires Covers(c, r)
  {
    forall n :: n in w.table ==>
        (IsSlotNumber(c, n) <==> w.table[n].Backend?) && (IsSlotNumber(c, n) ==> r.live[n - c.base].Some?)
  }

  predicate SlotFine(c: Config, w: World, r: Record, s: int)
    requires Sized(c, w) && Covers(c, r) && InRange(c, s)
  {
    SlotHolds(c, w, r, s) && SlotShared(c, w, r, s) && Counted(r, s)
  }

  ghost predicate Inv(c: Config, w: World, r: Record) {
    && 0 < c.base && Sized(c, w) && Covers(c, r)
    && w.counter == r.count && w.received == r.received
    && (forall s :: InRange(c, s) ==> SlotFine(c, w, r, s))
    && (forall s, t :: InRange(c, s) && InRange(c, t) ==> Different(r, s, t))
    && NoLeak(c, w, r)
  }

  /** A transfer that is kept, in a few words. */
  lemma {:induction false} TransferIs(c: Config, w: World, r: Record, slot: int, fd: int, dup2Works: bool)
    requires Inv(c, w, r) && fd !in w.table
    ensures var w', id := Step(c, w, Transfer(slot, fd, dup2Works)), w.received + 1;
            if !Kept(c, slot, fd, dup2Works) then w' == w.(received := id)
            else
              var n, g := Number(c, slot), w.counter + 1;
              w' == World(w.table[n := Backend(id)], id, w.known[slot := n], w.gens[slot := g], g,
                          w.shared[slot := Slot(n, g)])
  {
    hide Different, NoLeak, SlotShared, Counted;
    if InRange(c, slot) {
      assert SlotFine(c, w, r, slot);
    }
  }

  function NumbersBelow(k: nat): (b: set<int>)
    ensures |b| == k && forall m :: m in b <==> 0 <= m < k
  {
    if k == 0 then {} else NumbersBelow(k - 1) + {k - 1}
  }

  /** Main's own files stay below the numbers of the slots. */
  lemma {:induction false} OwnFilesStayBelow(c: Config, w: World, r: Record, n: int)
    requires Inv(c, w, r) && LowestFree(w, n) && |OwnNumbers(w)| < c.base
    ensures n < c.base && !IsSlotNumber(c, n)
  {
    hide SlotFine, Different;
    if c.base <= n {
      forall m | m in NumbersBelow(c.base) ensures m in OwnNumbers(w) {
        assert m in w.table && !IsSlotNumber(c, m);
      }
      SubsetIsNoLarger(NumbersBelow(c.base), OwnNumbers(w));
      assert false;
    }
  }

  lemma {:induction false} StepKeepsSlot(c: Config, w: World, r: Record, e: Event, s: int)
    requires Inv(c, w, r) && Possible(c, w, e) && InRange(c, s)
    ensures SlotFine(c, Step(c, w, e), Note(c, r, e), s)
  {
    hide Different, NoLeak, TransferStep;
    assert SlotFine(c, w, r, s);
    match e
    case Transfer(slot, fd, dup2Works) => TransferIs(c, w, r, slot, fd, dup2Works);
    case Kill(slot, _) =>
      if InRange(c, slot) {
        assert SlotFine(c, w, r, slot);
      }
    case _ =>
  }

  lemma {:induction false} StepKeepsDifferent(c: Config, w: World, r: Record, e: Event, s: int, t: int)
    requires Inv(c, w, r) && InRange(c, s) && InRange(c, t)
    ensures Different(Note(c, r, e), s, t)
  {
    hide SlotHolds, SlotShared, NoLeak;
    assert Different(r, s, t) && SlotFine(c, w, r, s) && SlotFine(c, w, r, t);
  }

  lemma {:induction false} StepKeepsNoLeak(c: Config, w: World, r: Record, e: Event)
    requires Inv(c, w, r) && Possible(c, w, e)
    ensures NoLeak(c, Step(c, w, e), Note(c, r, e))
  {
    hide Different, TransferStep;
    match e
    case Transfer(slot, fd, dup2Works) =>
      TransferIs(c, w, r, slot, fd, dup2Works);
      assert InRange(c, slot) ==> IsSlotNumber(c, Number(c, slot));
    case Kill(slot, _) =>
      if InRange(c, slot) {
        assert SlotFine(c, w, r, slot);
      }
    case MainOpens(n) => OwnFilesStayBelow(c, w, r, n);
    case _ =>
  }

  lemma {:induction false} CountersAgree(c: Config, w: World, r: Record, e: Event)
    requires Inv(c, w, r) && Possible(c, w, e)
    ensures Step(c, w, e).counter == Note(c, r, e).count && Step(c, w, e).received == Note(c, r, e).received
  {
    hide SlotFine, Different, NoLeak, TransferStep;
    if e.Transfer? {
      TransferIs(c, w, r, e.slot, e.fd, e.dup2Works);
    }
  }

  lemma {:induction false} StepKeepsInv(c: Config, w: World, r: Record, e: Event)
    requires Inv(c, w, r) && Possible(c, w, e)
    ensures Inv(c, Step(c, w, e), Note(c, r, e))
  {
    hide SlotFine, Different, NoLeak, Step, Note, Possible;
    var w', r' := Step(c, w, e), Note(c, r, e);
    forall s | InRange(c, s) ensures SlotFine(c, w', r', s) {
      StepKeepsSlot(c, w, r, e, s);
    }
    forall s, t | InRange(c, s) && InRange(c, t) ensures Different(r', s, t) {
      StepKeepsDifferent(c, w, r, e, s, t);
    }
    StepKeepsNoLeak(c, w, r, e);
    CountersAgree(c, w, r, e);
  }

  /** The connections in the table have arrived. */
  lemma {:induction false} NoneFromTheFuture(c: Config, w: World, r: Record, n: int)
    requires Inv(c, w, r) && n in w.table
    ensures w.table[n] != Backend(w.received + 1)
  {
    hide Different, SlotShared;
    if w.table[n].Backend? {
      assert IsSlotNumber(c, n);
      assert SlotFine(c, w, r, n - c.base);
      assert Number(c, n - c.base) == n;
    }
  }

  lemma {:induction false} LostOrOverwritten(c: Config, w: World, r: Record, slot: int, fd: int, dup2Works: bool,
                                             readBack: int)
    requires Inv(c, w, r) && Kept(c, slot, fd, dup2Works) && !Arrived(c, w, slot, fd, readBack)
    ensures var r' := Note(c, r, Transfer(slot, fd, dup2Works));
            !SlotFine(c, TransferStep(c, w, slot, fd, dup2Works, readBack), r', slot)
  {
    hide Different, NoLeak, SlotShared, Counted;
    assert SlotFine(c, w, r, slot);
    if fd in w.table {
      NoneFromTheFuture(c, w, r, fd);
    }
  }

  /** A transfer that is kept leaves main in order exactly if the descriptor has arrived at a
      free number, and nobody has written the slot's fd before main reads it back. */
  lemma {:induction false} TransferNeedsArrival(c: Config, w: World, r: Record, slot: int, fd: int, dup2Works: bool,
                                                readBack: int)
    requires Inv(c, w, r) && Kept(c, slot, fd, dup2Works) && 0 <= fd
    ensures Inv(c, TransferStep(c, w, slot, fd, dup2Works, readBack), Note(c, r, Transfer(slot, fd, dup2Works))) <==>
            Arrived(c, w, slot, fd, readBack)
  {
    hide Different, SlotFine, TransferStep, NoLeak, Note;
    if Arrived(c, w, slot, fd, readBack) {
      StepKeepsInv(c, w, r, Transfer(slot, fd, dup2Works));
    } else {
      LostOrOverwritten(c, w, r, slot, fd, dup2Works, readBack);
    }
  }

  // ---------------------------------------------------------------------
  // Runs
  // ---------------------------------------------------------------------

  function Start(c: Config, own: set<int>): World {
    World(map n | n in own :: Own, 0, seq(c.max, _ => 0), seq(c.max, _ => 0), 0, seq(c.max, _ => Slot(-1, 0)))
  }

  function NewRecord(c: Config): Record {
    Record(0, 0, seq(c.max, _ => None), seq(c.max, _ => None))
  }

  /** Main starts with some files of its own, all outside the range of the slots. */
  ghost predicate CanStart(c: Config, own: set<int>) {
    0 < c.base && forall n :: n in own ==> !IsSlotNumber(c, n)
  }

  function Run(c: Config, own: set<int>, es: seq<Event>): (w: World)
    ensures Sized(c, w)
  {
    if es == [] then Start(c, own) else Step(c, Run(c, own, es[..|es| - 1]), es[|es| - 1])
  }

  function Recorded(c: Config, es: seq<Event>): (r: Record)
    ensures Covers(c, r)
  {
    if es == [] then NewRecord(c) else Note(c, Recorded(c, es[..|es| - 1]), es[|es| - 1])
  }

  /** Every step of the run is possible where it happens. */
  ghost predicate IsRun(c: Config, own: set<int>, es: seq<Event>) {
    && CanStart(c, own)
    && forall i :: 0 <= i < |es| ==> Possible(c, Run(c, own, es[..i]), es[i])
  }

  lemma {:induction false} RunPrefix(c: Config, own: set<int>, es: seq<Event>, k: nat)
    requires IsRun(c, own, es) && k <= |es|
    ensures IsRun(c, own, es[..k])
  {
    forall i | 0 <= i < k ensures Possible(c, Run(c, own, es[..k][..i]), es[..k][i]) {
      assert es[..k][..i] == es[..i];
    }
  }

  lemma {:induction false} EveryRunKeepsInv(c: Config, own: set<int>, es: seq<Event>)
    requires IsRun(c, own, es)
    ensures Inv(c, Run(c, own, es), Recorded(c, es))
  {
    hide Inv, Possible, Step, Note;
    if es == [] {
      StartIsFine(c, own);
    } else {
      var n := |es| - 1;
      RunPrefix(c, own, es, n);
      EveryRunKeepsInv(c, own, es[..n]);
      assert Possible(c, Run(c, own, es[..n]), es[n]);
      StepKeepsInv(c, Run(c, own, es[..n]), Recorded(c, es[..n]), es[n]);
    }
  }

  lemma {:induction false} StartIsFine(c: Config, own: set<int>)
    requires CanStart(c, own)
    ensures Inv(c, Start(c, own), NewRecord(c))
  {
  }
}
