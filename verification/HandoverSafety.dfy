/** What every run of the hand-over guarantees. */
module HandoverSafety {
  import opened Common
  import opened Handover

  // ---------------------------------------------------------------------
  // Conservation of descriptors
  // ---------------------------------------------------------------------

  /** The numbers at which main holds server connections. */
  ghost function HeldNumbers(w: World): set<int> {
    set n | n in w.table && w.table[n].Backend?
  }

  /** The numbers at which main holds the connection of one TRANSFER message. */
  ghost function Holders(w: World, id: nat): set<int> {
    set n | n in w.table && w.table[n] == Backend(id)
  }

  /** After every run the server descriptors of main are those of the slots with a
      known entry, each at the number of its slot. */
  lemma {:induction false} HeldAreTheKnownSlots(c: Config, own: set<int>, es: seq<Event>)
    requires IsRun(c, own, es)
    ensures var w := Run(c, own, es);
            && HeldNumbers(w) == (set s | 0 <= s < c.max && w.known[s] != 0 :: Number(c, s))
            && (forall s :: InRange(c, s) && w.known[s] != 0 ==> w.known[s] == Number(c, s))
  {
    hide Run, Recorded;
    var w, r := Run(c, own, es), Recorded(c, es);
    EveryRunKeepsInv(c, own, es);
    var numbers := set s | 0 <= s < c.max && w.known[s] != 0 :: Number(c, s);
    forall s | InRange(c, s) ensures w.known[s] != 0 ==> w.known[s] == Number(c, s) && Number(c, s) in HeldNumbers(w) {
      assert SlotFine(c, w, r, s);
    }
    forall n | n in HeldNumbers(w) ensures n in numbers {
      assert IsSlotNumber(c, n);
      assert SlotFine(c, w, r, n - c.base);
      assert Number(c, n - c.base) == n;
    }
  }

  /** This needs a positive base: otherwise a descriptor that arrives at number 0 is held
      without a known entry. */
  lemma {:induction false} BaseMustBePositive(c: Config)
    requires c.base <= 0 && 0 < c.max
    ensures var e := Transfer(0, 0, true);
            && Possible(c, Start(c, {}), e)
            && var w := Step(c, Start(c, {}), e);
            HeldNumbers(w) == {0} && forall s :: InRange(c, s) ==> w.known[s] == 0
  {
    var w := Step(c, Start(c, {}), Transfer(0, 0, true));
    assert w.table == map[0 := Backend(1)];
    assert w.known[0] == 0;
  }

  /** A connection main received is held at the number of one slot while its transfer is
      live there, and nowhere else and at no other time. */
  lemma {:induction false} HeldOnceWhileLive(c: Config, own: set<int>, es: seq<Event>, id: nat)
    requires IsRun(c, own, es)
    ensures var w, r := Run(c, own, es), Recorded(c, es);
            && (forall s :: InRange(c, s) && r.live[s].Some? && r.live[s].value.id == id ==>
               Holders(w, id) == {Number(c, s)})
            && ((forall s :: InRange(c, s) && r.live[s].Some? ==> r.live[s].value.id != id) ==> Holders(w, id) == {})
  {
    hide Run, Recorded, Inv, Holders;
    var w, r := Run(c, own, es), Recorded(c, es);
    EveryRunKeepsInv(c, own, es);
    forall n | n in Holders(w, id)
      ensures InRange(c, n - c.base) && r.live[n - c.base].Some? && r.live[n - c.base].value.id == id
    {
      HolderIsLive(c, w, r, id, n);
    }
    forall s | InRange(c, s) && r.live[s].Some? && r.live[s].value.id == id ensures Holders(w, id) == {Number(c, s)} {
      OnlyHolder(c, w, r, id, s);
    }
  }

  lemma {:induction false} HolderIsLive(c: Config, w: World, r: Record, id: nat, n: int)
    requires Inv(c, w, r) && n in Holders(w, id)
    ensures InRange(c, n - c.base) && r.live[n - c.base].Some? && r.live[n - c.base].value.id == id
  {
    hide Different;
    assert IsSlotNumber(c, n);
    assert SlotFine(c, w, r, n - c.base);
    assert Number(c, n - c.base) == n;
  }

  lemma {:induction false} OnlyHolder(c: Config, w: World, r: Record, id: nat, s: int)
    requires Inv(c, w, r) && InRange(c, s) && r.live[s].Some? && r.live[s].value.id == id
    ensures Holders(w, id) == {Number(c, s)}
  {
    hide NoLeak;
    assert SlotFine(c, w, r, s);
    forall n | n in Holders(w, id) ensures n == Number(c, s) {
      HolderIsLive(c, w, r, id, n);
      assert Different(r, s, n - c.base);
    }
  }

  /** From record r0 to record r the latest transfer of a slot stayed, or was replaced by
      one that came later; if it stayed, it was not revived. */
  predicate Advances(r0: Record, r: Record, s: int)
    requires 0 <= s < |r0.latest| == |r.latest| == |r0.live| == |r.live|
  {
    && r0.count <= r.count && r0.received <= r.received
    && (r.latest[s] == r0.latest[s] ||
        (r.latest[s].Some? && r.latest[s].value.generation > r0.count && r.latest[s].value.id > r0.received))
    && (r.latest[s] == r0.latest[s] && r.live[s].Some? ==> r0.live[s] == r.live[s])
  }

  lemma {:induction false} StepAdvances(c: Config, w: World, r: Record, e: Event, s: int)
    requires Inv(c, w, r) && InRange(c, s)
    ensures Advances(r, Note(c, r, e), s)
  {
    hide Different, NoLeak;
    assert SlotFine(c, w, r, s);
  }

  lemma {:induction false} AdvancesFurther(r0: Record, r1: Record, r: Record, s: int)
    requires 0 <= s < |r0.latest| == |r.latest| == |r0.live| == |r.live| == |r1.latest| == |r1.live|
    requires Advances(r0, r1, s) && Advances(r1, r, s) && Counted(r0, s)
    ensures Advances(r0, r, s)
  {
  }

  lemma {:induction false} LatestOnlyAdvances(c: Config, own: set<int>, es: seq<Event>, k: nat, s: int)
    requires IsRun(c, own, es) && k <= |es| && InRange(c, s)
    ensures Advances(Recorded(c, es[..k]), Recorded(c, es), s)
    decreases |es|
  {
    hide Inv, Advances, Note, IsRun, Run;
    if k == |es| {
      assert es[..k] == es;
      Stays(Recorded(c, es), s);
    } else {
      var n := |es| - 1;
      RunPrefix(c, own, es, n);
      LatestOnlyAdvances(c, own, es[..n], k, s);
      assert es[..n][..k] == es[..k];
      EveryRunKeepsInv(c, own, es[..n]);
      StepAdvances(c, Run(c, own, es[..n]), Recorded(c, es[..n]), es[n], s);
      RunPrefix(c, own, es, k);
      RunKeepsSlot(c, own, es[..k], s);
      AdvancesFurther(Recorded(c, es[..k]), Recorded(c, es[..n]), Recorded(c, es), s);
    }
  }

  lemma {:induction false} Stays(r: Record, s: int)
    requires 0 <= s < |r.latest| == |r.live|
    ensures Advances(r, r, s)
  {
  }

  lemma {:induction false} RunKeepsSlot(c: Config, own: set<int>, es: seq<Event>, s: int)
    requires IsRun(c, own, es) && InRange(c, s)
    ensures SlotFine(c, Run(c, own, es), Recorded(c, es), s)
  {
    hide SlotFine, Run, Recorded, IsRun;
    EveryRunKeepsInv(c, own, es);
  }

  /** A connection that main has let go of never comes back. */
  lemma {:induction false} ReleasedForGood(c: Config, own: set<int>, es: seq<Event>, k: nat, id: nat)
    requires IsRun(c, own, es) && k <= |es|
    requires id <= Recorded(c, es[..k]).received && Holders(Run(c, own, es[..k]), id) == {}
    ensures Holders(Run(c, own, es), id) == {}
  {
    hide Run, Recorded, Holders, IsRun;
    var r, r0 := Recorded(c, es), Recorded(c, es[..k]);
    RunPrefix(c, own, es, k);
    forall s | InRange(c, s) && r.live[s].Some? ensures r.live[s].value.id != id {
      LatestOnlyAdvances(c, own, es, k, s);
      EveryRunKeepsInv(c, own, es);
      assert SlotFine(c, Run(c, own, es), r, s);
      HeldOnceWhileLive(c, own, es[..k], id);
    }
    HeldOnceWhileLive(c, own, es, id);
  }

  /** Main's open files after a TRANSFER, number by number, in every state. The descriptor
      arrives at fd, unless that is open already. For a slot in range an older descriptor of the
      slot that is not at the slot's number is closed; with a positive base the new one is moved
      to the slot's number, or closed if that fails; without one it stays where it is. */
  lemma {:induction false} FilesOfTransfer(c: Config, w: World, slot: int, fd: int, dup2Works: bool, readBack: int,
                                           n: int)
    requires Sized(c, w)
    ensures var table := TransferStep(c, w, slot, fd, dup2Works, readBack).table;
            var arrived := if fd in w.table then w.table[fd] else Backend(w.received + 1);
            var home := c.base + slot;
            if !(0 <= slot < c.max) then
              if n == fd then n !in table else SameFile(w.table, table, n)
            else
              var older := w.known[slot];
              var closed := older > 0 && older != home;
              if c.base > 0 && fd != home then
                var moved := dup2Works && !(closed && older == fd);
                if n == fd then n !in table
                else if n == home && moved then n in table && table[n] == arrived
                else if closed && n == older then n !in table
                else SameFile(w.table, table, n)
              else if closed && n == older then n !in table
              else if n == fd then n in table && table[n] == arrived
              else SameFile(w.table, table, n)
  {
  }

  /** What main remembers and publishes after a TRANSFER, in every state: for a descriptor it
      takes, the fd it reads back and the next generation; and nothing new otherwise. */
  lemma {:induction false} MemoryOfTransfer(c: Config, w: World, slot: int, fd: int, dup2Works: bool, readBack: int,
                                            s: int)
    requires Sized(c, w) && 0 <= s < c.max
    ensures var w' := TransferStep(c, w, slot, fd, dup2Works, readBack);
            var closed := 0 <= slot < c.max && w.known[slot] > 0 && w.known[slot] != c.base + slot;
            var taken := 0 <= slot < c.max
                         && (c.base <= 0 || fd == c.base + slot || (dup2Works && !(closed && w.known[slot] == fd)));
            && w'.received == w.received + 1 && w'.counter == w.counter + (if taken then 1 else 0)
            && (if taken && s == slot
                then w'.known[s] == readBack && w'.gens[s] == w'.counter && w'.shared[s] == Slot(readBack, w'.counter)
                else w'.known[s] == w.known[s] && w'.gens[s] == w.gens[s] && w'.shared[s] == w.shared[s])
  {
  }

  predicate SameFile(a: map<int, File>, b: map<int, File>, n: int) {
    if n in a then n in b && b[n] == a[n] else n !in b
  }

  /** A control message that is lost on the way reads as descriptor 0: main closes its own
      file 0 and keeps a copy of it for the slot. */
  lemma {:induction false} LostControlMessage()
    ensures var c := Config(1, 100);
            var w := TransferStep(c, Start(c, {0}), 0, 0, true, 100);
            CanStart(c, {0}) && w.table == map[100 := Own] && w.known == [100]
  {
  }

  /** A worker that clears the slot's fd between main's store and main's read of it leaves
      main with a descriptor it has no entry for. */
  lemma {:induction false} OverwrittenReadBack()
    ensures var c := Config(1, 100);
            var w := TransferStep(c, Start(c, {}), 0, 5, true, -1);
            CanStart(c, {}) && w.table == map[100 := Backend(1)] && w.known == [-1]
  {
    var c := Config(1, 100);
    var w := TransferStep(c, Start(c, {}), 0, 5, true, -1);
    assert w.table == map[100 := Backend(1)];
  }

  // ---------------------------------------------------------------------
  // KILL
  // ---------------------------------------------------------------------

  /** There are at most as many generations as steps. */
  lemma {:induction false} CounterIsBounded(c: Config, es: seq<Event>)
    ensures Recorded(c, es).count <= |es|
  {
    if es == [] {
    } else {
      CounterIsBounded(c, es[..|es| - 1]);
    }
  }

  /** A KILL acts exactly when it carries the generation of the transfer that is live in
      its slot; it then closes the descriptor of that slot and no other. So a late, a
      repeated, a zero and a pending generation change nothing. */
  lemma {:induction false} KillIsExact(c: Config, own: set<int>, es: seq<Event>, slot: int, g: int)
    requires IsRun(c, own, es) && |es| < LLONG_MAX
    ensures var w, r := Run(c, own, es), Recorded(c, es);
            var w' := Step(c, w, Kill(slot, g));
            var hit := InRange(c, slot) && r.live[slot].Some? && r.live[slot].value.generation == g;
            && (w' != w <==> hit)
            && (hit ==> w'.table == w.table - {Number(c, slot)} && Number(c, slot) in w.table)
            && (g <= 0 || g == PENDING || g > w.counter ==> w' == w)
            && Step(c, w', Kill(slot, g)) == w'
  {
    hide Run, Recorded;
    EveryRunKeepsInv(c, own, es);
    CounterIsBounded(c, es);
    if InRange(c, slot) {
      assert SlotFine(c, Run(c, own, es), Recorded(c, es), slot);
    }
  }

  /** A KILL leaves shared memory, the counter and the number of messages alone, and what main
      knows of every other slot. */
  ghost predicate OnlyOwnSlot(c: Config, w: World, w': World, slot: int)
    requires Sized(c, w) && Sized(c, w')
  {
    && w'.shared == w.shared && w'.counter == w.counter && w'.received == w.received
    && forall s :: InRange(c, s) && s != slot ==> w'.known[s] == w.known[s] && w'.gens[s] == w.gens[s]
  }

  /** In every state, reached or not: a KILL acts exactly if its slot is in range and main knows
      the slot under its generation, which is positive. Then main forgets the slot and closes
      the number it knew. */
  lemma {:induction false} KillChanges(c: Config, w: World, slot: int, g: int)
    requires Sized(c, w)
    ensures var w' := Step(c, w, Kill(slot, g));
            && OnlyOwnSlot(c, w, w', slot)
            && (if 0 <= slot < c.max && g > 0 && w.gens[slot] == g
                then
                  && w'.known[slot] == 0 && w'.gens[slot] == 0
                  && w.known[slot] !in w'.table
                  && forall n :: n != w.known[slot] ==>
                       (n in w'.table <==> n in w.table) && (n in w.table ==> w'.table[n] == w.table[n])
                else w' == w)
  {
  }

  /** After every run a KILL changes main's memory exactly if its generation is live in its
      slot, and then only the slot's own entries. */
  lemma {:induction false} KillForgetsItsSlot(c: Config, own: set<int>, es: seq<Event>, slot: int, g: int)
    requires IsRun(c, own, es) && |es| < LLONG_MAX
    ensures var w, r := Run(c, own, es), Recorded(c, es);
            var w' := Step(c, w, Kill(slot, g));
            && OnlyOwnSlot(c, w, w', slot)
            && (if InRange(c, slot) && r.live[slot].Some? && r.live[slot].value.generation == g
                then w'.known[slot] == 0 && w'.gens[slot] == 0 && w.known[slot] == Number(c, slot)
                else w' == w)
  {
    hide Run, Recorded, IsRun, Different, NoLeak, Step;
    var w, r := Run(c, own, es), Recorded(c, es);
    EveryRunKeepsInv(c, own, es);
    KillChanges(c, w, slot, g);
    if InRange(c, slot) {
      assert SlotFine(c, w, r, slot);
    }
  }

  /** Known generations are distinct, and none exceeds the counter. */
  lemma {:induction false} KnownGenerationsAreDistinct(c: Config, own: set<int>, es: seq<Event>, s: int, t: int)
    requires IsRun(c, own, es) && InRange(c, s) && InRange(c, t)
    ensures var w := Run(c, own, es);
            && 0 <= w.gens[s] <= w.counter
            && (s != t && w.gens[s] != 0 ==> w.gens[s] != w.gens[t])
  {
    hide Run, Recorded;
    var w, r := Run(c, own, es), Recorded(c, es);
    EveryRunKeepsInv(c, own, es);
    assert SlotFine(c, w, r, s) && SlotFine(c, w, r, t) && Different(r, s, t);
  }

  // ---------------------------------------------------------------------
  // Processes forked from main
  // ---------------------------------------------------------------------

  /** A transfer that is no longer live has been killed. */
  lemma {:induction false} NotLiveMeansKilled(c: Config, own: set<int>, es: seq<Event>, s: int)
    requires IsRun(c, own, es) && InRange(c, s)
    ensures var r := Recorded(c, es);
            r.latest[s].Some? && r.live[s].None? ==> Kill(s, r.latest[s].value.generation) in es
  {
    hide IsRun, Run, Inv, Note;
    if es == [] {
    } else {
      var n := |es| - 1;
      RunPrefix(c, own, es, n);
      NotLiveMeansKilled(c, own, es[..n], s);
      RunKeepsSlot(c, own, es[..n], s);
      KilledBy(c, Recorded(c, es[..n]), es[n], s);
      assert es[n] in es && forall e :: e in es[..n] ==> e in es;
    }
  }

  /** A slot stops being live by a KILL with its generation. */
  lemma {:induction false} KilledBy(c: Config, r: Record, e: Event, s: int)
    requires Covers(c, r) && InRange(c, s) && (r.live[s].Some? ==> r.latest[s] == r.live[s])
    ensures var r' := Note(c, r, e);
            r'.latest[s].Some? && r'.live[s].None? ==>
              e == Kill(s, r'.latest[s].value.generation) || (r.live[s].None? && r.latest[s] == r'.latest[s])
  {
  }

  /** The child forked in state m holds, at the number in its own copy of known, the
      connection that the generation in shared memory stands for. */
  ghost predicate HoldsCurrent(c: Config, m: World, w: World, r: Record, s: int)
    requires Sized(c, m) && Sized(c, w) && Covers(c, r) && InRange(c, s)
  {
    && r.latest[s].Some? && r.latest[s].value.generation == w.shared[s].generation
    && m.known[s] > 0 && m.known[s] in m.table && m.table[m.known[s]] == Backend(r.latest[s].value.id)
  }

  /** For a fork after k of the steps: the child holds the slot's descriptor exactly when
      the slot's generation is between 1 and the counter it was forked with, if main had
      not processed the KILL of that generation before. */
  lemma {:induction false} ForkInherits(c: Config, own: set<int>, es: seq<Event>, k: nat, s: int)
    requires IsRun(c, own, es) && |es| < LLONG_MAX && k <= |es| && InRange(c, s)
    ensures var m, w, r := Run(c, own, es[..k]), Run(c, own, es), Recorded(c, es);
            var g := w.shared[s].generation;
            && (HoldsCurrent(c, m, w, r, s) <==> 0 < g <= m.counter && m.known[s] > 0)
            && (Kill(s, g) !in es[..k] ==> (HoldsCurrent(c, m, w, r, s) <==> 0 < g <= m.counter))
  {
    hide Run, Recorded, IsRun;
    var m, w, r, r0 := Run(c, own, es[..k]), Run(c, own, es), Recorded(c, es), Recorded(c, es[..k]);
    RunPrefix(c, own, es, k);
    EveryRunKeepsInv(c, own, es);
    EveryRunKeepsInv(c, own, es[..k]);
    CounterIsBounded(c, es);
    CounterIsBounded(c, es[..k]);
    LatestOnlyAdvances(c, own, es, k, s);
    NotLiveMeansKilled(c, own, es[..k], s);
    ForkCases(c, m, r0, w, r, s);
  }

  lemma {:induction false} ForkCases(c: Config, m: World, r0: Record, w: World, r: Record, s: int)
    requires Inv(c, m, r0) && Inv(c, w, r) && InRange(c, s) && r0.count < PENDING && r.count < PENDING
    requires r.latest[s] == r0.latest[s] ||
             (r.latest[s].Some? && r.latest[s].value.generation > r0.count && r.latest[s].value.id > r0.received)
    ensures var g := w.shared[s].generation;
            && (HoldsCurrent(c, m, w, r, s) <==> 0 < g <= m.counter && m.known[s] > 0)
            && (0 < g <= m.counter ==>
                  r0.latest[s].Some? && r0.latest[s].value.generation == g && (r0.live[s].Some? <==> m.known[s] > 0))
  {
    hide Different, NoLeak;
    assert SlotFine(c, m, r0, s) && SlotFine(c, w, r, s);
  }

  /** The test a worker applies: the generation in shared memory is not above the
      counter of its own fork. */
  predicate HoldsDescriptor(c: Config, m: World, w: World, s: int)
    requires Sized(c, w) && InRange(c, s)
  {
    w.shared[s].generation <= m.counter
  }

  /** The test is right exactly when the generation is above the counter, or is not 0 and
      the worker's own copy of known has an entry. */
  lemma {:induction false} HoldsDescriptorIsExact(c: Config, own: set<int>, es: seq<Event>, k: nat, s: int)
    requires IsRun(c, own, es) && |es| < LLONG_MAX && k <= |es| && InRange(c, s)
    ensures var m, w, r := Run(c, own, es[..k]), Run(c, own, es), Recorded(c, es);
            var g := w.shared[s].generation;
            (HoldsDescriptor(c, m, w, s) <==> HoldsCurrent(c, m, w, r, s))
            <==> (g > m.counter || (g != 0 && m.known[s] > 0))
  {
    hide Run, Recorded, IsRun, HoldsCurrent;
    ForkInherits(c, own, es, k, s);
    EveryRunKeepsInv(c, own, es);
    assert SlotFine(c, Run(c, own, es), Recorded(c, es), s);
  }

  /** The window in which it is wrong: main has processed the KILL, and the worker that
      sent it has not cleared the generation yet. */
  lemma {:induction false} KilledBeforeTheFork()
    ensures var c, es := Config(1, 100), [Transfer(0, 5, true), Kill(0, 1)];
            && IsRun(c, {}, es)
            && var w := Run(c, {}, es);
            HoldsDescriptor(c, w, w, 0) && !HoldsCurrent(c, w, w, Recorded(c, es), 0)
  {
    var c, es := Config(1, 100), [Transfer(0, 5, true), Kill(0, 1)];
    assert es[..0] == [] && es[..1] == [Transfer(0, 5, true)] && es[..2] == es;
    assert es[..1][..0] == [];
    var w0, w1 := Run(c, {}, es[..0]), Run(c, {}, es[..1]);
    assert w0 == Start(c, {});
    assert w1 == Step(c, w0, Transfer(0, 5, true));
    assert Run(c, {}, es) == Step(c, w1, Kill(0, 1));
    assert w1.gens == [1] && w1.known == [100];
    assert Possible(c, w0, es[0]) && Possible(c, w1, es[1]);
    assert Run(c, {}, es).known == [0] && Run(c, {}, es).shared == [Slot(100, 1)];
  }

  // ---------------------------------------------------------------------
  // GET_FD
  // ---------------------------------------------------------------------

  /** A positive answer carries the generation of the live transfer. The descriptor main
      sends is the one of that transfer exactly if the number in shared memory is still
      the one main compared. */
  lemma {:induction false} ReplyNamesTheLiveTransfer(c: Config, own: set<int>, es: seq<Event>, slot: int, fdAtSend: int)
    requires IsRun(c, own, es)
    ensures var w, r := Run(c, own, es), Recorded(c, es);
            var reply := GetFdReply(c, w, slot, fdAtSend);
            && (reply.Refused? <==> !InRange(c, slot))
            && (reply.Answer? && reply.generation > 0 ==>
                  && r.live[slot].Some? && r.live[slot] == r.latest[slot]
                  && reply.generation == r.live[slot].value.generation
                  && (reply.sent == Some(Backend(r.live[slot].value.id)) <==> fdAtSend == w.shared[slot].fd))
            && (reply.Answer? && r.live[slot].Some? && w.shared[slot].fd == Number(c, slot) ==> reply.generation > 0)
  {
    hide Run, Recorded;
    var w, r := Run(c, own, es), Recorded(c, es);
    EveryRunKeepsInv(c, own, es);
    if InRange(c, slot) {
      assert SlotFine(c, w, r, slot);
      if r.live[slot].Some? {
        HeldOnceWhileLive(c, own, es, r.live[slot].value.id);
        assert Holders(w, r.live[slot].value.id) == {Number(c, slot)};
        assert fdAtSend in w.table && w.table[fdAtSend] == Backend(r.live[slot].value.id) ==>
               fdAtSend in Holders(w, r.live[slot].value.id);
      }
    }
  }

  /** Main's answer in every state: none for a bad slot; generation 0 and no descriptor if
      shared memory does not name the number main knows; and a descriptor exactly with a
      positive generation, if the number read for it is open. */
  lemma {:induction false} ReplyIs(c: Config, w: World, slot: int, fdAtSend: int)
    requires Sized(c, w)
    ensures var reply := GetFdReply(c, w, slot, fdAtSend);
            && (reply.Refused? <==> slot < 0 || c.max <= slot)
            && (reply.Answer? ==>
                  && (w.shared[slot].fd != w.known[slot] ==> reply == Answer(0, None))
                  && (w.shared[slot].fd == w.known[slot] ==> reply.generation == w.gens[slot])
                  && (reply.generation <= 0 ==> reply.sent == None)
                  && (reply.generation > 0 ==>
                        if fdAtSend in w.table then reply.sent == Some(w.table[fdAtSend]) else reply.sent == None))
  {
  }

  /** A case of the other kind: by the time it is sent, the number in shared memory is that
      of another slot, and so is the connection. */
  lemma {:induction false} AnotherIsSent()
    ensures var c, es := Config(2, 100), [Transfer(0, 5, true), Transfer(1, 5, true)];
            && IsRun(c, {}, es)
            && GetFdReply(c, Run(c, {}, es), 0, 101) == Answer(1, Some(Backend(2)))
            && Recorded(c, es).live[0] == Some(Copy(1, 1))
  {
    var c, es := Config(2, 100), [Transfer(0, 5, true), Transfer(1, 5, true)];
    FirstOfTwo();
    SecondOfTwo();
    assert es[..0] == [] && es[..1] == [es[0]];
  }

  function TwoSlots(k: nat): (w: World)
    requires k <= 2
    ensures Sized(Config(2, 100), w)
  {
    if k == 0 then World(map[], 0, [0, 0], [0, 0], 0, [Slot(-1, 0), Slot(-1, 0)])
    else if k == 1 then World(map[100 := Backend(1)], 1, [100, 0], [1, 0], 1, [Slot(100, 1), Slot(-1, 0)])
    else World(map[100 := Backend(1), 101 := Backend(2)], 2, [100, 101], [1, 2], 2, [Slot(100, 1), Slot(101, 2)])
  }

  lemma {:induction false} FirstOfTwo()
    ensures var c, e := Config(2, 100), Transfer(0, 5, true);
            && Run(c, {}, []) == TwoSlots(0) && Run(c, {}, [e]) == TwoSlots(1)
            && Possible(c, TwoSlots(0), e)
            && Recorded(c, [e]).live == [Some(Copy(1, 1)), None]
  {
    var c, e := Config(2, 100), Transfer(0, 5, true);
    assert [e][..0] == [];
    var w := Step(c, TwoSlots(0), e);
    assert w.table == TwoSlots(1).table;
    assert w == TwoSlots(1);
  }

  lemma {:induction false} SecondOfTwo()
    ensures var c, e, e' := Config(2, 100), Transfer(0, 5, true), Transfer(1, 5, true);
            && Run(c, {}, [e, e']) == TwoSlots(2)
            && Possible(c, TwoSlots(1), e')
            && Recorded(c, [e, e']).live[0] == Some(Copy(1, 1))
  {
    var c, e, e' := Config(2, 100), Transfer(0, 5, true), Transfer(1, 5, true);
    FirstOfTwo();
    assert [e, e'][..1] == [e];
    var w := Step(c, TwoSlots(1), e');
    assert w.table == TwoSlots(2).table;
    assert w == TwoSlots(2);
  }

  /** A worker that read a generation from shared memory after k steps, and gets that
      generation in an answer later, is sent the connection it asked for exactly if the
      number in shared memory is still the one main compared. */
  lemma {:induction false} FetchedIsTheExpected(c: Config, own: set<int>, es: seq<Event>, k: nat, slot: int,
                                                fdAtSend: int)
    requires IsRun(c, own, es) && |es| < LLONG_MAX && k <= |es| && InRange(c, slot)
    ensures var expected := Run(c, own, es[..k]).shared[slot].generation;
            var w := Run(c, own, es);
            var reply := GetFdReply(c, w, slot, fdAtSend);
            var asked := Recorded(c, es[..k]).latest[slot];
            reply.generation == expected && expected != 0 && expected != PENDING ==>
              && asked.Some? && asked.value.generation == expected
              && (reply.sent == Some(Backend(asked.value.id)) <==> fdAtSend == w.shared[slot].fd)
  {
    hide Run, Recorded, IsRun, GetFdReply;
    RunPrefix(c, own, es, k);
    EveryRunKeepsInv(c, own, es[..k]);
    assert SlotFine(c, Run(c, own, es[..k]), Recorded(c, es[..k]), slot);
    LatestOnlyAdvances(c, own, es, k, slot);
    ReplyNamesTheLiveTransfer(c, own, es, slot, fdAtSend);
  }
}
