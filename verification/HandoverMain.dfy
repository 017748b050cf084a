/** The process memory of main that the hand-over works on, and the callbacks that
    change it in place. */
module HandoverMain {
  import opened Common
  import opened Handover

  // ---------------------------------------------------------------------
  // The range of descriptor numbers
  // ---------------------------------------------------------------------

  const MAX_INT := 0x7FFF_FFFF

  /** The value an int gets from an unsigned 64-bit number: its low 32 bits. */
  function ToInt32(x: int): int {
    var low := x % TWO_32;
    if low > MAX_INT then low - TWO_32 else low
  }

  lemma {:induction false} SmallInt(x: int)
    requires -TWO_32 / 2 <= x <= MAX_INT
    ensures ToInt32(x % TWO_64) == x
  {
    if x < 0 {
      assert x % TWO_64 == x + TWO_64;
      assert (x + TWO_64) % TWO_32 == x + TWO_32;
    }
  }

  lemma {:induction false} Wraps(x: int)
    requires -TWO_64 < x < TWO_64
    ensures x % TWO_64 == if x < 0 then x + TWO_64 else x
  {
  }

  /** The startup check and the choice of the base; the limit is unsigned, so a limit below
      30 wraps and lets every max_connections pass. With a limit of at least 30 the numbers
      of the slots, base to base + max - 1, are positive and below the limit; with a smaller
      one they are exactly if there are fewer slots than the limit. */
  method ChooseBase(limit: nat, max: nat) returns (base: Option<int>)
    requires limit < TWO_64 && max <= MAX_INT
    ensures base.None? <==> 30 <= limit && max > limit - 30
    ensures base.Some? ==> (0 < base.value && base.value + max <= limit <==> max < limit)
    ensures base.Some? && 30 <= limit ==> 30 <= base.value <= 1024 && base.value + max <= limit
    ensures base.Some? && 30 <= limit ==> base.value == 1024 || base.value + max == limit
    ensures base.Some? && limit <= max ==> limit < 30 && base.value == limit - max
  {
    hide ToInt32;
    Wraps(limit - 30);
    if max > (limit - 30) % TWO_64 {
      return None;
    }
    var top := limit;
    if top > max + 1024 {
      top := max + 1024;
    }
    SmallInt(top - max);
    base := Some(ToInt32((top - max) % TWO_64));
  }

  // ---------------------------------------------------------------------
  // Main
  // ---------------------------------------------------------------------

  class Main {
    const config: Config
    const known: array<int>
    const gens: array<int>
    const shared: array<Slot>
    var counter: int
    var table: map<int, File>
    var received: nat
    ghost var record: Record
    ghost var badCloses: nat

    ghost function Repr(): set<object> {
      {this, known, gens, shared}
    }

    ghost function Abstract(): World
      reads Repr()
    {
      World(table, received, known[..], gens[..], counter, shared[..])
    }

    ghost predicate Shaped()
      reads Repr()
    {
      known != gens && Sized(config, Abstract()) && Covers(config, record)
    }

    /** Main's memory and its open files agree, and no close has missed. */
    ghost predicate Valid()
      reads Repr()
    {
      Shaped() && Inv(config, Abstract(), record) && badCloses == 0
    }

    constructor (c: Config, own: set<int>)
      ensures Shaped() && config == c && fresh(Repr()) && Abstract() == Start(c, own) && record == NewRecord(c)
      ensures CanStart(c, own) ==> Valid()
    {
      config := c;
      known := new int[c.max](_ => 0);
      gens := new int[c.max](_ => 0);
      shared := new Slot[c.max](_ => Slot(-1, 0));
      counter := 0;
      table := map n | n in own :: Own;
      received, record, badCloses := 0, NewRecord(c), 0;
      new;
      if CanStart(c, own) {
        StartIsFine(c, own);
      }
      assert known[..] == Start(c, own).known && gens[..] == Start(c, own).gens && shared[..] == Start(c, own).shared;
    }

    /** Closing a number that is not open does nothing, but is counted. */
    method Disconnect(fd: int)
      modifies this`table, this`badCloses
      ensures table == old(table) - {fd}
      ensures badCloses == old(badCloses) + if fd in old(table) then 0 else 1
    {
      if fd !in table {
        badCloses := badCloses + 1;
      }
      table := table - {fd};
    }

    method Dup2(fd: int, target: int, works: bool) returns (ok: bool)
      modifies this`table
      ensures ok == (works && fd in old(table))
      ensures table == if ok then old(table)[target := old(table)[fd]] else old(table)
    {
      ok := works && fd in table;
      if ok {
        table := table[target := table[fd]];
      }
    }

    /** An older descriptor of the slot that is not at the slot's number is closed. */
    method CloseMisplaced(slot: int)
      requires 0 <= slot < known.Length
      modifies this`table, this`badCloses
      ensures table ==
              if known[slot] > 0 && known[slot] != config.base + slot then old(table) - {known[slot]} else old(table)
      ensures known[slot] == 0 || known[slot] == config.base + slot ==> badCloses == old(badCloses)
    {
      if known[slot] > 0 && known[slot] != config.base + slot {
        Disconnect(known[slot]);
      }
    }

    /** Moves a descriptor to the slot's number; what was there is replaced. On failure the
        descriptor is closed and nothing else changes. */
    method Place(slot: int, fd: int, dup2Works: bool) returns (ok: bool, at: int)
      modifies this`table, this`badCloses
      ensures ok == Moves(config, old(table), slot, fd, dup2Works)
      ensures !ok ==> table == old(table) - {fd}
      ensures ok ==>
                && at == Home(config, slot, fd)
                && table == if at == fd then old(table) else old(table)[at := old(table)[fd]] - {fd}
      ensures fd in old(table) ==> badCloses == old(badCloses)
    {
      if config.base > 0 && fd != config.base + slot {
        var moved := Dup2(fd, config.base + slot, dup2Works);
        Disconnect(fd);
        return moved, config.base + slot;
      }
      return true, fd;
    }

    /** The kernel installs a received descriptor. */
    method Receive(fd: int)
      modifies this`table, this`received
      ensures received == old(received) + 1
      ensures table == if fd in old(table) then old(table) else old(table)[fd := Backend(received)]
    {
      received := received + 1;
      if fd !in table {
        table := table[fd := Backend(received)];
      }
    }

    /** What a TRANSFER does to the open files. */
    method Take(slot: int, fd: int, dup2Works: bool) returns (ok: bool, at: int)
      requires Shaped()
      modifies this`table, this`received, this`badCloses
      ensures received == old(received) + 1
      ensures table == FilesAfter(config, old(Abstract()), slot, fd, dup2Works)
      ensures ok == Takes(config, old(Abstract()), slot, fd, dup2Works)
      ensures ok ==> at == Home(config, slot, fd)
      ensures Tidy(slot) && fd !in old(table) ==> badCloses == old(badCloses)
    {
      Receive(fd);
      if slot < 0 || slot >= config.max {
        Disconnect(fd);
        return false, 0;
      }
      CloseMisplaced(slot);
      ok, at := Place(slot, fd, dup2Works);
    }

    predicate Tidy(slot: int)
      reads this, known
    {
      0 <= slot < known.Length ==> known[slot] == 0 || known[slot] == config.base + slot
    }

    /** CONNECTION_TRANSFER. readBack is what the slot's fd in shared memory is when main reads
        it back. If the descriptor has arrived and nobody has written the slot, the new state is
        as good as the old one, and every close has hit an open number. */
    method Transfer(slot: int, fd: int, dup2Works: bool, readBack: int) returns (ok: bool)
      requires Shaped()
      modifies Repr()
      ensures Shaped()
      ensures Abstract() == TransferStep(config, old(Abstract()), slot, fd, dup2Works, readBack)
      ensures record == Note(config, old(record), Event.Transfer(slot, fd, dup2Works))
      ensures counter == old(counter) + if ok then 1 else 0
      ensures old(Valid()) && 0 <= fd && fd !in old(table) && readBack == Home(config, slot, fd) ==>
                Valid() && ok == Kept(config, slot, fd, dup2Works)
    {
      hide Inv, Note, Incoming, Moves, FilesAfter;
      ghost var w := Abstract();
      if Valid() && 0 <= fd && fd !in table {
        TransferIsFine(config, w, record, slot, fd, dup2Works);
      }
      var at;
      ok, at := Take(slot, fd, dup2Works);
      if ok {
        Publish(slot, at, readBack);
      }
      record := Note(config, record, Event.Transfer(slot, fd, dup2Works));
    }

    /** The stores to shared memory and to main's own arrays. */
    method Publish(slot: int, at: int, readBack: int)
      requires Shaped() && InRange(config, slot)
      modifies this`counter, known, gens, shared
      ensures known[..] == old(known[..])[slot := readBack] && counter == old(counter) + 1
      ensures gens[..] == old(gens[..])[slot := counter]
              && shared[..] == old(shared[..])[slot := Slot(readBack, counter)]
    {
      shared[slot] := shared[slot].(fd := at);
      shared[slot] := shared[slot].(fd := readBack);
      known[slot] := shared[slot].fd;
      counter := counter + 1;
      shared[slot] := shared[slot].(generation := counter);
      gens[slot] := counter;
    }

    /** CONNECTION_KILL. */
    method Kill(slot: int, generation: int) returns (ok: bool)
      requires Shaped()
      modifies Repr()
      ensures Shaped() && ok == InRange(config, slot)
      ensures Abstract() == Step(config, old(Abstract()), Event.Kill(slot, generation))
      ensures record == Note(config, old(record), Event.Kill(slot, generation))
      ensures old(Valid()) ==> Valid()
    {
      hide Inv;
      ghost var e := Event.Kill(slot, generation);
      if Valid() {
        StepKeepsInv(config, Abstract(), record, e);
      }
      if slot < 0 || slot >= config.max {
        return false;
      }
      if Valid() {
        KnownIsOwnNumber(config, Abstract(), record, slot);
      }
      record := Note(config, record, e);
      if generation > 0 && gens[slot] == generation {
        Disconnect(known[slot]);
        known[slot] := 0;
        gens[slot] := 0;
      }
      return true;
    }

    /** CONNECTION_GET_FD; fdAtSend is what the slot's fd in shared memory is by the time
        the descriptor is sent. */
    method GetFd(slot: int, fdAtSend: int) returns (reply: Reply)
      requires Shaped()
      ensures reply == GetFdReply(config, Abstract(), slot, fdAtSend)
    {
      if slot < 0 || slot >= config.max {
        return Refused;
      }
      var generation := gens[slot];
      if shared[slot].fd != known[slot] {
        generation := 0;
      }
      if generation > 0 {
        return Answer(generation, if fdAtSend in table then Some(table[fdAtSend]) else None);
      }
      return Answer(generation, None);
    }
  }

  lemma {:induction false} TransferIsFine(c: Config, w: World, r: Record, slot: int, fd: int, dup2Works: bool)
    requires Inv(c, w, r) && 0 <= fd && fd !in w.table
    ensures Sized(c, w) && Covers(c, r)
    ensures var r' := Note(c, r, Event.Transfer(slot, fd, dup2Works));
            Inv(c, TransferStep(c, w, slot, fd, dup2Works, Home(c, slot, fd)), r')
    ensures Takes(c, w, slot, fd, dup2Works) == Kept(c, slot, fd, dup2Works)
    ensures InRange(c, slot) ==> w.known[slot] == 0 || w.known[slot] == c.base + slot
  {
    hide Inv, TransferStep, Note;
    StepKeepsInv(c, w, r, Event.Transfer(slot, fd, dup2Works));
    FullKnown(c, w, r);
    if InRange(c, slot) {
      KnownIsOwnNumber(c, w, r, slot);
    }
  }

  /** The entry of a slot names the slot's own number, and that number is open. */
  lemma {:induction false} KnownIsOwnNumber(c: Config, w: World, r: Record, slot: int)
    requires Inv(c, w, r) && InRange(c, slot)
    ensures 0 < c.base && Sized(c, w) && Covers(c, r)
    ensures w.known[slot] == 0 || w.known[slot] == c.base + slot
    ensures w.known[slot] != 0 ==> w.known[slot] in w.table
    ensures w.gens[slot] > 0 ==> w.known[slot] != 0
  {
    assert SlotFine(c, w, r, slot);
  }

  // ---------------------------------------------------------------------
  // A process forked from main
  // ---------------------------------------------------------------------

  /** The copy a forked process has of main's memory. */
  class Child {
    const config: Config
    const known: array<int>
    var table: map<int, File>

    /** The child is forked while main is in state w. */
    constructor (c: Config, ghost w: World, fds: seq<int>, open: map<int, File>)
      requires Sized(c, w) && fds == w.known && open == w.table
      ensures config == c && known[..] == w.known && table == w.table && fresh(known)
    {
      config := c;
      known := new int[|fds|](i requires 0 <= i < |fds| => fds[i]);
      table := open;
    }

    /** Closes what the child's copy of known names, except the descriptor it uses. */
    method CloseInherited(serverFd: int)
      requires known.Length == config.max
      modifies this`table, known
      ensures table == old(table) - Inherited(old(known[..]), serverFd, config.max)
      ensures forall s :: 0 <= s < known.Length ==> known[s] == 0
    {
      ghost var was := known[..];
      var i := 0;
      while i < config.max
        invariant 0 <= i <= config.max == known.Length == |was|
        invariant forall s :: 0 <= s < i ==> known[s] == 0
        invariant forall s :: i <= s < known.Length ==> known[s] == was[s]
        invariant table == old(table) - Inherited(was, serverFd, i)
      {
        if known[i] > 0 && known[i] != serverFd {
          table := table - {known[i]};
        }
        known[i] := 0;
        i := i + 1;
      }
    }
  }

  /** The numbers the first i entries name, without the one in use. */
  function Inherited(known: seq<int>, serverFd: int, i: nat): set<int>
    requires i <= |known|
  {
    if i == 0 then {}
    else
      var n, before := known[i - 1], Inherited(known, serverFd, i - 1);
      if n > 0 && n != serverFd then before + {n} else before
  }

  lemma {:induction false} InheritedAre(known: seq<int>, serverFd: int, i: nat, n: int)
    requires i <= |known|
    ensures n in Inherited(known, serverFd, i) <==> n > 0 && n != serverFd && exists s :: 0 <= s < i && known[s] == n
  {
    if i == 0 {
    } else {
      InheritedAre(known, serverFd, i - 1, n);
    }
  }

  /** For a child of a main whose memory is in order, those are all the server descriptors it
      was born with, except the one in use. */
  lemma {:induction false} InheritedAreTheBackends(c: Config, w: World, r: Record, serverFd: int, n: int)
    requires Inv(c, w, r)
    ensures |w.known| == c.max
    ensures n in w.table ==> (n in Inherited(w.known, serverFd, c.max) <==> n != serverFd && w.table[n].Backend?)
  {
    hide Different, SlotShared, Counted;
    InheritedAre(w.known, serverFd, c.max, n);
    if n in w.table && IsSlotNumber(c, n) {
      assert SlotFine(c, w, r, n - c.base);
      assert w.known[n - c.base] == n;
    }
    forall s | 0 <= s < c.max && w.known[s] == n && n > 0 ensures n in w.table && IsSlotNumber(c, n) {
      assert SlotFine(c, w, r, s);
    }
  }

  lemma {:induction false} FullKnown(c: Config, w: World, r: Record)
    requires Inv(c, w, r)
    ensures Sized(c, w) && Covers(c, r)
  {
  }
}
