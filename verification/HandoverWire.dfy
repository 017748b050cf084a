/** A KILL that is broken on its way, from the worker's writes to main's open files. */
module HandoverWire {
  import opened Common
  import opened Handover
  import opened HandoverMain
  import W = Wire

  /** Main's open files after a TRANSFER that brought no descriptor: main's own file 0 is
      moved to the slot's number, or closed. */
  function WithoutFile0(c: Config, table: map<int, File>, slot: int, dup2Works: bool): map<int, File>
    requires 0 in table
  {
    if InRange(c, slot) && dup2Works then table[Number(c, slot) := table[0]] - {0} else table - {0}
  }

  lemma {:induction false} File0IsTaken(c: Config, w: World, r: Record, slot: int, dup2Works: bool, readBack: int)
    requires Inv(c, w, r) && 0 in w.table
    ensures Sized(c, w) && w.table[0] == Own
    ensures TransferStep(c, w, slot, 0, dup2Works, readBack).table == WithoutFile0(c, w.table, slot, dup2Works)
  {
    hide Different, SlotShared, Counted;
    assert !IsSlotNumber(c, 0);
    if InRange(c, slot) {
      KnownIsOwnNumber(c, w, r, slot);
    }
  }

  /** A worker sends a KILL for a connection, and main reads what there is. If the id did not
      get out in full and the rest did, main takes it for a TRANSFER exactly if what it reads
      as the id is 0; then its own file 0 is gone. */
  method BrokenKill(main: Main, k: W.Kill, out: W.Calls, into: W.Calls, received: int, dup2Works: bool, readBack: int)
    returns (t: Option<W.Transfer>)
    requires main.Valid() && 0 in main.table
    requires W.CanWrite(out) && W.Completes(out.slot, 4) && W.Completes(out.generation, 8)
    requires W.CanRead(into, |W.SentKill(k, out)|)
    modifies main.Repr()
    ensures t.Some? <==>
              W.IdRead(k, W.Out(out.id, 4)) == W.CONNECTION_TRANSFER && W.Arrives(into.id, 4)
                  && W.Arrives(into.slot, 4) && 0 < received
    ensures t.Some? ==>
              && |W.SentKill(k, out)| >= 8 && t.value.slot == W.ReadInt32(W.SentKill(k, out)[4..8])
              && main.table == WithoutFile0(main.config, old(main.table), t.value.slot, dup2Works)
    ensures t.None? ==> main.table == old(main.table)
  {
    hide Inv, Note, TransferStep, W.Arrives, W.ReadInt32, W.SentKill, W.Completes, W.Out, W.CanRead, W.IdRead,
         W.Possible;
    var ok, wire := W.SendKill(k, out);
    W.IdOfBrokenKill(k, out);
    LongEnough(k, out);
    t := W.ReceiveTransfer(wire, into, received, None);
    if t.Some? {
      File0IsTaken(main.config, main.Abstract(), main.record, t.value.slot, dup2Works, readBack);
      var kept := main.Transfer(t.value.slot, t.value.fd, dup2Works, readBack);
    }
  }

  lemma {:induction false} LongEnough(k: W.Kill, out: W.Calls)
    requires W.Completes(out.slot, 4) && W.Completes(out.generation, 8)
    ensures |W.SentKill(k, out)| >= 12
  {
    hide W.Completes, W.Out, W.WriteInt32, W.WriteGeneration;
    W.OutIsComplete(out.slot, 4);
    W.OutIsComplete(out.generation, 8);
  }

  /** So it is for slot 0, wherever the write of the id breaks: main reads a TRANSFER, and with
      a generation below 2^32 the slot is 0 again. */
  lemma {:induction false} Slot0IsTransferred(k: W.Kill, out: W.Calls)
    requires k.slot == 0 && 0 <= k.generation < TWO_32
    requires W.Out(out.id, 4) < 4 && W.Completes(out.slot, 4) && W.Completes(out.generation, 8)
    ensures W.IdRead(k, W.Out(out.id, 4)) == W.CONNECTION_TRANSFER
    ensures |W.SentKill(k, out)| >= 8 && W.ReadInt32(W.SentKill(k, out)[4..8]) == 0
  {
    hide W.Completes, W.Out, W.WriteInt32, W.WriteGeneration, W.ReadInt32, W.Power256;
    LongEnough(k, out);
    var n, wire := W.Out(out.id, 4), W.SentKill(k, out);
    var slot, generation := W.WriteInt32(0), W.WriteGeneration(k.generation);
    W.OutIsComplete(out.slot, 4);
    W.OutIsComplete(out.generation, 8);
    assert slot[..4] == slot && generation[..8] == generation;
    ZeroBytes(k.generation);
    assert wire[4..8] == slot;
    W.Int32RoundTrip(0);
  }

  lemma {:induction false} ZeroBytes(g: W.int64)
    requires 0 <= g < TWO_32
    ensures W.WriteInt32(0) == [0, 0, 0, 0] && W.WriteGeneration(g)[..4] == [0, 0, 0, 0]
  {
    assert W.ToUnsigned64(g) / TWO_32 == 0;
  }
}
