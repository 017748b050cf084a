/** The table of flush deadlines and the callbacks that change it in place. */
module FlushAlarm {
  import opened Common
  import opened FlushTimer
  import opened FlushSafety

  /** The table and the watcher; clock and fired keep the last reading of the clock and
      the deadlines that went off. */
  class Timeouts {
    const slots: array<Slot>
    var started: bool
    var since: Time
    var delay: int
    var armings: nat
    ghost var clock: Time
    ghost var fired: seq<Firing>

    ghost function Abstract(): Timer
      reads this, slots
    {
      Timer(slots[..], started, since, delay, clock, armings, fired)
    }

    constructor (now: Time)
      ensures fresh(slots) && Abstract() == Start(now) && Inv(Abstract())
    {
      slots := new Slot[NUMBER_OF_LIMITS](_ => Slot(false, "", Time(0, 0), 0));
      started, since, delay, armings := false, now, 0, 0;
      clock, fired := now, [];
      new;
      assert slots[..] == Start(now).slots;
      StartIsOk(now);
    }

    /** start_periodic_watcher: a started watcher is stopped first. */
    method StartWatcher(delayMs: int, now: Time, starts: bool)
      modifies this`started, this`since, this`delay
      ensures started == starts
      ensures if starts then since == now && delay == delayMs else since == old(since) && delay == old(delay)
    {
      if started {
        StopWatcher();
      }
      if !starts {
        started := false;
        return;
      }
      since, delay := now, delayMs;
      started := true;
    }

    method StopWatcher()
      modifies this`started
      ensures !started
    {
      started := false;
    }

    /** rearm_flush_alarm: one alarm for the earliest of all deadlines. */
    method Rearm(now: Time, starts: bool)
      modifies this
      ensures Abstract() == Rearmed(old(Abstract()), now, starts)
    {
      var earliest := Time(0, 0);
      var have := false;
      ghost var ss := slots[..];
      for i := 0 to slots.Length
        invariant (if have then Some(earliest) else None) == Earliest(ss, i)
      {
        if !slots[i].inUse {
          continue;
        }
        if !have || Before(slots[i].expires, earliest) {
          earliest, have := slots[i].expires, true;
        }
      }
      clock := now;
      if !have {
        StopWatcher();
        return;
      }
      StartWatcher(DelayMs(earliest, now), now, starts);
    }

    /** The two scans of arm_flush_timeout. */
    method Choose(db: string) returns (slot: int)
      ensures slot == Chosen(slots[..], db)
    {
      slot := -1;
      var i := 0;
      while i < slots.Length
        invariant 0 <= i <= slots.Length
        invariant FirstNamed(slots[..], db, 0) == FirstNamed(slots[..], db, i)
      {
        if slots[i].inUse && slots[i].database == db {
          return i;
        }
        i := i + 1;
      }
      i := 0;
      while i < slots.Length
        invariant 0 <= i <= slots.Length
        invariant FirstFree(slots[..], 0) == FirstFree(slots[..], i)
      {
        if !slots[i].inUse {
          return i;
        }
        i := i + 1;
      }
    }

    /** arm_flush_timeout; now and later are the two readings of the clock. */
    method Arm(seconds: int, database: Option<string>, now: Time, later: Time, starts: bool)
      modifies this, slots
      ensures Abstract() == Step(old(Abstract()), Event.Arm(seconds, database, now, later, starts))
    {
      hide Earliest, Chosen;
      ghost var t := Abstract();
      var db := Target(database);
      if seconds <= 0 {
        clock := later;
        return;
      }
      var slot := Choose(db);
      if slot < 0 {
        clock := later;
        return;
      }
      armings := armings + 1;
      slots[slot] := Slot(true, Fitted(db), Expiry(now, seconds), armings);
      clock := now;
      assert Abstract() == Armed(t, seconds, db, now, slot);
      Rearm(later, starts);
      if !started {
        slots[slot] := Freed(slots[slot]);
      }
      assert Abstract() == Step(t, Event.Arm(seconds, database, now, later, starts));
    }

    /** flush_alarm_cb; returns the databases that are flushed. */
    method Alarm(now: Time, later: Time, starts: bool, active: nat -> int) returns (flushed: seq<string>)
      modifies this, slots
      ensures Abstract() == Step(old(Abstract()), Event.Alarm(now, later, starts))
      ensures flushed == Flushes(old(slots[..]), now, active, slots.Length)
    {
      hide Earliest;
      ghost var t := Abstract();
      StopWatcher();
      flushed := [];
      var i := 0;
      while i < slots.Length
        invariant 0 <= i <= slots.Length == |t.slots|
        invariant started == false && since == t.since && delay == t.delay && armings == t.armings && clock == t.clock
        invariant fired == t.fired + Firings(t.slots, now, i) && flushed == Flushes(t.slots, now, active, i)
        invariant forall j :: 0 <= j < i ==> slots[j] == Swept(t.slots, now)[j]
        invariant forall j :: i <= j < slots.Length ==> slots[j] == t.slots[j]
      {
        if slots[i].inUse && !Before(now, slots[i].expires) {
          var db := slots[i].database;
          fired := fired + [Firing(slots[i].arming, db, slots[i].expires, now)];
          slots[i] := Freed(slots[i]);
          if active(i) > 0 {
            flushed := flushed + [if db == "" then "*" else db];
          }
        }
        i := i + 1;
      }
      assert slots[..] == Swept(t.slots, now);
      Rearm(later, starts);
    }
  }
}
