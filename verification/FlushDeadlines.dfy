/** What arming and firing mean in seconds and nanoseconds, for one step and over runs. */
module FlushDeadlines {
  import opened Common
  import opened FlushTimer
  import opened FlushSafety

  // ---------------------------------------------------------------------
  // One step
  // ---------------------------------------------------------------------

  /** The name a flush is for: without one it is for all databases. */
  predicate IsFor(database: Option<string>, db: string) {
    if database == None || database == Some("") then db == "*" else database == Some(db)
  }

  /** The slot that is picked: the first that is in use for the name, or the first free one if
      there is none. */
  ghost predicate Picks(ss: seq<Slot>, db: string, k: int) {
    && 0 <= k < |ss|
    && if exists i :: 0 <= i < |ss| && Named(ss[i], db)
       then Named(ss[k], db) && forall j :: 0 <= j < k ==> !Named(ss[j], db)
       else !ss[k].inUse && forall j :: 0 <= j < k ==> ss[j].inUse
  }

  /** The name as it is stored: as much of it as a field of 256 bytes holds. */
  predicate StoredAs(db: string, name: string) {
    name <= db && |name| == if |db| < 256 then |db| else 255
  }

  lemma {:induction false} NamePicks(t: Timer, e: Event, db: string)
    requires e.Arm? && IsFor(e.database, db)
    ensures Target(e.database) == db && StoredAs(db, Fitted(db))
    ensures var k := Chosen(t.slots, db);
            if 0 <= k then Picks(t.slots, db, k)
            else forall i :: 0 <= i < |t.slots| ==> t.slots[i].inUse && !Named(t.slots[i], db)
  {
  }

  /** Arming for some seconds: with a slot to pick, that slot gets the deadline now + seconds,
      and no other slot changes; if the timer does not start, the slot is given up. Without a
      slot, or for no time, nothing changes. */
  lemma {:induction false} ArmSetsTheDeadline(t: Timer, e: Event, db: string)
    requires e.Arm? && IsFor(e.database, db)
    ensures var t', k := Step(t, e), Chosen(t.slots, db);
            if e.seconds <= 0 || k < 0 then t' == t.(clock := e.later)
            else
              && Picks(t.slots, db, k) && t'.slots == t.slots[k := t'.slots[k]]
              && t'.fired == t.fired && t'.armings == t.armings + 1 && t'.started == e.starts
              && var s := t'.slots[k];
              if e.starts then
                && s.inUse && StoredAs(db, s.database) && s.arming == t'.armings && t'.since == e.later
                && Nanos(s.expires) == Nanos(e.now) + e.seconds * 1_000_000_000
                && s.expires.nsec == e.now.nsec
              else !s.inUse && s.database == ""
  {
    hide Chosen, Earliest;
    NamePicks(t, e, db);
    var k := Chosen(t.slots, db);
    if 0 < e.seconds && 0 <= k {
      var a := Armed(t, e.seconds, db, e.now, k);
      assert a.slots[k].inUse;
    }
  }

  /** The alarm goes off: every slot whose deadline has come is freed and recorded once, the
      others stay, and while there are some the timer runs from the later reading on. */
  lemma {:induction false} AlarmFreesTheDue(t: Timer, e: Event, i: nat)
    requires Table(t) && Possible(t, e) && e.Alarm? && i < |t.slots|
    ensures var t', s := Step(t, e), t.slots[i];
            && t'.armings == t.armings && (t'.started ==> t'.since == e.later)
            && (t'.started <==> e.starts && SomeInUse(t'.slots))
            && (if s.inUse && Nanos(s.expires) <= Nanos(e.now) then !t'.slots[i].inUse && t'.slots[i].database == ""
                else t'.slots[i] == s)
  {
    hide FiredOk, Distinct;
    SlotIsOk(t, i);
    if t.slots[i].inUse {
      BeforeIsNanos(e.now, t.slots[i].expires);
    }
    assert Step(t, e).slots == Swept(t.slots, e.now);
  }

  /** The slots among the first n whose deadline has come. */
  ghost function DueBelow(ss: seq<Slot>, now: Time, n: nat): set<int>
    requires n <= |ss|
  {
    set j | 0 <= j < n && Due(ss[j], now)
  }

  /** As many firings as deadlines that have come. */
  lemma {:induction false} FiringsCount(ss: seq<Slot>, now: Time, n: nat)
    requires n <= |ss|
    ensures |Firings(ss, now, n)| == |DueBelow(ss, now, n)|
  {
    if n == 0 {
      assert DueBelow(ss, now, n) == {};
    } else {
      FiringsCount(ss, now, n - 1);
      var was := DueBelow(ss, now, n - 1);
      assert DueBelow(ss, now, n) == if Due(ss[n - 1], now) then was + {n - 1} else was;
    }
  }

  ghost function FlushedBelow(ss: seq<Slot>, now: Time, active: nat -> int, n: nat): set<int>
    requires n <= |ss|
  {
    set j | 0 <= j < n && Due(ss[j], now) && active(j) > 0
  }

  /** As many flushes as deadlines that have come while there were active connections. */
  lemma {:induction false} FlushesCount(ss: seq<Slot>, now: Time, active: nat -> int, n: nat)
    requires n <= |ss|
    ensures |Flushes(ss, now, active, n)| == |FlushedBelow(ss, now, active, n)|
  {
    if n == 0 {
      assert FlushedBelow(ss, now, active, n) == {};
    } else {
      FlushesCount(ss, now, active, n - 1);
      var was := FlushedBelow(ss, now, active, n - 1);
      assert FlushedBelow(ss, now, active, n) ==
             if Due(ss[n - 1], now) && active(n - 1) > 0 then was + {n - 1} else was;
    }
  }

  // ---------------------------------------------------------------------
  // Runs
  // ---------------------------------------------------------------------

  /** The deadline of an arming goes back to a call in the run that asked for it. */
  ghost predicate Traced(clock: Time, es: seq<Event>, arming: nat, name: string, deadline: Time) {
    exists j :: 0 <= j < |es| && AskedAt(clock, es, j, arming, name, deadline)
  }

  ghost predicate AskedAt(clock: Time, es: seq<Event>, j: nat, arming: nat, name: string, deadline: Time)
    requires j < |es|
  {
    && es[j].Arm? && 0 < es[j].seconds && Run(clock, es[..j]).armings + 1 == arming
    && (exists db :: IsFor(es[j].database, db) && StoredAs(db, name))
    && Nanos(deadline) == Nanos(es[j].now) + es[j].seconds * 1_000_000_000
  }

  ghost predicate AllTraced(clock: Time, es: seq<Event>, t: Timer) {
    && (forall i :: 0 <= i < |t.slots| && t.slots[i].inUse ==>
          Traced(clock, es, t.slots[i].arming, t.slots[i].database, t.slots[i].expires))
    && (forall i :: 0 <= i < |t.fired| ==>
          Traced(clock, es, t.fired[i].arming, t.fired[i].database, t.fired[i].deadline))
  }

  lemma {:induction false} TracedGrows(clock: Time, es: seq<Event>, e: Event, arming: nat, name: string, deadline: Time)
    requires Traced(clock, es, arming, name, deadline)
    ensures Traced(clock, es + [e], arming, name, deadline)
  {
    hide Run, IsFor, StoredAs;
    var j :| 0 <= j < |es| && AskedAt(clock, es, j, arming, name, deadline);
    assert (es + [e])[..j] == es[..j] && (es + [e])[j] == es[j];
    assert AskedAt(clock, es + [e], j, arming, name, deadline);
  }

  lemma {:induction false} NewIsTraced(clock: Time, es: seq<Event>, e: Event, db: string, s: Slot)
    requires e.Arm? && 0 < e.seconds && IsFor(e.database, db) && StoredAs(db, s.database)
    requires s.arming == Run(clock, es).armings + 1 && Nanos(s.expires) == Nanos(e.now) + e.seconds * 1_000_000_000
    ensures Traced(clock, es + [e], s.arming, s.database, s.expires)
  {
    hide Run, IsFor, StoredAs;
    assert (es + [e])[..|es|] == es && (es + [e])[|es|] == e;
    assert AskedAt(clock, es + [e], |es|, s.arming, s.database, s.expires);
  }

  lemma {:induction false} StepIsTraced(clock: Time, es: seq<Event>, e: Event)
    requires Table(Run(clock, es)) && AllTraced(clock, es, Run(clock, es))
    ensures AllTraced(clock, es + [e], Step(Run(clock, es), e))
  {
    hide Run, Traced, Table, Step;
    var t := Run(clock, es);
    if e.Arm? {
      var db := if e.database == None || e.database == Some("") then "*" else e.database.value;
      ArmSetsTheDeadline(t, e, db);
      ArmIsTraced(clock, es, e, db);
    } else {
      AlarmIsTraced(clock, es, e);
    }
  }

  lemma {:induction false} ArmIsTraced(clock: Time, es: seq<Event>, e: Event, db: string)
    requires e.Arm? && IsFor(e.database, db) && AllTraced(clock, es, Run(clock, es))
    ensures AllTraced(clock, es + [e], Step(Run(clock, es), e))
  {
    hide Run, Traced, Step, IsFor, StoredAs, Picks;
    var t := Run(clock, es);
    var t', k := Step(t, e), Chosen(t.slots, db);
    ArmSetsTheDeadline(t, e, db);
    forall i | 0 <= i < |t'.slots| && t'.slots[i].inUse
      ensures Traced(clock, es + [e], t'.slots[i].arming, t'.slots[i].database, t'.slots[i].expires)
    {
      if 0 < e.seconds && 0 <= k && i == k {
        NewIsTraced(clock, es, e, db, t'.slots[i]);
      } else {
        assert t'.slots[i] == t.slots[i];
        TracedGrows(clock, es, e, t.slots[i].arming, t.slots[i].database, t.slots[i].expires);
      }
    }
    forall i | 0 <= i < |t'.fired|
      ensures Traced(clock, es + [e], t'.fired[i].arming, t'.fired[i].database, t'.fired[i].deadline)
    {
      TracedGrows(clock, es, e, t.fired[i].arming, t.fired[i].database, t.fired[i].deadline);
    }
  }

  lemma {:induction false} AlarmIsTraced(clock: Time, es: seq<Event>, e: Event)
    requires e.Alarm? && Table(Run(clock, es)) && AllTraced(clock, es, Run(clock, es))
    ensures AllTraced(clock, es + [e], Step(Run(clock, es), e))
  {
    hide Run, Traced, FiredOk, Distinct;
    var t, t' := Run(clock, es), Step(Run(clock, es), e);
    forall i | 0 <= i < |t'.slots| && t'.slots[i].inUse
      ensures Traced(clock, es + [e], t'.slots[i].arming, t'.slots[i].database, t'.slots[i].expires)
    {
      assert t'.slots[i] == Swept(t.slots, e.now)[i] == t.slots[i];
      TracedGrows(clock, es, e, t.slots[i].arming, t.slots[i].database, t.slots[i].expires);
    }
    forall i | 0 <= i < |t'.fired|
      ensures Traced(clock, es + [e], t'.fired[i].arming, t'.fired[i].database, t'.fired[i].deadline)
    {
      if i < |t.fired| {
        TracedGrows(clock, es, e, t.fired[i].arming, t.fired[i].database, t.fired[i].deadline);
      } else {
        var j := FiringHasASlot(t, e.now, i - |t.fired|);
        TracedGrows(clock, es, e, t.slots[j].arming, t.slots[j].database, t.slots[j].expires);
      }
    }
  }

  lemma {:induction false} EveryRunIsTraced(clock: Time, es: seq<Event>)
    requires IsRun(clock, es)
    ensures AllTraced(clock, es, Run(clock, es))
  {
    hide AllTraced, Table, Step, Possible, NameFits;
    if es == [] {
      NothingToTrace(clock);
    } else {
      var n := |es| - 1;
      RunPrefix(clock, es, n);
      EveryRunIsTraced(clock, es[..n]);
      EveryRunKeepsTable(clock, es[..n]);
      StepIsTraced(clock, es[..n], es[n]);
      assert es[..n] + [es[n]] == es;
    }
  }

  lemma {:induction false} NothingToTrace(clock: Time)
    ensures AllTraced(clock, [], Start(clock))
  {
  }

  /** Over every run: what fires was asked for by a call of the run, for its name, and fires no
      sooner than as many seconds after that call as it asked for. */
  lemma {:induction false} NotBeforeItsTime(clock: Time, es: seq<Event>, i: nat) returns (j: nat)
    requires IsRun(clock, es) && i < |Run(clock, es).fired|
    ensures j < |es| && es[j].Arm? && 0 < es[j].seconds
    ensures var f := Run(clock, es).fired[i];
            && f.arming == Run(clock, es[..j]).armings + 1
            && (exists db :: IsFor(es[j].database, db) && StoredAs(db, f.database))
            && Nanos(es[j].now) + es[j].seconds * 1_000_000_000 == Nanos(f.deadline) <= Nanos(f.at)
  {
    hide Run, IsFor, StoredAs, Table;
    var f := Run(clock, es).fired[i];
    EveryRunIsTraced(clock, es);
    assert Traced(clock, es, f.arming, f.database, f.deadline);
    j :| 0 <= j < |es| && AskedAt(clock, es, j, f.arming, f.database, f.deadline);
    EveryRunKeepsTable(clock, es);
    FiredLate(clock, es, i);
  }

  /** A firing is not before its deadline, in nanoseconds. */
  lemma {:induction false} FiredLate(clock: Time, es: seq<Event>, i: nat)
    requires IsRun(clock, es) && i < |Run(clock, es).fired|
    ensures var f := Run(clock, es).fired[i];
            IsTime(f.at) && IsTime(f.deadline) && Nanos(f.deadline) <= Nanos(f.at)
  {
    hide Step, Possible, NameFits, Table;
    var n := |es| - 1;
    assert es != [];
    RunPrefix(clock, es, n);
    var t, e := Run(clock, es[..n]), es[n];
    EveryRunKeepsTable(clock, es[..n]);
    assert Possible(t, e);
    FiredSoFar(t, e, i);
    if i < |t.fired| {
      FiredLate(clock, es[..n], i);
    }
  }

  lemma {:induction false} FiredSoFar(t: Timer, e: Event, i: nat)
    requires Table(t) && Possible(t, e) && i < |Step(t, e).fired|
    ensures var f := Step(t, e).fired[i];
            if i < |t.fired| then f == t.fired[i]
            else IsTime(f.at) && IsTime(f.deadline) && Nanos(f.deadline) <= Nanos(f.at)
  {
    hide FiredOk, Distinct;
    if |t.fired| <= i {
      assert e.Alarm?;
      var j := FiringHasASlot(t, e.now, i - |t.fired|);
      SlotIsOk(t, j);
      BeforeIsNanos(e.now, t.slots[j].expires);
    }
  }
}
