/** What holds of the flush alarm between callbacks, for every run. */
module FlushSafety {
  import opened Common
  import opened FlushTimer

  // ---------------------------------------------------------------------
  // The invariant
  // ---------------------------------------------------------------------

  predicate Apart(a: Slot, b: Slot) {
    a.inUse && b.inUse ==> a.database != b.database && a.arming != b.arming
  }

  /** At most one slot for each database and each arming. */
  ghost predicate Distinct(ss: seq<Slot>) {
    forall i, j :: 0 <= i < j < |ss| ==> Apart(ss[i], ss[j])
  }

  predicate SlotOk(s: Slot, armings: nat) {
    s.inUse ==> IsTime(s.expires) && 0 < s.arming <= armings
  }

  ghost predicate SlotsOk(ss: seq<Slot>, armings: nat) {
    forall i :: 0 <= i < |ss| ==> SlotOk(ss[i], armings)
  }

  ghost predicate IsFired(fired: seq<Firing>, arming: nat) {
    exists i :: 0 <= i < |fired| && fired[i].arming == arming
  }

  /** Each arming has gone off at most once, not before its deadline, and is then gone
      from the table. */
  ghost predicate FiredOk(t: Timer) {
    && (forall i :: 0 <= i < |t.fired| ==>
       t.fired[i].arming <= t.armings && !Before(t.fired[i].at, t.fired[i].deadline))
    && (forall i, j :: 0 <= i < j < |t.fired| ==> t.fired[i].arming != t.fired[j].arming)
    && (forall i :: 0 <= i < |t.slots| && t.slots[i].inUse ==> !IsFired(t.fired, t.slots[i].arming))
  }

  ghost predicate Table(t: Timer) {
    |t.slots| == NUMBER_OF_LIMITS && Distinct(t.slots) && SlotsOk(t.slots, t.armings) && FiredOk(t)
  }

  /** The alarm is started exactly while some slot is in use, for the earliest deadline. */
  ghost predicate AlarmOk(t: Timer) {
    && (t.started <==> SomeInUse(t.slots))
    && (t.started ==>
          && Earliest(t.slots, |t.slots|).Some?
          && DelayFits(t.delay, Earliest(t.slots, |t.slots|).value, t.since))
  }

  ghost predicate Inv(t: Timer) {
    Table(t) && AlarmOk(t)
  }

  // ---------------------------------------------------------------------
  // One step
  // ---------------------------------------------------------------------

  lemma {:induction false} RearmedIsOk(t: Timer, later: Time)
    requires Table(t) && IsTime(later)
    ensures Inv(Rearmed(t, later, true)) && Rearmed(t, later, true).slots == t.slots
  {
    var e := Earliest(t.slots, |t.slots|);
    if e.Some? {
      var j :| 0 <= j < |t.slots| && t.slots[j].inUse && t.slots[j].expires == e.value;
      assert SlotOk(t.slots[j], t.armings);
      DelayIsAccurate(e.value, later);
    }
  }

  /** Writing the chosen slot leaves no second slot for the database. */
  lemma {:induction false} ArmedIsDistinct(t: Timer, seconds: int, db: string, now: Time, k: int)
    requires Table(t) && Fits(db) && k == Chosen(t.slots, db) && 0 <= k
    ensures Distinct(Armed(t, seconds, db, now, k).slots)
  {
    hide FiredOk;
    var ss := Armed(t, seconds, db, now, k).slots;
    forall i, j | 0 <= i < j < |ss| ensures Apart(ss[i], ss[j]) {
      assert Apart(t.slots[i], t.slots[j]) && SlotOk(t.slots[i], t.armings) && SlotOk(t.slots[j], t.armings);
      OthersHaveOtherNames(t.slots, db, i);
      OthersHaveOtherNames(t.slots, db, j);
    }
  }

  lemma {:induction false} OthersHaveOtherNames(ss: seq<Slot>, db: string, i: int)
    requires Distinct(ss) && 0 <= Chosen(ss, db) && 0 <= i < |ss|
    ensures i != Chosen(ss, db) ==> !Named(ss[i], db)
  {
    var k := Chosen(ss, db);
    if i < k {
      assert Apart(ss[i], ss[k]);
    } else if k < i {
      assert Apart(ss[k], ss[i]);
    }
  }

  lemma {:induction false} ArmedKeepsTable(t: Timer, seconds: int, db: string, now: Time, k: int)
    requires Table(t) && Fits(db) && k == Chosen(t.slots, db) && 0 <= k && IsTime(now)
    ensures Table(Armed(t, seconds, db, now, k))
  {
    hide Distinct, Chosen, Apart;
    ArmedIsDistinct(t, seconds, db, now, k);
    var t' := Armed(t, seconds, db, now, k);
    forall i | 0 <= i < |t'.slots| ensures SlotOk(t'.slots[i], t'.armings) {
      assert SlotOk(t.slots[i], t.armings);
    }
    assert !IsFired(t.fired, t.armings + 1);
  }

  /** What went off is exactly what was due, once each. */
  lemma {:induction false} FiringsAreTheDue(ss: seq<Slot>, armings: nat, now: Time, n: nat)
    requires Distinct(ss) && SlotsOk(ss, armings) && n <= |ss|
    ensures forall f :: f in Firings(ss, now, n) <==>
              exists j :: 0 <= j < n && Due(ss[j], now) && f == Firing(ss[j].arming, ss[j].database, ss[j].expires, now)
    ensures forall i, j :: 0 <= i < j < |Firings(ss, now, n)| ==>
            Firings(ss, now, n)[i].arming != Firings(ss, now, n)[j].arming
  {
    hide SlotsOk;
    if n == 0 {
    } else {
      FiringsAreTheDue(ss, armings, now, n - 1);
      var before, s := Firings(ss, now, n - 1), ss[n - 1];
      if Due(s, now) {
        forall i | 0 <= i < |before| ensures before[i].arming != s.arming {
          assert before[i] in before;
          var j :| 0 <= j < n - 1 && Due(ss[j], now)
              && before[i] == Firing(ss[j].arming, ss[j].database, ss[j].expires, now);
          assert Apart(ss[j], s);
        }
      }
    }
  }

  lemma {:induction false} SweptIsDistinct(ss: seq<Slot>, armings: nat, now: Time)
    requires Distinct(ss) && SlotsOk(ss, armings)
    ensures Distinct(Swept(ss, now)) && SlotsOk(Swept(ss, now), armings)
  {
    var r := Swept(ss, now);
    forall i, j | 0 <= i < j < |r| ensures Apart(r[i], r[j]) {
      assert Apart(ss[i], ss[j]);
    }
    forall i | 0 <= i < |r| ensures SlotOk(r[i], armings) {
      assert SlotOk(ss[i], armings);
    }
  }

  function Fire(t: Timer, now: Time): Timer {
    t.(slots := Swept(t.slots, now), fired := t.fired + Firings(t.slots, now, |t.slots|), started := false)
  }

  /** Each firing of this round names a slot of the table. */
  lemma {:induction false} FiringHasASlot(t: Timer, now: Time, i: nat) returns (j: nat)
    requires Table(t) && i < |Firings(t.slots, now, |t.slots|)|
    ensures j < |t.slots| && Due(t.slots[j], now)
    ensures Firings(t.slots, now, |t.slots|)[i] ==
            Firing(t.slots[j].arming, t.slots[j].database, t.slots[j].expires, now)
  {
    hide FiredOk;
    var fs := Firings(t.slots, now, |t.slots|);
    FiringsAreTheDue(t.slots, t.armings, now, |t.slots|);
    assert fs[i] in fs;
    j :| 0 <= j < |t.slots| && Due(t.slots[j], now) &&
         fs[i] == Firing(t.slots[j].arming, t.slots[j].database, t.slots[j].expires, now);
  }

  lemma {:induction false} FireKeepsFired(t: Timer, now: Time)
    requires Table(t)
    ensures FiredOk(Fire(t, now))
  {
    hide Swept, SlotsOk;
    var t', fs, n := Fire(t, now), Firings(t.slots, now, |t.slots|), |t.fired|;
    FiringsAreTheDue(t.slots, t.armings, now, |t.slots|);
    forall i | 0 <= i < |t'.fired|
      ensures t'.fired[i].arming <= t'.armings && !Before(t'.fired[i].at, t'.fired[i].deadline)
    {
      if n <= i {
        var j := FiringHasASlot(t, now, i - n);
        assert SlotsOk(t.slots, t.armings);
        SlotIsOk(t, j);
      }
    }
    forall i, j | 0 <= i < j < |t'.fired| ensures t'.fired[i].arming != t'.fired[j].arming {
      if i < n <= j {
        var s := FiringHasASlot(t, now, j - n);
        assert IsFired(t.fired, t.fired[i].arming);
      }
    }
    forall i | 0 <= i < |t'.slots| && t'.slots[i].inUse ensures !IsFired(t'.fired, t'.slots[i].arming) {
      StillInUse(t, now, i);
    }
  }

  lemma {:induction false} SlotIsOk(t: Timer, j: nat)
    requires Table(t) && j < |t.slots|
    ensures SlotOk(t.slots[j], t.armings)
  {
  }

  lemma {:induction false} StillInUse(t: Timer, now: Time, i: nat)
    requires Table(t) && i < |t.slots| && Swept(t.slots, now)[i].inUse
    ensures Swept(t.slots, now)[i] == t.slots[i] && !Due(t.slots[i], now)
    ensures !IsFired(Fire(t, now).fired, t.slots[i].arming)
  {
    hide SlotsOk;
    var fs, all, n := Firings(t.slots, now, |t.slots|), Fire(t, now).fired, |t.fired|;
    forall m | 0 <= m < |all| ensures all[m].arming != t.slots[i].arming {
      if m < n {
        assert all[m] == t.fired[m];
        assert !IsFired(t.fired, t.slots[i].arming);
      } else {
        var j := FiringHasASlot(t, now, m - n);
        assert all[m] == fs[m - n];
        if j < i {
          assert Apart(t.slots[j], t.slots[i]);
        } else if i < j {
          assert Apart(t.slots[i], t.slots[j]);
        }
      }
    }
  }

  lemma {:induction false} FireKeepsTable(t: Timer, now: Time)
    requires Table(t)
    ensures Table(Fire(t, now))
  {
    hide FiredOk, Distinct, SlotsOk;
    SweptIsDistinct(t.slots, t.armings, now);
    FireKeepsFired(t, now);
  }

  predicate NameFits(e: Event) {
    e.Arm? ==> Fits(Target(e.database))
  }

  /** The events after which the alarm is set anew: every alarm, and every arming that asks
      for a deadline and finds a slot. */
  predicate Rearms(t: Timer, e: Event) {
    e.Alarm? || (0 < e.seconds && 0 <= Chosen(t.slots, Target(e.database)))
  }

  /** Whether the timer starts or not, the table stays in order. */
  lemma {:induction false} StepKeepsTable(t: Timer, e: Event)
    requires Table(t) && Possible(t, e) && NameFits(e)
    ensures Table(Step(t, e))
  {
    hide Table, Chosen, Earliest;
    match e
    case Arm(seconds, database, now, later, starts) =>
      var db := Target(database);
      var k := Chosen(t.slots, db);
      if 0 < seconds && 0 <= k {
        var a := Armed(t, seconds, db, now, k);
        ArmedKeepsTable(t, seconds, db, now, k);
        RearmedKeepsTable(a, later, starts);
        FreedKeepsTable(Rearmed(a, later, starts), k);
      } else {
        ClockOnly(t, later);
      }
    case Alarm(now, later, starts) =>
      FireKeepsTable(t, now);
      RearmedKeepsTable(Fire(t, now), later, starts);
  }

  lemma {:induction false} RearmedKeepsTable(t: Timer, later: Time, starts: bool)
    requires Table(t)
    ensures Table(Rearmed(t, later, starts)) && Rearmed(t, later, starts).slots == t.slots
  {
    hide Distinct, SlotsOk, Earliest;
  }

  lemma {:induction false} FreedKeepsTable(t: Timer, k: int)
    requires Table(t) && 0 <= k < |t.slots|
    ensures Table(t.(slots := t.slots[k := Freed(t.slots[k])]))
  {
    var ss := t.slots[k := Freed(t.slots[k])];
    forall i, j | 0 <= i < j < |ss| ensures Apart(ss[i], ss[j]) {
      assert Apart(t.slots[i], t.slots[j]);
    }
    forall i | 0 <= i < |ss| ensures SlotOk(ss[i], t.armings) {
      assert SlotOk(t.slots[i], t.armings);
    }
  }

  /** A step that sets the alarm anew leaves it right exactly if the timer starts or no
      slot is in use any more; any other step leaves it as right as it was. */
  lemma {:induction false} StepKeepsAlarm(t: Timer, e: Event)
    requires Table(t) && Possible(t, e) && NameFits(e)
    ensures Rearms(t, e) ==> (AlarmOk(Step(t, e)) <==> e.starts || !SomeInUse(Step(t, e).slots))
    ensures !Rearms(t, e) ==> (AlarmOk(Step(t, e)) <==> AlarmOk(t))
  {
    hide Table, Chosen, AlarmOk;
    match e
    case Arm(seconds, database, now, later, starts) =>
      var db := Target(database);
      var k := Chosen(t.slots, db);
      if 0 < seconds && 0 <= k {
        var a := Armed(t, seconds, db, now, k);
        ArmedKeepsTable(t, seconds, db, now, k);
        RearmedIsOk(a, later);
        ChosenIsInUse(a, later, k);
        Unstarted(Step(t, e));
      } else {
        ClockIsNoAlarm(t, later);
      }
    case Alarm(now, later, starts) =>
      FireKeepsTable(t, now);
      RearmedIsOk(Fire(t, now), later);
      Unstarted(Step(t, e));
  }

  lemma {:induction false} Unstarted(t: Timer)
    ensures !t.started ==> (AlarmOk(t) <==> !SomeInUse(t.slots))
  {
  }

  lemma {:induction false} ClockIsNoAlarm(t: Timer, later: Time)
    ensures AlarmOk(t.(clock := later)) <==> AlarmOk(t)
  {
  }

  lemma {:induction false} StepKeepsInv(t: Timer, e: Event)
    requires Inv(t) && Possible(t, e) && NameFits(e) && e.starts
    ensures Inv(Step(t, e))
  {
    hide Table, AlarmOk, Rearms, Step, Possible, NameFits;
    StepKeepsTable(t, e);
    StepKeepsAlarm(t, e);
  }

  lemma {:induction false} ChosenIsInUse(t: Timer, later: Time, k: int)
    requires 0 <= k < |t.slots| && t.slots[k].inUse
    ensures Rearmed(t, later, true).started
  {
  }

  lemma {:induction false} ClockOnly(t: Timer, later: Time)
    requires Table(t)
    ensures Table(t.(clock := later))
  {
  }

  // ---------------------------------------------------------------------
  // Runs
  // ---------------------------------------------------------------------

  function Start(clock: Time): Timer {
    Timer(seq(NUMBER_OF_LIMITS, _ => Slot(false, "", Time(0, 0), 0)), false, clock, 0, clock, 0, [])
  }

  function Run(clock: Time, es: seq<Event>): (t: Timer)
    ensures |t.slots| == NUMBER_OF_LIMITS
  {
    if es == [] then Start(clock) else Step(Run(clock, es[..|es| - 1]), es[|es| - 1])
  }

  ghost predicate IsRun(clock: Time, es: seq<Event>) {
    forall i :: 0 <= i < |es| ==> Possible(Run(clock, es[..i]), es[i]) && NameFits(es[i])
  }

  ghost predicate AllStart(es: seq<Event>) {
    forall i :: 0 <= i < |es| ==> es[i].starts
  }

  lemma {:induction false} RunPrefix(clock: Time, es: seq<Event>, k: nat)
    requires IsRun(clock, es) && k <= |es|
    ensures IsRun(clock, es[..k])
  {
    forall i | 0 <= i < k ensures Possible(Run(clock, es[..k][..i]), es[..k][i]) && NameFits(es[..k][i]) {
      assert es[..k][..i] == es[..i];
    }
  }

  /** After every run, timers that do not start included: one slot per database, no deadline
      gone off early, and no arming gone off twice. */
  lemma {:induction false} EveryRunKeepsTable(clock: Time, es: seq<Event>)
    requires IsRun(clock, es)
    ensures Table(Run(clock, es))
  {
    hide Table, Step, Possible, NameFits;
    if es == [] {
      StartIsOk(clock);
    } else {
      var n := |es| - 1;
      RunPrefix(clock, es, n);
      EveryRunKeepsTable(clock, es[..n]);
      assert Possible(Run(clock, es[..n]), es[n]) && NameFits(es[n]);
      StepKeepsTable(Run(clock, es[..n]), es[n]);
    }
  }

  /** The last event of a run that set the alarm anew, or -1. */
  function LastRearm(clock: Time, es: seq<Event>): (i: int)
    ensures -1 <= i < |es|
  {
    if es == [] then -1
    else if Rearms(Run(clock, es[..|es| - 1]), es[|es| - 1]) then |es| - 1
    else LastRearm(clock, es[..|es| - 1])
  }

  /** When the alarm is right after a run: exactly if the last event that set it could start
      the timer, or left no slot in use. */
  lemma {:induction false} AlarmAfterRun(clock: Time, es: seq<Event>)
    requires IsRun(clock, es)
    ensures var i := LastRearm(clock, es);
            AlarmOk(Run(clock, es)) <==> i < 0 || es[i].starts || !SomeInUse(Run(clock, es[..i + 1]).slots)
  {
    hide AlarmOk, Table, Step, Possible, NameFits, Rearms, SomeInUse;
    if es == [] {
      StartIsOk(clock);
    } else {
      var n := |es| - 1;
      RunPrefix(clock, es, n);
      EveryRunKeepsTable(clock, es[..n]);
      assert Possible(Run(clock, es[..n]), es[n]) && NameFits(es[n]);
      StepKeepsAlarm(Run(clock, es[..n]), es[n]);
      AlarmAfterRun(clock, es[..n]);
      var i := LastRearm(clock, es);
      assert es[..n + 1] == es;
      assert i < n ==> es[..n][..i + 1] == es[..i + 1];
    }
  }

  /** If every timer starts, the alarm is started exactly while a slot is in use, and set to
      the earliest deadline within a millisecond. */
  lemma {:induction false} EveryRunKeepsInv(clock: Time, es: seq<Event>)
    requires IsRun(clock, es) && AllStart(es)
    ensures Inv(Run(clock, es))
  {
    hide AlarmOk, Table, Run, IsRun, LastRearm, SomeInUse;
    EveryRunKeepsTable(clock, es);
    AlarmAfterRun(clock, es);
  }

  lemma {:induction false} StartIsOk(clock: Time)
    ensures Inv(Start(clock))
  {
  }

  // ---------------------------------------------------------------------
  // Arming again, and going off
  // ---------------------------------------------------------------------

  /** Arming a database gives it one slot with the new deadline, in place of the one it
      had, and leaves every other slot alone; with a full table nothing changes. */
  lemma {:induction false} ArmReplacesTheDeadline(t: Timer, e: Event)
    requires Table(t) && Possible(t, e) && NameFits(e) && e.starts && e.Arm? && 0 < e.seconds
    ensures var t', db := Step(t, e), Target(e.database);
            var k := Chosen(t.slots, db);
            && (k < 0 <==> forall i :: 0 <= i < |t.slots| ==> t.slots[i].inUse && t.slots[i].database != db)
            && (k < 0 ==> t' == t.(clock := e.later))
            && (0 <= k ==>
                  && t'.slots == t.slots[k := t'.slots[k]] && Named(t'.slots[k], db)
                  && Nanos(t'.slots[k].expires) == Nanos(e.now) + e.seconds * NS_PER_S
                  && t'.slots[k].arming == t'.armings == t.armings + 1 && t'.fired == t.fired && t'.started
                  && (forall i :: 0 <= i < |t.slots| && i != k ==> !Named(t'.slots[i], db)))
  {
    hide FiredOk, AlarmOk, SlotsOk;
    var db := Target(e.database);
    var k := Chosen(t.slots, db);
    if 0 <= k {
      ChosenIsInUse(Armed(t, e.seconds, db, e.now, k), e.later, k);
      forall i | 0 <= i < |t.slots| && i != k ensures !Named(t.slots[i], db) {
        OthersHaveOtherNames(t.slots, db, i);
      }
    }
  }

  /** When the alarm goes off, every deadline that has come goes off with it, the others
      stay, and those gone off before stay on record. */
  lemma {:induction false} AlarmFiresTheDue(t: Timer, e: Event, i: nat)
    requires Table(t) && Possible(t, e) && e.Alarm? && i < |t.slots| && t.slots[i].inUse
    ensures var t', s := Step(t, e), t.slots[i];
            && t.fired <= t'.fired
            && (Nanos(s.expires) <= Nanos(e.now) ==>
                  !t'.slots[i].inUse && Firing(s.arming, s.database, s.expires, e.now) in t'.fired)
            && (Nanos(e.now) < Nanos(s.expires) ==> t'.slots[i] == s && !IsFired(t'.fired, s.arming))
  {
    hide FiredOk, AlarmOk;
    SlotIsOk(t, i);
    BeforeIsNanos(e.now, t.slots[i].expires);
    FiringsAreTheDue(t.slots, t.armings, e.now, |t.slots|);
    if !Due(t.slots[i], e.now) {
      StillInUse(t, e.now, i);
    }
  }

  /** A database is flushed exactly if its deadline went off while there were active
      connections. */
  lemma {:induction false} FlushesTheActive(ss: seq<Slot>, now: Time, active: nat -> int, i: nat, db: string)
    requires i <= |ss|
    ensures db in Flushes(ss, now, active, i) <==>
              exists j ::
                && 0 <= j < i && Due(ss[j], now) && active(j) > 0
                && db == if ss[j].database == "" then "*" else ss[j].database
  {
    if i == 0 {
    } else {
      FlushesTheActive(ss, now, active, i - 1, db);
    }
  }

  ghost predicate InTable(ss: seq<Slot>, arming: nat) {
    exists i :: 0 <= i < |ss| && ss[i].inUse && ss[i].arming == arming
  }

  /** An arming that has left the table, because it went off or was replaced, never goes
      off later. */
  lemma {:induction false} GoneNeverFires(t: Timer, e: Event, arming: nat)
    requires Table(t) && Possible(t, e) && arming <= t.armings && !InTable(t.slots, arming)
    ensures var t' := Step(t, e);
            && arming <= t'.armings && !InTable(t'.slots, arming)
            && (IsFired(t'.fired, arming) <==> IsFired(t.fired, arming))
  {
    hide AlarmOk, FiredOk;
    var t' := Step(t, e);
    if e.Alarm? {
      var fs, n := Firings(t.slots, e.now, |t.slots|), |t.fired|;
      forall m | 0 <= m < |t'.fired| && t'.fired[m].arming == arming ensures m < n && t.fired[m].arming == arming {
        if n <= m {
          var j := FiringHasASlot(t, e.now, m - n);
        }
      }
      if IsFired(t.fired, arming) {
        var m :| 0 <= m < |t.fired| && t.fired[m].arming == arming;
        assert t'.fired[m].arming == arming;
      }
      forall i | 0 <= i < |t'.slots| ensures !(t'.slots[i].inUse && t'.slots[i].arming == arming) {
        assert t.slots[i].inUse ==> t.slots[i].arming != arming;
      }
    } else {
      forall i | 0 <= i < |t'.slots| ensures !(t'.slots[i].inUse && t'.slots[i].arming == arming) {
        assert t.slots[i].inUse ==> t.slots[i].arming != arming;
      }
    }
  }

  lemma {:induction false} GoneForGood(clock: Time, es: seq<Event>, k: nat, arming: nat)
    requires IsRun(clock, es) && k <= |es|
    requires arming <= Run(clock, es[..k]).armings && !InTable(Run(clock, es[..k]).slots, arming)
    ensures arming <= Run(clock, es).armings && !InTable(Run(clock, es).slots, arming)
    ensures IsFired(Run(clock, es).fired, arming) <==> IsFired(Run(clock, es[..k]).fired, arming)
    decreases |es|
  {
    hide InTable, IsFired, Table, Step, Possible, NameFits;
    if k == |es| {
      assert es[..k] == es;
    } else {
      var n := |es| - 1;
      RunPrefix(clock, es, n);
      assert es[..n][..k] == es[..k];
      GoneForGood(clock, es[..n], k, arming);
      EveryRunKeepsTable(clock, es[..n]);
      assert Possible(Run(clock, es[..n]), es[n]);
      GoneNeverFires(Run(clock, es[..n]), es[n], arming);
    }
  }

  // ---------------------------------------------------------------------
  // Where it stops holding
  // ---------------------------------------------------------------------

  /** If the timer cannot be started, the slot being armed is given up, and the alarm is
      stopped. It is then right exactly if no other database was waiting. */
  lemma {:induction false} FailedStart(t: Timer, e: Event)
    requires Table(t) && Possible(t, e) && e.Arm? && !e.starts && 0 < e.seconds
             && 0 <= Chosen(t.slots, Target(e.database))
    ensures var t', k := Step(t, e), Chosen(t.slots, Target(e.database));
            && !t'.started
            && (AlarmOk(t') <==> forall i :: 0 <= i < |t.slots| && i != k ==> !t.slots[i].inUse)
  {
    hide FiredOk, Distinct, SlotsOk;
    var db := Target(e.database);
    var t', k := Step(t, e), Chosen(t.slots, db);
    var a := Armed(t, e.seconds, db, e.now, k);
    assert a.slots[k].inUse;
    assert !t'.started;
    assert forall i :: 0 <= i < |t.slots| && i != k ==> t'.slots[i] == t.slots[i];
    assert !t'.slots[k].inUse;
  }

  /** If the timer cannot be started again after the alarm went off, the alarm is right
      exactly if every deadline in the table had come. */
  lemma {:induction false} FailedRestart(t: Timer, e: Event)
    requires Table(t) && Possible(t, e) && e.Alarm? && !e.starts
    ensures var t' := Step(t, e);
            && !t'.started
            && (AlarmOk(t') <==> forall i :: 0 <= i < |t.slots| && t.slots[i].inUse ==> Due(t.slots[i], e.now))
  {
    hide FiredOk, Distinct, SlotsOk, AlarmOk;
    var t' := Step(t, e);
    Unstarted(t');
    forall i | 0 <= i < |t.slots| ensures t'.slots[i].inUse <==> t.slots[i].inUse && !Due(t.slots[i], e.now) {
      assert t'.slots[i] == Swept(t.slots, e.now)[i];
    }
  }

  /** The first of two databases is armed. */
  function AfterFirst(clock: Time): Timer {
    Step(Start(clock), Arm(1, Some("a"), clock, clock, true))
  }

  /** The second one is; starts says if the timer can be started for it. */
  function AfterSecond(clock: Time, starts: bool): Timer {
    Step(AfterFirst(clock), Arm(2, Some("b"), clock, clock, starts))
  }

  lemma {:induction false} FirstArmed(clock: Time)
    requires IsTime(clock)
    ensures var t := AfterFirst(clock);
            && t.started && t.clock == clock && t.armings == 1
            && t.slots == Start(clock).slots[0 := Slot(true, "a", Expiry(clock, 1), 1)]
  {
    assert Chosen(Start(clock).slots, "a") == 0;
    ChosenIsInUse(Armed(Start(clock), 1, "a", clock, 0), clock, 0);
  }

  lemma {:induction false} SecondIsChosen(clock: Time)
    requires IsTime(clock)
    ensures Chosen(AfterFirst(clock).slots, "b") == 1
  {
    hide AfterFirst;
    var ss := AfterFirst(clock).slots;
    FirstArmed(clock);
    assert ss[0].inUse && forall i :: 1 <= i < |ss| ==> !ss[i].inUse;
    assert FirstNamed(ss, "b", 0) == -1 && FirstFree(ss, 0) == 1;
  }

  lemma {:induction false} SecondArmed(clock: Time, starts: bool)
    requires IsTime(clock)
    ensures var t := AfterSecond(clock, starts);
            && t.started == starts && t.clock == clock && |t.slots| == NUMBER_OF_LIMITS
            && t.slots[0] == Slot(true, "a", Expiry(clock, 1), 1)
            && (starts ==> t.slots[1] == Slot(true, "b", Expiry(clock, 2), 2) && t.since == clock && t.delay == 1000)
  {
    hide AfterFirst, Chosen, FirstNamed, FirstFree;
    FirstArmed(clock);
    SecondIsChosen(clock);
    var a := Armed(AfterFirst(clock), 2, "b", clock, 1);
    assert a.slots[0] == Slot(true, "a", Expiry(clock, 1), 1) && a.slots[1] == Slot(true, "b", Expiry(clock, 2), 2);
    assert Earliest(a.slots, |a.slots|) == Some(Expiry(clock, 1));
  }

  /** A second database is armed and the timer does not start: the deadline of the first
      one has no alarm. */
  lemma {:induction false} StrandedByArming(clock: Time)
    requires IsTime(clock)
    ensures var es := [Arm(1, Some("a"), clock, clock, true), Arm(2, Some("b"), clock, clock, false)];
            var t := Run(clock, es);
            IsRun(clock, es) && Named(t.slots[0], "a") && !t.started
  {
    hide Step;
    var a, b := Arm(1, Some("a"), clock, clock, true), Arm(2, Some("b"), clock, clock, false);
    var es := [a, b];
    SecondArmed(clock, false);
    FirstArmed(clock);
    assert es[..0] == [] && es[..1] == [a] && [a][..0] == [];
    assert Run(clock, []) == Start(clock) && Run(clock, [a]) == AfterFirst(clock)
           && Run(clock, es) == AfterSecond(clock, false);
    assert Possible(Start(clock), a) && Possible(AfterFirst(clock), b);
  }

  /** The alarm for the first database goes off and the timer does not start again: the
      deadline of the second one has no alarm. */
  lemma {:induction false} StrandedByAlarm(clock: Time)
    requires IsTime(clock)
    ensures var later := Time(clock.sec + 1, clock.nsec);
            var a, b := Arm(1, Some("a"), clock, clock, true), Arm(2, Some("b"), clock, clock, true);
            var es := [a, b, Alarm(later, later, false)];
            var t := Run(clock, es);
            IsRun(clock, es) && Named(t.slots[1], "b") && !t.started
  {
    hide Step;
    var later := Time(clock.sec + 1, clock.nsec);
    var a, b := Arm(1, Some("a"), clock, clock, true), Arm(2, Some("b"), clock, clock, true);
    var c := Alarm(later, later, false);
    var es := [a, b, c];
    SecondArmed(clock, true);
    FirstArmed(clock);
    assert es[..0] == [] && es[..1] == [a] && es[..2] == [a, b] && [a, b][..1] == [a] && [a][..0] == [];
    assert Run(clock, []) == Start(clock) && Run(clock, [a]) == AfterFirst(clock)
           && Run(clock, [a, b]) == AfterSecond(clock, true);
    assert Possible(Start(clock), a) && Possible(AfterFirst(clock), b) && Possible(AfterSecond(clock, true), c);
    NotDueStays(AfterSecond(clock, true), c, 1);
  }

  /** With a timer that does not start, what is not due stays in the table, without an alarm. */
  lemma {:induction false} NotDueStays(t: Timer, e: Event, i: nat)
    requires e.Alarm? && !e.starts && i < |t.slots| && !Due(t.slots[i], e.now)
    ensures Step(t, e).slots[i] == t.slots[i] && !Step(t, e).started
  {
  }

  /** Arming keeps one slot per name exactly if no other slot holds the name as it is
      stored; for a name that fits, none does. */
  lemma {:induction false} OneSlotPerName(t: Timer, e: Event)
    requires Table(t) && Possible(t, e) && e.Arm? && e.starts && 0 < e.seconds
             && 0 <= Chosen(t.slots, Target(e.database))
    ensures var k, name := Chosen(t.slots, Target(e.database)), Fitted(Target(e.database));
            && (Distinct(Step(t, e).slots) <==> forall i :: 0 <= i < |t.slots| && i != k ==> !Named(t.slots[i], name))
            && (Fits(Target(e.database)) ==> Distinct(Step(t, e).slots))
  {
    hide FiredOk, AlarmOk;
    var db := Target(e.database);
    var k := Chosen(t.slots, db);
    var name := Fitted(db);
    var ss := Step(t, e).slots;
    ChosenIsInUse(Armed(t, e.seconds, db, e.now, k), e.later, k);
    assert ss == t.slots[k := Slot(true, name, Expiry(e.now, e.seconds), t.armings + 1)];
    if forall i :: 0 <= i < |t.slots| && i != k ==> !Named(t.slots[i], name) {
      forall i, j | 0 <= i < j < |ss| ensures Apart(ss[i], ss[j]) {
        assert Apart(t.slots[i], t.slots[j]) && SlotOk(t.slots[i], t.armings) && SlotOk(t.slots[j], t.armings);
      }
    } else {
      var i :| 0 <= i < |t.slots| && i != k && Named(t.slots[i], name);
      assert !Apart(ss[i], ss[k]) && !Apart(ss[k], ss[i]);
    }
    if Fits(db) {
      ArmedIsDistinct(t, e.seconds, db, e.now, k);
    }
  }

  /** A database name that does not fit is cut, so arming it again takes another slot
      under the same name. */
  lemma {:induction false} LongNameIsArmedTwice(db: string, clock: Time)
    requires !Fits(db) && IsTime(clock)
    ensures var e := Arm(1, Some(db), clock, clock, true);
            var t := Step(Step(Start(clock), e), e);
            && Possible(Start(clock), e) && Possible(Step(Start(clock), e), e)
            && Named(t.slots[0], Fitted(db)) && Named(t.slots[1], Fitted(db))
            && !Distinct(t.slots)
  {
    var e := Arm(1, Some(db), clock, clock, true);
    var t0 := Start(clock);
    var t1 := Step(t0, e);
    assert Chosen(t0.slots, db) == 0;
    assert t1.slots[0].database == Fitted(db) != db by { assert |Fitted(db)| < |db|; }
    assert t1.slots[0].inUse && forall i :: 1 <= i < |t1.slots| ==> !t1.slots[i].inUse;
    assert FirstNamed(t1.slots, db, 0) == -1 && FirstFree(t1.slots, 0) == 1;
    assert Chosen(t1.slots, db) == 1;
    var t2 := Step(t1, e);
    assert Named(t2.slots[0], Fitted(db)) && Named(t2.slots[1], Fitted(db));
    assert !Apart(t2.slots[0], t2.slots[1]);
  }
}
