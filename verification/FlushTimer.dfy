/** Many flush deadlines, one per database, on a single one-shot alarm. */
module FlushTimer {
  import opened Common

  const NUMBER_OF_LIMITS := 64
  const MAX_DATABASE_LENGTH := 256
  const NS_PER_MS := 1_000_000
  const NS_PER_S := 1_000_000_000

  /** struct timespec. */
  datatype Time = Time(sec: int, nsec: int)

  predicate IsTime(t: Time) {
    0 <= t.nsec < NS_PER_S
  }

  function Nanos(t: Time): int {
    t.sec * NS_PER_S + t.nsec
  }

  /** The comparison of two times field by field. */
  predicate Before(a: Time, b: Time) {
    a.sec < b.sec || (a.sec == b.sec && a.nsec < b.nsec)
  }

  /** An entry of the table; arming says which call armed it. */
  datatype Slot = Slot(inUse: bool, database: string, expires: Time, arming: nat)

  // ---------------------------------------------------------------------
  // Choosing a slot
  // ---------------------------------------------------------------------

  function Target(database: Option<string>): string {
    if database.Some? && database.value != "" then database.value else "*"
  }

  /** What fits in the name field. */
  function Fitted(db: string): string {
    if |db| < MAX_DATABASE_LENGTH then db else db[..MAX_DATABASE_LENGTH - 1]
  }

  predicate Fits(db: string) {
    |db| < MAX_DATABASE_LENGTH
  }

  predicate Named(s: Slot, db: string) {
    s.inUse && s.database == db
  }

  /** The first slot from i on in use for db, or -1. */
  function FirstNamed(ss: seq<Slot>, db: string, i: nat): (k: int)
    requires i <= |ss|
    ensures k == -1 || i <= k < |ss|
    ensures 0 <= k ==> Named(ss[k], db) && forall j :: i <= j < k ==> !Named(ss[j], db)
    ensures k < 0 ==> forall j :: i <= j < |ss| ==> !Named(ss[j], db)
    decreases |ss| - i
  {
    if i == |ss| then -1 else if Named(ss[i], db) then i else FirstNamed(ss, db, i + 1)
  }

  /** The first free slot from i on, or -1. */
  function FirstFree(ss: seq<Slot>, i: nat): (k: int)
    requires i <= |ss|
    ensures k == -1 || i <= k < |ss|
    ensures 0 <= k ==> !ss[k].inUse && forall j :: i <= j < k ==> ss[j].inUse
    ensures k < 0 ==> forall j :: i <= j < |ss| ==> ss[j].inUse
    decreases |ss| - i
  {
    if i == |ss| then -1 else if !ss[i].inUse then i else FirstFree(ss, i + 1)
  }

  /** The slot a database gets: its own, else a free one, else none. */
  function Chosen(ss: seq<Slot>, db: string): (k: int)
    ensures k == -1 || 0 <= k < |ss|
  {
    var k := FirstNamed(ss, db, 0);
    if k < 0 then FirstFree(ss, 0) else k
  }

  // ---------------------------------------------------------------------
  // The alarm
  // ---------------------------------------------------------------------

  ghost predicate SomeInUse(ss: seq<Slot>) {
    exists i :: 0 <= i < |ss| && ss[i].inUse
  }

  /** The earliest deadline among the first i slots. */
  function Earliest(ss: seq<Slot>, i: nat): (e: Option<Time>)
    requires i <= |ss|
    ensures e.None? <==> forall j :: 0 <= j < i ==> !ss[j].inUse
    ensures e.Some? ==> exists j :: 0 <= j < i && ss[j].inUse && ss[j].expires == e.value
    ensures forall j :: 0 <= j < i && ss[j].inUse ==> e.Some? && !Before(ss[j].expires, e.value)
  {
    if i == 0 then None
    else
      var e := Earliest(ss, i - 1);
      if ss[i - 1].inUse && (e.None? || Before(ss[i - 1].expires, e.value)) then Some(ss[i - 1].expires) else e
  }

  /** Division as in C, which drops the fraction. */
  function Truncated(a: int, b: int): (q: int)
    requires 0 < b
    ensures 0 <= a ==> q * b <= a < (q + 1) * b
    ensures a < 0 ==> (q - 1) * b < a <= q * b
  {
    if a >= 0 then a / b else -(-a / b)
  }

  /** The delay for a deadline, in milliseconds. */
  function DelayMs(deadline: Time, now: Time): int {
    var delta := (deadline.sec - now.sec) * 1000 + Truncated(deadline.nsec - now.nsec, NS_PER_MS);
    if delta <= 0 then 1 else delta
  }

  /** A delay is less than a millisecond off a deadline that is still to come, and is one
      millisecond for one that has passed. */
  predicate DelayFits(delay: int, deadline: Time, now: Time) {
    var left := Nanos(deadline) - Nanos(now);
    && 0 < delay
    && (0 < left ==> -NS_PER_MS < delay * NS_PER_MS - left < NS_PER_MS)
    && (left <= 0 ==> delay == 1)
  }

  lemma {:induction false} DelayIsAccurate(deadline: Time, now: Time)
    requires IsTime(deadline) && IsTime(now)
    ensures DelayFits(DelayMs(deadline, now), deadline, now)
  {
    var n := deadline.nsec - now.nsec;
    var q := Truncated(n, NS_PER_MS);
    var delta := (deadline.sec - now.sec) * 1000 + q;
    assert delta * NS_PER_MS == (deadline.sec - now.sec) * NS_PER_S + q * NS_PER_MS;
    assert -NS_PER_MS < q * NS_PER_MS - n < NS_PER_MS;
  }

  lemma {:induction false} BeforeIsNanos(a: Time, b: Time)
    requires IsTime(a) && IsTime(b)
    ensures Before(a, b) <==> Nanos(a) < Nanos(b)
  {
  }

  // ---------------------------------------------------------------------
  // The steps
  // ---------------------------------------------------------------------

  /** A deadline that went off: which call armed it, for which database and when. */
  datatype Firing = Firing(arming: nat, database: string, deadline: Time, at: Time)

  /** since and delay describe the alarm while it is started. */
  datatype Timer = Timer(
    slots: seq<Slot>, started: bool, since: Time, delay: int,
    clock: Time, armings: nat, fired: seq<Firing>)

  datatype Event =
    | Arm(seconds: int, database: Option<string>, now: Time, later: Time, starts: bool)
    | Alarm(now: Time, later: Time, starts: bool)

  /** rearm_flush_alarm: starts says whether the timer can be started. */
  function Rearmed(t: Timer, later: Time, starts: bool): Timer {
    match Earliest(t.slots, |t.slots|)
    case None => t.(started := false, clock := later)
    case Some(e) =>
      if starts then t.(started := true, since := later, delay := DelayMs(e, later), clock := later)
      else t.(started := false, clock := later)
  }

  function Freed(s: Slot): Slot {
    s.(inUse := false, database := "")
  }

  function Expiry(now: Time, seconds: int): Time {
    Time(now.sec + seconds, now.nsec)
  }

  function Armed(t: Timer, seconds: int, db: string, now: Time, k: int): Timer
    requires 0 <= k < |t.slots|
  {
    t.(slots := t.slots[k := Slot(true, Fitted(db), Expiry(now, seconds), t.armings + 1)],
       armings := t.armings + 1, clock := now)
  }

  predicate Due(s: Slot, now: Time) {
    s.inUse && !Before(now, s.expires)
  }

  /** The table after the alarm went off at now. */
  function Swept(ss: seq<Slot>, now: Time): (r: seq<Slot>)
    ensures |r| == |ss|
  {
    seq(|ss|, i requires 0 <= i < |ss| => if Due(ss[i], now) then Freed(ss[i]) else ss[i])
  }

  /** The deadlines among the first i slots that went off. */
  function Firings(ss: seq<Slot>, now: Time, i: nat): seq<Firing>
    requires i <= |ss|
  {
    if i == 0 then []
    else
      var s := ss[i - 1];
      Firings(ss, now, i - 1) + (if Due(s, now) then [Firing(s.arming, s.database, s.expires, now)] else [])
  }

  /** The databases among the first i slots that are flushed: those whose deadline went off
      while there were active connections. active says how many there are when a slot is
      handled. */
  function Flushes(ss: seq<Slot>, now: Time, active: nat -> int, i: nat): seq<string>
    requires i <= |ss|
  {
    if i == 0 then []
    else
      var s := ss[i - 1];
      Flushes(ss, now, active, i - 1) +
      (if Due(s, now) && active(i - 1) > 0 then [if s.database == "" then "*" else s.database] else [])
  }

  function Step(t: Timer, e: Event): (t': Timer)
    ensures |t'.slots| == |t.slots|
  {
    match e
    case Arm(seconds, database, now, later, starts) =>
      var db := Target(database);
      var k := Chosen(t.slots, db);
      if seconds <= 0 || k < 0 then t.(clock := later)
      else
        var r := Rearmed(Armed(t, seconds, db, now, k), later, starts);
        if r.started then r else r.(slots := r.slots[k := Freed(r.slots[k])])
    case Alarm(now, later, starts) =>
      Rearmed(t.(slots := Swept(t.slots, now), fired := t.fired + Firings(t.slots, now, |t.slots|), started := false),
              later, starts)
  }

  /** The clock does not go back, and the alarm goes off only while it is started and not
      before its delay is over. */
  predicate Possible(t: Timer, e: Event) {
    && IsTime(e.now) && IsTime(e.later)
    && Nanos(t.clock) <= Nanos(e.now) <= Nanos(e.later)
    && (e.Alarm? ==> t.started && Nanos(t.since) + t.delay * NS_PER_MS <= Nanos(e.now))
  }
}
