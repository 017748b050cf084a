/** The deque shared by threads. Each call goes through its lock sections one at a time,
    and the sections of different threads interleave in any way. */
module DequeThreads {
  type Thread = nat
  type Call = nat

  /** An element; id tells apart elements with the same data. */
  datatype Elem = Elem(id: nat, data: int)

  datatype Op = Add(data: int) | Poll | PollLast | Peek | PeekLast | Size

  /** Garbage is what reading a value that has been freed gives. */
  datatype Result = Added | Nothing | Got(elem: Elem) | Count(n: int) | Garbage

  // ---------------------------------------------------------------------
  // The sequential deque
  // ---------------------------------------------------------------------

  /** The elements in order and the number of elements ever added. */
  datatype Deq = Deq(elems: seq<Elem>, adds: nat)

  function Answer(d: Deq, op: Op): Result {
    match op
    case Add(_) => Added
    case Size => Count(|d.elems|)
    case _ =>
      if d.elems == [] then Nothing
      else Got(if op.Poll? || op.Peek? then d.elems[0] else d.elems[|d.elems| - 1])
  }

  function After(d: Deq, op: Op): Deq {
    match op
    case Add(data) => Deq(d.elems + [Elem(d.adds, data)], d.adds + 1)
    case Poll => if d.elems == [] then d else d.(elems := d.elems[1..])
    case PollLast => if d.elems == [] then d else d.(elems := d.elems[..|d.elems| - 1])
    case _ => d
  }

  /** A call in the sequential history. */
  datatype Entry = Entry(call: Call, op: Op, result: Result)

  function Replay(log: seq<Entry>): Deq {
    if log == [] then Deq([], 0) else After(Replay(log[..|log| - 1]), log[|log| - 1].op)
  }

  /** Every call in the history returned what the sequential deque returns. */
  predicate Legal(log: seq<Entry>) {
    log == [] ||
    (Legal(log[..|log| - 1]) && log[|log| - 1].result == Answer(Replay(log[..|log| - 1]), log[|log| - 1].op))
  }

  lemma {:induction false} ReplaySnoc(log: seq<Entry>, e: Entry)
    ensures Replay(log + [e]) == After(Replay(log), e.op)
    ensures Legal(log + [e]) <==> Legal(log) && e.result == Answer(Replay(log), e.op)
  {
    assert (log + [e])[..|log|] == log;
  }

  // ---------------------------------------------------------------------
  // The threads
  // ---------------------------------------------------------------------

  /** Where a thread is: before its first section, between the size test and its second
      section, or holding a value pointer after giving up the lock. since is how long the
      history was when the call began. */
  datatype Phase =
    | Invoked(call: Call, op: Op, since: nat)
    | Checked(call: Call, op: Op, since: nat)
    | Holding(call: Call, op: Op, since: nat, elem: Elem)

  /** A call that has returned; until is how long the history was then. */
  datatype Return = Return(call: Call, op: Op, result: Result, since: nat, until: nat)

  /** The calls: log is the history in the order of the deciding sections. */
  datatype Book = Book(threads: map<Thread, Phase>, calls: nat, log: seq<Entry>, ended: seq<Return>)

  /** elems and size are the shared list; freed are the elements whose values are gone. */
  datatype State = State(elems: seq<Elem>, size: int, adds: nat, freed: set<nat>, book: Book)

  datatype Event = Invoke(thread: Thread, op: Op) | Section(thread: Thread)

  predicate Possible(s: State, e: Event) {
    match e
    case Invoke(t, _) => t !in s.book.threads
    case Section(t) => t in s.book.threads
  }

  /** The deciding section of a call: it enters the history with this result. */
  function Logged(b: Book, p: Phase, r: Result): Book {
    b.(log := b.log + [Entry(p.call, p.op, r)])
  }

  function Ended(b: Book, t: Thread, p: Phase, r: Result): Book {
    b.(threads := b.threads - {t}, ended := b.ended + [Return(p.call, p.op, r, p.since, |b.log|)])
  }

  /** A section that decides and returns. */
  function Finished(b: Book, t: Thread, p: Phase, r: Result): Book {
    Ended(Logged(b, p, r), t, p, r)
  }

  /** A section that decides and keeps a pointer to the value. */
  function Held(b: Book, t: Thread, p: Phase, e: Elem): Book {
    Logged(b, p, Got(e)).(threads := b.threads[t := Holding(p.call, p.op, p.since, e)])
  }

  /** The first section: all of add and size, and the size test of the others. */
  function First(s: State, t: Thread, p: Phase): State {
    match p.op
    case Add(data) =>
      State(s.elems + [Elem(s.adds, data)], s.size + 1, s.adds + 1, s.freed, Finished(s.book, t, p, Added))
    case Size => s.(book := Finished(s.book, t, p, Count(s.size)))
    case _ =>
      if s.size == 0 then s.(book := Finished(s.book, t, p, Nothing))
      else s.(book := s.book.(threads := s.book.threads[t := Checked(p.call, p.op, p.since)]))
  }

  /** The second section, which finds the list as it is by then. */
  function Second(s: State, t: Thread, p: Phase): State {
    if s.elems == [] then s.(book := Finished(s.book, t, p, Nothing))
    else
      var first, last, n := s.elems[0], s.elems[|s.elems| - 1], |s.elems| - 1;
      match p.op
      case Poll => State(s.elems[1..], s.size - 1, s.adds, s.freed + {first.id}, Finished(s.book, t, p, Got(first)))
      case PollLast => State(s.elems[..n], s.size - 1, s.adds, s.freed + {last.id}, Finished(s.book, t, p, Got(last)))
      case Peek => s.(book := Held(s.book, t, p, first))
      case PeekLast => s.(book := Held(s.book, t, p, last))
      case _ => s
  }

  /** What reading the value of an element gives. */
  function Read(s: State, e: Elem): Result {
    if e.id in s.freed then Garbage else Got(e)
  }

  function Step(s: State, e: Event): State
    requires Possible(s, e)
  {
    match e
    case Invoke(t, op) =>
      var b := s.book;
      s.(book := b.(threads := b.threads[t := Invoked(b.calls, op, |b.log|)], calls := b.calls + 1))
    case Section(t) =>
      var p := s.book.threads[t];
      match p
      case Invoked(_, _, _) => First(s, t, p)
      case Checked(_, _, _) => Second(s, t, p)
      case Holding(_, _, _, elem) => s.(book := Ended(s.book, t, p, Read(s, elem)))
  }

  // ---------------------------------------------------------------------
  // The invariant
  // ---------------------------------------------------------------------

  /** The shared list is what the history makes of an empty deque. */
  ghost predicate ListOk(s: State) {
    Legal(s.book.log) && Replay(s.book.log) == Deq(s.elems, s.adds) && s.size == |s.elems|
  }

  /** An element is freed exactly when it has been taken out. */
  ghost predicate FreedOk(s: State) {
    && (forall id :: id in s.freed ==> id < s.adds)
    && (forall i :: 0 <= i < |s.elems| ==> s.elems[i].id < s.adds && s.elems[i].id !in s.freed)
    && (forall i, j :: 0 <= i < j < |s.elems| ==> s.elems[i].id != s.elems[j].id)
    && (forall id :: 0 <= id < s.adds && id !in s.freed ==> HasId(s.elems, id))
  }

  ghost predicate HasId(es: seq<Elem>, id: int) {
    exists i :: 0 <= i < |es| && es[i].id == id
  }

  ghost predicate InLog(log: seq<Entry>, call: Call) {
    exists i :: 0 <= i < |log| && log[i].call == call
  }

  /** A thread that has not decided is not in the history; one that holds a value is,
      with an entry made after the call began. */
  ghost predicate PhaseOk(log: seq<Entry>, calls: nat, p: Phase) {
    && p.call < calls && p.since <= |log|
    && match p
       case Invoked(_, _, _) => !InLog(log, p.call)
       case Checked(_, op, _) => !InLog(log, p.call) && !op.Add? && !op.Size?
       case Holding(_, _, _, e) => exists i :: p.since <= i < |log| && log[i] == Entry(p.call, p.op, Got(e))
  }

  /** The entry of a call that has returned was made between its beginning and its end,
      and holds what was returned, unless a freed value was read. */
  ghost predicate ReturnOk(log: seq<Entry>, r: Return) {
    r.until <= |log| && exists i :: r.since <= i < r.until && Matches(log[i], r)
  }

  predicate Matches(e: Entry, r: Return) {
    e.call == r.call && e.op == r.op && (r.result == e.result || (r.result == Garbage && e.result.Got?))
  }

  ghost predicate CallsOk(b: Book) {
    && (forall i :: 0 <= i < |b.log| ==> b.log[i].call < b.calls)
    && (forall i, j :: 0 <= i < j < |b.log| ==> b.log[i].call != b.log[j].call)
    && (forall t, u :: t in b.threads && u in b.threads && t != u ==> b.threads[t].call != b.threads[u].call)
  }

  ghost predicate BookOk(b: Book) {
    && CallsOk(b)
    && (forall t :: t in b.threads ==> PhaseOk(b.log, b.calls, b.threads[t]))
    && (forall i :: 0 <= i < |b.ended| ==> ReturnOk(b.log, b.ended[i]))
  }

  ghost predicate Inv(s: State) {
    ListOk(s) && FreedOk(s) && BookOk(s.book)
  }

  const EMPTY := State([], 0, 0, {}, Book(map[], 0, [], []))

  lemma {:induction false} EmptyIsOk()
    ensures Inv(EMPTY)
  {
  }

  // ---------------------------------------------------------------------
  // The book
  // ---------------------------------------------------------------------

  /** One more entry in the history does not bother the other calls. */
  lemma {:induction false} PhaseStays(log: seq<Entry>, calls: nat, p: Phase, e: Entry)
    requires PhaseOk(log, calls, p)
    ensures PhaseOk(log, calls + 1, p)
    ensures p.call != e.call ==> PhaseOk(log + [e], calls, p)
  {
    var longer := log + [e];
    assert forall i :: 0 <= i < |log| ==> longer[i] == log[i];
    if p.Holding? {
      var i :| p.since <= i < |log| && log[i] == Entry(p.call, p.op, Got(p.elem));
      assert longer[i] == Entry(p.call, p.op, Got(p.elem));
    }
  }

  lemma {:induction false} ReturnStays(log: seq<Entry>, r: Return, e: Entry)
    requires ReturnOk(log, r)
    ensures ReturnOk(log + [e], r)
  {
    var i :| r.since <= i < r.until && Matches(log[i], r);
    assert Matches((log + [e])[i], r);
  }

  lemma {:induction false} LoggedCalls(b: Book, t: Thread, e: Entry)
    requires BookOk(b) && t in b.threads && !b.threads[t].Holding? && e.call == b.threads[t].call
    ensures CallsOk(b.(log := b.log + [e]))
  {
    hide ReturnOk;
    assert PhaseOk(b.log, b.calls, b.threads[t]);
  }

  /** A section that decides keeps the book in order. */
  lemma {:induction false} LoggedIsOk(b: Book, t: Thread, r: Result)
    requires BookOk(b) && t in b.threads && !b.threads[t].Holding?
    ensures var p := b.threads[t];
            var b' := Logged(b, p, r);
            && CallsOk(b')
            && (forall u :: u in b.threads && u != t ==> PhaseOk(b'.log, b'.calls, b'.threads[u]))
            && (forall i :: 0 <= i < |b'.ended| ==> ReturnOk(b'.log, b'.ended[i]))
            && p.call < b.calls && p.since <= |b.log| && b'.log[|b.log|] == Entry(p.call, p.op, r)
  {
    hide PhaseOk, ReturnOk;
    var p := b.threads[t];
    var e := Entry(p.call, p.op, r);
    LoggedCalls(b, t, e);
    PhaseBounds(b, t);
    forall u | u in b.threads && u != t ensures PhaseOk(b.log + [e], b.calls, b.threads[u]) {
      PhaseStays(b.log, b.calls, b.threads[u], e);
    }
    forall i | 0 <= i < |b.ended| ensures ReturnOk(b.log + [e], b.ended[i]) {
      ReturnStays(b.log, b.ended[i], e);
    }
  }

  lemma {:induction false} PhaseBounds(b: Book, t: Thread)
    requires BookOk(b) && t in b.threads
    ensures b.threads[t].call < b.calls && b.threads[t].since <= |b.log|
  {
    hide ReturnOk;
    assert PhaseOk(b.log, b.calls, b.threads[t]);
  }

  lemma {:induction false} FinishedIsOk(b: Book, t: Thread, r: Result)
    requires BookOk(b) && t in b.threads && !b.threads[t].Holding?
    ensures BookOk(Finished(b, t, b.threads[t], r))
  {
    hide PhaseOk, ReturnOk, CallsOk;
    var p := b.threads[t];
    LoggedIsOk(b, t, r);
    var b1 := Logged(b, p, r);
    NewReturn(b1.log, |b.log|, Return(p.call, p.op, r, p.since, |b1.log|));
    FewerThreads(b1, t, Finished(b, t, p, r));
  }

  lemma {:induction false} NewReturn(log: seq<Entry>, i: nat, r: Return)
    requires r.since <= i < r.until <= |log| && Matches(log[i], r)
    ensures ReturnOk(log, r)
  {
  }

  lemma {:induction false} FewerThreads(b: Book, t: Thread, b': Book)
    requires CallsOk(b) && b'.threads == b.threads - {t} && b'.log == b.log && b'.calls == b.calls
    ensures CallsOk(b')
  {
  }

  lemma {:induction false} HeldIsOk(b: Book, t: Thread, e: Elem)
    requires BookOk(b) && t in b.threads && b.threads[t].Checked?
    ensures BookOk(Held(b, t, b.threads[t], e))
  {
    hide PhaseOk, ReturnOk, CallsOk;
    var p := b.threads[t];
    LoggedIsOk(b, t, Got(e));
    var b1, b' := Logged(b, p, Got(e)), Held(b, t, p, e);
    NowHolding(b'.log, b'.calls, |b.log|, b'.threads[t]);
    SameCalls(b1, t, b');
  }

  lemma {:induction false} NowHolding(log: seq<Entry>, calls: nat, i: nat, p: Phase)
    requires p.Holding? && p.call < calls && p.since <= i < |log| && log[i] == Entry(p.call, p.op, Got(p.elem))
    ensures PhaseOk(log, calls, p)
  {
  }

  /** A thread that goes on to another phase of the same call. */
  lemma {:induction false} SameCalls(b: Book, t: Thread, b': Book)
    requires CallsOk(b) && t in b.threads && t in b'.threads && b'.threads == b.threads[t := b'.threads[t]]
    requires b'.threads[t].call == b.threads[t].call && b'.log == b.log && b'.calls == b.calls
    ensures CallsOk(b')
  {
  }

  lemma {:induction false} CheckedIsOk(b: Book, t: Thread)
    requires BookOk(b) && t in b.threads && b.threads[t].Invoked? && !b.threads[t].op.Add? && !b.threads[t].op.Size?
    ensures var p := b.threads[t];
            BookOk(b.(threads := b.threads[t := Checked(p.call, p.op, p.since)]))
  {
    hide ReturnOk, CallsOk;
    var p := b.threads[t];
    var b' := b.(threads := b.threads[t := Checked(p.call, p.op, p.since)]);
    assert PhaseOk(b.log, b.calls, p);
    SameCalls(b, t, b');
  }

  lemma {:induction false} InvokedIsOk(b: Book, t: Thread, op: Op)
    requires BookOk(b) && t !in b.threads
    ensures BookOk(b.(threads := b.threads[t := Invoked(b.calls, op, |b.log|)], calls := b.calls + 1))
  {
    hide ReturnOk;
    var b' := b.(threads := b.threads[t := Invoked(b.calls, op, |b.log|)], calls := b.calls + 1);
    forall u | u in b'.threads
      ensures PhaseOk(b'.log, b'.calls, b'.threads[u]) && (u != t ==> b'.threads[u].call != b.calls)
    {
      if u != t {
        assert PhaseOk(b.log, b.calls, b.threads[u]);
      }
    }
  }

  lemma {:induction false} EndedIsOk(b: Book, t: Thread, r: Result)
    requires BookOk(b) && t in b.threads && b.threads[t].Holding? && (r == Garbage || r == Got(b.threads[t].elem))
    ensures BookOk(Ended(b, t, b.threads[t], r))
  {
    hide CallsOk;
    var p := b.threads[t];
    assert PhaseOk(b.log, b.calls, p);
    var i :| p.since <= i < |b.log| && b.log[i] == Entry(p.call, p.op, Got(p.elem));
    NewReturn(b.log, i, Return(p.call, p.op, r, p.since, |b.log|));
    FewerThreads(b, t, Ended(b, t, p, r));
  }

  // ---------------------------------------------------------------------
  // The list
  // ---------------------------------------------------------------------

  lemma {:induction false} HasIdIn(es: seq<Elem>, id: nat, x: Elem)
    ensures HasId(es + [x], id) <==> HasId(es, id) || x.id == id
    ensures es != [] ==> (HasId(es, id) <==> HasId(es[1..], id) || es[0].id == id)
    ensures es != [] ==> (HasId(es, id) <==> HasId(es[..|es| - 1], id) || es[|es| - 1].id == id)
  {
    if HasId(es, id) {
      var i :| 0 <= i < |es| && es[i].id == id;
      assert (es + [x])[i].id == id;
      assert 0 < i ==> es[1..][i - 1].id == id;
      assert i < |es| - 1 ==> es[..|es| - 1][i].id == id;
    }
    assert (es + [x])[|es|] == x;
    if es != [] {
      assert HasId(es[1..], id) ==> HasId(es, id) by {
        if HasId(es[1..], id) {
          var i :| 0 <= i < |es| - 1 && es[1..][i].id == id;
          assert es[i + 1].id == id;
        }
      }
    }
  }

  lemma {:induction false} AddKeepsFreed(s: State, data: int, s': State)
    requires FreedOk(s) && s'.elems == s.elems + [Elem(s.adds, data)] && s'.adds == s.adds + 1 && s'.freed == s.freed
    ensures FreedOk(s')
  {
    hide HasId;
    forall id | 0 <= id < s'.adds && id !in s'.freed ensures HasId(s'.elems, id) {
      HasIdIn(s.elems, id, Elem(s.adds, data));
    }
  }

  lemma {:induction false} PollKeepsFreed(s: State, s': State)
    requires FreedOk(s) && s.elems != [] && s'.elems == s.elems[1..] && s'.adds == s.adds
    requires s'.freed == s.freed + {s.elems[0].id}
    ensures FreedOk(s')
  {
    hide HasId;
    forall i | 0 <= i < |s'.elems| ensures s'.elems[i].id < s'.adds && s'.elems[i].id !in s'.freed {
      assert s'.elems[i] == s.elems[i + 1] && s.elems[0].id != s.elems[i + 1].id;
    }
    forall id | 0 <= id < s'.adds && id !in s'.freed ensures HasId(s'.elems, id) {
      HasIdIn(s.elems, id, s.elems[0]);
    }
  }

  lemma {:induction false} PollLastKeepsFreed(s: State, s': State)
    requires FreedOk(s) && s.elems != [] && s'.elems == s.elems[..|s.elems| - 1] && s'.adds == s.adds
    requires s'.freed == s.freed + {s.elems[|s.elems| - 1].id}
    ensures FreedOk(s')
  {
    hide HasId;
    forall i | 0 <= i < |s'.elems| ensures s'.elems[i].id < s'.adds && s'.elems[i].id !in s'.freed {
      assert s'.elems[i] == s.elems[i] && s.elems[i].id != s.elems[|s.elems| - 1].id;
    }
    forall id | 0 <= id < s'.adds && id !in s'.freed ensures HasId(s'.elems, id) {
      HasIdIn(s.elems, id, s.elems[0]);
    }
  }

  /** After a deciding section the list is what the sequential deque becomes. */
  lemma {:induction false} DecidedIsOk(s: State, p: Phase, r: Result, s': State)
    requires ListOk(s) && FreedOk(s)
    requires r == Answer(Deq(s.elems, s.adds), p.op) && Deq(s'.elems, s'.adds) == After(Deq(s.elems, s.adds), p.op)
    requires s'.size == |s'.elems| && s'.book.log == s.book.log + [Entry(p.call, p.op, r)]
    requires s'.freed == if (p.op.Poll? || p.op.PollLast?) && r.Got? then s.freed + {r.elem.id} else s.freed
    ensures ListOk(s') && FreedOk(s')
  {
    hide Replay, Legal, FreedOk;
    ReplaySnoc(s.book.log, Entry(p.call, p.op, r));
    if p.op.Add? {
      AddKeepsFreed(s, p.op.data, s');
    } else if p.op.Poll? && s.elems != [] {
      PollKeepsFreed(s, s');
    } else if p.op.PollLast? && s.elems != [] {
      PollLastKeepsFreed(s, s');
    } else {
      SameFreed(s, s');
    }
  }

  lemma {:induction false} SameFreed(s: State, s': State)
    requires FreedOk(s) && s'.elems == s.elems && s'.adds == s.adds && s'.freed == s.freed
    ensures FreedOk(s')
  {
  }

  lemma {:induction false} SectionKeepsInv(s: State, t: Thread)
    requires Inv(s) && t in s.book.threads
    ensures Inv(Step(s, Section(t)))
  {
    hide BookOk, Replay, Legal, FreedOk;
    var p, s' := s.book.threads[t], Step(s, Section(t));
    PhaseKnown(s.book, t);
    match p
    case Invoked(_, _, _) =>
      if p.op.Add? || p.op.Size? || s.size == 0 {
        FinishedIsOk(s.book, t, Answer(Deq(s.elems, s.adds), p.op));
        DecidedIsOk(s, p, Answer(Deq(s.elems, s.adds), p.op), s');
      } else {
        CheckedIsOk(s.book, t);
        SameList(s, s');
      }
    case Checked(_, _, _) =>
      var r := Answer(Deq(s.elems, s.adds), p.op);
      if r.Got? && (p.op.Peek? || p.op.PeekLast?) {
        HeldIsOk(s.book, t, r.elem);
      } else {
        FinishedIsOk(s.book, t, r);
      }
      DecidedIsOk(s, p, r, s');
    case Holding(_, _, _, e) =>
      EndedIsOk(s.book, t, Read(s, e));
      SameList(s, s');
  }

  lemma {:induction false} PhaseKnown(b: Book, t: Thread)
    requires BookOk(b) && t in b.threads
    ensures b.threads[t].Checked? ==> !b.threads[t].op.Add? && !b.threads[t].op.Size?
  {
    hide ReturnOk;
    assert PhaseOk(b.log, b.calls, b.threads[t]);
  }

  lemma {:induction false} SameList(s: State, s': State)
    requires ListOk(s) && FreedOk(s) && s'.book.log == s.book.log
    requires s'.elems == s.elems && s'.size == s.size && s'.adds == s.adds && s'.freed == s.freed
    ensures ListOk(s') && FreedOk(s')
  {
  }

  lemma {:induction false} StepKeepsInv(s: State, e: Event)
    requires Inv(s) && Possible(s, e)
    ensures Inv(Step(s, e))
  {
    hide Inv, BookOk;
    match e
    case Section(t) => SectionKeepsInv(s, t);
    case Invoke(t, op) => InvokeKeepsInv(s, t, op);
  }

  lemma {:induction false} InvokeKeepsInv(s: State, t: Thread, op: Op)
    requires Inv(s) && t !in s.book.threads
    ensures Inv(Step(s, Invoke(t, op)))
  {
    hide BookOk, ListOk, FreedOk;
    InvokedIsOk(s.book, t, op);
    SameList(s, Step(s, Invoke(t, op)));
  }

  // ---------------------------------------------------------------------
  // Runs
  // ---------------------------------------------------------------------

  /** The states of a run; a step that is not possible where it stands is no run. */
  ghost predicate IsRun(ss: seq<State>, es: seq<Event>) {
    && |ss| == |es| + 1 && ss[0] == EMPTY
    && forall i :: 0 <= i < |es| ==> Possible(ss[i], es[i]) && ss[i + 1] == Step(ss[i], es[i])
  }

  lemma {:induction false} EveryRunKeepsInv(ss: seq<State>, es: seq<Event>, k: nat)
    requires IsRun(ss, es) && k < |ss|
    ensures Inv(ss[k])
  {
    hide Inv, Possible;
    if k == 0 {
      EmptyIsOk();
    } else {
      EveryRunKeepsInv(ss, es, k - 1);
      assert Possible(ss[k - 1], es[k - 1]) && ss[k - 1 + 1] == Step(ss[k - 1], es[k - 1]);
      StepKeepsInv(ss[k - 1], es[k - 1]);
    }
  }

  /** Every run is as good as a sequential one. The history is legal and ends in the list
      as it is; every call that has returned has one place in it, between its beginning and
      its end; and it got what it got there, unless it was a peek that read a freed value. */
  lemma {:induction false} RunsLinearize(ss: seq<State>, es: seq<Event>, k: nat)
    requires IsRun(ss, es) && k < |ss|
    ensures var s := ss[k];
            && Legal(s.book.log) && Replay(s.book.log) == Deq(s.elems, s.adds)
            && s.size == |s.elems|
            && (forall i, j :: 0 <= i < j < |s.book.log| ==> s.book.log[i].call != s.book.log[j].call)
            && (forall r :: r in s.book.ended ==> ReturnOk(s.book.log, r))
  {
    hide Replay, Legal;
    EveryRunKeepsInv(ss, es, k);
  }

  // What time leaves alone: the history only grows, and so do the returns.

  /** Calls from number calls on began when the history had len entries or more. */
  ghost predicate BeganAt(b: Book, calls: nat, len: nat) {
    && (forall t :: t in b.threads && b.threads[t].call >= calls ==> b.threads[t].since >= len)
    && (forall i :: 0 <= i < |b.ended| && b.ended[i].call >= calls ==> b.ended[i].since >= len)
  }

  /** Book b has come to b' by one step of a thread, or by a new call. */
  ghost predicate Moved(b: Book, b': Book) {
    && b.log <= b'.log && b.ended <= b'.ended
    && (forall t :: t in b'.threads ==>
          || (t in b.threads && b'.threads[t].call == b.threads[t].call && b'.threads[t].since == b.threads[t].since)
          || (b'.threads[t].call == b.calls && b'.threads[t].since == |b.log|))
    && (b'.ended == b.ended ||
        exists t ::
          && t in b.threads && t !in b'.threads
          && b'.ended == b.ended + [b'.ended[|b.ended|]]
          && b'.ended[|b.ended|].call == b.threads[t].call && b'.ended[|b.ended|].since == b.threads[t].since)
  }

  lemma {:induction false} FinishedMoved(b: Book, t: Thread, r: Result)
    requires t in b.threads
    ensures Moved(b, Finished(b, t, b.threads[t], r)) && Moved(b, Ended(b, t, b.threads[t], r))
  {
    var b1, b2 := Finished(b, t, b.threads[t], r), Ended(b, t, b.threads[t], r);
    assert b1.ended == b.ended + [b1.ended[|b.ended|]] && b2.ended == b.ended + [b2.ended[|b.ended|]];
  }

  lemma {:induction false} StepMoved(s: State, e: Event)
    requires Possible(s, e)
    ensures Moved(s.book, Step(s, e).book)
  {
    hide Moved, Finished, Ended;
    match e
    case Invoke(t, op) => InvokeMoved(s, t, op);
    case Section(t) =>
      var p := s.book.threads[t];
      FinishedMoved(s.book, t, Added);
      FinishedMoved(s.book, t, Nothing);
      FinishedMoved(s.book, t, Count(s.size));
      if p.Holding? {
        FinishedMoved(s.book, t, Read(s, p.elem));
      } else if p.Checked? && s.elems != [] {
        FinishedMoved(s.book, t, Got(s.elems[0]));
        FinishedMoved(s.book, t, Got(s.elems[|s.elems| - 1]));
      }
      StillMoved(s, t);
  }

  lemma {:induction false} InvokeMoved(s: State, t: Thread, op: Op)
    requires t !in s.book.threads
    ensures Moved(s.book, Step(s, Invoke(t, op)).book)
  {
  }

  /** The steps of a thread that does not return yet. */
  lemma {:induction false} StillMoved(s: State, t: Thread)
    requires t in s.book.threads
    ensures var p := s.book.threads[t];
            && Moved(s.book, s.book)
            && Moved(s.book, s.book.(threads := s.book.threads[t := Checked(p.call, p.op, p.since)]))
            && (s.elems != [] ==>
                  && Moved(s.book, Held(s.book, t, p, s.elems[0]))
                  && Moved(s.book, Held(s.book, t, p, s.elems[|s.elems| - 1])))
  {
  }

  lemma {:induction false} MovedKeepsBegan(b: Book, b': Book, calls: nat, len: nat)
    requires Moved(b, b') && BeganAt(b, calls, len) && len <= |b.log|
    ensures BeganAt(b', calls, len)
  {
  }

  /** In a state no call has a number that is still to come. */
  lemma {:induction false} CallsHaveNumbers(s: State)
    requires Inv(s)
    ensures BeganAt(s.book, s.book.calls, |s.book.log|)
    ensures forall i :: 0 <= i < |s.book.ended| ==> s.book.ended[i].call < s.book.calls
  {
    hide ListOk, FreedOk;
    forall t | t in s.book.threads ensures s.book.threads[t].call < s.book.calls {
      PhaseBounds(s.book, t);
    }
    forall i | 0 <= i < |s.book.ended| ensures s.book.ended[i].call < s.book.calls {
      assert ReturnOk(s.book.log, s.book.ended[i]);
    }
  }

  lemma {:induction false} LaterState(ss: seq<State>, es: seq<Event>, a: nat, k: nat)
    requires IsRun(ss, es) && a <= k < |ss|
    ensures ss[a].book.log <= ss[k].book.log && ss[a].book.ended <= ss[k].book.ended
    ensures BeganAt(ss[k].book, ss[a].book.calls, |ss[a].book.log|)
  {
    hide Inv, Possible, Step, Moved, BeganAt;
    if a == k {
      EveryRunKeepsInv(ss, es, a);
      CallsHaveNumbers(ss[a]);
    } else {
      LaterState(ss, es, a, k - 1);
      assert Possible(ss[k - 1], es[k - 1]) && ss[k - 1 + 1] == Step(ss[k - 1], es[k - 1]);
      StepMoved(ss[k - 1], es[k - 1]);
      MovedGrows(ss[k - 1].book, ss[k].book);
      MovedKeepsBegan(ss[k - 1].book, ss[k].book, ss[a].book.calls, |ss[a].book.log|);
    }
  }

  lemma {:induction false} MovedGrows(b: Book, b': Book)
    requires Moved(b, b')
    ensures b.log <= b'.log && b.ended <= b'.ended
  {
  }

  /** If one call has returned in state a, and another call begins after that and returns by
      state k, then the first one comes before the second one in the history. */
  lemma {:induction false} RealTimeOrder(ss: seq<State>, es: seq<Event>, a: nat, k: nat, r1: Return, r2: Return,
                                         i: nat, j: nat)
    requires IsRun(ss, es) && a <= k < |ss|
    requires r1 in ss[a].book.ended && r2 in ss[k].book.ended && r2.call >= ss[a].book.calls
    requires i < |ss[k].book.log| && ss[k].book.log[i].call == r1.call
    requires j < |ss[k].book.log| && ss[k].book.log[j].call == r2.call
    ensures i < j
  {
    hide IsRun, Replay, Legal;
    LaterState(ss, es, a, k);
    RunsLinearize(ss, es, a);
    RunsLinearize(ss, es, k);
    var early, late := ss[a].book.log, ss[k].book.log;
    var x :| r1.since <= x < r1.until && Matches(early[x], r1);
    var y :| r2.since <= y < r2.until && Matches(late[y], r2);
    OnePlace(late, i, x);
    OnePlace(late, j, y);
  }

  lemma {:induction false} OnePlace(log: seq<Entry>, i: nat, x: nat)
    requires forall a, b :: 0 <= a < b < |log| ==> log[a].call != log[b].call
    requires i < |log| && x < |log| && log[i].call == log[x].call
    ensures i == x
  {
  }

  // ---------------------------------------------------------------------
  // Delivered at most once
  // ---------------------------------------------------------------------

  /** The element a call takes out, and the element a call adds. */
  function Taken(op: Op, r: Result): seq<Elem> {
    if (op.Poll? || op.PollLast?) && r.Got? then [r.elem] else []
  }

  function Put(d: Deq, op: Op): seq<Elem> {
    if op.Add? then [Elem(d.adds, op.data)] else []
  }

  /** The elements that polls took out, and the elements added, in the order of the log. */
  function Delivered(log: seq<Entry>): seq<Elem> {
    if log == [] then []
    else Delivered(log[..|log| - 1]) + Taken(log[|log| - 1].op, log[|log| - 1].result)
  }

  function AddedTo(log: seq<Entry>): seq<Elem> {
    if log == [] then []
    else AddedTo(log[..|log| - 1]) + Put(Replay(log[..|log| - 1]), log[|log| - 1].op)
  }

  /** One call moves at most one element. */
  lemma {:induction false} CallConserves(d: Deq, op: Op)
    ensures multiset(d.elems) + multiset(Put(d, op)) ==
            multiset(Taken(op, Answer(d, op))) + multiset(After(d, op).elems)
    ensures After(d, op).adds == d.adds + |Put(d, op)|
  {
    if op.Poll? && d.elems != [] {
      assert d.elems == [d.elems[0]] + d.elems[1..];
    } else if op.PollLast? && d.elems != [] {
      assert d.elems == d.elems[..|d.elems| - 1] + [d.elems[|d.elems| - 1]];
    }
  }

  lemma {:induction false} LogSteps(log: seq<Entry>)
    requires log != [] && Legal(log)
    ensures var n, e := |log| - 1, log[|log| - 1];
            var d := Replay(log[..n]);
            && Legal(log[..n]) && e.result == Answer(d, e.op) && Replay(log) == After(d, e.op)
            && AddedTo(log) == AddedTo(log[..n]) + Put(d, e.op)
            && Delivered(log) == Delivered(log[..n]) + Taken(e.op, e.result)
  {
  }

  /** What was added is what was delivered and what is still there: nothing is lost and
      nothing is delivered twice. */
  lemma {:induction false} NothingLostOrRepeated(log: seq<Entry>)
    requires Legal(log)
    ensures multiset(AddedTo(log)) == multiset(Delivered(log)) + multiset(Replay(log).elems)
    ensures |AddedTo(log)| == Replay(log).adds
    ensures forall i :: 0 <= i < |AddedTo(log)| ==> AddedTo(log)[i].id == i
  {
    hide Replay, AddedTo, Delivered, Legal, Put, Taken, After, Answer;
    if log == [] {
      NoLog();
    } else {
      var n := |log| - 1;
      var d, op := Replay(log[..n]), log[n].op;
      LogSteps(log);
      NothingLostOrRepeated(log[..n]);
      CallConserves(d, op);
      Balance(AddedTo(log[..n]), Delivered(log[..n]), d.elems, Put(d, op), Taken(op, log[n].result), Replay(log).elems);
      PutHasNextId(d, op);
    }
  }

  lemma {:induction false} PutHasNextId(d: Deq, op: Op)
    ensures |Put(d, op)| <= 1 && forall i :: 0 <= i < |Put(d, op)| ==> Put(d, op)[i].id == d.adds
  {
  }

  lemma {:induction false} NoLog()
    ensures AddedTo([]) == [] && Delivered([]) == [] && Replay([]) == Deq([], 0)
  {
  }

  lemma {:induction false} Balance(added: seq<Elem>, done: seq<Elem>, was: seq<Elem>, put: seq<Elem>,
                                   taken: seq<Elem>, now: seq<Elem>)
    requires multiset(added) == multiset(done) + multiset(was)
    requires multiset(was) + multiset(put) == multiset(taken) + multiset(now)
    ensures multiset(added + put) == multiset(done + taken) + multiset(now)
  {
    var a, b, c := multiset(added), multiset(done), multiset(was);
    var p, t, n := multiset(put), multiset(taken), multiset(now);
    forall x ensures (a + p)[x] == ((b + t) + n)[x] {
      assert a[x] == b[x] + c[x] && (c + p)[x] == (t + n)[x];
    }
    assert a + p == (b + t) + n;
  }

  // Each call returns once.

  // ---------------------------------------------------------------------
  // What the calls of a history return
  // ---------------------------------------------------------------------

  /** How many adds there are in a history; the elements are numbered by their adds. */
  function AddCount(log: seq<Entry>): nat {
    if log == [] then 0 else AddCount(log[..|log| - 1]) + if log[|log| - 1].op.Add? then 1 else 0
  }

  /** What the id-th add added. */
  function DataOf(log: seq<Entry>, id: nat): int
    requires id < AddCount(log)
  {
    var n := |log| - 1;
    if log[n].op.Add? && AddCount(log[..n]) == id then log[n].op.data else DataOf(log[..n], id)
  }

  /** The elements a poll has returned. */
  function Gone(log: seq<Entry>): set<nat> {
    if log == [] then {}
    else
      var e, before := log[|log| - 1], Gone(log[..|log| - 1]);
      if (e.op.Poll? || e.op.PollLast?) && e.result.Got? then before + {e.result.elem.id} else before
  }

  /** An element that was added and has not been returned by a poll. */
  predicate Present(log: seq<Entry>, id: int) {
    0 <= id < AddCount(log) && id !in Gone(log)
  }

  ghost predicate NonePresent(log: seq<Entry>) {
    forall id :: !Present(log, id)
  }

  /** e was added and is there; first says that it was added before all others that are there,
      otherwise after all of them. */
  ghost predicate AtTheEnd(log: seq<Entry>, e: Elem, first: bool) {
    && Present(log, e.id) && e.data == DataOf(log, e.id)
    && forall id :: Present(log, id) ==> if first then e.id <= id else id <= e.id
  }

  /** The list holds what is present, in the order in which it was added. */
  ghost predicate InAddOrder(log: seq<Entry>, d: Deq) {
    && d.adds == AddCount(log)
    && (forall i, j :: 0 <= i < j < |d.elems| ==> d.elems[i].id < d.elems[j].id)
    && (forall i :: 0 <= i < |d.elems| ==> Present(log, d.elems[i].id) && d.elems[i].data == DataOf(log, d.elems[i].id))
    && (forall id :: Present(log, id) ==> HasId(d.elems, id))
    && (forall id :: id in Gone(log) ==> id < AddCount(log))
    && |Gone(log)| + |d.elems| == AddCount(log)
  }

  lemma {:induction false} ReplayIsInAddOrder(log: seq<Entry>)
    requires Legal(log)
    ensures InAddOrder(log, Replay(log))
  {
    if log == [] {
    } else {
      var before, e := log[..|log| - 1], log[|log| - 1];
      ReplayIsInAddOrder(before);
      OneMoreCall(before, e, Replay(before), log);
    }
  }

  lemma {:induction false} OneMoreCall(before: seq<Entry>, e: Entry, d: Deq, log: seq<Entry>)
    requires InAddOrder(before, d) && e.result == Answer(d, e.op) && log == before + [e]
    ensures InAddOrder(log, After(d, e.op))
  {
    hide InAddOrder;
    assert log[..|before|] == before;
    match e.op
    case Add(_) => AddedInOrder(before, e, d, log);
    case Poll => TakenInOrder(before, e, d, log);
    case PollLast => TakenInOrder(before, e, d, log);
    case _ => SameInOrder(before, e, d, log);
  }

  lemma {:induction false} AddedInOrder(before: seq<Entry>, e: Entry, d: Deq, log: seq<Entry>)
    requires InAddOrder(before, d) && e.op.Add? && log == before + [e]
    ensures InAddOrder(log, After(d, e.op))
  {
    assert log[..|before|] == before;
    var d' := After(d, e.op);
    assert Gone(log) == Gone(before) && AddCount(log) == AddCount(before) + 1;
    forall i | 0 <= i < |d'.elems|
      ensures Present(log, d'.elems[i].id) && d'.elems[i].data == DataOf(log, d'.elems[i].id)
    {
      assert i < |d.elems| ==> d'.elems[i] == d.elems[i];
    }
    forall id | Present(log, id) ensures HasId(d'.elems, id) {
      if id == d.adds {
        assert d'.elems[|d.elems|].id == id;
      } else {
        assert Present(before, id);
        HasIdGrows(d.elems, d'.elems[|d.elems|], id);
      }
    }
  }

  lemma {:induction false} HasIdGrows(es: seq<Elem>, x: Elem, id: nat)
    requires HasId(es, id)
    ensures HasId(es + [x], id)
  {
    var i :| 0 <= i < |es| && es[i].id == id;
    assert (es + [x])[i].id == id;
  }

  lemma {:induction false} SameInOrder(before: seq<Entry>, e: Entry, d: Deq, log: seq<Entry>)
    requires InAddOrder(before, d) && log == before + [e]
    requires e.op.Peek? || e.op.PeekLast? || e.op.Size? || ((e.op.Poll? || e.op.PollLast?) && !e.result.Got?)
    ensures InAddOrder(log, d)
  {
    assert log[..|before|] == before;
    assert Gone(log) == Gone(before) && AddCount(log) == AddCount(before);
  }

  lemma {:induction false} TakenInOrder(before: seq<Entry>, e: Entry, d: Deq, log: seq<Entry>)
    requires InAddOrder(before, d) && log == before + [e]
    requires e.result == Answer(d, e.op) && (e.op.Poll? || e.op.PollLast?)
    ensures InAddOrder(log, After(d, e.op))
  {
    hide InAddOrder, Gone, AddCount, DataOf;
    if d.elems == [] {
      SameInOrder(before, e, d, log);
    } else {
      var k := if e.op.Poll? then 0 else |d.elems| - 1;
      TakenSnoc(before, e, log);
      OneLess(before, log, d, k);
      WithoutOne(d, e.op, k);
    }
  }

  lemma {:induction false} TakenSnoc(before: seq<Entry>, e: Entry, log: seq<Entry>)
    requires log == before + [e] && (e.op.Poll? || e.op.PollLast?) && e.result.Got?
    ensures AddCount(log) == AddCount(before) && Gone(log) == Gone(before) + {e.result.elem.id}
    ensures forall id: nat :: id < AddCount(log) ==> DataOf(log, id) == DataOf(before, id)
  {
    assert log[..|before|] == before && log[|before|] == e;
  }

  lemma {:induction false} WithoutOne(d: Deq, op: Op, k: nat)
    requires d.elems != [] && (op.Poll? || op.PollLast?) && k == if op.Poll? then 0 else |d.elems| - 1
    ensures After(d, op) == d.(elems := d.elems[..k] + d.elems[k + 1..]) && Answer(d, op) == Got(d.elems[k])
  {
  }

  /** The element at position k is gone from the list and from what is present. */
  lemma {:induction false} OneLess(before: seq<Entry>, log: seq<Entry>, d: Deq, k: nat)
    requires InAddOrder(before, d) && k < |d.elems|
    requires AddCount(log) == AddCount(before) && Gone(log) == Gone(before) + {d.elems[k].id}
    requires forall id: nat :: id < AddCount(log) ==> DataOf(log, id) == DataOf(before, id)
    ensures InAddOrder(log, d.(elems := d.elems[..k] + d.elems[k + 1..]))
  {
    hide Gone, AddCount, DataOf, HasId;
    var r := d.elems[..k] + d.elems[k + 1..];
    assert forall i :: 0 <= i < |r| ==> r[i] == d.elems[if i < k then i else i + 1];
    assert Present(before, d.elems[k].id);
    forall id | Present(log, id) ensures HasId(r, id) {
      assert Present(before, id);
      HasIdWithout(d.elems, k, id);
    }
  }

  lemma {:induction false} HasIdWithout(es: seq<Elem>, k: nat, id: int)
    requires k < |es| && HasId(es, id) && id != es[k].id
    ensures HasId(es[..k] + es[k + 1..], id)
  {
    var r := es[..k] + es[k + 1..];
    var i :| 0 <= i < |es| && es[i].id == id;
    assert r[if i < k then i else i - 1].id == id;
  }

  /** Every call of a history, told by the calls before it alone: poll and peek give the element
      that was added first of those that are there, poll_last and peek_last the one that was
      added last, nothing exactly if there is none, and size how many there are. */
  lemma {:induction false} AnswersInOrder(log: seq<Entry>, i: nat)
    requires Legal(log) && i < |log|
    ensures var before, e := log[..i], log[i];
            match e.op
            case Add(_) => e.result == Added
            case Size => e.result == Count(AddCount(before) - |Gone(before)|)
            case _ =>
              if NonePresent(before) then e.result == Nothing
              else e.result.Got? && AtTheEnd(before, e.result.elem, e.op.Poll? || e.op.Peek?)
  {
    hide Legal, Replay, Gone, AddCount, AtTheEnd, NonePresent;
    var before := log[..i];
    LegalUpTo(log, i);
    ReplayIsInAddOrder(before);
    FirstAndLast(before, Replay(before));
  }

  lemma {:induction false} LegalUpTo(log: seq<Entry>, i: nat)
    requires Legal(log) && i < |log|
    ensures Legal(log[..i]) && log[i].result == Answer(Replay(log[..i]), log[i].op)
  {
    hide Replay, Answer;
    if i == |log| - 1 {
    } else {
      var front := log[..|log| - 1];
      LegalUpTo(front, i);
      assert front[..i] == log[..i];
    }
  }

  lemma {:induction false} FirstAndLast(log: seq<Entry>, d: Deq)
    requires InAddOrder(log, d)
    ensures d.elems == [] <==> NonePresent(log)
    ensures d.elems != [] ==> AtTheEnd(log, d.elems[0], true) && AtTheEnd(log, d.elems[|d.elems| - 1], false)
  {
    hide Gone, AddCount, DataOf;
    if d.elems == [] {
      forall id ensures !Present(log, id) {
        assert Present(log, id) ==> HasId(d.elems, id);
      }
    } else {
      assert Present(log, d.elems[0].id);
      forall id | Present(log, id) ensures d.elems[0].id <= id <= d.elems[|d.elems| - 1].id {
        var k :| 0 <= k < |d.elems| && d.elems[k].id == id;
      }
    }
  }

  ghost predicate EndedOk(b: Book) {
    && (forall i, j :: 0 <= i < j < |b.ended| ==> b.ended[i].call != b.ended[j].call)
    && (forall t, i :: t in b.threads && 0 <= i < |b.ended| ==> b.ended[i].call != b.threads[t].call)
  }

  lemma {:induction false} MovedKeepsEnded(s: State, b': Book)
    requires Inv(s) && EndedOk(s.book) && Moved(s.book, b')
    ensures EndedOk(b')
  {
    hide ListOk, FreedOk, PhaseOk, ReturnOk, BeganAt;
    var b := s.book;
    CallsHaveNumbers(s);
    if b'.ended != b.ended {
      var t :| && t in b.threads && t !in b'.threads
               && b'.ended == b.ended + [b'.ended[|b.ended|]]
               && b'.ended[|b.ended|].call == b.threads[t].call && b'.ended[|b.ended|].since == b.threads[t].since;
      PhaseBounds(b, t);
    }
  }

  lemma {:induction false} EveryCallReturnsOnce(ss: seq<State>, es: seq<Event>, k: nat)
    requires IsRun(ss, es) && k < |ss|
    ensures EndedOk(ss[k].book)
  {
    hide Inv, Possible, Step, Moved;
    if k == 0 {
    } else {
      EveryCallReturnsOnce(ss, es, k - 1);
      EveryRunKeepsInv(ss, es, k - 1);
      assert Possible(ss[k - 1], es[k - 1]) && ss[k - 1 + 1] == Step(ss[k - 1], es[k - 1]);
      StepMoved(ss[k - 1], es[k - 1]);
      MovedKeepsEnded(ss[k - 1], ss[k].book);
    }
  }

  /** Where the element of an entry is among the delivered ones. */
  lemma {:induction false} DeliveredAt(log: seq<Entry>, i: nat)
    requires i < |log| && Taken(log[i].op, log[i].result) != []
    ensures var n := |Delivered(log[..i])|;
            n < |Delivered(log)| && Delivered(log)[n] == log[i].result.elem
    decreases |log|
  {
    var n := |log| - 1;
    if i == n {
    } else {
      DeliveredAt(log[..n], i);
      assert log[..n][..i] == log[..i];
    }
  }

  lemma {:induction false} DeliveredGrows(log: seq<Entry>, i: nat, j: nat)
    requires i < j <= |log| && Taken(log[i].op, log[i].result) != []
    ensures |Delivered(log[..i])| < |Delivered(log[..j])|
  {
    assert log[..j][..i] == log[..i] && log[..j][i] == log[i];
    DeliveredAt(log[..j], i);
  }

  /** Two polls in a legal history take different elements. */
  lemma {:induction false} PollsDiffer(log: seq<Entry>, i: nat, j: nat)
    requires Legal(log) && i < j < |log|
    requires Taken(log[i].op, log[i].result) != [] && Taken(log[j].op, log[j].result) != []
    ensures log[i].result.elem.id != log[j].result.elem.id
  {
    hide Legal, Delivered, AddedTo, Replay;
    NothingLostOrRepeated(log);
    DeliveredAt(log, i);
    DeliveredAt(log, j);
    DeliveredGrows(log, i, j);
    OnceEach(AddedTo(log), Delivered(log), Replay(log).elems, |Delivered(log[..i])|, |Delivered(log[..j])|);
  }

  /** Of elements numbered as they were added, no two among the delivered are the same. */
  lemma {:induction false} OnceEach(added: seq<Elem>, done: seq<Elem>, left: seq<Elem>, x: nat, y: nat)
    requires multiset(added) == multiset(done) + multiset(left)
    requires forall i :: 0 <= i < |added| ==> added[i].id == i
    requires x < y < |done|
    ensures done[x].id != done[y].id
  {
    var a, b := done[x], done[y];
    assert a in multiset(added) && b in multiset(added);
    assert a in added && b in added;
    AtMostOnce(added, a);
    assert multiset(added)[a] == multiset(done)[a] + multiset(left)[a];
    AtLeastTwice(done, x, y);
    assert a == added[a.id] && b == added[b.id];
  }

  lemma {:induction false} AtLeastTwice(s: seq<Elem>, x: nat, y: nat)
    requires x < y < |s|
    ensures s[x] == s[y] ==> multiset(s)[s[x]] >= 2
  {
    assert s == s[..y] + [s[y]] + s[y + 1..];
    assert s[..y][x] == s[x];
    assert s[x] in multiset(s[..y]);
  }

  lemma {:induction false} AtMostOnce(added: seq<Elem>, e: Elem)
    requires forall i :: 0 <= i < |added| ==> added[i].id == i
    ensures multiset(added)[e] <= 1
  {
    if added == [] {
    } else {
      var n := |added| - 1;
      AtMostOnce(added[..n], e);
      assert added == added[..n] + [added[n]];
      assert e == added[n] ==> e !in added[..n];
      assert e in multiset(added[..n]) ==> e in added[..n];
    }
  }

  /** No element is delivered twice: two polls that have returned never carry the same one. */
  lemma {:induction false} DeliveredOnce(ss: seq<State>, es: seq<Event>, k: nat, x: nat, y: nat)
    requires IsRun(ss, es) && k < |ss| && x < y < |ss[k].book.ended|
    requires var r1, r2 := ss[k].book.ended[x], ss[k].book.ended[y];
             Taken(r1.op, r1.result) != [] && Taken(r2.op, r2.result) != []
    ensures ss[k].book.ended[x].result.elem.id != ss[k].book.ended[y].result.elem.id
  {
    hide IsRun, Replay, Legal;
    var log, r1, r2 := ss[k].book.log, ss[k].book.ended[x], ss[k].book.ended[y];
    RunsLinearize(ss, es, k);
    EveryCallReturnsOnce(ss, es, k);
    assert ReturnOk(log, r1) && ReturnOk(log, r2);
    var i :| r1.since <= i < r1.until && Matches(log[i], r1);
    var j :| r2.since <= j < r2.until && Matches(log[j], r2);
    if i < j {
      PollsDiffer(log, i, j);
    } else {
      PollsDiffer(log, j, i);
    }
  }

  // ---------------------------------------------------------------------
  // Peek reads after unlocking
  // ---------------------------------------------------------------------

  lemma {:induction false} IdsBelowAdds(log: seq<Entry>)
    ensures forall i :: 0 <= i < |Replay(log).elems| ==> Replay(log).elems[i].id < Replay(log).adds
  {
    if log == [] {
    } else {
      IdsBelowAdds(log[..|log| - 1]);
    }
  }

  lemma {:induction false} SeenWasAdded(log: seq<Entry>, i: nat)
    requires Legal(log) && i < |log| && log[i].result.Got?
    ensures log[i].result.elem.id < Replay(log).adds
  {
    var n := |log| - 1;
    if i == n {
      IdsBelowAdds(log[..n]);
    } else {
      SeenWasAdded(log[..n], i);
    }
  }

  lemma {:induction false} StillThere(s: State, id: nat)
    requires FreedOk(s) && id < s.adds
    ensures id !in s.freed <==> HasId(s.elems, id)
  {
  }

  /** A peek returns the element it saw exactly if that element is still in the deque when
      it reads the value, which it does without the lock. */
  lemma {:induction false} PeekIsExact(ss: seq<State>, es: seq<Event>, k: nat, t: Thread)
    requires IsRun(ss, es) && k < |ss| && t in ss[k].book.threads && ss[k].book.threads[t].Holding?
    ensures var s, p := ss[k], ss[k].book.threads[t];
            && (Read(s, p.elem) == Got(p.elem) <==> HasId(s.elems, p.elem.id))
            && exists i :: p.since <= i < |s.book.log| && s.book.log[i] == Entry(p.call, p.op, Got(p.elem))
  {
    hide Replay, Legal, HasId;
    var s, p := ss[k], ss[k].book.threads[t];
    EveryRunKeepsInv(ss, es, k);
    assert PhaseOk(s.book.log, s.book.calls, p);
    var i :| p.since <= i < |s.book.log| && s.book.log[i] == Entry(p.call, p.op, Got(p.elem));
    SeenWasAdded(s.book.log, i);
    StillThere(s, p.elem.id);
  }

  lemma {:induction false} RunSnoc(ss: seq<State>, es: seq<Event>, e: Event)
    requires |ss| == |es| + 1 && IsRun(ss, es) && Possible(ss[|es|], e)
    ensures IsRun(ss + [Step(ss[|es|], e)], es + [e]) && |ss| == |es| + 1
  {
    hide Step, Possible;
    var tt, fs := ss + [Step(ss[|es|], e)], es + [e];
    forall i | 0 <= i < |fs| ensures Possible(tt[i], fs[i]) && tt[i + 1] == Step(tt[i], fs[i]) {
      if i < |es| {
        assert tt[i] == ss[i] && fs[i] == es[i] && tt[i + 1] == ss[i + 1];
      }
    }
  }

  /** The state in which the only thread holds the value of the only element. */
  function Peeked(): State {
    var x := Elem(0, 7);
    State([x], 1, 1, {},
          Book(map[1 := Holding(1, Peek, 1, x)], 2,
               [Entry(0, Add(7), Added), Entry(1, Peek, Got(x))], [Return(0, Add(7), Added, 0, 1)]))
  }

  lemma {:induction false} PeekedIsReached() returns (ss: seq<State>, es: seq<Event>)
    ensures |ss| == |es| + 1 && IsRun(ss, es) && ss[|es|] == Peeked()
  {
    hide IsRun;
    var x := Elem(0, 7);
    var s1 := State([], 0, 0, {}, Book(map[0 := Invoked(0, Add(7), 0)], 1, [], []));
    var b := Book(map[], 1, [Entry(0, Add(7), Added)], [Return(0, Add(7), Added, 0, 1)]);
    var s2 := State([x], 1, 1, {}, b);
    var s3 := State([x], 1, 1, {}, b.(threads := map[1 := Invoked(1, Peek, 1)], calls := 2));
    var s4 := State([x], 1, 1, {}, b.(threads := map[1 := Checked(1, Peek, 1)], calls := 2));
    assert Step(EMPTY, Invoke(0, Add(7))) == s1;
    assert Step(s1, Section(0)) == s2;
    assert Step(s2, Invoke(1, Peek)) == s3;
    assert Step(s3, Section(1)) == s4;
    assert Step(s4, Section(1)) == Peeked();
    ss, es := [EMPTY], [];
    StartOfRun();
    RunSnoc(ss, es, Invoke(0, Add(7)));
    RunSnoc(ss + [s1], es + [Invoke(0, Add(7))], Section(0));
    ss, es := ss + [s1] + [s2], es + [Invoke(0, Add(7))] + [Section(0)];
    RunSnoc(ss, es, Invoke(1, Peek));
    RunSnoc(ss + [s3], es + [Invoke(1, Peek)], Section(1));
    ss, es := ss + [s3] + [s4], es + [Invoke(1, Peek)] + [Section(1)];
    RunSnoc(ss, es, Section(1));
    ss, es := ss + [Peeked()], es + [Section(1)];
  }

  lemma {:induction false} StartOfRun()
    ensures IsRun([EMPTY], [])
  {
  }

  /** A thread peeks, a second one polls the same element, and then the first one reads a
      value that has been freed. */
  lemma {:induction false} PeekCanReadFreed() returns (ss: seq<State>, es: seq<Event>)
    ensures |ss| == |es| + 1 && IsRun(ss, es) && Return(1, Peek, Garbage, 1, 3) in ss[|es|].book.ended
  {
    hide IsRun;
    var s0, x := Peeked(), Elem(0, 7);
    var b := s0.book;
    var s1 := s0.(book := b.(threads := b.threads[2 := Invoked(2, Poll, 2)], calls := 3));
    var s2 := s0.(book := b.(threads := b.threads[2 := Checked(2, Poll, 2)], calls := 3));
    var ended := b.ended + [Return(2, Poll, Got(x), 2, 3)];
    var s3 := State([], 0, 1, {0}, Book(b.threads, 3, b.log + [Entry(2, Poll, Got(x))], ended));
    assert Step(s0, Invoke(2, Poll)) == s1;
    assert Step(s1, Section(2)) == s2;
    assert Step(s2, Section(2)) == s3;
    var s4 := Step(s3, Section(1));
    assert s4.book.ended == s3.book.ended + [Return(1, Peek, Garbage, 1, 3)];
    ss, es := PeekedIsReached();
    RunSnoc(ss, es, Invoke(2, Poll));
    RunSnoc(ss + [s1], es + [Invoke(2, Poll)], Section(2));
    ss, es := ss + [s1] + [s2], es + [Invoke(2, Poll)] + [Section(2)];
    RunSnoc(ss, es, Section(2));
    RunSnoc(ss + [s3], es + [Section(2)], Section(1));
    ss, es := ss + [s3] + [s4], es + [Section(2)] + [Section(1)];
  }
}
