/** The messages of the transfer protocol on a socket: big-endian numbers, written and read
    in as many pieces as the kernel likes. */
module Wire {
  import opened Common

  type Bytes = seq<byte>

  const CONNECTION_TRANSFER := 0
  const CONNECTION_KILL := 2

  type int32 = x: int | -0x8000_0000 <= x < 0x8000_0000
  type int64 = x: int | -0x8000_0000_0000_0000 <= x < 0x8000_0000_0000_0000

  // ---------------------------------------------------------------------
  // Numbers
  // ---------------------------------------------------------------------

  /** The two's complement of a number, and back. */
  function ToUnsigned32(i: int32): (u: nat)
    ensures u < TWO_32
  {
    i % TWO_32
  }

  function ToSigned32(u: nat): int32
    requires u < TWO_32
  {
    if u < TWO_32 / 2 then u else u - TWO_32
  }

  function ToUnsigned64(i: int64): (u: nat)
    ensures u < TWO_64
  {
    i % TWO_64
  }

  function ToSigned64(u: nat): int64
    requires u < TWO_64
  {
    if u < TWO_64 / 2 then u else u - TWO_64
  }

  /** pgagroal_write_int32 and pgagroal_read_int32: network byte order. */
  function WriteInt32(i: int32): (b: Bytes)
    ensures |b| == 4
  {
    var u := ToUnsigned32(i);
    [u / 256 / 256 / 256, u / 256 / 256 % 256, u / 256 % 256, u % 256]
  }

  function BigEndian(b: Bytes): (u: nat)
    requires |b| == 4
    ensures u < TWO_32
  {
    var b0: int, b1: int, b2: int, b3: int := b[0], b[1], b[2], b[3];
    ((b0 * 256 + b1) * 256 + b2) * 256 + b3
  }

  function ReadInt32(b: Bytes): int32
    requires |b| == 4
  {
    ToSigned32(BigEndian(b))
  }

  lemma {:induction false} SignedRoundTrip(i: int32, u: nat)
    requires u < TWO_32
    ensures ToSigned32(ToUnsigned32(i)) == i && ToUnsigned32(ToSigned32(u)) == u
  {
  }

  lemma {:induction false} Digits(u: nat)
    ensures ((u / 256 / 256 / 256 * 256 + u / 256 / 256 % 256) * 256 + u / 256 % 256) * 256 + u % 256 == u
  {
    var q := u / 256;
    var r := q / 256;
    assert u == q * 256 + u % 256 && q == r * 256 + q % 256 && r == r / 256 * 256 + r % 256;
  }

  lemma {:induction false} Digit(q: nat, r: nat)
    requires r < 256
    ensures (q * 256 + r) / 256 == q && (q * 256 + r) % 256 == r
  {
  }

  lemma {:induction false} Int32RoundTrip(i: int32)
    ensures ReadInt32(WriteInt32(i)) == i
  {
    hide ToUnsigned32, ToSigned32;
    Digits(ToUnsigned32(i));
    SignedRoundTrip(i, 0);
  }

  /** The most significant byte comes first; a negative number is written as its two's
      complement. */
  lemma {:induction false} NetworkOrder(i: int32)
    ensures var b := WriteInt32(i);
            var b0: int, b1: int, b2: int, b3: int := b[0], b[1], b[2], b[3];
            b0 * 16_777_216 + b1 * 65_536 + b2 * 256 + b3 == if i < 0 then i + 4_294_967_296 else i
  {
    hide ToUnsigned32;
    Digits(ToUnsigned32(i));
    Complement(i);
  }

  lemma {:induction false} Complement(i: int32)
    ensures ToUnsigned32(i) == if i < 0 then i + 4_294_967_296 else i
  {
  }

  lemma {:induction false} Int32BackTrip(b: Bytes)
    requires |b| == 4
    ensures WriteInt32(ReadInt32(b)) == b
  {
    hide ToUnsigned32, ToSigned32;
    SignedRoundTrip(0, BigEndian(b));
    var b0: int, b1: int, b2: int, b3: int := b[0], b[1], b[2], b[3];
    Digit((b0 * 256 + b1) * 256 + b2, b3);
    Digit(b0 * 256 + b1, b2);
    Digit(b0, b1);
  }

  /** A generation goes over the wire as its upper and its lower half. */
  function WriteGeneration(g: int64): (b: Bytes)
    ensures |b| == 8
  {
    var u := ToUnsigned64(g);
    WriteInt32(ToSigned32(u / TWO_32)) + WriteInt32(ToSigned32(u % TWO_32))
  }

  function ReadGeneration(b: Bytes): int64
    requires |b| == 8
  {
    ToSigned64(ToUnsigned32(ReadInt32(b[..4])) * TWO_32 + ToUnsigned32(ReadInt32(b[4..])))
  }

  lemma {:induction false} Signed64RoundTrip(i: int64)
    ensures ToSigned64(ToUnsigned64(i)) == i
  {
  }

  lemma {:induction false} GenerationRoundTrip(g: int64)
    ensures ReadGeneration(WriteGeneration(g)) == g
  {
    hide WriteInt32, ReadInt32, ToUnsigned32, ToSigned32, ToUnsigned64, ToSigned64;
    var u := ToUnsigned64(g);
    var hi, lo := ToSigned32(u / TWO_32), ToSigned32(u % TWO_32);
    var b := WriteGeneration(g);
    assert b[..4] == WriteInt32(hi) && b[4..] == WriteInt32(lo);
    Int32RoundTrip(hi);
    Int32RoundTrip(lo);
    SignedRoundTrip(0, u / TWO_32);
    SignedRoundTrip(0, u % TWO_32);
    Signed64RoundTrip(g);
  }

  // ---------------------------------------------------------------------
  // Reading
  // ---------------------------------------------------------------------

  /** What one call of the kernel does: nothing yet, an error, or n bytes moved. */
  datatype Call = Again | Error | Moved(n: nat)

  datatype Status = Done | Failed | Waiting

  /** How a series of reads goes for a field of a given size: the number of reads that bring
      less than what is missing, and whether one brings the rest. */
  function Short(calls: seq<Call>, needs: nat): nat {
    if calls == [] then 0
    else
      match calls[0]
      case Again => Short(calls[1..], needs)
      case Error => 0
      case Moved(n) => if n < needs then 1 + Short(calls[1..], needs - n) else 0
  }

  predicate Completes(calls: seq<Call>, needs: nat) {
    calls != [] &&
    match calls[0]
    case Again => Completes(calls[1..], needs)
    case Error => false
    case Moved(n) => n == needs || (n < needs && Completes(calls[1..], needs - n))
  }

  /** How many of some calls moved bytes, and how many bytes. */
  function MovedCalls(calls: seq<Call>): nat {
    if calls == [] then 0 else (if calls[0].Moved? then 1 else 0) + MovedCalls(calls[1..])
  }

  function MovedBytes(calls: seq<Call>): nat {
    if calls == [] then 0 else (if calls[0].Moved? then calls[0].n else 0) + MovedBytes(calls[1..])
  }

  /** Call k brings the last bytes, and there was no error before it. */
  predicate EndsAt(calls: seq<Call>, needs: nat, k: nat) {
    && k < |calls| && calls[k].Moved? && Error !in calls[..k]
    && MovedBytes(calls[..k]) < needs == MovedBytes(calls[..k]) + calls[k].n
  }

  /** A field is complete exactly if some call brings its last bytes; the short reads are then
      all calls before it that moved bytes. */
  lemma {:induction false} CompleteAt(calls: seq<Call>, needs: nat, k: nat)
    requires EndsAt(calls, needs, k)
    ensures Completes(calls, needs) && Short(calls, needs) == MovedCalls(calls[..k])
  {
    if k == 0 {
    } else {
      var rest, done := calls[1..], calls[..k];
      assert done[1..] == rest[..k - 1] && done[0] == calls[0] && calls[0] in done;
      CompleteAt(rest, if calls[0].Moved? then needs - calls[0].n else needs, k - 1);
    }
  }

  lemma {:induction false} EndOfComplete(calls: seq<Call>, needs: nat) returns (k: nat)
    requires Completes(calls, needs) && 0 < needs
    ensures EndsAt(calls, needs, k)
  {
    if calls[0] == Moved(needs) {
      k := 0;
    } else {
      var rest := calls[1..];
      var j := EndOfComplete(rest, if calls[0].Moved? then needs - calls[0].n else needs);
      k := j + 1;
      assert calls[..k][1..] == rest[..j] && calls[..k][0] == calls[0];
      assert forall c :: c in calls[..k] ==> c == calls[0] || c in rest[..j];
    }
  }

  /** The kernel moves no more than it was asked for, and no more than there is. */
  predicate Possible(calls: seq<Call>, needs: nat, there: nat) {
    calls == [] ||
    match calls[0]
    case Moved(n) => n <= needs && n <= there && (n < needs ==> Possible(calls[1..], needs - n, there - n))
    case _ => Possible(calls[1..], needs, there)
  }

  /** read_complete: gives up at the 101st read that is too short. calls are the results of
      the reads to come; Waiting is a loop that is still going when they are used up. */
  method ReadComplete(stream: Bytes, size: nat, calls: seq<Call>) returns (status: Status, buf: Bytes, rest: Bytes,
                      count: nat)
    requires Possible(calls, size, |stream|)
    ensures stream == buf + rest && |buf| <= size
    ensures status == Done ==> |buf| == size
    ensures status == Done <==> Completes(calls, size) && Short(calls, size) <= 100
    ensures status == Waiting ==> Short(calls, size) <= 100
    ensures count <= 101
  {
    buf, rest, count := [], stream, 0;
    var needs, retries, i := size, 0, 0;
    assert calls[0..] == calls;
    while i < |calls|
      invariant 0 <= i <= |calls| && retries <= 100 && count == retries
      invariant stream == buf + rest && |buf| + needs == size
      invariant Possible(calls[i..], needs, |rest|)
      invariant Completes(calls, size) <==> Completes(calls[i..], needs)
      invariant Short(calls, size) == retries + Short(calls[i..], needs)
    {
      assert calls[i..][1..] == calls[i + 1..];
      match calls[i] {
        case Again =>
        case Error =>
          status := Failed;
          return;
        case Moved(n) =>
          count := count + 1;
          buf, rest := buf + rest[..n], rest[n..];
          if n == needs {
            status := Done;
            return;
          }
          if retries >= 100 {
            status := Failed;
            return;
          }
          needs := needs - n;
          retries := retries + 1;
      }
      i := i + 1;
    }
    status := Waiting;
  }

  // ---------------------------------------------------------------------
  // Writing
  // ---------------------------------------------------------------------

  /** How many bytes of a field a series of writes gets out. */
  function Out(calls: seq<Call>, needs: nat): (n: nat)
    ensures n <= needs
  {
    if calls == [] then 0
    else
      match calls[0]
      case Again => Out(calls[1..], needs)
      case Error => 0
      case Moved(n) => if n < needs then n + Out(calls[1..], needs - n) else if n == needs then needs else 0
  }

  lemma {:induction false} OutIsComplete(calls: seq<Call>, needs: nat)
    requires 0 < needs
    ensures Out(calls, needs) == needs <==> Completes(calls, needs)
  {
    if calls == [] {
    } else {
      match calls[0]
      case Again => OutIsComplete(calls[1..], needs);
      case Error =>
      case Moved(n) =>
        if n < needs {
          OutIsComplete(calls[1..], needs - n);
        }
    }
  }

  /** A series that breaks off, at its first error or at its end, before all bytes are out: what
      is out are the bytes moved until then. */
  lemma {:induction false} OutUntilError(calls: seq<Call>, needs: nat, k: nat)
    requires k <= |calls| && Error !in calls[..k] && (k < |calls| ==> calls[k] == Error)
    requires MovedBytes(calls[..k]) < needs
    ensures Out(calls, needs) == MovedBytes(calls[..k]) && !Completes(calls, needs)
  {
    if k == 0 {
    } else {
      var rest, done := calls[1..], calls[..k];
      assert done[1..] == rest[..k - 1] && done[0] == calls[0] && calls[0] in done;
      OutUntilError(rest, if calls[0].Moved? then needs - calls[0].n else needs, k - 1);
    }
  }

  /** write_socket: goes on until everything is out or there is an error. */
  method WriteSocket(buf: Bytes, calls: seq<Call>) returns (status: Status, sent: Bytes)
    requires Possible(calls, |buf|, |buf|) && 0 < |buf|
    ensures sent == buf[..Out(calls, |buf|)]
    ensures status == Done <==> Completes(calls, |buf|)
    ensures status == Done <==> sent == buf
  {
    OutIsComplete(calls, |buf|);
    sent := [];
    var remaining, i := |buf|, 0;
    assert calls[0..] == calls;
    while i < |calls|
      invariant 0 <= i <= |calls| && 0 < remaining <= |buf|
      invariant sent == buf[..|buf| - remaining]
      invariant Out(calls, |buf|) == |buf| - remaining + Out(calls[i..], remaining)
      invariant Possible(calls[i..], remaining, remaining)
      invariant Completes(calls, |buf|) <==> Completes(calls[i..], remaining)
    {
      assert calls[i..][1..] == calls[i + 1..];
      match calls[i] {
        case Again =>
        case Error =>
          status := Failed;
          return;
        case Moved(n) =>
          sent := sent + buf[|buf| - remaining..|buf| - remaining + n];
          remaining := remaining - n;
          if remaining == 0 {
            status := Done;
            return;
          }
      }
      i := i + 1;
    }
    status := Waiting;
  }

  // ---------------------------------------------------------------------
  // A KILL message
  // ---------------------------------------------------------------------

  datatype Kill = Kill(slot: int32, generation: int64)

  function KillBytes(k: Kill): Bytes {
    WriteInt32(CONNECTION_KILL) + WriteInt32(k.slot) + WriteGeneration(k.generation)
  }

  /** The results of the kernel calls for the three fields. */
  datatype Calls = Calls(id: seq<Call>, slot: seq<Call>, generation: seq<Call>)

  predicate CanWrite(c: Calls) {
    Possible(c.id, 4, 4) && Possible(c.slot, 4, 4) && Possible(c.generation, 8, 8)
  }

  /** All three fields go out to the last byte. */
  predicate AllOut(c: Calls) {
    Completes(c.id, 4) && Completes(c.slot, 4) && Completes(c.generation, 8)
  }

  /** What a send leaves on the wire: as much of each field as got out. */
  function SentKill(k: Kill, calls: Calls): Bytes {
    WriteInt32(CONNECTION_KILL)[..Out(calls.id, 4)] + WriteInt32(k.slot)[..Out(calls.slot, 4)] +
    WriteGeneration(k.generation)[..Out(calls.generation, 8)]
  }

  /** The worker's side: id, slot and generation, one after the other. A field that cannot be
      written does not keep the next ones from being written. */
  method SendKill(k: Kill, calls: Calls) returns (ok: bool, wire: Bytes)
    requires CanWrite(calls)
    ensures wire == SentKill(k, calls)
    ensures ok <==> AllOut(calls)
    ensures ok <==> wire == KillBytes(k)
    ensures |wire| <= 16 && (ok <==> |wire| == 16)
  {
    hide WriteInt32, WriteGeneration, Completes, Possible, Out;
    ok := true;
    var status, id := WriteSocket(WriteInt32(CONNECTION_KILL), calls.id);
    if status != Done {
      ok := false;
    }
    var slot, generation;
    status, slot := WriteSocket(WriteInt32(k.slot), calls.slot);
    if status != Done {
      ok := false;
    }
    status, generation := WriteSocket(WriteGeneration(k.generation), calls.generation);
    if status != Done {
      ok := false;
    }
    wire := id + slot + generation;
    AllOrLess(k, calls);
  }

  lemma {:induction false} AllOrLess(k: Kill, calls: Calls)
    ensures var wire := SentKill(k, calls);
            |wire| <= 16 && (|wire| == 16 <==> AllOut(calls)) && (wire == KillBytes(k) <==> AllOut(calls))
  {
    hide WriteInt32, WriteGeneration, Completes, Out;
    OutIsComplete(calls.id, 4);
    OutIsComplete(calls.slot, 4);
    OutIsComplete(calls.generation, 8);
    assert WriteInt32(CONNECTION_KILL)[..4] == WriteInt32(CONNECTION_KILL)
           && WriteInt32(k.slot)[..4] == WriteInt32(k.slot);
    assert WriteGeneration(k.generation)[..8] == WriteGeneration(k.generation);
  }

  /** A field comes in before the reader loses patience. */
  predicate Arrives(calls: seq<Call>, size: nat) {
    Completes(calls, size) && Short(calls, size) <= 100
  }

  predicate CanRead(c: Calls, there: nat) {
    && Possible(c.id, 4, there)
    && (4 <= there ==> Possible(c.slot, 4, there - 4))
    && (8 <= there ==> Possible(c.generation, 8, there - 8))
  }

  /** Main's side: the message if all of it arrives and it is a KILL. */
  method ReceiveKill(stream: Bytes, calls: Calls) returns (k: Option<Kill>, rest: Bytes)
    requires CanRead(calls, |stream|)
    ensures |rest| <= |stream| && rest == stream[|stream| - |rest|..]
    ensures k.Some? ==>
              && |stream| >= 16 && rest == stream[16..]
              && ReadInt32(stream[..4]) == CONNECTION_KILL
              && k.value == Kill(ReadInt32(stream[4..8]), ReadGeneration(stream[8..16]))
    ensures k.Some? <==>
              && Arrives(calls.id, 4) && |stream| >= 4 && ReadInt32(stream[..4]) == CONNECTION_KILL
              && Arrives(calls.slot, 4) && Arrives(calls.generation, 8) && |stream| >= 16
  {
    hide ReadInt32, ReadGeneration, Completes, Short, Possible;
    var status, buf, count;
    status, buf, rest, count := ReadComplete(stream, 4, calls.id);
    Cut(stream, 0, buf, rest);
    if status != Done || ReadInt32(buf) != CONNECTION_KILL {
      return None, rest;
    }
    status, buf, rest, count := ReadComplete(rest, 4, calls.slot);
    Cut(stream, 4, buf, rest);
    if status != Done {
      return None, rest;
    }
    var slot := ReadInt32(buf);
    status, buf, rest, count := ReadComplete(rest, 8, calls.generation);
    Cut(stream, 8, buf, rest);
    if status != Done {
      return None, rest;
    }
    return Some(Kill(slot, ReadGeneration(buf))), rest;
  }

  /** A piece of the stream behind its first n bytes. */
  lemma {:induction false} Cut(stream: Bytes, n: nat, buf: Bytes, rest: Bytes)
    requires n <= |stream| && stream[n..] == buf + rest
    ensures rest == stream[|stream| - |rest|..] && n + |buf| <= |stream|
    ensures buf == stream[n..n + |buf|] && rest == stream[n + |buf|..]
  {
    assert stream[n..][..|buf|] == buf && stream[n..][|buf|..] == rest;
  }

  /** The worker sends a KILL and closes the socket; main reads what there is. Whatever
      pieces it is written in and read in, and whichever writes fail, main gets the KILL
      that was sent or none. into says how the reads go, given how much there is to read. */
  method Transmit(k: Kill, out: Calls, into: nat -> Calls) returns (r: Option<Kill>)
    requires CanWrite(out) && forall n :: CanRead(into(n), n)
    ensures r.Some? ==> r.value == k
    ensures r.Some? <==>
              && AllOut(out)
              && Arrives(into(16).id, 4) && Arrives(into(16).slot, 4) && Arrives(into(16).generation, 8)
  {
    hide WriteInt32, ReadInt32, WriteGeneration, ReadGeneration, Completes, Short, Possible, Arrives, SentKill,
         AllOut, CanRead;
    var ok, wire := SendKill(k, out);
    KillRoundTrip(k, []);
    assert KillBytes(k) + [] == KillBytes(k);
    var rest;
    r, rest := ReceiveKill(wire, into(|wire|));
  }

  lemma {:induction false} KillRoundTrip(k: Kill, behind: Bytes)
    ensures var s := KillBytes(k) + behind;
            && |s| == 16 + |behind|
            && ReadInt32(s[..4]) == CONNECTION_KILL
            && ReadInt32(s[4..8]) == k.slot && ReadGeneration(s[8..16]) == k.generation && s[16..] == behind
  {
    hide WriteInt32, ReadInt32, WriteGeneration, ReadGeneration;
    var s := KillBytes(k) + behind;
    assert s[..4] == WriteInt32(CONNECTION_KILL) && s[4..8] == WriteInt32(k.slot)
           && s[8..16] == WriteGeneration(k.generation);
    Int32RoundTrip(CONNECTION_KILL);
    Int32RoundTrip(k.slot);
    GenerationRoundTrip(k.generation);
  }

  // ---------------------------------------------------------------------
  // A KILL that is taken for another message
  // ---------------------------------------------------------------------

  function Power256(n: nat): (p: nat)
    requires n <= 4
    ensures 0 < p
  {
    if n == 0 then 1 else 256 * Power256(n - 1)
  }

  /** The id main reads of a KILL of which n bytes of the id and then the whole slot got out:
      with all four bytes it is KILL, with none it is the slot, and otherwise it is the slot
      without its last n bytes. */
  function IdRead(k: Kill, n: nat): int
    requires n <= 4
  {
    if n == 4 then CONNECTION_KILL else if n == 0 then k.slot else ToUnsigned32(k.slot) / Power256(n)
  }

  lemma {:induction false} IdOfBrokenKill(k: Kill, calls: Calls)
    requires Completes(calls.slot, 4)
    ensures var wire, n := SentKill(k, calls), Out(calls.id, 4);
            |wire| >= 4 && ReadInt32(wire[..4]) == IdRead(k, n)
  {
    hide Out, Completes, ReadInt32, WriteInt32, WriteGeneration, IdRead;
    var n, id, slot := Out(calls.id, 4), WriteInt32(CONNECTION_KILL), WriteInt32(k.slot);
    var generation := WriteGeneration(k.generation)[..Out(calls.generation, 8)];
    OutIsComplete(calls.slot, 4);
    assert slot[..4] == slot;
    assert (id[..n] + slot + generation)[..4] == id[..n] + slot[..4 - n];
    IdOfPieces(k, n);
  }

  lemma {:induction false} IdOfPieces(k: Kill, n: nat)
    requires n <= 4
    ensures ReadInt32(WriteInt32(CONNECTION_KILL)[..n] + WriteInt32(k.slot)[..4 - n]) == IdRead(k, n)
  {
    var id, slot := WriteInt32(CONNECTION_KILL), WriteInt32(k.slot);
    assert id == [0, 0, 0, 2];
    if n == 0 {
      assert id[..n] + slot[..4] == slot;
      Int32RoundTrip(k.slot);
    } else if n == 4 {
      assert id[..n] + slot[..0] == id;
      Int32RoundTrip(CONNECTION_KILL);
    } else {
      ShiftedBytes(ToUnsigned32(k.slot), n, id[..n] + slot[..4 - n]);
    }
  }

  lemma {:induction false} ShiftedBytes(u: nat, n: nat, b: Bytes)
    requires u < TWO_32 && 0 < n < 4 && |b| == 4
    requires var d := [u / 256 / 256 / 256, u / 256 / 256 % 256, u / 256 % 256, u % 256];
             (forall i :: 0 <= i < n ==> b[i] == 0) && (forall i :: n <= i < 4 ==> b[i] as int == d[i - n])
    ensures BigEndian(b) == u / Power256(n) < TWO_32 / 2
  {
    var q := u / 256;
    var r := q / 256;
    assert q == r * 256 + q % 256 && r == r / 256 * 256 + r % 256;
    assert u / 65536 == r && u / 16777216 == r / 256;
    assert Power256(1) == 256 && Power256(2) == 65536 && Power256(3) == 16777216;
  }

  /** So the KILLs for the slots below 256^n are read as a TRANSFER, and no others are. */
  lemma {:induction false} ReadAsTransfer(k: Kill, n: nat)
    requires n < 4
    ensures IdRead(k, n) == CONNECTION_TRANSFER <==> 0 <= k.slot < Power256(n)
  {
    assert Power256(1) == 256 && Power256(2) == 65536 && Power256(3) == 16777216;
    var u, p := ToUnsigned32(k.slot), Power256(n);
    assert u / p == 0 <==> u < p;
  }

  /** A write of the id that fails, and two that succeed: main reads the slot as the id. */
  lemma {:induction false} BrokenSendIsMisread(k: Kill)
    ensures var calls := Calls([Error], [Moved(4)], [Moved(8)]);
            && CanWrite(calls)
            && SentKill(k, calls) == WriteInt32(k.slot) + WriteGeneration(k.generation)
            && ReadInt32(SentKill(k, calls)[..4]) == k.slot
  {
    hide WriteInt32, WriteGeneration, ReadInt32;
    var calls := Calls([Error], [Moved(4)], [Moved(8)]);
    assert Out(calls.id, 4) == 0 && Out(calls.slot, 4) == 4 && Out(calls.generation, 8) == 8;
    assert WriteInt32(k.slot)[..4] == WriteInt32(k.slot)
           && WriteGeneration(k.generation)[..8] == WriteGeneration(k.generation);
    IdOfBrokenKill(k, calls);
  }

  /** What main reads of a TRANSFER: the slot, and the descriptor in the control message; with
      none attached the buffer for it holds 0. */
  datatype Transfer = Transfer(slot: int32, fd: int)

  /** Main's side of a TRANSFER; received is what recvmsg returns for the two bytes the
      descriptor comes with. */
  method ReceiveTransfer(stream: Bytes, calls: Calls, received: int,
                         attached: Option<int>) returns (t: Option<Transfer>)
    requires CanRead(calls, |stream|)
    ensures t.Some? <==>
              && Arrives(calls.id, 4) && |stream| >= 4 && ReadInt32(stream[..4]) == CONNECTION_TRANSFER
              && Arrives(calls.slot, 4) && |stream| >= 8 && 0 < received
    ensures t.Some? ==> t.value == Transfer(ReadInt32(stream[4..8]), if attached.Some? then attached.value else 0)
  {
    hide ReadInt32, Completes, Short, Possible;
    var status, buf, rest, count := ReadComplete(stream, 4, calls.id);
    Cut(stream, 0, buf, rest);
    if status != Done || ReadInt32(buf) != CONNECTION_TRANSFER {
      return None;
    }
    status, buf, rest, count := ReadComplete(rest, 4, calls.slot);
    Cut(stream, 4, buf, rest);
    if status != Done || received <= 0 {
      return None;
    }
    return Some(Transfer(ReadInt32(buf), if attached.Some? then attached.value else 0));
  }
}
