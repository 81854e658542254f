/**
 * The resizable stream buffer of asio on values: one vector of bytes with a get area and a put area.
 *
 * Positions are offsets from the start of the vector: `gnext` is gptr, `gend` egptr, `pnext` pptr and
 * `pend` epptr; eback is always 0.
 */
module StreamBuffer {
  import opened Sequences

  type Byte = x: int | 0 <= x < 256

  const BUFFER_DELTA: nat := 128

  const EOF: int := -1

  datatype Buf = Buf(bytes: seq<Byte>, gnext: nat, gend: nat, pnext: nat, pend: nat, maxSize: nat)

  /** The layout every operation keeps as long as none has failed. */
  predicate Sound(b: Buf)
  {
    b.gnext <= b.gend <= b.pnext <= b.pend <= b.maxSize && |b.bytes| == Max(b.pend, 1)
  }

  /** The input sequence. */
  function Data(b: Buf): (s: seq<Byte>)
    requires Sound(b)
    ensures |s| == Size(b)
  {
    b.bytes[b.gnext..b.pnext]
  }

  /** The output sequence. */
  function Area(b: Buf): (s: seq<Byte>)
    requires Sound(b)
    ensures |s| == b.pend - b.pnext
  {
    b.bytes[b.pnext..b.pend]
  }

  function Size(b: Buf): nat
    requires Sound(b)
  {
    b.pnext - b.gnext
  }

  function Zeros(n: nat): (s: seq<Byte>)
    ensures |s| == n && forall i :: 0 <= i < n ==> s[i] == 0
  {
    seq(n, _ => 0)
  }

  function Initial(maximum: nat): Buf
  {
    var pend: nat := Min(maximum, BUFFER_DELTA);
    Buf(Zeros(Max(pend, 1)), 0, 0, 0, pend, maximum)
  }

  /** The bytes after the get area of `size` bytes at `from` was moved to the start. */
  function Shifted(bytes: seq<Byte>, from: nat, size: nat): (s: seq<Byte>)
    requires from + size <= |bytes|
    ensures |s| == |bytes|
  {
    bytes[from..from + size] + bytes[size..]
  }

  /** The vector after resize: cut, or filled up with zeros. */
  function Resized(bytes: seq<Byte>, n: nat): (s: seq<Byte>)
    ensures |s| == n
  {
    if n <= |bytes| then bytes[..n] else bytes + Zeros(n - |bytes|)
  }

  /** Room for `n` more bytes; nothing stands for the length error. */
  function Reserved(b: Buf, n: nat): Option<Buf>
    requires Sound(b)
  {
    if n <= b.pend - b.pnext then Some(b)
    else
      var size := Size(b);
      var bytes := Shifted(b.bytes, b.gnext, size);
      if n <= b.pend - size then Some(Buf(bytes, 0, size, size, b.pend, b.maxSize))
      else if n <= b.maxSize && size <= b.maxSize - n then
        Some(Buf(Resized(bytes, Max(size + n, 1)), 0, size, size, size + n, b.maxSize))
      else None
  }

  /** What the caller writes into a prepared area. */
  function Written(b: Buf, data: seq<Byte>): Buf
    requires Sound(b) && |data| <= b.pend - b.pnext
  {
    b.(bytes := b.bytes[..b.pnext] + data + b.bytes[b.pnext + |data|..])
  }

  function Committed(b: Buf, n: nat): Buf
    requires Sound(b)
  {
    var m: nat := Min(n, b.pend - b.pnext);
    b.(pnext := b.pnext + m, gend := b.pnext + m)
  }

  function Consumed(b: Buf, n: nat): Buf
    requires Sound(b)
  {
    b.(gend := b.pnext, gnext := if b.gnext + n > b.pnext then b.pnext else b.gnext + n)
  }

  function Underflowed(b: Buf): Buf
    requires Sound(b)
  {
    if b.gnext < b.pnext then b.(gend := b.pnext) else b
  }

  /** How much room overflow asks for. */
  function Delta(b: Buf): nat
    requires Sound(b)
  {
    if Size(b) < b.maxSize && b.maxSize - Size(b) < BUFFER_DELTA then b.maxSize - Size(b) else BUFFER_DELTA
  }

  /** A full area is enlarged before overflow puts its byte. */
  function WithRoom(b: Buf): (r: Option<Buf>)
    requires Sound(b)
    ensures r.Some? ==> Sound(r.value) && r.value.pnext < r.value.pend
  {
    ReservedIff(b, Delta(b));
    if b.pnext == b.pend then Reserved(b, Delta(b)) else Some(b)
  }

  function Overflowed(b: Buf, c: int): Option<Buf>
    requires Sound(b)
  {
    if c == EOF then Some(b)
    else
      match WithRoom(b)
      case None => None
      case Some(room) => Some(Put(room, c % 256))
  }

  /** A new buffer has no data and room for 128 bytes, or for as many as it may ever hold. */
  lemma InitialIs(maximum: nat)
    ensures var b := Initial(maximum);
            && Sound(b) && Data(b) == [] && b.maxSize == maximum
            && b.gnext == b.gend == b.pnext == 0 && b.pend == Min(maximum, 128)
            && forall i :: 0 <= i < |b.bytes| ==> b.bytes[i] == 0
  {
  }

  lemma ShiftedSlice(bytes: seq<Byte>, from: nat, size: nat)
    requires from + size <= |bytes|
    ensures Shifted(bytes, from, size)[0..size] == bytes[from..from + size]
  {
    var moved := bytes[from..from + size];
    SliceOfPrefix(moved, bytes[size..], 0, size);
    assert moved[0..size] == moved;
  }

  lemma NotShifted(bytes: seq<Byte>, size: nat)
    requires size <= |bytes|
    ensures Shifted(bytes, 0, size) == bytes
  {
  }

  lemma ResizedSlice(bytes: seq<Byte>, n: nat, size: nat)
    requires size <= |bytes| && size <= n
    ensures Resized(bytes, n)[0..size] == bytes[0..size]
  {
    if n <= |bytes| {
      SliceSlice(bytes, 0, n, 0, size);
    } else {
      SliceOfPrefix(bytes, Zeros(n - |bytes|), 0, size);
    }
  }

  /** Reserving keeps layout and data, and fails exactly beyond the maximum. */
  lemma ReservedIff(b: Buf, n: nat)
    requires Sound(b)
    ensures Reserved(b, n) == None <==> Size(b) + n > b.maxSize
    ensures Reserved(b, n).Some? ==>
      var r := Reserved(b, n).value;
      Sound(r) && r.maxSize == b.maxSize && Data(r) == Data(b) && n <= r.pend - r.pnext
    ensures n <= b.pend - b.pnext ==> Reserved(b, n) == Some(b)
    ensures Reserved(b, n).Some? && n > b.pend - b.pnext ==>
      var r := Reserved(b, n).value;
      r.gnext == 0 && r.gend == r.pnext == Size(b) && r.pend == Max(b.pend, Size(b) + n)
  {
    var size := Size(b);
    ShiftedSlice(b.bytes, b.gnext, size);
    if b.pend - size < n && size + n <= b.maxSize {
      ResizedSlice(Shifted(b.bytes, b.gnext, size), Max(size + n, 1), size);
    }
  }

  /** Writing changes the start of the area and nothing before it. */
  lemma WrittenKeeps(b: Buf, data: seq<Byte>)
    requires Sound(b) && |data| <= b.pend - b.pnext
    ensures Sound(Written(b, data)) && Data(Written(b, data)) == Data(b)
    ensures Area(Written(b, data)) == data + Area(b)[|data|..]
  {
    var p, m := b.pnext, |data|;
    var head, tail := b.bytes[..p], b.bytes[p + m..];
    var bytes := head + data + tail;
    SliceOfPrefix(head + data, tail, b.gnext, p);
    SliceOfPrefix(head, data, b.gnext, p);
    SliceSlice(b.bytes, 0, p, b.gnext, p);
    assert b.bytes[0..p] == head;
    SliceJoin(bytes, p, p + m, b.pend);
    SliceOfPrefix(head + data, tail, p, p + m);
    SliceOfSuffix(head, data, 0, m);
    assert data[0..m] == data;
    SliceOfSuffix(head + data, tail, 0, b.pend - p - m);
    SliceSlice(b.bytes, p + m, |b.bytes|, 0, b.pend - p - m);
    assert b.bytes[p + m..|b.bytes|] == tail;
    SliceSlice(b.bytes, p, b.pend, m, b.pend - p);
  }

  /** Committing moves the front of the area behind the data. */
  lemma CommittedAppends(b: Buf, n: nat)
    requires Sound(b)
    ensures Sound(Committed(b, n))
    ensures var m := Min(n, |Area(b)|);
            Data(Committed(b, n)) == Data(b) + Area(b)[..m] && Area(Committed(b, n)) == Area(b)[m..]
  {
    var m: nat := Min(n, b.pend - b.pnext);
    CommittedLayout(b, n);
    SliceJoin(b.bytes, b.gnext, b.pnext, b.pnext + m);
    SliceSlice(b.bytes, b.pnext, b.pend, 0, m);
    SliceSlice(b.bytes, b.pnext, b.pend, m, b.pend - b.pnext);
  }

  /** It also makes the get area end where the data end. */
  lemma CommittedLayout(b: Buf, n: nat)
    requires Sound(b)
    ensures Sound(Committed(b, n))
    ensures var end := b.pnext + Min(n, b.pend - b.pnext); Committed(b, n) == b.(pnext := end, gend := end)
  {
  }

  /** Consuming drops the front of the data. */
  lemma ConsumedDrops(b: Buf, n: nat)
    requires Sound(b)
    ensures Sound(Consumed(b, n))
    ensures Data(Consumed(b, n)) == Data(b)[Min(n, Size(b))..] && Area(Consumed(b, n)) == Area(b)
  {
    var m: nat := Min(n, Size(b));
    ConsumedLayout(b, n);
    SliceSlice(b.bytes, b.gnext, b.pnext, m, Size(b));
  }

  lemma ConsumedLayout(b: Buf, n: nat)
    requires Sound(b)
    ensures Sound(Consumed(b, n))
    ensures Consumed(b, n) == b.(gnext := b.gnext + Min(n, Size(b)), gend := b.pnext)
  {
  }

  lemma UnderflowedKeeps(b: Buf)
    requires Sound(b)
    ensures Sound(Underflowed(b)) && Data(Underflowed(b)) == Data(b) && Area(Underflowed(b)) == Area(b)
    ensures Underflowed(b).gnext == b.gnext
    ensures Underflowed(b).gend == if Size(b) > 0 then b.pnext else b.gend
  {
  }

  /** The buffer after a byte was put behind the data. */
  function Put(b: Buf, c: Byte): Buf
    requires Sound(b) && b.pnext < b.pend
  {
    b.(bytes := b.bytes[b.pnext := c], pnext := b.pnext + 1)
  }

  lemma PutAppends(b: Buf, c: Byte)
    requires Sound(b) && b.pnext < b.pend
    ensures Sound(Put(b, c)) && Data(Put(b, c)) == Data(b) + [c]
  {
    SliceOfUpdate(b.bytes, b.pnext, c, b.gnext);
  }

  /** Overflow appends its byte, and fails exactly when the input sequence is full already. */
  lemma OverflowedAppends(b: Buf, c: int)
    requires Sound(b)
    ensures Overflowed(b, c) == None <==> c != EOF && Size(b) == b.maxSize
    ensures Overflowed(b, c).Some? ==>
      var r := Overflowed(b, c).value;
      Sound(r) && r.maxSize == b.maxSize && Data(r) == Data(b) + if c == EOF then [] else [c % 256]
  {
    ReservedIff(b, Delta(b));
    if c == EOF {
      assert Data(b) + [] == Data(b);
    } else if Overflowed(b, c).Some? {
      var room := if b.pnext == b.pend then Reserved(b, Delta(b)).value else b;
      PutAppends(room, c % 256);
    }
  }

  /** A full area is enlarged by 128 bytes, or by as many as the maximum still allows. */
  lemma OverflowEnlarges(b: Buf, c: int)
    requires Sound(b) && Overflowed(b, c).Some?
    ensures var r := Overflowed(b, c).value;
            if c != EOF && b.pnext == b.pend then
              r.pend == Max(b.pend, Size(b) + Min(128, b.maxSize - Size(b))) && r.gnext == 0 && r.gend == Size(b)
            else r.pend == b.pend && r.gnext == b.gnext && r.gend == b.gend
  {
    if c != EOF {
      assert Overflowed(b, c).value.pend == WithRoom(b).value.pend;
      if b.pnext == b.pend {
        ReservedIff(b, Delta(b));
      }
    }
  }

  /** Sending is preparing, writing and committing: it appends all the data if it may. */
  lemma SendAppends(b: Buf, data: seq<Byte>)
    requires Sound(b) && Size(b) + |data| <= b.maxSize
    ensures Reserved(b, |data|).Some?
    ensures var r := Reserved(b, |data|).value;
            && Sound(r) && |data| <= r.pend - r.pnext
            && Sound(Written(r, data)) && Data(Committed(Written(r, data), |data|)) == Data(b) + data
  {
    ReservedIff(b, |data|);
    var r := Reserved(b, |data|).value;
    WrittenKeeps(r, data);
    CommittedAppends(Written(r, data), |data|);
    assert (data + Area(r)[|data|..])[..|data|] == data;
  }

  datatype Op =
    | Prepare(n: nat)
    | Write(data: seq<Byte>)
    | Commit(n: nat)
    | Consume(n: nat)
    | Underflow
    | Overflow(c: int)

  /** As much of the data as the prepared area holds. */
  function Fitting(b: Buf, data: seq<Byte>): (s: seq<Byte>)
    requires Sound(b)
    ensures |s| == Min(|data|, b.pend - b.pnext)
  {
    data[..Min(|data|, b.pend - b.pnext)]
  }

  /** One operation; nothing stands for the length error. Writing beyond the prepared area is cut off. */
  function Do(b: Buf, op: Op): Option<Buf>
    requires Sound(b)
  {
    match op
    case Prepare(n) => Reserved(b, n)
    case Write(data) => Some(Written(b, Fitting(b, data)))
    case Commit(n) => Some(Committed(b, n))
    case Consume(n) => Some(Consumed(b, n))
    case Underflow => Some(Underflowed(b))
    case Overflow(c) => Overflowed(b, c)
  }

  /** The bytes an operation puts in at the back of the queue. */
  function In(b: Buf, op: Op): seq<Byte>
    requires Sound(b)
  {
    match op
    case Commit(n) => Area(b)[..Min(n, |Area(b)|)]
    case Overflow(c) => if c == EOF then [] else [c % 256]
    case _ => []
  }

  /** The bytes an operation takes out at the front of the queue. */
  function Out(b: Buf, op: Op): seq<Byte>
    requires Sound(b)
  {
    match op
    case Consume(n) => Data(b)[..Min(n, Size(b))]
    case _ => []
  }

  /** The request would make input sequence and asked room longer than allowed. */
  predicate TooLong(b: Buf, op: Op)
    requires Sound(b)
  {
    match op
    case Prepare(n) => Size(b) + n > b.maxSize
    case Overflow(c) => c != EOF && Size(b) + 1 > b.maxSize
    case _ => false
  }

  /** Every operation is one of a first-in first-out queue, and fails exactly when too long. */
  lemma StepIsFifo(b: Buf, op: Op)
    requires Sound(b)
    ensures Do(b, op) == None <==> TooLong(b, op)
    ensures Do(b, op).Some? ==> Fifo(b, op, Do(b, op).value)
  {
    match op
    case Prepare(n) => PrepareIsFifo(b, n);
    case Write(data) => WriteIsFifo(b, data);
    case Commit(n) => CommitIsFifo(b, n);
    case Consume(n) => ConsumeIsFifo(b, n);
    case Underflow => UnderflowIsFifo(b);
    case Overflow(c) => OverflowIsFifo(b, c);
  }

  ghost predicate Fifo(b: Buf, op: Op, r: Buf)
    requires Sound(b)
  {
    Sound(r) && r.maxSize == b.maxSize && Out(b, op) + Data(r) == Data(b) + In(b, op)
  }

  /** An operation that moves nothing is one of the queue if it keeps the data. */
  lemma NothingMoved(b: Buf, op: Op, r: Buf)
    requires Sound(b) && Sound(r) && r.maxSize == b.maxSize && Data(r) == Data(b)
    requires Out(b, op) == [] && In(b, op) == []
    ensures Fifo(b, op, r)
  {
    assert [] + Data(r) == Data(b) + [];
  }

  lemma PrepareIsFifo(b: Buf, n: nat)
    requires Sound(b)
    ensures Do(b, Prepare(n)) == None <==> TooLong(b, Prepare(n))
    ensures Do(b, Prepare(n)).Some? ==> Fifo(b, Prepare(n), Do(b, Prepare(n)).value)
  {
    ReservedIff(b, n);
    if Reserved(b, n).Some? {
      NothingMoved(b, Prepare(n), Reserved(b, n).value);
    }
  }

  lemma WriteIsFifo(b: Buf, data: seq<Byte>)
    requires Sound(b)
    ensures Do(b, Write(data)).Some? && Fifo(b, Write(data), Do(b, Write(data)).value)
  {
    WrittenKeeps(b, Fitting(b, data));
    NothingMoved(b, Write(data), Written(b, Fitting(b, data)));
  }

  lemma CommitIsFifo(b: Buf, n: nat)
    requires Sound(b)
    ensures Fifo(b, Commit(n), Committed(b, n))
  {
    CommittedAppends(b, n);
    assert [] + Data(Committed(b, n)) == Data(Committed(b, n));
  }

  lemma ConsumeIsFifo(b: Buf, n: nat)
    requires Sound(b)
    ensures Fifo(b, Consume(n), Consumed(b, n))
  {
    ConsumedDrops(b, n);
    var m := Min(n, Size(b));
    assert Data(b)[..m] + Data(b)[m..] == Data(b) + [];
  }

  lemma UnderflowIsFifo(b: Buf)
    requires Sound(b)
    ensures Fifo(b, Underflow, Underflowed(b))
  {
    UnderflowedKeeps(b);
    NothingMoved(b, Underflow, Underflowed(b));
  }

  lemma OverflowIsFifo(b: Buf, c: int)
    requires Sound(b)
    ensures Do(b, Overflow(c)) == None <==> TooLong(b, Overflow(c))
    ensures Do(b, Overflow(c)).Some? ==> Fifo(b, Overflow(c), Do(b, Overflow(c)).value)
  {
    OverflowedAppends(b, c);
    if Overflowed(b, c).Some? {
      assert [] + Data(Overflowed(b, c).value) == Data(Overflowed(b, c).value);
    }
  }

  /** A run of operations up to the first error, with all that went in and came out. */
  datatype History = History(buf: Buf, ins: seq<Byte>, outs: seq<Byte>)

  function Replay(maximum: nat, ops: seq<Op>): (r: Option<History>)
    ensures r.Some? ==> Sound(r.value.buf)
  {
    if ops == [] then Some(History(Initial(maximum), [], []))
    else
      match Replay(maximum, ops[..|ops| - 1])
      case None => None
      case Some(h) =>
        var op := Last(ops);
        StepIsFifo(h.buf, op);
        match Do(h.buf, op)
        case None => None
        case Some(b) => Some(History(b, h.ins + In(h.buf, op), h.outs + Out(h.buf, op)))
  }

  /**
   * In every run up to the first error, what came out followed by what is still readable is exactly what
   * went in, and the readable part never exceeds the maximum.
   */
  lemma {:induction false} RunIsFifo(maximum: nat, ops: seq<Op>)
    requires Replay(maximum, ops).Some?
    ensures var h := Replay(maximum, ops).value;
            h.outs + Data(h.buf) == h.ins && h.buf.maxSize == maximum && Size(h.buf) <= maximum
  {
    if ops == [] {
    } else {
      var before := ops[..|ops| - 1];
      RunIsFifo(maximum, before);
      var h := Replay(maximum, before).value;
      StepIsFifo(h.buf, Last(ops));
      var b := Do(h.buf, Last(ops)).value;
      Chained(h.outs, Data(h.buf), h.ins, Out(h.buf, Last(ops)), Data(b), In(h.buf, Last(ops)));
    }
  }

  lemma Chained(outs: seq<Byte>, data: seq<Byte>, ins: seq<Byte>, out: seq<Byte>, rest: seq<Byte>, more: seq<Byte>)
    requires outs + data == ins && out + rest == data + more
    ensures outs + out + rest == ins + more
  {
    assert outs + out + rest == outs + (out + rest);
    assert outs + (data + more) == outs + data + more;
  }

  /** An error ends the run for good. */
  lemma {:induction false} ErrorEndsRun(maximum: nat, ops: seq<Op>, k: nat)
    requires k <= |ops| && Replay(maximum, ops[..k]) == None
    ensures Replay(maximum, ops) == None
    decreases |ops|
  {
    if k == |ops| {
      assert ops[..k] == ops;
    } else {
      var before := ops[..|ops| - 1];
      assert before[..k] == ops[..k];
      ErrorEndsRun(maximum, before, k);
    }
  }

  /** The preferred size for reading, for a vector that has room for `capacity` bytes. */
  function ReadSize(b: Buf, capacity: nat, limit: nat): nat
    requires Sound(b) && |b.bytes| <= capacity
  {
    Min(Max(512, capacity - Size(b)), Min(limit, b.maxSize - Size(b)))
  }

  /** It is exactly as large as the limits allow, up to 512 or the free room of the vector, whichever is more. */
  lemma ReadSizeInRange(b: Buf, capacity: nat, limit: nat)
    requires Sound(b) && |b.bytes| <= capacity
    ensures Size(b) <= capacity && Size(b) <= b.maxSize
    ensures ReadSize(b, capacity, limit) <= limit && Size(b) + ReadSize(b, capacity, limit) <= b.maxSize
    ensures ReadSize(b, capacity, limit) < limit && Size(b) + ReadSize(b, capacity, limit) < b.maxSize
        ==> 512 <= ReadSize(b, capacity, limit) && capacity <= Size(b) + ReadSize(b, capacity, limit)
    ensures ReadSize(b, capacity, limit) <= 512 || Size(b) + ReadSize(b, capacity, limit) <= capacity
  {
  }

  /** Room of that size can be prepared in every state a run reaches. */
  lemma ReadSizeIsSafe(maximum: nat, ops: seq<Op>, capacity: nat, limit: nat)
    requires Replay(maximum, ops).Some? && |Replay(maximum, ops).value.buf.bytes| <= capacity
    ensures var b := Replay(maximum, ops).value.buf;
            Size(b) <= capacity && Size(b) <= b.maxSize && Do(b, Prepare(ReadSize(b, capacity, limit))).Some?
  {
    var b := Replay(maximum, ops).value.buf;
    ReadSizeInRange(b, capacity, limit);
    StepIsFifo(b, Prepare(ReadSize(b, capacity, limit)));
  }

  /** What a failed reservation leaves behind: the bytes are moved already, the positions are not. */
  function AfterError(b: Buf): Buf
    requires Sound(b)
  {
    b.(bytes := Shifted(b.bytes, b.gnext, Size(b)))
  }

  /** The vector starts with a copy of the data, and is the same behind that. */
  lemma AfterErrorMoves(b: Buf)
    requires Sound(b)
    ensures var after := AfterError(b);
            && after == b.(bytes := after.bytes) && |after.bytes| == |b.bytes|
            && after.bytes[..Size(b)] == Data(b) && after.bytes[Size(b)..] == b.bytes[Size(b)..]
  {
    CutBetween(Data(b), b.bytes[Size(b)..]);
  }

  /** The buffer with other bytes in its input sequence. */
  function Holding(b: Buf, data: seq<Byte>): Buf
    requires Sound(b) && |data| == Size(b)
  {
    b.(bytes := b.bytes[..b.gnext] + data + b.bytes[b.pnext..])
  }

  /** The data are the same after a failed reservation. */
  ghost predicate Survives(b: Buf, data: seq<Byte>)
    requires Sound(b) && |data| == Size(b)
  {
    var h := Holding(b, data);
    Sound(h) && Sound(AfterError(h)) && Data(AfterError(h)) == data
  }

  /**
   * A failed reservation leaves the data alone, whatever they are, exactly if nothing was consumed before
   * or the consumed part is at least as long as what is left.
   */
  lemma ErrorKeepsDataIff(b: Buf)
    requires Sound(b)
    ensures (forall data: seq<Byte> :: |data| == Size(b) ==> Survives(b, data)) <==> b.gnext == 0 || Size(b) <= b.gnext
  {
    if b.gnext == 0 || Size(b) <= b.gnext {
      forall data: seq<Byte> | |data| == Size(b) ensures Survives(b, data) {
        DataSurvive(b, data);
      }
    } else {
      var data: seq<Byte> := seq(Size(b), i => if i < b.gnext then 0 else 1);
      DataAfterError(b, data);
      assert Data(AfterError(Holding(b, data)))[0] == data[b.gnext] == 1;
    }
  }

  lemma DataSurvive(b: Buf, data: seq<Byte>)
    requires Sound(b) && |data| == Size(b) && (b.gnext == 0 || Size(b) <= b.gnext)
    ensures Survives(b, data)
  {
    DataAfterError(b, data);
    var after := Data(AfterError(Holding(b, data)));
    assert forall i :: 0 <= i < |data| ==> after[i] == data[i];
  }

  /** What is read after a failed reservation: each byte that many places further on, as far as there are any. */
  lemma DataAfterError(b: Buf, data: seq<Byte>)
    requires Sound(b) && |data| == Size(b)
    ensures Sound(Holding(b, data)) && Sound(AfterError(Holding(b, data)))
    ensures forall i :: 0 <= i < |data| ==>
      Data(AfterError(Holding(b, data)))[i] == data[if b.gnext + i < |data| then b.gnext + i else i]
  {
    var h := Holding(b, data);
    var moved := Shifted(h.bytes, b.gnext, |data|);
    assert AfterError(h).bytes == moved;
    forall i | 0 <= i < |data|
      ensures Data(AfterError(h))[i] == data[if b.gnext + i < |data| then b.gnext + i else i]
    {
      HoldingAt(b, data, i);
      assert Data(AfterError(h))[i] == moved[b.gnext + i];
      if b.gnext + i < |data| {
        HoldingAt(b, data, b.gnext + i);
        assert moved[b.gnext + i] == h.bytes[b.gnext + (b.gnext + i)];
      } else {
        assert moved[b.gnext + i] == h.bytes[b.gnext + i];
      }
    }
  }

  lemma HoldingAt(b: Buf, data: seq<Byte>, i: nat)
    requires Sound(b) && |data| == Size(b) && i < |data|
    ensures |Holding(b, data).bytes| == |b.bytes| && Holding(b, data).bytes[b.gnext + i] == data[i]
  {
  }

  ghost predicate Reaches(maximum: nat, ops: seq<Op>, b: Buf)
  {
    Replay(maximum, ops).Some? && Replay(maximum, ops).value.buf == b
  }

  lemma ReachesFurther(maximum: nat, ops: seq<Op>, b: Buf, op: Op, r: Buf)
    requires Reaches(maximum, ops, b) && Sound(b) && Do(b, op) == Some(r)
    ensures Reaches(maximum, ops + [op], r)
  {
    assert (ops + [op])[..|ops|] == ops;
  }

  /** A buffer for three bytes that holds 7, 8 and 9. */
  function ThreeBytes(gnext: nat, pnext: nat): Buf
  {
    Buf([7, 8, 9], gnext, pnext, pnext, 3, 3)
  }

  /** Three bytes go in and one comes out; then a request for two more fails and damages the data. */
  lemma FailedPrepareLosesData() returns (ops: seq<Op>, b: Buf)
    ensures Reaches(3, ops, b) && Sound(b)
    ensures Do(b, Prepare(2)) == None && Data(b) == [8, 9] && Data(AfterError(b)) == [9, 9]
  {
    ops, b := [Prepare(3)], ThreeBytes(1, 3);
    Prepared(ops);
    ThreeWritten();
    ReachesFurther(3, ops, Initial(3), Write([7, 8, 9]), ThreeBytes(0, 0));
    ops := ops + [Write([7, 8, 9])];
    ReachesFurther(3, ops, ThreeBytes(0, 0), Commit(3), ThreeBytes(0, 3));
    ops := ops + [Commit(3)];
    ReachesFurther(3, ops, ThreeBytes(0, 3), Consume(1), b);
    ops := ops + [Consume(1)];
    Damaged(b);
  }

  lemma Prepared(ops: seq<Op>)
    requires ops == [Prepare(3)]
    ensures Reaches(3, ops, Initial(3)) && Sound(Initial(3))
  {
    assert ops[..0] == [];
  }

  lemma ThreeWritten()
    ensures Do(Initial(3), Write([7, 8, 9])) == Some(ThreeBytes(0, 0))
  {
    assert [7, 8, 9][..3] == [7, 8, 9];
    assert Written(Initial(3), [7, 8, 9]).bytes == [7, 8, 9];
  }

  lemma Damaged(b: Buf)
    requires b == ThreeBytes(1, 3)
    ensures Do(b, Prepare(2)) == None && Data(b) == [8, 9] && Data(AfterError(b)) == [9, 9]
  {
    assert b.bytes[1..3] == [8, 9] && b.bytes[2..] == [9];
    var moved := Shifted(b.bytes, 1, 2);
    assert moved == [8, 9] + [9];
    assert AfterError(b).bytes == moved;
    assert moved[1..3] == [9, 9];
  }
}
