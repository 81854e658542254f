/** The stream buffer as the class it is: a vector that is resized, and offsets into it. */
module BasicStreambuf {
  import opened Sequences
  import opened StreamBuffer

  class StreamBuf {
    const maxSize: nat
    var buffer: array<Byte>
    /** Room of the vector before it has to be allocated anew. */
    var capacity: nat
    var gnext: nat
    var gend: nat
    var pnext: nat
    var pend: nat

    ghost function View(): Buf
      reads this, buffer
    {
      Buf(buffer[..], gnext, gend, pnext, pend, maxSize)
    }

    ghost predicate Valid()
      reads this, buffer
    {
      Sound(View()) && buffer.Length <= capacity
    }

    constructor (maximum: nat)
      ensures Valid() && View() == Initial(maximum) && fresh(buffer)
      ensures Data(View()) == [] && maxSize == maximum && gnext == gend == pnext == 0 && pend == Min(maximum, 128)
    {
      var end: nat := Min(maximum, BUFFER_DELTA);
      maxSize := maximum;
      buffer := new Byte[Max(end, 1)](_ => 0);
      var room: nat :| Max(end, 1) <= room;
      capacity := room;
      gnext, gend, pnext, pend := 0, 0, 0, end;
      new;
      assert buffer[..] == Zeros(Max(end, 1));
    }

    /** `std::memmove` of `size` bytes from offset `from` to the start. */
    method MoveToStart(from: nat, size: nat)
      requires from + size <= buffer.Length
      modifies buffer
      ensures buffer[..] == Shifted(old(buffer[..]), from, size)
    {
      for i := 0 to size
        invariant forall j :: 0 <= j < i ==> buffer[j] == old(buffer[from + j])
        invariant forall j :: i <= j < buffer.Length ==> buffer[j] == old(buffer[j])
      {
        buffer[i] := buffer[from + i];
      }
    }

    /** `std::vector::resize` to a size that is not smaller. */
    method Resize(n: nat)
      requires buffer.Length <= n && buffer.Length <= capacity
      modifies this`buffer, this`capacity
      ensures fresh(buffer) && buffer[..] == Resized(old(buffer[..]), n)
      ensures n <= capacity && (n <= old(capacity) ==> capacity == old(capacity))
    {
      var source := buffer;
      var bigger := new Byte[n](_ => 0);
      for i := 0 to source.Length
        invariant buffer == source && capacity == old(capacity)
        invariant forall j :: 0 <= j < i ==> bigger[j] == source[j]
        invariant forall j :: i <= j < n ==> bigger[j] == 0
      {
        bigger[i] := source[i];
      }
      if capacity < n {
        var room: nat :| n <= room;
        capacity := room;
      }
      buffer := bigger;
    }

    /** Makes room for `n` bytes; `ok` is false where the source throws, with the bytes moved already. */
    method Reserve(n: nat) returns (ok: bool)
      requires Valid()
      modifies this, buffer
      ensures ok <==> Reserved(old(View()), n).Some?
      ensures ok ==> Valid() && View() == Reserved(old(View()), n).value
      ensures !ok ==> View() == AfterError(old(View()))
      ensures buffer == old(buffer) || fresh(buffer)
      ensures buffer.Length <= capacity
    {
      var size := pnext - gnext;
      if n <= pend - pnext {
        return true;
      }
      if gnext > 0 {
        MoveToStart(gnext, size);
      } else {
        NotShifted(buffer[..], size);
      }
      ok := Grow(size, n);
    }

    /** Second half of reserving: `size` bytes are at the start of the vector, enlarge it if need be. */
    method Grow(size: nat, n: nat) returns (ok: bool)
      requires size <= pend <= maxSize && buffer.Length == Max(pend, 1) <= capacity
      modifies this
      ensures ok <==> n <= old(pend) - size || size + n <= maxSize
      ensures ok && n <= old(pend) - size ==> View() == Buf(old(buffer[..]), 0, size, size, old(pend), maxSize)
      ensures ok && n > old(pend) - size ==>
        View() == Buf(Resized(old(buffer[..]), Max(size + n, 1)), 0, size, size, size + n, maxSize)
      ensures !ok ==> View() == old(View())
      ensures (buffer == old(buffer) || fresh(buffer)) && buffer.Length <= capacity
    {
      var end := pend;
      if n > end - size {
        if n <= maxSize && size <= maxSize - n {
          end := size + n;
          Resize(Max(end, 1));
        } else {
          return false;
        }
      }
      gnext, gend := 0, size;
      pnext, pend := size, end;
      return true;
    }

    /** `prepare`: the area starts at `pnext`; without room for it the source throws. */
    method Prepare(n: nat) returns (ok: bool)
      requires Valid()
      modifies this, buffer
      ensures ok <==> Size(old(View())) + n <= maxSize
      ensures ok ==> Valid() && View() == Reserved(old(View()), n).value
      ensures ok ==> Data(View()) == Data(old(View())) && n <= pend - pnext
      ensures !ok ==> View() == AfterError(old(View()))
      ensures buffer == old(buffer) || fresh(buffer)
    {
      ReservedIff(View(), n);
      ok := Reserve(n);
    }

    /** The caller fills the prepared area. */
    method Write(data: seq<Byte>)
      requires Valid() && |data| <= pend - pnext
      modifies buffer
      ensures Valid() && View() == Written(old(View()), data)
      ensures Data(View()) == old(Data(View())) && Area(View()) == data + old(Area(View()))[|data|..]
    {
      WrittenKeeps(View(), data);
      CopyTo(pnext, data);
    }

    method CopyTo(at: nat, data: seq<Byte>)
      requires at + |data| <= buffer.Length
      modifies buffer
      ensures buffer[..] == old(buffer[..at]) + data + old(buffer[at + |data|..])
    {
      for i := 0 to |data|
        invariant forall j :: 0 <= j < i ==> buffer[at + j] == data[j]
        invariant forall j :: 0 <= j < at || at + i <= j < buffer.Length ==> buffer[j] == old(buffer[j])
      {
        buffer[at + i] := data[i];
      }
    }

    method Commit(n: nat)
      requires Valid()
      modifies this`pnext, this`gend
      ensures Valid() && View() == Committed(old(View()), n)
      ensures Data(View()) == old(Data(View()) + Area(View())[..Min(n, |Area(View())|)])
    {
      CommittedAppends(View(), n);
      var m: nat := Min(n, pend - pnext);
      pnext := pnext + m;
      gend := pnext;
    }

    method Consume(n: nat)
      requires Valid()
      modifies this`gnext, this`gend
      ensures Valid() && View() == Consumed(old(View()), n)
      ensures Data(View()) == old(Data(View())[Min(n, Size(View()))..])
    {
      ConsumedDrops(View(), n);
      if gend < pnext {
        gend := pnext;
      }
      var m := n;
      if gnext + m > pnext {
        m := pnext - gnext;
      }
      gnext := gnext + m;
    }

    method Underflow() returns (c: int)
      requires Valid()
      modifies this`gend
      ensures Valid() && View() == Underflowed(old(View()))
      ensures c == if Data(View()) == [] then EOF else Data(View())[0]
    {
      if gnext < pnext {
        gend := pnext;
        return buffer[gnext];
      } else {
        return EOF;
      }
    }

    method Append(c: Byte)
      requires Valid() && pnext < pend
      modifies this`pnext, buffer
      ensures Valid()
      ensures View() == old(View()).(bytes := old(View()).bytes[old(pnext) := c], pnext := old(pnext) + 1)
    {
      buffer[pnext] := c;
      pnext := pnext + 1;
    }

    /** `overflow`: `ok` is false where the source throws; otherwise `r` is what it returns. */
    method Overflow(c: int) returns (ok: bool, r: int)
      requires Valid()
      modifies this, buffer
      ensures ok <==> c == EOF || Size(old(View())) < maxSize
      ensures ok ==> Valid() && View() == Overflowed(old(View()), c).value
      ensures ok ==> Data(View()) == Data(old(View())) + if c == EOF then [] else [c % 256]
      ensures ok ==> r != EOF && (c != EOF ==> r == c)
      ensures buffer == old(buffer) || fresh(buffer)
    {
      OverflowedAppends(View(), c);
      if c != EOF {
        if pnext == pend {
          ok := ReserveDelta();
          if !ok {
            return false, EOF;
          }
        }
        Append(c % 256);
        return true, c;
      }
      return true, 0;
    }

    /** Reserving what overflow asks for, which is the rest of the maximum if that is less than a delta. */
    method ReserveDelta() returns (ok: bool)
      requires Valid() && pnext == pend
      modifies this, buffer
      ensures ok <==> Reserved(old(View()), Delta(old(View()))).Some?
      ensures ok ==> Valid() && View() == Reserved(old(View()), Delta(old(View()))).value && pnext < pend
      ensures buffer == old(buffer) || fresh(buffer)
    {
      ReservedIff(View(), Delta(View()));
      var bufferSize := pnext - gnext;
      if bufferSize < maxSize && maxSize - bufferSize < BUFFER_DELTA {
        ok := Reserve(maxSize - bufferSize);
      } else {
        ok := Reserve(BUFFER_DELTA);
      }
    }

    /** The preferred size for reading: room of that size can be prepared, and no more is asked for than that. */
    method ReadSizeHelper(limit: nat) returns (n: nat)
      requires Valid()
      ensures n == ReadSize(View(), capacity, limit)
      ensures n <= limit && Size(View()) + n <= maxSize && Reserved(View(), n).Some?
      ensures n < limit && Size(View()) + n < maxSize ==> 512 <= n && capacity <= Size(View()) + n
      ensures n <= 512 || Size(View()) + n <= capacity
    {
      ReadSizeInRange(View(), capacity, limit);
      n := Min(Max(512, capacity - (pnext - gnext)), Min(limit, maxSize - (pnext - gnext)));
      ReservedIff(View(), n);
    }

    /** One operation of a run; `ok` is false where the source throws. */
    method Perform(op: Op) returns (ok: bool)
      requires Valid()
      modifies this, buffer
      ensures ok <==> Do(old(View()), op).Some?
      ensures ok ==> Valid() && View() == Do(old(View()), op).value
      ensures buffer == old(buffer) || fresh(buffer)
    {
      match op {
        case Prepare(n) =>
          ReservedIff(View(), n);
          ok := Prepare(n);
        case Overflow(c) =>
          OverflowedAppends(View(), c);
          var r;
          ok, r := Overflow(c);
        case _ =>
          PerformInPlace(op);
          return true;
      }
    }

    /** The operations that cannot fail and keep the array. */
    method PerformInPlace(op: Op)
      requires Valid() && !op.Prepare? && !op.Overflow?
      modifies this`gnext, this`gend, this`pnext, buffer
      ensures Valid() && Do(old(View()), op) == Some(View())
    {
      match op {
        case Write(data) =>
          Write(data[..Min(|data|, pend - pnext)]);
        case Commit(n) =>
          Commit(n);
        case Consume(n) =>
          Consume(n);
        case Underflow =>
          var c := Underflow();
      }
    }

    /** A run on a new buffer, up to the first error, does to the array what it does to the values. */
    static method Drive(maximum: nat, ops: seq<Op>) returns (b: StreamBuf, ok: bool)
      ensures ok <==> Replay(maximum, ops).Some?
      ensures ok ==> b.Valid() && b.View() == Replay(maximum, ops).value.buf
      ensures ok ==> Replay(maximum, ops).value.outs + Data(b.View()) == Replay(maximum, ops).value.ins
    {
      b := new StreamBuf(maximum);
      ok := true;
      for i := 0 to |ops|
        invariant fresh(b) && fresh(b.buffer)
        invariant b.Valid() && Replay(maximum, ops[..i]).Some? && b.View() == Replay(maximum, ops[..i]).value.buf
      {
        assert ops[..i + 1][..i] == ops[..i];
        ok := b.Perform(ops[i]);
        if !ok {
          ErrorEndsRun(maximum, ops, i + 1);
          return;
        }
      }
      assert ops[..|ops|] == ops;
      RunIsFifo(maximum, ops);
    }
  }
}
