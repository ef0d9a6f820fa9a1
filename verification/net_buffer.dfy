/** src/observer/net/ring_buffer.cpp and .h: a byte queue kept in a fixed, circular array. */
module RingBuffers {
  import opened Common

  datatype Rc = Success | InvalidArgument | IoErrWrite

  /** The `size` bytes that end just before `writePos`, read around the end of the array. */
  function Window(data: seq<Byte>, writePos: nat, size: nat): (w: seq<Byte>)
    requires size <= |data| && writePos <= |data|
    ensures |w| == size
  {
    if size <= writePos then data[writePos - size..writePos]
    else data[|data| - (size - writePos)..] + data[..writePos]
  }

  function ReadPos(capacity: nat, writePos: nat, size: nat): nat
    requires 0 < capacity && size <= capacity && writePos < capacity
  {
    (writePos - size + capacity) % capacity
  }

  /** The bytes of the array that a single copy can hand out. */
  function Readable(capacity: nat, writePos: nat, size: nat): nat
    requires 0 < capacity && size <= capacity && writePos < capacity
  {
    var readPos := ReadPos(capacity, writePos, size);
    if size == 0 then 0 else if readPos < writePos then writePos - readPos else capacity - readPos
  }

  /** The bytes of the array that a single copy can fill. */
  function Writable(capacity: nat, writePos: nat, size: nat): nat
    requires 0 < capacity && size <= capacity && writePos < capacity
  {
    var readPos := ReadPos(capacity, writePos, size);
    if readPos <= writePos then capacity - writePos else readPos - writePos
  }

  lemma ReadPosValue(capacity: nat, writePos: nat, size: nat)
    requires 0 < capacity && size <= capacity && writePos < capacity
    ensures ReadPos(capacity, writePos, size)
            == if size <= writePos then writePos - size else writePos - size + capacity
  {
    if size <= writePos {
      WrapOnce(writePos - size, capacity);
    }
  }

  lemma WrapOnce(x: nat, n: nat)
    requires x < n
    ensures (x + n) % n == x
  {
    var q: int, r: int := (x + n) / n, (x + n) % n;
    assert x + n == n * q + r && n * (q - 1) == x - r;
    MultipleIsFar(n, q - 1);
  }

  lemma MultipleIsFar(n: int, k: int)
    requires n >= 0
    ensures k >= 1 ==> n * k >= n
    ensures k <= -1 ==> n * k <= -n
  {
    if k >= 1 {
      assert n * k == n + n * (k - 1);
    } else if k <= -1 {
      assert n * k == -n - n * (-k - 1);
    }
  }

  /** What `buffer` hands out is the oldest part of the queue, and it is empty only if the queue is. */
  lemma ReadableIsOldest(data: seq<Byte>, writePos: nat, size: nat)
    requires size <= |data| && writePos < |data|
    ensures var start, count := ReadPos(|data|, writePos, size), Readable(|data|, writePos, size);
      start + count <= |data| && count <= size && (size > 0 ==> count > 0 && (count == size || start + count == |data|))
      && data[start..start + count] == Window(data, writePos, size)[..count]
  {
    ReadPosValue(|data|, writePos, size);
  }

  /** A full queue has its read position at the write position, as an empty one has; the part of the
      array behind the write position is then not writable although the formula says so. A queue
      that is not full can be filled by `Writable` bytes. */
  lemma WritableIsFree(capacity: nat, writePos: nat, size: nat)
    requires size <= capacity && writePos < capacity
    ensures Writable(capacity, writePos, size) <= capacity - writePos
    ensures size < capacity ==> 0 < Writable(capacity, writePos, size) <= capacity - size
    ensures size == capacity ==> Writable(capacity, writePos, size) > capacity - size
  {
    ReadPosValue(capacity, writePos, size);
  }

  lemma WindowAt(data: seq<Byte>, writePos: nat, size: nat, i: nat)
    requires i < size <= |data| && writePos <= |data|
    ensures var j := writePos - size + i; Window(data, writePos, size)[i] == data[if j < 0 then j + |data| else j]
  {
  }

  /** Bytes copied to the write position join the end of the queue. */
  lemma WindowGrows(before: seq<Byte>, after: seq<Byte>, writePos: nat, size: nat, chunk: seq<Byte>)
    requires |before| == |after| && writePos < |before|
    requires |chunk| <= |before| - writePos && size + |chunk| <= |before|
    requires forall k :: 0 <= k < |chunk| ==> after[writePos + k] == chunk[k]
    requires forall k :: 0 <= k < writePos ==> after[k] == before[k]
    requires forall k :: writePos + |chunk| <= k < |after| ==> after[k] == before[k]
    ensures var next := (writePos + |chunk|) % |before|;
      Window(after, next, size + |chunk|) == Window(before, writePos, size) + chunk
  {
    hide Window;
    var next := (writePos + |chunk|) % |before|;
    assert next == if writePos + |chunk| < |before| then writePos + |chunk| else 0;
    var was, now := Window(before, writePos, size) + chunk, Window(after, next, size + |chunk|);
    forall i | 0 <= i < |now| ensures now[i] == was[i] {
      WindowAt(after, next, size + |chunk|, i);
      if i < size {
        WindowAt(before, writePos, size, i);
      } else {
        assert was[i] == chunk[i - size] == after[writePos + (i - size)];
      }
    }
  }

  /** Moving the read position drops the oldest bytes. */
  lemma WindowShrinks(data: seq<Byte>, writePos: nat, size: nat, count: nat)
    requires count <= size <= |data| && writePos < |data|
    ensures Window(data, writePos, size - count) == Window(data, writePos, size)[count..]
  {
  }

  lemma TakeMore(out: seq<Byte>, c: seq<Byte>, n: nat)
    requires n <= |c|
    ensures out + c == (out + c[..n]) + c[n..]
  {
  }

  lemma PutMore(before: seq<Byte>, data: seq<Byte>, from: nat, to: nat, n: nat)
    requires from + n <= to <= |data|
    ensures (before + data[..from]) + data[from..to][..n] == before + data[..from + n]
  {
  }

  class RingBuffer {
    const buffer: array<Byte>
    var size: nat
    var writePos: nat

    ghost predicate Valid()
      reads this
    {
      size <= buffer.Length && (writePos < buffer.Length || writePos == buffer.Length == 0)
    }

    /** The bytes in the buffer, the oldest first. */
    ghost function Contents(): (c: seq<Byte>)
      requires Valid()
      reads this, buffer
      ensures |c| == size
    {
      Window(buffer[..], writePos, size)
    }

    constructor (capacity: nat)
      ensures Valid() && Contents() == [] && buffer.Length == capacity && fresh(buffer)
    {
      buffer := new Byte[capacity](_ => 0);
      size, writePos := 0, 0;
    }

    function Capacity(): nat {
      buffer.Length
    }

    function Remain(): nat
      requires Valid()
      reads this
    {
      Capacity() - size
    }

    /** The piece of this length from the read position holds all bytes or ends with the array. */
    ghost predicate AsFarAsPossible(count: nat)
      requires Valid()
      reads this
    {
      size > 0 ==> count == size || count == Capacity() - ReadPos(Capacity(), writePos, size)
    }

    /** `buffer`: the oldest bytes, all of them or those up to the end of the array. */
    method Buffer() returns (piece: seq<Byte>)
      requires Valid()
      ensures piece <= Contents() && (size > 0 ==> piece != []) && AsFarAsPossible(|piece|)
    {
      if size == 0 {
        return [];
      }
      ReadableIsOldest(buffer[..], writePos, size);
      hide Window, ReadPos;
      var readPos := ReadPos(Capacity(), writePos, size);
      var readSize := if readPos < writePos then writePos - readPos else Capacity() - readPos;
      piece := buffer[readPos..readPos + readSize];
      assert piece == buffer[..][readPos..readPos + readSize];
    }

    method Forward(count: int) returns (rc: Rc)
      requires Valid()
      modifies this`size
      ensures Valid()
      ensures rc == if 0 < count <= old(size) then Success else InvalidArgument
      ensures Contents() == if rc == Success then old(Contents())[count..] else old(Contents())
    {
      if count <= 0 {
        return InvalidArgument;
      }
      if count > size {
        return InvalidArgument;
      }
      WindowShrinks(buffer[..], writePos, size, count);
      size := size - count;
      return Success;
    }

    /** The bytes read are the `out` of the call, as many as asked for and available. */
    method Read(count: int) returns (rc: Rc, out: seq<Byte>)
      requires Valid()
      modifies this`size
      ensures Valid()
      ensures rc == if count < 0 then InvalidArgument else Success
      ensures out + Contents() == old(Contents())
      ensures |out| == if count < 0 then 0 else if count < old(size) then count else old(size)
    {
      hide Window, AsFarAsPossible;
      if count < 0 {
        return InvalidArgument, [];
      }
      rc, out := Success, [];
      while rc == Success && |out| < count && size > 0
        invariant Valid() && rc == Success && |out| <= count
        invariant out + Contents() == old(Contents())
        decreases size
      {
        var piece := Buffer();
        var copySize := if count - |out| < |piece| then count - |out| else |piece|;
        TakeMore(out, Contents(), copySize);
        out := out + piece[..copySize];
        rc := Forward(copySize);
      }
    }

    /** One turn of the loop of `write`: a single copy into the array. */
    method Fill(data: seq<Byte>) returns (copySize: nat)
      requires Valid() && data != [] && Remain() > 0
      modifies this, buffer
      ensures Valid() && 0 < copySize <= |data| && copySize <= old(Remain())
      ensures Contents() == old(Contents()) + data[..copySize]
    {
      hide Window;
      WritableIsFree(Capacity(), writePos, size);
      var tmpBufSize := Writable(Capacity(), writePos, size);
      copySize := if |data| < tmpBufSize then |data| else tmpBufSize;
      ghost var before, chunk := buffer[..], data[..copySize];
      forall i | 0 <= i < copySize {
        buffer[writePos + i] := data[i];
      }
      assert forall k :: 0 <= k < copySize ==> buffer[..][writePos + k] == buffer[writePos + k] == chunk[k];
      WindowGrows(before, buffer[..], writePos, size, chunk);
      writePos := (writePos + copySize) % Capacity();
      size := size + copySize;
    }

    /** `write`: the bytes that fit are appended. */
    method Write(data: seq<Byte>, count: int) returns (rc: Rc, writeSize: nat)
      requires Valid() && count <= |data|
      modifies this, buffer
      ensures Valid()
      ensures rc == if count < 0 then InvalidArgument else Success
      ensures writeSize == if count < 0 then 0 else if count < old(Remain()) then count else old(Remain())
      ensures Contents() == old(Contents()) + data[..writeSize]
    {
      if count < 0 {
        return InvalidArgument, 0;
      }
      hide Window, ReadPos;
      rc, writeSize := Success, 0;
      ghost var before := Contents();
      while rc == Success && writeSize < count && Remain() > 0
        invariant Valid() && writeSize <= count && writeSize + Remain() == old(Remain())
        invariant Contents() == before + data[..writeSize]
        decreases count - writeSize
      {
        var copySize := Fill(data[writeSize..count]);
        PutMore(before, data, writeSize, count, copySize);
        writeSize := writeSize + copySize;
      }
    }

    method Clear()
      requires Valid()
      modifies this
      ensures Valid() && Contents() == []
    {
      writePos, size := 0, 0;
    }
  }
}

/** src/observer/net/buffered_writer.cpp: a ring buffer in front of a descriptor. */
module BufferedWriters {
  import opened Common
  import opened RingBuffers

  /** What the operating system answers to one `::write`. */
  datatype Outcome = Accepted(count: nat) | Retry | Broken

  /** An answer that ends the inner loop of `flush_internal`: a failure, or something taken. */
  predicate Final(o: Outcome) {
    o.Broken? || (o.Accepted? && o.count > 0)
  }

  /** Answer `i` is the first that is final. */
  predicate FirstFinal(script: seq<Outcome>, i: nat) {
    i < |script| && Final(script[i]) && forall j :: 0 <= j < i ==> !Final(script[j])
  }

  lemma OnlyFirst(script: seq<Outcome>, i: nat)
    requires FirstFinal(script, i)
    ensures !NoneFinal(script) && forall k: nat :: FirstFinal(script, k) ==> k == i
  {
  }

  predicate NoneFinal(script: seq<Outcome>) {
    forall j :: 0 <= j < |script| ==> !Final(script[j])
  }

  /** No answer is a failure. */
  predicate Unbroken(script: seq<Outcome>) {
    forall j :: 0 <= j < |script| ==> !script[j].Broken?
  }

  /** What is left of the answers. */
  predicate IsRest(rest: seq<Outcome>, script: seq<Outcome>) {
    |rest| <= |script| && rest == script[|script| - |rest|..]
  }

  lemma RestUnbroken(rest: seq<Outcome>, script: seq<Outcome>)
    requires IsRest(rest, script) && Unbroken(script)
    ensures Unbroken(rest)
  {
    forall j | 0 <= j < |rest| ensures !rest[j].Broken? {
      assert rest[j] == script[|script| - |rest| + j];
    }
  }

  lemma RestOfAll(script: seq<Outcome>)
    ensures IsRest(script, script)
  {
  }

  lemma RestOfRest(a: seq<Outcome>, b: seq<Outcome>, c: seq<Outcome>)
    requires IsRest(a, b) && IsRest(b, c)
    ensures IsRest(a, c)
  {
    assert c[|c| - |b|..][|b| - |a|..] == c[|c| - |a|..];
  }

  /** A descriptor that answers as the script says and, once it is used up, takes everything. It
      keeps the bytes it took. */
  class Descriptor {
    var script: seq<Outcome>
    var sent: seq<Byte>

    constructor (script: seq<Outcome>)
      ensures this.script == script && sent == []
    {
      this.script, sent := script, [];
    }

    /** The number of bytes taken, or -1; `again` says whether errno is EAGAIN or EINTR. */
    method Write(buf: seq<Byte>) returns (n: int, again: bool)
      modifies this
      ensures script == if old(script) == [] then [] else old(script)[1..]
      ensures n == if old(script) == [] then |buf|
                   else if old(script)[0].Accepted? then Min(old(script)[0].count, |buf|) else -1
      ensures n == -1 ==> again == old(script)[0].Retry?
      ensures sent == if n > 0 then old(sent) + buf[..n] else old(sent)
    {
      if script == [] {
        sent := sent + buf;
        assert buf[..|buf|] == buf;
        return |buf|, false;
      }
      var outcome := script[0];
      script := script[1..];
      if outcome == Retry {
        return -1, true;
      } else if outcome == Broken {
        return -1, false;
      }
      n := if outcome.count < |buf| then outcome.count else |buf|;
      sent := sent + buf[..n];
      again := false;
    }
  }

  /** The first `n` bytes of the data have been accepted. */
  predicate Took(before: seq<Byte>, data: seq<Byte>, n: nat, now: seq<Byte>) {
    n <= |data| && now == before + data[..n]
  }

  lemma TookIsPart(before: seq<Byte>, data: seq<Byte>, n: nat, now: seq<Byte>)
    requires Took(before, data, n, now)
    ensures before <= now <= before + data
  {
  }

  class BufferedWriter {
    var fd: int
    const socket: Descriptor
    const buffer: RingBuffer
    /** Everything that `write` has taken from its callers and `clear` has not dropped. */
    ghost var accepted: seq<Byte>

    ghost predicate Valid()
      reads this, socket, buffer, buffer.buffer
    {
      buffer.Valid() && socket.sent + buffer.Contents() == accepted
    }

    constructor (fd: int, socket: Descriptor, capacity: nat)
      requires socket.sent == []
      ensures Valid() && accepted == [] && this.fd == fd && this.socket == socket
      ensures fresh(buffer) && fresh(buffer.buffer) && buffer.Capacity() == capacity
    {
      this.fd, this.socket := fd, socket;
      buffer := new RingBuffer(capacity);
      accepted := [];
    }

    /** The inner loop of `flush_internal`: asks until something is taken or the error is final, and uses up the
        answers up to that one. */
    method Push(piece: seq<Byte>) returns (n: int)
      requires piece != []
      modifies socket
      ensures n == -1 || 0 < n <= |piece|
      ensures socket.sent == if n > 0 then old(socket.sent) + piece[..n] else old(socket.sent)
      ensures forall i: nat :: FirstFinal(old(socket.script), i) ==>
        && socket.script == old(socket.script)[i + 1..]
        && n == if old(socket.script)[i].Broken? then -1 else Min(old(socket.script)[i].count, |piece|)
      ensures NoneFinal(old(socket.script)) ==> socket.script == [] && n == |piece|
      ensures IsRest(socket.script, old(socket.script))
      ensures Unbroken(old(socket.script)) ==> n > 0
    {
      n := 0;
      ghost var all, done := socket.script, 0;
      while n == 0
        invariant 0 <= n <= |piece| && done <= |all|
        invariant socket.sent == if n > 0 then old(socket.sent) + piece[..n] else old(socket.sent)
        invariant n == 0 ==> socket.script == all[done..] && forall j :: 0 <= j < done ==> !Final(all[j])
        invariant n > 0 ==>
          if done == |all| then socket.script == [] && n == |piece| && NoneFinal(all)
          else FirstFinal(all, done) && all[done].Accepted?
               && socket.script == all[done + 1..] && n == Min(all[done].count, |piece|)
        decreases n == 0, |socket.script|
      {
        var again;
        n, again := socket.Write(piece);
        if n < 0 {
          if again {
            n := 0;
            done := done + 1;
            continue;
          } else {
            OnlyFirst(all, done);
            return -1;
          }
        }
        if n == 0 {
          done := done + 1;
        }
      }
      if done < |all| {
        OnlyFirst(all, done);
      }
    }

    /** One turn of the loop of `flush_internal`: the bytes taken leave the buffer. */
    method PushOldest() returns (n: int)
      requires Valid() && buffer.size > 0
      modifies socket, buffer`size
      ensures Valid()
      ensures (n == -1 && buffer.size == old(buffer.size)) || (n > 0 && buffer.size == old(buffer.size) - n)
      ensures IsRest(socket.script, old(socket.script)) && (Unbroken(old(socket.script)) ==> n > 0)
    {
      hide Window, RingBuffer.AsFarAsPossible;
      var piece := buffer.Buffer();
      ghost var was := socket.sent;
      n := Push(piece);
      if n > 0 {
        TakeMore(was, buffer.Contents(), n);
        var _ := buffer.Forward(n);
      }
    }

    /** `flush_internal`: at least `count` bytes go out, unless there are fewer or the write fails, and it stops as
        soon as that is so. `last` is what the last write took. */
    method FlushInternal(count: int) returns (rc: Rc, ghost last: nat)
      requires Valid()
      modifies socket, buffer`size
      ensures Valid() && buffer.size <= old(buffer.size)
      ensures rc == InvalidArgument <==> fd < 0
      ensures fd < 0 ==> unchanged(socket) && unchanged(buffer)
      ensures fd >= 0 && (count <= 0 || old(buffer.size) == 0) ==> rc == Success
      ensures rc == Success ==> buffer.size == 0 || old(buffer.size) - buffer.size >= count
      ensures buffer.size < old(buffer.size) ==>
        0 < last <= old(buffer.size) - buffer.size && old(buffer.size) - buffer.size - last < count
      ensures IsRest(socket.script, old(socket.script)) && (fd >= 0 && Unbroken(old(socket.script)) ==> rc == Success)
    {
      last := 0;
      if fd < 0 {
        return InvalidArgument, 0;
      }
      hide Window, RingBuffer.AsFarAsPossible, Unbroken, IsRest;
      rc := Success;
      assert IsRest(socket.script, old(socket.script)) by { RestOfAll(socket.script); }
      var writeSize := 0;
      while rc == Success && buffer.size > 0 && count > writeSize
        invariant Valid() && rc == Success && writeSize == old(buffer.size) - buffer.size >= 0
        invariant writeSize > 0 ==> 0 < last <= writeSize && writeSize - last < count
        invariant IsRest(socket.script, old(socket.script))
        decreases buffer.size
      {
        ghost var script := socket.script;
        if Unbroken(old(socket.script)) {
          RestUnbroken(script, old(socket.script));
        }
        var n := PushOldest();
        RestOfRest(socket.script, script, old(socket.script));
        if n < 0 {
          return IoErrWrite, last;
        }
        writeSize := writeSize + n;
        last := n;
      }
    }

    /** `flush`: on success everything accepted has been sent; and it succeeds unless the descriptor fails. */
    method Flush() returns (rc: Rc)
      requires Valid()
      modifies socket, buffer`size
      ensures Valid()
      ensures rc == InvalidArgument <==> fd < 0
      ensures rc == Success ==> socket.sent == accepted && buffer.Contents() == []
      ensures IsRest(socket.script, old(socket.script)) && (fd >= 0 && Unbroken(old(socket.script)) ==> rc == Success)
    {
      if fd < 0 {
        return InvalidArgument;
      }
      hide Unbroken, IsRest;
      rc := Success;
      assert IsRest(socket.script, old(socket.script)) by { RestOfAll(socket.script); }
      while rc == Success && buffer.size > 0
        invariant Valid() && rc != InvalidArgument && IsRest(socket.script, old(socket.script))
        invariant Unbroken(old(socket.script)) ==> rc == Success
        decreases rc == Success, buffer.size
      {
        ghost var script := socket.script;
        if Unbroken(old(socket.script)) {
          RestUnbroken(script, old(socket.script));
        }
        ghost var last;
        rc, last := FlushInternal(buffer.size);
        RestOfRest(socket.script, script, old(socket.script));
      }
    }

    /** `close`: flushes first, and keeps the descriptor when that fails. */
    method Close() returns (rc: Rc)
      requires Valid()
      modifies this`fd, socket, buffer`size
      ensures Valid() && rc != InvalidArgument
      ensures rc == Success <==> fd < 0
      ensures rc != Success ==> fd == old(fd)
      ensures rc == Success && old(fd) >= 0 ==> fd == -1 && socket.sent == accepted
      ensures old(fd) < 0 ==> fd == old(fd) && unchanged(socket) && unchanged(buffer)
      ensures Unbroken(old(socket.script)) ==> rc == Success
    {
      if fd < 0 {
        return Success;
      }
      rc := Flush();
      if rc != Success {
        return rc;
      }
      fd := -1;
      return Success;
    }

    /** `write`: the bytes that fit are accepted; a full buffer is flushed first, so that all bytes fit or
        the buffer is filled from empty. */
    method Write(data: seq<Byte>, count: int) returns (rc: Rc, writeSize: nat)
      requires Valid() && count <= |data|
      modifies this`accepted, socket, buffer, buffer.buffer
      ensures Valid() && writeSize <= |data| && accepted == old(accepted) + data[..writeSize]
      ensures rc == InvalidArgument <==> fd < 0 || count < 0
      ensures rc != Success ==> writeSize == 0
      ensures fd >= 0 && count >= 0 && old(buffer.size) == 0 ==> rc == Success
      ensures fd >= 0 && count >= 0 && old(buffer.Remain()) > 0 ==> rc == Success && unchanged(socket)
      ensures IsRest(socket.script, old(socket.script))
      ensures fd >= 0 && count >= 0 && Unbroken(old(socket.script)) ==> rc == Success
      ensures rc == Success && count > 0 && buffer.Capacity() > 0 ==> writeSize > 0
      ensures rc == Success ==>
        writeSize == Min(count, if old(buffer.Remain()) == 0 then buffer.Capacity() else old(buffer.Remain()))
    {
      RestOfAll(socket.script);
      if fd < 0 {
        return InvalidArgument, 0;
      }
      hide Unbroken, IsRest;
      if buffer.Remain() == 0 {
        ghost var last;
        rc, last := FlushInternal(count);
        if rc != Success {
          return rc, 0;
        }
      }
      hide Window, ReadPos;
      ghost var c, was := buffer.Contents(), socket.sent;
      rc, writeSize := buffer.Write(data, count);
      Associate(was, c, data[..writeSize]);
      accepted := accepted + data[..writeSize];
    }

    /** With a buffer of capacity 0, each iteration of `writen` succeeds and accepts nothing. */
    method WriteToNothing(data: seq<Byte>, count: int) returns (rc: Rc, writeSize: nat)
      requires Valid() && count <= |data| && fd >= 0 && count > 0 && buffer.Capacity() == 0
      modifies this`accepted, socket, buffer, buffer.buffer
      ensures Valid() && rc == Success && writeSize == 0 && accepted == old(accepted)
    {
      rc, writeSize := Write(data, count);
      assert data[..0] == [];
    }

    /** `writen`: all of the data is accepted, or what was accepted before the failure is a prefix.
        The precondition is false exactly where the loop does not end, see `WriteToNothing`. */
    method WriteN(data: seq<Byte>, count: int) returns (rc: Rc)
      requires Valid() && count <= |data| && (buffer.Capacity() > 0 || count <= 0 || fd < 0)
      modifies this`accepted, socket, buffer, buffer.buffer
      ensures Valid() && old(accepted) <= accepted <= old(accepted) + data
      ensures rc == Success ==> accepted == old(accepted) + if count < 0 then [] else data[..count]
      ensures rc == InvalidArgument <==> fd < 0
      ensures fd >= 0 && Unbroken(old(socket.script)) ==> rc == Success
    {
      if fd < 0 {
        return InvalidArgument;
      }
      hide Unbroken, IsRest, Valid;
      var writeSize := 0;
      ghost var before := accepted;
      RestOfAll(socket.script);
      assert Took(before, data, 0, accepted);
      while writeSize < count
        invariant Valid() && 0 <= writeSize && (writeSize <= count || writeSize == 0)
        invariant Took(before, data, writeSize, accepted)
        invariant IsRest(socket.script, old(socket.script))
      {
        var tmpWriteSize;
        rc, tmpWriteSize := WriteMore(data, count, writeSize, before, old(socket.script));
        if rc != Success {
          TookIsPart(before, data, writeSize, accepted);
          return;
        }
        writeSize := writeSize + tmpWriteSize;
      }
      TookIsPart(before, data, writeSize, accepted);
      return Success;
    }

    /** One turn of the loop of `writen`. */
    method WriteMore(data: seq<Byte>, count: int, from: nat, ghost before: seq<Byte>, ghost script: seq<Outcome>)
      returns (rc: Rc, n: nat)
      requires Valid() && from < count <= |data| && buffer.Capacity() > 0 && fd >= 0
      requires Took(before, data, from, accepted) && IsRest(socket.script, script)
      modifies this`accepted, socket, buffer, buffer.buffer
      ensures Valid() && Took(before, data, from + n, accepted) && from + n <= count
      ensures if rc == Success then n > 0 else n == 0 && rc != InvalidArgument
      ensures IsRest(socket.script, script) && (Unbroken(script) ==> rc == Success)
    {
      hide Valid, Unbroken, IsRest;
      ghost var was := socket.script;
      if Unbroken(script) {
        RestUnbroken(was, script);
      }
      rc, n := Write(data[from..|data|], count - from);
      PutMore(before, data, from, |data|, n);
      RestOfRest(socket.script, was, script);
    }

    /** `clear`: what has not been sent is dropped. */
    method Clear() returns (rc: Rc)
      requires Valid()
      modifies this`accepted, buffer
      ensures Valid() && rc == if fd < 0 then InvalidArgument else Success
      ensures if fd < 0 then accepted == old(accepted) else accepted == socket.sent
    {
      if fd < 0 {
        return InvalidArgument;
      }
      buffer.Clear();
      accepted := socket.sent;
      return Success;
    }
  }
}
