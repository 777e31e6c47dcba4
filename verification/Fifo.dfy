/** The ring buffer behind both directions of a socket.

The bytes are seen in logical order: `cells[0]` is the next byte to be read,
`cells[..dataLength]` is the valid data and the cells past it are free space
that may already hold bytes written at an offset.
*/
module Fifo {
  import opened Seq32

  /** `s` with `d` written over the cells from index `at`. */
  function Overwrite(s: seq<byte>, at: nat, d: seq<byte>): (r: seq<byte>)
    requires at + |d| <= |s|
    ensures |r| == |s|
  {
    s[..at] + d + s[at + |d|..]
  }

  /** `s` after its first `n` cells have moved behind the others. */
  function Rotate(s: seq<byte>, n: nat): (r: seq<byte>)
    requires n <= |s|
    ensures |r| == |s|
  {
    s[n..] + s[..n]
  }

  /** A logical position as an index into a buffer of `n` bytes. */
  function Slot(p: nat, n: nat): nat
    requires 0 < n
  {
    p % n
  }

  /** memcpy into an array. */
  method CopyInto(dst: array<byte>, at: nat, src: seq<byte>)
    requires at + |src| <= dst.Length
    modifies dst
    ensures dst[..] == Overwrite(old(dst[..]), at, src)
  {
    forall i | 0 <= i < |src| {
      dst[at + i] := src[i];
    }
  }

  class PseudoTcpFifo {
    var buffer: array<byte>
    var dataLength: nat
    var readPosition: nat
    ghost var cells: seq<byte>

    ghost predicate Valid()
      reads this, buffer
    {
      && 0 < buffer.Length
      && dataLength <= buffer.Length
      && readPosition < buffer.Length
      && cells == Rotate(buffer[..], readPosition)
      && |cells| == buffer.Length
    }

    constructor (size: nat)
      requires 0 < size
      ensures Valid() && fresh(buffer)
      ensures |cells| == size && dataLength == 0
    {
      buffer := new byte[size](_ => 0);
      dataLength := 0;
      readPosition := 0;
      new;
      cells := buffer[..];
    }

    method GetBuffered() returns (n: nat)
      requires Valid()
      ensures n == dataLength
    {
      n := dataLength;
    }

    method GetWriteRemaining() returns (n: nat)
      requires Valid()
      ensures n == |cells| - dataLength
    {
      n := buffer.Length - dataLength;
    }

    /** Changes the capacity; the valid data survives, the free cells do not.
        Asking for exactly the number of bytes held changes nothing at all. */
    method SetCapacity(size: nat) returns (ok: bool)
      requires Valid()
      modifies this
      ensures Valid()
      ensures ok <==> old(dataLength) <= size
      ensures dataLength == old(dataLength)
      ensures cells[..dataLength] == old(cells)[..dataLength]
      ensures ok && size != dataLength ==> |cells| == size && fresh(buffer)
      ensures !ok || size == dataLength ==> unchanged(this)
    {
      hide Overwrite, Rotate;
      if dataLength > size {
        return false;
      }
      if size != dataLength {
        var storage := new byte[size](_ => 0);
        var copy := dataLength;
        var tailCopy := Min(copy, buffer.Length - readPosition);
        ghost var fill := storage[..];
        CopyInto(storage, 0, buffer[readPosition..readPosition + tailCopy]);
        CopyInto(storage, tailCopy, buffer[..copy - tailCopy]);
        MovedCells(buffer[..], readPosition, copy, fill);
        RotateNothing(storage[..]);
        buffer := storage;
        readPosition := 0;
        cells := buffer[..];
      }
      return true;
    }

    method ConsumeReadData(size: nat)
      requires Valid()
      requires size <= dataLength
      modifies this`readPosition, this`dataLength, this`cells
      ensures Valid()
      ensures cells == Rotate(old(cells), size)
      ensures dataLength == old(dataLength) - size
    {
      hide Slot, Rotate;
      AdvanceWraps(readPosition + size, buffer.Length);
      RotateTwice(buffer[..], readPosition, size);
      readPosition := Slot(readPosition + size, buffer.Length);
      dataLength := dataLength - size;
      cells := Rotate(cells, size);
    }

    method ConsumeWriteBuffer(size: nat)
      requires Valid()
      requires size <= |cells| - dataLength
      modifies this`dataLength
      ensures Valid()
      ensures dataLength == old(dataLength) + size
    {
      dataLength := dataLength + size;
    }

    /** Copies out at most `bytes` valid bytes starting `offset` bytes in. */
    method ReadOffset(bytes: nat, offset: nat) returns (out: seq<byte>)
      requires Valid()
      ensures offset >= dataLength ==> out == []
      ensures offset < dataLength ==>
                out == cells[offset..offset + Min(bytes, dataLength - offset)]
    {
      hide Slot, Rotate;
      if offset >= dataLength {
        return [];
      }
      AdvanceWraps(readPosition + offset, buffer.Length);
      var available := dataLength - offset;
      var position := Slot(readPosition + offset, buffer.Length);
      var copy := Min(bytes, available);
      var tailCopy := Min(copy, buffer.Length - position);
      var storage := buffer[..];
      assert position == if readPosition + offset < |storage| then readPosition + offset
          else readPosition + offset - |storage|;
      ReadCells(storage, readPosition, offset, copy);
      assert cells == Rotate(storage, readPosition);
      out := storage[position..position + tailCopy] + storage[..copy - tailCopy];
      assert out == cells[offset..offset + copy];
    }

    /** Writes at most `|data|` bytes into the free cells starting `offset`
        cells past the valid data; does not make them valid. */
    method WriteOffset(data: seq<byte>, offset: nat) returns (copy: nat)
      requires Valid()
      modifies buffer, this`cells
      ensures Valid()
      ensures copy == if dataLength + offset >= |cells| then 0
                      else Min(|data|, |cells| - dataLength - offset)
      ensures cells == if copy == 0 then old(cells)
                       else Overwrite(old(cells), dataLength + offset, data[..copy])
    {
      hide Slot, Rotate, Overwrite;
      if dataLength + offset >= buffer.Length {
        return 0;
      }
      AdvanceWraps(readPosition + dataLength + offset, buffer.Length);
      var available := buffer.Length - dataLength - offset;
      var position := Slot(readPosition + dataLength + offset, buffer.Length);
      copy := Min(|data|, available);
      if copy == 0 {
        return;
      }
      var tailCopy := Min(copy, buffer.Length - position);
      WrittenCells(buffer[..], readPosition, dataLength + offset, data[..copy]);
      assert data[..copy][..tailCopy] == data[..tailCopy];
      assert data[..copy][tailCopy..] == data[tailCopy..copy];
      CopyInto(buffer, position, data[..tailCopy]);
      CopyInto(buffer, 0, data[tailCopy..copy]);
      cells := Rotate(buffer[..], readPosition);
    }

    method Read(bytes: nat) returns (out: seq<byte>)
      requires Valid()
      modifies this`readPosition, this`dataLength, this`cells
      ensures Valid()
      ensures out == old(cells)[..Min(bytes, old(dataLength))]
      ensures cells == Rotate(old(cells), |out|)
      ensures dataLength == old(dataLength) - |out|
    {
      hide Rotate;
      out := ReadOffset(bytes, 0);
      ConsumeReadData(|out|);
    }

    method Write(data: seq<byte>) returns (copy: nat)
      requires Valid()
      modifies buffer, this`cells, this`dataLength
      ensures Valid()
      ensures copy == Min(|data|, |cells| - old(dataLength))
      ensures dataLength == old(dataLength) + copy
      ensures |cells| == |old(cells)|
      ensures cells[..dataLength] == old(cells)[..old(dataLength)] + data[..copy]
    {
      hide Rotate;
      copy := WriteOffset(data, 0);
      dataLength := dataLength + copy;
    }
  }

  lemma AdvanceWraps(p: nat, n: nat)
    requires 0 < n && p < 2 * n
    ensures Slot(p, n) == if p < n then p else p - n
  {
    if p >= n {
      assert p == n + (p - n);
    }
  }

  lemma OverwriteAt(s: seq<byte>, at: nat, d: seq<byte>, i: nat)
    requires at + |d| <= |s| && i < |s|
    ensures Overwrite(s, at, d)[i] == if at <= i < at + |d| then d[i - at] else s[i]
  {
  }

  lemma RotateAt(s: seq<byte>, n: nat, i: nat)
    requires n <= |s| && i < |s|
    ensures Rotate(s, n)[i] == s[if n + i < |s| then n + i else n + i - |s|]
  {
  }

  lemma RotateNothing(s: seq<byte>)
    ensures Rotate(s, 0) == s
  {
  }

  lemma RotateTwice(s: seq<byte>, m: nat, n: nat)
    requires m < |s| && n <= |s|
    ensures Rotate(Rotate(s, m), n) == Rotate(s, if m + n < |s| then m + n else m + n - |s|)
  {
  }

  lemma RotateFront(s: seq<byte>, n: nat, m: nat)
    requires n <= m <= |s|
    ensures Rotate(s, n)[..m - n] == s[..m][n..]
  {
  }

  /** A read that may wrap is one slice in logical order. */
  lemma ReadCells(b: seq<byte>, rp: nat, at: nat, n: nat)
    requires rp < |b| && at + n <= |b| && at < |b|
    ensures var position := if rp + at < |b| then rp + at else rp + at - |b|;
            var tail := Min(n, |b| - position);
            b[position..position + tail] + b[..n - tail] == Rotate(b, rp)[at..at + n]
  {
  }

  /** The two copies of a capacity change put the data first. */
  lemma MovedCells(b: seq<byte>, rp: nat, n: nat, fill: seq<byte>)
    requires rp < |b| && n <= |b| && n <= |fill|
    ensures var tail := Min(n, |b| - rp);
            Overwrite(Overwrite(fill, 0, b[rp..rp + tail]), tail, b[..n - tail])[..n] == Rotate(b, rp)[..n]
  {
    hide Overwrite, Rotate;
    var tail := Min(n, |b| - rp);
    var half := Overwrite(fill, 0, b[rp..rp + tail]);
    var x := Overwrite(half, tail, b[..n - tail])[..n];
    forall j | 0 <= j < n ensures x[j] == Rotate(b, rp)[j] {
      OverwriteAt(fill, 0, b[rp..rp + tail], j);
      OverwriteAt(half, tail, b[..n - tail], j);
      RotateAt(b, rp, j);
    }
  }

  /** A write that may wrap past the end of the buffer is one overwrite in
      logical order, whatever the read position. */
  lemma WrittenCells(b: seq<byte>, rp: nat, at: nat, d: seq<byte>)
    requires rp < |b| && at + |d| <= |b| && at < |b|
    ensures var position := if rp + at < |b| then rp + at else rp + at - |b|;
            var tail := Min(|d|, |b| - position);
            Rotate(Overwrite(Overwrite(b, position, d[..tail]), 0, d[tail..]), rp) == Overwrite(Rotate(b, rp), at, d)
  {
    hide Overwrite, Rotate;
    var n := |b|;
    var position := if rp + at < n then rp + at else rp + at - n;
    var tail := Min(|d|, n - position);
    var half := Overwrite(b, position, d[..tail]);
    var after := Overwrite(half, 0, d[tail..]);
    forall j | 0 <= j < n ensures Rotate(after, rp)[j] == Overwrite(Rotate(b, rp), at, d)[j] {
      var phys := if rp + j < n then rp + j else rp + j - n;
      RotateAt(after, rp, j);
      RotateAt(b, rp, j);
      OverwriteAt(half, 0, d[tail..], phys);
      OverwriteAt(b, position, d[..tail], phys);
      OverwriteAt(Rotate(b, rp), at, d, j);
    }
  }
}
