/**
 * Streams as in-memory byte sequences, and the reliable transfer loops
 * full_read and full_write built on single partial transfers.
 *
 * One read(2) or write(2) call is modelled as an oracle: the amount it
 * moves is chosen nondeterministically, so everything proved here holds
 * for every way the system may split a transfer.  Device errors (a call
 * returning -1, which makes the tool exit) are not modelled.
 */
module Streams {
  import opened Bytes

  /** Size of the transfer buffer the writer and the extractor copy bodies through. */
  const BUFFER_SIZE: nat := 90000

  /** A readable file descriptor: fixed contents and a cursor. */
  class Source {
    const data: seq<byte>
    /** The file offset; lseek may move it past the end of the data. */
    var pos: nat

    constructor (contents: seq<byte>)
      ensures data == contents && pos == 0
    {
      data := contents;
      pos := 0;
    }

    /** The bytes a read from the current offset can still deliver. */
    function Remaining(): seq<byte>
      reads this
    {
      if pos <= |data| then data[pos..] else []
    }

    /**
     * One read(2) of at most `count` bytes into buf[off..]: it returns 0
     * only at end of file (or for a zero count) and otherwise delivers
     * between 1 and `count` of the next bytes.
     */
    method Read(buf: array<byte>, off: nat, count: nat) returns (got: nat)
      requires off + count <= buf.Length
      modifies this, buf
      ensures got <= count && got <= |old(Remaining())|
      ensures got == 0 <==> count == 0 || old(Remaining()) == []
      ensures forall i :: 0 <= i < got ==> buf[off + i] == old(Remaining())[i]
      ensures forall i :: 0 <= i < buf.Length && !(off <= i < off + got) ==> buf[i] == old(buf[i])
      ensures pos == old(pos) + got
      ensures Remaining() == old(Remaining())[got..]
    {
      var rest := Remaining();
      if count == 0 || rest == [] {
        got := 0;
        return;
      }
      var most := Min(count, |rest|);
      got :| 1 <= got <= most;
      forall i | off <= i < off + got {
        buf[i] := rest[i - off];
      }
      pos := pos + got;
    }

    /** lseek(fd, offset, SEEK_CUR): a move before the start of the file fails and leaves the offset. */
    method Seek(offset: int)
      modifies this
      ensures pos == if old(pos) + offset >= 0 then old(pos) + offset else old(pos)
    {
      if pos + offset >= 0 {
        pos := pos + offset;
      }
    }
  }

  /** A writable file descriptor: the bytes written to it so far. */
  class Sink {
    var data: seq<byte>

    constructor ()
      ensures data == []
    {
      data := [];
    }

    /**
     * One write(2) of `bytes`: it accepts between 1 and all of them (a
     * write that accepts nothing would make full_write loop forever, so
     * that case is not part of the model).
     */
    method Write(bytes: seq<byte>) returns (written: nat)
      requires |bytes| > 0
      modifies this
      ensures 0 < written <= |bytes|
      ensures data == old(data) + bytes[..written]
    {
      written :| 0 < written <= |bytes|;
      data := data + bytes[..written];
    }
  }

  /** full_write: repeats partial writes until all `count` bytes of `buf` are written. */
  method FullWrite(dst: Sink, buf: seq<byte>, count: nat) returns (total: nat)
    requires count <= |buf|
    modifies dst
    ensures total == count
    ensures dst.data == old(dst.data) + buf[..count]
  {
    total := 0;
    while total < count
      invariant total <= count
      invariant dst.data == old(dst.data) + buf[..total]
      decreases count - total
    {
      var written := dst.Write(buf[total..count]);
      assert buf[..total + written] == buf[..total] + buf[total..count][..written];
      total := total + written;
    }
  }

  /**
   * full_read: repeats partial reads into buf[0..count) until `count`
   * bytes have arrived or a read reports end of file.  It returns fewer
   * than `count` bytes only when the stream ran out, and what it returns
   * are the next bytes of the stream.
   */
  method FullRead(src: Source, buf: array<byte>, count: nat) returns (total: nat)
    requires count <= buf.Length
    modifies src, buf
    ensures total == Min(count, |old(src.Remaining())|)
    ensures total < count ==> src.Remaining() == []
    ensures forall i :: 0 <= i < total ==> buf[i] == old(src.Remaining())[i]
    ensures forall i :: total <= i < buf.Length ==> buf[i] == old(buf[i])
    ensures src.pos == old(src.pos) + total
    ensures src.Remaining() == old(src.Remaining())[total..]
  {
    total := 0;
    while total < count
      invariant total <= count && total <= |old(src.Remaining())|
      invariant src.pos == old(src.pos) + total
      invariant src.Remaining() == old(src.Remaining())[total..]
      invariant forall i :: 0 <= i < total ==> buf[i] == old(src.Remaining())[i]
      invariant forall i :: total <= i < buf.Length ==> buf[i] == old(buf[i])
      decreases count - total
    {
      var bytes := src.Read(buf, total, count - total);
      if bytes == 0 {
        break;  // end of file
      }
      total := total + bytes;
    }
  }
}
