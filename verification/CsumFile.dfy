/** Buffered, checksummed file writing with checkpoints (csum-file.c:45-54, 89-119, 161-185). */
module CsumFile {

  type Byte = n: nat | n < 256
  type Bytes = seq<Byte>

  const BUFFER_SIZE := 8192

  datatype Checkpoint = Checkpoint(offset: nat, ctx: Bytes)

  /** A SHA-1 or CRC context is represented by the bytes it has absorbed. */
  class Sha1File {
    var disk: Bytes
    const buffer: array<Byte>
    var offset: nat
    var total: nat
    var ctx: Bytes
    var doCrc: bool
    var crc: Bytes

    ghost predicate Valid()
      reads this, buffer
    {
      buffer.Length == BUFFER_SIZE && offset < BUFFER_SIZE && total == |disk| && ctx == disk
    }

    /** Everything written so far, flushed or not. */
    ghost function Accepted(): Bytes
      reads this, buffer
      requires Valid()
    {
      disk + buffer[..offset]
    }

    constructor ()
      ensures Valid() && Accepted() == [] && fresh(buffer)
    {
      disk := [];
      buffer := new Byte[BUFFER_SIZE];
      offset := 0;
      total := 0;
      ctx := [];
      doCrc := false;
      crc := [];
    }

    method FlushBytes(data: Bytes)
      modifies this`disk, this`total
      ensures disk == old(disk) + data && total == old(total) + |data|
    {
      disk := disk + data;
      total := total + |data|;
    }

    method Flush()
      requires Valid()
      modifies this`disk, this`total, this`ctx, this`offset
      ensures Valid() && offset == 0 && disk == old(Accepted()) && Accepted() == disk
    {
      if offset != 0 {
        ctx := ctx + buffer[..offset];
        FlushBytes(buffer[..offset]);
        offset := 0;
      }
    }

    method FillBuffer(data: Bytes)
      requires Valid() && offset + |data| <= BUFFER_SIZE
      modifies buffer
      ensures buffer[..offset + |data|] == old(buffer[..offset]) + data
    {
      for i := 0 to |data|
        invariant buffer[..offset] == old(buffer[..offset])
        invariant buffer[offset..offset + i] == data[..i]
      {
        buffer[offset + i] := data[i];
      }
      assert buffer[..offset + |data|] == buffer[..offset] + buffer[offset..offset + |data|];
    }

    /** One round of writing: at most what fits the buffer; a full buffer's worth bypasses it. */
    method WriteSome(buf: Bytes) returns (nr: nat)
      requires Valid() && buf != []
      modifies this, buffer
      ensures 0 < nr <= |buf| && Valid() && Accepted() == old(Accepted()) + buf[..nr] && old(disk) <= disk
      ensures doCrc == old(doCrc) && crc == if doCrc then old(crc) + buf[..nr] else old(crc)
    {
      var left := BUFFER_SIZE - offset;
      nr := if |buf| > left then left else |buf|;
      if doCrc {
        crc := crc + buf[..nr];
      }
      var end := offset + nr;
      var data;
      ghost var held := buffer[..offset];
      if nr == BUFFER_SIZE {
        data := buf[..nr];
        assert held == [] && held + buf[..nr] == data;
      } else {
        FillBuffer(buf[..nr]);
        data := buffer[..end];
      }
      assert data == held + buf[..nr] && disk + (held + buf[..nr]) == disk + held + buf[..nr];
      if end == BUFFER_SIZE {
        ctx := ctx + data;
        FlushBytes(data);
        offset := 0;
        assert disk + buffer[..0] == disk;
      } else {
        offset := end;
      }
    }

    /** However the bytes meet the buffer, they are accepted once and in order, and the checksum absorbs
        exactly what reaches the disk. */
    method Write(buf: Bytes)
      requires Valid()
      modifies this, buffer
      ensures Valid() && Accepted() == old(Accepted()) + buf && old(disk) <= disk
      ensures doCrc == old(doCrc) && crc == if doCrc then old(crc) + buf else old(crc)
    {
      var pos := 0;
      while pos < |buf|
        invariant pos <= |buf| && Valid() && Accepted() == old(Accepted()) + buf[..pos] && old(disk) <= disk
        invariant doCrc == old(doCrc) && crc == if doCrc then old(crc) + buf[..pos] else old(crc)
      {
        var nr := WriteSome(buf[pos..]);
        assert buf[..pos] + buf[pos..][..nr] == buf[..pos + nr];
        pos := pos + nr;
      }
      assert buf[..pos] == buf;
    }

    method TakeCheckpoint() returns (cp: Checkpoint)
      requires Valid()
      modifies this`disk, this`total, this`ctx, this`offset
      ensures Valid() && disk == old(Accepted()) == Accepted() && cp == Checkpoint(|disk|, disk)
    {
      Flush();
      cp := Checkpoint(total, ctx);
    }

    /** Back to a checkpoint of this file: what was accepted since is gone, buffered or not. */
    method Truncate(cp: Checkpoint)
      requires Valid() && cp.offset <= |disk| && cp.ctx == disk[..cp.offset]
      modifies this`disk, this`total, this`ctx, this`offset
      ensures Valid() && disk == cp.ctx == Accepted()
    {
      disk := disk[..cp.offset];
      total := cp.offset;
      ctx := cp.ctx;
      offset := 0;
    }

    method CrcBegin()
      modifies this`crc, this`doCrc
      ensures doCrc && crc == []
    {
      crc := [];
      doCrc := true;
    }

    method CrcEnd() returns (absorbed: Bytes)
      modifies this`doCrc
      ensures !doCrc && absorbed == crc
    {
      doCrc := false;
      absorbed := crc;
    }
  }
}
