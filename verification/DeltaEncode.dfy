/** The delta encoder: greedy matching into a growing output buffer (diff-delta.c:317-489). */
module DeltaEncode {
  import opened Common
  import opened Rabin
  import opened DeltaFormat
  import opened DeltaIndex
  import opened DeltaEmit
  import opened DeltaBuild
  import opened DeltaRoom
  import opened DeltaStep

  /** A delta, a NULL result, or a run whose 32-bit buffer size wrapped around and can no longer be followed. */
  datatype Outcome = Delta(bytes: Bytes) | NoDelta | Overrun

  /** The window of target bytes behind `data`. */
  function Window(trg: Bytes, data: nat): Bytes
    requires RABIN_WINDOW <= data <= |trg|
  {
    trg[data - RABIN_WINDOW..data]
  }

  class Encoder {
    const index: Index
    const src: Bytes
    const trg: Bytes
    const maxSize: nat
    var out: array<byte>
    var outpos: nat
    var data: nat
    var moff: nat
    var msize: nat
    var val: bv32
    var inscnt: nat

    ghost predicate Inputs() {
      index.Inside() && index.src == src && |src| < MAX_UINT32 && 0 < |trg| < MAX_UINT32
    }

    ghost function Written(): Bytes
      reads this, out
      requires outpos <= out.Length
    {
      out[..outpos]
    }

    /** The index has no entries, so nothing matches. */
    ghost predicate Bare() {
      forall i :: 0 <= i < |index.hash| ==> index.hash[i] == []
    }

    /** Without matches the output is all literals. */
    ghost predicate AllLiterals()
      reads this
    {
      Bare() ==> msize == 0 && inscnt == data % 0x7f && outpos == LiteralEnd(|src|, |trg|, data)
    }

    ghost function At(): Cursor
      reads this
    {
      Cursor(data, inscnt, moff, msize, outpos)
    }

    /** The match that is in hand after searching at the cursor, which is not done when it is good enough already. */
    ghost function Found(): (nat, nat)
      reads this
      requires index.hash != [] && RABIN_WINDOW <= data < |trg|
    {
      var v := Fingerprint(Window(trg, data + 1));
      if msize < 4096 then Scan(index.Bucket(v), v, src, trg, data, moff, msize) else (moff, msize)
    }

    /** What holds after every step, room in the buffer aside. */
    ghost predicate Core()
      reads this, out
    {
      && Inputs()
      && outpos <= out.Length && Sized(out.Length, maxSize)
      && Emitted(src, trg, Written(), data, inscnt) && inscnt < 0x7f
      && Matches(src, moff, trg, data, msize)
      && outpos + (if inscnt == 0 then 1 else 0) <= 12 + 2 * data
      && (RABIN_WINDOW <= data || data == |trg|)
      && AllLiterals()
    }

    /** The rolling value is current whenever it will be used next. */
    ghost predicate ValIsCurrent()
      reads this
    {
      RABIN_WINDOW <= data < |trg| && msize < GOOD_ENOUGH ==> val == Fingerprint(Window(trg, data))
    }

    /** True at the top of the main loop. */
    ghost predicate Valid()
      reads this, out
    {
      Core() && ValIsCurrent() && outpos + 9 <= out.Length
      && (data > RABIN_WINDOW ==> outpos + MAX_OP_SIZE < out.Length)
    }

    /** The buffer has to grow once too often. */
    ghost predicate Overruns()
      reads this, out
    {
      Boundless(maxSize) && outpos + MAX_OP_SIZE >= out.Length == LAST_SIZE
    }

    /** The output has passed the size limit. */
    ghost predicate TooLong()
      reads this
    {
      0 < maxSize < outpos
    }

    constructor (index: Index, trg: Bytes, maxSize: nat)
      requires index.Inside() && |index.src| < MAX_UINT32 && 0 < |trg| < MAX_UINT32
      ensures Inputs() && this.index == index && this.trg == trg && this.maxSize == maxSize
      ensures outpos == data == moff == msize == inscnt == 0 && val == 0
      ensures fresh(out) && out.Length == Capped(8192, maxSize)
    {
      this.index, this.src, this.trg, this.maxSize := index, index.src, trg, maxSize;
      outpos, data, moff, msize, val, inscnt := 0, 0, 0, 0, 0, 0;
      out := new byte[Capped(8192, maxSize)](_ => 0);
    }

    method Put(b: byte)
      requires outpos < out.Length
      modifies this`outpos, out
      ensures outpos == old(outpos) + 1 && Written() == old(Written()) + [b]
    {
      out[outpos] := b;
      outpos := outpos + 1;
    }

    method PutSize(size: nat)
      requires outpos + |EncodeSize(size)| <= out.Length
      modifies this`outpos, out
      ensures outpos == old(outpos) + |EncodeSize(size)| && Written() == old(Written()) + EncodeSize(size)
    {
      var i := size;
      while i >= 0x80
        invariant outpos + |EncodeSize(i)| <= out.Length
        invariant Written() + EncodeSize(i) == old(Written()) + EncodeSize(size)
      {
        ghost var before := Written();
        var b := i % 0x80 + 0x80;
        Put(b);
        i := i / 0x80;
        assert before + ([b] + EncodeSize(i)) == before + [b] + EncodeSize(i);
      }
      Put(i);
    }

    /** Writes one literal, opening a count slot first when no insert is pending. */
    method PutLiteral()
      requires Inputs() && outpos + 2 <= out.Length && data < |trg| && inscnt < 0x7f
      requires Emitted(src, trg, Written(), data, inscnt)
      modifies this`outpos, this`data, this`inscnt, out
      ensures outpos == old(outpos) + (if old(inscnt) == 0 then 2 else 1)
      ensures data == old(data) + 1 && inscnt == old(inscnt) + 1
      ensures Emitted(src, trg, Written(), data, inscnt)
    {
      hide Emitted;
      ghost var w := Written();
      ghost var slot := if outpos < out.Length then out[outpos] else 0;
      EmitLiteral(src, trg, w, data, inscnt, slot);
      if inscnt == 0 {
        outpos := outpos + 1;
        assert Written() == w + [slot];
      }
      Put(trg[data]);
      data, inscnt := data + 1, inscnt + 1;
    }

    /** Fills in the count of the pending insert. */
    method CloseInsert()
      requires Inputs() && outpos <= out.Length && 0 < inscnt < 0x80
      requires Emitted(src, trg, Written(), data, inscnt)
      modifies this`inscnt, out
      ensures inscnt == 0 && Emitted(src, trg, Written(), data, 0)
    {
      hide Emitted;
      EmittedRoom(src, trg, Written(), data, inscnt);
      EmitClose(src, trg, Written(), data, inscnt);
      ghost var w := Written();
      out[outpos - inscnt - 1] := inscnt;
      assert Written() == w[outpos - inscnt - 1 := inscnt];
      inscnt := 0;
    }

    /** One more literal, and the end of the insert when it is full. */
    method AddLiteral()
      requires Inputs() && outpos + 2 <= out.Length && data < |trg| && inscnt < 0x7f
      requires Emitted(src, trg, Written(), data, inscnt)
      modifies this`outpos, this`data, this`inscnt, out
      ensures outpos == old(outpos) + (if old(inscnt) == 0 then 2 else 1)
      ensures data == old(data) + 1 && inscnt == if old(inscnt) == 0x7e then 0 else old(inscnt) + 1
      ensures Emitted(src, trg, Written(), data, inscnt)
    {
      hide Emitted;
      PutLiteral();
      if inscnt == 0x7f {
        CloseInsert();
      }
    }

    lemma InputsFit()
      requires Inputs()
      ensures |src| < MAX_UINT32 && |trg| < MAX_UINT32
    {
    }

    /** Gives literals back to the match one byte at a time, then closes what is left of the insert.  If
        nothing is left the count, by then -1, lands one past the written bytes. */
    method ExtendBack()
      requires Inputs() && outpos < out.Length && 0 < inscnt < 0x7f
      requires Emitted(src, trg, Written(), data, inscnt) && Matches(src, moff, trg, data, msize)
      modifies this`outpos, this`data, this`moff, this`msize, this`inscnt, out
      ensures data <= old(data) <= data + old(inscnt) && msize == old(msize) + (old(data) - data)
      ensures outpos + (old(data) - data) + (if old(data) == data + old(inscnt) then 1 else 0) == old(outpos)
      ensures out == old(out) && moff + (old(data) - data) == old(moff)
      ensures inscnt == 0 && Emitted(src, trg, Written(), data, 0) && Matches(src, moff, trg, data, msize)
      ensures data + old(inscnt) == old(data) || moff == 0 || src[moff - 1] != trg[data - 1]
    {
      hide Emitted, Matches, Inputs;
      InputsFit();
      var count: int := inscnt;
      EmittedRoom(src, trg, Written(), data, inscnt);
      MatchRoom(src, moff, trg, data, msize);
      while moff > 0 && src[moff - 1] == trg[data - 1]
        invariant outpos <= old(outpos) && 0 < inscnt == count <= old(inscnt) && inscnt <= data <= |trg|
        invariant moff <= |src|
        invariant Emitted(src, trg, Written(), data, inscnt) && Matches(src, moff, trg, data, msize)
        invariant data + old(inscnt) == old(data) + inscnt && msize == old(msize) + (old(data) - data)
        invariant outpos + (old(data) - data) == old(outpos) && moff + (old(data) - data) == old(moff)
        decreases moff
      {
        EmittedRoom(src, trg, Written(), data, inscnt);
        TakeBack(src, trg, Written(), data, inscnt);
        MatchBack(src, moff, trg, data, msize);
        ghost var w := Written();
        msize, moff, data := msize + 1, moff - 1, data - 1;
        outpos := outpos - 1;
        count, inscnt := count - 1, inscnt - 1;
        if count != 0 {
          assert Written() == w[..|w| - 1];
          continue;
        }
        outpos := outpos - 1;
        count := -1;
        assert Written() == w[..|w| - 2];
        break;
      }
      if count > 0 {
        CloseInsert();
      } else {
        ghost var w := Written();
        out[outpos - count - 1] := count % 0x100;
        assert Written() == w;
      }
    }

    /** Writes the bytes of an operation argument that are not zero and returns their presence bits. */
    method PutArg(x: nat, n: nat) returns (bits: nat)
      requires outpos + |EncodeArg(x, n)| <= out.Length
      modifies this`outpos, out
      ensures bits == ArgBits(x, n)
      ensures outpos == old(outpos) + |EncodeArg(x, n)| && Written() == old(Written()) + EncodeArg(x, n)
      decreases n
    {
      if n == 0 {
        return 0;
      }
      var low := x % 0x100;
      if low != 0 {
        Put(low);
      }
      var rest := PutArg(x / 0x100, n - 1);
      bits := (if low == 0 then 0 else 1) + 2 * rest;
    }

    /** Writes a copy operation; its command byte is filled in last. */
    method PutCopy(size: nat)
      requires moff < MAX_UINT32 && outpos + |EncodeCopy(moff, size)| <= out.Length
      modifies this`outpos, out
      ensures outpos == old(outpos) + |EncodeCopy(moff, size)| && Written() == old(Written()) + EncodeCopy(moff, size)
    {
      hide EncodeArg, ArgBits;
      ghost var w := Written();
      var op := outpos;
      outpos := outpos + 1;
      ghost var slot := out[op];
      assert Written() == w + [slot];
      var offBits := PutArg(moff, 4);
      var sizeBits := PutArg(size, 2);
      ArgBitsFit(moff, 4);
      ArgBitsFit(size, 2);
      assert Written() == w + ([slot] + EncodeArg(moff, 4) + EncodeArg(size, 2));
      out[op] := 0x80 + offBits + 0x10 * sizeBits;
      assert Written() == w + ([0x80 + offBits + 0x10 * sizeBits] + EncodeArg(moff, 4) + EncodeArg(size, 2));
    }

    /** Rolls the fingerprint over the next byte and looks for a match at the cursor. */
    method Search()
      requires Core() && ValIsCurrent() && data < |trg| && msize < GOOD_ENOUGH
      modifies this`val, this`moff, this`msize
      ensures Core() && msize >= old(msize)
      ensures RABIN_WINDOW <= data && val == Fingerprint(Window(trg, data + 1))
      ensures Ascending(index.Bucket(val)) ==>
        (moff, msize) == Scan(index.Bucket(val), val, src, trg, data, old(moff), old(msize))
    {
      hide Emitted, Matches, Scan, Ascending, Push, Drop, Fingerprint, Sized, LiteralEnd;
      RollingIsExact(Window(trg, data), trg[data]);
      assert Window(trg, data)[1..] + [trg[data]] == Window(trg, data + 1);
      val := Drop(val, trg[data - RABIN_WINDOW]);
      val := Push(val, trg[data]);
      ghost var moff0, msize0 := moff, msize;
      moff, msize := FindMatch(index.Bucket(val), val, src, trg, data, moff, msize);
      if Bare() { ScanNothing(val, src, trg, data, moff0, msize0); }
    }

    /** No usable match: one literal. */
    method InsertStep()
      requires Core() && outpos + 9 <= out.Length && data < |trg| && msize < 4
      requires RABIN_WINDOW <= data && val == Fingerprint(Window(trg, data + 1))
      modifies this`outpos, this`data, this`inscnt, this`msize, out
      ensures Core() && ValIsCurrent() && outpos + 2 <= out.Length && data == old(data) + 1
      ensures Advances(old(data), old(inscnt), old(outpos), old(moff), old(msize), 0, At())
    {
      hide Emitted, Matches, Sized, LiteralEnd;
      MatchRoom(src, moff, trg, data, msize);
      LiteralStep(|src|, |trg|, data);
      AddLiteral();
      msize := 0;
      EmptyMatch(src, moff, trg, data);
    }

    /** The fingerprint of the window behind the cursor, from scratch. */
    method Refill()
      requires RABIN_WINDOW <= data <= |trg|
      modifies this`val
      ensures val == Fingerprint(Window(trg, data))
    {
      hide Push;
      val := 0;
      var w := Window(trg, data);
      for j := 0 to RABIN_WINDOW
        invariant val == Fingerprint(w[..j])
      {
        val := Push(val, trg[data - RABIN_WINDOW + j]);
        assert w[..j + 1][..j] == w[..j];
      }
      assert w[..RABIN_WINDOW] == w;
    }

    /** Emits a copy of at most 64 KB of the match, keeping the rest of the match for later. */
    method CopyPart()
      requires Inputs() && outpos + 7 <= out.Length && inscnt == 0 && msize > 0
      requires Emitted(src, trg, Written(), data, 0) && Matches(src, moff, trg, data, msize)
      modifies this`outpos, this`data, this`msize, this`moff, out
      ensures outpos <= old(outpos) + 7 && data == old(data) + (old(msize) - msize)
      ensures msize == if old(msize) < 0x10000 then 0 else old(msize) - 0x10000
      ensures moff == old(moff) + (old(msize) - msize)
      ensures Emitted(src, trg, Written(), data, 0) && Matches(src, moff, trg, data, msize)
    {
      hide Emitted, Matches, EncodeCopy;
      var left := if msize < 0x10000 then 0 else msize - 0x10000;
      MatchRoom(src, moff, trg, data, msize);
      MatchSplits(src, moff, trg, data, msize, msize - left);
      CopyLength(moff, msize - left);
      EmitCopy(src, trg, Written(), data, moff, msize - left);
      PutCopy(msize - left);
      data, moff, msize := data + (msize - left), moff + (msize - left), left;
    }

    /** Extends the match back over pending literals, if there are any. */
    method TakeBackLiterals() returns (ghost x: nat)
      requires Inputs() && outpos < out.Length && inscnt < 0x7f
      requires Emitted(src, trg, Written(), data, inscnt) && Matches(src, moff, trg, data, msize)
      modifies this`outpos, this`data, this`moff, this`msize, this`inscnt, out
      ensures inscnt == 0 && out == old(out)
      ensures data + x == old(data) && moff + x == old(moff) && msize == old(msize) + x
      ensures outpos + x + (if 0 < x == old(inscnt) then 1 else 0) == old(outpos)
      ensures BackTo(src, trg, old(data), old(inscnt), old(moff), x)
      ensures Emitted(src, trg, Written(), data, 0) && Matches(src, moff, trg, data, msize)
    {
      hide Emitted, Matches;
      MatchRoom(src, moff, trg, data, msize);
      EmittedRoom(src, trg, Written(), data, inscnt);
      x := 0;
      if inscnt > 0 {
        ghost var was := data;
        ExtendBack();
        x := was - data;
      }
    }

    /** A usable match: extend it back over pending literals, copy, and restart the fingerprint. */
    method CopyStep() returns (ghost x: nat)
      requires Core() && !Bare() && outpos + 9 <= out.Length && data < |trg| && msize >= 4
      modifies this`outpos, this`data, this`inscnt, this`msize, this`moff, this`val, out
      ensures Core() && ValIsCurrent() && outpos + 2 <= out.Length && data > old(data)
      ensures Advances(old(data), old(inscnt), old(outpos), old(moff), old(msize), x, At())
      ensures BackTo(src, trg, old(data), old(inscnt), old(moff), x)
    {
      hide Emitted, Matches, Sized, LiteralEnd, BackTo, Advances;
      ghost var c := At();
      x := TakeBackLiterals();
      ghost var c1 := At();
      CopyPart();
      DataFits(src, trg, Written(), data, 0);
      AdvancesBy(src, trg, c, x, c1, At());
      if msize < GOOD_ENOUGH {
        Refill();
      }
    }

    /** Grows the buffer when it is nearly full; stops the run when the size limit is passed. */
    method CheckRoom() returns (stop: bool, overrun: bool)
      requires Core() && ValIsCurrent() && outpos + 2 <= out.Length
      modifies this`out
      ensures fresh(out) || out == old(out)
      ensures if overrun then Core() && Overruns() else if stop then Core() && TooLong() else Valid()
    {
      hide Emitted, Matches, Sized, LiteralEnd;
      SizedBounds(out.Length, maxSize);
      if outpos < out.Length - MAX_OP_SIZE {
        return false, false;
      }
      var newSize := Grown(out.Length, maxSize);
      if maxSize > 0 && outpos > maxSize {
        return true, false;
      }
      GrowthSuffices(out.Length, outpos, maxSize);
      DataFits(src, trg, Written(), data, inscnt);
      if newSize <= outpos + MAX_OP_SIZE {
        return false, true;
      }
      var bigger := new byte[newSize];
      forall i | 0 <= i < outpos {
        bigger[i] := out[i];
      }
      assert bigger[..outpos] == Written();
      out := bigger;
      return false, false;
    }

    method PutHeader()
      requires Inputs() && outpos == 0 && out.Length >= 10
      modifies this`outpos, out
      ensures outpos == |SizeHeader(src, trg)| <= 10 && outpos <= out.Length && Emitted(src, trg, Written(), 0, 0)
    {
      hide Emitted, EncodeSize;
      SizeLength(|src|);
      SizeLength(|trg|);
      PutSize(|src|);
      PutSize(|trg|);
      assert Written() == SizeHeader(src, trg);
      HeaderEmitted(src, trg);
    }

    /** Writes both sizes and the first window of literals. */
    method Begin()
      requires Inputs() && outpos == data == moff == msize == inscnt == 0 && val == 0
      requires out.Length == Capped(8192, maxSize)
      modifies this`outpos, this`data, this`inscnt, this`val, out
      ensures Valid() && data == inscnt == if |trg| < 16 then |trg| else 16
      ensures moff == msize == 0 && outpos == |SizeHeader(src, trg)| + data + 1
    {
      hide Emitted, Matches, Push, Sized, LiteralEnd;
      FirstSized(maxSize);
      PutHeader();
      while inscnt < RABIN_WINDOW && data < |trg|
        invariant outpos <= out.Length && outpos == |SizeHeader(src, trg)| + Pending(inscnt)
        invariant data == inscnt <= RABIN_WINDOW && data <= |trg|
        invariant Emitted(src, trg, Written(), data, inscnt)
        invariant val == Fingerprint(trg[..data])
      {
        val := Push(val, trg[data]);
        assert trg[..data + 1][..data] == trg[..data];
        PutLiteral();
      }
      EmptyMatch(src, moff, trg, data);
      FirstLiterals(src, trg, data);
    }

    /** One turn of the main loop. */
    method Step() returns (stop: bool, overrun: bool, ghost x: nat)
      requires Valid() && data < |trg|
      modifies this, out
      ensures fresh(out) || out == old(out)
      ensures data > old(data) && data <= |trg|
      ensures if overrun then Core() && Overruns() else if stop then Core() && TooLong() else Valid()
      ensures (forall i :: 0 <= i < |index.hash| ==> Ascending(index.hash[i])) ==>
        var (m, n) := old(Found());
        && Advances(old(data), old(inscnt), old(outpos), m, n, x, At())
        && (n >= 4 ==> BackTo(src, trg, old(data), old(inscnt), m, x))
    {
      hide Emitted, Matches, Sized, LiteralEnd, Scan, Fingerprint, Ascending, Advances, BackTo;
      x := 0;
      if msize < GOOD_ENOUGH {
        Search();
      }
      if msize < 4 {
        InsertStep();
      } else {
        x := CopyStep();
      }
      DataFits(src, trg, Written(), data, inscnt);
      stop, overrun := CheckRoom();
    }
  }

  lemma EmptyMatch(src: Bytes, moff: nat, trg: Bytes, data: nat)
    requires moff <= |src| && data <= |trg|
    ensures Matches(src, moff, trg, data, 0)
  {
  }

  lemma DataFits(src: Bytes, trg: Bytes, w: Bytes, data: nat, inscnt: nat)
    requires Emitted(src, trg, w, data, inscnt)
    ensures data <= |trg|
  {
  }

  lemma MatchRoom(src: Bytes, moff: nat, trg: Bytes, data: nat, msize: nat)
    requires Matches(src, moff, trg, data, msize)
    ensures moff + msize <= |src| && data + msize <= |trg|
  {
  }

  lemma EmittedRoom(src: Bytes, trg: Bytes, w: Bytes, data: nat, inscnt: nat)
    requires Emitted(src, trg, w, data, inscnt)
    ensures Pending(inscnt) <= |w| && inscnt <= data <= |trg|
  {
  }

  /** One more literal: a count byte comes with every 127th. */
  lemma LiteralStep(srcSize: nat, trgSize: nat, data: nat)
    ensures LiteralEnd(srcSize, trgSize, data + 1)
         == LiteralEnd(srcSize, trgSize, data) + if data % 0x7f == 0 then 2 else 1
    ensures (data + 1) % 0x7f == if data % 0x7f == 0x7e then 0 else data % 0x7f + 1
  {
    hide EncodeSize;
  }

  lemma FirstLiterals(src: Bytes, trg: Bytes, data: nat)
    requires 0 < data < 0x7f
    ensures LiteralEnd(|src|, |trg|, data) == |SizeHeader(src, trg)| + Pending(data) && data % 0x7f == data
  {
    hide EncodeSize;
  }

  lemma ScanNothing(val: bv32, src: Bytes, trg: Bytes, data: nat, moff: nat, msize: nat)
    ensures Ascending([]) && Scan([], val, src, trg, data, moff, msize) == (moff, msize)
  {
  }

  lemma LiteralsGrow(srcSize: nat, trgSize: nat, data: nat)
    requires data <= trgSize
    ensures LiteralEnd(srcSize, trgSize, data) <= LiteralEnd(srcSize, trgSize, trgSize)
  {
    hide EncodeSize;
  }

  /** What the encoder promises: a delta rebuilds the target byte for byte, within a non-zero limit.  There is no
      delta only for an empty target or for a limit below the worst case.  The buffer can only be overrun without
      a limit, or with one above the last buffer size, and by targets of more than half that size. */
  ghost predicate Promised(src: Bytes, trg: Bytes, maxSize: nat, r: Outcome) {
    match r
    case Delta(bytes) =>
      Patch(src, bytes) == Some(trg) && (maxSize > 0 ==> |bytes| <= maxSize) && |bytes| <= LAST_SIZE && trg != []
    case NoDelta => trg == [] || (!Boundless(maxSize) && maxSize < 12 + 2 * |trg|)
    case Overrun => Boundless(maxSize) && 2 * |trg| + 46 >= LAST_SIZE
  }

  lemma OverrunNeedsSize(e: Encoder)
    requires e.Core() && e.Overruns()
    ensures 2 * |e.trg| + 46 >= LAST_SIZE
    ensures e.Bare() ==> LiteralEnd(|e.src|, |e.trg|, |e.trg|) >= LAST_SIZE - MAX_OP_SIZE
  {
    hide Emitted, Matches, Sized, LiteralEnd;
    DataFits(e.src, e.trg, e.Written(), e.data, e.inscnt);
    LiteralsGrow(|e.src|, |e.trg|, e.data);
  }

  lemma TooLongNeedsSize(e: Encoder)
    requires e.Core() && e.TooLong()
    ensures !Boundless(e.maxSize) && e.maxSize < 12 + 2 * |e.trg|
  {
    hide Emitted, Matches, Sized, LiteralEnd;
    SizedBounds(e.out.Length, e.maxSize);
    DataFits(e.src, e.trg, e.Written(), e.data, e.inscnt);
  }

  /** At the end, without a limit, the output has stayed clear of the last buffer's end. */
  lemma EndNeedsRoom(e: Encoder)
    requires e.Valid() && e.data == |e.trg|
    ensures e.outpos <= e.maxSize || Boundless(e.maxSize) ==> e.outpos <= LAST_SIZE
    ensures Boundless(e.maxSize) && e.Bare() ==> LiteralEnd(|e.src|, |e.trg|, |e.trg|) < LAST_SIZE - MAX_OP_SIZE
  {
    hide Emitted, Matches, Sized;
    SizedBounds(e.out.Length, e.maxSize);
    SizeLength(|e.src|);
    SizeLength(|e.trg|);
  }

  /** The file against itself, with no limit that is too low for it. */
  ghost predicate SelfDiff(e: Encoder) {
    && FirstBlockLeads(e.index, e.trg) && |e.trg| >= 20 && e.src == e.trg
    && (e.maxSize == 0 || e.maxSize >= SelfBound(|e.trg|))
  }

  lemma SelfFinds(e: Encoder)
    requires e.Valid() && e.data < |e.trg| && SelfDiff(e) && SelfAt(|e.trg|, |SizeHeader(e.src, e.trg)|, e.At())
    ensures RABIN_WINDOW <= e.data
    ensures
      var (m, n) := e.Found();
      SelfFound(|e.trg|, |SizeHeader(e.src, e.trg)|, e.At(), m, n)
  {
    hide Scan, Fingerprint, Emitted, Sized, LiteralEnd, EncodeSize, Slot;
    var n, hdr, c := |e.trg|, |SizeHeader(e.src, e.trg)|, e.At();
    var v := Fingerprint(Window(e.trg, e.data + 1));
    if AtFirst(n, hdr, c) {
      FirstFound(e.index, e.trg);
    } else if AtRest(n, hdr, c) {
      ScanFits(e.index.Bucket(v), v, e.src, e.trg, e.data, e.moff, e.msize);
    } else {
      RestKept(e.index, e.trg, v, e.data, e.moff);
    }
  }

  /** With so little written, neither the limit nor the buffer is reached. */
  lemma SelfGoesOn(e: Encoder)
    requires SelfDiff(e) && |e.trg| < MAX_UINT32 && e.outpos <= SelfBound(|e.trg|)
    ensures !e.TooLong() && !e.Overruns()
  {
    hide FirstBlockLeads;
  }

  lemma HeaderFits(src: Bytes, trg: Bytes)
    requires |src| < MAX_UINT32 && |trg| < MAX_UINT32
    ensures 2 <= |SizeHeader(src, trg)| <= 10
  {
    hide EncodeSize;
    SizeLength(|src|);
    SizeLength(|trg|);
  }

  /** Whether the file is encoded against itself, which the encoder starts at the first station. */
  lemma StartsSelf(e: Encoder) returns (self: bool)
    requires e.Valid() && e.data == e.inscnt == (if |e.trg| < 16 then |e.trg| else 16) && e.src == e.index.src
    requires e.moff == e.msize == 0 && e.outpos == |SizeHeader(e.src, e.trg)| + e.data + 1
    ensures self <==>
      FirstBlockLeads(e.index, e.trg) && |e.trg| >= 20 && (e.maxSize == 0 || e.maxSize >= SelfBound(|e.trg|))
    ensures self ==> SelfDiff(e) && SelfAt(|e.trg|, |SizeHeader(e.src, e.trg)|, e.At())
  {
    hide Emitted, Matches, Sized, LiteralEnd, Fingerprint, EncodeSize;
    self := FirstBlockLeads(e.index, e.trg) && |e.trg| >= 20 && (e.maxSize == 0 || e.maxSize >= SelfBound(|e.trg|));
  }

  /** One turn of the main loop; a file against itself goes on to its next station. */
  method Turn(e: Encoder, ghost self: bool, ghost hdr: nat) returns (stop: bool, overrun: bool)
    requires e.Valid() && e.data < |e.trg| && hdr == |SizeHeader(e.src, e.trg)| <= 10
    requires self ==> SelfDiff(e) && SelfAt(|e.trg|, hdr, e.At())
    modifies e, e.out
    ensures fresh(e.out) || e.out == old(e.out)
    ensures e.data > old(e.data) && e.data <= |e.trg|
    ensures if overrun then e.Core() && e.Overruns() else if stop then e.Core() && e.TooLong() else e.Valid()
    ensures self ==> !stop && !overrun && SelfDiff(e) && SelfAt(|e.trg|, hdr, e.At())
  {
    hide Emitted, Matches, Sized, LiteralEnd, SelfDiff, SelfAt, SelfBound, Advances, BackTo, Scan, Fingerprint,
         SelfFound, AtFirst, Ascending;
    ghost var c := e.At();
    if self { SelfFinds(e); }
    ghost var (m, n) := e.Found();
    ghost var x;
    stop, overrun, x := e.Step();
    if self {
      SelfStays(e);
      SelfAscends(e);
      SelfNext(e.trg, hdr, c, m, n, x, e.At());
      SelfWithin(|e.trg|, hdr, e.outpos);
      SelfGoesOn(e);
    }
  }

  lemma SelfStays(e: Encoder)
    requires SelfDiff(e)
    ensures e.src == e.trg
  {
    hide FirstBlockLeads;
  }

  lemma SelfAscends(e: Encoder)
    requires SelfDiff(e)
    ensures forall i :: 0 <= i < |e.index.hash| ==> Ascending(e.index.hash[i])
  {
    hide Fingerprint, Ascending;
  }

  lemma SelfWithin(n: nat, hdr: nat, outpos: nat)
    requires hdr <= 10 && outpos <= hdr + 7 * (n / 0x10000 + 1) + 4
    ensures outpos <= SelfBound(n)
  {
  }

  lemma SelfEnds(n: nat, hdr: nat, c: Cursor)
    requires SelfAt(n, hdr, c) && c.data >= n && hdr <= 10
    ensures c.data == n && c.outpos <= SelfBound(n)
  {
  }

  /** Encoding against an index.  With an index that has no entries the buffer is overrun exactly from the size on
      at which the literals alone reach the end of the last buffer that still grows. */
  method CreateDelta(index: Index, trg: Bytes, maxSize: nat) returns (r: Outcome)
    requires index.Inside() && |index.src| < MAX_UINT32 && |trg| < MAX_UINT32
    ensures Promised(index.src, trg, maxSize, r) && (trg == [] ==> r.NoDelta?)
    ensures (forall i :: 0 <= i < |index.hash| ==> index.hash[i] == []) && trg != [] ==>
      (r.Overrun? <==> Boundless(maxSize) && LiteralEnd(|index.src|, |trg|, |trg|) >= LAST_SIZE - MAX_OP_SIZE)
    ensures FirstBlockLeads(index, trg) && |trg| >= 20 && (maxSize == 0 || maxSize >= SelfBound(|trg|)) ==>
      r.Delta? && |r.bytes| <= SelfBound(|trg|)
  {
    hide Emitted, Matches, Patch, Sized, LiteralEnd, SelfDiff, SelfAt, SelfBound, Advances, BackTo, Scan,
         FirstBlockLeads;
    if trg == [] {
      return NoDelta;
    }
    var e := new Encoder(index, trg, maxSize);
    e.Begin();
    ghost var hdr := |SizeHeader(e.src, trg)|;
    HeaderFits(e.src, trg);
    ghost var self := StartsSelf(e);
    while e.data < |trg|
      invariant fresh(e) && fresh(e.out) && e.index == index && e.trg == trg && e.src == index.src
      invariant e.maxSize == maxSize
      invariant e.Valid() && (self ==> SelfDiff(e) && SelfAt(|trg|, hdr, e.At()))
      decreases |trg| - e.data
    {
      var stop, overrun := Turn(e, self, hdr);
      if overrun {
        OverrunNeedsSize(e);
        return Overrun;
      }
      if stop {
        TooLongNeedsSize(e);
        return NoDelta;
      }
    }
    DataFits(e.src, trg, e.Written(), e.data, e.inscnt);
    if self {
      SelfEnds(|trg|, hdr, e.At());
      SelfGoesOn(e);
    }
    EndNeedsRoom(e);
    if maxSize > 0 && e.outpos > maxSize { TooLongNeedsSize(e); }
    if e.inscnt > 0 {
      e.CloseInsert();
    }
    if maxSize > 0 && e.outpos > maxSize {
      return NoDelta;
    }
    EmittedPatches(e.src, trg, e.Written());
    return Delta(e.out[..e.outpos]);
  }

  /** Index and encode in one go (delta.h:58-71).  A source of at most 16 bytes has no index entries: exactly
      targets from OVERRUN_SIZE on overrun. */
  method DiffDelta(src: Bytes, trg: Bytes, maxSize: nat) returns (r: Outcome)
    requires |src| < MAX_UINT32 && |trg| < MAX_UINT32
    ensures src == [] || trg == [] ==> r.NoDelta?
    ensures src != [] ==> Promised(src, trg, maxSize, r)
    ensures 0 < |src| <= RABIN_WINDOW ==> (r.Overrun? <==> Boundless(maxSize) && |trg| >= OVERRUN_SIZE)
    ensures trg == src && |src| >= 20 && (maxSize == 0 || maxSize >= SelfBound(|src|)) ==>
      r.Delta? && |r.bytes| <= SelfBound(|src|)
  {
    hide Promised, Indexed, LiteralEnd, FitsEntries, FirstBlockLeads, SelfBound, HoldsHeads, Culled;
    var index;
    ghost var full;
    index, full := CreateDeltaIndex(src);
    if index.None? {
      return NoDelta;
    }
    if |src| <= RABIN_WINDOW {
      ShortIsBare(src, full, index.value.hash);
      OverrunsFrom(|src|, |trg|);
    }
    if |src| > RABIN_WINDOW {
      FirstLeads(src, full, index.value);
    }
    r := CreateDelta(index.value, trg, maxSize);
  }

  /** The first block is the first entry of its bucket, and culling keeps it. */
  lemma FirstLeads(src: Bytes, full: seq<seq<IndexEntry>>, index: Index)
    requires |src| > RABIN_WINDOW && index.src == src && index.Inside()
    requires Indexed(src, full, 0) && HoldsHeads(src, full, 0, Blocks(src)) && Culled(full, index.hash)
    requires forall i :: 0 <= i < |index.hash| ==> Ascending(index.hash[i])
    ensures FirstBlockLeads(index, src)
  {
    hide Fingerprint, Slot;
    var e := BlockEntry(src, 0);
    assert RunHead(src, 0, 0) && IsHead(src, 0, Blocks(src), e);
    var s := Slot(e.val, |full|);
    BucketOf(src, full, s, 0);
    FirstIsLowest(src, full[s], s, |full|, e);
    CullKeepsFirst(full[s], index.hash[s]);
  }

  lemma FirstIsLowest(src: Bytes, bucket: seq<IndexEntry>, i: nat, hsize: nat, e: IndexEntry)
    requires BucketIndexed(src, bucket, i, hsize, 0) && e in bucket && e.ptr == RABIN_WINDOW
    ensures bucket[0] == e
  {
    hide Fingerprint, Slot;
    var k :| 0 <= k < |bucket| && bucket[k] == e;
    assert TrueEntry(src, bucket[0]);
  }

  lemma CullKeepsFirst(list: seq<IndexEntry>, kept: seq<IndexEntry>)
    requires list != []
    requires if |list| <= HASH_LIMIT then kept == list else |kept| == HASH_LIMIT && Thinned(kept, list)
    ensures kept != [] && kept[0] == list[0]
  {
    if |list| > HASH_LIMIT {
      assert IsFrom(kept[0], list, Survivor(0, |list| - HASH_LIMIT));
    }
  }

  lemma ShortIsBare(src: Bytes, full: seq<seq<IndexEntry>>, hash: seq<seq<IndexEntry>>)
    requires 0 < |src| <= RABIN_WINDOW && HoldsHeads(src, full, 0, Blocks(src)) && Culled(full, hash)
    ensures forall i :: 0 <= i < |hash| ==> hash[i] == []
  {
    hide IsHead, Slot, Thinned;
    forall i | 0 <= i < |hash|
      ensures hash[i] == []
    {
      if full[i] != [] { NoHead(src, full[i][0]); }
    }
  }

  lemma NoHead(src: Bytes, e: IndexEntry)
    ensures !IsHead(src, 0, 0, e)
  {
  }

  /** An overrunning input: any source of 16 bytes or less, and a target of at least this size. */
  lemma OverrunIsPossible(src: Bytes)
    requires 0 < |src| <= RABIN_WINDOW
    ensures OVERRUN_SIZE < MAX_UINT32
    ensures LiteralEnd(|src|, OVERRUN_SIZE, OVERRUN_SIZE) == LAST_SIZE - MAX_OP_SIZE
    ensures LiteralEnd(|src|, OVERRUN_SIZE - 1, OVERRUN_SIZE - 1) == LAST_SIZE - MAX_OP_SIZE - 1
  {
    hide EncodeSize;
    SizeLength(OVERRUN_SIZE);
    SizeLength(OVERRUN_SIZE - 1);
    SizeLengthAtLeast(OVERRUN_SIZE);
    SizeLengthAtLeast(OVERRUN_SIZE - 1);
    ShortSize(|src|);
  }

  /** Delta and patch compose to the identity, unless the buffer was overrun. */
  method DiffThenPatch(src: Bytes, trg: Bytes) returns (again: Option<Bytes>)
    requires 0 < |src| < MAX_UINT32 && 0 < |trg| < MAX_UINT32
    ensures again == Some(trg) || (again == None && 2 * |trg| + 46 >= LAST_SIZE)
    ensures |src| <= RABIN_WINDOW ==> (again == Some(trg) <==> |trg| < OVERRUN_SIZE)
  {
    hide Patch;
    var r := DiffDelta(src, trg, 0);
    if !r.Delta? {
      return None;
    }
    again := PatchDelta(src, r.bytes);
  }
}
