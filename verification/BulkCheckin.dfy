/** Checking in big objects straight to a pack, starting a new pack when one gets too big
    (bulk-checkin.c:14-252). */
module BulkCheckin {
  import opened CsumFile
  import opened BulkSpec

  /** Deflating: takes input and gives output until one of them runs out; with `finish` it ends when both the
      input and the compressed form `z` are exhausted. */
  method Deflate(z: Bytes, emitted: nat, next: Bytes, room: nat, finish: bool)
    returns (used: nat, out: Bytes, end: bool)
    requires emitted <= |z| && room > 0
    ensures used <= |next| && |out| <= room && emitted + |out| <= |z| && out == z[emitted..emitted + |out|]
    ensures end <==> finish && used == |next| && emitted + |out| == |z|
    ensures !end ==> |out| == room || (!finish && used == |next|)
  {
    var n: nat := |z| - emitted;
    if !finish {
      n :| 0 <= n <= |z| - emitted;
    }
    used := |next|;
    if n >= room {
      n := room;
      used :| 0 <= used <= |next|;
    }
    out := z[emitted..emitted + n];
    end := finish && used == |next| && emitted + n == |z|;
  }

  lemma AbsorbedGrows(env: Env, kind: ObjectType, content: Bytes, ctx: Bytes, already: nat, next: nat)
    requires Absorbed(env, kind, content, ctx, already) && AtCut(next, |content|)
    ensures already < next ==> Absorbed(env, kind, content, ctx + content[already..next], next)
  {
    if already < next {
      assert content[..next] == content[..already] + content[already..next];
    }
  }

  lemma SliceOfSlice(s: Bytes, at: nat, size: nat, from: nat, n: nat)
    requires at + size <= |s| && from + n <= size
    ensures s[at..at + size][from..from + n] == s[at + from..at + from + n]
  {
    var whole := s[at..at + size];
    var piece := whole[from..from + n];
    assert forall i :: 0 <= i < n ==> piece[i] == whole[from + i];
    assert piece == s[at + from..at + from + n];
  }

  /** Reading more input when the last is used up, hashing what was not hashed in an earlier attempt. */
  method ReadMore(env: Env, input: Bytes, pos: nat, offset0: nat, kind: ObjectType, ghost content: Bytes, size: nat,
                  ctx0: Bytes, already0: nat) returns (chunk: Bytes, offset: nat, ctx: Bytes, already: nat)
    requires offset0 < size == |content| <= |input| - pos + offset0 && offset0 <= pos
    requires content == input[pos - offset0..pos - offset0 + size]
    requires AtCut(offset0, size) && offset0 <= already0
    requires Absorbed(env, kind, content, ctx0, already0)
    ensures offset0 < offset <= already && offset <= size && AtCut(offset, size)
    ensures Absorbed(env, kind, content, ctx, already)
    ensures |chunk| == offset - offset0
  {
    hide Absorbed;
    var rsize := if size - offset0 < IBUF_SIZE then size - offset0 else IBUF_SIZE;
    AbsorbedIn(env, kind, content, ctx0, already0);
    NextCut(offset0, already0, size);
    chunk := input[pos..pos + rsize];
    offset := offset0 + rsize;
    AbsorbedGrows(env, kind, content, ctx0, already0, offset);
    SliceOfSlice(input, pos - offset0, size, offset0, rsize);
    ctx, already := ctx0, already0;
    if already < offset {
      var hsize := offset - already;
      if rsize < hsize {
        hsize := rsize;
      }
      if hsize != 0 {
        ctx := ctx + chunk[..hsize];
      }
      assert chunk[..hsize] == chunk;
      already := offset;
    }
  }

  /** Of header and compressed form, `emitted` bytes of the latter produced, `k` bytes in all are passed on
      and `obuf` is the rest. */
  ghost predicate Produced(hdr: Bytes, z: Bytes, k: nat, obuf: Bytes, emitted: nat) {
    emitted <= |z| && k + |obuf| == |hdr| + emitted && obuf == (hdr + z)[k..k + |obuf|]
  }

  lemma ProducedStart(hdr: Bytes, z: Bytes)
    ensures Produced(hdr, z, 0, hdr, 0)
  {
  }

  lemma ProducedMore(hdr: Bytes, z: Bytes, k: nat, obuf: Bytes, emitted: nat, out: Bytes)
    requires emitted + |out| <= |z| && Produced(hdr, z, k, obuf, emitted) && out == z[emitted..emitted + |out|]
    ensures Produced(hdr, z, k, obuf + out, emitted + |out|)
    ensures k + |obuf + out| <= |hdr + z| && obuf + out == (hdr + z)[k..k + |obuf + out|]
  {
    assert z[emitted..emitted + |out|] == (hdr + z)[k + |obuf|..k + |obuf| + |out|];
  }

  lemma ProducedPassed(hdr: Bytes, z: Bytes, k: nat, obuf: Bytes, emitted: nat)
    requires Produced(hdr, z, k, obuf, emitted)
    ensures Produced(hdr, z, k + |obuf|, [], emitted)
    ensures emitted == |z| ==> k + |obuf| == |hdr + z|
  {
  }

  class BulkCheckin {
    const env: Env
    const limit: nat
    /** Objects the repository has elsewhere, and the packs finished so far. */
    const others: set<Sha>
    var packs: seq<Pack>

    var plugged: bool
    var f: Sha1File?
    var offset: nat
    var written: seq<PackEntry>

    constructor (env: Env, limit: nat, others: set<Sha>)
      requires WfEnv(env)
      ensures Valid() && packs == [] && !plugged && f == null && fresh(Files())
      ensures this.env == env && this.limit == limit && this.others == others
    {
      this.env, this.limit, this.others := env, limit, others;
      packs, plugged, f, offset, written := [], false, null, 0, [];
    }

    ghost function Files(): set<object>
      reads this
    {
      if f == null then {} else {f, f.buffer}
    }

    ghost predicate PacksGood() reads this {
      WfEnv(env) && forall i :: 0 <= i < |packs| ==> Good(env, limit, packs[i])
    }

    /** The offset is what the current file has accepted. */
    ghost predicate FileValid()
      reads this, if f == null then {} else {f, f.buffer}
    {
      if f == null then offset == 0 && written == []
      else f.Valid() && offset == |f.Accepted()|
    }

    /** Between calls: finished packs are good, and the current one is laid out by its entries. */
    ghost predicate Valid()
      reads this, if f == null then {} else {f, f.buffer}
    {
      && PacksGood() && FileValid() && DistinctNames(written)
      && (f != null ==> Filled(f.Accepted()))
    }

    /** `data` is the current pack: the header of a one-object pack, then the written objects. */
    ghost predicate Filled(data: Bytes)
      reads this
    {
      Started(data) && Laid(env, data, written) && Within(limit, data, written)
    }

    predicate Started(data: Bytes) {
      |data| >= PACK_HEADER_SIZE && data[..PACK_HEADER_SIZE] == env.packHeader(1)
    }

    // ---------------------------------------------------------------- finishing a pack

    /** A pack with these entries has been added, unless there are none. */
    static ghost predicate Appended(before: seq<Pack>, after: seq<Pack>, entries: seq<PackEntry>) {
      if entries == [] then after == before
      else |after| == |before| + 1 && after[..|before|] == before && after[|before|].entries == entries
    }

    /** The object can be read from the repository. */
    ghost predicate Stored(sha: Sha) reads this {
      sha in others || InPacks(packs, sha)
    }

    static ghost predicate InPacks(packs: seq<Pack>, sha: Sha) {
      exists i :: 0 <= i < |packs| && Lists(packs[i].entries, sha)
    }

    /** Rewriting the header of a closed pack; the checksum so far must match what is on disk. */
    method FixupHeader(disk: Bytes, count: nat, partial: Sha, upTo: nat) returns (r: Pack)
      requires WfEnv(env) && |disk| >= PACK_HEADER_SIZE
      requires upTo == |disk| && partial == env.sha(disk)
      ensures r == Pack(env.packHeader(count) + disk[PACK_HEADER_SIZE..], r.sha, written) && r.sha == env.sha(r.data)
    {
      assert disk[..upTo] == disk;
      if env.sha(disk[..upTo]) != partial {
        assert false;
      }
      var data := env.packHeader(count) + disk[PACK_HEADER_SIZE..];
      r := Pack(data, env.sha(data), written);
    }

    /** Completing the file of a pack that holds something. */
    method ClosePack() returns (p: Pack)
      requires Valid() && f != null && written != []
      modifies Files()
      ensures Good(env, limit, p) && p.entries == written
    {
      hide Laid, DistinctNames;
      ghost var data := f.Accepted();
      f.Flush();
      HeaderMovesNothing(env, data, written, env.packHeader(|written|));
      if |written| == 1 {
        p := Pack(f.disk, env.sha(f.ctx), written);
      } else {
        p := FixupHeader(f.disk, |written|, env.sha(f.ctx), offset);
      }
    }

    /** Finishing the current pack.  Everything is reset, the plug included, but only when there is a file. */
    method Finish()
      requires Valid()
      modifies this`packs, this`plugged, this`f, this`offset, this`written, Files()
      ensures Valid() && f == null && written == []
      ensures plugged == (old(plugged) && old(f) == null)
      ensures Appended(old(packs), packs, old(written))
    {
      hide Laid, Good, Within;
      if f == null {
        return;
      }
      if written != [] {
        var p := ClosePack();
        packs := packs + [p];
      }
      plugged, f, offset, written := false, null, 0, [];
    }

    method AlreadyWritten(sha: Sha) returns (r: bool)
      ensures r <==> Stored(sha) || Lists(written, sha)
    {
      if sha in others {
        return true;
      }
      for i := 0 to |packs|
        invariant forall j :: 0 <= j < i ==> !Lists(packs[j].entries, sha)
      {
        if Lists(packs[i].entries, sha) {
          return true;
        }
      }
      for i := 0 to |written|
        invariant forall j :: 0 <= j < i ==> written[j].sha != sha
      {
        if written[i].sha == sha {
          return true;
        }
      }
      r := false;
    }

    // ---------------------------------------------------------------- streaming one object

    /** Passing a full or final output buffer on, unless that would bust the limit. */
    method FlushOut(obuf: Bytes, write: bool) returns (ok: bool)
      requires FileValid() && (write ==> f != null)
      modifies this`offset, Files()
      ensures FileValid()
      ensures f != null ==> old(f.disk) <= f.disk && f.doCrc == old(f.doCrc)
      ensures f != null ==> f.Accepted() == old(f.Accepted()) + if ok && write then obuf else []
      ensures f != null ==> f.crc == old(f.crc) + if ok && write && f.doCrc then obuf else []
      ensures ok && write && written != [] && limit > 0 ==> offset <= limit
      ensures !ok ==> write && written != [] && limit > 0 && offset + |obuf| > limit
    {
      ok := true;
      if write {
        if written != [] && limit != 0 && limit < offset + |obuf| {
          assert f.Accepted() + [] == f.Accepted() && f.crc + [] == f.crc;
          return false;
        }
        f.Write(obuf);
        offset := offset + |obuf|;
      } else if f != null {
        assert f.Accepted() + [] == f.Accepted() && f.crc + [] == f.crc;
      }
    }

    /** What streaming keeps: behind `base`, so much of the record is in the file; nothing when not writing. */
    ghost predicate Streaming(base: Bytes, record: Bytes, k: nat, write: bool)
      reads this, if f == null then {} else {f, f.buffer}
    {
      && FileValid() && k <= |record|
      && (write ==> f != null && f.doCrc && f.crc == record[..k] && base <= f.disk)
      && (f != null ==> f.Accepted() == base + if write then record[..k] else [])
    }

    lemma StreamingFile(base: Bytes, record: Bytes, k: nat, write: bool)
      requires Streaming(base, record, k, write)
      ensures FileValid() && (write ==> f != null && base <= f.disk)
    {
    }

    /** Flushing the next stretch of the record. */
    method PassOn(obuf: Bytes, write: bool, ghost base: Bytes, ghost record: Bytes, ghost k: nat) returns (ok: bool)
      requires Streaming(base, record, k, write) && k + |obuf| <= |record| && obuf == record[k..k + |obuf|]
      modifies this`offset, Files()
      ensures Streaming(base, record, if ok then k + |obuf| else k, write)
      ensures ok && write && written != [] && limit > 0 ==> offset <= limit
      ensures !ok ==> write && written != [] && limit > 0 && |base| + |record| > limit
    {
      ok := FlushOut(obuf, write);
      assert record[..k] + obuf == record[..k + |obuf|];
      assert base + record[..k] + obuf == base + (record[..k] + obuf);
    }

    /** Streams an object of `size` bytes to the pack and through the hash.  False when the pack would get too
        big; `ctx` and `already` then say how much has been hashed. */
    method StreamToPack(input: Bytes, start: nat, ctx0: Bytes, already0: nat, size: nat, kind: ObjectType, write: bool,
                        ghost content: Bytes, ghost base: Bytes)
      returns (ok: bool, ctx: Bytes, already: nat, pos: nat)
      requires WfEnv(env) && Streaming(base, Record(env, kind, content), 0, write)
      requires start + size <= |input| && content == input[start..start + size]
      requires Absorbed(env, kind, content, ctx0, already0)
      modifies this`offset, Files()
      ensures FileValid() && Absorbed(env, kind, content, ctx, already)
      ensures ok ==> pos == start + size && already == size
      ensures ok ==> Streaming(base, Record(env, kind, content), |Record(env, kind, content)|, write)
      ensures ok && write && written != [] && limit > 0 ==> offset <= limit
      ensures !ok ==> write && written != [] && f != null && base <= f.disk
      ensures !ok ==> limit > 0 && |base| + |Record(env, kind, content)| > limit
    {
      hide AtCut, Absorbed, Produced, Record, Streaming;
      var z := env.deflate(input[start..start + size]);
      pos := start;
      var hdr := env.objectHeader(kind, size);
      ghost var record := Record(env, kind, content);
      RecordIs(env, kind, content);
      ctx, already, ok := ctx0, already0, true;
      var obuf := hdr;
      var next: Bytes := [];
      var read: nat, emitted: nat, end := 0, 0, false;
      ghost var k: nat := 0;
      AbsorbedIn(env, kind, content, ctx, already);
      ProducedStart(hdr, z);
      while !end
        invariant read <= size && AtCut(read, size) && read <= already && pos == start + read
        invariant Absorbed(env, kind, content, ctx, already)
        invariant emitted <= |z| && Produced(hdr, z, k, obuf, emitted)
        invariant if end then read == size && k == |hdr + z| else |obuf| < OBUF_SIZE
        invariant Streaming(base, record, k, write)
        invariant end && write && written != [] && limit > 0 ==> offset <= limit
        decreases if end then 0 else 1, size - read + |next| + |z| - emitted
      {
        if read < size && |next| == 0 {
          next, read, ctx, already := ReadMore(env, input, pos, read, kind, content, size, ctx, already);
          pos := start + read;
        }
        var used, out;
        used, out, end := Deflate(z, emitted, next, OBUF_SIZE - |obuf|, read == size);
        ProducedMore(hdr, z, k, obuf, emitted, out);
        next := next[used..];
        obuf := obuf + out;
        emitted := emitted + |out|;
        if |obuf| == OBUF_SIZE || end {
          var fits := PassOn(obuf, write, base, record, k);
          if !fits {
            StreamingFile(base, record, k, write);
            return false, ctx, already, pos;
          }
          ProducedPassed(hdr, z, k, obuf, emitted);
          k := k + |obuf|;
          obuf := [];
        }
      }
      AbsorbedIn(env, kind, content, ctx, already);
      StreamingFile(base, record, k, write);
    }

    // ---------------------------------------------------------------- one object, restarting at most once

    /** With its `record` behind `offset` bytes of a pack that has an object, the pack would pass the limit. */
    predicate TooBig(offset: nat, written: seq<PackEntry>, record: Bytes) {
      written != [] && limit > 0 && offset + |record| > limit
    }

    /** Where the next record goes. */
    function NextOffset(): nat reads this {
      if f == null then PACK_HEADER_SIZE else offset
    }

    /** The current pack holds the written objects up to a checkpoint, and behind it a record not listed yet. */
    ghost predicate Pending(cp: Checkpoint, record: Bytes)
      reads this, if f == null then {} else {f, f.buffer}
    {
      && f != null && f.Valid() && offset == |f.Accepted()|
      && cp.offset == |cp.ctx| && cp.ctx <= f.disk && f.Accepted() == cp.ctx + record && f.crc == record
      && Filled(cp.ctx)
      && (written != [] && limit > 0 ==> offset <= limit)
    }

    /** Opens a pack when there is none. */
    method PrepareToStream(write: bool)
      requires Valid()
      modifies this`f, this`offset
      ensures Valid() && (write ==> f != null && offset == old(NextOffset()))
      ensures old(f) != null || !write ==> f == old(f)
      ensures f != old(f) ==> fresh(Files()) && f != null && written == []
    {
      if !write || f != null {
        return;
      }
      f := new Sha1File();
      f.Write(env.packHeader(1));
      offset := PACK_HEADER_SIZE;
      assert f.Accepted() == env.packHeader(1);
    }

    /** One attempt.  A failed one takes the object out of the current pack and finishes that pack. */
    method Attempt(input: Bytes, start: nat, ctx0: Bytes, already0: nat, size: nat, kind: ObjectType, write: bool,
                   ghost content: Bytes) returns (ok: bool, ctx: Bytes, already: nat, pos: nat, cp: Checkpoint)
      requires Valid() && start + size <= |input| && content == input[start..start + size]
      requires Absorbed(env, kind, content, ctx0, already0)
      modifies this`packs, this`plugged, this`f, this`offset, this`written, Files()
      ensures PacksGood() && DistinctNames(written) && Absorbed(env, kind, content, ctx, already)
      ensures ok ==> pos == start + size && already == size
      ensures ok ==> written == old(written) && packs == old(packs) && plugged == old(plugged)
      ensures if ok && write then Pending(cp, Record(env, kind, content)) else Valid()
      ensures ok && write ==> cp.offset == old(NextOffset())
      ensures !write ==> ok && f == old(f)
      ensures !ok ==> written == [] && f == null && !plugged && Appended(old(packs), packs, old(written))
      ensures ok <==> !(write && TooBig(old(offset), old(written), Record(env, kind, content)))
      ensures fresh(Files() - old(Files()))
    {
      hide Laid, Good, Within, Absorbed, Record, DistinctNames;
      PrepareToStream(write);
      cp := Checkpoint(0, []);
      ghost var base := [];
      if f != null { base := f.Accepted(); }
      if write {
        cp := f.TakeCheckpoint();
        f.CrcBegin();
      }
      ok, ctx, already, pos := StreamToPack(input, start, ctx0, already0, size, kind, write, content, base);
      if !ok {
        f.Truncate(cp);
        offset := cp.offset;
        Finish();
      }
    }

    /** The object is, or will be when its pack is finished, in the repository. */
    ghost predicate Available(sha: Sha) reads this {
      Stored(sha) || Lists(written, sha)
    }

    /** The object streamed last goes on the list, or off the pack when it is there or elsewhere already. */
    method ListOrDrop(sha: Sha, cp: Checkpoint, kind: ObjectType, ghost content: Bytes)
      requires PacksGood() && DistinctNames(written) && Pending(cp, Record(env, kind, content))
      requires sha == Name(env, kind, content)
      modifies this`written, this`offset, f
      ensures Valid() && f == old(f) && f != null && Available(sha)
      ensures offset == cp.offset + if old(Available(sha)) then 0 else |Record(env, kind, content)|
      ensures written == old(written) +
        if old(Available(sha)) then [] else [PackEntry(sha, cp.offset, env.crc(Record(env, kind, content)))]
    {
      hide Good, Lists, Record, Laid, DistinctNames, Name, InPacks;
      ghost var record := Record(env, kind, content);
      var absorbed := f.CrcEnd();
      var crc := env.crc(absorbed);
      var known := AlreadyWritten(sha);
      if known {
        f.Truncate(cp);
        offset := cp.offset;
        assert written + [] == written;
      } else {
        var idx := PackEntry(sha, cp.offset, crc);
        RecordOf(env, kind, content, idx);
        LaidGrows(env, cp.ctx, written, idx, record);
        DistinctGrows(written, idx);
        written := written + [idx];
      }
    }

    /** The listed objects were finished as one more pack, and with that the plug was taken out. */
    static ghost predicate Restarted(packs: seq<Pack>, written: seq<PackEntry>,
                                     packs': seq<Pack>, written': seq<PackEntry>, plugged': bool) {
      Appended(packs, packs', written) && written' == [] && !plugged'
    }

    static lemma StaysAvailable(packs: seq<Pack>, written: seq<PackEntry>, packs': seq<Pack>, sha: Sha)
      requires Appended(packs, packs', written)
      ensures InPacks(packs, sha) || Lists(written, sha) <==> InPacks(packs', sha)
    {
      if written != [] {
        assert packs'[|packs|].entries == written;
        assert forall i :: 0 <= i < |packs| ==> packs'[i] == packs'[..|packs|][i] == packs[i];
      } else {
        assert !Lists(written, sha);
      }
    }

    /** Checks one object in.  Whatever happens to packs on the way, its name comes from its own bytes, each
        once and in order, and nothing that was available is lost. */
    method DeflateToPack(input: Bytes, start: nat, size: nat, kind: ObjectType, write: bool)
      returns (sha: Sha, pos: nat)
      requires Valid() && start + size <= |input|
      modifies this`packs, this`plugged, this`f, this`offset, this`written, Files()
      ensures Valid() && fresh(Files() - old(Files()))
      ensures sha == Name(env, kind, input[start..start + size]) && pos == start + size
      ensures write ==> Available(sha)
      ensures forall s :: old(Available(s)) ==> Available(s)
      ensures !write ==> packs == old(packs) && written == old(written) && plugged == old(plugged) && f == old(f)
      ensures if write && TooBig(old(offset), old(written), Record(env, kind, input[start..start + size]))
        then Appended(old(packs), packs, old(written)) && !plugged
        else packs == old(packs) && plugged == old(plugged)
      ensures write ==>
        var record := Record(env, kind, input[start..start + size]);
        var (at, before) := if TooBig(old(offset), old(written), record) then (PACK_HEADER_SIZE, [])
                            else (old(NextOffset()), old(written));
        if old(Available(sha)) then written == before && NextOffset() == at
        else written == before + [PackEntry(sha, at, env.crc(record))] && NextOffset() == at + |record|
    {
      hide Good, Lists, Record, Laid, DistinctNames, Name, InPacks, Absorbed, Pending;
      ghost var content := input[start..start + size];
      ghost var at := NextOffset();
      ghost var restarts := write && TooBig(offset, written, Record(env, kind, content));
      var ctx := env.looseHeader(kind, size);
      var already, ok, cp := 0, false, Checkpoint(0, []);
      pos := start;
      NothingAbsorbed(env, kind, content);
      while !ok
        invariant fresh(Files() - old(Files())) && Absorbed(env, kind, content, ctx, already)
        invariant if restarts && (ok || packs != old(packs))
          then Restarted(old(packs), old(written), packs, written, plugged)
          else packs == old(packs) && written == old(written) && plugged == old(plugged)
        invariant !ok && packs == old(packs) ==> offset == old(offset) && NextOffset() == at
        invariant !ok && packs != old(packs) ==> f == null
        invariant ok && write ==> cp.offset == if restarts then PACK_HEADER_SIZE else at
        invariant !write ==> packs == old(packs) && written == old(written) && plugged == old(plugged) && f == old(f)
        invariant PacksGood() && DistinctNames(written)
        invariant if ok && write then Pending(cp, Record(env, kind, content)) else Valid()
        invariant ok ==> already == size && pos == start + size
        decreases if ok then 0 else 1 + |written|
      {
        ok, ctx, already, pos, cp := Attempt(input, start, ctx, already, size, kind, write, content);
      }
      AllAbsorbed(env, kind, content, ctx);
      sha := env.sha(ctx);
      NoneListed(sha);
      forall s
        ensures old(Available(s)) ==> Available(s)
        ensures old(Available(sha)) <==> Available(sha)
      {
        if restarts { StaysAvailable(old(packs), old(written), packs, sha); }
        if restarts { StaysAvailable(old(packs), old(written), packs, s); }
      }
      if write {
        ghost var was := written;
        label L:
        ListOrDrop(sha, cp, kind, content);
        forall s | old@L(Available(s))
          ensures Available(s)
        {
          if Lists(was, s) { ListsMore(was, written, s); }
        }
      }
    }

    method Index(input: Bytes, start: nat, size: nat, kind: ObjectType, write: bool) returns (sha: Sha, pos: nat)
      requires Valid() && start + size <= |input|
      modifies this`packs, this`plugged, this`f, this`offset, this`written, Files()
      ensures Valid() && fresh(Files() - old(Files()))
      ensures sha == Name(env, kind, input[start..start + size]) && pos == start + size
      ensures write ==> if plugged then Available(sha) else Stored(sha)
      ensures forall s :: old(Available(s)) ==> Available(s)
      ensures !plugged ==> f == null
    {
      hide Good, Lists, Laid, DistinctNames, Name, InPacks;
      sha, pos := DeflateToPack(input, start, size, kind, write);
      if !plugged {
        FinishKeeping();
      }
    }

    /** Finishing keeps everything available. */
    method FinishKeeping()
      requires Valid()
      modifies this`packs, this`plugged, this`f, this`offset, this`written, Files()
      ensures Valid() && f == null && written == [] && plugged == (old(plugged) && old(f) == null)
      ensures forall s :: old(Available(s)) ==> Stored(s)
    {
      hide Good, Lists, Laid, DistinctNames, InPacks;
      ghost var packs0, written0 := packs, written;
      Finish();
      forall s | old(Available(s))
        ensures Stored(s)
      {
        StaysAvailable(packs0, written0, packs, s);
      }
    }

    method Plug()
      requires Valid()
      modifies this`plugged
      ensures Valid() && plugged
    {
      plugged := true;
    }

    method Unplug()
      requires Valid()
      modifies this`packs, this`plugged, this`f, this`offset, this`written, Files()
      ensures Valid() && !plugged && f == null
      ensures forall s :: old(Available(s)) ==> Stored(s)
    {
      plugged := false;
      if f != null {
        FinishKeeping();
      }
    }

    /** A whole session: whatever packs were filled, finished or started, every file ends up in the repository
        under the name of its own content, and no pack is left open. */
    method AddFiles(files: seq<Bytes>) returns (names: seq<Sha>)
      requires Valid()
      modifies this`packs, this`plugged, this`f, this`offset, this`written, Files()
      ensures Valid() && f == null
      ensures |names| == |files|
      ensures forall i :: 0 <= i < |files| ==> names[i] == Name(env, BlobObject, files[i]) && Stored(names[i])
    {
      hide Good, Lists, Laid, DistinctNames, Name, InPacks, Stored;
      Plug();
      names := [];
      for n := 0 to |files|
        invariant Valid() && fresh(Files() - old(Files())) && |names| == n
        invariant forall i :: 0 <= i < n ==> names[i] == Name(env, BlobObject, files[i]) && Available(names[i])
      {
        var sha, _ := Index(files[n], 0, |files[n]|, BlobObject, true);
        assert files[n][0..0 + |files[n]|] == files[n];
        names := names + [sha];
      }
      Unplug();
    }
  }

  lemma NoneListed(sha: Sha)
    ensures !Lists([], sha)
  {
  }

  /** In a plugged session of two different new files, the plug is gone after the second exactly when the two
      together pass the limit. */
  method AddTwoPlugged(env: Env, limit: nat, a: Bytes, b: Bytes) returns (c: BulkCheckin)
    requires WfEnv(env) && Name(env, BlobObject, a) != Name(env, BlobObject, b)
    ensures c.Valid()
    ensures !c.plugged <==>
      limit > 0 && 12 + |Record(env, BlobObject, a)| + |Record(env, BlobObject, b)| > limit
  {
    hide Good, Laid, DistinctNames, Name, Record, Within;
    c := new BulkCheckin(env, limit, {});
    assert a[0..0 + |a|] == a && b[0..0 + |b|] == b;
    c.Plug();
    NoneListed(Name(env, BlobObject, a));
    var _, _ := c.DeflateToPack(a, 0, |a|, BlobObject, true);
    var _, _ := c.DeflateToPack(b, 0, |b|, BlobObject, true);
  }

  /** Such a session: without compression and with a limit of 20 bytes, two files of 5 and 6 bytes. */
  method PlugIsLost() returns (c: BulkCheckin)
    ensures c.Valid() && !c.plugged
  {
    var a, b: Bytes := [1, 2, 3, 4, 5], [1, 2, 3, 4, 5, 6];
    var env := Env(s => |s|, s => 0, s => s, n => seq(PACK_HEADER_SIZE, _ => 0), (kind, n) => [n % 0x100],
                   (kind, n) => []);
    c := AddTwoPlugged(env, 20, a, b);
  }

  lemma NothingAbsorbed(env: Env, kind: ObjectType, content: Bytes)
    ensures Absorbed(env, kind, content, env.looseHeader(kind, |content|), 0)
  {
  }

  lemma AllAbsorbed(env: Env, kind: ObjectType, content: Bytes, ctx: Bytes)
    requires Absorbed(env, kind, content, ctx, |content|)
    ensures env.sha(ctx) == Name(env, kind, content)
  {
    assert content[..|content|] == content;
  }

  lemma ListsMore(a: seq<PackEntry>, b: seq<PackEntry>, sha: Sha)
    requires a <= b && Lists(a, sha)
    ensures Lists(b, sha)
  {
    var i :| 0 <= i < |a| && a[i].sha == sha;
    assert b[i] == a[i];
  }

  lemma RecordOf(env: Env, kind: ObjectType, content: Bytes, e: PackEntry)
    requires e.sha == Name(env, kind, content) && e.crc == env.crc(Record(env, kind, content))
    ensures IsRecord(env, e, Record(env, kind, content))
  {
  }

  lemma DistinctGrows(entries: seq<PackEntry>, e: PackEntry)
    requires DistinctNames(entries) && !Lists(entries, e.sha)
    ensures DistinctNames(entries + [e]) && Lists(entries + [e], e.sha)
  {
    assert (entries + [e])[|entries|] == e;
  }

  lemma RecordIs(env: Env, kind: ObjectType, content: Bytes)
    ensures Record(env, kind, content) == env.objectHeader(kind, |content|) + env.deflate(content)
  {
  }

  lemma AbsorbedIn(env: Env, kind: ObjectType, content: Bytes, ctx: Bytes, already: nat)
    requires Absorbed(env, kind, content, ctx, already)
    ensures AtCut(already, |content|) && already <= |content| && AtCut(0, |content|)
  {
  }
}
