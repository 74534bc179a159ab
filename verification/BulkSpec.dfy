/** What a pack being filled must look like (bulk-checkin.c:14-65, 168-252). */
module BulkSpec {
  import opened CsumFile

  type Sha = nat

  datatype ObjectType = CommitObject | TreeObject | BlobObject | TagObject

  /** The hash, the CRC, zlib, and the headers: pack header for an object count, object header inside a pack,
      and the "type size" header that only the object's hash sees. */
  datatype Env = Env(
    sha: Bytes -> Sha,
    crc: Bytes -> nat,
    deflate: Bytes -> Bytes,
    packHeader: nat -> Bytes,
    objectHeader: (ObjectType, nat) -> Bytes,
    looseHeader: (ObjectType, nat) -> Bytes)

  const PACK_HEADER_SIZE := 12
  const OBUF_SIZE := 16384
  const IBUF_SIZE := 16384

  ghost predicate WfEnv(env: Env) {
    && (forall n: nat :: |env.packHeader(n)| == 12)
    && (forall kind, n: nat :: 0 < |env.objectHeader(kind, n)| < OBUF_SIZE)
  }

  function Name(env: Env, kind: ObjectType, content: Bytes): Sha {
    env.sha(env.looseHeader(kind, |content|) + content)
  }

  function Record(env: Env, kind: ObjectType, content: Bytes): Bytes {
    env.objectHeader(kind, |content|) + env.deflate(content)
  }

  datatype PackEntry = PackEntry(sha: Sha, offset: nat, crc: nat)

  /** `bytes` is the record of the object the entry names, and has the entry's CRC. */
  ghost predicate IsRecord(env: Env, entry: PackEntry, bytes: Bytes) {
    exists kind, content: Bytes :: entry.sha == Name(env, kind, content) && bytes == Record(env, kind, content)
      && entry.crc == env.crc(bytes)
  }

  /** The entries' offsets cut everything behind the pack header into the records of their objects. */
  ghost predicate Laid(env: Env, data: Bytes, entries: seq<PackEntry>)
    decreases |entries|
  {
    if entries == [] then |data| == PACK_HEADER_SIZE
    else
      var last := entries[|entries| - 1];
      && PACK_HEADER_SIZE <= last.offset <= |data|
      && IsRecord(env, last, data[last.offset..])
      && Laid(env, data[..last.offset], entries[..|entries| - 1])
  }

  lemma LaidGrows(env: Env, data: Bytes, entries: seq<PackEntry>, e: PackEntry, bytes: Bytes)
    requires Laid(env, data, entries) && e.offset == |data| && IsRecord(env, e, bytes)
    ensures Laid(env, data + bytes, entries + [e])
  {
    hide IsRecord;
    LaidHasHeader(env, data, entries);
    var all := entries + [e];
    assert all[..|all| - 1] == entries;
    assert (data + bytes)[..|data|] == data && (data + bytes)[|data|..] == bytes;
  }

  lemma {:induction false} LaidHasHeader(env: Env, data: Bytes, entries: seq<PackEntry>)
    requires Laid(env, data, entries)
    ensures |data| >= PACK_HEADER_SIZE
  {
  }

  /** Rewriting the pack header moves no record. */
  lemma {:induction false} HeaderMovesNothing(env: Env, data: Bytes, entries: seq<PackEntry>, header: Bytes)
    requires Laid(env, data, entries) && |header| == PACK_HEADER_SIZE
    ensures |data| >= PACK_HEADER_SIZE && Laid(env, header + data[PACK_HEADER_SIZE..], entries)
    decreases |entries|
  {
    hide IsRecord;
    LaidHasHeader(env, data, entries);
    if entries != [] {
      var last := entries[|entries| - 1];
      var data' := header + data[PACK_HEADER_SIZE..];
      HeaderMovesNothing(env, data[..last.offset], entries[..|entries| - 1], header);
      assert data'[last.offset..] == data[last.offset..];
      assert data'[..last.offset] == header + data[..last.offset][PACK_HEADER_SIZE..];
    }
  }

  /** Only a pack's first object may take it over a non-zero limit. */
  predicate Within(limit: nat, data: Bytes, entries: seq<PackEntry>) {
    limit > 0 && |entries| >= 2 ==> |data| <= limit
  }

  ghost predicate DistinctNames(entries: seq<PackEntry>) {
    forall i, j :: 0 <= i < j < |entries| ==> entries[i].sha != entries[j].sha
  }

  datatype Pack = Pack(data: Bytes, sha: Sha, entries: seq<PackEntry>)

  /** A finished pack: true object count, true checksum, true offsets, no duplicates, within the limit. */
  ghost predicate Good(env: Env, limit: nat, p: Pack) {
    && p.entries != [] && |p.data| >= PACK_HEADER_SIZE
    && p.data[..PACK_HEADER_SIZE] == env.packHeader(|p.entries|)
    && p.sha == env.sha(p.data)
    && Laid(env, p.data, p.entries) && DistinctNames(p.entries) && Within(limit, p.data, p.entries)
  }

  predicate Lists(entries: seq<PackEntry>, sha: Sha) {
    exists i :: 0 <= i < |entries| && entries[i].sha == sha
  }

  // ---------------------------------------------------------------- hashing each byte once

  /** A place where one read of the input ends, given that reads take IBUF_SIZE bytes or all that is left. */
  predicate AtCut(n: nat, size: nat) {
    n <= size && (n % IBUF_SIZE == 0 || n == size)
  }

  /** The object's hash context after `already` bytes of content. */
  ghost predicate Absorbed(env: Env, kind: ObjectType, content: Bytes, ctx: Bytes, already: nat) {
    AtCut(already, |content|) && ctx == env.looseHeader(kind, |content|) + content[..already]
  }

  /** Between two neighbouring cuts there is no other. */
  lemma NextCut(at: nat, already: nat, size: nat)
    requires AtCut(at, size) && AtCut(already, size) && at < size && at <= already
    ensures var next := if size - at < IBUF_SIZE then size else at + IBUF_SIZE;
      AtCut(next, size) && (already < next ==> already == at)
  {
  }
}
