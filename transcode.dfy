/**
 * decompress_repo_file (update.c:265-347): re-reads the downloaded
 * `<name>.files` archive entry by entry, writes each entry to the
 * uncompressed `<name>.files~`, and renames that file over the original.
 *
 * libarchive is abstracted: the reader is the sequence of entries it
 * yields, each header followed by its data in chunks, and the writer is a
 * pair of oracles saying whether a header write, or the write of one
 * chunk, succeeds.
 */
module Transcode {
  import opened Base

  /** ARCHIVE_OK. */
  const ArchiveOk := 0
  /** The code returned when the archive objects cannot be allocated. */
  const AllocFailed := -1

  newtype byte = x: int | 0 <= x < 256

  /** One non-empty buffer returned by archive_read_data. */
  type Chunk = c: seq<byte> | |c| > 0 witness [0]

  /** The metadata archive_read_next_header yields and archive_write_header copies. */
  datatype Header = Header(pathname: string, size: nat)

  datatype Entry = Entry(header: Header, chunks: seq<Chunk>)

  /** The writer: whether the header of entry i, and chunk j of entry i, are written in full. */
  datatype Writer = Writer(headerOk: nat -> bool, dataOk: (nat, nat) -> bool)

  /**
   * Everything the transcoder depends on: allocation of the two archive
   * objects, the result codes of opening the input and the output, the
   * entries read, the writer, and whether the final rename succeeds.
   */
  datatype ArchiveEnv = ArchiveEnv(
    allocOk: bool,
    readOpen: int,
    writeOpen: int,
    entries: seq<Entry>,
    writer: Writer,
    renameOk: bool)

  /** ret: the return code; written: what reached `<name>.files~`; renamed: whether it replaced `<name>.files`. */
  datatype Outcome = Outcome(ret: int, written: seq<Entry>, renamed: bool)

  /** The chunks of entry i copied from chunk j on, up to the first failed write. */
  function CopyChunks(cs: seq<Chunk>, w: Writer, i: nat, j: nat): (r: seq<Chunk>)
    requires j <= |cs|
    ensures |r| <= |cs| - j
    decreases |cs| - j
  {
    if j == |cs| then []
    else if !w.dataOk(i, j) then []
    else [cs[j]] + CopyChunks(cs, w, i, j + 1)
  }

  /**
   * The chunks copied are those from j on, in order, each written in full,
   * and the copy stops early only at a chunk whose write falls short.
   */
  lemma {:induction false} CopyChunksSpec(cs: seq<Chunk>, w: Writer, i: nat, j: nat)
    requires j <= |cs|
    ensures CopyChunks(cs, w, i, j) == cs[j..j + |CopyChunks(cs, w, i, j)|]
    ensures forall k :: j <= k < j + |CopyChunks(cs, w, i, j)| ==> w.dataOk(i, k)
    ensures j + |CopyChunks(cs, w, i, j)| < |cs| ==> !w.dataOk(i, j + |CopyChunks(cs, w, i, j)|)
    decreases |cs| - j
  {
    if j < |cs| && w.dataOk(i, j) {
      CopyChunksSpec(cs, w, i, j + 1);
      var rest := CopyChunks(cs, w, i, j + 1);
      assert cs[j..j + 1 + |rest|] == [cs[j]] + cs[j + 1..j + 1 + |rest|];
    }
  }

  /** The entries copied from entry i on: a failed header write, or a failed chunk write, ends the copy. */
  function CopyFrom(es: seq<Entry>, w: Writer, i: nat): seq<Entry>
    requires i <= |es|
    decreases |es| - i
  {
    if i == |es| then []
    else if !w.headerOk(i) then []
    else
      var copied := CopyChunks(es[i].chunks, w, i, 0);
      if |copied| < |es[i].chunks| then [Entry(es[i].header, copied)]
      else [Entry(es[i].header, copied)] + CopyFrom(es, w, i + 1)
  }

  /** What decompress_repo_file does, as a function of its environment. */
  function TranscodeOutcome(env: ArchiveEnv): Outcome {
    if !env.allocOk then Outcome(AllocFailed, [], false)
    else if env.readOpen != ArchiveOk then Outcome(env.readOpen, [], false)
    else if env.writeOpen != ArchiveOk then Outcome(env.writeOpen, [], false)
    else Outcome(ArchiveOk, CopyFrom(env.entries, env.writer, 0), env.renameOk)
  }

  /** decompress_repo_file, with its copy loop. */
  method DecompressRepoFile(env: ArchiveEnv) returns (ret: int, written: seq<Entry>, renamed: bool)
    ensures Outcome(ret, written, renamed) == TranscodeOutcome(env)
    ensures ret == ArchiveOk <==> env.allocOk && env.readOpen == ArchiveOk && env.writeOpen == ArchiveOk
    ensures renamed <==> ret == ArchiveOk && env.renameOk
  {
    written := [];
    renamed := false;
    if !env.allocOk {
      return AllocFailed, written, renamed;
    }
    ret := env.readOpen;
    if ret != ArchiveOk {
      return ret, written, renamed;
    }
    ret := env.writeOpen;
    if ret != ArchiveOk {
      return ret, written, renamed;
    }
    written := CopyEntries(env.entries, env.writer);
    ret := ArchiveOk;
    renamed := env.renameOk;
  }

  /** The outer `while` loop: copy entry after entry until the input ends or a write falls short. */
  method CopyEntries(es: seq<Entry>, w: Writer) returns (written: seq<Entry>)
    ensures written == CopyFrom(es, w, 0)
  {
    written := [];
    var i := 0;
    while i < |es|
      invariant 0 <= i <= |es|
      invariant written + CopyFrom(es, w, i) == CopyFrom(es, w, 0)
    {
      if !w.headerOk(i) {
        CopyFromStops(es, w, i, written, []);
        return;
      }
      var copied, stopped := CopyEntryData(es[i].chunks, w, i);
      if stopped {
        CopyFromStops(es, w, i, written, [Entry(es[i].header, copied)]);
        return written + [Entry(es[i].header, copied)];
      }
      CopyFromNext(es, w, i, written);
      written := written + [Entry(es[i].header, copied)];
      i := i + 1;
    }
    CopyFromStops(es, w, i, written, []);
  }

  /** Entry i copied in full: it joins what is written, and the copy goes on with entry i + 1. */
  lemma CopyFromNext(es: seq<Entry>, w: Writer, i: nat, written: seq<Entry>)
    requires i < |es| && w.headerOk(i)
    requires |CopyChunks(es[i].chunks, w, i, 0)| == |es[i].chunks|
    requires written + CopyFrom(es, w, i) == CopyFrom(es, w, 0)
    ensures (written + [Entry(es[i].header, CopyChunks(es[i].chunks, w, i, 0))]) + CopyFrom(es, w, i + 1) == CopyFrom(es, w, 0)
  {
    var e := Entry(es[i].header, CopyChunks(es[i].chunks, w, i, 0));
    assert CopyFrom(es, w, i) == [e] + CopyFrom(es, w, i + 1);
    assert written + ([e] + CopyFrom(es, w, i + 1)) == (written + [e]) + CopyFrom(es, w, i + 1);
  }

  /**
   * The copy ends at entry i, which contributes `last`: nothing when the
   * input is exhausted or its header write fails, the truncated entry when
   * one of its chunk writes falls short.
   */
  lemma CopyFromStops(es: seq<Entry>, w: Writer, i: nat, written: seq<Entry>, last: seq<Entry>)
    requires i <= |es|
    requires i == |es| || !w.headerOk(i) ==> last == []
    requires i < |es| && w.headerOk(i) ==>
               |CopyChunks(es[i].chunks, w, i, 0)| < |es[i].chunks| &&
               last == [Entry(es[i].header, CopyChunks(es[i].chunks, w, i, 0))]
    requires written + CopyFrom(es, w, i) == CopyFrom(es, w, 0)
    ensures written + last == CopyFrom(es, w, 0)
  {
    assert CopyFrom(es, w, i) == last;
  }

  /** The inner `for(;;)` loop: copy the chunks of entry i until the data runs out or a write falls short. */
  method CopyEntryData(cs: seq<Chunk>, w: Writer, i: nat) returns (copied: seq<Chunk>, stopped: bool)
    ensures copied == CopyChunks(cs, w, i, 0)
    ensures stopped <==> |copied| < |cs|
  {
    var j := 0;
    while j < |cs| && w.dataOk(i, j)
      invariant 0 <= j <= |cs|
      invariant CopyChunks(cs, w, i, 0) == cs[..j] + CopyChunks(cs, w, i, j)
    {
      CopyChunksNext(cs, w, i, j);
      j := j + 1;
    }
    CopyChunksEnd(cs, w, i, j);
    copied := cs[..j];
    stopped := j < |cs|;
  }

  /** A successful chunk write moves one chunk from the rest of the copy into its prefix. */
  lemma CopyChunksNext(cs: seq<Chunk>, w: Writer, i: nat, j: nat)
    requires j < |cs| && w.dataOk(i, j)
    requires CopyChunks(cs, w, i, 0) == cs[..j] + CopyChunks(cs, w, i, j)
    ensures CopyChunks(cs, w, i, 0) == cs[..j + 1] + CopyChunks(cs, w, i, j + 1)
  {
    var rest := CopyChunks(cs, w, i, j + 1);
    assert CopyChunks(cs, w, i, j) == [cs[j]] + rest;
    assert cs[..j + 1] == cs[..j] + [cs[j]];
    assert cs[..j] + ([cs[j]] + rest) == cs[..j + 1] + rest;
  }

  /** The copy ends at j when the data runs out or chunk j is not written. */
  lemma CopyChunksEnd(cs: seq<Chunk>, w: Writer, i: nat, j: nat)
    requires j <= |cs| && (j == |cs| || !w.dataOk(i, j))
    requires CopyChunks(cs, w, i, 0) == cs[..j] + CopyChunks(cs, w, i, j)
    ensures CopyChunks(cs, w, i, 0) == cs[..j]
  {
    assert CopyChunks(cs, w, i, j) == [];
    assert cs[..j] + [] == cs[..j];
  }

  /** Every header and every chunk of entries i.. is written in full. */
  predicate AllWritesOk(es: seq<Entry>, w: Writer, i: nat)
    requires i <= |es|
  {
    forall k :: i <= k < |es| ==>
      w.headerOk(k) && forall c :: 0 <= c < |es[k].chunks| ==> w.dataOk(k, c)
  }

  /** The copy is complete exactly when every write succeeds. */
  lemma {:induction false} CopyCompleteIff(es: seq<Entry>, w: Writer, i: nat)
    requires i <= |es|
    ensures CopyFrom(es, w, i) == es[i..] <==> AllWritesOk(es, w, i)
    decreases |es| - i
  {
    if i < |es| {
      CopyCompleteIff(es, w, i + 1);
      var copied := CopyChunks(es[i].chunks, w, i, 0);
      CopyChunksSpec(es[i].chunks, w, i, 0);
      if w.headerOk(i) && |copied| == |es[i].chunks| {
        assert copied == es[i].chunks;
        assert es[i..] == [es[i]] + es[i + 1..];
      } else if w.headerOk(i) {
        assert CopyFrom(es, w, i)[0].chunks != es[i].chunks;
      }
    }
  }

  /**
   * A broken copy is indistinguishable from a complete one by the caller:
   * ret is 0 and the output still replaces the original, which then holds
   * fewer entries, or fewer chunks of its last entry, than it did.
   */
  lemma BrokenCopyIsPromoted(env: ArchiveEnv)
    requires env.allocOk && env.readOpen == ArchiveOk && env.writeOpen == ArchiveOk && env.renameOk
    requires !AllWritesOk(env.entries, env.writer, 0)
    ensures TranscodeOutcome(env).ret == ArchiveOk && TranscodeOutcome(env).renamed
    ensures TranscodeOutcome(env).written != env.entries
  {
    CopyCompleteIff(env.entries, env.writer, 0);
    assert env.entries[0..] == env.entries;
  }

  /** The copy is a prefix of the input: whole entries, then at most one truncated entry. */
  lemma {:induction false} CopyIsPrefix(es: seq<Entry>, w: Writer, i: nat)
    requires i <= |es|
    ensures |CopyFrom(es, w, i)| <= |es| - i
    ensures forall k :: 0 <= k < |CopyFrom(es, w, i)| ==>
      CopyFrom(es, w, i)[k].header == es[i + k].header &&
      CopyFrom(es, w, i)[k].chunks <= es[i + k].chunks
    ensures forall k :: 0 <= k < |CopyFrom(es, w, i)| - 1 ==> CopyFrom(es, w, i)[k] == es[i + k]
    decreases |es| - i
  {
    if i < |es| && w.headerOk(i) {
      var copied := CopyChunks(es[i].chunks, w, i, 0);
      CopyChunksSpec(es[i].chunks, w, i, 0);
      if |copied| == |es[i].chunks| {
        CopyIsPrefix(es, w, i + 1);
        assert copied == es[i].chunks;
      }
    }
  }

  /** Whether the rename succeeds never changes the return code, and nothing else depends on it. */
  lemma RenameDoesNotChangeResult(env: ArchiveEnv, renameOk: bool)
    ensures TranscodeOutcome(env.(renameOk := renameOk)).ret == TranscodeOutcome(env).ret
    ensures TranscodeOutcome(env.(renameOk := renameOk)).written == TranscodeOutcome(env).written
  {
  }
}
