/** What the header says about the files of one packed folder, and what publication records. */
module ArchiveFiles {
  import opened Bits
  import opened Wrappers

  /** A file name as its UTF-16 code units. */
  type FileName = seq<nat>

  /** `offset` counts uncompressed bytes from the start of the folder. */
  datatype FileEntry = FileEntry(name: FileName, offset: nat, length: nat, crc: Option<nat>)

  /** The files cover `[from, to)` one after the other, without gap or overlap. */
  ghost predicate Tile(files: seq<FileEntry>, from: nat, to: nat) {
    if files == [] then from == to
    else files[0].offset == from && Tile(files[1..], from + files[0].length, to)
  }

  datatype Target = Target(start: nat, name: FileName, size: nat, crc: nat) {
    function End(): nat { start + size }
  }

  /** The files streaming recovery can prove: those with bytes and a recorded CRC. */
  function TargetsOf(files: seq<FileEntry>): seq<Target> {
    if files == [] then []
    else
      var f := files[0];
      (if f.crc.Some? && f.length > 0 then [Target(f.offset, f.name, f.length, f.crc.value)] else [])
        + TargetsOf(files[1..])
  }

  ghost predicate Ascending(targets: seq<Target>) {
    && (forall i :: 0 <= i < |targets| ==> targets[i].size > 0)
    && (forall i, j :: 0 <= i < j < |targets| ==> targets[i].End() <= targets[j].start)
  }

  /** Files that tile a folder give targets already in offset order, so that sorting them by offset
      changes nothing. */
  lemma {:induction false} TargetsAscending(files: seq<FileEntry>, from: nat, to: nat)
    requires Tile(files, from, to)
    ensures Ascending(TargetsOf(files))
    ensures forall i :: 0 <= i < |TargetsOf(files)| ==> from <= TargetsOf(files)[i].start
  {
    if files != [] {
      TargetsAscending(files[1..], from + files[0].length, to);
      var f, rest := files[0], TargetsOf(files[1..]);
      if f.crc.Some? && f.length > 0 {
        var t := Target(f.offset, f.name, f.length, f.crc.value);
        assert TargetsOf(files) == [t] + rest;
        hide TargetsOf, Tile;
        AscendingCons(t, rest);
      } else {
        assert TargetsOf(files) == rest;
      }
    }
  }

  lemma AscendingCons(t: Target, rest: seq<Target>)
    requires Ascending(rest) && t.size > 0 && forall i :: 0 <= i < |rest| ==> t.End() <= rest[i].start
    ensures Ascending([t] + rest)
    ensures forall i :: 0 <= i < |[t] + rest| ==> t.start <= ([t] + rest)[i].start
  {
    var all := [t] + rest;
    forall i, j | 0 <= i < j < |all| ensures all[i].End() <= all[j].start {
      assert all[j] == rest[j - 1];
      if i > 0 {
        assert all[i] == rest[i - 1];
      }
    }
  }

  lemma {:induction false} TargetsFromFiles(files: seq<FileEntry>)
    ensures forall t :: t in TargetsOf(files) ==>
      FileEntry(t.name, t.start, t.size, Some(t.crc)) in files
  {
    if files != [] {
      TargetsFromFiles(files[1..]);
    }
  }

  datatype Provenance = Streamed(prefix: string, resetOrigin: nat) | Resynced(prefix: string, position: nat)

  /** One call of the publish callback, and what it answered. */
  datatype Call = Call(name: FileName, bytes: seq<byte>, size: nat, provenance: Provenance)
  datatype Event = Event(call: Call, accepted: bool)

  /** Every publish call so far, and the names that must not be offered again. */
  datatype Ledger = Ledger(history: seq<Event>, attempted: set<FileName>)

  /** The publish callback: any answer that depends on what it was given before. */
  type Accept = (seq<Event>, Call) -> bool

  function AcceptedCount(history: seq<Event>): nat {
    if history == [] then 0
    else AcceptedCount(history[..|history| - 1]) + (if history[|history| - 1].accepted then 1 else 0)
  }
}
