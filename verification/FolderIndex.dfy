/**
 The records of a mail folder and the two append-only files they point into.

 A record locates one descriptor and one message block, and inside the block the body of
 every MIME part. All offsets are absolute positions in a file.
 */
module FolderIndex {
  import opened Bytes

  type Id = string

  /** Where the body of a part is, and the name of its transfer encoding. */
  datatype Part = Part(offset: int, length: int, encoding: string)

  datatype Body = Body(bytes: seq<Byte>, encoding: string)

  datatype Record = Record(
    id: Id,
    descriptorOffset: int,
    descriptorLength: int,
    uniblockOffset: int,
    uniblockLength: int,
    multipartOnly: bool,
    unread: bool,
    parts: seq<Part>)

  function NewRecord(id: Id): Record {
    Record(id, 0, 0, 0, 0, false, false, [])
  }

  /** What a record stands for: the bytes that its offsets must locate. */
  datatype Mail = Mail(text: seq<Byte>, descriptor: seq<Byte>, bodies: seq<Body>, unread: bool)

  // -------------------------------------------------------------------------
  // Locating bytes in a file

  ghost predicate Holds(file: seq<Byte>, offset: int, bytes: seq<Byte>) {
    0 <= offset && offset + |bytes| <= |file| && file[offset..offset + |bytes|] == bytes
  }

  lemma HoldsAppend(file: seq<Byte>, more: seq<Byte>, offset: int, bytes: seq<Byte>)
    requires Holds(file, offset, bytes)
    ensures Holds(file + more, offset, bytes)
  {
    assert (file + more)[offset..offset + |bytes|] == file[offset..offset + |bytes|];
  }

  lemma HoldsLast(file: seq<Byte>, bytes: seq<Byte>, more: seq<Byte>)
    ensures Holds(file + bytes + more, |file|, bytes)
  {
    assert (file + bytes + more)[|file|..|file| + |bytes|] == bytes;
  }

  lemma HoldsInside(file: seq<Byte>, offset: int, bytes: seq<Byte>, k: nat, n: nat)
    requires Holds(file, offset, bytes) && k + n <= |bytes|
    ensures Holds(file, offset + k, bytes[k..k + n])
  {
    var inner := file[offset + k..offset + k + n];
    forall j | 0 <= j < n ensures inner[j] == bytes[k..k + n][j] {
      assert file[offset..offset + |bytes|][k + j] == bytes[k + j];
    }
  }

  // -------------------------------------------------------------------------
  // Records and their parts

  /** A part that has been created but never saved. */
  predicate Unfinished(p: Part) {
    p.offset == 0 && p.length == 0
  }

  /** Inside a block that starts at `base` and reads `text`, the part reads `body`. */
  ghost predicate PartReads(p: Part, base: int, text: seq<Byte>, body: Body) {
    && p.length == |body.bytes| && p.encoding == body.encoding
    && (Unfinished(p) ||
        (base <= p.offset && p.offset - base + p.length <= |text|
          && text[p.offset - base..p.offset - base + p.length] == body.bytes))
  }

  ghost predicate PartsRead(parts: seq<Part>, base: int, text: seq<Byte>, bodies: seq<Body>) {
    && |parts| == |bodies|
    && forall i :: 0 <= i < |parts| ==> PartReads(parts[i], base, text, bodies[i])
  }

  /** The message block and its parts are where the record says. */
  ghost predicate MessageHolds(messages: seq<Byte>, r: Record, m: Mail) {
    && Holds(messages, r.uniblockOffset, m.text) && r.uniblockLength == |m.text|
    && PartsRead(r.parts, r.uniblockOffset, m.text, m.bodies)
  }

  ghost predicate DescriptorHolds(descriptors: seq<Byte>, r: Record, m: Mail) {
    Holds(descriptors, r.descriptorOffset, m.descriptor) && r.descriptorLength == |m.descriptor|
  }

  /** A finished part reads its body straight from the file. */
  lemma PartInFile(messages: seq<Byte>, r: Record, m: Mail, i: nat)
    requires MessageHolds(messages, r, m) && i < |r.parts| && !Unfinished(r.parts[i])
    ensures Holds(messages, r.parts[i].offset, m.bodies[i].bytes) && r.parts[i].length == |m.bodies[i].bytes|
  {
    assert PartReads(r.parts[i], r.uniblockOffset, m.text, m.bodies[i]);
    HoldsInside(messages, r.uniblockOffset, m.text, r.parts[i].offset - r.uniblockOffset, r.parts[i].length);
  }

  lemma MessageHoldsAppend(messages: seq<Byte>, more: seq<Byte>, r: Record, m: Mail)
    requires MessageHolds(messages, r, m)
    ensures MessageHolds(messages + more, r, m)
  {
    HoldsAppend(messages, more, r.uniblockOffset, m.text);
  }

  /** Part offsets given relative to the message, made absolute (`addPart`). */
  function Absolute(parts: seq<Part>, base: int): (r: seq<Part>)
    ensures |r| == |parts|
    ensures forall i :: 0 <= i < |r| ==> r[i] == parts[i].(offset := parts[i].offset + base)
  {
    if parts == [] then [] else [parts[0].(offset := parts[0].offset + base)] + Absolute(parts[1..], base)
  }

  lemma LastApart<T>(a: seq<T>, b: seq<T>)
    requires |a| == |b| + 1 && forall k :: 0 <= k < |b| ==> a[k] == b[k]
    ensures a == b + [a[|b|]]
  {
  }

  lemma {:induction false} AbsolutePush(parts: seq<Part>, i: nat, base: int)
    requires i < |parts|
    ensures Absolute(parts[..i + 1], base)
            == Absolute(parts[..i], base) + [parts[i].(offset := parts[i].offset + base)]
  {
    var before, after := Absolute(parts[..i], base), Absolute(parts[..i + 1], base);
    forall k | 0 <= k < i ensures after[k] == before[k] {
      assert parts[..i + 1][k] == parts[..i][k];
    }
    LastApart(after, before);
  }

  /** A finished part moved along with its block. */
  function MovedPart(p: Part, from: int, to: int): Part {
    if p.offset != 0 || p.length != 0 then p.(offset := to + (p.offset - from)) else p
  }

  /** Every finished part moved along with its block (`setUniblockOffset` with parts). */
  function Moved(parts: seq<Part>, from: int, to: int): (r: seq<Part>)
    ensures |r| == |parts| && forall i :: 0 <= i < |r| ==> r[i] == MovedPart(parts[i], from, to)
  {
    if parts == [] then [] else [MovedPart(parts[0], from, to)] + Moved(parts[1..], from, to)
  }

  /** Moving a block moves its parts: they still read the same bodies. */
  lemma MovedPartsRead(parts: seq<Part>, from: int, to: int, text: seq<Byte>, bodies: seq<Body>)
    requires PartsRead(parts, from, text, bodies)
    ensures PartsRead(Moved(parts, from, to), to, text, bodies)
  {
    forall i | 0 <= i < |parts| ensures PartReads(Moved(parts, from, to)[i], to, text, bodies[i]) {
      MovedPartReads(parts[i], from, to, text, bodies[i]);
    }
  }

  lemma MovedPartReads(p: Part, from: int, to: int, text: seq<Byte>, body: Body)
    requires PartReads(p, from, text, body)
    ensures PartReads(MovedPart(p, from, to), to, text, body)
  {
  }

  // -------------------------------------------------------------------------
  // Compaction

  datatype Disk = Disk(index: map<Id, Record>, messages: seq<Byte>, descriptors: seq<Byte>)

  /** A record that the compactor takes for damage and drops. */
  predicate Broken(r: Record) {
    r.descriptorLength == 0 || r.uniblockLength == 0
  }

  /** Reading a record's bytes; empty when the file is too short. */
  function ReadAt(file: seq<Byte>, offset: int, length: int): seq<Byte> {
    if 0 <= offset && 0 <= length && offset + length <= |file| then file[offset..offset + length] else []
  }

  const CRLF: seq<Byte> := [CR, LF]

  /** Copies one record's descriptor and message to the new files and moves its offsets. */
  function CopyRecord(src: Disk, dst: Disk, r: Record, stamp: seq<Byte>): Disk {
    var text := ReadAt(src.messages, r.uniblockOffset, r.uniblockLength);
    var descriptor := ReadAt(src.descriptors, r.descriptorOffset, r.descriptorLength);
    var at := |dst.messages + stamp|;
    Disk(dst.index[r.id := r.(descriptorOffset := |dst.descriptors|,
                               parts := Moved(r.parts, r.uniblockOffset, at),
                               uniblockOffset := at)],
         dst.messages + stamp + text + CRLF,
         dst.descriptors + descriptor)
  }

  /**
   The compaction loop. `order` is what the dictionary iterator still has to visit. Removing
   the current entry already moves the iterator on, so the loop's own step skips the next one.
   */
  function Compacted(src: Disk, dst: Disk, order: seq<Id>, stamp: seq<Byte>): Disk
    requires forall i :: 0 <= i < |order| ==> order[i] in src.index
    decreases |order|
  {
    if order == [] then dst
    else
      var r := src.index[order[0]];
      if Broken(r) then
        Compacted(src, dst.(index := dst.index - {order[0]}), order[if |order| >= 2 then 2 else 1..], stamp)
      else
        Compacted(src, CopyRecord(src, dst, r, stamp), order[1..], stamp)
  }

  /** An order in which the iterator can meet the records of `index`. */
  ghost predicate IsOrder(order: seq<Id>, index: map<Id, Record>) {
    && (forall i, j :: 0 <= i < j < |order| ==> order[i] != order[j])
    && (forall id :: id in index <==> id in order)
  }

  function Compact(disk: Disk, order: seq<Id>, stamp: seq<Byte>): Disk
    requires forall i :: 0 <= i < |order| ==> order[i] in disk.index
  {
    Compacted(disk, Disk(disk.index, [], []), order, stamp)
  }

  ghost predicate DiskHolds(disk: Disk, id: Id, m: Mail) {
    && id in disk.index && disk.index[id].id == id && disk.index[id].unread == m.unread
    && MessageHolds(disk.messages, disk.index[id], m)
    && DescriptorHolds(disk.descriptors, disk.index[id], m)
  }

  /** The new files hold what has been copied, the source ones what is still to come. */
  ghost predicate Underway(src: Disk, dst: Disk, order: seq<Id>, store: map<Id, Mail>) {
    && dst.index.Keys == store.Keys
    && (forall i, j :: 0 <= i < j < |order| ==> order[i] != order[j])
    && (forall i :: 0 <= i < |order| ==> order[i] in store && DiskHolds(src, order[i], store[order[i]]))
    && (forall id :: id in store && id !in order ==> DiskHolds(dst, id, store[id]))
  }

  lemma CopyHolds(src: Disk, dst: Disk, id: Id, m: Mail, stamp: seq<Byte>)
    requires DiskHolds(src, id, m)
    ensures DiskHolds(CopyRecord(src, dst, src.index[id], stamp), id, m)
  {
    var r := src.index[id];
    var at := |dst.messages + stamp|;
    HoldsLast(dst.messages + stamp, m.text, CRLF);
    HoldsLast(dst.descriptors, m.descriptor, []);
    assert dst.descriptors + m.descriptor + [] == dst.descriptors + m.descriptor;
    MovedPartsRead(r.parts, r.uniblockOffset, at, m.text, m.bodies);
  }

  lemma CopyKeeps(src: Disk, dst: Disk, r: Record, other: Id, m: Mail, stamp: seq<Byte>)
    requires DiskHolds(dst, other, m) && other != r.id
    ensures DiskHolds(CopyRecord(src, dst, r, stamp), other, m)
  {
    var next := CopyRecord(src, dst, r, stamp);
    var text := ReadAt(src.messages, r.uniblockOffset, r.uniblockLength);
    assert next.messages == dst.messages + (stamp + text + CRLF);
    MessageHoldsAppend(dst.messages, stamp + text + CRLF, dst.index[other], m);
    HoldsAppend(dst.descriptors, ReadAt(src.descriptors, r.descriptorOffset, r.descriptorLength),
      dst.index[other].descriptorOffset, m.descriptor);
  }

  lemma CopyUnderway(src: Disk, dst: Disk, order: seq<Id>, store: map<Id, Mail>, stamp: seq<Byte>)
    requires Underway(src, dst, order, store) && order != []
    ensures Underway(src, CopyRecord(src, dst, src.index[order[0]], stamp), order[1..], store)
  {
    var id := order[0];
    var r := src.index[id];
    var next := CopyRecord(src, dst, r, stamp);
    CopyHolds(src, dst, id, store[id], stamp);
    assert next.index.Keys == dst.index.Keys + {id};
    forall other | other in store && other !in order[1..] ensures DiskHolds(next, other, store[other]) {
      if other != id {
        assert other !in order;
        CopyKeeps(src, dst, r, other, store[other], stamp);
      }
    }
  }

  lemma {:induction false} CompactedHolds(src: Disk, dst: Disk, order: seq<Id>, store: map<Id, Mail>, stamp: seq<Byte>)
    requires Underway(src, dst, order, store)
    requires forall i :: 0 <= i < |order| ==> order[i] in src.index && !Broken(src.index[order[i]])
    ensures
      var done := Compacted(src, dst, order, stamp);
      done.index.Keys == store.Keys && forall id :: id in store ==> DiskHolds(done, id, store[id])
    decreases |order|
  {
    if order != [] {
      CopyUnderway(src, dst, order, store, stamp);
      CompactedHolds(src, CopyRecord(src, dst, src.index[order[0]], stamp), order[1..], store, stamp);
    }
  }

  /**
   Compacting a folder without broken records, in whatever order the iterator takes, keeps
   every id, descriptor, message and part body.
   */
  lemma CompactKeeps(disk: Disk, order: seq<Id>, store: map<Id, Mail>, stamp: seq<Byte>)
    requires IsOrder(order, disk.index) && disk.index.Keys == store.Keys
    requires forall id :: id in store ==> DiskHolds(disk, id, store[id]) && !Broken(disk.index[id])
    ensures
      var done := Compact(disk, order, stamp);
      done.index.Keys == store.Keys && forall id :: id in store ==> DiskHolds(done, id, store[id])
  {
    CompactedHolds(disk, Disk(disk.index, [], []), order, store, stamp);
  }

  // -------------------------------------------------------------------------
  // What happens to broken records

  lemma {:induction false} CompactedAddsNothing(src: Disk, dst: Disk, order: seq<Id>, stamp: seq<Byte>)
    requires forall i :: 0 <= i < |order| ==> order[i] in src.index && src.index[order[i]].id == order[i]
    ensures forall id :: id in Compacted(src, dst, order, stamp).index ==> id in dst.index || id in order
    decreases |order|
  {
    if order != [] {
      if Broken(src.index[order[0]]) {
        CompactedAddsNothing(src, dst.(index := dst.index - {order[0]}), order[if |order| >= 2 then 2 else 1..], stamp);
      } else {
        CompactedAddsNothing(src, CopyRecord(src, dst, src.index[order[0]], stamp), order[1..], stamp);
      }
    }
  }

  /** The first broken record that the iterator meets is dropped for good. */
  lemma {:induction false} CompactedDrops(src: Disk, dst: Disk, order: seq<Id>, stamp: seq<Byte>) returns (lost: Id)
    requires forall i :: 0 <= i < |order| ==> order[i] in src.index && src.index[order[i]].id == order[i]
    requires forall i, j :: 0 <= i < j < |order| ==> order[i] != order[j]
    requires exists i :: 0 <= i < |order| && Broken(src.index[order[i]])
    ensures lost in order && lost !in Compacted(src, dst, order, stamp).index
    decreases |order|
  {
    if Broken(src.index[order[0]]) {
      lost := order[0];
      CompactedAddsNothing(src, dst.(index := dst.index - {lost}), order[if |order| >= 2 then 2 else 1..], stamp);
    } else {
      var i :| 0 <= i < |order| && Broken(src.index[order[i]]);
      assert order[1..][i - 1] == order[i];
      lost := CompactedDrops(src, CopyRecord(src, dst, src.index[order[0]], stamp), order[1..], stamp);
    }
  }

  lemma {:induction false} CompactedKeepsKeys(src: Disk, dst: Disk, order: seq<Id>, stamp: seq<Byte>)
    requires forall i :: 0 <= i < |order| ==>
               order[i] in src.index && src.index[order[i]].id == order[i] && order[i] in dst.index
    requires forall i :: 0 <= i < |order| ==> !Broken(src.index[order[i]])
    ensures Compacted(src, dst, order, stamp).index.Keys == dst.index.Keys
    decreases |order|
  {
    if order != [] {
      var next := CopyRecord(src, dst, src.index[order[0]], stamp);
      assert next.index.Keys == dst.index.Keys;
      CompactedKeepsKeys(src, next, order[1..], stamp);
    }
  }

  /** Compaction keeps the set of ids exactly when no record has a zero length. */
  lemma CompactKeepsIds(disk: Disk, order: seq<Id>, stamp: seq<Byte>)
    requires IsOrder(order, disk.index)
    requires forall id :: id in disk.index ==> disk.index[id].id == id
    ensures Compact(disk, order, stamp).index.Keys == disk.index.Keys
            <==> forall id :: id in disk.index ==> !Broken(disk.index[id])
  {
    if id :| id in disk.index && Broken(disk.index[id]) {
      var i :| 0 <= i < |order| && order[i] == id;
      var lost := CompactedDrops(disk, Disk(disk.index, [], []), order, stamp);
      assert lost in disk.index;
    } else {
      CompactedKeepsKeys(disk, Disk(disk.index, [], []), order, stamp);
    }
  }

  /** The positions that the loop gets to see: after a broken record it skips one. */
  predicate Visits(src: Disk, order: seq<Id>, i: nat)
    requires i < |order| && forall j :: 0 <= j < |order| ==> order[j] in src.index
    decreases |order|
  {
    if i == 0 then true
    else if Broken(src.index[order[0]]) then i >= 2 && Visits(src, order[2..], i - 2)
    else Visits(src, order[1..], i - 1)
  }

  /** A record that the loop does not come to any more keeps its offsets, and the files only grow. */
  lemma {:induction false} NotVisited(src: Disk, dst: Disk, order: seq<Id>, stamp: seq<Byte>, id: Id)
    requires forall i :: 0 <= i < |order| ==> order[i] in src.index && src.index[order[i]].id == order[i]
    requires id in dst.index && id !in order
    ensures
      var done := Compacted(src, dst, order, stamp);
      && id in done.index && done.index[id] == dst.index[id]
      && dst.messages <= done.messages && dst.descriptors <= done.descriptors
    decreases |order|
  {
    if order != [] {
      var r := src.index[order[0]];
      if Broken(r) {
        NotVisited(src, dst.(index := dst.index - {order[0]}), order[if |order| >= 2 then 2 else 1..], stamp, id);
      } else {
        var next := CopyRecord(src, dst, r, stamp);
        CopyExtends(src, dst, r, stamp);
        NotVisited(src, next, order[1..], stamp, id);
      }
    }
  }

  lemma CopyExtends(src: Disk, dst: Disk, r: Record, stamp: seq<Byte>)
    ensures
      var next := CopyRecord(src, dst, r, stamp);
      dst.messages <= next.messages && dst.descriptors <= next.descriptors
  {
    var text := ReadAt(src.messages, r.uniblockOffset, r.uniblockLength);
    assert CopyRecord(src, dst, r, stamp).messages == dst.messages + (stamp + text + CRLF);
  }

  /** Growing files do not change what a record holds. */
  lemma HoldsLater(before: Disk, after: Disk, id: Id, m: Mail)
    requires DiskHolds(before, id, m) && id in after.index && after.index[id] == before.index[id]
    requires before.messages <= after.messages && before.descriptors <= after.descriptors
    ensures DiskHolds(after, id, m)
  {
    var more, more' := after.messages[|before.messages|..], after.descriptors[|before.descriptors|..];
    assert after.messages == before.messages + more && after.descriptors == before.descriptors + more';
    MessageHoldsAppend(before.messages, more, before.index[id], m);
    HoldsAppend(before.descriptors, more', before.index[id].descriptorOffset, m.descriptor);
  }

  /** What compaction makes of one record. */
  ghost predicate Fate(src: Disk, done: Disk, order: seq<Id>, i: nat)
    requires i < |order| && forall j :: 0 <= j < |order| ==> order[j] in src.index
  {
    var id := order[i];
    if !Visits(src, order, i) then id in done.index && done.index[id] == src.index[id]
    else if Broken(src.index[id]) then id !in done.index
    else forall m: Mail :: DiskHolds(src, id, m) ==> DiskHolds(done, id, m)
  }

  /** The source's records and the target's agree on what is still to come. */
  ghost predicate ToCome(src: Disk, dst: Disk, order: seq<Id>) {
    && (forall i, j :: 0 <= i < j < |order| ==> order[i] != order[j])
    && (forall i :: 0 <= i < |order| ==> order[i] in src.index && src.index[order[i]].id == order[i])
    && (forall i :: 0 <= i < |order| ==> order[i] in dst.index && dst.index[order[i]] == src.index[order[i]])
  }

  lemma {:induction false} FirstFate(src: Disk, dst: Disk, order: seq<Id>, stamp: seq<Byte>)
    requires ToCome(src, dst, order) && order != []
    ensures Fate(src, Compacted(src, dst, order, stamp), order, 0)
  {
    var id, done := order[0], Compacted(src, dst, order, stamp);
    var r := src.index[id];
    if Broken(r) {
      CompactedAddsNothing(src, dst.(index := dst.index - {id}), order[if |order| >= 2 then 2 else 1..], stamp);
    } else {
      var next := CopyRecord(src, dst, r, stamp);
      NotVisited(src, next, order[1..], stamp, id);
      forall m: Mail | DiskHolds(src, id, m) ensures DiskHolds(done, id, m) {
        CopyHolds(src, dst, id, m, stamp);
        HoldsLater(next, done, id, m);
      }
    }
  }

  /** Right after a broken record comes one that is not looked at. */
  lemma {:induction false} SkippedFate(src: Disk, dst: Disk, order: seq<Id>, stamp: seq<Byte>)
    requires ToCome(src, dst, order) && |order| >= 2 && Broken(src.index[order[0]])
    ensures
      var done := Compacted(src, dst, order, stamp);
      order[1] in done.index && done.index[order[1]] == src.index[order[1]]
  {
    NotVisited(src, dst.(index := dst.index - {order[0]}), order[2..], stamp, order[1]);
  }

  lemma {:induction false} CompactedFate(src: Disk, dst: Disk, order: seq<Id>, stamp: seq<Byte>, i: nat)
    requires ToCome(src, dst, order) && i < |order|
    ensures Fate(src, Compacted(src, dst, order, stamp), order, i)
    decreases |order|
  {
    if i == 0 {
      FirstFate(src, dst, order, stamp);
    } else if !Broken(src.index[order[0]]) {
      CompactedFate(src, CopyRecord(src, dst, src.index[order[0]], stamp), order[1..], stamp, i - 1);
    } else if i == 1 {
      SkippedFate(src, dst, order, stamp);
    } else {
      CompactedFate(src, dst.(index := dst.index - {order[0]}), order[2..], stamp, i - 2);
    }
  }

  /**
   The fate of every record, whatever the lengths and the order: what the loop visits is copied
   whole or, when broken, dropped; what it skips keeps offsets into files that no longer exist.
   */
  lemma CompactFate(disk: Disk, order: seq<Id>, stamp: seq<Byte>, i: nat)
    requires IsOrder(order, disk.index) && i < |order|
    requires forall id :: id in disk.index ==> disk.index[id].id == id
    ensures Fate(disk, Compact(disk, order, stamp), order, i)
  {
    CompactedFate(disk, Disk(disk.index, [], []), order, stamp, i);
  }

  /** For one, the record right after a broken one that is visited. */
  lemma {:induction false} VisitsNotAfterBroken(src: Disk, order: seq<Id>, i: nat)
    requires i + 1 < |order| && forall j :: 0 <= j < |order| ==> order[j] in src.index
    ensures Visits(src, order, i) ==> (Visits(src, order, i + 1) <==> !Broken(src.index[order[i]]))
    ensures !Visits(src, order, i) ==> Visits(src, order, i + 1)
    decreases |order|
  {
    if i > 0 {
      if Broken(src.index[order[0]]) {
        if i >= 2 {
          VisitsNotAfterBroken(src, order[2..], i - 2);
        }
      } else {
        VisitsNotAfterBroken(src, order[1..], i - 1);
      }
    }
  }

  /** The smallest folder in which a sound record is lost that way. */
  lemma SkippedNeighbourIsLost(stamp: seq<Byte>) returns (disk: Disk, order: seq<Id>, m: Mail)
    ensures IsOrder(order, disk.index)
    ensures "b" in disk.index && !Broken(disk.index["b"]) && DiskHolds(disk, "b", m)
    ensures
      var done := Compact(disk, order, stamp);
      "b" in done.index && !DiskHolds(done, "b", m)
  {
    var a := NewRecord("a");
    var b := NewRecord("b").(descriptorLength := 1, uniblockLength := 1);
    m := Mail([7], [9], [], false);
    disk := Disk(map["a" := a, "b" := b], [7], [9]);
    order := ["a", "b"];
    assert order[2..] == [];
    var done := Compact(disk, order, stamp);
    assert done == Disk(disk.index - {"a"}, [], []);
  }
}
