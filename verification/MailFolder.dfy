/**
 The local mail folder: an index dictionary over an append-only messages file and an
 append-only descriptor file, an index journal, and messages whose descriptors wait for
 the next sync. Whatever is done to it, it behaves as a plain map from ids to mails.
 */
module MailFolder {
  import opened Bytes
  import opened Common
  import opened FolderIndex
  import opened FolderJournal
  import opened MessageParts
  import MimeCodec
  import QuotedPrintable

  /** A message whose descriptor has not been written yet. */
  datatype Deferred = Deferred(id: Id, descriptor: seq<Byte>)

  const SYNC_LIMIT := 300

  // -------------------------------------------------------------------------
  // What the files must hold

  function DeferredIds(pending: seq<Deferred>): set<Id> {
    set d | d in pending :: d.id
  }

  /** Every mail of the store is on disk, except for the descriptors still deferred. */
  ghost predicate Faithful(disk: Disk, deferred: set<Id>, store: map<Id, Mail>) {
    && disk.index.Keys == store.Keys
    && forall id :: id in store ==> RecordFaithful(disk, id, deferred, store[id])
  }

  ghost predicate RecordFaithful(disk: Disk, id: Id, deferred: set<Id>, m: Mail)
    requires id in disk.index
  {
    var r := disk.index[id];
    && r.id == id && r.unread == m.unread && m.descriptor != []
    && MessageHolds(disk.messages, r, m)
    && (id !in deferred ==> DescriptorHolds(disk.descriptors, r, m))
  }

  ghost predicate DeferredMatch(pending: seq<Deferred>, store: map<Id, Mail>) {
    && (forall i :: 0 <= i < |pending| ==>
          pending[i].id in store && store[pending[i].id].descriptor == pending[i].descriptor)
    && (forall i, j :: 0 <= i < j < |pending| ==> pending[i].id != pending[j].id)
  }

  /** Appending to the files and setting one record leaves the other mails where they are. */
  lemma PutRecord(disk: Disk, disk': Disk, id: Id, m: Mail, deferred: set<Id>, deferred': set<Id>, store: map<Id, Mail>)
    requires Faithful(disk, deferred, store)
    requires disk.messages <= disk'.messages && disk.descriptors <= disk'.descriptors
    requires id in disk'.index && disk'.index == disk.index[id := disk'.index[id]]
    requires RecordFaithful(disk', id, deferred', m)
    requires deferred <= deferred' + {id}
    ensures Faithful(disk', deferred', store[id := m])
  {
    forall other | other in store && other != id ensures RecordFaithful(disk', other, deferred', store[other]) {
      KeepRecord(disk, disk', other, store[other], deferred, deferred');
    }
  }

  lemma KeepRecord(disk: Disk, disk': Disk, id: Id, m: Mail, deferred: set<Id>, deferred': set<Id>)
    requires id in disk.index && id in disk'.index && disk'.index[id] == disk.index[id]
    requires RecordFaithful(disk, id, deferred, m)
    requires disk.messages <= disk'.messages && disk.descriptors <= disk'.descriptors
    requires id in deferred ==> id in deferred'
    ensures RecordFaithful(disk', id, deferred', m)
  {
    var more, more' := disk'.messages[|disk.messages|..], disk'.descriptors[|disk.descriptors|..];
    assert disk'.messages == disk.messages + more && disk'.descriptors == disk.descriptors + more';
    MessageHoldsAppend(disk.messages, more, disk.index[id], m);
    if id !in deferred {
      HoldsAppend(disk.descriptors, more', disk.index[id].descriptorOffset, m.descriptor);
    }
  }

  /** Index, files, deferred messages and the unread counter agree with the store. */
  ghost predicate Sound(disk: Disk, pending: seq<Deferred>, unread: int, store: map<Id, Mail>) {
    && Faithful(disk, DeferredIds(pending), store)
    && DeferredMatch(pending, store)
    && unread == CountUnread(disk.index)
  }

  /** The journal agrees with the index on every other record. */
  ghost predicate LagsAt(journal: seq<Item>, index: map<Id, Record>, id: Id) {
    Replay(journal) - {id} == index - {id}
  }

  lemma SameLag(journal: seq<Item>, before: map<Id, Record>, index: map<Id, Record>, id: Id)
    requires id in index && index == before[id := index[id]]
    ensures LagsAt(journal, before, id) <==> LagsAt(journal, index, id)
  {
    assert index - {id} == before - {id};
  }

  /** A descriptor appended at the end of its file, and the record pointing to it. */
  function WithDescriptor(disk: Disk, id: Id, descriptor: seq<Byte>): Disk
    requires id in disk.index
  {
    disk.(index := disk.index[id := disk.index[id].(descriptorOffset := |disk.descriptors|,
                                                    descriptorLength := |descriptor|)],
          descriptors := disk.descriptors + descriptor)
  }

  /** Writing a mail's descriptor makes the record faithful without deferral. */
  lemma PutDescriptor(disk: Disk, id: Id, descriptor: seq<Byte>, deferred: set<Id>, deferred': set<Id>,
                      store: map<Id, Mail>)
    requires Faithful(disk, deferred, store) && id in store && descriptor != []
    requires deferred <= deferred' + {id} && id !in deferred'
    ensures Faithful(WithDescriptor(disk, id, descriptor), deferred', store[id := store[id].(descriptor := descriptor)])
  {
    var disk' := WithDescriptor(disk, id, descriptor);
    HoldsLast(disk.descriptors, descriptor, []);
    assert disk.descriptors + descriptor + [] == disk'.descriptors;
    assert RecordFaithful(disk, id, deferred, store[id]);
    PutRecord(disk, disk', id, store[id].(descriptor := descriptor), deferred, deferred', store);
  }

  // -------------------------------------------------------------------------
  // Creating a message

  ghost predicate InText(parts: seq<Part>, length: nat) {
    forall i :: 0 <= i < |parts| ==>
      0 <= parts[i].offset && 0 <= parts[i].length && parts[i].offset + parts[i].length <= length
  }

  /** The bodies that relative part offsets locate in a text. */
  ghost function BodiesOf(text: seq<Byte>, parts: seq<Part>): seq<Body>
    requires InText(parts, |text|)
  {
    seq(|parts|,
        i requires 0 <= i < |parts| =>
          Body(text[parts[i].offset..parts[i].offset + parts[i].length], parts[i].encoding))
  }

  /** A message block appended to the messages file, and its new record. */
  function WithMessage(disk: Disk, id: Id, text: seq<Byte>, parts: seq<Part>, isUnread: bool, stamp: seq<Byte>): Disk {
    var at := |disk.messages + stamp|;
    disk.(index := disk.index[id := Record(id, 0, 0, at, |text|, false, isUnread, Absolute(parts, at))],
          messages := disk.messages + stamp + text + CRLF)
  }

  /** The new record is faithful as long as its descriptor counts as deferred. */
  lemma PutMessage(disk: Disk, id: Id, m: Mail, parts: seq<Part>, stamp: seq<Byte>, deferred: set<Id>,
                   store: map<Id, Mail>)
    requires Faithful(disk, deferred, store) && m.descriptor != []
    requires PartsRead(parts, 0, m.text, m.bodies)
    ensures Faithful(WithMessage(disk, id, m.text, parts, m.unread, stamp), deferred + {id}, store[id := m])
  {
    var disk' := WithMessage(disk, id, m.text, parts, m.unread, stamp);
    HoldsLast(disk.messages + stamp, m.text, CRLF);
    AbsoluteReads(parts, |disk.messages + stamp|, m.text, m.bodies);
    assert disk'.messages == disk.messages + (stamp + m.text + CRLF);
    PutRecord(disk, disk', id, m, deferred, deferred + {id}, store);
  }

  lemma BodiesRead(text: seq<Byte>, parts: seq<Part>)
    requires InText(parts, |text|)
    ensures PartsRead(parts, 0, text, BodiesOf(text, parts))
  {
  }

  lemma DeferMore(pending: seq<Deferred>, store: map<Id, Mail>, id: Id, m: Mail)
    requires DeferredMatch(pending, store) && id !in store
    ensures DeferredIds(pending + [Deferred(id, m.descriptor)]) == DeferredIds(pending) + {id}
    ensures DeferredMatch(pending, store[id := m])
    ensures DeferredMatch(pending + [Deferred(id, m.descriptor)], store[id := m])
    ensures id !in DeferredIds(pending)
  {
    DeferredAppend(pending, Deferred(id, m.descriptor));
  }

  /** The deferred messages after one more; too many of them force a sync. */
  function Waiting(pending: seq<Deferred>, d: Deferred): seq<Deferred> {
    if SYNC_LIMIT <= |pending| + 1 then [] else pending + [d]
  }

  // -------------------------------------------------------------------------
  // The folder

  class Folder {
    var index: map<Id, Record>
    var messages: seq<Byte>
    var descriptors: seq<Byte>
    var journal: seq<Item>
    var pending: seq<Deferred>
    var unread: int
    /** The mails that the folder stands for. */
    ghost var store: map<Id, Mail>

    ghost function OnDisk(): Disk
      reads this
    {
      Disk(index, messages, descriptors)
    }

    /** Index and files agree with the store. */
    ghost predicate Stored()
      reads this
    {
      Sound(OnDisk(), pending, unread, store)
    }

    /** When nothing is deferred, the journal gives back the index. */
    ghost predicate Journaled()
      reads this
    {
      pending == [] ==> Replay(journal) == index
    }

    ghost predicate Valid()
      reads this
    {
      Stored() && Journaled()
    }

    /** A folder with no files yet. */
    constructor ()
      ensures Valid() && store == map[] && pending == []
    {
      index, messages, descriptors, journal, pending, unread := map[], [], [], [], [], 0;
      store := map[];
    }

    /** The order in which a dictionary iterator meets the records: any order. */
    method Enumerate() returns (order: seq<Id>)
      ensures IsOrder(order, index)
    {
      order := [];
      var left := index.Keys;
      while left != {}
        invariant left <= index.Keys
        invariant forall id :: id in index <==> id in order || id in left
        invariant forall i :: 0 <= i < |order| ==> order[i] !in left
        invariant forall i, j :: 0 <= i < j < |order| ==> order[i] != order[j]
        decreases left
      {
        var id :| id in left;
        left := left - {id};
        order := order + [id];
      }
    }

    /** Rewrites the whole journal. */
    method SaveIndex()
      modifies this`journal
      ensures (forall id :: id in index ==> index[id].id == id) ==> Replay(journal) == index
    {
      var order := Enumerate();
      journal := [Version(true)];
      for i := 0 to |order|
        invariant journal == [Version(true)] + Entries(index, order[..i])
      {
        assert Entries(index, order[..i + 1]) == Entries(index, order[..i]) + [Entry(index[order[i]])];
        journal := journal + [Entry(index[order[i]])];
      }
      assert order[..|order|] == order;
      if forall id :: id in index ==> index[id].id == id {
        ReplayWhole(index, order);
      }
    }

    /** Saves one record: alone it starts the file anew, otherwise it is appended. */
    method SaveIndexOf(id: Id)
      requires id in index && index[id].id == id
      modifies this`journal
      ensures LagsAt(old(journal), index, id) ==> Replay(journal) == index
    {
      if |index| == 1 {
        journal := [Version(true)] + [Entry(index[id])];
        OnlyRecord(index, id);
      } else {
        AppendRecord(journal, index, id);
        journal := journal + [Entry(index[id])];
      }
    }

    /** Appends a descriptor and points the record to it. */
    method WriteDescriptor(id: Id, descriptor: seq<Byte>)
      requires id in index
      modifies this`index, this`descriptors
      ensures OnDisk() == WithDescriptor(old(OnDisk()), id, descriptor)
    {
      index := index[id := index[id].(descriptorOffset := |descriptors|)];
      descriptors := descriptors + descriptor;
      index := index[id := index[id].(descriptorLength := |descriptors| - index[id].descriptorOffset)];
    }

    /** Appends a descriptor and saves the record that points to it. */
    method SaveDescriptor(id: Id, descriptor: seq<Byte>)
      requires id in index && index[id].id == id
      modifies this`index, this`descriptors, this`journal
      ensures OnDisk() == WithDescriptor(old(OnDisk()), id, descriptor)
      ensures LagsAt(old(journal), old(index), id) ==> Replay(journal) == index
    {
      WriteDescriptor(id, descriptor);
      SameLag(journal, old(index), index, id);
      SaveIndexOf(id);
    }

    /** Writes the deferred descriptors and then the whole index. */
    method Sync()
      requires Stored()
      modifies this`index, this`descriptors, this`journal, this`pending
      ensures Stored() && pending == []
      ensures old(Journaled()) ==> Journaled()
    {
      if pending != [] {
        WritePending();
        FaithfulIds(OnDisk(), {}, store);
        SaveIndex();
        pending := [];
      }
      assert DeferredIds([]) == {};
    }

    /** The loop of `sync`. */
    method WritePending()
      requires Stored()
      modifies this`index, this`descriptors
      ensures Faithful(OnDisk(), {}, store) && unread == CountUnread(index)
    {
      assert pending[0..] == pending;
      for i := 0 to |pending|
        invariant Faithful(OnDisk(), DeferredIds(pending[i..]), store)
        invariant unread == CountUnread(index)
      {
        var d := pending[i];
        SyncOne(OnDisk(), pending, i, unread, store);
        WriteDescriptor(d.id, d.descriptor);
      }
      assert DeferredIds(pending[|pending|..]) == {};
    }

    /** The parts of a new message, their offsets made absolute one by one. */
    static method AddParts(parts: seq<Part>, base: int) returns (added: seq<Part>)
      ensures added == Absolute(parts, base)
    {
      added := [];
      for i := 0 to |parts|
        invariant added == Absolute(parts[..i], base)
      {
        AbsolutePush(parts, i, base);
        added := added + [parts[i].(offset := parts[i].offset + base)];
      }
      assert parts[..|parts|] == parts;
    }

    /** Enters a new record and appends its message block. */
    method AppendMessage(id: Id, text: seq<Byte>, parts: seq<Part>, stamp: seq<Byte>, seen: bool)
      modifies this`index, this`messages, this`unread
      ensures OnDisk() == WithMessage(old(OnDisk()), id, text, parts, !seen, stamp)
      ensures unread == old(unread) + if seen then 0 else 1
    {
      index := index[id := NewRecord(id).(unread := !seen)];
      if index[id].unread {
        unread := unread + 1;
      }
      var at := AppendBlock(text, stamp);
      index := index[id := index[id].(uniblockOffset := at, uniblockLength := |text|, multipartOnly := false)];
      var added := AddParts(parts, index[id].uniblockOffset);
      index := index[id := index[id].(parts := added)];
    }

    /** Writes a line, a text and an empty line; the text starts at `at`. */
    method AppendBlock(text: seq<Byte>, stamp: seq<Byte>) returns (at: int)
      modifies this`messages
      ensures at == |old(messages) + stamp| && messages == old(messages) + stamp + text + CRLF
    {
      messages := messages + stamp;
      at := |messages|;
      messages := messages + text;
      messages := messages + CRLF;
    }

    /** Leaves a descriptor for the next sync, which is forced when too many wait. */
    method Defer(id: Id, descriptor: seq<Byte>)
      requires Sound(OnDisk(), pending + [Deferred(id, descriptor)], unread, store)
      modifies this`index, this`descriptors, this`journal, this`pending
      ensures Valid() && pending == Waiting(old(pending), Deferred(id, descriptor))
    {
      pending := pending + [Deferred(id, descriptor)];
      if SYNC_LIMIT <= |pending| {
        Sync();
      }
    }

    /** Writes the descriptor and the record of a message that is not in the journal yet. */
    method SaveNew(id: Id, descriptor: seq<Byte>)
      requires id in index && index[id].id == id
      requires Sound(WithDescriptor(OnDisk(), id, descriptor), pending, unread, store)
      requires pending == [] ==> Replay(journal) == index - {id}
      modifies this`index, this`descriptors, this`journal
      ensures Valid()
    {
      assert (index - {id}) - {id} == index - {id};
      SaveDescriptor(id, descriptor);
    }

    /**
     Stores a message, a C string, under the fresh id `id`; `parts` are relative to it, `stamp`
     is the line put before it, and `descriptor` is written at once or at the next sync.
     */
    method CreateMessage(id: Id, text: seq<Byte>, descriptor: seq<Byte>, parts: seq<Part>, stamp: seq<Byte>,
                         bSync: bool, seen: bool)
      requires Valid() && id !in index && descriptor != [] && InText(parts, |CString(text)|)
      modifies this
      ensures Valid() && pending == if bSync then Waiting(old(pending), Deferred(id, descriptor)) else old(pending)
      ensures store == old(store)[id := Mail(CString(text), descriptor, BodiesOf(CString(text), parts), !seen)]
    {
      Enter(id, CString(text), descriptor, parts, stamp, seen);
      if bSync {
        Defer(id, descriptor);
      } else {
        CreatedWritten(OnDisk(), pending, unread, store, id, store[id]);
        RemoveNew(old(index), index, id);
        SaveNew(id, descriptor);
      }
    }

    /** The message is in the messages file and the index; its descriptor counts as waiting. */
    method Enter(id: Id, text: seq<Byte>, descriptor: seq<Byte>, parts: seq<Part>, stamp: seq<Byte>, seen: bool)
      requires Stored() && id !in index && descriptor != [] && InText(parts, |text|)
      modifies this`index, this`messages, this`unread, this`store
      ensures store == old(store)[id := Mail(text, descriptor, BodiesOf(text, parts), !seen)]
      ensures id !in DeferredIds(pending) && Sound(OnDisk(), pending + [Deferred(id, descriptor)], unread, store)
      ensures id in index && index[id].id == id && index == old(index)[id := index[id]]
    {
      ghost var m := Mail(text, descriptor, BodiesOf(text, parts), !seen);
      ghost var disk := OnDisk();
      AppendMessage(id, text, parts, stamp, seen);
      CreatedDeferred(disk, OnDisk(), pending, old(unread), store, id, m, parts, stamp);
      store := store[id := m];
    }

    // -----------------------------------------------------------------------
    // Compaction and deletion

    /** Moves a record and its finished parts to where its block now starts. */
    static method SetUniblockOffset(r: Record, at: int) returns (moved: Record)
      ensures moved == r.(uniblockOffset := at, parts := Moved(r.parts, r.uniblockOffset, at))
    {
      var parts := r.parts;
      ghost var goal := Moved(r.parts, r.uniblockOffset, at);
      for i := 0 to |r.parts|
        invariant |parts| == |goal| && parts[..i] == goal[..i] && parts[i..] == r.parts[i..]
      {
        var part := parts[i];
        assert part == parts[i..][0] == r.parts[i];
        if part.offset != 0 || part.length != 0 {
          var relative := part.offset - r.uniblockOffset;
          parts := parts[i := part.(offset := at + relative)];
        }
        assert parts[i] == goal[i];
      }
      assert parts == parts[..|goal|] && goal == goal[..|goal|];
      moved := r.(parts := parts, uniblockOffset := at);
    }

    /** Copies the descriptor and the message of one record to the ends of the new files. */
    method CopyOne(r: Record, toMessages: seq<Byte>, toDescriptors: seq<Byte>, stamp: seq<Byte>)
      returns (moved: Record, newMessages: seq<Byte>, newDescriptors: seq<Byte>)
      ensures moved.id == r.id
      ensures forall dst: map<Id, Record> ::
                Disk(dst[r.id := moved], newMessages, newDescriptors)
                  == CopyRecord(OnDisk(), Disk(dst, toMessages, toDescriptors), r, stamp)
    {
      var descriptor := ReadAt(descriptors, r.descriptorOffset, r.descriptorLength);
      moved := r.(descriptorOffset := |toDescriptors|);
      newDescriptors := toDescriptors + descriptor;
      var text := ReadAt(messages, r.uniblockOffset, r.uniblockLength);
      newMessages := toMessages + stamp;
      moved := SetUniblockOffset(moved, |newMessages|);
      newMessages := newMessages + text;
      newMessages := newMessages + CRLF;
    }

    /** Copies what the index refers to into new files, which replace the old ones. */
    method CopyFiles(order: seq<Id>, stamp: seq<Byte>)
      requires IsOrder(order, index) && forall id :: id in index ==> index[id].id == id
      modifies this`index, this`messages, this`descriptors
      ensures OnDisk() == FolderIndex.Compact(old(OnDisk()), order, stamp)
    {
      var newMessages: seq<Byte>, newDescriptors: seq<Byte> := [], [];
      var k := 0;
      assert order[0..] == order;
      while k < |order|
        invariant 0 <= k <= |order|
        invariant messages == old(messages) && descriptors == old(descriptors)
        invariant Compacting(old(OnDisk()), Disk(index, newMessages, newDescriptors), order, k, stamp)
      {
        var r := index[order[k]];
        CompactingOne(old(OnDisk()), Disk(index, newMessages, newDescriptors), order, k, stamp);
        if r.descriptorLength == 0 || r.uniblockLength == 0 {
          index := index - {r.id};
          k := if k + 2 <= |order| then k + 2 else k + 1;
        } else {
          r, newMessages, newDescriptors := CopyOne(r, newMessages, newDescriptors, stamp);
          index := index[r.id := r];
          k := k + 1;
        }
      }
      assert order[k..] == [];
      messages, descriptors := newMessages, newDescriptors;
    }

    /** Compacts both files. Nothing is lost exactly when no stored message is empty. */
    method Compact(stamp: seq<Byte>)
      requires Stored()
      modifies this`index, this`messages, this`descriptors, this`journal, this`pending
      ensures pending == [] && store == old(store)
      ensures Valid() <==> NoneEmpty(store)
    {
      Sync();
      Relocate(stamp);
      SaveWhole();
    }

    /** The journal of a sound folder is brought up to date. */
    method SaveWhole()
      modifies this`journal
      ensures Valid() == old(Stored())
    {
      if Stored() {
        FaithfulIds(OnDisk(), DeferredIds(pending), store);
      }
      SaveIndex();
    }

    /** The files of a synced folder are replaced by compacted ones. */
    method Relocate(stamp: seq<Byte>)
      requires Stored() && pending == []
      modifies this`index, this`messages, this`descriptors
      ensures Stored() <==> NoneEmpty(store)
    {
      ghost var disk := OnDisk();
      var order := Enumerate();
      FaithfulIds(disk, DeferredIds(pending), store);
      CopyFiles(order, stamp);
      if NoneEmpty(store) {
        CompactSound(disk, OnDisk(), order, stamp, unread, store);
      } else {
        CompactLoses(disk, order, stamp, store);
      }
    }

    method RemoveRecord(id: Id)
      requires Stored() && pending == [] && id in index
      modifies this`index, this`unread, this`store
      ensures Stored() && store == old(store) - {id}
    {
      if index[id].unread {
        unread := unread - 1;
      }
      index := index - {id};
      store := store - {id};
      RemoveSound(old(OnDisk()), old(unread), old(store), id);
    }

    /** Deletes a message and compacts the folder. */
    method DeleteMessage(id: Id, stamp: seq<Byte>) returns (deleted: bool)
      requires Stored()
      modifies this
      ensures pending == [] && deleted == (id in old(store)) && store == old(store) - {id}
      ensures deleted ==> (Valid() <==> NoneEmpty(store))
      ensures !deleted && old(Journaled()) ==> Valid()
    {
      Sync();
      if id !in index {
        assert store - {id} == store;
        return false;
      }
      RemoveRecord(id);
      Compact(stamp);
      return true;
    }

    // -----------------------------------------------------------------------
    // Reading

    /** The text of a message, as it was stored. */
    method Rfc822Message(id: Id) returns (text: seq<Byte>)
      requires Stored() && id in index
      ensures text == store[id].text
    {
      assert RecordFaithful(OnDisk(), id, DeferredIds(pending), store[id]);
      text := ReadAt(messages, index[id].uniblockOffset, index[id].uniblockLength);
    }

    /** The bytes of a descriptor, once it has been written. */
    method LoadDescriptor(id: Id) returns (descriptor: seq<Byte>)
      requires Stored() && id in index
      ensures id !in DeferredIds(pending) ==> descriptor == store[id].descriptor
    {
      assert RecordFaithful(OnDisk(), id, DeferredIds(pending), store[id]);
      descriptor := ReadAt(descriptors, index[id].descriptorOffset, index[id].descriptorLength);
    }

    /**
     The decoded data of one part; `upper` is a library's conversion to upper case, `front` the
     byte in front of the buffer.
     */
    method GetPartData(id: Id, part: int, upper: Byte -> Byte, front: Byte) returns (ok: bool, data: seq<Byte>)
      requires Stored() && id in index
      requires 0 <= part < |store[id].bodies| ==>
                 MimeCodec.Readable(store[id].bodies[part].bytes, store[id].bodies[part].encoding)
      ensures ok == (0 <= part < |store[id].bodies|)
      ensures data == if ok then PartData(store[id].bodies[part], upper, front) else []
    {
      assert RecordFaithful(OnDisk(), id, DeferredIds(pending), store[id]);
      if 0 <= part < |index[id].parts| {
        assert PartReads(index[id].parts[part], index[id].uniblockOffset, store[id].text, store[id].bodies[part]);
        if index[id].parts[part].length > 0 {
          data := ReadPart(id, part);
          data := MimeCodec.DecodeData(data + [NUL], index[id].parts[part].encoding, upper, front);
          return true, data;
        }
        return true, [];
      }
      return false, [];
    }

    // -----------------------------------------------------------------------
    // Restarting

    /** Reads the journal into an empty index; an entry replaces an earlier one of the same id. */
    method LoadIndex()
      modifies this`index, this`unread
      ensures index == Replay(journal) && unread == CountUnread(index)
    {
      index, unread := map[], 0;
      assert UnreadIds(index) == {};
      if journal != [] && journal[0] == Version(true) {
        for k := 1 to |journal|
          invariant ReplayEntries(journal[k..], index) == Replay(journal)
          invariant unread == CountUnread(index)
        {
          assert journal[k..][1..] == journal[k + 1..];
          if journal[k].Entry? {
            var r := journal[k].record;
            CountReplace(index, r.id, r);
            if r.id in index && index[r.id].unread {
              unread := unread - 1;
            }
            index := index[r.id := r];
            if r.unread {
              unread := unread + 1;
            }
          }
        }
        assert journal[|journal|..] == [];
      }
    }

    /** Closing the folder syncs it; opening it again reads the journal. */
    method Restart()
      requires Valid()
      modifies this
      ensures Valid() && pending == [] && store == old(store) && unread == old(unread)
    {
      Sync();
      ghost var before := index;
      LoadIndex();
      assert index == before;
    }

    // -----------------------------------------------------------------------
    // Saving a message from its parts

    /** The stored bytes of a part, finished or not. */
    method ReadPart(id: Id, i: nat) returns (buf: seq<Byte>)
      requires id in index && id in store && MessageHolds(messages, index[id], store[id]) && i < |index[id].parts|
      ensures buf == store[id].bodies[i].bytes
    {
      buf := ReadAt(messages, index[id].parts[i].offset, index[id].parts[i].length);
      PartBytes(messages, index[id], store[id], i);
    }

    /** Appends a part's own header and body, the body as a C string. */
    static method AppendBody(message: seq<Byte>, parts: seq<Part>, preamble: seq<Byte>, buf: seq<Byte>,
                             encoding: string)
      returns (more: seq<Byte>, moreParts: seq<Part>)
      ensures Draft(more, moreParts) == AddBody(Draft(message, parts), preamble, Body(CString(buf), encoding))
    {
      more := message + preamble;
      var offset := |more|;
      more := more + CString(buf);
      moreParts := parts + [Part(offset, |more| - offset, encoding)];
    }

    /** Writes header, parts and trailer one after the other, noting where each part goes. */
    method BuildMessage(id: Id, iPart: int, data: seq<Byte>, footer: CText, outside: Byte,
                        header: seq<Byte>, preambles: seq<seq<Byte>>) returns (message: seq<Byte>, parts: seq<Part>)
      requires id in index && id in store && MessageHolds(messages, index[id], store[id])
      requires |preambles| == |index[id].parts|
      ensures Draft(message, parts)
              == Assemble(header, preambles, NewBodies(store[id].bodies, iPart, data, footer))
    {
      message, parts := header, [];
      ghost var bodies := NewBodies(store[id].bodies, iPart, data, footer);
      for i := 0 to |preambles|
        invariant Draft(message, parts) == Assemble(header, preambles[..i], bodies[..i])
      {
        var encoding, buf := index[id].parts[i].encoding, [];
        if iPart == i && data != [] {
          buf := MimeCodec.EncodeData(data, encoding, footer, outside);
        } else {
          buf := ReadPart(id, i);
        }
        assert PartReads(index[id].parts[i], index[id].uniblockOffset, store[id].text, store[id].bodies[i]);
        message, parts := AppendBody(message, parts, preambles[i], buf, encoding);
        AssembleOne(header, preambles, bodies, i);
      }
      assert preambles[..|preambles|] == preambles && bodies[..|preambles|] == bodies;
    }

    /**
     Encodes `data` as the new body of part `iPart`, unless it is empty, and stores the message
     anew: `header`, `preambles` and `trailer` are the lines around the bodies, `footer` is what
     the settings put behind a quoted-printable text, and `outside` a byte outside a buffer.
     */
    method SaveMessage(id: Id, iPart: int, data: seq<Byte>, footer: CText, outside: Byte,
                       header: CText, preambles: seq<CText>, trailer: CText,
                       descriptor: seq<Byte>, stamp: seq<Byte>)
      requires Valid() && id in store && |preambles| == |store[id].bodies| && descriptor != []
      modifies this
      ensures Valid() && pending == old(pending)
      ensures
        var bodies := NewBodies(old(store)[id].bodies, iPart, data, footer);
        store == old(store)[id := Resaved(old(store)[id], bodies, header, preambles, trailer,
                                          id in DeferredIds(pending), descriptor)]
    {
      SoundRecord(OnDisk(), pending, unread, store, id);
      ghost var bodies := NewBodies(store[id].bodies, iPart, data, footer);
      ghost var m := Resaved(store[id], bodies, header, preambles, trailer, id in DeferredIds(pending), descriptor);
      var message, parts := BuildMessage(id, iPart, data, footer, outside, header, preambles);
      message := message + trailer;
      ResavedReads(store[id], parts, m.bodies, header, preambles, trailer, id in DeferredIds(pending), descriptor);
      StoreMessage(id, message, parts, stamp, descriptor, m);
    }

    /** Sets the data of one part; refused when there is no such part or no data. */
    method SetPartData(id: Id, part: int, data: seq<Byte>, footer: CText, outside: Byte,
                       header: CText, preambles: seq<CText>, trailer: CText,
                       descriptor: seq<Byte>, stamp: seq<Byte>) returns (ok: bool)
      requires Valid() && id in store && |preambles| == |store[id].bodies| && descriptor != []
      modifies this
      ensures Valid() && pending == old(pending)
      ensures ok == (0 <= part < |old(store)[id].bodies| && data != [])
      ensures
        var bodies := NewBodies(old(store)[id].bodies, part, data, footer);
        store == if ok then old(store)[id := Resaved(old(store)[id], bodies, header, preambles, trailer,
                                                     id in DeferredIds(pending), descriptor)]
                 else old(store)
    {
      SoundRecord(OnDisk(), pending, unread, store, id);
      ok := 0 <= part < |index[id].parts| && data != [];
      if ok {
        SaveMessage(id, part, data, footer, outside, header, preambles, trailer, descriptor, stamp);
      }
    }

    /** Puts the new text and descriptor of a known message in place. */
    method StoreMessage(id: Id, message: seq<Byte>, parts: seq<Part>, stamp: seq<Byte>, descriptor: seq<Byte>,
                        ghost m: Mail)
      requires Valid() && id in store && descriptor != []
      requires m.text == message && m.unread == store[id].unread && PartsRead(parts, 0, message, m.bodies)
      requires m.descriptor == if id in DeferredIds(pending) then store[id].descriptor else descriptor
      modifies this
      ensures Valid() && pending == old(pending) && store == old(store)[id := m]
    {
      Replace(id, message, parts, stamp, descriptor, m);
      SaveKnown(id, descriptor, old(index));
    }

    /** The new block is in the messages file, the descriptor is still to be written. */
    method Replace(id: Id, message: seq<Byte>, parts: seq<Part>, stamp: seq<Byte>, ghost descriptor: seq<Byte>,
                   ghost m: Mail)
      requires Stored() && id in store && descriptor != []
      requires m.text == message && m.unread == store[id].unread && PartsRead(parts, 0, message, m.bodies)
      requires m.descriptor == if id in DeferredIds(pending) then store[id].descriptor else descriptor
      modifies this`index, this`messages, this`store
      ensures store == old(store)[id := m]
      ensures id in index && index[id].id == id && index == old(index)[id := index[id]]
      ensures Sound(WithDescriptor(OnDisk(), id, descriptor), pending, unread, store)
    {
      ghost var disk := OnDisk();
      SoundRecord(disk, pending, unread, store, id);
      ReplaceMessage(id, message, parts, stamp);
      SavedSound(disk, OnDisk(), pending, unread, store, id, m, parts, stamp, descriptor);
      store := store[id := m];
    }

    /** Appends a new block for an existing record. */
    method ReplaceMessage(id: Id, message: seq<Byte>, parts: seq<Part>, stamp: seq<Byte>)
      requires id in index
      modifies this`index, this`messages
      ensures OnDisk() == Rewritten(old(OnDisk()), id, message, parts, stamp)
    {
      var mailOffset := AppendBlock(message, stamp);
      index := index[id := index[id].(uniblockOffset := mailOffset, uniblockLength := |message|)];
      var moved := AddParts(parts, mailOffset);
      index := index[id := index[id].(parts := moved)];
    }

    /** Writes the descriptor and the record of a message that the journal knows already. */
    method SaveKnown(id: Id, descriptor: seq<Byte>, ghost before: map<Id, Record>)
      requires id in index && index[id].id == id && index == before[id := index[id]]
      requires Sound(WithDescriptor(OnDisk(), id, descriptor), pending, unread, store)
      requires pending == [] ==> Replay(journal) == before
      modifies this`index, this`descriptors, this`journal
      ensures Valid()
    {
      assert before - {id} == index - {id};
      SaveDescriptor(id, descriptor);
    }

    // -----------------------------------------------------------------------
    // Whole runs

    /** What the folder stands for: the mails, and which of them wait for the next sync. */
    ghost function View(): Shelf
      reads this
    {
      Shelf(store, Ids(pending))
    }

    method PerformCreate(op: Operation)
      requires Valid() && NoneEmpty(store) && op.Create? && Possible(op, View())
      modifies this
      ensures Valid() && NoneEmpty(store) && View() == Apply(old(View()), op)
    {
      SoundKeys(OnDisk(), pending, unread, store);
      CreateMessage(op.id, op.text, op.descriptor, op.parts, op.stamp, op.bSync, op.seen);
      assert Ids(old(pending) + [Deferred(op.id, op.descriptor)]) == Ids(old(pending)) + [op.id];
    }

    method PerformSave(op: Operation)
      requires Valid() && NoneEmpty(store) && op.Save? && Possible(op, View())
      modifies this
      ensures Valid() && NoneEmpty(store) && View() == Apply(old(View()), op)
    {
      WaitingIds(pending, op.id);
      SaveMessage(op.id, op.iPart, op.data, op.footer, op.outside, op.header, op.preambles, op.trailer, op.descriptor,
                  op.stamp);
      AssembleLonger(op.header, op.preambles, store[op.id].bodies);
    }

    /** One operation has on the folder the effect that it has on a plain map. */
    method Perform(op: Operation)
      requires Valid() && NoneEmpty(store) && Possible(op, View())
      modifies this
      ensures Valid() && NoneEmpty(store) && View() == Apply(old(View()), op)
    {
      match op
      case Create(_, _, _, _, _, _, _) => PerformCreate(op);
      case Save(_, _, _, _, _, _, _, _, _, _) => PerformSave(op);
      case Delete(id, stamp) => var _ := DeleteMessage(id, stamp);
      case Synchronize => Sync();
      case Reopen => Restart();
    }

    /** Over every run the folder behaves as a plain map from ids to mails. */
    method Run(operations: seq<Operation>)
      requires Valid() && NoneEmpty(store) && AllPossible(operations, View())
      modifies this
      ensures Valid() && View() == ApplyAll(old(View()), operations)
    {
      assert operations[0..] == operations;
      for i := 0 to |operations|
        invariant Valid() && NoneEmpty(store) && AllPossible(operations[i..], View())
        invariant ApplyAll(View(), operations[i..]) == ApplyAll(old(View()), operations)
      {
        assert operations[i..][1..] == operations[i + 1..];
        Perform(operations[i]);
      }
      assert operations[|operations|..] == [];
    }
  }

  /** A new message is sound while its descriptor is deferred. */
  lemma CreatedDeferred(disk: Disk, disk': Disk, pending: seq<Deferred>, unread: int, store: map<Id, Mail>, id: Id,
                        m: Mail, parts: seq<Part>, stamp: seq<Byte>)
    requires Sound(disk, pending, unread, store) && id !in disk.index && m.descriptor != []
    requires InText(parts, |m.text|) && m.bodies == BodiesOf(m.text, parts)
    requires disk' == WithMessage(disk, id, m.text, parts, m.unread, stamp)
    ensures id !in DeferredIds(pending)
    ensures Sound(disk', pending + [Deferred(id, m.descriptor)], unread + (if m.unread then 1 else 0), store[id := m])
  {
    BodiesRead(m.text, parts);
    PutMessage(disk, id, m, parts, stamp, DeferredIds(pending), store);
    DeferMore(pending, store, id, m);
    CountReplace(disk.index, id, disk'.index[id]);
  }

  /** It is sound without deferral once its descriptor is written. */
  lemma CreatedWritten(disk: Disk, pending: seq<Deferred>, unread: int, store: map<Id, Mail>, id: Id, m: Mail)
    requires Sound(disk, pending + [Deferred(id, m.descriptor)], unread, store) && id !in DeferredIds(pending)
    requires id in store && store[id] == m
    ensures Sound(WithDescriptor(disk, id, m.descriptor), pending, unread, store)
  {
    var more := pending + [Deferred(id, m.descriptor)];
    assert more[|pending|..] == [Deferred(id, m.descriptor)];
    DeferredAppend(pending, Deferred(id, m.descriptor));
    assert RecordFaithful(disk, id, DeferredIds(more), m);
    PutDescriptor(disk, id, m.descriptor, DeferredIds(more), DeferredIds(pending), store);
    assert store[id := store[id].(descriptor := m.descriptor)] == store;
    CountReplace(disk.index, id, WithDescriptor(disk, id, m.descriptor).index[id]);
    forall i | 0 <= i < |pending|
      ensures pending[i].id in store && store[pending[i].id].descriptor == pending[i].descriptor
    {
      assert more[i] == pending[i];
    }
    forall i, j | 0 <= i < j < |pending| ensures pending[i].id != pending[j].id {
      assert more[i].id != more[j].id;
    }
  }

  lemma DeferredAppend(pending: seq<Deferred>, d: Deferred)
    ensures DeferredIds(pending + [d]) == DeferredIds(pending) + {d.id}
  {
    var more := pending + [d];
    assert more[|pending|] in more;
    forall x | x in DeferredIds(pending) ensures x in DeferredIds(more) {
      var e :| e in pending && e.id == x;
      assert e in more;
    }
  }

  /** The records from position k on are as they were, and the rest of the work gives the result. */
  ghost predicate Compacting(src: Disk, dst: Disk, order: seq<Id>, k: nat, stamp: seq<Byte>)
    requires forall i :: 0 <= i < |order| ==> order[i] in src.index
  {
    && k <= |order|
    && (forall j :: k <= j < |order| ==> order[j] in dst.index && dst.index[order[j]] == src.index[order[j]])
    && Compacted(src, dst, order[k..], stamp) == FolderIndex.Compact(src, order, stamp)
  }

  lemma CompactingOne(src: Disk, dst: Disk, order: seq<Id>, k: nat, stamp: seq<Byte>)
    requires IsOrder(order, src.index) && forall id :: id in src.index ==> src.index[id].id == id
    requires k < |order| && Compacting(src, dst, order, k, stamp)
    ensures
      var r := dst.index[order[k]];
      && r.id == order[k]
      && if r.descriptorLength == 0 || r.uniblockLength == 0 then
           Compacting(src, dst.(index := dst.index - {r.id}), order, if k + 2 <= |order| then k + 2 else k + 1, stamp)
         else
           Compacting(src, CopyRecord(src, dst, r, stamp), order, k + 1, stamp)
  {
    assert order[k..][1..] == order[k + 1..];
    assert k + 2 <= |order| ==> order[k..][2..] == order[k + 2..];
  }

  /** Syncing one deferred message takes it off the deferred set. */
  lemma SyncOne(disk: Disk, pending: seq<Deferred>, i: nat, unread: int, store: map<Id, Mail>)
    requires i < |pending| && DeferredMatch(pending, store)
    requires Faithful(disk, DeferredIds(pending[i..]), store) && unread == CountUnread(disk.index)
    ensures pending[i].id in disk.index
    ensures
      var disk' := WithDescriptor(disk, pending[i].id, pending[i].descriptor);
      Faithful(disk', DeferredIds(pending[i + 1..]), store) && unread == CountUnread(disk'.index)
  {
    var d := pending[i];
    var disk' := WithDescriptor(disk, d.id, d.descriptor);
    assert RecordFaithful(disk, d.id, DeferredIds(pending[i..]), store[d.id]);
    DeferredSplit(pending, i);
    PutDescriptor(disk, d.id, d.descriptor, DeferredIds(pending[i..]), DeferredIds(pending[i + 1..]), store);
    assert store[d.id := store[d.id].(descriptor := d.descriptor)] == store;
    CountReplace(disk.index, d.id, disk'.index[d.id]);
  }

  lemma DeferredSplit(pending: seq<Deferred>, i: nat)
    requires i < |pending|
    requires forall i, j :: 0 <= i < j < |pending| ==> pending[i].id != pending[j].id
    ensures DeferredIds(pending[i..]) == DeferredIds(pending[i + 1..]) + {pending[i].id}
    ensures pending[i].id !in DeferredIds(pending[i + 1..])
  {
    var rest, more := pending[i + 1..], pending[i..];
    assert more == [pending[i]] + rest;
    assert more[0] in more;
    forall x | x in DeferredIds(rest) ensures x in DeferredIds(more) && x != pending[i].id {
      var d :| d in rest && d.id == x;
      assert d in more;
      var k :| 0 <= k < |rest| && rest[k] == d;
      assert pending[i + 1 + k] == d;
    }
  }

  lemma FaithfulIds(disk: Disk, deferred: set<Id>, store: map<Id, Mail>)
    requires Faithful(disk, deferred, store)
    ensures forall id :: id in disk.index ==> disk.index[id].id == id
  {
    forall id | id in disk.index ensures disk.index[id].id == id {
      assert RecordFaithful(disk, id, deferred, store[id]);
    }
  }

  ghost predicate NoneEmpty(store: map<Id, Mail>) {
    forall id :: id in store ==> store[id].text != []
  }

  /** Compaction of a synced folder without empty messages keeps it sound. */
  lemma CompactSound(disk: Disk, disk': Disk, order: seq<Id>, stamp: seq<Byte>, unread: int, store: map<Id, Mail>)
    requires Sound(disk, [], unread, store) && NoneEmpty(store) && IsOrder(order, disk.index)
    requires disk' == FolderIndex.Compact(disk, order, stamp)
    ensures Sound(disk', [], unread, store)
  {
    assert DeferredIds([]) == {};
    forall id | id in store ensures DiskHolds(disk, id, store[id]) && !Broken(disk.index[id]) {
      assert RecordFaithful(disk, id, {}, store[id]);
    }
    CompactKeeps(disk, order, store, stamp);
    forall id | id in store ensures RecordFaithful(disk', id, {}, store[id]) {
      assert DiskHolds(disk', id, store[id]) && RecordFaithful(disk, id, {}, store[id]);
    }
    forall id | id in disk.index ensures disk.index[id].unread == disk'.index[id].unread {
      assert DiskHolds(disk, id, store[id]) && DiskHolds(disk', id, store[id]);
    }
    CountSame(disk.index, disk'.index);
  }

  /** An empty message makes the compactor drop a record. */
  lemma CompactLoses(disk: Disk, order: seq<Id>, stamp: seq<Byte>, store: map<Id, Mail>)
    requires Faithful(disk, {}, store) && !NoneEmpty(store) && IsOrder(order, disk.index)
    ensures FolderIndex.Compact(disk, order, stamp).index.Keys != store.Keys
  {
    FaithfulIds(disk, {}, store);
    var id :| id in store && store[id].text == [];
    assert RecordFaithful(disk, id, {}, store[id]);
    assert Broken(disk.index[id]);
    CompactKeepsIds(disk, order, stamp);
  }

  lemma RemoveSound(disk: Disk, unread: int, store: map<Id, Mail>, id: Id)
    requires Sound(disk, [], unread, store) && id in disk.index
    ensures Sound(disk.(index := disk.index - {id}), [], unread - (if disk.index[id].unread then 1 else 0),
            store - {id})
  {
    CountRemove(disk.index, id);
    forall other | other in store && other != id
      ensures RecordFaithful(disk.(index := disk.index - {id}), other, DeferredIds([]), store[other])
    {
      assert RecordFaithful(disk, other, DeferredIds([]), store[other]);
    }
  }

  /** The bytes of a part, finished or not. */
  lemma PartBytes(messages: seq<Byte>, r: Record, m: Mail, i: nat)
    requires MessageHolds(messages, r, m) && i < |r.parts|
    ensures ReadAt(messages, r.parts[i].offset, r.parts[i].length) == m.bodies[i].bytes
  {
    assert PartReads(r.parts[i], r.uniblockOffset, m.text, m.bodies[i]);
    if !Unfinished(r.parts[i]) {
      PartInFile(messages, r, m, i);
    }
  }

  /** A record whose message block has been written anew; `parts` are relative to `message`. */
  function Rewritten(disk: Disk, id: Id, message: seq<Byte>, parts: seq<Part>, stamp: seq<Byte>): Disk
    requires id in disk.index
  {
    var at := |disk.messages + stamp|;
    disk.(index := disk.index[id := disk.index[id].(uniblockOffset := at, uniblockLength := |message|,
                                                    parts := Absolute(parts, at))],
          messages := disk.messages + stamp + message + CRLF)
  }

  /** The rewritten record is faithful once its descriptor has been written as well. */
  lemma {:induction false} SavedRecord(disk: Disk, deferred: set<Id>, id: Id, old': Mail, m: Mail,
                                       parts: seq<Part>, stamp: seq<Byte>, descriptor: seq<Byte>)
    requires id in disk.index && RecordFaithful(disk, id, deferred, old') && descriptor != []
    requires PartsRead(parts, 0, m.text, m.bodies) && m.unread == old'.unread
    requires m.descriptor == if id in deferred then old'.descriptor else descriptor
    ensures RecordFaithful(WithDescriptor(Rewritten(disk, id, m.text, parts, stamp), id, descriptor), id, deferred, m)
  {
    HoldsLast(disk.messages + stamp, m.text, CRLF);
    AbsoluteReads(parts, |disk.messages + stamp|, m.text, m.bodies);
    HoldsLast(disk.descriptors, descriptor, []);
    PlusEmpty(disk.descriptors + descriptor);
  }

  lemma {:induction false} SavedFiles(disk: Disk, id: Id, text: seq<Byte>, parts: seq<Part>, stamp: seq<Byte>,
                                      descriptor: seq<Byte>)
    requires id in disk.index
    ensures
      var done := WithDescriptor(Rewritten(disk, id, text, parts, stamp), id, descriptor);
      && disk.messages <= done.messages && disk.descriptors <= done.descriptors
      && done.index == disk.index[id := done.index[id]]
      && done.index[id].id == disk.index[id].id && done.index[id].unread == disk.index[id].unread
  {
    AssocFour(disk.messages, stamp, text, CRLF);
  }

  lemma {:induction false} SavedSound(disk: Disk, disk': Disk, pending: seq<Deferred>, unread: int,
                                      store: map<Id, Mail>, id: Id, m: Mail, parts: seq<Part>,
                                      stamp: seq<Byte>, descriptor: seq<Byte>)
    requires Sound(disk, pending, unread, store) && id in store && descriptor != []
    requires disk' == Rewritten(disk, id, m.text, parts, stamp)
    requires PartsRead(parts, 0, m.text, m.bodies) && m.unread == store[id].unread
    requires m.descriptor == if id in DeferredIds(pending) then store[id].descriptor else descriptor
    ensures disk'.index[id].id == id
    ensures Sound(WithDescriptor(disk', id, descriptor), pending, unread, store[id := m])
  {
    var done := WithDescriptor(disk', id, descriptor);
    assert RecordFaithful(disk, id, DeferredIds(pending), store[id]);
    SavedFiles(disk, id, m.text, parts, stamp, descriptor);
    SavedRecord(disk, DeferredIds(pending), id, store[id], m, parts, stamp, descriptor);
    PutRecord(disk, done, id, m, DeferredIds(pending), DeferredIds(pending), store);
    CountReplace(disk.index, id, done.index[id]);
    DeferredMatchSame(pending, store, id, m);
  }

  lemma DeferredMatchSame(pending: seq<Deferred>, store: map<Id, Mail>, id: Id, m: Mail)
    requires DeferredMatch(pending, store) && id in store
    requires id in DeferredIds(pending) ==> m.descriptor == store[id].descriptor
    ensures DeferredMatch(pending, store[id := m])
  {
    forall i | 0 <= i < |pending| && pending[i].id == id ensures id in DeferredIds(pending) {
      assert pending[i] in pending;
    }
  }

  /** The mail that saving makes of `m`: its text is put together from the bodies. */
  ghost function Resaved(m: Mail, bodies: seq<Body>, header: seq<Byte>, preambles: seq<seq<Byte>>,
                         trailer: seq<Byte>, isDeferred: bool, descriptor: seq<Byte>): Mail
    requires |preambles| == |bodies|
  {
    Mail(Assemble(header, preambles, bodies).text + trailer,
         if isDeferred then m.descriptor else descriptor, bodies, m.unread)
  }

  lemma ResavedReads(m: Mail, parts: seq<Part>, bodies: seq<Body>, header: seq<Byte>, preambles: seq<seq<Byte>>,
                     trailer: seq<Byte>, isDeferred: bool, descriptor: seq<Byte>)
    requires |preambles| == |bodies| && parts == Assemble(header, preambles, bodies).parts
    ensures PartsRead(parts, 0, Resaved(m, bodies, header, preambles, trailer, isDeferred, descriptor).text, bodies)
  {
    AssembleReads(header, preambles, bodies);
    PartsReadMore(parts, Assemble(header, preambles, bodies).text, trailer, bodies);
  }

  lemma SoundRecord(disk: Disk, pending: seq<Deferred>, unread: int, store: map<Id, Mail>, id: Id)
    requires Sound(disk, pending, unread, store) && id in store
    ensures id in disk.index && disk.index[id].id == id
    ensures MessageHolds(disk.messages, disk.index[id], store[id])
    ensures |disk.index[id].parts| == |store[id].bodies|
  {
    assert RecordFaithful(disk, id, DeferredIds(pending), store[id]);
  }

  lemma RemoveNew(before: map<Id, Record>, index: map<Id, Record>, id: Id)
    requires id !in before && id in index && index == before[id := index[id]]
    ensures index - {id} == before
  {
  }

  lemma OnlyRecord(index: map<Id, Record>, id: Id)
    requires |index| == 1 && id in index && index[id].id == id
    ensures Replay([Version(true)] + [Entry(index[id])]) == index
  {
    var items := [Version(true)] + [Entry(index[id])];
    assert items[1..] == [Entry(index[id])];
    assert ReplayEntries([Entry(index[id])], map[]) == ReplayEntries([], map[id := index[id]]) by {
      assert [Entry(index[id])][1..] == [];
    }
    assert |index.Keys - {id}| == 0;
    assert index.Keys == {id};
  }

  lemma AppendRecord(journal: seq<Item>, index: map<Id, Record>, id: Id)
    requires id in index && index[id].id == id && |index| != 1
    ensures LagsAt(journal, index, id) ==> Replay(journal + [Entry(index[id])]) == index
  {
    if LagsAt(journal, index, id) {
      var rest := index - {id};
      assert rest.Keys == index.Keys - {id};
      assert rest != map[] by { assert |rest.Keys| != 0; }
      assert Readable(journal);
      ReplayAppend(journal, index[id]);
      assert (Replay(journal) - {id})[id := index[id]] == Replay(journal)[id := index[id]];
      assert rest[id := index[id]] == index;
    }
  }

  // -------------------------------------------------------------------------
  // The abstract view of a run

  datatype Operation =
    | Create(id: Id, text: seq<Byte>, descriptor: seq<Byte>, parts: seq<Part>, stamp: seq<Byte>,
             bSync: bool, seen: bool)
    | Synchronize
    | Delete(id: Id, stamp: seq<Byte>)
    | Save(id: Id, iPart: int, data: seq<Byte>, footer: CText, outside: Byte, header: CText, preambles: seq<CText>,
           trailer: CText, descriptor: seq<Byte>, stamp: seq<Byte>)
    | Reopen

  /** A plain map of mails, and the ids whose descriptors are not written yet. */
  datatype Shelf = Shelf(mails: map<Id, Mail>, waiting: seq<Id>)

  function Ids(pending: seq<Deferred>): seq<Id> {
    seq(|pending|, i requires 0 <= i < |pending| => pending[i].id)
  }

  lemma WaitingIds(pending: seq<Deferred>, id: Id)
    ensures id in Ids(pending) <==> id in DeferredIds(pending)
  {
    if id in DeferredIds(pending) {
      var d :| d in pending && d.id == id;
      var i :| 0 <= i < |pending| && pending[i] == d;
      assert Ids(pending)[i] == id;
    }
    if i :| 0 <= i < |Ids(pending)| && Ids(pending)[i] == id {
      assert pending[i] in pending;
    }
  }

  /** The operation makes sense: new ids are fresh, messages are not empty, saves refer to stored messages. */
  ghost predicate Possible(op: Operation, shelf: Shelf) {
    match op
    case Create(id, text, descriptor, parts, _, _, _) =>
      id !in shelf.mails && CString(text) != [] && descriptor != [] && InText(parts, |CString(text)|)
    case Save(id, _, _, _, _, header, preambles, _, descriptor, _) =>
      id in shelf.mails && |preambles| == |shelf.mails[id].bodies| && header != [] && descriptor != []
    case _ => true
  }

  /**
   Saving a message whose descriptor still waits does not change that descriptor: the next
   sync writes the waiting one.
   */
  ghost function Apply(shelf: Shelf, op: Operation): Shelf
    requires Possible(op, shelf)
  {
    match op
    case Create(id, text, descriptor, parts, _, bSync, seen) =>
      Shelf(shelf.mails[id := Mail(CString(text), descriptor, BodiesOf(CString(text), parts), !seen)],
            if !bSync then shelf.waiting else if SYNC_LIMIT <= |shelf.waiting| + 1 then [] else shelf.waiting + [id])
    case Delete(id, _) => Shelf(shelf.mails - {id}, [])
    case Save(id, iPart, data, footer, _, header, preambles, trailer, descriptor, _) =>
      var bodies := NewBodies(shelf.mails[id].bodies, iPart, data, footer);
      shelf.(mails := shelf.mails[id := Resaved(shelf.mails[id], bodies, header, preambles, trailer,
        id in shelf.waiting, descriptor)])
    case _ => shelf.(waiting := [])
  }

  ghost predicate AllPossible(operations: seq<Operation>, shelf: Shelf) {
    operations == [] || (Possible(operations[0], shelf) && AllPossible(operations[1..], Apply(shelf, operations[0])))
  }

  ghost function ApplyAll(shelf: Shelf, operations: seq<Operation>): Shelf
    requires AllPossible(operations, shelf)
    decreases |operations|
  {
    if operations == [] then shelf else ApplyAll(Apply(shelf, operations[0]), operations[1..])
  }

  lemma SoundKeys(disk: Disk, pending: seq<Deferred>, unread: int, store: map<Id, Mail>)
    requires Sound(disk, pending, unread, store)
    ensures disk.index.Keys == store.Keys
  {
  }

  lemma {:induction false} AssembleLonger(header: seq<Byte>, preambles: seq<seq<Byte>>, bodies: seq<Body>)
    requires |preambles| == |bodies|
    ensures |Assemble(header, preambles, bodies).text| >= |header|
    decreases |bodies|
  {
    if bodies != [] {
      AssembleLonger(header, preambles[..|bodies| - 1], bodies[..|bodies| - 1]);
    }
  }

  // -------------------------------------------------------------------------
  // Saving keeps the other parts and changes the chosen one

  /** What reading a part gives. */
  function PartData(body: Body, upper: Byte -> Byte, front: Byte): seq<Byte> {
    MimeCodec.DataOf(body.bytes, body.encoding, upper, front)
  }

  /** No NUL in any text or body. */
  ghost predicate Clean(m: Mail) {
    NUL !in m.text && forall i :: 0 <= i < |m.bodies| ==> NUL !in m.bodies[i].bytes
  }

  ghost predicate AllClean(shelf: Shelf) {
    forall id :: id in shelf.mails ==> Clean(shelf.mails[id])
  }

  lemma {:induction false} AssembleClean(header: CText, preambles: seq<CText>, bodies: seq<Body>)
    requires |preambles| == |bodies| && forall i :: 0 <= i < |bodies| ==> NUL !in bodies[i].bytes
    ensures NUL !in Assemble(header, preambles, bodies).text
    decreases |bodies|
  {
    if bodies != [] {
      AssembleClean(header, preambles[..|bodies| - 1], bodies[..|bodies| - 1]);
    }
  }

  lemma {:induction false} ApplyClean(shelf: Shelf, op: Operation)
    requires AllClean(shelf) && Possible(op, shelf)
    ensures AllClean(Apply(shelf, op))
  {
    if op.Create? {
      CreatedClean(op.text, op.parts);
    } else if op.Save? {
      AssembleClean(op.header, op.preambles, NewBodies(shelf.mails[op.id].bodies, op.iPart, op.data, op.footer));
    }
  }

  lemma {:induction false} CreatedClean(text: seq<Byte>, parts: seq<Part>)
    requires InText(parts, |CString(text)|)
    ensures forall i :: 0 <= i < |parts| ==> NUL !in BodiesOf(CString(text), parts)[i].bytes
  {
  }

  lemma {:induction false} RunClean(shelf: Shelf, operations: seq<Operation>)
    requires AllClean(shelf) && AllPossible(operations, shelf)
    ensures AllClean(ApplyAll(shelf, operations))
    decreases |operations|
  {
    if operations != [] {
      ApplyClean(shelf, operations[0]);
      RunClean(Apply(shelf, operations[0]), operations[1..]);
    }
  }

  /**
   In whatever state a run has left the folder, saving a message leaves the bodies of its other
   parts as they were, and every part keeps its encoding.
   */
  lemma {:induction false} SaveKeepsOthers(shelf: Shelf, operations: seq<Operation>, op: Operation, i: nat)
    requires AllClean(shelf) && AllPossible(operations, shelf) && op.Save?
    requires Possible(op, ApplyAll(shelf, operations)) && i < |ApplyAll(shelf, operations).mails[op.id].bodies|
    ensures
      var before := ApplyAll(shelf, operations).mails[op.id].bodies;
      var after := Apply(ApplyAll(shelf, operations), op).mails[op.id].bodies;
      && |after| == |before| && after[i].encoding == before[i].encoding
      && (i != op.iPart || op.data == [] ==> after[i] == before[i])
  {
    RunClean(shelf, operations);
    var before := ApplyAll(shelf, operations);
    assert Clean(before.mails[op.id]);
    NewBodiesKeep(before.mails[op.id].bodies, op.iPart, op.data, op.footer, i);
  }

  /**
   Setting the data of a part and getting it, in whatever state a run has left the folder: what
   comes back is `Restored`, and it is what was set exactly when that `Survives` the encoding.
   */
  lemma {:induction false} SetThenGet(shelf: Shelf, operations: seq<Operation>, op: Operation, upper: Byte -> Byte,
                                      front: Byte)
    requires AllPossible(operations, shelf) && op.Save? && op.data != [] && QuotedPrintable.UpperKeepsHex(upper)
    requires Possible(op, ApplyAll(shelf, operations))
    requires 0 <= op.iPart < |ApplyAll(shelf, operations).mails[op.id].bodies|
    ensures
      var before := ApplyAll(shelf, operations).mails[op.id].bodies[op.iPart];
      var after := Apply(ApplyAll(shelf, operations), op).mails[op.id].bodies[op.iPart];
      && MimeCodec.Readable(after.bytes, after.encoding)
      && PartData(after, upper, front) == MimeCodec.Restored(op.data, before.encoding, op.footer)
      && (PartData(after, upper, front) == op.data <==> MimeCodec.Survives(op.data, before.encoding, op.footer))
  {
    var before := ApplyAll(shelf, operations).mails[op.id].bodies[op.iPart];
    MimeCodec.BodyIsReadable(op.data, before.encoding, op.footer);
    MimeCodec.Restores(op.data, before.encoding, op.footer, upper, front);
    MimeCodec.SurvivesIff(op.data, before.encoding, op.footer, upper, front);
  }
}
