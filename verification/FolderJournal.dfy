/**
 The index file of a mail folder: a version mark and then one entry per saved record.
 Changed records are appended, so the last entry for an id is the one that counts.
 */
module FolderJournal {
  import opened FolderIndex

  datatype Item = Version(current: bool) | Entry(record: Record)

  /** The entries read in order, each replacing an earlier one with the same id. */
  function ReplayEntries(items: seq<Item>, index: map<Id, Record>): map<Id, Record> {
    if items == [] then index
    else if items[0].Version? then ReplayEntries(items[1..], index)
    else ReplayEntries(items[1..], index[items[0].record.id := items[0].record])
  }

  predicate Readable(journal: seq<Item>) {
    journal != [] && journal[0] == Version(true)
  }

  /** The index that a restarted folder gets; a file with a foreign version is discarded. */
  function Replay(journal: seq<Item>): map<Id, Record> {
    if Readable(journal) then ReplayEntries(journal[1..], map[]) else map[]
  }

  function UnreadIds(index: map<Id, Record>): set<Id> {
    set id | id in index && index[id].unread
  }

  function CountUnread(index: map<Id, Record>): nat {
    |UnreadIds(index)|
  }

  /** Replacing a record changes the count by what it adds and what it takes away. */
  lemma CountReplace(index: map<Id, Record>, id: Id, r: Record)
    ensures CountUnread(index[id := r]) ==
            CountUnread(index) - (if id in index && index[id].unread then 1 else 0) + (if r.unread then 1 else 0)
  {
    var rest := UnreadIds(index) - {id};
    assert UnreadIds(index[id := r]) == if r.unread then rest + {id} else rest;
    assert id in UnreadIds(index) ==> UnreadIds(index) == rest + {id};
    assert id !in UnreadIds(index) ==> UnreadIds(index) == rest;
  }

  lemma CountRemove(index: map<Id, Record>, id: Id)
    requires id in index
    ensures CountUnread(index - {id}) == CountUnread(index) - (if index[id].unread then 1 else 0)
  {
    var rest := UnreadIds(index) - {id};
    assert UnreadIds(index - {id}) == rest;
    assert index[id].unread ==> UnreadIds(index) == rest + {id};
    assert !index[id].unread ==> UnreadIds(index) == rest;
  }

  lemma CountSame(a: map<Id, Record>, b: map<Id, Record>)
    requires a.Keys == b.Keys && forall id :: id in a ==> a[id].unread == b[id].unread
    ensures CountUnread(a) == CountUnread(b)
  {
    assert UnreadIds(a) == UnreadIds(b);
  }

  lemma {:induction false} ReplayOneMore(items: seq<Item>, index: map<Id, Record>, r: Record)
    ensures ReplayEntries(items + [Entry(r)], index) == ReplayEntries(items, index)[r.id := r]
    decreases |items|
  {
    if items == [] {
      assert items + [Entry(r)] == [Entry(r)];
      assert [Entry(r)][1..] == [];
    } else {
      assert (items + [Entry(r)])[1..] == items[1..] + [Entry(r)];
      ReplayOneMore(items[1..], if items[0].Version? then index else index[items[0].record.id := items[0].record], r);
    }
  }

  /** Appending an entry to a readable journal updates the index by it. */
  lemma ReplayAppend(journal: seq<Item>, r: Record)
    requires Readable(journal)
    ensures Replay(journal + [Entry(r)]) == Replay(journal)[r.id := r]
  {
    assert (journal + [Entry(r)])[1..] == journal[1..] + [Entry(r)];
    ReplayOneMore(journal[1..], map[], r);
  }

  function Entries(index: map<Id, Record>, order: seq<Id>): seq<Item>
    requires forall i :: 0 <= i < |order| ==> order[i] in index
  {
    seq(|order|, i requires 0 <= i < |order| => Entry(index[order[i]]))
  }

  lemma {:induction false} ReplayKeys(index: map<Id, Record>, order: seq<Id>)
    requires forall i :: 0 <= i < |order| ==> order[i] in index && index[order[i]].id == order[i]
    ensures
      var got := ReplayEntries(Entries(index, order), map[]);
      && (forall id :: id in got <==> id in order)
      && (forall id :: id in got ==> got[id] == index[id])
  {
    if order == [] {
      assert Entries(index, order) == [];
    } else {
      var n := |order| - 1;
      ReplayKeys(index, order[..n]);
      assert Entries(index, order) == Entries(index, order[..n]) + [Entry(index[order[n]])];
      ReplayOneMore(Entries(index, order[..n]), map[], index[order[n]]);
      assert order == order[..n] + [order[n]];
    }
  }

  /** Writing the whole index, in any order, and reading it back gives the index. */
  lemma ReplayWhole(index: map<Id, Record>, order: seq<Id>)
    requires IsOrder(order, index) && forall id :: id in index ==> index[id].id == id
    ensures Replay([Version(true)] + Entries(index, order)) == index
  {
    assert ([Version(true)] + Entries(index, order))[1..] == Entries(index, order);
    ReplayKeys(index, order);
  }
}
