/**
 The output side of `SSLSocket`: a list of buffers, the number of bytes of the first one that
 have been written already, and the total that is still to be written. Small writes are
 gathered into one buffer and small buffers into one call of the device. The device accepts
 some prefix of what it is offered.
 */
module WriteQueue {
  import opened Bytes
  import opened Common

  /** In the order of the enumeration: the last three may write. */
  datatype State = Idle | HostLookup | Connecting | Connected | Closing

  predicate MayFlush(s: State) {
    s == Connecting || s == Connected || s == Closing
  }

  // -------------------------------------------------------------------------
  // The plain byte queue that the list of buffers stands for

  datatype Fifo = Fifo(
    sent: seq<Byte>,      // what the device has accepted
    pending: seq<Byte>,   // what it is still to be offered
    state: State,
    isOpen: bool,         // QIODevice's open flag
    hasSocket: bool,      // a device is attached
    notifiers: bool)      // and so are its notifiers

  /** What the program or the environment does next; `alive` is what the device answers to isOpen(). */
  datatype Op =
    | Write(data: seq<Byte>, alive: bool)
    | Flush(alive: bool)
    | ClearPending
    | Close
    | Established
    | Refused
    | Lost

  predicate Accepts(q: Fifo, data: seq<Byte>) {
    q.isOpen && data != [] && q.state != Closing && q.state != Idle
  }

  /** Large writes go to the device at once. */
  predicate WriteNow(pending: nat, len: nat) {
    pending + len >= 1400 || len > 512
  }

  /** The device takes the first n bytes. */
  function Moved(q: Fifo, n: nat): Fifo
    requires n <= |q.pending|
  {
    q.(sent := q.sent + q.pending[..n], pending := q.pending[n..])
  }

  /** Bytes pass from the pending to the sent ones, none unless the state allows it. */
  ghost predicate Passes(q: Fifo, q': Fifo) {
    && q' == q.(sent := q'.sent, pending := q'.pending)
    && q.sent <= q'.sent && q'.sent + q'.pending == q.sent + q.pending
    && (q'.sent != q.sent ==> MayFlush(q.state))
  }

  /** After writing, a delayed close may be due, or the connection may be gone. */
  function Settled(q: Fifo, alive: bool): Fifo {
    if q.state == Closing && q.pending == [] then q.(state := Idle, isOpen := false, notifiers := false)
    else if !alive then q.(state := Idle, pending := [], notifiers := false)
    else q
  }

  ghost predicate FlushesTo(q: Fifo, alive: bool, q': Fifo) {
    if !q.hasSocket then q' == q
    else exists n: nat :: n <= |q.pending| && (n > 0 ==> MayFlush(q.state)) && q' == Settled(Moved(q, n), alive)
  }

  function Closed(q: Fifo): Fifo {
    if !q.isOpen || q.state == Idle || q.state == Closing || !q.notifiers then q
    else if q.hasSocket && q.pending != [] then q.(state := Closing)
    else q.(state := Idle, pending := [], isOpen := false, notifiers := false)
  }

  ghost predicate Next(q: Fifo, op: Op, q': Fifo) {
    match op
    case Write(data, alive) =>
      var grown := q.(pending := q.pending + data);
      if !Accepts(q, data) then q' == q
      else if WriteNow(|q.pending|, |data|) then FlushesTo(grown, alive, q')
      else q' == grown
    case Flush(alive) => FlushesTo(q, alive, q')
    case ClearPending => q' == q.(pending := [])
    case Close => q' == Closed(q)
    case Established => q' == if q.state == Connecting then q.(state := Connected) else q
    case Refused => q' == if q.state == Connecting then q.(state := Idle) else q
    case Lost => q' == q.(state := Idle, pending := [], notifiers := false)
  }

  ghost predicate IsTrace(trace: seq<Fifo>, ops: seq<Op>) {
    |trace| == |ops| + 1 && forall i :: 0 <= i < |ops| ==> Next(trace[i], ops[i], trace[i + 1])
  }

  // -------------------------------------------------------------------------
  // What every run keeps

  /** The bytes that a step accepts from the program. */
  function Accepted(q: Fifo, op: Op): seq<Byte> {
    if op.Write? && Accepts(q, op.data) then op.data else []
  }

  function AllAccepted(trace: seq<Fifo>, ops: seq<Op>): seq<Byte>
    requires |trace| == |ops| + 1
    decreases |ops|
  {
    if ops == [] then [] else AllAccepted(trace[..|ops|], ops[..|ops| - 1]) + Accepted(trace[|ops| - 1], ops[|ops| - 1])
  }

  /** The steps that may give data up: the program says so, or the connection is gone. */
  predicate MayDiscard(q: Fifo, op: Op) {
    match op
    case Write(_, alive) => !alive
    case Flush(alive) => !alive
    case ClearPending => true
    case Close => !q.hasSocket
    case Lost => true
    case _ => false
  }

  ghost predicate NothingDiscarded(trace: seq<Fifo>, ops: seq<Op>)
    requires |trace| == |ops| + 1
  {
    forall i :: 0 <= i < |ops| ==> !MayDiscard(trace[i], ops[i])
  }

  lemma FlushConserves(q: Fifo, q': Fifo)
    requires FlushesTo(q, true, q')
    ensures q'.sent + q'.pending == q.sent + q.pending && q'.hasSocket == q.hasSocket
  {
    if q.hasSocket {
      var n: nat :| n <= |q.pending| && (n > 0 ==> MayFlush(q.state)) && q' == Settled(Moved(q, n), true);
      MoveConserves(q.sent, q.pending, n);
    }
  }

  lemma MoveConserves(sent: seq<Byte>, pending: seq<Byte>, n: nat)
    requires n <= |pending|
    ensures sent + pending[..n] + pending[n..] == sent + pending
  {
    assert pending == pending[..n] + pending[n..];
  }

  lemma StepConserves(q: Fifo, op: Op, q': Fifo)
    requires Next(q, op, q') && !MayDiscard(q, op)
    ensures q'.sent + q'.pending == q.sent + q.pending + Accepted(q, op)
  {
    match op
    case Write(data, alive) =>
      if Accepts(q, data) {
        assert q.sent + (q.pending + data) == q.sent + q.pending + data;
        if WriteNow(|q.pending|, |data|) {
          FlushConserves(q.(pending := q.pending + data), q');
        }
      }
    case Flush(alive) =>
      FlushConserves(q, q');
    case _ =>
  }

  /** First in, first out: what was sent and what is pending is what was accepted, in order. */
  lemma {:induction false} Conservation(trace: seq<Fifo>, ops: seq<Op>)
    requires IsTrace(trace, ops) && NothingDiscarded(trace, ops)
    ensures
      var first, last := trace[0], trace[|ops|];
      last.sent + last.pending == first.sent + first.pending + AllAccepted(trace, ops)
    decreases |ops|
  {
    var k := |ops| - 1;
    if k < 0 {
      assert trace[0].sent + trace[0].pending + [] == trace[0].sent + trace[0].pending;
    } else {
      Shorter(trace, ops);
      Conservation(trace[..k + 1], ops[..k]);
      StepConserves(trace[k], ops[k], trace[k + 1]);
      var start, before := trace[0].sent + trace[0].pending, AllAccepted(trace[..k + 1], ops[..k]);
      assert start + before + Accepted(trace[k], ops[k]) == start + (before + Accepted(trace[k], ops[k]));
    }
  }

  lemma Shorter(trace: seq<Fifo>, ops: seq<Op>)
    requires IsTrace(trace, ops) && ops != []
    ensures IsTrace(trace[..|ops|], ops[..|ops| - 1])
    ensures NothingDiscarded(trace, ops) ==> NothingDiscarded(trace[..|ops|], ops[..|ops| - 1])
  {
    var t, o := trace[..|ops|], ops[..|ops| - 1];
    forall i | 0 <= i < |o| ensures Next(t[i], o[i], t[i + 1]) {
      assert t[i] == trace[i] && o[i] == ops[i] && t[i + 1] == trace[i + 1];
    }
  }

  /** Nothing that was sent is taken back, whatever happens. */
  lemma StepSends(q: Fifo, op: Op, q': Fifo)
    requires Next(q, op, q')
    ensures q.sent <= q'.sent
  {
  }

  lemma {:induction false} SentOnlyGrows(trace: seq<Fifo>, ops: seq<Op>, i: nat, j: nat)
    requires IsTrace(trace, ops) && i <= j <= |ops|
    ensures trace[i].sent <= trace[j].sent
    decreases j - i
  {
    if i < j {
      SentOnlyGrows(trace, ops, i, j - 1);
      StepSends(trace[j - 1], ops[j - 1], trace[j]);
    }
  }

  /** A closing or closed socket accepts nothing and does not come back. */
  lemma StepCloses(q: Fifo, op: Op, q': Fifo)
    requires Next(q, op, q') && (q.state == Closing || q.state == Idle)
    ensures (q'.state == Closing || q'.state == Idle) && Accepted(q, op) == []
    ensures q.state == Closing && q'.state == Idle && !MayDiscard(q, op) ==> q'.pending == []
    ensures q.state == Idle ==> q'.state == Idle && (q.pending == [] ==> q'.pending == [])
  {
  }

  ghost predicate ClosingDown(q: Fifo) {
    q.state == Closing || (q.state == Idle && q.pending == [])
  }

  lemma {:induction false} StaysClosing(trace: seq<Fifo>, ops: seq<Op>)
    requires IsTrace(trace, ops) && NothingDiscarded(trace, ops) && ClosingDown(trace[0])
    ensures ClosingDown(trace[|ops|]) && AllAccepted(trace, ops) == []
    decreases |ops|
  {
    if ops != [] {
      Shorter(trace, ops);
      StaysClosing(trace[..|ops|], ops[..|ops| - 1]);
      StepCloses(trace[|ops| - 1], ops[|ops| - 1], trace[|ops|]);
    }
  }

  /**
   A delayed close ends only when everything that was pending has been delivered, unless the
   program cleared it or the connection went away.
   */
  lemma DelayedCloseDelivers(trace: seq<Fifo>, ops: seq<Op>)
    requires IsTrace(trace, ops) && NothingDiscarded(trace, ops) && trace[0].state == Closing
    ensures
      var first, last := trace[0], trace[|ops|];
      && (last.state == Closing || last.state == Idle)
      && last.sent + last.pending == first.sent + first.pending
      && (last.state == Idle ==> last.sent == first.sent + first.pending)
  {
    StaysClosing(trace, ops);
    Conservation(trace, ops);
    var start := trace[0].sent + trace[0].pending;
    assert start + [] == start;
    assert trace[|ops|].pending == [] ==> trace[|ops|].sent + trace[|ops|].pending == trace[|ops|].sent;
  }

  // -------------------------------------------------------------------------
  // The list of buffers

  predicate Buffers(wba: seq<seq<Byte>>, windex: nat) {
    if wba == [] then windex == 0 else windex < |wba[0]| && forall i :: 0 <= i < |wba| ==> wba[i] != []
  }

  function PendingOf(wba: seq<seq<Byte>>, windex: nat): seq<Byte>
    requires Buffers(wba, windex)
  {
    if wba == [] then [] else wba[0][windex..] + Concat(wba[1..])
  }

  lemma ConcatPush(wba: seq<seq<Byte>>, a: seq<Byte>)
    ensures Concat(wba + [a]) == Concat(wba) + a
  {
    ConcatSplit(wba + [a], |wba|);
    assert (wba + [a])[..|wba|] == wba && (wba + [a])[|wba|..] == [a];
    assert [a][1..] == [] && Concat([a]) == a + Concat([a][1..]);
  }

  /** A new buffer at the end. */
  lemma AppendBuffer(wba: seq<seq<Byte>>, windex: nat, data: seq<Byte>)
    requires Buffers(wba, windex) && data != []
    ensures Buffers(wba + [data], windex) && PendingOf(wba + [data], windex) == PendingOf(wba, windex) + data
  {
    if wba == [] {
      assert [data][1..] == [];
    } else {
      assert (wba + [data])[1..] == wba[1..] + [data];
      ConcatPush(wba[1..], data);
      assert wba[0][windex..] + (Concat(wba[1..]) + data) == wba[0][windex..] + Concat(wba[1..]) + data;
    }
  }

  /** More bytes in the last buffer. */
  lemma GrowBuffer(wba: seq<seq<Byte>>, windex: nat, data: seq<Byte>)
    requires Buffers(wba, windex) && wba != []
    ensures
      var grown := wba[|wba| - 1 := wba[|wba| - 1] + data];
      Buffers(grown, windex) && PendingOf(grown, windex) == PendingOf(wba, windex) + data
  {
    var n := |wba| - 1;
    var a, grown := wba[n], wba[n := wba[n] + data];
    if n == 0 {
      assert (a + data)[windex..] == a[windex..] + data;
      assert grown[1..] == [] && wba[1..] == [];
    } else {
      var mid := wba[1..n];
      assert wba[1..] == mid + [a] && grown[1..] == mid + [a + data];
      ConcatPush(mid, a);
      ConcatPush(mid, a + data);
      assert wba[0][windex..] + (Concat(mid) + (a + data)) == wba[0][windex..] + (Concat(mid) + a) + data;
    }
  }

  /** The first buffer is used up. */
  lemma DropBuffer(wba: seq<seq<Byte>>, windex: nat)
    requires Buffers(wba, windex) && wba != []
    ensures Buffers(wba[1..], 0)
    ensures PendingOf(wba[1..], 0) == PendingOf(wba, windex)[|wba[0]| - windex..]
  {
    var rest := wba[1..];
    assert (wba[0][windex..] + Concat(rest))[|wba[0]| - windex..] == Concat(rest);
    if rest != [] {
      assert rest[0][0..] == rest[0];
    }
  }

  lemma AdvanceInBuffer(wba: seq<seq<Byte>>, windex: nat, n: nat)
    requires Buffers(wba, windex) && wba != [] && windex + n < |wba[0]|
    ensures Buffers(wba, windex + n) && PendingOf(wba, windex + n) == PendingOf(wba, windex)[n..]
  {
    assert (wba[0][windex..] + Concat(wba[1..]))[n..] == wba[0][windex + n..] + Concat(wba[1..]);
  }

  lemma SliceSlice(s: seq<Byte>, a: nat, b: nat)
    requires a + b <= |s|
    ensures s[a..][b..] == s[a + b..]
  {
  }

  /** The first k buffers, without the part of the first one that is done. */
  function Front(wba: seq<seq<Byte>>, windex: nat, k: nat): seq<Byte>
    requires Buffers(wba, windex) && k <= |wba|
  {
    if k == 0 then [] else wba[0][windex..] + Concat(wba[1..k])
  }

  lemma FrontGrows(wba: seq<seq<Byte>>, windex: nat, k: nat)
    requires Buffers(wba, windex) && k < |wba|
    ensures Front(wba, windex, k + 1) == Front(wba, windex, k) + (if k == 0 then wba[0][windex..] else wba[k])
  {
    if k == 0 {
      assert wba[1..1] == [];
    } else {
      assert wba[1..k + 1] == wba[1..k] + [wba[k]];
      ConcatPush(wba[1..k], wba[k]);
      assert wba[0][windex..] + (Concat(wba[1..k]) + wba[k]) == wba[0][windex..] + Concat(wba[1..k]) + wba[k];
    }
  }

  /** What buffer n adds. */
  function Chunk(wba: seq<seq<Byte>>, windex: nat, n: nat): seq<Byte>
    requires Buffers(wba, windex) && n < |wba|
  {
    if n == 0 then wba[0][windex..] else wba[n]
  }

  ghost predicate Gathered(wba: seq<seq<Byte>>, windex: nat, n: nat, out: seq<Byte>) {
    Buffers(wba, windex) && n <= |wba| && out == Front(wba, windex, n) && (n == 0 <==> out == [])
  }

  lemma {:induction false} GatherMore(wba: seq<seq<Byte>>, windex: nat, n: nat, out: seq<Byte>)
    requires Gathered(wba, windex, n, out) && n < |wba|
    ensures wba[n][if n == 0 then windex else 0..] == Chunk(wba, windex, n) != []
    ensures Gathered(wba, windex, n + 1, out + Chunk(wba, windex, n))
  {
    FrontGrows(wba, windex, n);
    assert wba[n][0..] == wba[n];
  }

  lemma {:induction false} FrontIsPrefix(wba: seq<seq<Byte>>, windex: nat, k: nat)
    requires Buffers(wba, windex) && k <= |wba|
    ensures Front(wba, windex, k) <= PendingOf(wba, windex)
  {
    if k > 0 {
      ConcatSplit(wba[1..], k - 1);
      assert wba[1..][..k - 1] == wba[1..k];
      Assoc(wba[0][windex..], Concat(wba[1..k]), Concat(wba[1..][k - 1..]));
      PrefixOfSum(Front(wba, windex, k), Concat(wba[1..][k - 1..]));
    }
  }

  class Socket {
    var wba: seq<seq<Byte>>
    var windex: nat
    var wsize: nat
    var state: State
    var isOpen: bool
    var hasSocket: bool
    var notifiers: bool
    var calls: nat
    /** How many bytes the device is willing to take at each call; negative for an error. */
    const willing: nat -> int
    /** What the device has accepted, and what the buffers hold. */
    ghost var sent: seq<Byte>
    ghost var queued: seq<Byte>

    ghost predicate Valid()
      reads this
    {
      Buffers(wba, windex) && queued == PendingOf(wba, windex) && wsize == |queued|
    }

    ghost function View(): Fifo
      reads this
    {
      Fifo(sent, queued, state, isOpen, hasSocket, notifiers)
    }

    constructor (state: State, willing: nat -> int)
      ensures Valid() && View() == Fifo([], [], state, true, true, true) && this.willing == willing
    {
      wba, windex, wsize := [], 0, 0;
      this.state, isOpen, hasSocket, notifiers := state, true, true, true;
      calls, this.willing, sent, queued := 0, willing, [], [];
    }

    /** The device: it takes a prefix of what it is offered. */
    method DeviceWrite(out: seq<Byte>) returns (nwritten: int)
      modifies this`sent, this`calls
      ensures nwritten <= |out| && calls == old(calls) + 1
      ensures sent == old(sent) + (if nwritten > 0 then out[..nwritten] else [])
      ensures nwritten < |out| ==> nwritten == willing(old(calls))
    {
      nwritten := willing(calls);
      if nwritten > |out| {
        nwritten := |out|;
      }
      calls := calls + 1;
      sent := sent + (if nwritten > 0 then out[..nwritten] else []);
    }

    method ConsumeWriteBuf(nbytes: nat) returns (ok: bool)
      requires Valid()
      modifies this`wba, this`windex, this`wsize, this`queued
      ensures Valid() && ok == (0 < nbytes <= old(wsize))
      ensures View() == if ok then old(View()).(pending := old(View()).pending[nbytes..]) else old(View())
    {
      if nbytes <= 0 || nbytes > wsize {
        return false;
      }
      wsize := wsize - nbytes;
      Skip(nbytes);
      queued := queued[nbytes..];
      ok := true;
    }

    /** The loop of `consumeWriteBuf`: whole buffers go, the last one may be used in part. */
    method Skip(nbytes: nat)
      requires Buffers(wba, windex) && nbytes <= |PendingOf(wba, windex)|
      modifies this`wba, this`windex
      ensures Buffers(wba, windex) && PendingOf(wba, windex) == old(PendingOf(wba, windex))[nbytes..]
    {
      ghost var before := PendingOf(wba, windex);
      var left: nat := nbytes;
      while left > 0
        invariant Buffers(wba, windex) && left <= nbytes && PendingOf(wba, windex) == before[nbytes - left..]
      {
        var used := SkipInFirst(left);
        SliceSlice(before, nbytes - left, used);
        left := left - used;
      }
    }

    /** One round: the first buffer goes, or part of it is used. */
    method SkipInFirst(left: nat) returns (used: nat)
      requires Buffers(wba, windex) && 0 < left <= |PendingOf(wba, windex)|
      modifies this`wba, this`windex
      ensures Buffers(wba, windex) && 0 < used <= left
      ensures PendingOf(wba, windex) == old(PendingOf(wba, windex))[used..]
    {
      if windex + left >= |wba[0]| {
        used := |wba[0]| - windex;
        DropBuffer(wba, windex);
        wba, windex := wba[1..], 0;
      } else {
        used := left;
        AdvanceInBuffer(wba, windex, left);
        windex := windex + left;
      }
    }

    /** Joins buffers for one call of the device: the rest of the first one and then whole ones. */
    method Gather() returns (out: seq<Byte>, ghost k: nat)
      requires Valid() && wba != [] && |wba[0]| - windex < 1460
      ensures 0 < k <= |wba| && out == Front(wba, windex, k) && 0 < |out| < 65536
      ensures k < |wba| ==> |out| + |wba[k]| >= 65536
    {
      out := [];
      var n, j := 0, windex;
      var s := |wba[0]| - j;
      while n < |wba| && |out| + s < 65536
        invariant Gathered(wba, windex, n, out) && |out| < 65536
        invariant n < |wba| ==> j == (if n == 0 then windex else 0) && s == |Chunk(wba, windex, n)|
      {
        GatherMore(wba, windex, n, out);
        out := out + wba[n][j..];
        j, n := 0, n + 1;
        s := if n < |wba| then |wba[n]| else 0;
      }
      k := n;
    }

    /** One round of `flush`: one call of the device. */
    method Offer() returns (nwritten: int, i: nat, ghost m: nat)
      requires Valid() && wsize > 0
      modifies this`wba, this`windex, this`wsize, this`queued, this`sent, this`calls
      ensures Valid() && 0 < i <= old(wsize) && nwritten <= i && calls == old(calls) + 1
      ensures nwritten < i ==> nwritten == willing(old(calls))
      ensures m == (if nwritten > 0 then nwritten else 0) && wsize == old(wsize) - m
      ensures m <= |old(View()).pending| && View() == Moved(old(View()), m)
    {
      ghost var before := View();
      var out: seq<Byte>;
      if |wba[0]| - windex < 1460 {
        ghost var k;
        out, k := Gather();
        FrontIsPrefix(wba, windex, k);
      } else {
        out := wba[0][windex..];
        FrontIsPrefix(wba, windex, 1);
        assert wba[1..1] == [] && out + [] == out;
      }
      i := |out|;
      nwritten := DeviceWrite(out);
      m := if nwritten > 0 then nwritten else 0;
      if nwritten > 0 {
        assert out[..nwritten] == before.pending[..nwritten];
        var ok := ConsumeWriteBuf(nwritten);
      } else {
        assert before.sent + [] == before.sent && before.pending[0..] == before.pending && before.pending[..0] == [];
      }
    }

    /** The last call of the device took less than what was to be written. */
    ghost predicate Short(calls0: nat, wsize0: nat)
      reads this
    {
      calls > calls0 && willing(calls - 1) < wsize0
    }

    /** One round of `flush`, the queue having been `before` at its beginning. */
    method Round(ghost before: Fifo) returns (full: bool)
      requires Valid() && MayFlush(state) && wsize > 0 && Passes(before, View())
      modifies this`wba, this`windex, this`wsize, this`queued, this`sent, this`calls
      ensures Valid() && Passes(before, View())
      ensures wsize <= old(wsize) && (!full ==> wsize < old(wsize)) && calls == old(calls) + 1
      ensures full ==> willing(old(calls)) < old(wsize)
    {
      ghost var now := View();
      var nwritten, i;
      ghost var m;
      nwritten, i, m := Offer();
      PassesMore(before, now, m, View());
      full := nwritten < i;
    }

    /** The loop of `flush`. */
    method FlushLoop() returns (full: bool)
      requires Valid()
      modifies this`wba, this`windex, this`wsize, this`queued, this`sent, this`calls
      ensures Valid() && Passes(old(View()), View())
      ensures MayFlush(state) && wsize > 0 ==> full
      ensures full ==> Short(old(calls), old(wsize))
    {
      ghost var before := View();
      full := false;
      while !full && MayFlush(state) && wsize > 0
        invariant Valid() && Passes(before, View()) && calls >= old(calls) && wsize <= old(wsize)
        invariant full ==> Short(old(calls), old(wsize))
        decreases !full, wsize
      {
        full := Round(before);
      }
    }

    /** The end of `flush`: a delayed close, or the end of the connection. */
    method Settle(alive: bool)
      requires Valid()
      modifies this`wba, this`windex, this`wsize, this`queued, this`state, this`isOpen, this`notifiers
      ensures Valid() && View() == Settled(old(View()), alive)
      ensures MayFlush(state) && wsize > 0 ==> MayFlush(old(state)) && old(wsize) > 0
    {
      if state == Closing && wsize == 0 {
        isOpen, notifiers := false, false;
        wba, windex, wsize, queued := [], 0, 0, [];
        state := Idle;
      } else if !alive {
        state := Idle;
        notifiers := false;
        wba, windex, wsize, queued := [], 0, 0, [];
      }
    }

    /** Writing, and what follows from it; `moved` is the queue in between. */
    method WriteAndSettle(alive: bool) returns (full: bool, ghost moved: Fifo)
      requires Valid()
      modifies this
      ensures Valid() && Passes(old(View()), moved) && View() == Settled(moved, alive)
      ensures full ==> Short(old(calls), old(wsize))
      ensures MayFlush(moved.state) && moved.pending != [] ==> full
    {
      full := FlushLoop();
      moved := View();
      Settle(alive);
    }

    /** Afterwards something is left only if the device took less than it was offered. */
    method Flush(alive: bool)
      requires Valid()
      modifies this
      ensures Valid() && FlushesTo(old(View()), alive, View())
      ensures hasSocket && MayFlush(state) && wsize > 0 ==> Short(old(calls), old(wsize))
    {
      if hasSocket {
        ghost var before := View();
        var full;
        ghost var moved;
        full, moved := WriteAndSettle(alive);
        Flushes(before, moved, alive);
      }
    }

    /** Puts data behind what is pending, in the last buffer if that stays small. */
    method Enqueue(data: seq<Byte>)
      requires Valid() && data != []
      modifies this`wba, this`wsize, this`queued
      ensures Valid() && View() == old(View()).(pending := old(View()).pending + data)
    {
      var last := |wba| - 1;
      if last >= 0 && |wba[last]| + |data| < 128 {
        GrowBuffer(wba, windex, data);
        wba := wba[last := wba[last] + data];
      } else {
        AppendBuffer(wba, windex, data);
        wba := wba + [data];
      }
      wsize := wsize + |data|;
      queued := queued + data;
    }

    method WriteBlock(data: seq<Byte>, alive: bool) returns (r: int)
      requires Valid()
      modifies this
      ensures Valid() && Next(old(View()), Write(data, alive), View())
      ensures r == if !old(isOpen) then -1 else if Accepts(old(View()), data) then |data| else 0
    {
      if !isOpen {
        return -1;
      }
      if data == [] || state == Closing || state == Idle {
        return 0;
      }
      var writeNow := wsize + |data| >= 1400 || |data| > 512;
      Enqueue(data);
      if writeNow {
        Flush(alive);
      }
      r := |data|;
    }

    method ClearPendingData()
      modifies this`wba, this`windex, this`wsize, this`queued
      ensures Valid() && View() == Fifo(old(sent), [], old(state), old(isOpen), old(hasSocket), old(notifiers))
    {
      wba := [];
      windex, wsize, queued := 0, 0, [];
    }

    /** `SSLSocketPrivate::connectionClosed`. */
    method ConnectionClosed()
      modifies this`wba, this`windex, this`wsize, this`queued, this`state, this`notifiers
      ensures Valid() && View() == Fifo(old(sent), [], Idle, old(isOpen), old(hasSocket), false)
    {
      state, notifiers := Idle, false;
      wba := [];
      windex, wsize, queued := 0, 0, [];
    }

    method CloseSocket()
      requires Valid()
      modifies this`wba, this`windex, this`wsize, this`queued, this`state, this`isOpen, this`notifiers
      ensures Valid() && View() == Closed(old(View()))
    {
      if !isOpen || state == Idle || state == Closing || !notifiers {
        return;
      }
      if hasSocket && wsize != 0 {
        state := Closing;
        return;
      }
      isOpen, notifiers := false, false;
      wba, windex, wsize, queued := [], 0, 0, [];
      state := Idle;
    }

    method Perform(op: Op)
      requires Valid()
      modifies this
      ensures Valid() && Next(old(View()), op, View())
    {
      match op
      case Write(data, alive) =>
        var r := WriteBlock(data, alive);
      case Flush(alive) => Flush(alive);
      case ClearPending => ClearPendingData();
      case Close => CloseSocket();
      case Established => if state == Connecting { state := Connected; }
      case Refused => if state == Connecting { state := Idle; }
      case Lost => ConnectionClosed();
    }

    /** Every run of the buffers is a run of the byte queue. */
    method Run(ops: seq<Op>) returns (ghost trace: seq<Fifo>)
      requires Valid()
      modifies this
      ensures Valid() && IsTrace(trace, ops) && trace[0] == old(View()) && trace[|ops|] == View()
    {
      trace := [View()];
      for i := 0 to |ops|
        invariant Valid() && IsTrace(trace, ops[..i]) && trace[0] == old(View()) && trace[i] == View()
      {
        Perform(ops[i]);
        LongerTrace(trace, ops, i, View());
        trace := trace + [View()];
      }
      assert ops[..|ops|] == ops;
    }
  }

  lemma LongerTrace(trace: seq<Fifo>, ops: seq<Op>, i: nat, q: Fifo)
    requires i < |ops| && IsTrace(trace, ops[..i]) && Next(trace[i], ops[i], q)
    ensures IsTrace(trace + [q], ops[..i + 1])
  {
    var longer := trace + [q];
    forall j | 0 <= j < i + 1 ensures Next(longer[j], ops[..i + 1][j], longer[j + 1]) {
      assert j < i ==> ops[..i][j] == ops[j];
    }
  }

  lemma PassesMore(q: Fifo, now: Fifo, m: nat, after: Fifo)
    requires Passes(q, now) && m <= |now.pending| && MayFlush(now.state) && after == Moved(now, m)
    ensures Passes(q, after)
  {
    MoveConserves(now.sent, now.pending, m);
    PrefixOfSum(now.sent, now.pending[..m]);
  }

  /** What has passed is the front of what was pending. */
  lemma PassesFront(q: Fifo, q': Fifo) returns (n: nat)
    requires Passes(q, q')
    ensures n <= |q.pending| && (n > 0 ==> MayFlush(q.state)) && q' == Moved(q, n)
  {
    n := |q'.sent| - |q.sent|;
    var all := q.sent + q.pending;
    assert |q'.sent| + |q'.pending| == |all|;
    assert q'.sent == all[..|q'.sent|] && q'.pending == all[|q'.sent|..];
    CutSum(q.sent, q.pending, n);
  }

  lemma Flushes(q: Fifo, moved: Fifo, alive: bool)
    requires q.hasSocket && Passes(q, moved)
    ensures FlushesTo(q, alive, Settled(moved, alive))
  {
    var n := PassesFront(q, moved);
  }
}
