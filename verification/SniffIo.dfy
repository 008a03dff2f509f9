/**
 The monitoring path of `src/transport/sniff_io.rs`: the byte-bounded channel that drops its oldest chunks, and the
 reader on top of it.  Each method of the channel holds its lock throughout, so it is one atomic step; a poll of the
 reader is two, a step of the channel and a later look at the producer, and producers may act in between.
 */
module SniffIo {
  import opened Wire

  type Chunk = seq<Byte>

  datatype IoError = TransportError(code: nat) | ChannelClosed | ReaderTerminated

  /** Drop chunks from the front until the rest fits. */
  function FitSuffix(chunks: seq<Chunk>, capacity: nat): (kept: seq<Chunk>)
    ensures |kept| <= |chunks| && kept == chunks[|chunks| - |kept|..]
    ensures TotalSize(kept) <= capacity && TotalSize(kept) <= TotalSize(chunks)
  {
    if TotalSize(chunks) <= capacity then chunks else FitSuffix(chunks[1..], capacity)
  }

  /** It is the longest suffix that fits. */
  lemma {:induction false} FitSuffixLongest(chunks: seq<Chunk>, capacity: nat, k: nat)
    requires k < |chunks| - |FitSuffix(chunks, capacity)|
    ensures TotalSize(chunks[k..]) > capacity
  {
    if k == 0 {
      assert chunks[0..] == chunks;
    } else {
      assert chunks[k..] == chunks[1..][k - 1..];
      FitSuffixLongest(chunks[1..], capacity, k - 1);
    }
  }

  // ── The channel as a state machine ───────────────────────────────────────

  /** The channel; a waker is the identity of a parked consumer. */
  datatype Channel = Channel(
    queue: seq<Chunk>,
    totalBytes: nat,
    capacity: nat,
    droppedChunks: nat,
    droppedBytes: nat,
    closed: bool,
    error: Option<IoError>,
    waker: Option<nat>)

  function New(capacity: nat): Channel {
    Channel([], 0, capacity, 0, 0, false, None, None)
  }

  /** The byte count is right, and a consumer is parked only when there is nothing to see. */
  predicate Counted(c: Channel) {
    c.totalBytes == TotalSize(c.queue) && (c.waker.Some? ==> c.queue == [] && c.error.None? && !c.closed)
  }

  predicate Sound(c: Channel) {
    Counted(c) && c.totalBytes <= c.capacity
  }

  datatype Op =
    | Send(chunk: Chunk)
    | SetCapacity(capacity: nat)
    | SendError(error: IoError)
    | Close
    | Poll(waker: nat)

  datatype Reply =
    | Done(woken: Option<nat>)
    | Delivered(chunk: Chunk)
    | Failed(error: IoError)
    | Parked

  /** Give the channel the longest fitting suffix of `chunks`, counting what is left out as dropped. */
  function Evicted(c: Channel, chunks: seq<Chunk>): Channel {
    var kept := FitSuffix(chunks, c.capacity);
    c.(queue := kept,
       totalBytes := TotalSize(kept),
       droppedChunks := c.droppedChunks + (|chunks| - |kept|),
       droppedBytes := c.droppedBytes + (TotalSize(chunks) - TotalSize(kept)))
  }

  function Wake(c: Channel): (Channel, Reply) {
    (c.(waker := None), Done(c.waker))
  }

  lemma {:induction false} OversizedDropsAll(queue: seq<Chunk>, chunk: Chunk, capacity: nat)
    ensures FitSuffix(queue + [chunk], capacity) == [] <==> |chunk| > capacity
    decreases |queue|
  {
    assert TotalSize([chunk]) == |chunk| by {
      assert [chunk][1..] == [];
    }
    TotalSizeAppend(queue, [chunk]);
    if queue == [] {
      assert queue + [chunk] == [chunk] && [chunk][1..] == [];
    } else {
      assert (queue + [chunk])[1..] == queue[1..] + [chunk];
      OversizedDropsAll(queue[1..], chunk, capacity);
    }
  }

  /** One step. */
  function Step(c: Channel, op: Op): (r: (Channel, Reply))
    requires Sound(c)
  {
    match op
    case Send(chunk) =>
      var next := Evicted(c, c.queue + [chunk]);
      if |chunk| > c.capacity then (next, Done(None)) else Wake(next)
    case SetCapacity(capacity) => (Evicted(c.(capacity := capacity), c.queue), Done(None))
    case SendError(error) => Wake(c.(error := Some(error)))
    case Close => Wake(c.(closed := true))
    case Poll(waker) =>
      if c.queue != [] then
        (c.(queue := c.queue[1..], totalBytes := TotalSize(c.queue[1..])), Delivered(c.queue[0]))
      else if c.error.Some? then (c.(error := None), Failed(c.error.value))
      else if c.closed then (c, Failed(ChannelClosed))
      else (c.(waker := Some(waker)), Parked)
  }

  /** Every step keeps the channel sound, so every reachable channel is. */
  lemma {:induction false} StepSound(c: Channel, op: Op)
    requires Sound(c)
    ensures Sound(Step(c, op).0)
  {
    hide FitSuffix, TotalSize;
    if op.Send? {
      OversizedDropsAll(c.queue, op.chunk, c.capacity);
    } else if op.Poll? && c.queue != [] {
      FirstAndRest(c.queue);
    }
  }

  lemma {:induction false} FirstAndRest(chunks: seq<Chunk>)
    requires chunks != []
    ensures TotalSize(chunks) == |chunks[0]| + TotalSize(chunks[1..])
  {
  }

  // The loop bodies of the channel's methods, on values.

  function Dropped(c: Channel): Channel
    requires c.queue != [] && c.totalBytes >= |c.queue[0]|
  {
    c.(queue := c.queue[1..],
       totalBytes := c.totalBytes - |c.queue[0]|,
       droppedChunks := c.droppedChunks + 1,
       droppedBytes := c.droppedBytes + |c.queue[0]|)
  }

  lemma {:induction false} SizeOf(c: Channel)
    requires Counted(c)
    ensures c.totalBytes == TotalSize(c.queue) && (c.queue == [] ==> c.totalBytes == 0)
  {
  }

  lemma {:induction false} SendSize(c: Channel, chunk: Chunk)
    requires Counted(c)
    ensures TotalSize(c.queue + [chunk]) == c.totalBytes + |chunk|
  {
    TotalSizeAppend(c.queue, [chunk]);
    assert [chunk][1..] == [] && TotalSize([chunk]) == |chunk|;
  }

  lemma {:induction false} DroppedCounted(c: Channel)
    requires Counted(c) && c.queue != []
    ensures c.totalBytes >= |c.queue[0]| && Counted(Dropped(c))
  {
  }

  /** Dropping the oldest chunk while there is too much does not change where the loop ends. */
  lemma {:induction false} DropOne(c: Channel, tail: seq<Chunk>)
    requires Counted(c) && c.queue != [] && TotalSize(c.queue + tail) > c.capacity
    ensures c.totalBytes >= |c.queue[0]|
    ensures Evicted(Dropped(c), c.queue[1..] + tail) == Evicted(c, c.queue + tail)
  {
    hide TotalSize, FitSuffix;
    DroppedCounted(c);
    assert (c.queue + tail)[1..] == c.queue[1..] + tail;
    FitTail(c.queue + tail, c.capacity);
  }

  lemma {:induction false} FitTail(chunks: seq<Chunk>, capacity: nat)
    requires TotalSize(chunks) > capacity
    ensures chunks != [] && TotalSize(chunks) == |chunks[0]| + TotalSize(chunks[1..])
    ensures FitSuffix(chunks, capacity) == FitSuffix(chunks[1..], capacity)
  {
  }

  lemma {:induction false} DropLast(c: Channel, chunk: Chunk)
    requires Counted(c) && c.queue == [] && c.totalBytes + |chunk| > c.capacity
    ensures |chunk| > c.capacity
    ensures Evicted(c, c.queue + [chunk])
         == c.(droppedChunks := c.droppedChunks + 1, droppedBytes := c.droppedBytes + |chunk|)
  {
    hide FitSuffix, TotalSize;
    SizeOf(c);
    SendSize(c, chunk);
    OversizedDropsAll(c.queue, chunk, c.capacity);
    EmptyTotal();
  }

  lemma {:induction false} EmptyTotal()
    ensures TotalSize([]) == 0
  {
  }

  lemma {:induction false} Fits(c: Channel, tail: seq<Chunk>)
    requires Counted(c) && TotalSize(c.queue + tail) <= c.capacity
    ensures Evicted(c, c.queue + tail) == c.(queue := c.queue + tail, totalBytes := TotalSize(c.queue + tail))
  {
  }

  // ── The channel as an object ─────────────────────────────────────────────

  class SniffChannel {
    var queue: seq<Chunk>
    var totalBytes: nat
    var capacity: nat
    var droppedChunks: nat
    var droppedBytes: nat
    var closed: bool
    var error: Option<IoError>
    var waker: Option<nat>

    ghost function Value(): Channel
      reads this
    {
      Channel(queue, totalBytes, capacity, droppedChunks, droppedBytes, closed, error, waker)
    }

    constructor (capacity: nat)
      ensures Value() == New(capacity) && Sound(Value())
    {
      this.queue, this.totalBytes, this.capacity := [], 0, capacity;
      this.droppedChunks, this.droppedBytes := 0, 0;
      this.closed, this.error, this.waker := false, None, None;
    }

    method DropOldest()
      requires Counted(Value()) && queue != []
      modifies this
      ensures Value() == Dropped(old(Value())) && Counted(Value())
    {
      DroppedCounted(Value());
      var oldest := queue[0];
      queue := queue[1..];
      totalBytes := totalBytes - |oldest|;
      droppedChunks := droppedChunks + 1;
      droppedBytes := droppedBytes + |oldest|;
    }

    method Send(chunk: Chunk) returns (woken: Option<nat>)
      requires Sound(Value())
      modifies this
      ensures (Value(), Done(woken)) == Step(old(Value()), Op.Send(chunk))
      ensures Sound(Value())
    {
      hide Evicted, Counted;
      ghost var start := Value();
      StepSound(start, Op.Send(chunk));
      SendSize(start, chunk);
      while totalBytes + |chunk| > capacity
        invariant Counted(Value()) && capacity == start.capacity
        invariant totalBytes + |chunk| == TotalSize(queue + [chunk])
        invariant Evicted(Value(), queue + [chunk]) == Evicted(start, start.queue + [chunk])
        decreases |queue|
      {
        if queue != [] {
          DropOne(Value(), [chunk]);
          DropOldest();
          SendSize(Value(), chunk);
        } else {
          DropLast(Value(), chunk);
          droppedChunks := droppedChunks + 1;
          droppedBytes := droppedBytes + |chunk|;
          return None;
        }
      }
      Fits(Value(), [chunk]);
      queue := queue + [chunk];
      totalBytes := totalBytes + |chunk|;
      woken := waker;
      waker := None;
    }

    method SendError(error: IoError) returns (woken: Option<nat>)
      requires Sound(Value())
      modifies this
      ensures (Value(), Done(woken)) == Step(old(Value()), Op.SendError(error))
      ensures Sound(Value())
    {
      this.error := Some(error);
      woken := waker;
      waker := None;
    }

    method SetCapacity(newCap: nat)
      requires Sound(Value())
      modifies this
      ensures Value() == Step(old(Value()), Op.SetCapacity(newCap)).0
      ensures Sound(Value())
    {
      hide Evicted;
      StepSound(Value(), Op.SetCapacity(newCap));
      capacity := newCap;
      ghost var start := Value();
      assert queue + [] == queue && start == old(Value()).(capacity := newCap);
      hide Counted;
      while totalBytes > newCap
        invariant Counted(Value()) && capacity == newCap
        invariant queue + [] == queue
        invariant Evicted(Value(), queue) == Evicted(start, start.queue)
        decreases |queue|
      {
        if queue != [] {
          SizeOf(Value());
          DropOne(Value(), []);
          DropOldest();
          assert queue + [] == queue;
        } else {
          break;
        }
      }
      SizeOf(Value());
      Fits(Value(), []);
    }

    method Close() returns (woken: Option<nat>)
      requires Sound(Value())
      modifies this
      ensures (Value(), Done(woken)) == Step(old(Value()), Op.Close)
      ensures Sound(Value())
    {
      closed := true;
      woken := waker;
      waker := None;
    }

    method PollRecv(consumer: nat) returns (reply: Reply)
      requires Sound(Value())
      modifies this
      ensures (Value(), reply) == Step(old(Value()), Poll(consumer))
      ensures Sound(Value())
    {
      StepSound(Value(), Poll(consumer));
      if queue != [] {
        var data := queue[0];
        queue := queue[1..];
        totalBytes := totalBytes - |data|;
        return Delivered(data);
      }
      if error.Some? {
        var e := error.value;
        error := None;
        return Failed(e);
      }
      if closed {
        return Failed(ChannelClosed);
      }
      waker := Some(consumer);
      reply := Parked;
    }
  }

  // ── What every run keeps ─────────────────────────────────────────────────

  function Run(c: Channel, ops: seq<Op>): (r: (Channel, seq<Reply>))
    requires Sound(c)
    ensures |r.1| == |ops|
    decreases |ops|
  {
    if ops == [] then (c, [])
    else
      StepSound(c, ops[0]);
      var (next, reply) := Step(c, ops[0]);
      var (last, replies) := Run(next, ops[1..]);
      (last, [reply] + replies)
  }

  lemma {:induction false} RunSound(c: Channel, ops: seq<Op>)
    requires Sound(c)
    ensures Sound(Run(c, ops).0)
    decreases |ops|
  {
    hide Sound, Step;
    if ops != [] {
      StepSound(c, ops[0]);
      RunSound(Step(c, ops[0]).0, ops[1..]);
    }
  }

  function SentBy(op: Op): seq<Chunk> {
    if op.Send? then [op.chunk] else []
  }

  function Sent(ops: seq<Op>): seq<Chunk> {
    if ops == [] then [] else SentBy(ops[0]) + Sent(ops[1..])
  }

  function Deliveries(replies: seq<Reply>): seq<Chunk> {
    if replies == [] then [] else (if replies[0].Delivered? then [replies[0].chunk] else []) + Deliveries(replies[1..])
  }

  /** The fate of the chunks that leave the channel in one step, oldest first: true for delivered. */
  function FatesOf(c: Channel, op: Op): (fates: seq<bool>)
    requires Sound(c)
    ensures |fates| <= |c.queue + SentBy(op)|
  {
    if op.Poll? then (if c.queue != [] then [true] else [])
    else
      StepShrinks(c, op);
      seq(|c.queue + SentBy(op)| - |Step(c, op).0.queue|, _ => false)
  }

  lemma {:induction false} StepShrinks(c: Channel, op: Op)
    requires Sound(c)
    ensures |Step(c, op).0.queue| <= |c.queue + SentBy(op)|
  {
    hide FitSuffix, Sound;
  }

  function Fates(c: Channel, ops: seq<Op>): seq<bool>
    requires Sound(c)
    decreases |ops|
  {
    if ops == [] then []
    else
      StepSound(c, ops[0]);
      FatesOf(c, ops[0]) + Fates(Step(c, ops[0]).0, ops[1..])
  }

  /** The chunks with the given fate, in order. */
  function Having(chunks: seq<Chunk>, fates: seq<bool>, fate: bool): seq<Chunk>
    requires |chunks| == |fates|
  {
    if chunks == [] then []
    else (if fates[0] == fate then [chunks[0]] else []) + Having(chunks[1..], fates[1..], fate)
  }

  lemma {:induction false} HavingAppend(a: seq<Chunk>, b: seq<Chunk>, f: seq<bool>, g: seq<bool>, fate: bool)
    requires |a| == |f| && |b| == |g|
    ensures Having(a + b, f + g, fate) == Having(a, f, fate) + Having(b, g, fate)
  {
    if a == [] {
      assert a + b == b && f + g == g;
    } else {
      assert (a + b)[1..] == a[1..] + b && (f + g)[1..] == f[1..] + g;
      HavingAppend(a[1..], b, f[1..], g, fate);
      Associates(if f[0] == fate then [a[0]] else [], Having(a[1..], f[1..], fate), Having(b, g, fate));
    }
  }

  lemma {:induction false} HavingOne(chunks: seq<Chunk>, fates: seq<bool>, fate: bool)
    requires |chunks| == |fates| && forall i :: 0 <= i < |fates| ==> fates[i] == fate
    ensures Having(chunks, fates, fate) == chunks && Having(chunks, fates, !fate) == []
  {
    if chunks != [] {
      HavingOne(chunks[1..], fates[1..], fate);
    }
  }

  /**
   The books balance between two states: the chunks queued first and those sent since are, in order, the ones that
   left and the ones still queued; those that left were delivered or counted as dropped.
   */
  ghost predicate Balanced(
      c: Channel, sent: seq<Chunk>, fates: seq<bool>, delivered: seq<Chunk>, next: Channel)
  {
    var all := c.queue + sent;
    && |fates| <= |all| && next.queue == all[|fates|..]
    && delivered == Having(all[..|fates|], fates, true)
    && next.droppedChunks == c.droppedChunks + |Having(all[..|fates|], fates, false)|
    && next.droppedBytes == c.droppedBytes + TotalSize(Having(all[..|fates|], fates, false))
  }

  lemma {:induction false} StepBalanced(c: Channel, op: Op)
    requires Sound(c)
    ensures Balanced(c, SentBy(op), FatesOf(c, op), Deliveries([Step(c, op).1]), Step(c, op).0)
  {
    hide FitSuffix, Sound, TotalSize, Balanced, Deliveries;
    DeliveryOf(Step(c, op).1);
    match op {
      case Send(chunk) => EvictionBalanced(c, [chunk], Step(c, op).0, FatesOf(c, op));
      case SetCapacity(_) =>
        assert c.queue + [] == c.queue;
        EvictionBalanced(c, [], Step(c, op).0, FatesOf(c, op));
      case SendError(_) => NothingLeft(c, Step(c, op).0);
      case Close => NothingLeft(c, Step(c, op).0);
      case Poll(_) =>
        if c.queue != [] {
          OldestLeft(c, Step(c, op).0);
        } else {
          NothingLeft(c, Step(c, op).0);
        }
    }
  }

  lemma {:induction false} EvictionBalanced(c: Channel, sent: seq<Chunk>, next: Channel, fates: seq<bool>)
    requires var all, e := c.queue + sent, Evicted(c.(capacity := next.capacity), c.queue + sent);
             && next.queue == e.queue && next.droppedChunks == e.droppedChunks && next.droppedBytes == e.droppedBytes
             && |fates| == |all| - |e.queue| && forall i :: 0 <= i < |fates| ==> !fates[i]
    ensures Balanced(c, sent, fates, [], next)
  {
    hide FitSuffix, TotalSize;
    var all := c.queue + sent;
    HavingOne(all[..|fates|], fates, false);
    assert all[..|fates|] + all[|fates|..] == all;
    TotalSizeAppend(all[..|fates|], all[|fates|..]);
  }

  lemma {:induction false} OldestLeft(c: Channel, next: Channel)
    requires c.queue != [] && next.queue == c.queue[1..]
    requires next.droppedChunks == c.droppedChunks && next.droppedBytes == c.droppedBytes
    ensures Balanced(c, [], [true], [c.queue[0]], next)
  {
    assert (c.queue + [])[..1] == [c.queue[0]];
    HavingOne([c.queue[0]], [true], true);
    EmptyTotal();
  }

  lemma {:induction false} NothingLeft(c: Channel, next: Channel)
    requires next.queue == c.queue
    requires next.droppedChunks == c.droppedChunks && next.droppedBytes == c.droppedBytes
    ensures Balanced(c, [], [], [], next)
  {
    EmptyTotal();
    assert c.queue + [] == c.queue;
  }

  lemma {:induction false} DeliveryOf(reply: Reply)
    ensures Deliveries([reply]) == if reply.Delivered? then [reply.chunk] else []
  {
    assert [reply][1..] == [];
  }

  lemma {:induction false} BalancedCompose(
      c: Channel, s1: seq<Chunk>, f1: seq<bool>, d1: seq<Chunk>, mid: Channel,
      s2: seq<Chunk>, f2: seq<bool>, d2: seq<Chunk>, next: Channel)
    requires Balanced(c, s1, f1, d1, mid) && Balanced(mid, s2, f2, d2, next)
    ensures Balanced(c, s1 + s2, f1 + f2, d1 + d2, next)
  {
    hide TotalSize, Having;
    var all, first, second := c.queue + (s1 + s2), c.queue + s1, mid.queue + s2;
    assert all == first[..|f1|] + second;
    assert all[..|f1 + f2|] == first[..|f1|] + second[..|f2|];
    assert all[|f1 + f2|..] == second[|f2|..];
    HavingAppend(first[..|f1|], second[..|f2|], f1, f2, true);
    HavingAppend(first[..|f1|], second[..|f2|], f1, f2, false);
    TotalSizeAppend(Having(first[..|f1|], f1, false), Having(second[..|f2|], f2, false));
  }

  lemma {:induction false} RunBalanced(c: Channel, ops: seq<Op>)
    requires Sound(c)
    ensures Balanced(c, Sent(ops), Fates(c, ops), Deliveries(Run(c, ops).1), Run(c, ops).0)
    decreases |ops|
  {
    hide Sound, Step, Balanced, FatesOf;
    if ops == [] {
      NothingLeft(c, c);
    } else {
      StepSound(c, ops[0]);
      StepBalanced(c, ops[0]);
      var (next, reply) := Step(c, ops[0]);
      var (last, replies) := Run(next, ops[1..]);
      RunBalanced(next, ops[1..]);
      BalancedCompose(c, SentBy(ops[0]), FatesOf(c, ops[0]), Deliveries([reply]), next,
                      Sent(ops[1..]), Fates(next, ops[1..]), Deliveries(replies), last);
      DeliveryOf(reply);
      assert ([reply] + replies)[1..] == replies;
    }
  }

  /**
   Every run of a new channel: the queue is the tail of what was sent; of the chunks before it, those delivered and
   those dropped are told apart by their fates and counted; the byte count is right and within capacity; and sent is
   delivered plus dropped plus queued, in chunks and in bytes.
   */
  lemma {:induction false} Accounting(capacity: nat, ops: seq<Op>)
    ensures Sound(New(capacity))
    ensures var (c, replies) := Run(New(capacity), ops);
            var sent, fates, delivered := Sent(ops), Fates(New(capacity), ops), Deliveries(replies);
            && Sound(c)
            && |fates| <= |sent| && c.queue == sent[|fates|..]
            && delivered == Having(sent[..|fates|], fates, true)
            && c.droppedChunks == |Having(sent[..|fates|], fates, false)|
            && c.droppedBytes == TotalSize(Having(sent[..|fates|], fates, false))
            && |sent| == |delivered| + c.droppedChunks + |c.queue|
            && TotalSize(sent) == TotalSize(delivered) + c.droppedBytes + c.totalBytes
  {
    EmptyTotal();
    hide Run, Fates, Having, TotalSize;
    assert Sound(New(capacity));
    RunSound(New(capacity), ops);
    RunBalanced(New(capacity), ops);
    var c, sent, fates := Run(New(capacity), ops).0, Sent(ops), Fates(New(capacity), ops);
    assert [] + sent == sent;
    FatesPartition(sent[..|fates|], fates);
    assert sent[..|fates|] + sent[|fates|..] == sent;
    TotalSizeAppend(sent[..|fates|], sent[|fates|..]);
  }

  lemma {:induction false} FatesPartition(chunks: seq<Chunk>, fates: seq<bool>)
    requires |chunks| == |fates|
    ensures |Having(chunks, fates, true)| + |Having(chunks, fates, false)| == |chunks|
    ensures TotalSize(Having(chunks, fates, true)) + TotalSize(Having(chunks, fates, false)) == TotalSize(chunks)
  {
    if chunks != [] {
      FatesPartition(chunks[1..], fates[1..]);
      TotalOne(chunks[0], Having(chunks[1..], fates[1..], fates[0]));
      assert [] + Having(chunks[1..], fates[1..], !fates[0]) == Having(chunks[1..], fates[1..], !fates[0]);
    }
  }

  lemma {:induction false} TotalOne(chunk: Chunk, rest: seq<Chunk>)
    ensures TotalSize([chunk] + rest) == |chunk| + TotalSize(rest)
  {
    assert ([chunk] + rest)[1..] == rest;
  }

  // ── Wakeups and errors ───────────────────────────────────────────────────

  function Wakes(replies: seq<Reply>): seq<nat> {
    if replies == [] then []
    else (if replies[0].Done? && replies[0].woken.Some? then [replies[0].woken.value] else []) + Wakes(replies[1..])
  }

  /** The consumer has something to see: a chunk, an error, or the end. */
  predicate Visible(c: Channel) {
    c.queue != [] || c.error.Some? || c.closed
  }

  /**
   No lost wakeup: while a consumer is parked, whatever the producers do, it is either still parked with nothing to
   see, or has been woken exactly once; so as soon as there is something to see it has been woken.
   */
  lemma {:induction false} ParkedIsWoken(c: Channel, ops: seq<Op>)
    requires Sound(c) && c.waker.Some? && forall op :: op in ops ==> !op.Poll?
    ensures var (last, replies) := Run(c, ops);
            if last.waker.Some? then last.waker == c.waker && Wakes(replies) == [] && !Visible(last)
            else Wakes(replies) == [c.waker.value]
    decreases |ops|
  {
    hide FitSuffix;
    if ops != [] {
      assert !ops[0].Poll?;
      StepSound(c, ops[0]);
      var (next, reply) := Step(c, ops[0]);
      var (last, replies) := Run(next, ops[1..]);
      assert ([reply] + replies)[1..] == replies;
      if next.waker.Some? {
        ParkedIsWoken(next, ops[1..]);
      } else {
        NobodyToWake(next, ops[1..]);
      }
    }
  }

  lemma {:induction false} NobodyToWake(c: Channel, ops: seq<Op>)
    requires Sound(c) && c.waker.None? && forall op :: op in ops ==> !op.Poll?
    ensures Run(c, ops).0.waker.None? && Wakes(Run(c, ops).1) == []
    decreases |ops|
  {
    hide FitSuffix;
    if ops != [] {
      assert !ops[0].Poll?;
      StepSound(c, ops[0]);
      var (next, reply) := Step(c, ops[0]);
      NobodyToWake(next, ops[1..]);
      assert ([reply] + Run(next, ops[1..]).1)[1..] == Run(next, ops[1..]).1;
    }
  }

  /** A poll parks exactly when there is nothing to see, and fails only when nothing is queued any more. */
  lemma {:induction false} PollOutcome(capacity: nat, ops: seq<Op>, waker: nat)
    ensures Sound(New(capacity)) && Sound(Run(New(capacity), ops).0)
    ensures var c := Run(New(capacity), ops).0;
            var reply := Step(c, Poll(waker)).1;
            && (reply.Parked? <==> !Visible(c))
            && (reply.Failed? ==> |Fates(New(capacity), ops)| == |Sent(ops)|)
  {
    hide Run, Fates;
    Accounting(capacity, ops);
  }

  // ── The reader ───────────────────────────────────────────────────────────

  /**
   The reading side: the channel, what did not fit the last caller's buffer, whether a poll has found the channel empty
   and is about to look at the producer, and whether the producer task has ended.
   */
  datatype Reader = Reader(channel: Channel, pending: Option<Chunk>, checking: bool, finished: bool)

  function NewReader(capacity: nat): Reader {
    Reader(New(capacity), None, false, false)
  }

  /** What a poll returns; `Checking` is a poll that is still to look at the producer. */
  datatype ReadResult = Ready(bytes: seq<Byte>) | ReadError(error: IoError) | Checking | Pending

  function Min(a: nat, b: nat): nat {
    if a < b then a else b
  }

  function Leftover(data: Chunk, n: nat): Option<Chunk>
    requires n <= |data|
  {
    if n < |data| then Some(data[n..]) else None
  }

  /** The first step of a poll for at most `remaining` bytes. */
  function Polled(r: Reader, remaining: nat, waker: nat): (Reader, ReadResult)
    requires Sound(r.channel)
  {
    if r.pending.Some? then
      var p := r.pending.value;
      var n := Min(|p|, remaining);
      (r.(pending := Leftover(p, n)), Ready(p[..n]))
    else
      var (next, reply) := Step(r.channel, Poll(waker));
      match reply
      case Delivered(data) =>
        var n := Min(|data|, remaining);
        (r.(channel := next, pending := Leftover(data, n)), Ready(data[..n]))
      case Failed(e) => (r.(channel := next), ReadError(e))
      case _ => (r.(channel := next, checking := true), Checking)
  }

  /** The second step, when the channel had nothing. */
  function Checked(r: Reader): (Reader, ReadResult) {
    (r.(checking := false), if r.finished then ReadError(ReaderTerminated) else Pending)
  }

  class SniffReader {
    const channel: SniffChannel
    var pending: Option<Chunk>
    var checking: bool
    var finished: bool

    ghost function Value(): Reader
      reads this, channel
    {
      Reader(channel.Value(), pending, checking, finished)
    }

    constructor (channel: SniffChannel)
      ensures this.channel == channel && Value() == Reader(channel.Value(), None, false, false)
    {
      this.channel := channel;
      pending := None;
      checking := false;
      finished := false;
    }

    method PollChannel(remaining: nat, waker: nat) returns (result: ReadResult)
      requires Sound(channel.Value())
      modifies this, channel
      ensures (Value(), result) == Polled(old(Value()), remaining, waker)
      ensures Sound(channel.Value())
    {
      hide Sound, Step;
      if pending.Some? {
        var p := pending.value;
        var n := Min(|p|, remaining);
        pending := if n < |p| then Some(p[n..]) else None;
        return Ready(p[..n]);
      }
      PollReplies(channel.Value(), waker);
      var reply := channel.PollRecv(waker);
      match reply {
        case Delivered(data) =>
          var n := Min(|data|, remaining);
          if n < |data| {
            pending := Some(data[n..]);
          }
          return Ready(data[..n]);
        case Parked =>
          checking := true;
          return Checking;
        case Failed(e) =>
          return ReadError(e);
      }
    }

    method CheckProducer() returns (result: ReadResult)
      modifies this
      ensures (Value(), result) == Checked(old(Value()))
    {
      checking := false;
      if finished {
        return ReadError(ReaderTerminated);
      }
      return Pending;
    }

    /** The whole poll, when no producer acts between its steps. */
    method PollRead(remaining: nat, waker: nat) returns (result: ReadResult)
      requires Sound(channel.Value())
      modifies this, channel
      ensures var (next, first) := Polled(old(Value()), remaining, waker);
              (Value(), result) == if first.Checking? then Checked(next) else (next, first)
      ensures Sound(channel.Value())
    {
      hide Polled, Sound;
      result := PollChannel(remaining, waker);
      if result.Checking? {
        result := CheckProducer();
      }
    }
  }

  lemma {:induction false} PollReplies(c: Channel, waker: nat)
    requires Sound(c)
    ensures !Step(c, Poll(waker)).1.Done?
  {
  }

  /**
   The two steps of a poll, producer steps on the channel, and the end of the producer task, in any order; a reader has
   one poll going at a time, so the step that is not its turn does nothing.
   */
  datatype Action = Read(remaining: nat, waker: nat) | Check | Produce(op: Op) | Finish

  /** The channel operation an action amounts to, if any. */
  function OpsOf(r: Reader, action: Action): seq<Op> {
    match action
    case Read(_, waker) => if r.checking || r.pending.Some? then [] else [Poll(waker)]
    case Check => []
    case Produce(op) => [op]
    case Finish => []
  }

  function Acted(r: Reader, action: Action): (Reader, seq<Byte>)
    requires Sound(r.channel)
  {
    match action
    case Read(remaining, waker) =>
      if r.checking then (r, [])
      else
        var (next, result) := Polled(r, remaining, waker);
        (next, if result.Ready? then result.bytes else [])
    case Check => (if r.checking then Checked(r).0 else r, [])
    case Produce(op) => (r.(channel := Step(r.channel, op).0), [])
    case Finish => (r.(finished := true), [])
  }

  lemma {:induction false} ActedSound(r: Reader, action: Action)
    requires Sound(r.channel)
    ensures Sound(Acted(r, action).0.channel)
  {
    hide Sound, Step;
    match action {
      case Read(_, waker) => StepSound(r.channel, Poll(waker));
      case Produce(op) => StepSound(r.channel, op);
      case Check =>
      case Finish =>
    }
  }

  /** A run: the final reader, the bytes returned on the way, and the operations its channel saw. */
  function Reading(r: Reader, actions: seq<Action>): (Reader, seq<Byte>, seq<Op>)
    requires Sound(r.channel)
    decreases |actions|
  {
    if actions == [] then (r, [], [])
    else
      ActedSound(r, actions[0]);
      var (next, bytes) := Acted(r, actions[0]);
      var (last, more, ops) := Reading(next, actions[1..]);
      (last, bytes + more, OpsOf(r, actions[0]) + ops)
  }

  function PendingBytes(r: Reader): seq<Byte> {
    if r.pending.Some? then r.pending.value else []
  }

  // One action: the bytes pending before and those of a delivered chunk are returned or pending after.
  lemma {:induction false} ActedStream(r: Reader, action: Action)
    requires Sound(r.channel) && (action.Produce? ==> !action.op.Poll?)
    ensures var (next, bytes) := Acted(r, action);
            var (channel, replies) := Run(r.channel, OpsOf(r, action));
            && next.channel == channel
            && bytes + PendingBytes(next) == PendingBytes(r) + Joined(Deliveries(replies))
  {
    hide Sound, FitSuffix, TotalSize;
    var (next, bytes) := Acted(r, action);
    var (channel, replies) := Run(r.channel, OpsOf(r, action));
    if OpsOf(r, action) == [] {
      assert PendingBytes(r) + [] == PendingBytes(r);
      if action.Read? && !r.checking {
        Rejoined(r.pending.value, Min(|r.pending.value|, action.remaining));
      }
    } else {
      var op := OpsOf(r, action)[0];
      OneStepRun(r.channel, op);
      var reply := Step(r.channel, op).1;
      DeliveryOf(reply);
      if reply.Delivered? {
        assert [reply.chunk][1..] == [] && Joined([reply.chunk]) == reply.chunk + [];
        Rejoined(reply.chunk, Min(|reply.chunk|, action.remaining));
      }
    }
  }

  lemma {:induction false} Rejoined(data: Chunk, n: nat)
    requires n <= |data|
    ensures data[..n] + (if Leftover(data, n).Some? then Leftover(data, n).value else []) == data
  {
  }

  lemma {:induction false} OneStepRun(c: Channel, op: Op)
    requires Sound(c)
    ensures Run(c, [op]) == (Step(c, op).0, [Step(c, op).1])
  {
    hide Sound, Step;
    StepSound(c, op);
    assert [op][1..] == [];
    assert [Step(c, op).1] + [] == [Step(c, op).1];
  }

  lemma {:induction false} RunAppend(c: Channel, first: seq<Op>, second: seq<Op>)
    requires Sound(c)
    ensures Sound(Run(c, first).0)
    ensures Run(c, first + second)
         == (Run(Run(c, first).0, second).0, Run(c, first).1 + Run(Run(c, first).0, second).1)
    decreases |first|
  {
    hide Sound, Step;
    if first == [] {
      assert first + second == second;
      assert [] + Run(c, second).1 == Run(c, second).1;
    } else {
      StepSound(c, first[0]);
      assert (first + second)[1..] == first[1..] + second;
      var next, reply := Step(c, first[0]).0, Step(c, first[0]).1;
      RunAppend(next, first[1..], second);
      Associates([reply], Run(next, first[1..]).1, Run(Run(next, first[1..]).0, second).1);
    }
  }

  lemma {:induction false} DeliveriesAppend(a: seq<Reply>, b: seq<Reply>)
    ensures Deliveries(a + b) == Deliveries(a) + Deliveries(b)
  {
    if a == [] {
      assert a + b == b;
    } else {
      assert (a + b)[1..] == a[1..] + b;
      DeliveriesAppend(a[1..], b);
    }
  }

  /**
   The byte stream: over any run with any buffer sizes, what was returned, followed by what is pending, is what was
   pending at first followed by the chunks the channel delivered; nothing is lost, duplicated or reordered.
   */
  lemma {:induction false} ReadingStream(r: Reader, actions: seq<Action>)
    requires Sound(r.channel)
    requires forall a :: a in actions && a.Produce? ==> !a.op.Poll?
    ensures var (last, bytes, ops) := Reading(r, actions);
            && last.channel == Run(r.channel, ops).0
            && bytes + PendingBytes(last) == PendingBytes(r) + Joined(Deliveries(Run(r.channel, ops).1))
    decreases |actions|
  {
    hide Sound, Run, Step, Acted, OpsOf, Joined, Deliveries, PendingBytes;
    if actions == [] {
      EmptyRun(r);
      assert [] + PendingBytes(r) == PendingBytes(r) + [];
    } else {
      var action := actions[0];
      ActedSound(r, action);
      ActedStream(r, action);
      var (next, bytes) := Acted(r, action);
      var (last, more, ops) := Reading(next, actions[1..]);
      ReadingStream(next, actions[1..]);
      RunAppend(r.channel, OpsOf(r, action), ops);
      var d1, d2 := Run(r.channel, OpsOf(r, action)).1, Run(next.channel, ops).1;
      DeliveriesAppend(d1, d2);
      JoinedAppend(Deliveries(d1), Deliveries(d2));
      Associates(bytes, more, PendingBytes(last));
      Associates(bytes, PendingBytes(next), Joined(Deliveries(d2)));
      Associates(PendingBytes(r), Joined(Deliveries(d1)), Joined(Deliveries(d2)));
    }
  }

  lemma {:induction false} EmptyRun(r: Reader)
    requires Sound(r.channel)
    ensures Run(r.channel, []) == (r.channel, [])
    ensures Joined(Deliveries(Run(r.channel, []).1)) == []
  {
  }

  lemma {:induction false} NothingDropped(chunks: seq<Chunk>, fates: seq<bool>)
    requires |chunks| == |fates| && Having(chunks, fates, false) == []
    ensures Having(chunks, fates, true) == chunks
  {
    if chunks != [] {
      assert fates[0];
      NothingDropped(chunks[1..], fates[1..]);
    }
  }

  /**
   End to end on the monitoring path: unless a chunk was dropped, the bytes returned, pending and queued are together
   exactly the bytes the producer sent.
   */
  lemma {:induction false} LosslessUnlessDropped(capacity: nat, actions: seq<Action>)
    requires forall a :: a in actions && a.Produce? ==> !a.op.Poll?
    ensures Sound(New(capacity))
    ensures var (last, bytes, ops) := Reading(NewReader(capacity), actions);
            last.channel.droppedChunks == 0 ==>
              bytes + PendingBytes(last) + Joined(last.channel.queue) == Joined(Sent(ops))
  {
    hide Run, Fates, Having, TotalSize, Deliveries, Reading, Joined;
    Accounting(capacity, []);
    var start := NewReader(capacity);
    ReadingStream(start, actions);
    var (last, bytes, ops) := Reading(start, actions);
    Accounting(capacity, ops);
    if last.channel.droppedChunks == 0 {
      var sent, fates := Sent(ops), Fates(New(capacity), ops);
      NothingDropped(sent[..|fates|], fates);
      assert sent[..|fates|] + sent[|fates|..] == sent;
      JoinedAppend(sent[..|fates|], sent[|fates|..]);
    }
  }

  /**
   An error of the channel comes last, in every run: a poll reports one exactly when nothing is pending or queued and the
   channel has an error or is closed, and by then all that was sent has been returned, but for what was dropped.
   */
  lemma {:induction false} ErrorsComeLast(capacity: nat, actions: seq<Action>, remaining: nat, waker: nat)
    requires forall a :: a in actions && a.Produce? ==> !a.op.Poll?
    ensures Sound(New(capacity)) && Sound(Reading(NewReader(capacity), actions).0.channel)
    ensures var (last, bytes, ops) := Reading(NewReader(capacity), actions);
            var result := Polled(last, remaining, waker).1;
            && (result.ReadError? <==>
                  last.pending.None? && last.channel.queue == [] && (last.channel.error.Some? || last.channel.closed))
            && (result.ReadError? ==>
                  var fates, sent := Fates(New(capacity), ops), Sent(ops);
                  && |fates| == |sent| && bytes == Joined(Having(sent, fates, true))
                  && (last.channel.droppedChunks == 0 ==> bytes == Joined(sent)))
  {
    hide Run, Fates, Having, TotalSize, Deliveries, Reading, Joined, FitSuffix;
    Accounting(capacity, []);
    ReadingStream(NewReader(capacity), actions);
    var (last, bytes, ops) := Reading(NewReader(capacity), actions);
    Accounting(capacity, ops);
    var fates, sent := Fates(New(capacity), ops), Sent(ops);
    if last.pending.None? && last.channel.queue == [] {
      assert |fates| == |sent| && sent[..|fates|] == sent && bytes + [] == bytes && [] + bytes == bytes;
      assert PendingBytes(last) == [] && PendingBytes(NewReader(capacity)) == [];
      if last.channel.droppedChunks == 0 {
        NothingDropped(sent, fates);
      }
    }
  }

  lemma {:induction false} FatesWithoutPolls(c: Channel, ops: seq<Op>)
    requires Sound(c) && forall op :: op in ops ==> !op.Poll?
    ensures forall i :: 0 <= i < |Fates(c, ops)| ==> !Fates(c, ops)[i]
    decreases |ops|
  {
    hide Sound, Step;
    if ops != [] {
      assert !ops[0].Poll?;
      StepSound(c, ops[0]);
      StepShrinks(c, ops[0]);
      FatesWithoutPolls(Step(c, ops[0]).0, ops[1..]);
      var first, rest := FatesOf(c, ops[0]), Fates(Step(c, ops[0]).0, ops[1..]);
      assert forall i :: 0 <= i < |first| ==> !first[i];
      assert Fates(c, ops) == first + rest;
    }
  }

  /**
   The other error is not ordered like that.  A poll that has parked, and then sees that the producer has ended, reports
   it whatever arrived in between: exactly the chunks sent since it parked and not dropped are still queued at that
   point, and the next poll returns them.
   */
  lemma {:induction false} TerminationOvertakes(r: Reader, ops: seq<Op>, remaining: nat, waker: nat)
    requires Sound(r.channel) && r.checking && r.pending.None? && r.channel.waker.Some?
    requires forall op :: op in ops ==> !op.Poll?
    ensures var channel := Run(r.channel, ops).0;
            var (next, result) := Checked(r.(channel := channel, finished := true));
            var dropped := channel.droppedChunks - r.channel.droppedChunks;
            && Sound(channel) && result == ReadError(ReaderTerminated) && next.channel == channel
            && 0 <= dropped <= |Sent(ops)| && channel.queue == Sent(ops)[dropped..]
            && (channel.queue != [] <==> dropped < |Sent(ops)|)
            && (channel.queue != [] ==>
                  Polled(next, remaining, waker).1
                  == Ready(Sent(ops)[dropped][..Min(|Sent(ops)[dropped]|, remaining)]))
  {
    RunSound(r.channel, ops);
    RunBalanced(r.channel, ops);
    FatesWithoutPolls(r.channel, ops);
    hide Run, Fates, Having, TotalSize, Deliveries, FitSuffix;
    var sent, fates := Sent(ops), Fates(r.channel, ops);
    assert r.channel.queue == [] && [] + sent == sent;
    HavingOne(sent[..|fates|], fates, false);
  }

  lemma {:induction false} ReadingStep(r: Reader, action: Action, rest: seq<Action>)
    requires Sound(r.channel)
    ensures Sound(Acted(r, action).0.channel)
    ensures Reading(r, [action] + rest).0 == Reading(Acted(r, action).0, rest).0
  {
    hide Sound, Acted, OpsOf;
    ActedSound(r, action);
    assert ([action] + rest)[1..] == rest;
  }

  lemma {:induction false} SentToParked(c: Channel, chunk: Chunk)
    requires Sound(c) && c.queue == [] && |chunk| <= c.capacity
    ensures Step(c, Op.Send(chunk)).0 == c.(queue := [chunk], totalBytes := |chunk|, waker := None)
  {
    hide FitSuffix, TotalSize, Evicted;
    assert [] + [chunk] == [chunk];
    SizeOf(c);
    SendSize(c, chunk);
    Fits(c, [chunk]);
  }

  /** It happens: a chunk that fits and an error, sent while the poll is between its steps, are both overtaken. */
  lemma {:induction false} OvertakenChunk(capacity: nat, chunk: Chunk, error: IoError, remaining: nat, waker: nat)
    requires |chunk| <= capacity
    ensures Sound(New(capacity))
    ensures var actions := [Read(remaining, waker)] + ([Produce(Op.Send(chunk))] + ([Produce(Op.SendError(error))] + [Finish]));
            var last := Reading(NewReader(capacity), actions).0;
            && Checked(last).1 == ReadError(ReaderTerminated)
            && last.channel.queue == [chunk] && last.channel.error == Some(error)
  {
    var send, fail := Produce(Op.Send(chunk)), Produce(Op.SendError(error));
    var r0 := NewReader(capacity);
    var r1 := Parks(capacity, remaining, waker);
    hide Reading, Sound, Acted, Step, New;
    ReadingStep(r0, Read(remaining, waker), [send] + ([fail] + [Finish]));
    SendActs(r1, chunk);
    ReadingStep(r1, send, [fail] + [Finish]);
    var r2 := Acted(r1, send).0;
    OthersAct(r2, error);
    ReadingStep(r2, fail, [Finish]);
    var r3 := Acted(r2, fail).0;
    OthersAct(r3, error);
    ReadingStep(r3, Finish, []);
    assert [Finish] + [] == [Finish];
    NoActions(Acted(r3, Finish).0);
  }

  lemma {:induction false} Parks(capacity: nat, remaining: nat, waker: nat) returns (r: Reader)
    ensures Sound(New(capacity)) && r == Acted(NewReader(capacity), Read(remaining, waker)).0
    ensures Sound(r.channel) && r.checking && r.channel.queue == [] && r.channel.capacity == capacity
  {
    EmptyTotal();
    r := Acted(NewReader(capacity), Read(remaining, waker)).0;
  }

  lemma {:induction false} SendActs(r: Reader, chunk: Chunk)
    requires Sound(r.channel) && r.channel.queue == [] && |chunk| <= r.channel.capacity
    ensures Acted(r, Produce(Op.Send(chunk))).0.channel.queue == [chunk]
  {
    hide Step;
    SentToParked(r.channel, chunk);
  }

  lemma {:induction false} OthersAct(r: Reader, error: IoError)
    requires Sound(r.channel)
    ensures var next := Acted(r, Produce(Op.SendError(error))).0;
            next.channel.queue == r.channel.queue && next.channel.error == Some(error)
    ensures var next := Acted(r, Finish).0;
            next.channel == r.channel && next.finished
  {
    hide Sound, FitSuffix;
  }

  lemma {:induction false} NoActions(r: Reader)
    requires Sound(r.channel)
    ensures Reading(r, []).0 == r
  {
  }
}
