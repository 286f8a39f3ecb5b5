/** The bookkeeping of SharedMemoryEventManager (artdaq/DAQrate/SharedMemoryEventManager.cc): events are built in a
    fixed pool of shared-memory buffers, released to art when complete or timed out, and paid for with routing tokens.
    One locked method body is one step. */
module EventTable {
  import opened Ordered

  datatype Status = Empty | Writing | Full | Reading

  // fragments: headers in the buffer; writers: buffer_writes_pending_; complete: is_complete of the event header.
  datatype Slot = Slot(status: Status, seqId: nat, fragments: nat, writers: int, complete: bool)

  // expected: num_fragments_per_event_; maxList: max_event_list_length_; routing: tokens are sent.
  datatype Config = Config(expected: nat, maxList: nat, routing: bool)

  // active, pending, incomplete, released, runEvents, tokensSent: the members of the manager.
  // The rest is history since the start of the run. opens: events opened; completed: IDs of completed events;
  // log: IDs of released events, in order; accepted: fragments written, by ID; inFlight: those not yet done.
  datatype Table = Table(
    slots: seq<Slot>, active: set<nat>, pending: set<nat>,
    incomplete: map<nat, nat>, released: set<nat>, runEvents: nat, tokensSent: nat,
    opens: nat, completed: set<nat>, log: seq<nat>, accepted: multiset<nat>, inFlight: multiset<nat>)

  const SIZES: nat := 0x1_0000_0000_0000_0000

  // A difference in the unsigned type size_t.
  function Minus(a: nat, b: nat): nat {
    (a - b) % SIZES
  }

  // ---------------------------------------------------------------- the pool

  function In(slots: seq<Slot>, status: Status): set<nat> {
    set b: nat | b < |slots| && slots[b].status == status
  }

  // The buffers of GetBuffersOwnedByManager that hold the event.
  function Holding(slots: seq<Slot>, seqId: nat): set<nat> {
    set b: nat | b < |slots| && slots[b].status == Writing && slots[b].seqId == seqId
  }

  function SeqIds(slots: seq<Slot>, buffers: set<nat>): set<nat>
    requires forall b :: b in buffers ==> b < |slots|
  {
    set b | b in buffers :: slots[b].seqId
  }

  function MarkFull(slots: seq<Slot>, buffers: set<nat>): (r: seq<Slot>)
    ensures |r| == |slots|
  {
    seq(|slots|, b requires 0 <= b < |slots| => if b in buffers then slots[b].(status := Full) else slots[b])
  }

  // The pool when a run starts: queue_size_ buffers, none in use.
  function Pool(queueSize: nat): seq<Slot> {
    seq(queueSize, _ => Slot(Empty, 0, 0, 0, false))
  }

  // ---------------------------------------------------------------- steps

  // startRun
  function StartRun(cfg: Config, slots: seq<Slot>): Table {
    Table(slots, {}, {}, map[], {}, 0, if cfg.routing then |slots| else 0, 0, {}, [], multiset{}, multiset{})
  }

  // The buffers that the timeout check of check_pending_buffers_ moves from active to pending.
  function Expired(t: Table, stale: set<nat>): set<nat> {
    set b | b in t.active && b in stale && b !in t.pending && b < |t.slots|
            && t.slots[b].status == Writing && t.slots[b].writers == 0
  }

  // The missing fragments of the event in buffer b, given what released_incomplete_events_ already says.
  function Missing(cfg: Config, incomplete: map<nat, nat>, s: Slot): nat {
    Minus(if s.seqId in incomplete then incomplete[s.seqId] else cfg.expected, s.fragments)
  }

  // released_incomplete_events_ after the buffers have timed out, in increasing order.
  function WithMissing(cfg: Config, slots: seq<Slot>, incomplete: map<nat, nat>, gone: set<nat>): map<nat, nat>
    requires forall b :: b in gone ==> b < |slots|
    decreases gone
  {
    if gone == {} then incomplete
    else
      var b := Greatest(gone);
      var before := WithMissing(cfg, slots, incomplete, gone - {b});
      before[slots[b].seqId := Missing(cfg, before, slots[b])]
  }

  function Expire(cfg: Config, t: Table, stale: set<nat>): Table {
    var gone := Expired(t, stale);
    t.(active := t.active - gone, pending := t.pending + gone,
       incomplete := WithMissing(cfg, t.slots, t.incomplete, gone))
  }

  ghost function ReleasePending(t: Table): Table
    requires forall b :: b in t.pending ==> b < |t.slots|
  {
    t.(slots := MarkFull(t.slots, t.pending),
       pending := {},
       log := t.log + Sorted(SeqIds(t.slots, t.pending)),
       runEvents := t.runEvents + |t.pending|)
  }

  function SendTokens(cfg: Config, t: Table): Table {
    var outstanding := Minus(t.tokensSent, t.runEvents);
    var available := |In(t.slots, Empty)|;
    if cfg.routing && available > outstanding then t.(tokensSent := t.tokensSent + (available - outstanding)) else t
  }

  // check_pending_buffers_; stale: the buffers for which ResetBuffer reports that they timed out.
  ghost function CheckPending(cfg: Config, t: Table, stale: set<nat>): (u: Table)
    requires forall b :: b in t.pending ==> b < |t.slots|
    ensures u.pending == {} && |u.slots| == |t.slots|
  {
    SendTokens(cfg, ReleasePending(Expire(cfg, t, stale)))
  }

  function OpenSlot(t: Table, slot: nat, seqId: nat): Table
    requires slot < |t.slots|
  {
    t.(slots := t.slots[slot := Slot(Writing, seqId, 0, 0, false)], active := t.active + {slot}, opens := t.opens + 1)
  }

  datatype Found = Buffer(b: nat) | NoBuffer | Passed

  function OpenIfEmpty(t: Table, slot: nat, seqId: nat): (r: (Table, Found))
    ensures |r.0.slots| == |t.slots| && r.0.pending == t.pending && (r.1.Buffer? ==> r.1.b < |t.slots|)
  {
    if slot < |t.slots| && t.slots[slot].status == Empty then (OpenSlot(t, slot, seqId), Buffer(slot))
      else (t, NoBuffer)
  }

  // No buffer holds the event, and it is not known to have ended: without create_new the answer is -1.
  predicate Unknown(t: Table, seqId: nat) {
    Holding(t.slots, seqId) == {} && seqId !in t.incomplete && seqId !in t.released
  }

  // getBufferForSequenceID_ with create_new; slot: the buffer GetBufferForWriting hands out, if it is Empty.
  ghost function FindOrOpen(cfg: Config, t: Table, seqId: nat, stale: set<nat>, slot: nat): (r: (Table, Found))
    requires t.pending == {}
    ensures r.0.pending == {} && |r.0.slots| == |t.slots|
    ensures r.1.Buffer? ==> r.1.b < |t.slots|
  {
    if Holding(t.slots, seqId) != {} then (t, Buffer(Least(Holding(t.slots, seqId))))
    else if seqId in t.incomplete || seqId in t.released then (t, Passed)
    else
      OpenIfEmpty(CheckPending(cfg, t, stale), slot, seqId)
  }

  // One more fragment in the buffer, with a writer still to fill in its body or not.
  function Put(t: Table, b: nat, writing: bool): Table
    requires b < |t.slots|
  {
    var s := t.slots[b];
    t.(slots := t.slots[b := s.(fragments := s.fragments + 1, writers := s.writers + if writing then 1 else 0)],
       accepted := t.accepted + multiset{s.seqId},
       inFlight := if writing then t.inFlight + multiset{s.seqId} else t.inFlight)
  }

  // WriteFragmentHeader
  ghost function Header(cfg: Config, t: Table, seqId: nat, stale: set<nat>, slot: nat): Table
    requires t.pending == {}
  {
    var (u, found) := FindOrOpen(cfg, t, seqId, stale, slot);
    if found.Buffer? then Put(u, found.b, true) else u
  }

  function AddReleased(released: set<nat>, seqId: nat, maxList: nat): set<nat> {
    var more := released + {seqId};
    if |more| <= maxList then more else more - {Least(more)}
  }

  // complete_buffer_, before it checks the pending buffers
  function MarkComplete(cfg: Config, t: Table, b: nat): Table
    requires b < |t.slots|
  {
    if t.slots[b].complete then
      t.(active := t.active - {b}, pending := t.pending + {b},
         released := AddReleased(t.released, t.slots[b].seqId, cfg.maxList),
         completed := t.completed + {t.slots[b].seqId})
    else t
  }

  function SetComplete(t: Table, b: nat, complete: bool): Table
    requires b < |t.slots|
  {
    t.(slots := t.slots[b := t.slots[b].(complete := complete)])
  }

  function DropWriter(t: Table, b: nat): Table
    requires b < |t.slots|
  {
    t.(slots := t.slots[b := t.slots[b].(writers := t.slots[b].writers - 1)])
  }

  // DoneWritingFragment
  ghost function Done(cfg: Config, t: Table, seqId: nat, stale: set<nat>): Table
    requires t.pending == {}
  {
    if Holding(t.slots, seqId) == {} then t
    else
      var b := Least(Holding(t.slots, seqId));
      var u := t.(inFlight := t.inFlight - multiset{seqId});
      if t.slots[b].writers > 1 then DropWriter(u, b)
      else
        var v := MarkComplete(cfg, SetComplete(u, b, t.slots[b].fragments >= cfg.expected), b);
        DropWriter(CheckPending(cfg, v, stale), b)
  }

  // AddFragment
  ghost function Add(cfg: Config, t: Table, seqId: nat, stale: set<nat>, slot: nat): Table
    requires t.pending == {}
  {
    var (u, found) := FindOrOpen(cfg, t, seqId, stale, slot);
    if found.Buffer? then
      var v := Put(u, found.b, false);
      var s := v.slots[found.b];
      CheckPending(cfg, MarkComplete(cfg, SetComplete(v, found.b, s.fragments == cfg.expected && s.writers == 0),
        found.b), stale)
    else u
  }

  // art starts and finishes reading a buffer.
  function Take(t: Table, b: nat): Table {
    if b < |t.slots| && t.slots[b].status == Full then t.(slots := t.slots[b := t.slots[b].(status := Reading)]) else t
  }

  function Finish(t: Table, b: nat): Table {
    if b < |t.slots| && t.slots[b].status == Reading then t.(slots := t.slots[b := t.slots[b].(status := Empty)]) else t
  }
}
