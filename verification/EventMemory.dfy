/** What lies in the memory of each buffer over whole runs of the event builder: the headers announced to a buffer since
    it was opened are the fragments that the event table counts, so the walk over its memory counts the same as long as
    there was room. */
module EventMemory {
  import opened Ordered
  import opened EventTable
  import opened EventLayout
  import opened EventSteps
  import opened EventRuns

  // The buffer that takes the fragment, and whether it is opened for it.
  ghost function Finds(cfg: Config, t: Table, op: Op): (Found, bool)
    requires t.pending == {} && Fetches(op)
  {
    (FindOrOpen(cfg, t, op.seqId, op.stale, op.slot).1, Holding(t.slots, op.seqId) == {})
  }

  // The word counts announced to each buffer since it was opened; step i brings a fragment of words[i] words.
  ghost function Announced(cfg: Config, queueSize: nat, ops: seq<Op>, words: seq<nat>): (counts: seq<seq<nat>>)
    requires |words| == |ops|
    ensures |counts| == queueSize
  {
    if ops == [] then seq(queueSize, _ => [])
    else
      var n := |ops| - 1;
      var before, t := Announced(cfg, queueSize, ops[..n], words[..n]), Run(cfg, queueSize, ops[..n]);
      if Fetches(ops[n]) then Announce(before, Finds(cfg, t, ops[n]), words[n]) else before
  }

  ghost function Announce(before: seq<seq<nat>>, found: (Found, bool), count: nat): seq<seq<nat>>
    requires found.0.Buffer? ==> found.0.b < |before|
  {
    if !found.0.Buffer? then before
    else before[found.0.b := (if found.1 then [] else before[found.0.b]) + [count]]
  }

  // Each buffer's list is as long as the count of the event table.
  ghost predicate Agree(counts: seq<seq<nat>>, slots: seq<Slot>) {
    |counts| == |slots| && forall b :: 0 <= b < |slots| ==> |counts[b]| == slots[b].fragments
  }

  // ---------------------------------------------------------------- steps

  ghost predicate SameFragments(s: seq<Slot>, t: seq<Slot>) {
    |s| == |t| && forall b :: 0 <= b < |s| ==> s[b].fragments == t[b].fragments
  }

  lemma CheckKeepsFragments(cfg: Config, t: Table, stale: set<nat>)
    requires forall b :: b in t.pending ==> b < |t.slots|
    ensures SameFragments(t.slots, CheckPending(cfg, t, stale).slots)
  {
  }

  lemma CompleteKeepsFragments(cfg: Config, t: Table, b: nat, complete: bool, stale: set<nat>)
    requires t.pending == {} && b < |t.slots|
    ensures SameFragments(t.slots, Complete(cfg, t, b, complete, stale).slots)
  {
    CheckKeepsFragments(cfg, MarkComplete(cfg, SetComplete(t, b, complete), b), stale);
  }

  lemma DropKeepsFragments(s: seq<Slot>, u: Table, b: nat)
    requires SameFragments(s, u.slots) && b < |s|
    ensures SameFragments(s, DropWriter(u, b).slots)
  {
  }

  lemma FinishKeepsFragments(cfg: Config, t: Table, b: nat, stale: set<nat>)
    requires t.pending == {} && b < |t.slots|
    ensures SameFragments(t.slots, AfterFinish(cfg, t, b, stale).slots)
  {
    var complete := t.slots[b].fragments >= cfg.expected;
    CompleteKeepsFragments(cfg, t, b, complete, stale);
    DropKeepsFragments(t.slots, Complete(cfg, t, b, complete, stale), b);
    DropKeepsFragments(t.slots, t, b);
  }

  lemma OtherKeepsFragments(cfg: Config, t: Table, op: Op)
    requires t.pending == {} && !Fetches(op)
    ensures SameFragments(t.slots, Step(cfg, t, op).slots)
  {
    match op
    case DoneOp(seqId, stale) =>
      if Holding(t.slots, seqId) != {} {
        var u := t.(inFlight := t.inFlight - multiset{seqId});
        FinishKeepsFragments(cfg, u, Least(Holding(t.slots, seqId)), stale);
      }
    case DroppedOp(seqId, stale) =>
      if Holding(t.slots, seqId) != {} {
        FinishKeepsFragments(cfg, t, Least(Holding(t.slots, seqId)), stale);
      }
    case CheckOp(stale) => CheckKeepsFragments(cfg, t, stale);
    case _ =>
  }

  lemma OpenKeepsFragments(s: seq<Slot>, t: Table, slot: nat, seqId: nat)
    requires SameFragments(s, t.slots)
    ensures var (u, found) := OpenIfEmpty(t, slot, seqId);
            if found.Buffer? then SameFragments(s[found.b := u.slots[found.b]], u.slots)
              && u.slots[found.b].fragments == 0
            else SameFragments(s, u.slots)
  {
  }

  // A new event finds an empty buffer; every other buffer, and the buffer of an old one, counts what it did.
  lemma FindKeepsFragments(cfg: Config, t: Table, seqId: nat, stale: set<nat>, slot: nat)
    requires t.pending == {}
    ensures var (u, found) := FindOrOpen(cfg, t, seqId, stale, slot);
            if found.Buffer? && Holding(t.slots, seqId) == {} then
              SameFragments(t.slots[found.b := u.slots[found.b]], u.slots)
              && u.slots[found.b].fragments == 0
            else SameFragments(t.slots, u.slots)
  {
    CheckKeepsFragments(cfg, t, stale);
    OpenKeepsFragments(t.slots, CheckPending(cfg, t, stale), slot, seqId);
  }

  lemma PutAgrees(s: seq<Slot>, u: Table, b: nat, opens: bool, writing: bool, before: seq<seq<nat>>, count: nat)
    requires Agree(before, s) && |u.slots| == |s| && b < |s|
    requires if opens then SameFragments(s[b := u.slots[b]], u.slots) && u.slots[b].fragments == 0
             else SameFragments(s, u.slots)
    ensures Agree(Announce(before, (Buffer(b), opens), count), Put(u, b, writing).slots)
  {
  }

  lemma FindAgrees(cfg: Config, t: Table, op: Op, before: seq<seq<nat>>, count: nat)
    requires t.pending == {} && Fetches(op) && Agree(before, t.slots)
    ensures var (u, found) := FindOrOpen(cfg, t, op.seqId, op.stale, op.slot);
            var after := Announce(before, Finds(cfg, t, op), count);
            if found.Buffer? then Agree(after, Put(u, found.b, op.HeaderOp?).slots) else Agree(after, u.slots)
  {
    FindKeepsFragments(cfg, t, op.seqId, op.stale, op.slot);
    var (u, found) := FindOrOpen(cfg, t, op.seqId, op.stale, op.slot);
    if found.Buffer? {
      PutAgrees(t.slots, u, found.b, Holding(t.slots, op.seqId) == {}, op.HeaderOp?, before, count);
    }
  }

  lemma FetchAgrees(cfg: Config, t: Table, op: Op, before: seq<seq<nat>>, count: nat)
    requires t.pending == {} && Fetches(op) && Agree(before, t.slots)
    ensures Agree(Announce(before, Finds(cfg, t, op), count), Step(cfg, t, op).slots)
  {
    FindAgrees(cfg, t, op, before, count);
    var (u, found) := FindOrOpen(cfg, t, op.seqId, op.stale, op.slot);
    if op.AddOp? && found.Buffer? {
      var v := Put(u, found.b, false);
      var s := v.slots[found.b];
      CompleteKeepsFragments(cfg, v, found.b, s.fragments == cfg.expected && s.writers == 0, op.stale);
    }
  }

  // ---------------------------------------------------------------- runs

  // In every reachable state of every run the event table counts, for each buffer, the headers announced to it since it
  // was opened.
  lemma {:induction false} FragmentsAreAnnounced(cfg: Config, queueSize: nat, ops: seq<Op>, words: seq<nat>)
    requires |words| == |ops|
    ensures Agree(Announced(cfg, queueSize, ops, words), Run(cfg, queueSize, ops).slots)
  {
    if ops != [] {
      var n := |ops| - 1;
      var t := Run(cfg, queueSize, ops[..n]);
      FragmentsAreAnnounced(cfg, queueSize, ops[..n], words[..n]);
      if Fetches(ops[n]) {
        FetchAgrees(cfg, t, ops[n], Announced(cfg, queueSize, ops[..n], words[..n]), words[n]);
      } else {
        OtherKeepsFragments(cfg, t, ops[n]);
      }
    }
  }

  // In every reachable state the walk over the memory of a buffer counts what the event table does, if and only if
  // there was room for the last header announced to it.
  lemma WalkCountsFragmentsIff(cfg: Config, queueSize: nat, ops: seq<Op>, words: seq<nat>, b: nat, blocks: seq<Block>,
                               start: nat, headerWords: nat, size: nat)
    requires |words| == |ops| && b < queueSize && Run(cfg, queueSize, ops).slots[b].fragments > 0
    requires AllFramed(blocks, headerWords)
    requires |blocks| == Kept(start, Announced(cfg, queueSize, ops, words)[b], headerWords, size)
    ensures var counts := Announced(cfg, queueSize, ops, words)[b];
            && counts != [] && |Walk(Memory(blocks))| <= Run(cfg, queueSize, ops).slots[b].fragments
            && (|Walk(Memory(blocks))| == Run(cfg, queueSize, ops).slots[b].fragments
                <==> Position(start, counts[..|counts| - 1], headerWords, size) + headerWords <= size)
  {
    FragmentsAreAnnounced(cfg, queueSize, ops, words);
    WalkMeetsEveryHeader(blocks, headerWords);
    AllAreKeptIff(start, Announced(cfg, queueSize, ops, words)[b], headerWords, size);
  }
}
