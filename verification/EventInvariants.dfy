/** What every step of the event table keeps. */
module EventInvariants {
  import opened Ordered
  import opened EventTable

  // ---------------------------------------------------------------- who owns which buffer

  ghost predicate Distinct(slots: seq<Slot>) {
    forall a, b :: a in In(slots, Writing) && b in In(slots, Writing) && slots[a].seqId == slots[b].seqId ==> a == b
  }

  // The buffers being written are the active and the pending ones, they hold different events,
  // and every event opened is active, pending or released.
  ghost predicate Owned(t: Table) {
    && t.active + t.pending == In(t.slots, Writing) && t.active !! t.pending
    && Distinct(t.slots)
    && t.opens == |t.log| + |t.active| + |t.pending|
    && t.runEvents == |t.log|
  }

  lemma {:induction false} ImageSize(slots: seq<Slot>, buffers: set<nat>)
    requires Distinct(slots) && buffers <= In(slots, Writing)
    ensures |SeqIds(slots, buffers)| == |buffers|
    decreases buffers
  {
    if buffers != {} {
      var b :| b in buffers;
      var rest := buffers - {b};
      ImageSize(slots, rest);
      assert SeqIds(slots, buffers) == SeqIds(slots, rest) + {slots[b].seqId};
      assert slots[b].seqId !in SeqIds(slots, rest);
    }
  }

  lemma MarkFullIn(slots: seq<Slot>, buffers: set<nat>)
    requires buffers <= In(slots, Writing)
    ensures In(MarkFull(slots, buffers), Writing) == In(slots, Writing) - buffers
    ensures In(MarkFull(slots, buffers), Empty) == In(slots, Empty)
  {
  }

  // Moving c from a to b.
  lemma Moved(a: set<nat>, b: set<nat>, c: set<nat>)
    requires c <= a && a !! b
    ensures (a - c) !! (b + c) && (a - c) + (b + c) == a + b
    ensures |a - c| + |b + c| == |a| + |b|
  {
    assert a == (a - c) + c;
  }

  lemma ExpireKeepsOwned(cfg: Config, t: Table, stale: set<nat>)
    requires Owned(t)
    ensures Owned(Expire(cfg, t, stale))
  {
    Moved(t.active, t.pending, Expired(t, stale));
  }

  lemma ReleaseKeepsOwned(t: Table)
    requires Owned(t)
    ensures Owned(ReleasePending(t))
  {
    assert forall b :: b in t.pending ==> b in In(t.slots, Writing);
    ImageSize(t.slots, t.pending);
    MarkFullIn(t.slots, t.pending);
  }

  lemma CheckKeepsOwned(cfg: Config, t: Table, stale: set<nat>)
    requires Owned(t)
    ensures Owned(CheckPending(cfg, t, stale)) && CheckPending(cfg, t, stale).pending == {}
  {
    ExpireKeepsOwned(cfg, t, stale);
    ReleaseKeepsOwned(Expire(cfg, t, stale));
  }

  lemma WriteInto(slots: seq<Slot>, b: nat, s: Slot)
    requires b < |slots|
    ensures In(slots[b := s], Writing)
            == if s.status == Writing then In(slots, Writing) + {b} else In(slots, Writing) - {b}
    ensures In(slots[b := s], Empty) == if s.status == Empty then In(slots, Empty) + {b} else In(slots, Empty) - {b}
  {
  }

  lemma OpenKeepsDistinct(slots: seq<Slot>, b: nat, s: Slot)
    requires Distinct(slots) && b < |slots| && Holding(slots, s.seqId) == {}
    ensures Distinct(slots[b := s])
  {
    WriteInto(slots, b, s);
    forall a | a in In(slots, Writing) ensures slots[a].seqId != s.seqId {
      assert a !in Holding(slots, s.seqId);
    }
  }

  lemma AddOne(a: set<nat>, b: set<nat>, both: set<nat>, x: nat)
    requires a + b == both && a !! b && x !in both
    ensures (a + {x}) + b == both + {x} && (a + {x}) !! b && |a + {x}| == |a| + 1
  {
  }

  lemma OpenKeepsOwned(t: Table, slot: nat, seqId: nat)
    requires Owned(t) && slot < |t.slots| && t.slots[slot].status == Empty && Holding(t.slots, seqId) == {}
    ensures Owned(OpenSlot(t, slot, seqId))
  {
    var s := Slot(Writing, seqId, 0, 0, false);
    WriteInto(t.slots, slot, s);
    OpenKeepsDistinct(t.slots, slot, s);
    AddOne(t.active, t.pending, In(t.slots, Writing), slot);
  }

  // Changing a buffer's counts changes neither its state nor its event.
  lemma RecountKeepsDistinct(slots: seq<Slot>, b: nat, s: Slot)
    requires b < |slots| && s.status == slots[b].status && s.seqId == slots[b].seqId
    ensures In(slots[b := s], Writing) == In(slots, Writing) && In(slots[b := s], Empty) == In(slots, Empty)
    ensures Distinct(slots) ==> Distinct(slots[b := s])
    ensures forall q :: Holding(slots[b := s], q) == Holding(slots, q)
  {
    WriteInto(slots, b, s);
  }

  lemma RecountKeepsOwned(t: Table, b: nat, s: Slot, u: Table)
    requires Owned(t) && b < |t.slots| && s.status == t.slots[b].status && s.seqId == t.slots[b].seqId
    requires u == t.(slots := t.slots[b := s], accepted := u.accepted, inFlight := u.inFlight)
    ensures Owned(u)
  {
    RecountKeepsDistinct(t.slots, b, s);
  }

  lemma ReadKeepsOwned(t: Table, b: nat, s: Slot)
    requires Owned(t) && b < |t.slots| && t.slots[b].status != Writing && s.status != Writing
    ensures Owned(t.(slots := t.slots[b := s])) && b !in t.active
  {
    WriteInto(t.slots, b, s);
    assert b !in In(t.slots, Writing);
    assert In(t.slots[b := s], Writing) == In(t.slots, Writing);
  }

  lemma MarkKeepsOwned(cfg: Config, t: Table, b: nat)
    requires Owned(t) && b in t.active
    requires b < |t.slots|
    ensures Owned(MarkComplete(cfg, t, b))
  {
    Moved(t.active, t.pending, {b});
  }

  lemma ExpiredAreWriting(t: Table, stale: set<nat>)
    requires Owned(t)
    ensures Expired(t, stale) <= t.active && t.pending + Expired(t, stale) <= In(t.slots, Writing)
  {
  }

  // What a check of the pending buffers does to everything but the tokens.
  lemma CheckIs(cfg: Config, t: Table, stale: set<nat>)
    requires forall b :: b in t.pending ==> b < |t.slots|
    ensures var u, gone := CheckPending(cfg, t, stale), Expired(t, stale);
            && u.slots == MarkFull(t.slots, t.pending + gone)
            && u.pending == {} && u.active == t.active - gone
            && u.inFlight == t.inFlight && u.accepted == t.accepted && u.opens == t.opens
            && u.completed == t.completed && u.released == t.released
            && u.log == t.log + Sorted(SeqIds(t.slots, t.pending + gone))
            && u.incomplete == Expire(cfg, t, stale).incomplete
  {
  }

  // ---------------------------------------------------------------- writers in flight

  // w: the buffer whose finishing writer is no longer in flight but still counted; -1 between steps.
  function Finishing(b: nat, w: int): int {
    if b == w then 1 else 0
  }

  // buffer_writes_pending_ is the number of fragments in flight, and no buffer leaves while one is.
  ghost predicate Counted(slots: seq<Slot>, pending: set<nat>, inFlight: multiset<nat>, w: int) {
    && (forall b :: b in In(slots, Writing) ==> slots[b].writers == inFlight[slots[b].seqId] + Finishing(b, w))
    && (forall b :: b in pending ==> b < |slots| && inFlight[slots[b].seqId] == 0)
    && (forall q :: q in inFlight ==> Holding(slots, q) != {})
  }

  // An active buffer without a writer is not complete (x: the one buffer this is not claimed of).
  ghost predicate Building(expected: nat, slots: seq<Slot>, active: set<nat>, x: int) {
    forall b :: b in active && b != x ==>
      b < |slots| && 1 <= slots[b].fragments && (slots[b].writers == 0 ==> slots[b].fragments < expected)
  }

  lemma FullKeepsHolding(slots: seq<Slot>, buffers: set<nat>, b: nat)
    requires b in In(slots, Writing) && b !in buffers
    ensures b in Holding(MarkFull(slots, buffers), slots[b].seqId)
  {
  }

  // Buffers without writers may leave, whether they are complete or timed out.
  lemma LeaveKeepsCounted(slots: seq<Slot>, pending: set<nat>, idle: set<nat>, inFlight: multiset<nat>, w: int)
    requires Counted(slots, pending, inFlight, w) && pending + idle <= In(slots, Writing)
    requires forall b :: b in idle ==> slots[b].writers == 0
    ensures Counted(MarkFull(slots, pending + idle), {}, inFlight, w)
    ensures forall b :: b in pending + idle ==> inFlight[slots[b].seqId] == 0
  {
    MarkFullIn(slots, pending + idle);
    forall b | b in idle ensures inFlight[slots[b].seqId] == 0 {
      assert b in In(slots, Writing);
    }
    forall q | q in inFlight ensures Holding(MarkFull(slots, pending + idle), q) != {} {
      var b :| b in Holding(slots, q);
      FullKeepsHolding(slots, pending + idle, b);
    }
  }

  lemma OpenKeepsCounted(slots: seq<Slot>, inFlight: multiset<nat>, b: nat, s: Slot)
    requires Counted(slots, {}, inFlight, -1) && b < |slots| && slots[b].status != Writing
    requires s.status == Writing && s.writers == 0 && Holding(slots, s.seqId) == {}
    ensures Counted(slots[b := s], {}, inFlight, -1)
  {
    WriteInto(slots, b, s);
    forall q | q in inFlight ensures Holding(slots[b := s], q) != {} {
      var a :| a in Holding(slots, q);
      assert a in Holding(slots[b := s], q);
    }
  }

  lemma PutKeepsCounted(slots: seq<Slot>, inFlight: multiset<nat>, b: nat, s: Slot)
    requires Distinct(slots) && Counted(slots, {}, inFlight, -1) && b in In(slots, Writing)
    requires s.status == Writing && s.seqId == slots[b].seqId
    requires s.writers == slots[b].writers || s.writers == slots[b].writers + 1
    ensures Counted(slots[b := s], {},
                    if s.writers == slots[b].writers then inFlight else inFlight + multiset{s.seqId}, -1)
  {
    RecountKeepsDistinct(slots, b, s);
    assert b in Holding(slots, s.seqId);
    forall a | a in In(slots, Writing) && a != b ensures slots[a].seqId != s.seqId {}
  }

  lemma StartDone(slots: seq<Slot>, inFlight: multiset<nat>, b: nat)
    requires Distinct(slots) && Counted(slots, {}, inFlight, -1) && b in In(slots, Writing)
    requires slots[b].seqId in inFlight
    ensures Counted(slots, {}, inFlight - multiset{slots[b].seqId}, b)
  {
    forall a | a in In(slots, Writing) && a != b ensures slots[a].seqId != slots[b].seqId {}
  }

  lemma SameWriters(slots: seq<Slot>, pending: set<nat>, inFlight: multiset<nat>, w: int, b: nat, s: Slot)
    requires Counted(slots, pending, inFlight, w) && b < |slots|
    requires s.status == slots[b].status && s.seqId == slots[b].seqId && s.writers == slots[b].writers
    ensures Counted(slots[b := s], pending, inFlight, w)
  {
    RecountKeepsDistinct(slots, b, s);
  }

  lemma MarkKeepsCounted(slots: seq<Slot>, inFlight: multiset<nat>, b: nat, w: int)
    requires Counted(slots, {}, inFlight, w) && b < |slots| && inFlight[slots[b].seqId] == 0
    ensures Counted(slots, {} + {b}, inFlight, w)
  {
  }

  // A buffer that art reads.
  lemma ReadKeepsCounted(slots: seq<Slot>, inFlight: multiset<nat>, b: nat, s: Slot)
    requires Counted(slots, {}, inFlight, -1) && b < |slots| && slots[b].status != Writing && s.status != Writing
    ensures Counted(slots[b := s], {}, inFlight, -1)
  {
    WriteInto(slots, b, s);
    forall q | q in inFlight ensures Holding(slots[b := s], q) != {} {
      var a :| a in Holding(slots, q);
      assert a in Holding(slots[b := s], q);
    }
  }

  lemma EndDone(slots: seq<Slot>, inFlight: multiset<nat>, b: nat, s: Slot)
    requires Counted(slots, {}, inFlight, b) && b < |slots|
    requires s.status == slots[b].status && s.seqId == slots[b].seqId && s.writers == slots[b].writers - 1
    ensures Counted(slots[b := s], {}, inFlight, -1)
  {
    RecountKeepsDistinct(slots, b, s);
  }

  lemma LeaveKeepsBuilding(expected: nat, slots: seq<Slot>, active: set<nat>, leaving: set<nat>, x: int)
    requires Building(expected, slots, active, x) && active !! leaving
    ensures Building(expected, MarkFull(slots, leaving), active, x)
  {
  }

  lemma FewerBuilding(expected: nat, slots: seq<Slot>, active: set<nat>, fewer: set<nat>, x: int)
    requires Building(expected, slots, active, x) && fewer <= active
    ensures Building(expected, slots, fewer, x)
  {
  }

  lemma WeakenBuilding(expected: nat, slots: seq<Slot>, active: set<nat>, b: nat)
    requires Building(expected, slots, active, -1)
    ensures Building(expected, slots, active, b)
  {
  }

  lemma LastBuilding(expected: nat, slots: seq<Slot>, active: set<nat>, b: nat)
    requires Building(expected, slots, active, b)
    ensures Building(expected, slots, active - {b}, -1)
  {
  }

  // s: the new contents of buffer b.
  lemma FillKeepsBuilding(expected: nat, slots: seq<Slot>, active: set<nat>, x: int, b: nat, s: Slot, y: int)
    requires Building(expected, slots, active, x) && b < |slots| && (x == -1 || x == b)
    requires y == b || (1 <= s.fragments && (s.writers == 0 ==> s.fragments < expected))
    ensures Building(expected, slots[b := s], active + {b}, y)
    ensures b in active ==> Building(expected, slots[b := s], active, y)
  {
  }

  lemma RecountKeepsBuilding(expected: nat, slots: seq<Slot>, active: set<nat>, x: int, b: nat, s: Slot)
    requires Building(expected, slots, active, x) && b < |slots|
    requires b in active ==> 1 <= s.fragments && (s.writers == 0 ==> s.fragments < expected)
    ensures Building(expected, slots[b := s], active, x)
  {
  }

  // ---------------------------------------------------------------- lists of released events

  // top: the k largest elements of all.
  ghost predicate IsTop(k: nat, all: set<nat>, top: set<nat>) {
    && top <= all && |top| == (if |all| <= k then |all| else k)
    && forall x, y :: x in top && y in all && y !in top ==> y < x
  }

  lemma AddKeepsTop(k: nat, all: set<nat>, top: set<nat>, x: nat)
    requires IsTop(k, all, top)
    ensures IsTop(k, all + {x}, AddReleased(top, x, k))
  {
    var more := top + {x};
    if x in top {
      assert all + {x} == all && more == top;
    } else {
      if top < all { SubsetSize(top, all); }
      if |more| <= k {
        assert top == all;
      } else {
        DropLeast(all, top, x);
        if x in all { SubsetSize(top, all); assert all + {x} == all; }
      }
    }
  }

  lemma SubsetSize(a: set<nat>, b: set<nat>)
    requires a < b
    ensures |a| < |b|
  {
    assert b == a + (b - a);
    assert b - a != {};
  }

  lemma DropLeast(all: set<nat>, top: set<nat>, x: nat)
    requires top <= all && x !in top
    requires forall a, y :: a in top && y in all && y !in top ==> y < a
    ensures var r := (top + {x}) - {Least(top + {x})};
            |r| == |top| && r <= all + {x} && forall a, y :: a in r && y in all + {x} && y !in r ==> y < a
  {
    var more := top + {x};
    var least := Least(more);
    var r := more - {least};
    forall a, y | a in r && y in all + {x} && y !in r ensures y < a {
      if y != least && a == x {
        assert least in top;
      }
    }
  }

  // The timeout list never names an open event, and says how many of its fragments were missing.
  ghost predicate Absent(slots: seq<Slot>, active: set<nat>, listed: set<nat>) {
    forall b :: b in active ==> b < |slots| && slots[b].seqId !in listed
  }

  lemma FullKeepsAbsent(slots: seq<Slot>, active: set<nat>, listed: set<nat>, leaving: set<nat>)
    requires Absent(slots, active, listed)
    ensures Absent(MarkFull(slots, leaving), active, listed)
  {
  }

  lemma FillKeepsAbsent(slots: seq<Slot>, active: set<nat>, listed: set<nat>, b: nat, s: Slot)
    requires Absent(slots, active, listed) && b < |slots| && s.seqId !in listed
    ensures Absent(slots[b := s], active + {b}, listed)
    ensures b in active ==> Absent(slots[b := s], active, listed)
  {
  }

  lemma RecountKeepsAbsent(slots: seq<Slot>, active: set<nat>, listed: set<nat>, b: nat, s: Slot)
    requires Absent(slots, active, listed) && b < |slots| && (b in active ==> s.seqId == slots[b].seqId)
    ensures Absent(slots[b := s], active, listed)
  {
  }

  lemma FewerAbsent(slots: seq<Slot>, active: set<nat>, fewer: set<nat>, listed: set<nat>)
    requires Absent(slots, active, listed) && fewer <= active
    ensures Absent(slots, fewer, listed)
  {
  }

  ghost predicate InRange(expected: nat, incomplete: map<nat, nat>) {
    forall q :: q in incomplete ==> 1 <= incomplete[q] < expected
  }

  // The list after a timeout: one new entry for each buffer that timed out.
  lemma {:induction false} WithMissingIs(cfg: Config, slots: seq<Slot>, incomplete: map<nat, nat>, gone: set<nat>)
    requires Distinct(slots) && gone <= In(slots, Writing)
    ensures var r := WithMissing(cfg, slots, incomplete, gone);
            && r.Keys == incomplete.Keys + SeqIds(slots, gone)
            && (forall q :: q in incomplete && q !in SeqIds(slots, gone) ==> r[q] == incomplete[q])
            && (forall b :: b in gone ==> r[slots[b].seqId] == Missing(cfg, incomplete, slots[b]))
    decreases gone
  {
    if gone != {} {
      var b := Greatest(gone);
      var rest := gone - {b};
      WithMissingIs(cfg, slots, incomplete, rest);
      assert SeqIds(slots, gone) == SeqIds(slots, rest) + {slots[b].seqId};
      assert slots[b].seqId !in SeqIds(slots, rest);
    }
  }

  lemma MissingInRange(cfg: Config, incomplete: map<nat, nat>, s: Slot)
    requires 1 <= s.fragments < cfg.expected < SIZES && s.seqId !in incomplete
    ensures Missing(cfg, incomplete, s) == cfg.expected - s.fragments
  {
  }

  lemma ExpireKeepsLists(cfg: Config, t: Table, stale: set<nat>, x: int)
    requires Owned(t) && Building(cfg.expected, t.slots, t.active, x) && cfg.expected < SIZES
    requires 0 <= x ==> x !in Expired(t, stale)
    requires Absent(t.slots, t.active, t.incomplete.Keys) && InRange(cfg.expected, t.incomplete)
    ensures var u := Expire(cfg, t, stale);
            Absent(t.slots, u.active, u.incomplete.Keys) && InRange(cfg.expected, u.incomplete)
  {
    var u := Expire(cfg, t, stale);
    var gone := Expired(t, stale);
    WithMissingIs(cfg, t.slots, t.incomplete, gone);
    forall q | q in u.incomplete ensures 1 <= u.incomplete[q] < cfg.expected {
      if q in SeqIds(t.slots, gone) {
        var b :| b in gone && t.slots[b].seqId == q;
        MissingInRange(cfg, t.incomplete, t.slots[b]);
      }
    }
    forall b | b in u.active ensures t.slots[b].seqId !in SeqIds(t.slots, gone) {
      assert b in In(t.slots, Writing);
      assert forall a :: a in gone ==> a in In(t.slots, Writing);
    }
  }
}
