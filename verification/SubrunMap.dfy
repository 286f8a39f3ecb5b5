/** The sequence ID to subrun table of SharedMemoryEventManager (artdaq/DAQrate/SharedMemoryEventManager.cc:973-1015
    and 1104-1121). The std::map is the sequence of its entries from begin() to end().
    Sequence IDs are 64-bit and subrun numbers 32-bit unsigned integers. */
module Subruns {

  const SEQUENCE_IDS: nat := 0x1_0000_0000_0000_0000
  const SUBRUNS: nat := 0x1_0000_0000

  datatype Entry = Entry(boundary: nat, subrun: nat)

  type Table = seq<Entry>

  ghost predicate Ordered(t: Table) {
    forall i, j :: 0 <= i < j < |t| ==> t[i].boundary < t[j].boundary
  }

  // x + 1 in an unsigned type with the given number of values.
  function Successor(x: nat, values: nat): nat {
    if x + 1 == values then 0 else x + 1
  }

  function Last(t: Table): Entry
    requires t != []
  {
    t[|t| - 1]
  }

  function Front(t: Table): Table
    requires t != []
  {
    t[..|t| - 1]
  }

  // ---------------------------------------------------------------- lookup

  // The subrun at the greatest boundary not above id; 1 when there is none.
  function SubrunAt(t: Table, id: nat): nat {
    if t == [] then 1 else if Last(t).boundary <= id then Last(t).subrun else SubrunAt(Front(t), id)
  }

  // SubrunAt is a floor lookup.
  lemma {:induction false} FloorLookup(t: Table, id: nat, k: nat)
    requires Ordered(t) && k <= |t|
    requires forall i :: 0 <= i < k ==> t[i].boundary <= id
    requires forall i :: k <= i < |t| ==> t[i].boundary > id
    ensures SubrunAt(t, id) == if k == 0 then 1 else t[k - 1].subrun
  {
    if k < |t| { FloorLookup(Front(t), id, k); }
  }

  // ---------------------------------------------------------------- update and trimming

  // t[boundary] = subrun
  function Put(t: Table, boundary: nat, subrun: nat): (r: Table)
    ensures r != []
  {
    if t == [] || Last(t).boundary < boundary then t + [Entry(boundary, subrun)]
    else if Last(t).boundary == boundary then Front(t) + [Entry(boundary, subrun)]
    else Put(Front(t), boundary, subrun) + [Last(t)]
  }

  lemma {:induction false} PutKeepsOrder(t: Table, boundary: nat, subrun: nat)
    requires Ordered(t)
    ensures Ordered(Put(t, boundary, subrun))
    ensures Last(Put(t, boundary, subrun)).boundary
            == if t == [] || Last(t).boundary < boundary then boundary else Last(t).boundary
  {
    if t != [] && Last(t).boundary > boundary {
      PutKeepsOrder(Front(t), boundary, subrun);
      PutBelow(Front(t), boundary, subrun, Last(t).boundary);
    }
  }

  lemma {:induction false} PutBelow(t: Table, boundary: nat, subrun: nat, limit: nat)
    requires boundary < limit && forall i :: 0 <= i < |t| ==> t[i].boundary < limit
    ensures forall i :: 0 <= i < |Put(t, boundary, subrun)| ==> Put(t, boundary, subrun)[i].boundary < limit
  {
    if t != [] { PutBelow(Front(t), boundary, subrun, limit); }
  }

  // The boundary decides the answer for id: it is not above id, and no boundary lies between.
  ghost predicate Decides(t: Table, boundary: nat, id: nat) {
    boundary <= id && (forall i :: 0 <= i < |t| && t[i].boundary <= id ==> t[i].boundary <= boundary)
  }

  lemma LastDecides(t: Table, boundary: nat, id: nat)
    requires Ordered(t) && t != [] && Last(t).boundary <= boundary
    ensures Decides(t, boundary, id) <==> boundary <= id
  {
  }

  lemma FrontDecides(t: Table, boundary: nat, id: nat)
    requires Ordered(t) && t != [] && Last(t).boundary > boundary
    ensures Decides(t, boundary, id) <==> Last(t).boundary > id && Decides(Front(t), boundary, id)
  {
    assert forall i :: 0 <= i < |Front(t)| ==> Front(t)[i] == t[i];
    if Last(t).boundary > id && Decides(Front(t), boundary, id) {
      forall i | 0 <= i < |t| && t[i].boundary <= id ensures t[i].boundary <= boundary { assert t[i] == Front(t)[i]; }
    }
  }

  // Setting a boundary changes the answer from there up to the next boundary above it, and nowhere else.
  lemma {:induction false} PutChangesOneInterval(t: Table, boundary: nat, subrun: nat, id: nat)
    requires Ordered(t)
    ensures SubrunAt(Put(t, boundary, subrun), id) == if Decides(t, boundary, id) then subrun else SubrunAt(t, id)
  {
    var r := Put(t, boundary, subrun);
    if t == [] || Last(t).boundary < boundary {
      assert Front(r) == t;
      if t != [] { LastDecides(t, boundary, id); }
    } else if Last(t).boundary == boundary {
      assert Front(r) == Front(t);
      LastDecides(t, boundary, id);
    } else {
      assert Front(r) == Put(Front(t), boundary, subrun) && Last(r) == Last(t);
      PutChangesOneInterval(Front(t), boundary, subrun, id);
      FrontDecides(t, boundary, id);
    }
  }

  // What is left when entries are erased from begin() while there are more than maxLength.
  function Trim(t: Table, maxLength: nat): Table {
    if |t| <= maxLength then t else t[|t| - maxLength..]
  }

  // Trimming never changes the answer at or above a surviving boundary; below them all it becomes 1.
  lemma {:induction false} TrimKeepsAnswers(t: Table, maxLength: nat, id: nat)
    requires Ordered(t)
    ensures var r := Trim(t, maxLength);
            SubrunAt(r, id) == if r != [] && r[0].boundary <= id then SubrunAt(t, id) else 1
    decreases maxLength
  {
    var r := Trim(t, maxLength);
    if |t| <= maxLength {
      NothingBelow(t, id);
    } else if r != [] && Last(r).boundary > id {
      TrimsBack(t, maxLength);
      TrimKeepsAnswers(Front(t), maxLength - 1, id);
    }
  }

  // Trimming leaves the last entry, and what is before it is trimmed to one less.
  lemma TrimsBack(t: Table, maxLength: nat)
    requires |t| > maxLength > 0
    ensures var r := Trim(t, maxLength);
            r != [] && Last(r) == Last(t) && Front(r) == Trim(Front(t), maxLength - 1)
              && (Front(r) != [] ==> Front(r)[0] == r[0])
  {
  }

  lemma NothingBelow(t: Table, id: nat)
    requires Ordered(t)
    ensures t != [] && t[0].boundary > id ==> SubrunAt(t, id) == 1
  {
    if t != [] && t[0].boundary > id { FloorLookup(t, id, 0); }
  }

  // ---------------------------------------------------------------- rollover

  function AfterRollover(t: Table, maxLength: nat, invalid: nat, boundary: nat, subrun: nat): Table {
    if boundary == 0 || boundary == invalid then t
    else if t != [] && Last(t).subrun == subrun then t
    else Trim(Put(t, boundary, subrun), maxLength)
  }

  // An explicit rollover does nothing for boundary 0, the invalid ID, or the subrun of the last entry. Else the IDs
  // from the boundary up to the next one above it are in its subrun, and the others where they were - except that IDs
  // below all that is left, of at most maxLength entries, are in subrun 1.
  lemma RolloverIsExact(t: Table, maxLength: nat, invalid: nat, boundary: nat, subrun: nat, id: nat)
    requires Ordered(t)
    ensures var r := AfterRollover(t, maxLength, invalid, boundary, subrun);
            if boundary == 0 || boundary == invalid || (t != [] && t[|t| - 1].subrun == subrun) then r == t
            else
              && |r| <= maxLength
              && SubrunAt(r, id) == if r == [] || id < r[0].boundary then 1
                                    else if Decides(t, boundary, id) then subrun else SubrunAt(t, id)
  {
    PutKeepsOrder(t, boundary, subrun);
    PutChangesOneInterval(t, boundary, subrun, id);
    TrimKeepsAnswers(Put(t, boundary, subrun), maxLength, id);
  }

  // The first boundary and subrun that rolloverSubrun() finds unused.
  function NextBoundary(t: Table): nat {
    if t == [] then 0
    else
      var next := NextBoundary(Front(t));
      if Last(t).boundary >= next then Successor(Last(t).boundary, SEQUENCE_IDS) else next
  }

  function NextSubrun(t: Table): nat {
    if t == [] then 0
    else
      var next := NextSubrun(Front(t));
      if Last(t).subrun >= next then Successor(Last(t).subrun, SUBRUNS) else next
  }

  function AfterNextRollover(t: Table, maxLength: nat, invalid: nat): Table {
    AfterRollover(t, maxLength, invalid, NextBoundary(t), NextSubrun(t))
  }

  // ---------------------------------------------------------------- chains of argument-less rollovers

  // Later boundaries have greater subruns.
  ghost predicate Ascending(t: Table) {
    && (forall i :: 0 <= i < |t| ==> t[i].boundary < SEQUENCE_IDS && 1 <= t[i].subrun < SUBRUNS)
    && (forall i, j :: 0 <= i < j < |t| ==> t[i].boundary < t[j].boundary && t[i].subrun < t[j].subrun)
  }

  // Then the subrun is monotone in the sequence ID.
  lemma {:induction false} AscendingIsMonotone(t: Table, a: nat, b: nat)
    requires Ascending(t) && a <= b
    ensures 1 <= SubrunAt(t, a) <= SubrunAt(t, b)
    ensures t != [] ==> SubrunAt(t, b) <= Last(t).subrun
  {
    if t != [] {
      AscendingIsMonotone(Front(t), a, b);
      if Front(t) != [] { assert Last(Front(t)).subrun < Last(t).subrun; }
    }
  }

  lemma {:induction false} NextOfAscending(t: Table)
    requires Ascending(t) && t != []
    ensures NextBoundary(t) == Successor(Last(t).boundary, SEQUENCE_IDS)
    ensures NextSubrun(t) == Successor(Last(t).subrun, SUBRUNS)
  {
    if Front(t) != [] {
      NextOfAscending(Front(t));
      assert Last(Front(t)) == t[|t| - 2];
    }
  }

  // There is room for another entry, and for a next boundary and subrun.
  predicate HasNext(t: Table, maxLength: nat, invalid: nat)
    requires t != []
  {
    && maxLength >= 1
    && Last(t).boundary + 1 < SEQUENCE_IDS && Last(t).boundary + 1 != invalid
    && Last(t).subrun + 1 < SUBRUNS
  }

  lemma ExtendedAscends(t: Table, e: Entry)
    requires Ascending(t) && t != []
    requires Last(t).boundary < e.boundary < SEQUENCE_IDS && Last(t).subrun < e.subrun < SUBRUNS
    ensures Ascending(t + [e])
  {
    forall i | 0 <= i < |t| ensures t[i].boundary < e.boundary && t[i].subrun < e.subrun {
      assert i < |t| - 1 ==> t[i].boundary < t[|t| - 1].boundary;
    }
  }

  lemma AdvancedTable(t: Table, maxLength: nat, invalid: nat)
    requires Ascending(t) && t != [] && HasNext(t, maxLength, invalid)
    ensures var r := AfterNextRollover(t, maxLength, invalid);
            Ascending(r) && r != [] && Last(r) == Entry(Last(t).boundary + 1, Last(t).subrun + 1)
  {
    var e := Entry(Last(t).boundary + 1, Last(t).subrun + 1);
    NextRolloverIs(t, maxLength, invalid);
    ExtendedAscends(t, e);
    TrimmedAscends(t + [e], maxLength);
  }

  lemma NextRolloverIs(t: Table, maxLength: nat, invalid: nat)
    requires Ascending(t) && t != [] && HasNext(t, maxLength, invalid)
    ensures AfterNextRollover(t, maxLength, invalid)
            == Trim(t + [Entry(Last(t).boundary + 1, Last(t).subrun + 1)], maxLength)
  {
    NextOfAscending(t);
  }

  lemma TrimmedAscends(t: Table, maxLength: nat)
    requires Ascending(t) && t != [] && maxLength >= 1
    ensures var r := Trim(t, maxLength); Ascending(r) && r != [] && Last(r) == Last(t)
  {
  }

  // ---------------------------------------------------------------- rollovers of any kind

  // Boundaries are 64-bit, subruns 32-bit, and boundary 0 is the one that the start of the run set.
  ghost predicate WellFormed(t: Table) {
    && Ordered(t)
    && (forall i :: 0 <= i < |t| ==> t[i].boundary < SEQUENCE_IDS && t[i].subrun < SUBRUNS)
    && (t != [] && t[0].boundary == 0 ==> t[0].subrun == 1)
  }

  // The greatest subrun in the table.
  function TopSubrun(t: Table): nat {
    if t == [] then 0 else if Last(t).subrun >= TopSubrun(Front(t)) then Last(t).subrun else TopSubrun(Front(t))
  }

  lemma {:induction false} TopIsGreatest(t: Table)
    ensures forall i :: 0 <= i < |t| ==> t[i].subrun <= TopSubrun(t)
    ensures t != [] ==> exists i :: 0 <= i < |t| && t[i].subrun == TopSubrun(t)
  {
    if t != [] {
      TopIsGreatest(Front(t));
      forall i | 0 <= i < |t| ensures t[i].subrun <= TopSubrun(t) {
        assert i < |t| - 1 ==> t[i] == Front(t)[i];
      }
      if Last(t).subrun < TopSubrun(Front(t)) {
        var i :| 0 <= i < |Front(t)| && Front(t)[i].subrun == TopSubrun(Front(t));
        assert t[i].subrun == TopSubrun(t);
      } else {
        assert t[|t| - 1].subrun == TopSubrun(t);
      }
    }
  }

  lemma {:induction false} AtMostTop(t: Table, id: nat)
    ensures SubrunAt(t, id) <= if TopSubrun(t) >= 1 then TopSubrun(t) else 1
  {
    if t != [] { AtMostTop(Front(t), id); }
  }

  lemma AtBoundary(t: Table, k: nat)
    requires Ordered(t) && k < |t|
    ensures SubrunAt(t, t[k].boundary) == t[k].subrun
  {
    FloorLookup(t, t[k].boundary, k + 1);
  }

  // Some ID is in the greatest subrun.
  lemma TopIsReached(t: Table) returns (id: nat)
    requires Ordered(t) && t != []
    ensures SubrunAt(t, id) == TopSubrun(t)
  {
    TopIsGreatest(t);
    var i :| 0 <= i < |t| && t[i].subrun == TopSubrun(t);
    AtBoundary(t, i);
    id := t[i].boundary;
  }

  lemma FirstIdIsInFirstSubrun(t: Table)
    requires WellFormed(t)
    ensures SubrunAt(t, 0) == 1
  {
    FloorLookup(t, 0, if t != [] && t[0].boundary == 0 then 1 else 0);
  }

  lemma {:induction false} NextBoundaryIs(t: Table)
    requires WellFormed(t) && t != []
    ensures NextBoundary(t) == Successor(Last(t).boundary, SEQUENCE_IDS)
  {
    if Front(t) != [] {
      FrontIsWellFormed(t);
      NextBoundaryIs(Front(t));
    }
  }

  lemma FrontIsWellFormed(t: Table)
    requires WellFormed(t) && t != []
    ensures WellFormed(Front(t)) && (Front(t) != [] ==> Last(Front(t)).boundary < Last(t).boundary)
  {
  }

  // The next subrun is the one after the greatest; if that does not exist, it is no greater.
  lemma {:induction false} NextSubrunIs(t: Table)
    requires WellFormed(t) && t != []
    ensures NextSubrun(t) < SUBRUNS && TopSubrun(t) < SUBRUNS
    ensures TopSubrun(t) + 1 < SUBRUNS ==> NextSubrun(t) == TopSubrun(t) + 1
  {
    if Front(t) != [] {
      FrontIsWellFormed(t);
      NextSubrunIs(Front(t));
    }
  }

  // What an argument-less rollover needs in order to open a new subrun.
  predicate CanAdvance(t: Table, maxLength: nat, invalid: nat) {
    && t != [] && maxLength >= 1
    && Last(t).boundary + 1 < SEQUENCE_IDS && Last(t).boundary + 1 != invalid
    && 1 <= TopSubrun(t) < SUBRUNS - 1
  }

  // The rollover puts every ID above the last boundary in a later subrun than any ID was in before.
  ghost predicate Advances(t: Table, r: Table) {
    forall id: nat, earlier: nat :: (t != [] ==> id > Last(t).boundary) ==> SubrunAt(r, id) > SubrunAt(t, earlier)
  }

  // The rollover does nothing, or it appends the next boundary and trims.
  lemma NextRolloverAppends(t: Table, maxLength: nat, invalid: nat)
    requires WellFormed(t) && t != []
    ensures var r, next := AfterNextRollover(t, maxLength, invalid), Last(t).boundary + 1;
            || r == t
            || (next < SEQUENCE_IDS && next != invalid && r == Trim(t + [Entry(next, NextSubrun(t))], maxLength))
  {
    NextBoundaryIs(t);
  }

  lemma RollsAtTheEnd(t: Table, maxLength: nat, invalid: nat, e: Entry)
    requires t != [] && e.boundary > Last(t).boundary && e.boundary != invalid && e.subrun != Last(t).subrun
    ensures AfterRollover(t, maxLength, invalid, e.boundary, e.subrun) == Trim(t + [e], maxLength)
  {
  }

  lemma AdvanceAppends(t: Table, maxLength: nat, invalid: nat)
    requires WellFormed(t) && CanAdvance(t, maxLength, invalid)
    ensures AfterNextRollover(t, maxLength, invalid)
            == Trim(t + [Entry(Last(t).boundary + 1, TopSubrun(t) + 1)], maxLength)
  {
    NextBoundaryIs(t);
    NextSubrunIs(t);
    LastAtMostTop(t);
    RollsAtTheEnd(t, maxLength, invalid, Entry(Last(t).boundary + 1, TopSubrun(t) + 1));
  }

  lemma LastAtMostTop(t: Table)
    requires t != []
    ensures Last(t).subrun <= TopSubrun(t)
  {
  }

  // What the table after such a rollover says of the IDs from the new boundary on.
  lemma AtTheEnd(t: Table, e: Entry, maxLength: nat, id: nat)
    requires id >= e.boundary
    ensures SubrunAt(Trim(t + [e], maxLength), id) == if maxLength >= 1 then e.subrun else 1
  {
    if maxLength >= 1 { assert Last(Trim(t + [e], maxLength)) == e; }
  }

  lemma CannotAdvance(t: Table, maxLength: nat, invalid: nat)
    requires WellFormed(t) && t != [] && !CanAdvance(t, maxLength, invalid)
    ensures !Advances(t, AfterNextRollover(t, maxLength, invalid))
  {
    var r, next := AfterNextRollover(t, maxLength, invalid), Last(t).boundary + 1;
    NextRolloverAppends(t, maxLength, invalid);
    NextSubrunIs(t);
    FirstIdIsInFirstSubrun(t);
    var top := TopIsReached(t);
    if r != t { AtTheEnd(t, Entry(next, NextSubrun(t)), maxLength, next); }
    assert SubrunAt(r, next) <= SubrunAt(t, next) || SubrunAt(r, next) <= SubrunAt(t, 0)
      || SubrunAt(r, next) <= SubrunAt(t, top);
  }

  lemma NextAdvancesIff(t: Table, maxLength: nat, invalid: nat)
    requires WellFormed(t)
    ensures Advances(t, AfterNextRollover(t, maxLength, invalid)) <==> CanAdvance(t, maxLength, invalid)
  {
    var r := AfterNextRollover(t, maxLength, invalid);
    if t == [] {
      assert SubrunAt(r, 0) <= SubrunAt(t, 0);
    } else if CanAdvance(t, maxLength, invalid) {
      AdvanceAppends(t, maxLength, invalid);
      forall id: nat, earlier: nat | id > Last(t).boundary ensures SubrunAt(r, id) > SubrunAt(t, earlier) {
        AtTheEnd(t, Entry(Last(t).boundary + 1, TopSubrun(t) + 1), maxLength, id);
        AtMostTop(t, earlier);
      }
    } else {
      CannotAdvance(t, maxLength, invalid);
    }
  }

  // ---------------------------------------------------------------- runs of rollovers of both kinds

  datatype Op = Roll(boundary: nat, subrun: nat) | RollNext

  function Step(t: Table, maxLength: nat, invalid: nat, op: Op): Table {
    match op
    case Roll(boundary, subrun) => AfterRollover(t, maxLength, invalid, boundary, subrun)
    case RollNext => AfterNextRollover(t, maxLength, invalid)
  }

  function Run(maxLength: nat, invalid: nat, ops: seq<Op>): Table {
    if ops == [] then [Entry(0, 1)]
      else Step(Run(maxLength, invalid, ops[..|ops| - 1]), maxLength, invalid, ops[|ops| - 1])
  }

  ghost predicate Words(ops: seq<Op>) {
    forall i :: 0 <= i < |ops| && ops[i].Roll? ==> ops[i].boundary < SEQUENCE_IDS && ops[i].subrun < SUBRUNS
  }

  lemma {:induction false} PutEntries(t: Table, boundary: nat, subrun: nat)
    ensures var r := Put(t, boundary, subrun);
            && (forall i :: 0 <= i < |r| ==> r[i] == Entry(boundary, subrun) || r[i] in t)
            && (r[0] == Entry(boundary, subrun) || (t != [] && r[0] == t[0]))
  {
    if t != [] && Last(t).boundary > boundary { PutEntries(Front(t), boundary, subrun); }
  }

  lemma PutKeepsWellFormed(t: Table, boundary: nat, subrun: nat)
    requires WellFormed(t) && 0 < boundary < SEQUENCE_IDS && subrun < SUBRUNS
    ensures WellFormed(Put(t, boundary, subrun))
  {
    PutKeepsOrder(t, boundary, subrun);
    PutEntries(t, boundary, subrun);
  }

  lemma TrimKeepsWellFormed(t: Table, maxLength: nat)
    requires WellFormed(t)
    ensures WellFormed(Trim(t, maxLength))
  {
    var r := Trim(t, maxLength);
    if |t| > maxLength && r != [] { assert r[0] == t[|t| - maxLength] && t[0].boundary < t[|t| - maxLength].boundary; }
  }

  lemma StepKeepsWellFormed(t: Table, maxLength: nat, invalid: nat, boundary: nat, subrun: nat)
    requires WellFormed(t) && boundary < SEQUENCE_IDS && subrun < SUBRUNS
    ensures WellFormed(AfterRollover(t, maxLength, invalid, boundary, subrun))
  {
    if boundary != 0 {
      PutKeepsWellFormed(t, boundary, subrun);
      TrimKeepsWellFormed(Put(t, boundary, subrun), maxLength);
    }
  }

  lemma NextFits(t: Table)
    requires WellFormed(t)
    ensures NextBoundary(t) < SEQUENCE_IDS && NextSubrun(t) < SUBRUNS
  {
    if t != [] { NextBoundaryIs(t); NextSubrunIs(t); }
  }

  lemma {:induction false} RunIsWellFormed(maxLength: nat, invalid: nat, ops: seq<Op>)
    requires Words(ops)
    ensures WellFormed(Run(maxLength, invalid, ops))
    ensures |Run(maxLength, invalid, ops)| <= if maxLength >= 1 then maxLength else 1
  {
    if ops != [] {
      var front, op := ops[..|ops| - 1], ops[|ops| - 1];
      var t := Run(maxLength, invalid, front);
      RunIsWellFormed(maxLength, invalid, front);
      match op
      case Roll(boundary, subrun) => StepKeepsWellFormed(t, maxLength, invalid, boundary, subrun);
      case RollNext => NextFits(t); StepKeepsWellFormed(t, maxLength, invalid, NextBoundary(t), NextSubrun(t));
    }
  }

  // After any rollovers of a run, also with boundaries and subruns that were set out of order, an argument-less
  // rollover puts every later ID in a later subrun than any ID was in before, if and only if it can.
  lemma NextRolloverAdvancesIff(maxLength: nat, invalid: nat, ops: seq<Op>)
    requires Words(ops)
    ensures var t := Run(maxLength, invalid, ops);
            Advances(t, AfterNextRollover(t, maxLength, invalid)) <==> CanAdvance(t, maxLength, invalid)
  {
    RunIsWellFormed(maxLength, invalid, ops);
    NextAdvancesIff(Run(maxLength, invalid, ops), maxLength, invalid);
  }

  // The subrun never decreases along the sequence IDs.
  ghost predicate Monotone(t: Table) {
    forall a: nat, b: nat :: a <= b ==> SubrunAt(t, a) <= SubrunAt(t, b)
  }

  // An argument-less rollover keeps it so, as long as there is a next subrun.
  lemma NextRolloverKeepsMonotone(t: Table, maxLength: nat, invalid: nat)
    requires WellFormed(t) && t != [] && Monotone(t) && TopSubrun(t) + 1 < SUBRUNS
    ensures Monotone(AfterNextRollover(t, maxLength, invalid))
  {
    NextRolloverAppends(t, maxLength, invalid);
    NextSubrunIs(t);
    AppendedIsMonotone(t, Entry(Last(t).boundary + 1, NextSubrun(t)), maxLength);
  }

  lemma AppendedIsMonotone(t: Table, e: Entry, maxLength: nat)
    requires WellFormed(t) && t != [] && Monotone(t) && e.boundary > Last(t).boundary && e.subrun > TopSubrun(t)
    ensures Monotone(Trim(t + [e], maxLength))
  {
    var r := Trim(t + [e], maxLength);
    forall a: nat, b: nat | a <= b ensures SubrunAt(r, a) <= SubrunAt(r, b) { AppendedInOrder(t, e, maxLength, a, b); }
  }

  lemma AppendedInOrder(t: Table, e: Entry, maxLength: nat, a: nat, b: nat)
    requires WellFormed(t) && t != [] && Monotone(t) && a <= b
    requires e.boundary > Last(t).boundary && e.subrun > TopSubrun(t)
    ensures var r := Trim(t + [e], maxLength); SubrunAt(r, a) <= SubrunAt(r, b)
  {
    AppendedAt(t, e, maxLength, a);
    AppendedAt(t, e, maxLength, b);
    FirstIdIsInFirstSubrun(t);
    AtMostTop(t, a);
    assert SubrunAt(t, 0) <= SubrunAt(t, a) <= SubrunAt(t, b);
    assert SubrunAt(t, 0) <= SubrunAt(t, b);
  }

  lemma AppendedAt(t: Table, e: Entry, maxLength: nat, id: nat)
    requires WellFormed(t) && t != [] && e.boundary > Last(t).boundary
    ensures var r := Trim(t + [e], maxLength);
            SubrunAt(r, id) == if r == [] || r[0].boundary > id then 1 else if id >= e.boundary then e.subrun
              else SubrunAt(t, id)
  {
    assert Ordered(t + [e]) by {
      forall i | 0 <= i < |t|
        ensures t[i].boundary < e.boundary
      {
        assert i < |t| - 1 ==> t[i].boundary < t[|t| - 1].boundary;
      }
    }
    TrimKeepsAnswers(t + [e], maxLength, id);
    assert Front(t + [e]) == t;
  }

  // Tables need not ascend: a later rollover may set an earlier boundary with a greater subrun.
  lemma OutOfOrderRollovers(invalid: nat)
    requires invalid > 100
    ensures Run(10, invalid, [Roll(100, 5), Roll(50, 7)]) == [Entry(0, 1), Entry(50, 7), Entry(100, 5)]
    ensures AfterNextRollover([Entry(0, 1), Entry(50, 7), Entry(100, 5)], 10, invalid)
            == if invalid == 101 then [Entry(0, 1), Entry(50, 7), Entry(100, 5)]
               else [Entry(0, 1), Entry(50, 7), Entry(100, 5), Entry(101, 8)]
  {
    var ops := [Roll(100, 5), Roll(50, 7)];
    var one, two := [Entry(0, 1), Entry(100, 5)], [Entry(0, 1), Entry(50, 7), Entry(100, 5)];
    assert ops[..1] == [Roll(100, 5)] && ops[..1][..0] == [];
    assert Front(one) == [Entry(0, 1)] && Front(two) == [Entry(0, 1), Entry(50, 7)]
      && Front(Front(two)) == [Entry(0, 1)];
    assert Run(10, invalid, ops[..1]) == one;
    assert Run(10, invalid, ops) == two;
    assert NextBoundary(two) == 101 && NextSubrun(two) == 8;
  }

  // ---------------------------------------------------------------- chains of argument-less rollovers, from the start

  // The table after n argument-less rollovers of a run.
  function Chain(n: nat, maxLength: nat, invalid: nat): Table {
    if n == 0 then [Entry(0, 1)] else AfterNextRollover(Chain(n - 1, maxLength, invalid), maxLength, invalid)
  }

  lemma {:induction false} ChainShape(n: nat, maxLength: nat, invalid: nat)
    requires maxLength >= 1 && n < invalid < SEQUENCE_IDS && n + 1 < SUBRUNS
    ensures var t := Chain(n, maxLength, invalid); Ascending(t) && t != [] && Last(t) == Entry(n, n + 1)
  {
    if n > 0 {
      ChainShape(n - 1, maxLength, invalid);
      ChainStep(Chain(n - 1, maxLength, invalid), n - 1, maxLength, invalid);
    }
  }

  lemma ChainStep(t: Table, n: nat, maxLength: nat, invalid: nat)
    requires maxLength >= 1 && n + 1 < invalid < SEQUENCE_IDS && n + 2 < SUBRUNS
    requires Ascending(t) && t != [] && Last(t) == Entry(n, n + 1)
    ensures var r := AfterNextRollover(t, maxLength, invalid); Ascending(r) && r != [] && Last(r) == Entry(n + 1, n + 2)
  {
    AdvancedTable(t, maxLength, invalid);
  }

  // n rollovers from the start of a run define the boundaries 1, ..., n: IDs from n on are in subrun n + 1,
  // and the subrun never decreases along the sequence IDs.
  lemma ChainOfRollovers(n: nat, maxLength: nat, invalid: nat, a: nat, b: nat)
    requires maxLength >= 1 && n < invalid < SEQUENCE_IDS && n + 1 < SUBRUNS
    requires a <= b
    ensures var t := Chain(n, maxLength, invalid);
            SubrunAt(t, a) <= SubrunAt(t, b) <= n + 1 && (a >= n ==> SubrunAt(t, a) == n + 1)
  {
    ChainShape(n, maxLength, invalid);
    AscendingIsMonotone(Chain(n, maxLength, invalid), a, b);
  }

  // ---------------------------------------------------------------- the object

  class SubrunMap {
    var table: Table
    const maxLength: nat
    const invalid: nat   // Fragment::InvalidSequenceID

    constructor (maxLength: nat, invalid: nat)
      ensures table == Chain(0, maxLength, invalid) && Ordered(table)
      ensures this.maxLength == maxLength && this.invalid == invalid
    {
      this.maxLength, this.invalid := maxLength, invalid;
      table := [Entry(0, 1)];
    }

    method GetSubrunForSequenceID(id: nat) returns (subrun: nat)
      requires Ordered(table)
      ensures subrun == SubrunAt(table, id)
    {
      var it := 0;
      subrun := 1;
      while it < |table| && table[it].boundary <= id
        invariant 0 <= it <= |table|
        invariant forall i :: 0 <= i < it ==> table[i].boundary <= id
        invariant subrun == if it == 0 then 1 else table[it - 1].subrun
      {
        subrun := table[it].subrun;
        it := it + 1;
      }
      FloorLookup(table, id, it);
    }

    method RolloverSubrun(boundary: nat, subrun: nat)
      requires Ordered(table)
      modifies this
      ensures Ordered(table) && table == AfterRollover(old(table), maxLength, invalid, boundary, subrun)
    {
      if boundary == 0 || boundary == invalid {
        return;
      }
      if table != [] && table[|table| - 1].subrun == subrun {
        return;
      }
      PutKeepsOrder(table, boundary, subrun);
      table := Put(table, boundary, subrun);
      EraseOldest();
    }

    // The loop of rolloverSubrun, SharedMemoryEventManager.cc:990-993.
    method EraseOldest()
      modifies this
      ensures table == Trim(old(table), maxLength)
    {
      while |table| > maxLength
        invariant |table| <= |old(table)| && table == old(table)[|old(table)| - |table|..]
        invariant |table| < |old(table)| ==> |table| >= maxLength
      {
        table := table[1..];
      }
    }

    method RolloverToNextSubrun()
      requires Ordered(table)
      modifies this
      ensures Ordered(table) && table == AfterNextRollover(old(table), maxLength, invalid)
    {
      var seqId, subrun := 0, 0;
      for it := 0 to |table|
        invariant table == old(table)
        invariant seqId == NextBoundary(table[..it]) && subrun == NextSubrun(table[..it])
      {
        assert Front(table[..it + 1]) == table[..it];
        if table[it].boundary >= seqId {
          seqId := Successor(table[it].boundary, SEQUENCE_IDS);
        }
        if table[it].subrun >= subrun {
          subrun := Successor(table[it].subrun, SUBRUNS);
        }
      }
      assert table[..|table|] == table;
      RolloverSubrun(seqId, subrun);
    }
  }
}
