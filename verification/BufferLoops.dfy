/** The loops of FragmentBuffer over its data buffers and its requests, one element at a time: what holds between two
    iterations, and how one iteration goes on. */
module BufferLoops {
  import opened Ordered
  import opened DataBuffers
  import opened Pipeline

  // ---------------------------------------------------------------- one data buffer after the other

  // now is between was and target: the data buffers in rest are still to be dealt with.
  ghost predicate Half(was: map<nat, Buf>, target: map<nat, Buf>, now: map<nat, Buf>, rest: set<nat>) {
    && was.Keys == target.Keys && now.Keys == was.Keys
    && forall id :: id in was ==> now[id] == if id in rest then was[id] else target[id]
  }

  lemma HalfNext(was: map<nat, Buf>, target: map<nat, Buf>, now: map<nat, Buf>, rest: set<nat>, id: nat)
    requires id in rest && id in was && Half(was, target, now, rest)
    ensures now[id] == was[id] && Half(was, target, now[id := target[id]], rest - {id})
  {
  }

  lemma HalfBegins(was: map<nat, Buf>, target: map<nat, Buf>, rest: set<nat>)
    requires was.Keys == target.Keys && forall id :: id in was && id !in rest ==> target[id] == was[id]
    ensures Half(was, target, was, rest)
  {
  }

  lemma HalfEnds(was: map<nat, Buf>, target: map<nat, Buf>, now: map<nat, Buf>)
    requires Half(was, target, now, {})
    ensures now == target
  {
  }

  // The data buffers was, asked for seqId, have become now and sent their answers, but for those in rest.
  ghost predicate Answering(cfg: Config, was: map<nat, Buf>, ids: seq<nat>, rest: set<nat>, now: map<nat, Buf>,
                            sent: seq<Output>,
                            seqId: nat, ts: nat, late: set<(nat, nat)>)
  {
    && Listed(was.Keys, ids, rest)
    && Half(was, AnsweredBufs(cfg, was, seqId, ts, late), now, rest)
    && sent == AnswersOf(cfg, was, ids, seqId, ts, late)
  }

  lemma AnsweringBegins(cfg: Config, was: map<nat, Buf>, rest: set<nat>, seqId: nat, ts: nat, late: set<(nat, nat)>)
    requires rest == was.Keys
    ensures Answering(cfg, was, [], rest, was, [], seqId, ts, late)
  {
    assert was.Keys - rest == {};
  }

  lemma AnsweringNext(cfg: Config, was: map<nat, Buf>, ids: seq<nat>, rest: set<nat>, now: map<nat, Buf>,
                      sent: seq<Output>,
                      seqId: nat, ts: nat, late: set<(nat, nat)>)
    requires rest != {} && Answering(cfg, was, ids, rest, now, sent, seqId, ts, late)
    ensures var id := Least(rest);
            && id in now && now[id] == was[id]
            && Answering(cfg, was, ids + [id], rest - {id},
              now[id := AnsweredBuf(cfg, now[id], seqId, ts, (seqId, id) in late)],
                         sent + Answer(cfg, now[id], id, seqId, ts, (seqId, id) in late), seqId, ts, late)
  {
    ListNext(was.Keys, ids, rest);
    assert (ids + [Least(rest)])[..|ids|] == ids;
    HalfNext(was, AnsweredBufs(cfg, was, seqId, ts, late), now, rest, Least(rest));
  }

  lemma AnsweringEnds(cfg: Config, was: map<nat, Buf>, ids: seq<nat>, now: map<nat, Buf>, sent: seq<Output>,
                      seqId: nat, ts: nat, late: set<(nat, nat)>)
    requires Answering(cfg, was, ids, {}, now, sent, seqId, ts, late)
    ensures now == AnsweredBufs(cfg, was, seqId, ts, late)
    ensures sent == AnswersOf(cfg, was, Sorted(was.Keys), seqId, ts, late)
  {
    HalfEnds(was, AnsweredBufs(cfg, was, seqId, ts, late), now);
    ListedAll(was.Keys, ids);
  }

  lemma AnswerAllIs(cfg: Config, p: Pipe, seqId: nat, ts: nat, late: set<(nat, nat)>, bufs: map<nat, Buf>,
                    sent: seq<Output>)
    requires bufs == AnsweredBufs(cfg, p.bufs, seqId, ts, late)
    requires sent == AnswersOf(cfg, p.bufs, Sorted(p.bufs.Keys), seqId, ts, late)
    ensures AnswerAll(cfg, p, seqId, ts, late) == Pipe(p.next, bufs, p.rb, p.out + sent, p.passed)
  {
  }

  lemma SkipToNext(cfg: Config, p: Pipe, target: nat)
    requires target > p.next
    ensures SkipTo(cfg, p, target) == SkipTo(cfg, Pipeline.SkipOne(cfg, p), target)
  {
  }

  lemma ServeNext(cfg: Config, p: Pipe, reqs: map<nat, nat>, ids: seq<nat>, late: set<(nat, nat)>, expired: set<nat>)
    requires ids != [] && forall k :: k in ids ==> k in reqs
    ensures ids[0] in reqs && forall k :: k in ids[1..] ==> k in reqs
    ensures ServeEach(cfg, p, reqs, ids, late, expired)
            == ServeEach(cfg, Serve(cfg, p, ids[0], reqs[ids[0]], late, expired), reqs, ids[1..], late, expired)
  {
    FirstIsIn(ids);
  }

  // In Ignored mode the data buffers was have become now, but for those in rest; next was first.
  ghost predicate Draining(was: map<nat, Buf>, ids: seq<nat>, rest: set<nat>, now: map<nat, Buf>, sent: seq<Output>,
                           first: nat, next: nat) {
    && Listed(was.Keys, ids, rest)
    && Half(was, AllDrained(was), now, rest)
    && sent == Everything(was, ids) && next == NextAfter(was, ids, first)
  }

  lemma DrainingBegins(was: map<nat, Buf>, rest: set<nat>, next: nat)
    requires rest == was.Keys
    ensures Draining(was, [], rest, was, [], next, next)
  {
    assert was.Keys - rest == {};
  }

  lemma DrainingNext(was: map<nat, Buf>, ids: seq<nat>, rest: set<nat>, now: map<nat, Buf>, sent: seq<Output>,
                     first: nat, next: nat)
    requires rest != {} && Draining(was, ids, rest, now, sent, first, next)
    ensures var id := Least(rest);
            && id in now && now[id] == was[id]
            && Draining(was, ids + [id], rest - {id}, now[id := Drained(now[id])], sent + Plains(now[id].frags), first,
              After(now[id].frags, next))
  {
    ListNext(was.Keys, ids, rest);
    assert (ids + [Least(rest)])[..|ids|] == ids;
    HalfNext(was, AllDrained(was), now, rest, Least(rest));
  }

  lemma DrainingEnds(was: map<nat, Buf>, ids: seq<nat>, now: map<nat, Buf>, sent: seq<Output>, first: nat, next: nat)
    requires Draining(was, ids, {}, now, sent, first, next)
    ensures now == AllDrained(was) && sent == Everything(was, Sorted(was.Keys))
    ensures next == NextAfter(was, Sorted(was.Keys), first)
  {
    HalfEnds(was, AllDrained(was), now);
    ListedAll(was.Keys, ids);
  }

  lemma LatestPassIs(cfg: Config, p: Pipe, q: Pipe, last: nat)
    requires p.rb.requests != map[] ==> q == p.(rb := RemoveOlder(p.rb)) && last == Greatest(p.rb.requests.Keys)
    ensures LatestPass(cfg, p) == if p.rb.requests == map[] then p else AnswerLatest(cfg, q, last, p.rb.requests[last])
  {
  }

  lemma OlderFirst(s: set<nat>, last: nat)
    requires last in s && |s| > 1 && forall k :: k in s ==> k <= last
    ensures var first := Least(s);
            first != last && Sorted(s - {last}) == [first] + Sorted(s - {first} - {last})
  {
    var first := Least(s);
    assert s <= {last} ==> s == {last};
    SortedFirst(s - {last});
    var other := Least(s - {last});
    assert other in s && first <= other;
    assert first == last ==> other == last;
    assert first != last ==> first in s - {last};
    assert s - {last} - {first} == s - {first} - {last};
  }

  lemma OnlyLast(s: set<nat>, last: nat)
    requires last in s && |s| <= 1
    ensures s == {last} && Sorted(s - {last}) == []
  {
    assert |s - {last}| == 0;
    assert s - {last} == {};
  }
}
