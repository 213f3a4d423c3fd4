/** Delivery of whole messages: over every run in which each packet of some messages with distinct ids is
    accepted at most once, interleaved with polls in any way, each message is put together exactly once, in
    fragment order, and not before its last packet.  With packets accepted more than once, a message is put
    together by exactly those polls that find as many packets of it as it has, no two with the same id. */
module Delivery {
  import opened Bytes
  import opened Frames
  import opened Fragments
  import opened Receiving

  /** The messages on their way, by id. */
  ghost predicate Planned(msgs: map<u8, seq<Packet>>) {
    forall id :: id in msgs ==> Message(msgs[id], id)
  }

  /** The accepted packets belong to the messages. */
  ghost predicate FromMessages(accepted: seq<Packet>, msgs: map<u8, seq<Packet>>) {
    forall p :: p in accepted ==> p.messageId in msgs && p in msgs[p.messageId]
  }

  /** The accepted packets belong to the messages, each at most once. */
  ghost predicate OnceEach(accepted: seq<Packet>, msgs: map<u8, seq<Packet>>) {
    Distinct(accepted) && FromMessages(accepted, msgs)
  }

  /** The packets of one message among those accepted, in their order of arrival. */
  ghost function OfId(accepted: seq<Packet>, id: u8): (ps: seq<Packet>)
    ensures |ps| <= |accepted|
  {
    if |accepted| == 0 then []
    else
      var p := accepted[|accepted| - 1];
      OfId(accepted[..|accepted| - 1], id) + if p.messageId == id then [p] else []
  }

  // ----- the state of one message -----

  /** Some packets have arrived and wait in the group; the message is not put together yet. */
  ghost predicate Waiting(r: Receiver, id: u8, m: seq<Packet>) {
    && Group(r.received, id) == OfId(r.accepted, id)
    && (id in r.received ==> r.received[id] != [])
    && m !in r.reassembled
  }

  /** The message has been put together once, after all its packets had arrived. */
  ghost predicate Finished(r: Receiver, id: u8, m: seq<Packet>) {
    && id !in r.received
    && |OfId(r.accepted, id)| == |m|
    && multiset(r.reassembled)[m] == 1
  }

  ghost predicate OnTrack(r: Receiver, msgs: map<u8, seq<Packet>>) {
    && (forall id :: id in r.received ==> id in msgs)
    && (forall id :: id in msgs ==> Waiting(r, id, msgs[id]) || Finished(r, id, msgs[id]))
    && (forall m :: m in r.reassembled ==> exists id :: id in msgs && msgs[id] == m)
  }

  // ----- counting the packets of a message -----

  lemma {:induction false} OfIdHolds(accepted: seq<Packet>, id: u8)
    ensures forall p :: p in OfId(accepted, id) <==> p in accepted && p.messageId == id
  {
    if |accepted| > 0 {
      var n := |accepted| - 1;
      OfIdHolds(accepted[..n], id);
      assert accepted == accepted[..n] + [accepted[n]];
    }
  }

  lemma {:induction false} OfIdDistinct(accepted: seq<Packet>, id: u8)
    requires Distinct(accepted)
    ensures Distinct(OfId(accepted, id))
  {
    if |accepted| > 0 {
      var n := |accepted| - 1;
      OfIdDistinct(accepted[..n], id);
      OfIdHolds(accepted[..n], id);
      assert accepted[n] !in accepted[..n];
    }
  }

  lemma MessageDistinct(m: seq<Packet>, id: u8)
    requires Message(m, id)
    ensures Distinct(m) && DistinctIds(m) && SortedById(m)
  {
  }

  lemma {:induction false} DistinctCounts<T>(s: seq<T>)
    requires Distinct(s)
    ensures forall x :: multiset(s)[x] == if x in s then 1 else 0
  {
    if |s| > 0 {
      var n := |s| - 1;
      DistinctCounts(s[..n]);
      assert s == s[..n] + [s[n]];
      assert s[n] !in s[..n];
    }
  }

  /** Distinct elements of m are at most |m|, and if they are |m| then they are all of m. */
  lemma DistinctWithin<T>(s: seq<T>, m: seq<T>)
    requires Distinct(s) && Distinct(m) && forall x :: x in s ==> x in m
    ensures |s| <= |m|
    ensures |s| == |m| ==> multiset(s) == multiset(m)
  {
    DistinctCounts(s);
    DistinctCounts(m);
    assert multiset(s) <= multiset(m);
    assert multiset(m) == multiset(s) + (multiset(m) - multiset(s));
    assert |multiset(m)| == |multiset(s)| + |multiset(m) - multiset(s)|;
  }

  /** The arrived packets of a message are some of its packets; as many as it has only if they are all. */
  lemma ArrivedWithin(accepted: seq<Packet>, msgs: map<u8, seq<Packet>>, id: u8)
    requires Planned(msgs) && OnceEach(accepted, msgs) && id in msgs
    ensures |OfId(accepted, id)| <= |msgs[id]|
    ensures |OfId(accepted, id)| == |msgs[id]| ==> multiset(OfId(accepted, id)) == multiset(msgs[id])
  {
    OfIdHolds(accepted, id);
    OfIdDistinct(accepted, id);
    MessageDistinct(msgs[id], id);
    DistinctWithin(OfId(accepted, id), msgs[id]);
  }

  /** A group on its way is complete exactly when all packets of its message have arrived. */
  lemma CompleteMeansAll(r: Receiver, msgs: map<u8, seq<Packet>>, id: u8)
    requires Planned(msgs) && OnceEach(r.accepted, msgs) && OnTrack(r, msgs) && id in r.received
    ensures id in msgs && r.received[id] == OfId(r.accepted, id)
    ensures Complete(r.received[id]) <==> |r.received[id]| == |msgs[id]|
    ensures Complete(r.received[id]) ==> multiset(r.received[id]) == multiset(msgs[id])
  {
    assert Waiting(r, id, msgs[id]);
    ArrivedWithin(r.accepted, msgs, id);
    OfIdHolds(r.accepted, id);
    assert r.received[id][0] in r.accepted;
  }

  // ----- one step -----

  lemma OnceEachBefore(accepted: seq<Packet>, p: Packet, msgs: map<u8, seq<Packet>>)
    requires OnceEach(accepted + [p], msgs)
    ensures OnceEach(accepted, msgs) && p !in accepted
    ensures p.messageId in msgs && p in msgs[p.messageId]
  {
    var all := accepted + [p];
    assert forall i :: 0 <= i < |accepted| ==> all[i] == accepted[i];
    assert all[|accepted|] == p;
  }

  lemma OfIdAppend(accepted: seq<Packet>, p: Packet, id: u8)
    ensures OfId(accepted + [p], id) == OfId(accepted, id) + if p.messageId == id then [p] else []
  {
    assert (accepted + [p])[..|accepted|] == accepted;
  }

  lemma AcceptKeepsWaiting(r: Receiver, p: Packet, id: u8, m: seq<Packet>)
    requires Waiting(r, id, m)
    ensures Waiting(Accept(r, p), id, m)
  {
    OfIdAppend(r.accepted, p, id);
    assert id != p.messageId ==> Group(Accept(r, p).received, id) == Group(r.received, id);
  }

  /** A message that is finished has all its packets, so a new packet belongs to another one. */
  lemma NewPacketOfUnfinished(r: Receiver, p: Packet, msgs: map<u8, seq<Packet>>)
    requires Planned(msgs) && OnceEach(r.accepted + [p], msgs)
    ensures p.messageId in msgs && !Finished(r, p.messageId, msgs[p.messageId])
  {
    OnceEachBefore(r.accepted, p, msgs);
    ArrivedWithin(r.accepted, msgs, p.messageId);
    OfIdHolds(r.accepted, p.messageId);
    assert p in multiset(msgs[p.messageId]);
    assert p !in multiset(OfId(r.accepted, p.messageId));
  }

  lemma AcceptKeepsTrack(r: Receiver, p: Packet, msgs: map<u8, seq<Packet>>)
    requires Planned(msgs) && OnTrack(r, msgs) && OnceEach(r.accepted + [p], msgs)
    ensures OnTrack(Accept(r, p), msgs)
  {
    hide Accept, OfId;
    var r' := Accept(r, p);
    NewPacketOfUnfinished(r, p, msgs);
    AcceptChanges(r, p);
    forall id | id in msgs
      ensures Waiting(r', id, msgs[id]) || Finished(r', id, msgs[id])
    {
      if Waiting(r, id, msgs[id]) {
        AcceptKeepsWaiting(r, p, id, msgs[id]);
      } else {
        OfIdAppend(r.accepted, p, id);
      }
    }
  }

  lemma AcceptChanges(r: Receiver, p: Packet)
    ensures Accept(r, p).received.Keys == r.received.Keys + {p.messageId}
    ensures Accept(r, p).accepted == r.accepted + [p] && Accept(r, p).reassembled == r.reassembled
  {
  }

  lemma MessagesDiffer(msgs: map<u8, seq<Packet>>, id: u8, id': u8)
    requires Planned(msgs) && id in msgs && id' in msgs && id != id'
    ensures msgs[id] != msgs[id']
  {
    assert msgs[id][0].messageId == id && msgs[id'][0].messageId == id';
  }

  /** What a poll puts together are the messages themselves, packet for packet. */
  lemma HandledAreMessages(r: Receiver, msgs: map<u8, seq<Packet>>, order: seq<u8>, done: seq<seq<Packet>>, k: nat)
    requires Planned(msgs) && OnceEach(r.accepted, msgs) && OnTrack(r, msgs)
    requires Handles(r.received, order, done) && k < |order|
    ensures order[k] in msgs && done[k] == msgs[order[k]]
    ensures |OfId(r.accepted, order[k])| == |msgs[order[k]]|
  {
    var id := order[k];
    assert id in order;
    CompleteMeansAll(r, msgs, id);
    MessageDistinct(msgs[id], id);
    SortIsUnique(done[k], msgs[id]);
  }

  lemma DoneDistinct(r: Receiver, msgs: map<u8, seq<Packet>>, order: seq<u8>, done: seq<seq<Packet>>)
    requires Planned(msgs) && OnceEach(r.accepted, msgs) && OnTrack(r, msgs) && Handles(r.received, order, done)
    ensures Distinct(done)
    ensures forall id :: id in msgs ==> multiset(done)[msgs[id]] == if id in order then 1 else 0
  {
    forall j, k | 0 <= j < k < |done|
      ensures done[j] != done[k]
    {
      HandledAreMessages(r, msgs, order, done, j);
      HandledAreMessages(r, msgs, order, done, k);
      MessagesDiffer(msgs, order[j], order[k]);
    }
    DistinctCounts(done);
    forall id | id in msgs
      ensures msgs[id] in done <==> id in order
    {
      if msgs[id] in done {
        var k :| 0 <= k < |done| && done[k] == msgs[id];
        HandledAreMessages(r, msgs, order, done, k);
        if order[k] != id {
          MessagesDiffer(msgs, order[k], id);
        }
      }
      if id in order {
        var k :| 0 <= k < |order| && order[k] == id;
        HandledAreMessages(r, msgs, order, done, k);
        assert done[k] == msgs[id];
      }
    }
  }

  lemma PollKeepsMessage(r: Receiver, r': Receiver, msgs: map<u8, seq<Packet>>, order: seq<u8>,
                         done: seq<seq<Packet>>, id: u8)
    requires Planned(msgs) && OnceEach(r.accepted, msgs) && OnTrack(r, msgs) && id in msgs
    requires Polled(r, r', order, done)
    ensures Waiting(r', id, msgs[id]) || Finished(r', id, msgs[id])
  {
    var m := msgs[id];
    DoneDistinct(r, msgs, order, done);
    AppendedCount(r.reassembled, done, m);
    if id in order {
      var k :| 0 <= k < |order| && order[k] == id;
      HandledAreMessages(r, msgs, order, done, k);
      assert Waiting(r, id, m);
      assert Finished(r', id, m);
    } else if Waiting(r, id, m) {
      assert Waiting(r', id, m);
    } else {
      assert Finished(r', id, m);
    }
  }

  lemma AppendedCount<T>(s: seq<T>, t: seq<T>, x: T)
    ensures multiset(s + t)[x] == multiset(s)[x] + multiset(t)[x]
    ensures x in s + t <==> x in s || x in t
    ensures x in s <==> multiset(s)[x] > 0
    ensures x in t <==> multiset(t)[x] > 0
  {
    assert x in s <==> x in multiset(s);
    assert x in t <==> x in multiset(t);
  }

  lemma PollKeepsTrack(r: Receiver, r': Receiver, msgs: map<u8, seq<Packet>>, order: seq<u8>, done: seq<seq<Packet>>)
    requires Planned(msgs) && OnceEach(r.accepted, msgs) && OnTrack(r, msgs)
    requires Polled(r, r', order, done)
    ensures OnTrack(r', msgs)
  {
    hide Waiting, Finished;
    forall id | id in msgs
      ensures Waiting(r', id, msgs[id]) || Finished(r', id, msgs[id])
    {
      PollKeepsMessage(r, r', msgs, order, done, id);
    }
    forall m | m in r'.reassembled
      ensures exists id :: id in msgs && msgs[id] == m
    {
      if m !in r.reassembled {
        var k :| 0 <= k < |done| && done[k] == m;
        HandledAreMessages(r, msgs, order, done, k);
      }
    }
  }

  lemma StepKeepsTrack(r: Receiver, e: Event, r': Receiver, msgs: map<u8, seq<Packet>>)
    requires Planned(msgs) && OnceEach(r'.accepted, msgs) && OnceEach(r.accepted, msgs)
    requires OnTrack(r, msgs) && Step(r, e, r')
    ensures OnTrack(r', msgs)
  {
    hide Planned, OnceEach, ParseFrame, Accept, Polled, Waiting, Finished;
    match e
    case Arrive(rx) =>
      if ParseFrame(rx).Some? {
        AcceptChanges(r, ParseFrame(rx).value);
        AcceptKeepsTrack(r, ParseFrame(rx).value, msgs);
      }
    case Poll(order, done) =>
      PollKeepsTrack(r, r', msgs, order, done);
    case Send(random, size) =>
      SendKeepsTrack(r, r', msgs);
  }

  lemma SendKeepsTrack(r: Receiver, r': Receiver, msgs: map<u8, seq<Packet>>)
    requires OnTrack(r, msgs) && r' == r.(endpoint := r'.endpoint)
    ensures OnTrack(r', msgs)
  {
    assert forall id :: id in msgs ==>
      (Waiting(r, id, msgs[id]) ==> Waiting(r', id, msgs[id])) &&
      (Finished(r, id, msgs[id]) ==> Finished(r', id, msgs[id]));
  }

  // ----- runs -----

  lemma OnceEachPrefix(accepted: seq<Packet>, all: seq<Packet>, msgs: map<u8, seq<Packet>>)
    requires accepted <= all && OnceEach(all, msgs)
    ensures OnceEach(accepted, msgs)
  {
  }

  lemma OnlyPollsPutTogether(r: Receiver, e: Event, r': Receiver)
    requires Step(r, e, r')
    ensures r.accepted <= r'.accepted && r.reassembled <= r'.reassembled
    ensures !e.Poll? ==> r'.reassembled == r.reassembled
    ensures e.Poll? ==> r'.accepted == r.accepted
  {
  }

  lemma {:induction false} AcceptedGrows(states: seq<Receiver>, events: seq<Event>, m: nat, n: nat)
    requires Run(states, events) && m <= n < |states|
    ensures states[m].accepted <= states[n].accepted
  {
    hide Step;
    if m < n {
      AcceptedGrows(states, events, m, n - 1);
      OnlyPollsPutTogether(states[n - 1], events[n - 1], states[n]);
    }
  }

  lemma IdleOnTrack(r: Receiver, msgs: map<u8, seq<Packet>>)
    requires Idle(r)
    ensures OnTrack(r, msgs)
  {
  }

  /** At every point of the run each message either waits with the packets that have arrived, or has been put
      together once from all of them. */
  lemma {:induction false} EveryRunOnTrack(states: seq<Receiver>, events: seq<Event>, msgs: map<u8, seq<Packet>>,
                                           n: nat)
    requires Run(states, events) && Idle(states[0]) && n < |states|
    requires Planned(msgs) && OnceEach(states[n].accepted, msgs)
    ensures OnTrack(states[n], msgs)
  {
    hide OnTrack, Planned, OnceEach, Step;
    if n == 0 {
      IdleOnTrack(states[0], msgs);
    } else {
      var r, e, r' := states[n - 1], events[n - 1], states[n];
      OnlyPollsPutTogether(r, e, r');
      OnceEachPrefix(r.accepted, r'.accepted, msgs);
      EveryRunOnTrack(states, events, msgs, n - 1);
      StepKeepsTrack(r, e, r', msgs);
    }
  }

  /** No message is put together before its last packet has arrived, nor twice. */
  lemma NotBeforeTheLast(states: seq<Receiver>, events: seq<Event>, msgs: map<u8, seq<Packet>>, n: nat, id: u8)
    requires Run(states, events) && Idle(states[0]) && n < |states|
    requires Planned(msgs) && OnceEach(states[n].accepted, msgs) && id in msgs
    ensures multiset(states[n].reassembled)[msgs[id]] <= 1
    ensures msgs[id] in states[n].reassembled ==> forall p :: p in msgs[id] ==> p in states[n].accepted
  {
    var r := states[n];
    EveryRunOnTrack(states, events, msgs, n);
    assert Waiting(r, id, msgs[id]) || Finished(r, id, msgs[id]);
    if msgs[id] in r.reassembled {
      ArrivedWithin(r.accepted, msgs, id);
      OfIdHolds(r.accepted, id);
      assert forall p :: p in msgs[id] ==> p in multiset(msgs[id]);
    }
  }

  /** Once all packets are in and a poll has followed, nothing is held and each message has been put together
      exactly once, in fragment order whatever the order of arrival. */
  lemma EveryMessageDelivered(states: seq<Receiver>, events: seq<Event>, msgs: map<u8, seq<Packet>>)
    requires Run(states, events) && Idle(states[0])
    requires |events| > 0 && events[|events| - 1].Poll?
    requires Planned(msgs) && OnceEach(states[|events|].accepted, msgs)
    requires forall id :: id in msgs ==> forall p :: p in msgs[id] ==> p in states[|events|].accepted
    ensures states[|events|].received == map[]
    ensures forall id :: id in msgs ==> multiset(states[|events|].reassembled)[msgs[id]] == 1
    ensures forall m :: m in states[|events|].reassembled ==> exists id :: id in msgs && msgs[id] == m
  {
    var n := |events|;
    var r, r' := states[n - 1], states[n];
    assert Step(r, events[n - 1], r');
    EveryRunOnTrack(states, events, msgs, n);
    OnceEachPrefix(r.accepted, r'.accepted, msgs);
    EveryRunOnTrack(states, events, msgs, n - 1);
    forall id | id in msgs
      ensures id !in r'.received && Finished(r', id, msgs[id])
    {
      AllArrived(r'.accepted, msgs, id);
      assert Waiting(r', id, msgs[id]) || Finished(r', id, msgs[id]);
      assert id !in r'.received by {
        if id in r'.received {
          CompleteMeansAll(r, msgs, id);
        }
      }
      assert |msgs[id]| > 0;
    }
  }

  lemma AllArrived(accepted: seq<Packet>, msgs: map<u8, seq<Packet>>, id: u8)
    requires Planned(msgs) && OnceEach(accepted, msgs) && id in msgs
    requires forall p :: p in msgs[id] ==> p in accepted
    ensures |OfId(accepted, id)| == |msgs[id]|
  {
    OfIdHolds(accepted, id);
    OfIdDistinct(accepted, id);
    MessageDistinct(msgs[id], id);
    ArrivedWithin(accepted, msgs, id);
    DistinctWithin(msgs[id], OfId(accepted, id));
  }

  // ----- packets accepted more than once -----

  /** The group holds as many packets as the message has, and no two with the same fragment id. */
  ghost predicate Intact(group: seq<Packet>, m: seq<Packet>) {
    |group| == |m| && DistinctIds(group)
  }

  lemma {:induction false} DistinctIdsByCount(group: seq<Packet>, m: seq<Packet>)
    requires DistinctIds(m) && multiset(group) == multiset(m)
    ensures DistinctIds(group)
  {
    forall i, j | 0 <= i < j < |group|
      ensures group[i].fragmentId != group[j].fragmentId
    {
      var p, q := group[i], group[j];
      assert p in multiset(m) && q in multiset(m);
      if p.fragmentId == q.fragmentId {
        assert p == q;
        assert group == group[..j] + [group[j]] + group[j + 1..];
        assert group[i] in group[..j];
        assert multiset(group)[p] >= 2;
        DistinctCounts(m);
      }
    }
  }

  /** A complete group of a message's packets is put together as that message exactly if no two of its packets
      have the same fragment id. */
  lemma PutTogetherRight(group: seq<Packet>, sorted: seq<Packet>, m: seq<Packet>, id: u8)
    requires Message(m, id) && forall p :: p in group ==> p in m
    requires Complete(group) && SortOf(sorted, group)
    ensures |group| == |m|
    ensures sorted == m <==> DistinctIds(group)
  {
    MessageDistinct(m, id);
    assert group[0] in m;
    if DistinctIds(group) {
      DistinctWithin(group, m);
      SortIsUnique(sorted, m);
    }
    if sorted == m {
      DistinctIdsByCount(group, m);
    }
  }

  /** Every group holds packets of its message only. */
  ghost predicate GroupsFrom(received: map<u8, seq<Packet>>, msgs: map<u8, seq<Packet>>) {
    forall id :: id in received ==>
      id in msgs && received[id] != [] && forall p :: p in received[id] ==> p in msgs[id]
  }

  lemma AcceptKeepsGroupsFrom(r: Receiver, p: Packet, msgs: map<u8, seq<Packet>>)
    requires GroupsFrom(r.received, msgs) && p.messageId in msgs && p in msgs[p.messageId]
    ensures GroupsFrom(Accept(r, p).received, msgs)
  {
    var received' := Accept(r, p).received;
    forall id | id in received'
      ensures id in msgs && received'[id] != [] && forall q :: q in received'[id] ==> q in msgs[id]
    {
      if id == p.messageId {
        assert received'[id] == Group(r.received, id) + [p];
      } else {
        assert received'[id] == r.received[id];
      }
    }
  }

  lemma {:induction false} EveryRunGroupsFrom(states: seq<Receiver>, events: seq<Event>, msgs: map<u8, seq<Packet>>,
                                              n: nat)
    requires Run(states, events) && Idle(states[0]) && n < |states|
    requires FromMessages(states[n].accepted, msgs)
    ensures GroupsFrom(states[n].received, msgs)
  {
    if n > 0 {
      var r, e, r' := states[n - 1], events[n - 1], states[n];
      AcceptedGrows(states, events, n - 1, n);
      assert forall p :: p in r.accepted ==> p in r'.accepted;
      EveryRunGroupsFrom(states, events, msgs, n - 1);
      assert Step(r, e, r');
      if e.Arrive? && ParseFrame(e.rx).Some? {
        var p := ParseFrame(e.rx).value;
        assert p in r'.accepted;
        AcceptKeepsGroupsFrom(r, p, msgs);
      }
    }
  }

  /** What the k-th group of a poll is put together as: a message it belongs to, or packets of that message with
      a fragment id twice. */
  lemma HandledExactly(r: Receiver, msgs: map<u8, seq<Packet>>, order: seq<u8>, done: seq<seq<Packet>>, k: nat)
    requires Planned(msgs) && GroupsFrom(r.received, msgs) && Handles(r.received, order, done) && k < |order|
    ensures order[k] in msgs && |done[k]| == |r.received[order[k]]| == |msgs[order[k]]|
    ensures forall p :: p in done[k] ==> p in msgs[order[k]]
    ensures done[k] == msgs[order[k]] <==> Intact(r.received[order[k]], msgs[order[k]])
    ensures DistinctIds(done[k]) <==> DistinctIds(r.received[order[k]])
  {
    var id := order[k];
    assert id in order;
    var group, m := r.received[id], msgs[id];
    PutTogetherRight(group, done[k], m, id);
    SameLength(done[k], group);
    forall p | p in done[k]
      ensures p in m
    {
      assert p in multiset(group);
    }
    if DistinctIds(group) {
      DistinctIdsByCount(done[k], group);
    }
    if DistinctIds(done[k]) {
      DistinctIdsByCount(group, done[k]);
    }
  }

  lemma {:induction false} OccursOnce<T>(s: seq<T>, x: T)
    requires forall i, j :: 0 <= i < j < |s| ==> s[i] != x || s[j] != x
    ensures multiset(s)[x] == if x in s then 1 else 0
  {
    if |s| > 0 {
      var n := |s| - 1;
      assert s == s[..n] + [s[n]];
      OccursOnce(s[..n], x);
    }
  }

  lemma OfOneMessage(s: seq<Packet>, m: seq<Packet>, m': seq<Packet>, id: u8, id': u8)
    requires Message(m, id) && Message(m', id') && id != id'
    requires |s| > 0 && forall p :: p in s ==> p in m'
    ensures s != m
  {
    assert s[0] in m';
    assert s[0].messageId == id' && m[0].messageId == id;
  }

  lemma IntactIsHandled(r: Receiver, msgs: map<u8, seq<Packet>>, order: seq<u8>, done: seq<seq<Packet>>, id: u8)
    requires Planned(msgs) && GroupsFrom(r.received, msgs) && id in msgs && Handles(r.received, order, done)
    requires Intact(Group(r.received, id), msgs[id])
    ensures id in order
  {
    assert r.received[id][0] in msgs[id];
  }

  /** A poll puts a message together exactly if it finds the message's group intact. */
  lemma PollPutsTogether(r: Receiver, r': Receiver, msgs: map<u8, seq<Packet>>, order: seq<u8>,
                         done: seq<seq<Packet>>, id: u8)
    requires Planned(msgs) && GroupsFrom(r.received, msgs) && id in msgs && Polled(r, r', order, done)
    ensures multiset(r'.reassembled)[msgs[id]]
         == multiset(r.reassembled)[msgs[id]] + if Intact(Group(r.received, id), msgs[id]) then 1 else 0
  {
    hide DistinctIds, Safe, ProcessAll, FreedBy, SortOf, Complete;
    var m := msgs[id];
    forall k | 0 <= k < |done| && order[k] != id
      ensures done[k] != m
    {
      HandledExactly(r, msgs, order, done, k);
      OfOneMessage(done[k], m, msgs[order[k]], id, order[k]);
    }
    OccursOnce(done, m);
    AppendedCount(r.reassembled, done, m);
    if id in order {
      var k :| 0 <= k < |order| && order[k] == id;
      HandledExactly(r, msgs, order, done, k);
      assert m in done <==> done[k] == m;
    } else {
      assert m !in done;
      if Intact(Group(r.received, id), m) {
        IntactIsHandled(r, msgs, order, done, id);
      }
    }
  }

  /** The packets of the id that wait after the events, for a message of `total` packets: those accepted since a poll
      last found that many. */
  ghost function HeldAfter(events: seq<Event>, id: u8, total: nat): seq<Packet> {
    if |events| == 0 then []
    else
      var held, e := HeldAfter(events[..|events| - 1], id, total), events[|events| - 1];
      if e.Poll? && |held| == total then [] else held + OfId(PacketIn(e), id)
  }

  /** The number of polls among the events that find the packets that wait intact. */
  ghost function IntactPolls(events: seq<Event>, id: u8, m: seq<Packet>): nat {
    if |events| == 0 then 0
    else
      var before := events[..|events| - 1];
      IntactPolls(before, id, m) +
      if events[|events| - 1].Poll? && Intact(HeldAfter(before, id, |m|), m) then 1 else 0
  }

  lemma OfIdSingle(p: Packet, id: u8)
    ensures OfId([p], id) == if p.messageId == id then [p] else []
  {
    OfIdAppend([], p, id);
    assert [] + [p] == [p];
  }

  lemma AcceptedGroup(r: Receiver, e: Event, r': Receiver, id: u8)
    requires Step(r, e, r') && !e.Poll?
    ensures Group(r'.received, id) == Group(r.received, id) + OfId(PacketIn(e), id)
  {
    hide ParseFrame;
    if PacketIn(e) != [] {
      OfIdSingle(PacketIn(e)[0], id);
    }
  }

  lemma PolledGroup(r: Receiver, r': Receiver, msgs: map<u8, seq<Packet>>, order: seq<u8>, done: seq<seq<Packet>>,
                    id: u8)
    requires Planned(msgs) && GroupsFrom(r.received, msgs) && id in msgs && Polled(r, r', order, done)
    ensures Group(r'.received, id) == if |Group(r.received, id)| == |msgs[id]| then [] else Group(r.received, id)
  {
    if id in r.received {
      assert r.received[id][0] in msgs[id];
    }
  }

  /** What waits is determined by the events. */
  lemma {:induction false} GroupIsHeld(states: seq<Receiver>, events: seq<Event>, msgs: map<u8, seq<Packet>>,
                                       id: u8, n: nat)
    requires Run(states, events) && Idle(states[0]) && n < |states|
    requires Planned(msgs) && FromMessages(states[n].accepted, msgs) && id in msgs
    ensures Group(states[n].received, id) == HeldAfter(events[..n], id, |msgs[id]|)
  {
    hide Planned, GroupsFrom, Polled, Group, OfId, PacketIn, Arrived;
    if n == 0 {
      assert Group(states[0].received, id) == [] by {
        EmptyGroup(id);
      }
    } else {
      var r, e, r' := states[n - 1], events[n - 1], states[n];
      assert Step(r, e, r');
      OnlyPollsPutTogether(r, e, r');
      GroupIsHeld(states, events, msgs, id, n - 1);
      EveryRunGroupsFrom(states, events, msgs, n - 1);
      assert events[..n][..n - 1] == events[..n - 1];
      if e.Poll? {
        PolledGroup(r, r', msgs, e.order, e.done, id);
        NoPacketInPoll(e, id);
      } else {
        AcceptedGroup(r, e, r', id);
      }
    }
  }

  lemma EmptyGroup(id: u8)
    ensures Group(map[], id) == []
  {
  }

  lemma NoPacketInPoll(e: Event, id: u8)
    requires e.Poll?
    ensures OfId(PacketIn(e), id) == []
  {
  }

  /** Over every run, however often and in whatever order packets arrive: a message has been put together once for
      each poll that finds as many packets of it waiting as it has, no two with the same fragment id. */
  lemma {:induction false} PutTogetherExactly(states: seq<Receiver>, events: seq<Event>, msgs: map<u8, seq<Packet>>,
                                              id: u8, n: nat)
    requires Run(states, events) && Idle(states[0]) && n < |states|
    requires Planned(msgs) && FromMessages(states[n].accepted, msgs) && id in msgs
    ensures multiset(states[n].reassembled)[msgs[id]] == IntactPolls(events[..n], id, msgs[id])
  {
    hide Intact, Planned, ParseFrame, GroupsFrom, Polled, Arrived, Group, HeldAfter, Distinct;
    if n > 0 {
      var r, e, r' := states[n - 1], events[n - 1], states[n];
      assert Step(r, e, r');
      OnlyPollsPutTogether(r, e, r');
      PutTogetherExactly(states, events, msgs, id, n - 1);
      EveryRunGroupsFrom(states, events, msgs, n - 1);
      GroupIsHeld(states, events, msgs, id, n - 1);
      assert events[..n][..n - 1] == events[..n - 1];
      if e.Poll? {
        PollPutsTogether(r, r', msgs, e.order, e.done, id);
      }
    }
  }

  /** What has been put together, all in all: packets of one message, as many as it has; and they are the message
      exactly if no two have the same fragment id. */
  ghost predicate RightIfDistinct(s: seq<Packet>, msgs: map<u8, seq<Packet>>) {
    exists id :: id in msgs
      && |s| == |msgs[id]| && (forall p :: p in s ==> p in msgs[id])
      && (s == msgs[id] <==> DistinctIds(s))
  }

  lemma HandledRight(r: Receiver, msgs: map<u8, seq<Packet>>, order: seq<u8>, done: seq<seq<Packet>>, k: nat)
    requires Planned(msgs) && GroupsFrom(r.received, msgs) && Handles(r.received, order, done) && k < |order|
    ensures RightIfDistinct(done[k], msgs)
  {
    hide Planned, GroupsFrom, SortOf, Message, DistinctIds;
    HandledExactly(r, msgs, order, done, k);
  }

  lemma {:induction false} EveryReassembly(states: seq<Receiver>, events: seq<Event>, msgs: map<u8, seq<Packet>>,
                                           n: nat)
    requires Run(states, events) && Idle(states[0]) && n < |states|
    requires Planned(msgs) && FromMessages(states[n].accepted, msgs)
    ensures forall s :: s in states[n].reassembled ==> RightIfDistinct(s, msgs)
  {
    hide Planned, ParseFrame, GroupsFrom, RightIfDistinct, Arrived, Safe, ProcessAll, FreedBy;
    if n > 0 {
      var r, e, r' := states[n - 1], events[n - 1], states[n];
      assert Step(r, e, r');
      OnlyPollsPutTogether(r, e, r');
      EveryReassembly(states, events, msgs, n - 1);
      EveryRunGroupsFrom(states, events, msgs, n - 1);
      forall s | s in r'.reassembled
        ensures RightIfDistinct(s, msgs)
      {
        if s !in r.reassembled {
          assert e.Poll?;
          var k :| 0 <= k < |e.done| && e.done[k] == s;
          HandledRight(r, msgs, e.order, e.done, k);
        }
      }
    }
  }

  // ----- one message, whatever else arrives -----

  /** The packets of the id that the events accept, in their order of arrival. */
  ghost function PacketsOf(events: seq<Event>, id: u8): seq<Packet> {
    if |events| == 0 then []
    else PacketsOf(events[..|events| - 1], id) + OfId(PacketIn(events[|events| - 1]), id)
  }

  /** The message's packets are accepted once each, and no other packet of its id. */
  ghost predicate ArrivesOnce(events: seq<Event>, m: seq<Packet>, id: u8) {
    multiset(PacketsOf(events, id)) == multiset(m)
  }

  /** The event is a poll that puts s together under the id. */
  ghost predicate PutsTogether(e: Event, k: nat, id: u8, s: seq<Packet>) {
    e.Poll? && k < |e.order| == |e.done| && e.order[k] == id && e.done[k] == s
  }

  ghost predicate HandlesId(e: Event, id: u8) {
    e.Poll? && id in e.order
  }

  /** If the event is a poll, all it puts together under the id is s. */
  ghost predicate HandlesOnly(e: Event, id: u8, s: seq<Packet>) {
    e.Poll? ==> |e.order| == |e.done| && forall k :: 0 <= k < |e.order| && e.order[k] == id ==> e.done[k] == s
  }

  /** Event i is the only one that handles the id. */
  ghost predicate HandledOnlyAt(events: seq<Event>, id: u8, i: nat) {
    i < |events| && HandlesId(events[i], id) && forall j :: 0 <= j < |events| && j != i ==> !HandlesId(events[j], id)
  }

  ghost predicate HandledBefore(events: seq<Event>, id: u8, n: nat)
    requires n <= |events|
  {
    exists i :: 0 <= i < n && HandlesId(events[i], id)
  }

  /** Some of the message's packets, each at most once. */
  ghost predicate PartOf(ps: seq<Packet>, m: seq<Packet>) {
    Distinct(ps) && forall p :: p in ps ==> p in m
  }

  lemma PartComplete(ps: seq<Packet>, m: seq<Packet>, id: u8)
    requires Message(m, id) && PartOf(ps, m)
    ensures |ps| <= |m| && (Complete(ps) <==> |ps| == |m|)
    ensures |ps| == |m| ==> multiset(ps) == multiset(m)
  {
    MessageDistinct(m, id);
    DistinctWithin(ps, m);
    if |ps| > 0 {
      assert ps[0] in m;
    }
  }

  lemma OfIdOfPacket(e: Event, id: u8)
    ensures |OfId(PacketIn(e), id)| <= 1
    ensures e.Poll? ==> OfId(PacketIn(e), id) == []
  {
    hide ParseFrame, InBounds;
  }

  /** One event, seen from one id. */
  lemma GroupStep(r: Receiver, e: Event, r': Receiver, id: u8)
    requires Step(r, e, r')
    ensures HandlesId(e, id) <==> e.Poll? && Complete(Group(r.received, id))
    ensures Group(r'.received, id) == if HandlesId(e, id) then [] else Group(r.received, id) + OfId(PacketIn(e), id)
    ensures HandlesId(e, id) ==> id !in r'.received
  {
    if e.Poll? {
      OfIdOfPacket(e, id);
      assert Group(r.received, id) + [] == Group(r.received, id);
    } else {
      AcceptedGroup(r, e, r', id);
    }
  }

  lemma PartAppended(ps: seq<Packet>, qs: seq<Packet>, m: seq<Packet>)
    requires PartOf(ps + qs, m)
    ensures PartOf(ps, m) && (|ps| == |m| && Distinct(m) ==> qs == [])
  {
    var all := ps + qs;
    assert forall i :: 0 <= i < |ps| ==> all[i] == ps[i];
    assert forall p :: p in ps ==> p in all;
    if |ps| == |m| && Distinct(m) {
      DistinctWithin(all, m);
      assert |all| == |ps| + |qs|;
    }
  }

  /** Until a poll handles the id the group holds what has arrived of the message; a poll handles it exactly if all has
      arrived, and then puts the message together; nothing of it is held or handled again. */
  lemma {:induction false} MessageInFlight(states: seq<Receiver>, events: seq<Event>, m: seq<Packet>, id: u8, n: nat)
    requires Run(states, events) && n < |states| && Group(states[0].received, id) == [] && Message(m, id)
    requires PartOf(PacketsOf(events[..n], id), m)
    ensures if HandledBefore(events, id, n) then
              Group(states[n].received, id) == [] && |PacketsOf(events[..n], id)| == |m|
            else Group(states[n].received, id) == PacketsOf(events[..n], id)
    ensures forall i :: 0 <= i < n ==> HandlesOnly(events[i], id, m)
    ensures forall i, j :: 0 <= i < j < n ==> !HandlesId(events[i], id) || !HandlesId(events[j], id)
  {
    hide Step, Group, OfId, PacketIn, Complete, Message, PartOf, HandlesId, HandlesOnly;
    if n > 0 {
      var r, e, r' := states[n - 1], events[n - 1], states[n];
      var before := PacketsOf(events[..n - 1], id);
      assert events[..n][..n - 1] == events[..n - 1];
      PartAppended(before, OfId(PacketIn(e), id), m);
      MessageInFlight(states, events, m, id, n - 1);
      GroupStep(r, e, r', id);
      OfIdOfPacket(e, id);
      PartComplete(before, m, id);
      MessageDistinct(m, id);
      assert HandledBefore(events, id, n) <==> HandledBefore(events, id, n - 1) || HandlesId(e, id);
      EmptyIncomplete();
      if HandlesId(e, id) {
        assert before + [] == before;
        HandlesMessage(r, e, r', m, id);
      } else {
        HandlesNothing(r, e, r', m, id);
      }
    }
  }

  lemma HandlesNothing(r: Receiver, e: Event, r': Receiver, m: seq<Packet>, id: u8)
    requires Step(r, e, r') && !HandlesId(e, id)
    ensures HandlesOnly(e, id, m)
  {
  }

  lemma EmptyIncomplete()
    ensures !Complete([])
  {
  }

  lemma SameElementTwice<T>(s: seq<T>, i: nat, j: nat)
    requires i < j < |s|
    ensures s[i] == s[j] ==> multiset(s)[s[i]] >= 2
  {
    assert s == s[..j] + [s[j]] + s[j + 1..];
    assert s[i] in s[..j];
  }

  lemma ArrivedParts(events: seq<Event>, m: seq<Packet>, id: u8)
    requires Message(m, id) && ArrivesOnce(events, m, id)
    ensures PartOf(PacketsOf(events, id), m) && |PacketsOf(events, id)| == |m|
  {
    var ps := PacketsOf(events, id);
    MessageDistinct(m, id);
    DistinctCounts(m);
    SameLength(ps, m);
    forall p | p in ps
      ensures p in m
    {
      assert p in multiset(m);
    }
    forall i, j | 0 <= i < j < |ps|
      ensures ps[i] != ps[j]
    {
      SameElementTwice(ps, i, j);
    }
  }

  /** If the packets of a message are accepted once each and a poll follows, then whatever else arrives, is polled or
      sent, one poll puts the message together, no other handles its id, and nothing of it stays behind. */
  lemma MessageDelivered(states: seq<Receiver>, events: seq<Event>, m: seq<Packet>, id: u8) returns (i: nat, k: nat)
    requires Run(states, events) && Group(states[0].received, id) == [] && Message(m, id)
    requires ArrivesOnce(events, m, id) && |events| > 0 && events[|events| - 1].Poll?
    ensures HandledOnlyAt(events, id, i) && PutsTogether(events[i], k, id, m)
    ensures Group(states[|events|].received, id) == []
  {
    hide Step, Group, OfId, PacketIn, Complete, Message, PartOf;
    var n := |events| - 1;
    ArrivedParts(events, m, id);
    assert events[..n + 1] == events;
    MessageInFlight(states, events, m, id, n + 1);
    if !HandledBefore(events, id, n) {
      OfIdOfPacket(events[n], id);
      assert PacketsOf(events, id) == PacketsOf(events[..n], id) + [] == PacketsOf(events[..n], id);
      MessageInFlight(states, events, m, id, n);
      PartComplete(PacketsOf(events[..n], id), m, id);
      GroupStep(states[n], events[n], states[n + 1], id);
      assert HandlesId(events[n], id);
    }
    i :| 0 <= i < |events| && HandlesId(events[i], id);
    k :| 0 <= k < |events[i].order| && events[i].order[k] == id;
    assert HandlesOnly(events[i], id, m);
  }

  lemma HandlesMessage(r: Receiver, e: Event, r': Receiver, m: seq<Packet>, id: u8)
    requires Step(r, e, r') && HandlesId(e, id)
    requires Message(m, id) && multiset(Group(r.received, id)) == multiset(m)
    ensures HandlesOnly(e, id, m)
  {
    MessageDistinct(m, id);
    forall k | 0 <= k < |e.order| && e.order[k] == id
      ensures e.done[k] == m
    {
      SortIsUnique(e.done[k], m);
    }
  }

  /** The events accept packets of the id only. */
  ghost predicate OnlyOf(events: seq<Event>, id: u8) {
    forall other: u8 :: other != id ==> PacketsOf(events, other) == []
  }

  lemma {:induction false} NothingOfOther(states: seq<Receiver>, events: seq<Event>, other: u8, n: nat)
    requires Run(states, events) && n < |states| && states[0].received == map[]
    requires PacketsOf(events[..n], other) == []
    ensures Group(states[n].received, other) == []
  {
    hide Step, OfId, PacketIn, Complete, HandlesId;
    if n > 0 {
      assert events[..n][..n - 1] == events[..n - 1];
      NothingOfOther(states, events, other, n - 1);
      GroupStep(states[n - 1], events[n - 1], states[n], other);
    }
  }

  lemma {:induction false} NoEmptyGroups(states: seq<Receiver>, events: seq<Event>, n: nat)
    requires Run(states, events) && n < |states| && states[0].received == map[]
    ensures forall id :: id in states[n].received ==> states[n].received[id] != []
  {
    hide ParseFrame, Handles;
    if n > 0 {
      NoEmptyGroups(states, events, n - 1);
      assert Step(states[n - 1], events[n - 1], states[n]);
    }
  }

  /** A receiver that held nothing and accepted packets of one id only holds nothing when nothing of that id is held. */
  lemma NothingElseHeld(states: seq<Receiver>, events: seq<Event>, id: u8, n: nat)
    requires Run(states, events) && n < |states| && states[0].received == map[]
    requires OnlyOf(events[..n], id) && Group(states[n].received, id) == []
    ensures states[n].received == map[]
  {
    hide PacketsOf, Step;
    NoEmptyGroups(states, events, n);
    forall other | other in states[n].received
      ensures false
    {
      if other != id {
        NothingOfOther(states, events, other, n);
      }
    }
  }

  // ----- a duplicate in the place of a missing packet -----

  /** A receiver that holds one complete group, in order, can be polled. */
  lemma SomePoll(r: Receiver, id: u8, m: seq<Packet>) returns (r': Receiver)
    requires r.received == map[id := m] && Complete(m) && SortedById(m) && Safe(r.endpoint.callbackSet, m)
    ensures Polled(r, r', [id], [m])
    ensures r'.reassembled == r.reassembled + [m] && r'.accepted == r.accepted
  {
    hide Complete, Safe, SortedById, ProcessAll, FreedBy;
    r' := r.(received := map[], endpoint := ProcessAll(r.endpoint, [m]), freed := r.freed + FreedBy([m]),
             reassembled := r.reassembled + [m]);
    assert Handles(r.received, [id], [m]);
  }

  lemma AcceptedTwice(r: Receiver, p: Packet)
    requires r.received == map[]
    ensures var r' := Accept(Accept(r, p), p);
            r'.received == map[p.messageId := [p, p]] && r'.endpoint == r.endpoint && r'.reassembled == r.reassembled
  {
    assert Group(r.received, p.messageId) == [];
    assert Group(Accept(r, p).received, p.messageId) == [p];
    assert Accept(Accept(r, p), p).received[p.messageId] == [p, p];
  }

  lemma TwoPackets(p: Packet, q: Packet)
    requires Message([p, q], p.messageId)
    ensures p != q && Complete([p, p]) && !DistinctIds([p, p]) && SortOf([p, p], [p, p])
    ensures |p.data| <= PACKET_MAX_SIZE
  {
    var m, pp := [p, q], [p, p];
    assert m[0] == p && m[1] == q;
    assert m[0].fragmentId == 0 && m[1].fragmentId == 1 && m[0].totalFragments == 2;
    assert pp[0] == p && pp[1] == p;
  }

  lemma JoinedTwo(p: Packet, q: Packet)
    ensures Joined([p, q]) == p.data + q.data
  {
    assert [p, q][..1] == [p] && [p][..0] == [];
    assert Joined([p][..0]) == [];
    assert Joined([p]) == p.data;
  }

  lemma SafeText(callbackSet: bool, p: Packet)
    requires p.ptype == MSG && 0 < |p.data| <= PACKET_MAX_SIZE
    ensures Safe(callbackSet, [p, p])
  {
    JoinedTwo(p, p);
  }

  lemma TwoFragments(bytes: seq<bv8>, id: u8) returns (p: Packet, q: Packet)
    requires PACKET_MAX_SIZE < |bytes| <= 2 * PACKET_MAX_SIZE
    ensures Fragmented(bytes, MSG, id) == [p, q] && Message([p, q], id)
    ensures p.messageId == id && p.ptype == MSG && p.data == bytes[..PACKET_MAX_SIZE]
  {
    FragmentsMakeMessage(bytes, MSG, id);
    var ps := Fragmented(bytes, MSG, id);
    p, q := ps[0], ps[1];
    assert ps == [p, q];
    FragmentAt(bytes, MSG, id, 2, 0);
  }

  /** The condition can fail for every text of two packets: if the first arrives twice before the other, a poll
      puts it together with itself. */
  lemma DuplicateStandsIn(start: Receiver, bytes: seq<bv8>, id: u8) returns (states: seq<Receiver>, events: seq<Event>)
    requires Idle(start) && PACKET_MAX_SIZE < |bytes| <= 2 * PACKET_MAX_SIZE
    ensures Run(states, events) && states[0] == start
    ensures |events| == 3 && events[0].Arrive? && events[1] == events[0] && events[2].Poll?
    ensures FromMessages(states[3].accepted, map[id := Fragmented(bytes, MSG, id)])
    ensures |states[3].reassembled| == 1
    ensures states[3].reassembled[0] != Fragmented(bytes, MSG, id)
    ensures Joined(states[3].reassembled[0]) == bytes[..PACKET_MAX_SIZE] + bytes[..PACKET_MAX_SIZE]
  {
    hide ParseFrame, ProcessAll, Message, Complete, DistinctIds, Joined, Fragmented, Safe;
    var p, q := TwoFragments(bytes, id);
    TwoPackets(p, q);
    AcceptedTwice(start, p);
    var frame, rx := SomeBuffer(p);
    var pp := [p, p];
    var r1 := Accept(start, p);
    var r2 := Accept(r1, p);
    SafeText(r2.endpoint.callbackSet, p);
    var r3 := SomePoll(r2, id, pp);
    states, events := [start, r1, r2, r3], [Arrive(rx), Arrive(rx), Poll([id], [pp])];
    assert pp[1] != [p, q][1];
    assert states[3].reassembled[0] == pp;
    JoinedTwo(p, p);
  }
}
