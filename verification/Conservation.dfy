/** What every run of the receiver keeps, whatever arrives: groups hold packets of their own id only, and no
    accepted packet is lost or freed twice. */
module Conservation {
  import opened Bytes
  import opened Frames
  import opened Fragments
  import opened Receiving

  ghost predicate Grouped(received: map<u8, seq<Packet>>) {
    forall id :: id in received ==>
      && received[id] != []
      && (forall p :: p in received[id] ==> p.messageId == id && |p.data| <= PACKET_MAX_SIZE)
  }

  /** How often a packet is held: it can only be in the group of its id. */
  ghost function Held(received: map<u8, seq<Packet>>, p: Packet): nat {
    multiset(Group(received, p.messageId))[p]
  }

  /** Every accepted packet is either held or has been freed, as many times as it was accepted. */
  ghost predicate Conserved(r: Receiver) {
    forall p :: multiset(r.accepted)[p] == r.freed[p] + Held(r.received, p)
  }

  /** A poll frees exactly the packets of the groups it handles. */
  lemma {:induction false} FreedExactly(received: map<u8, seq<Packet>>, order: seq<u8>, done: seq<seq<Packet>>,
                                        p: Packet)
    requires Grouped(received) && |order| == |done| && Distinct(order)
    requires forall id :: id in order ==> id in received
    requires forall k :: 0 <= k < |order| ==> SortOf(done[k], received[order[k]])
    ensures FreedBy(done)[p] == if p.messageId in order then Held(received, p) else 0
    decreases |done|
  {
    if |done| > 0 {
      var n := |done| - 1;
      var id := order[n];
      assert order == order[..n] + [id];
      assert id !in order[..n];
      FreedExactly(received, order[..n], done[..n], p);
      assert multiset(done[n]) == multiset(received[id]);
      if p.messageId != id {
        assert p !in received[id];
        assert multiset(received[id])[p] == 0;
      }
    }
  }

  lemma AppendCount(s: seq<Packet>, p: Packet, q: Packet)
    ensures multiset(s + [p])[q] == multiset(s)[q] + if q == p then 1 else 0
  {
  }

  lemma AcceptKeepsGrouped(r: Receiver, p: Packet)
    requires Grouped(r.received) && |p.data| <= PACKET_MAX_SIZE
    ensures Grouped(Accept(r, p).received)
  {
    var received' := Accept(r, p).received;
    forall id: u8 | id in received'
      ensures received'[id] != []
      ensures forall q: Packet :: q in received'[id] ==> q.messageId == id && |q.data| <= PACKET_MAX_SIZE
    {
      if id == p.messageId {
        assert received'[id] == Group(r.received, id) + [p];
      } else {
        assert received'[id] == r.received[id];
      }
    }
  }

  lemma AcceptKeepsConserved(r: Receiver, p: Packet)
    requires Conserved(r)
    ensures Conserved(Accept(r, p))
  {
    var r' := Accept(r, p);
    forall q
      ensures multiset(r'.accepted)[q] == r'.freed[q] + Held(r'.received, q)
    {
      assert multiset(r.accepted)[q] == r.freed[q] + Held(r.received, q);
      AppendCount(r.accepted, p, q);
      if q.messageId == p.messageId {
        AppendCount(Group(r.received, p.messageId), p, q);
      } else {
        assert Group(r'.received, q.messageId) == Group(r.received, q.messageId);
      }
    }
  }

  lemma PollKeeps(r: Receiver, r': Receiver, order: seq<u8>, done: seq<seq<Packet>>)
    requires Grouped(r.received) && Conserved(r) && Polled(r, r', order, done)
    ensures Grouped(r'.received) && Conserved(r')
  {
    forall p
      ensures multiset(r'.accepted)[p] == r'.freed[p] + Held(r'.received, p)
    {
      assert multiset(r.accepted)[p] == r.freed[p] + Held(r.received, p);
      FreedExactly(r.received, order, done, p);
    }
  }

  lemma StepKeeps(r: Receiver, e: Event, r': Receiver)
    requires Grouped(r.received) && Conserved(r) && Step(r, e, r')
    ensures Grouped(r'.received) && Conserved(r')
  {
    match e
    case Arrive(rx) =>
      if ParseFrame(rx).Some? {
        AcceptKeepsGrouped(r, ParseFrame(rx).value);
        AcceptKeepsConserved(r, ParseFrame(rx).value);
      }
    case Poll(order, done) =>
      PollKeeps(r, r', order, done);
    case Send(random, size) =>
  }

  /** Over every run, with any frames, duplicates, polls and sends in any order. */
  lemma {:induction false} EveryRunConserves(states: seq<Receiver>, events: seq<Event>, n: nat)
    requires Run(states, events) && Idle(states[0]) && n < |states|
    ensures Grouped(states[n].received) && Conserved(states[n])
  {
    if n > 0 {
      EveryRunConserves(states, events, n - 1);
      StepKeeps(states[n - 1], events[n - 1], states[n]);
    }
  }

  // ----- groups that can never be completed -----

  /** A group that has outgrown the total its first packet announced. */
  ghost predicate Overfull(r: Receiver, id: u8) {
    id in r.received && r.received[id] != [] && r.received[id][0].totalFragments < |r.received[id]|
  }

  /** How a group comes to be overfull: by one packet more than a complete group that was not polled, be it a
      duplicate or, after a handshake, the first of the message; or by a first packet that announces none. */
  lemma OverfullExactly(r: Receiver, p: Packet)
    requires Grouped(r.received)
    ensures var id := p.messageId;
            Overfull(Accept(r, p), id) <==>
            Overfull(r, id)
            || (id in r.received && Complete(r.received[id]))
            || (id !in r.received && p.totalFragments == 0)
  {
    assert Accept(r, p).received[p.messageId] == Group(r.received, p.messageId) + [p];
  }

  /** Such a group stays for ever: later packets only make it longer, and a poll passes it over. */
  lemma {:induction false} OverfullForever(states: seq<Receiver>, events: seq<Event>, id: u8, m: nat, n: nat)
    requires Run(states, events) && m <= n < |states| && Overfull(states[m], id)
    ensures Overfull(states[n], id)
    ensures states[m].received[id] <= states[n].received[id]
  {
    if m < n {
      OverfullForever(states, events, id, m, n - 1);
      var r, e, r' := states[n - 1], events[n - 1], states[n];
      assert Step(r, e, r');
      assert !Complete(r.received[id]);
    }
  }

  lemma TotalOfFirst(bytes: seq<bv8>, ptype: u8, id: u8, k: nat)
    requires k < FragmentCount(|bytes|)
    ensures k < |Fragmented(bytes, ptype, id)|
    ensures Fragmented(bytes, ptype, id)[k].totalFragments == FragmentCount(|bytes|) % 256
    ensures Fragmented(bytes, ptype, id)[k].messageId == id
  {
    FragmentAt(bytes, ptype, id, FragmentCount(|bytes|), k);
  }

  /** A message of 256 fragments, or of any multiple of it, blocks its id: whichever of its packets comes
      first announces a total of 0, and the group is never put together. */
  lemma TotalOfZeroBlocks(states: seq<Receiver>, events: seq<Event>, bytes: seq<bv8>, ptype: u8, id: u8, k: nat,
                          m: nat, n: nat)
    requires Run(states, events) && m < n < |states| && id !in states[m].received
    requires FragmentCount(|bytes|) % 256 == 0 && k < FragmentCount(|bytes|)
    requires events[m].Arrive? && InBounds(events[m].rx)
    requires ParseFrame(events[m].rx) == Some(Fragmented(bytes, ptype, id)[k])
    ensures Overfull(states[n], id)
  {
    hide ParseFrame, Fragmented, FragmentCount;
    TotalOfFirst(bytes, ptype, id, k);
    assert Step(states[m], events[m], states[m + 1]);
    assert states[m + 1].received[id] == Group(states[m].received, id) + [Fragmented(bytes, ptype, id)[k]];
    OverfullForever(states, events, id, m + 1, n);
  }
}
