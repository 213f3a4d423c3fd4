/** From the sender's payload to the receiver's callback. */
module EndToEnd {
  import opened Bytes
  import opened Frames
  import opened Padding
  import opened Fips197
  import opened KeySchedule
  import opened Modes
  import opened Fragments
  import opened Receiving
  import opened Conservation
  import opened Delivery

  /** The largest payload whose padded form fits 255 packets. */
  const MAX_PAYLOAD := 30336

  // ----- what every run keeps of the endpoint -----

  lemma StepEndpoint(r: Receiver, e: Event, r': Receiver)
    requires Step(r, e, r')
    ensures r'.endpoint.roundKey == if e.Send? then KeyExpansion(SenderKey()) else r.endpoint.roundKey
    ensures r'.endpoint.callbackSet == r.endpoint.callbackSet
    ensures r.endpoint.calls <= r'.endpoint.calls
  {
    hide ParseFrame, Handles, ProcessAll, KeyExpansion, SenderKey, Safe;
    if e.Poll? {
      ProcessAllCalls(r.endpoint, e.done, 0);
      assert e.done[..0] == [] && ProcessAll(r.endpoint, []) == r.endpoint by {
        NothingProcessed(r.endpoint);
      }
    }
  }

  lemma NothingProcessed(ep: Endpoint)
    ensures ProcessAll(ep, []) == ep
  {
  }

  /** Processing more groups only adds calls. */
  lemma {:induction false} ProcessAllCalls(ep: Endpoint, done: seq<seq<Packet>>, k: nat)
    requires k <= |done| && forall j :: 0 <= j < |done| ==> Safe(ep.callbackSet, done[j])
    ensures ProcessAll(ep, done[..k]).calls <= ProcessAll(ep, done).calls
    decreases |done|
  {
    hide Safe, StripLength, Xcrypt, Joined;
    if k < |done| {
      var last := |done| - 1;
      assert done[..last][..k] == done[..k];
      ProcessAllCalls(ep, done[..last], k);
    } else {
      assert done[..k] == done;
    }
  }

  ghost predicate SendWithin(events: seq<Event>, hi: nat)
    requires hi <= |events|
  {
    exists i :: 0 <= i < hi && events[i].Send?
  }

  /** The round keys at any point of any run: from the first send on those of the byte-reversed key, before that the
      initial ones.  Nothing received changes them. */
  lemma {:induction false} EveryRunRoundKey(states: seq<Receiver>, events: seq<Event>, n: nat)
    requires Run(states, events) && n < |states|
    ensures states[n].endpoint.roundKey ==
            if SendWithin(events, n) then KeyExpansion(SenderKey()) else states[0].endpoint.roundKey
  {
    hide Step, KeyExpansion, SenderKey;
    if n > 0 {
      EveryRunRoundKey(states, events, n - 1);
      StepEndpoint(states[n - 1], events[n - 1], states[n]);
      assert SendWithin(events, n) <==> SendWithin(events, n - 1) || events[n - 1].Send?;
    }
  }

  /** Calls are only added. */
  lemma {:induction false} EveryRunCalls(states: seq<Receiver>, events: seq<Event>, m: nat, n: nat)
    requires Run(states, events) && m <= n < |states|
    ensures states[m].endpoint.calls <= states[n].endpoint.calls
    ensures states[m].endpoint.callbackSet == states[n].endpoint.callbackSet
  {
    hide Step, KeyExpansion, SenderKey;
    if m < n {
      EveryRunCalls(states, events, m, n - 1);
      StepEndpoint(states[n - 1], events[n - 1], states[n]);
    }
  }

  // ----- the endpoint among inert messages -----

  /** A message that neither is a text nor carries an IV leaves the endpoint alone. */
  ghost predicate Inert(m: seq<Packet>) {
    |m| > 0 && m[0].ptype != MSG && m[0].ptype != ENCRYP
  }

  /** Exactly the other kinds than 0 and 1 are inert, and so is a text while no callback is set. */
  lemma OtherKindsDropped(ep: Endpoint, m: seq<Packet>)
    requires Safe(ep.callbackSet, m) && m[0].ptype != 1 && (m[0].ptype == 0 ==> !ep.callbackSet)
    ensures Process(ep, m) == ep
    ensures Inert(m) <==> m[0].ptype > 1
  {
  }

  /** If the event is a poll, what it puts together under other ids is inert. */
  ghost predicate InertBut(e: Event, id: u8) {
    e.Poll? ==> forall k :: 0 <= k < |e.order| && k < |e.done| && e.order[k] != id ==> Inert(e.done[k])
  }

  ghost predicate OthersInert(events: seq<Event>, id: u8) {
    forall i :: 0 <= i < |events| ==> InertBut(events[i], id)
  }

  lemma {:induction false} ProcessAllSkipsInert(ep: Endpoint, order: seq<u8>, done: seq<seq<Packet>>,
                                               id: u8, m: seq<Packet>)
    requires |order| == |done| && Distinct(order)
    requires forall k :: 0 <= k < |done| ==> Safe(ep.callbackSet, done[k])
    requires forall k :: 0 <= k < |done| ==> if order[k] == id then done[k] == m else Inert(done[k])
    requires Safe(ep.callbackSet, m)
    ensures ProcessAll(ep, done) == if id in order then Process(ep, m) else ep
    decreases |done|
  {
    hide Safe, ProcessMsg, ProcessHandshake;
    if |done| > 0 {
      var n := |done| - 1;
      ProcessAllSkipsInert(ep, order[..n], done[..n], id, m);
      assert order == order[..n] + [order[n]];
      assert order[n] !in order[..n];
    }
  }

  /** The endpoint after the sends among events lo to hi, and nothing else. */
  ghost function AfterSends(ep: Endpoint, events: seq<Event>, lo: nat, hi: nat): (r: Endpoint)
    requires lo <= hi <= |events|
    ensures r.callbackSet == ep.callbackSet && r.calls == ep.calls
    ensures (forall k :: lo <= k < hi ==> !events[k].Send?) ==> r == ep
    decreases hi
  {
    if lo == hi then ep else AfterSend(AfterSends(ep, events, lo, hi - 1), events[hi - 1])
  }

  ghost function AfterSend(ep: Endpoint, e: Event): (r: Endpoint)
    ensures r.callbackSet == ep.callbackSet && r.calls == ep.calls
    ensures !e.Send? ==> r == ep
  {
    match e
    case Send(random, size) => Restarted(ep, random, size)
    case Arrive(_) => ep
    case Poll(_, _) => ep
  }

  /** One event: a send restarts the context, a poll that handles the id processes its message, and everything else
      leaves the endpoint alone. */
  lemma StepChangesEndpoint(r: Receiver, e: Event, r': Receiver, id: u8, m: seq<Packet>)
    requires Step(r, e, r') && InertBut(e, id) && HandlesOnly(e, id, m) && Safe(r.endpoint.callbackSet, m)
    ensures r'.endpoint == if HandlesId(e, id) then Process(r.endpoint, m) else AfterSend(r.endpoint, e)
  {
    hide Process, Restarted, ParseFrame, Safe, Inert;
    if e.Poll? {
      ProcessAllSkipsInert(r.endpoint, e.order, e.done, id, m);
    }
  }

  /** Over every run in which the other messages put together are inert: until the poll that handles the id the endpoint
      is the initial one but for sends; that poll processes the message with it; and afterwards there are again only
      the effects of sends. */
  lemma {:induction false} EveryRunEndpoint(states: seq<Receiver>, events: seq<Event>, id: u8, m: seq<Packet>,
                                            i: nat, n: nat)
    requires Run(states, events) && n < |states| && OthersInert(events, id) && Safe(states[0].endpoint.callbackSet, m)
    requires forall j :: 0 <= j < |events| ==> HandlesOnly(events[j], id, m)
    requires HandledOnlyAt(events, id, i)
    ensures states[n].endpoint ==
            if n <= i then AfterSends(states[0].endpoint, events, 0, n)
            else AfterSends(Process(AfterSends(states[0].endpoint, events, 0, i), m), events, i + 1, n)
  {
    hide Process, Step, AfterSend, Safe, HandlesOnly, HandlesId, InertBut;
    if n > 0 {
      EveryRunEndpoint(states, events, id, m, i, n - 1);
      EveryRunCalls(states, events, 0, n - 1);
      assert InertBut(events[n - 1], id);
      StepChangesEndpoint(states[n - 1], events[n - 1], states[n], id, m);
    }
  }

  // ----- the packets of an encrypted payload -----

  /** What send makes of a payload with the given context. */
  ghost function Encrypted(rk: RoundKeys, iv: Block, payload: seq<bv8>): seq<bv8>
    requires |payload| <= MAX_MESSAGE
  {
    Xcrypt(rk, iv, Padded(payload))
  }

  lemma PayloadFits(payload: seq<bv8>)
    requires |payload| <= MAX_MESSAGE
    ensures |Padded(payload)| <= 255 * PACKET_MAX_SIZE <==> |payload| <= MAX_PAYLOAD
    ensures |payload| > 0 ==> |Padded(payload)| >= 16
    ensures |Padded(payload)| == PaddedSize(|payload|)
  {
    PaddingValueIsDifference(|payload|);
    PaddedSizeIsLeast(|payload|);
  }

  lemma FirstPacketType(bytes: seq<bv8>, ptype: u8, id: u8)
    requires |bytes| > 0
    ensures |Fragmented(bytes, ptype, id)| > 0 && Fragmented(bytes, ptype, id)[0].ptype == ptype
  {
    FragmentStart(|bytes|, 0);
    FragmentAt(bytes, ptype, id, FragmentCount(|bytes|), 0);
  }

  lemma PayloadPackets(rk: RoundKeys, iv: Block, payload: seq<bv8>, id: u8, callbackSet: bool)
    requires 0 < |payload| <= MAX_PAYLOAD
    ensures var m := Fragmented(Encrypted(rk, iv, payload), MSG, id);
            Message(m, id) && Safe(callbackSet, m) && Joined(m) == Encrypted(rk, iv, payload) && m[0].ptype == MSG
  {
    hide Fragmented, Xcrypt, Padded;
    var bytes := Encrypted(rk, iv, payload);
    PayloadFits(payload);
    FragmentsMakeMessage(bytes, MSG, id);
    FragmentsJoin(bytes, MSG, id);
    FirstPacketType(bytes, MSG, id);
  }

  /** Processing the packets that send makes of a payload moves the counter behind it and hands exactly the payload to
      the callback, if and only if it is recoverable. */
  lemma ProcessRecoversPayload(ep: Endpoint, payload: seq<bv8>, id: u8)
    requires 0 < |payload| <= MAX_PAYLOAD && ep.callbackSet
    ensures var m := Fragmented(Encrypted(ep.roundKey, ep.ctxIv, payload), MSG, id);
            && Message(m, id)
            && Safe(ep.callbackSet, m)
            && Process(ep, m) == ep.(ctxIv := IvAfter(ep.ctxIv, |Padded(payload)|), calls := Process(ep, m).calls)
            && (Process(ep, m).calls == ep.calls + [Call(Padded(payload), |payload|)] <==> Recoverable(payload))
  {
    hide Fragmented, Xcrypt, StripLength, Padded, Message, IvAfter, Recoverable;
    PayloadPackets(ep.roundKey, ep.ctxIv, payload, id, ep.callbackSet);
    ProcessExactly(ep, ep.ctxIv, payload, id);
  }

  /** With the sender's round keys, processing hands the payload to the callback exactly if the counter too is the
      one the payload was encrypted with and the payload is recoverable. */
  lemma ProcessExactly(ep: Endpoint, iv: Block, payload: seq<bv8>, id: u8)
    requires 0 < |payload| <= MAX_PAYLOAD && ep.callbackSet
    ensures var m := Fragmented(Encrypted(ep.roundKey, iv, payload), MSG, id);
            && Safe(ep.callbackSet, m)
            && (Process(ep, m).calls == ep.calls + [Call(Padded(payload), |payload|)] <==>
                ep.ctxIv == iv && Recoverable(payload))
  {
    hide Fragmented, Xcrypt, StripLength, Padded, Message, IvAfter, Recoverable;
    PayloadPackets(ep.roundKey, iv, payload, id, ep.callbackSet);
    PayloadFits(payload);
    XcryptUndoneExactly(ep.roundKey, iv, ep.ctxIv, Padded(payload));
    StripUndoesPad(payload);
    var plain := Xcrypt(ep.roundKey, ep.ctxIv, Encrypted(ep.roundKey, iv, payload));
    LastCall(ep.calls, plain, Padded(payload), |payload|);
  }

  lemma LastCall(calls: seq<Call>, a: seq<bv8>, b: seq<bv8>, n: nat)
    ensures calls != calls + [Call(b, n)]
    ensures forall l: nat :: calls + [Call(a, l)] == calls + [Call(b, n)] <==> a == b && l == n
  {
    assert |calls + [Call(b, n)]| == |calls| + 1;
    assert (calls + [Call(b, n)])[|calls|] == Call(b, n);
    assert forall l: nat :: (calls + [Call(a, l)])[|calls|] == Call(a, l);
  }

  // ----- the payload over whole runs -----

  /** The endpoint in the course of poll i, after k of its groups. */
  ghost function EndpointAt(states: seq<Receiver>, events: seq<Event>, i: nat, k: nat): Endpoint
    requires Run(states, events) && i < |events| && events[i].Poll? && k <= |events[i].done|
  {
    assert Step(states[i], events[i], states[i + 1]);
    ProcessAll(states[i].endpoint, events[i].done[..k])
  }

  lemma EndpointStep(states: seq<Receiver>, events: seq<Event>, i: nat, k: nat)
    requires Run(states, events) && i < |events| && events[i].Poll? && k < |events[i].done|
    ensures var ep := EndpointAt(states, events, i, k);
            && ep.callbackSet == states[i].endpoint.callbackSet && ep.roundKey == states[i].endpoint.roundKey
            && Safe(ep.callbackSet, events[i].done[k])
            && EndpointAt(states, events, i, k + 1) == Process(ep, events[i].done[k])
            && EndpointAt(states, events, i, k + 1).calls <= states[i + 1].endpoint.calls
  {
    hide Process, Safe, Handles;
    assert Step(states[i], events[i], states[i + 1]);
    var done := events[i].done;
    assert done[..k + 1][..k] == done[..k];
    ProcessAllCalls(states[i].endpoint, done, k + 1);
  }

  /** The packets of the encrypted payload arrive once each, and no others of their id. */
  ghost predicate PayloadArrives(events: seq<Event>, rk: RoundKeys, iv: Block, payload: seq<bv8>, id: u8)
    requires |payload| <= MAX_MESSAGE
  {
    ArrivesOnce(events, Fragmented(Encrypted(rk, iv, payload), MSG, id), id)
  }

  /** Whatever else arrives, is polled or sent (other texts and handshakes, duplicates, frames that complete nothing):
      if the payload's packets are accepted once each, exactly one poll puts its message together, and makes the call
      with the payload exactly if the counter at that moment is the one it was encrypted with and the payload is
      recoverable. */
  lemma PayloadDeliveredExactly(states: seq<Receiver>, events: seq<Event>, payload: seq<bv8>, id: u8, iv: Block)
    returns (i: nat, k: nat)
    requires Run(states, events) && Group(states[0].received, id) == [] && states[0].endpoint.callbackSet
    requires |events| > 0 && events[|events| - 1].Poll?
    requires SendWithin(events, |events|) ==> states[0].endpoint.roundKey == KeyExpansion(SenderKey())
    requires 0 < |payload| <= MAX_PAYLOAD && PayloadArrives(events, states[0].endpoint.roundKey, iv, payload, id)
    ensures HandledOnlyAt(events, id, i)
    ensures PutsTogether(events[i], k, id, Fragmented(Encrypted(states[0].endpoint.roundKey, iv, payload), MSG, id))
    ensures var before := EndpointAt(states, events, i, k);
            EndpointAt(states, events, i, k + 1).calls == before.calls + [Call(Padded(payload), |payload|)] <==>
            before.ctxIv == iv && Recoverable(payload)
    ensures EndpointAt(states, events, i, k + 1).calls <= states[|events|].endpoint.calls
    ensures Group(states[|events|].received, id) == []
  {
    hide Process, Fragmented, Encrypted, KeyExpansion, SenderKey, Recoverable, Step, Safe, Padded, EndpointAt, Group,
         Message, ArrivesOnce;
    var rk := states[0].endpoint.roundKey;
    PayloadPackets(rk, iv, payload, id, true);
    i, k := MessageDelivered(states, events, Fragmented(Encrypted(rk, iv, payload), MSG, id), id);
    EveryRunCalls(states, events, 0, i);
    EveryRunCalls(states, events, i + 1, |events|);
    EveryRunRoundKey(states, events, i);
    assert SendWithin(events, i) ==> SendWithin(events, |events|);
    EndpointStep(states, events, i, k);
    ProcessExactly(EndpointAt(states, events, i, k), iv, payload, id);
  }

  lemma {:induction false} SendsKeepKey(ep: Endpoint, events: seq<Event>, lo: nat, hi: nat)
    requires lo <= hi <= |events|
    requires forall k :: lo <= k < hi && events[k].Send? ==> ep.roundKey == KeyExpansion(SenderKey())
    ensures AfterSends(ep, events, lo, hi).roundKey == ep.roundKey
    decreases hi
  {
    hide KeyExpansion, SenderKey;
    if lo < hi {
      SendsKeepKey(ep, events, lo, hi - 1);
    }
  }

  /** If the other messages put together are inert, only sends come between: the payload reaches the callback, and
      nothing else does, exactly if the counter after the sends before that poll is the one it was encrypted with
      and the payload is recoverable. */
  lemma PayloadAmongInert(states: seq<Receiver>, events: seq<Event>, payload: seq<bv8>, id: u8, iv: Block)
    returns (i: nat)
    requires Run(states, events) && Group(states[0].received, id) == [] && states[0].endpoint.callbackSet
    requires |events| > 0 && events[|events| - 1].Poll? && OthersInert(events, id)
    requires SendWithin(events, |events|) ==> states[0].endpoint.roundKey == KeyExpansion(SenderKey())
    requires 0 < |payload| <= MAX_PAYLOAD && PayloadArrives(events, states[0].endpoint.roundKey, iv, payload, id)
    ensures HandledOnlyAt(events, id, i)
    ensures states[|events|].endpoint.calls == states[0].endpoint.calls + [Call(Padded(payload), |payload|)] <==>
            AfterSends(states[0].endpoint, events, 0, i).ctxIv == iv && Recoverable(payload)
    ensures Group(states[|events|].received, id) == []
  {
    hide Process, Fragmented, Encrypted, KeyExpansion, SenderKey, Recoverable, Step, Safe, Padded, Group, Message,
         InertBut;
    var ep := states[0].endpoint;
    var m := Fragmented(Encrypted(ep.roundKey, iv, payload), MSG, id);
    PayloadPackets(ep.roundKey, iv, payload, id, true);
    var k: nat;
    i, k := MessageDelivered(states, events, m, id);
    OnlyHandled(states, events, m, id);
    EveryRunEndpoint(states, events, id, m, i, |events|);
    assert forall j :: 0 <= j < i && events[j].Send? ==> SendWithin(events, |events|);
    SendsKeepKey(ep, events, 0, i);
    ProcessExactly(AfterSends(ep, events, 0, i), iv, payload, id);
  }

  lemma OnlyHandled(states: seq<Receiver>, events: seq<Event>, m: seq<Packet>, id: u8)
    requires Run(states, events) && Group(states[0].received, id) == [] && Message(m, id) && ArrivesOnce(events, m, id)
    ensures forall j :: 0 <= j < |events| ==> HandlesOnly(events[j], id, m)
  {
    hide Step, Group, Message, HandlesOnly, HandlesId;
    ArrivedParts(events, m, id);
    assert events[..|events|] == events;
    MessageInFlight(states, events, m, id, |events|);
  }

  /** If nothing is sent either and the counters agree at the start, then at the end the counter stands behind the
      payload, and exactly the payload has reached the callback, if and only if it is recoverable. */
  lemma PayloadDelivered(states: seq<Receiver>, events: seq<Event>, payload: seq<bv8>, id: u8)
    requires Run(states, events) && Group(states[0].received, id) == [] && states[0].endpoint.callbackSet
    requires |events| > 0 && events[|events| - 1].Poll? && OthersInert(events, id)
    requires forall k :: 0 <= k < |events| ==> !events[k].Send?
    requires 0 < |payload| <= MAX_PAYLOAD
    requires PayloadArrives(events, states[0].endpoint.roundKey, states[0].endpoint.ctxIv, payload, id)
    ensures var ep := states[0].endpoint;
            states[|events|].endpoint == ep.(ctxIv := IvAfter(ep.ctxIv, |Padded(payload)|),
                                             calls := ep.calls + [Call(Padded(payload), |payload|)]) <==>
            Recoverable(payload)
    ensures states[|events|].endpoint.ctxIv == IvAfter(states[0].endpoint.ctxIv, |Padded(payload)|)
    ensures Group(states[|events|].received, id) == []
    ensures payload <= Padded(payload)
  {
    hide Process, Fragmented, Encrypted, Recoverable, Step, Safe, Group, Message, InertBut, IvAfter;
    var ep := states[0].endpoint;
    var m := Fragmented(Encrypted(ep.roundKey, ep.ctxIv, payload), MSG, id);
    ProcessRecoversPayload(ep, payload, id);
    var i, k := MessageDelivered(states, events, m, id);
    OnlyHandled(states, events, m, id);
    EveryRunEndpoint(states, events, id, m, i, |events|);
  }

  // ----- no call beyond the limit -----

  lemma {:induction false} JoinedBound(ps: seq<Packet>)
    requires forall p :: p in ps ==> |p.data| <= PACKET_MAX_SIZE
    ensures |Joined(ps)| <= PACKET_MAX_SIZE * |ps|
  {
    if |ps| > 0 {
      JoinedBound(ps[..|ps| - 1]);
    }
  }

  /** The calls made since the given ones, with buffers that 255 packets can carry. */
  ghost predicate NewCallsFit(calls: seq<Call>, start: seq<Call>) {
    && start <= calls
    && forall i :: |start| <= i < |calls| ==> |calls[i].buffer| <= 255 * PACKET_MAX_SIZE
  }

  lemma ProcessFits(ep: Endpoint, sorted: seq<Packet>, start: seq<Call>)
    requires Safe(ep.callbackSet, sorted) && NewCallsFit(ep.calls, start)
    requires |Joined(sorted)| <= 255 * PACKET_MAX_SIZE
    ensures NewCallsFit(Process(ep, sorted).calls, start)
  {
    hide Xcrypt, StripLength, Joined;
  }

  lemma {:induction false} ProcessAllFits(ep: Endpoint, done: seq<seq<Packet>>, start: seq<Call>)
    requires NewCallsFit(ep.calls, start)
    requires forall k :: 0 <= k < |done| ==> Safe(ep.callbackSet, done[k]) && |Joined(done[k])| <= 255 * PACKET_MAX_SIZE
    ensures NewCallsFit(ProcessAll(ep, done).calls, start)
  {
    hide Process, Joined, NewCallsFit, Safe;
    if |done| > 0 {
      ProcessAllFits(ep, done[..|done| - 1], start);
      ProcessFits(ProcessAll(ep, done[..|done| - 1]), done[|done| - 1], start);
    }
  }

  lemma HandledFits(received: map<u8, seq<Packet>>, order: seq<u8>, done: seq<seq<Packet>>, k: nat)
    requires Grouped(received) && Handles(received, order, done) && k < |done|
    ensures |Joined(done[k])| <= 255 * PACKET_MAX_SIZE
  {
    var group := received[order[k]];
    assert order[k] in order;
    SameLength(done[k], group);
    forall p | p in done[k]
      ensures |p.data| <= PACKET_MAX_SIZE
    {
      assert p in multiset(group);
    }
    JoinedBound(done[k]);
  }

  /** Over every run, whatever arrives, no call is made with more than 30345 bytes. */
  lemma {:induction false} EveryCallFits(states: seq<Receiver>, events: seq<Event>, n: nat)
    requires Run(states, events) && Idle(states[0]) && n < |states|
    ensures NewCallsFit(states[n].endpoint.calls, states[0].endpoint.calls)
  {
    hide Process, ProcessAll, Joined, Grouped, Conserved, ParseFrame, Safe, Handles;
    if n > 0 {
      var r, e, r' := states[n - 1], events[n - 1], states[n];
      EveryCallFits(states, events, n - 1);
      EveryRunConserves(states, events, n - 1);
      assert Step(r, e, r');
      if e.Poll? {
        forall k | 0 <= k < |e.done|
          ensures |Joined(e.done[k])| <= 255 * PACKET_MAX_SIZE
        {
          HandledFits(r.received, e.order, e.done, k);
        }
        ProcessAllFits(r.endpoint, e.done, states[0].endpoint.calls);
      }
    }
  }

  /** So the bound on payloads is exact: a payload beyond it never reaches the callback in its padded form, in no
      run of any receiver. */
  lemma LongPayloadNeverDelivered(states: seq<Receiver>, events: seq<Event>, payload: seq<bv8>, n: nat, i: nat)
    requires Run(states, events) && Idle(states[0]) && n < |states|
    requires MAX_PAYLOAD < |payload| <= MAX_MESSAGE
    requires |states[0].endpoint.calls| <= i < |states[n].endpoint.calls|
    ensures states[n].endpoint.calls[i].buffer != Padded(payload)
  {
    hide Padded;
    EveryCallFits(states, events, n);
    PayloadFits(payload);
  }
}
