/** The receiving side as a state machine: frames are grouped by message id, and a poll sorts, joins and
    processes every complete group, in an order that the hash map does not fix.  A send of the same program
    restarts the context that polls decrypt with. */
module Receiving {
  import opened Bytes
  import opened Frames
  import opened Fips197
  import opened KeySchedule
  import opened Counter
  import opened Modes
  import opened Endianness
  import opened Padding
  import opened Fragments

  /** One call of the message callback: the buffer it points to and the length passed along. */
  datatype Call = Call(buffer: seq<bv8>, length: nat)

  /** What processing a message can change: the AES context, the IV words (as they lie in memory) and the calls made. */
  datatype Endpoint = Endpoint(roundKey: RoundKeys, ctxIv: Block, iv: Block, callbackSet: bool, calls: seq<Call>)

  /** The receiver.  `accepted`, `freed` and `reassembled` record the packets accepted and freed so far and the
      messages put together, in order. */
  datatype Receiver = Receiver(
    received: map<u8, seq<Packet>>,
    endpoint: Endpoint,
    accepted: seq<Packet>,
    freed: multiset<Packet>,
    reassembled: seq<seq<Packet>>)

  // ----- sorting -----

  ghost predicate SortedById(ps: seq<Packet>) {
    forall i, j :: 0 <= i < j < |ps| ==> ps[i].fragmentId <= ps[j].fragmentId
  }

  /** All that the library's sort promises: packets with equal fragment ids may come in any order. */
  ghost predicate SortOf(sorted: seq<Packet>, ps: seq<Packet>) {
    SortedById(sorted) && multiset(sorted) == multiset(ps)
  }

  ghost predicate DistinctIds(ps: seq<Packet>) {
    forall i, j :: 0 <= i < j < |ps| ==> ps[i].fragmentId != ps[j].fragmentId
  }

  lemma WithoutLast(s: seq<Packet>)
    requires |s| > 0
    ensures multiset(s[..|s| - 1]) == multiset(s) - multiset{s[|s| - 1]}
  {
    assert s == s[..|s| - 1] + [s[|s| - 1]];
  }

  lemma PrefixSorted(s: seq<Packet>, n: nat)
    requires n <= |s|
    ensures SortedById(s) ==> SortedById(s[..n])
    ensures DistinctIds(s) ==> DistinctIds(s[..n])
  {
  }

  lemma RestoreLast(s: seq<Packet>, t: seq<Packet>)
    requires |s| == |t| > 0 && s[..|s| - 1] == t[..|t| - 1] && s[|s| - 1] == t[|t| - 1]
    ensures s == t
  {
    assert s == s[..|s| - 1] + [s[|s| - 1]];
    assert t == t[..|t| - 1] + [t[|t| - 1]];
  }

  lemma SameLength(s: seq<Packet>, t: seq<Packet>)
    requires multiset(s) == multiset(t)
    ensures |s| == |t|
  {
    assert |multiset(s)| == |s| && |multiset(t)| == |t|;
  }

  lemma LastIsGreatest(s: seq<Packet>, p: Packet)
    requires SortedById(s) && p in s
    ensures p.fragmentId <= s[|s| - 1].fragmentId
  {
  }

  lemma SameLast(s: seq<Packet>, t: seq<Packet>)
    requires SortedById(s) && SortedById(t) && multiset(s) == multiset(t) && |s| == |t| > 0
    requires DistinctIds(t)
    ensures s[|s| - 1] == t[|t| - 1]
  {
    var n := |s| - 1;
    var p, q := s[n], t[n];
    assert p in multiset(s) && q in multiset(t);
    assert p in t && q in s;
    LastIsGreatest(s, q);
    LastIsGreatest(t, p);
    var i :| 0 <= i < |t| && t[i] == p;
    assert i == n;
  }

  /** Sorted sequences with the same elements are equal if no two elements share an id. */
  lemma {:induction false} SortIsUnique(s: seq<Packet>, t: seq<Packet>)
    requires SortedById(s) && SortedById(t) && multiset(s) == multiset(t)
    requires DistinctIds(t)
    ensures s == t
  {
    hide SortedById, DistinctIds;
    SameLength(s, t);
    if |s| > 0 {
      var n := |s| - 1;
      SameLast(s, t);
      WithoutLast(s);
      WithoutLast(t);
      PrefixSorted(s, n);
      PrefixSorted(t, n);
      SortIsUnique(s[..n], t[..n]);
      RestoreLast(s, t);
    } else {
      assert s == t;
    }
  }

  // ----- processing one complete group -----

  ghost predicate Complete(group: seq<Packet>) {
    |group| > 0 && group[0].totalFragments == |group|
  }

  /** The sorted group can be processed without touching memory outside its buffer. */
  ghost predicate Safe(callbackSet: bool, sorted: seq<Packet>) {
    && |sorted| > 0
    && |Joined(sorted)| < TWO_32
    && (sorted[0].ptype == MSG && callbackSet ==> |Joined(sorted)| > 0)
    && (sorted[0].ptype == ENCRYP ==> |Joined(sorted)| >= 16 && |sorted[0].data| <= 16)
  }

  /** A message is decrypted with the context's counter, and the callback gets it if its padding is valid. */
  ghost function ProcessMsg(ep: Endpoint, data: seq<bv8>): Endpoint
    requires 0 < |data| < TWO_32
  {
    var plain := Xcrypt(ep.roundKey, ep.ctxIv, data);
    var moved := ep.(ctxIv := IvAfter(ep.ctxIv, |data|));
    match StripLength(plain)
    case Some(length) => moved.(calls := ep.calls + [Call(plain, length)])
    case None => moved
  }

  /** A handshake's bytes are reversed word by word; the first `length` of them replace the IV words, and the
      first sixteen become the context's counter. */
  ghost function ProcessHandshake(ep: Endpoint, data: seq<bv8>, length: nat): Endpoint
    requires |data| >= 16 && length <= 16
  {
    var swapped := Reversed(data, 4);
    ep.(iv := swapped[..length] + ep.iv[length..], ctxIv := swapped[..16])
  }

  /** The bytes of a handshake's effect: the counter is the first sixteen bytes with each word reversed, of which the
      first `length` bytes also replace those of the IV words. */
  lemma HandshakeBytes(ep: Endpoint, data: seq<bv8>, length: nat, w: nat)
    requires |data| >= 16 && length <= 16 && w < 4
    ensures var r := ProcessHandshake(ep, data, length);
            && r.ctxIv[4 * w..4 * w + 4] == [data[4 * w + 3], data[4 * w + 2], data[4 * w + 1], data[4 * w]]
            && r.iv[..length] == r.ctxIv[..length] && r.iv[length..] == ep.iv[length..]
            && r == ep.(iv := r.iv, ctxIv := r.ctxIv)
  {
    hide Reversed;
    var swapped := Reversed(data, 4);
    ReversedBytes(data, 4, w);
    assert swapped[..16][4 * w..4 * w + 4] == swapped[4 * w..4 * w + 4];
  }

  ghost function Process(ep: Endpoint, sorted: seq<Packet>): (r: Endpoint)
    requires Safe(ep.callbackSet, sorted)
    ensures r.callbackSet == ep.callbackSet && r.roundKey == ep.roundKey
  {
    if sorted[0].ptype == MSG then
      if ep.callbackSet then ProcessMsg(ep, Joined(sorted)) else ep
    else if sorted[0].ptype == ENCRYP then ProcessHandshake(ep, Joined(sorted), |sorted[0].data|)
    else ep
  }

  ghost function ProcessAll(ep: Endpoint, done: seq<seq<Packet>>): (r: Endpoint)
    requires forall k :: 0 <= k < |done| ==> Safe(ep.callbackSet, done[k])
    ensures r.callbackSet == ep.callbackSet && r.roundKey == ep.roundKey
  {
    if |done| == 0 then ep else Process(ProcessAll(ep, done[..|done| - 1]), done[|done| - 1])
  }

  ghost function FreedBy(done: seq<seq<Packet>>): multiset<Packet> {
    if |done| == 0 then multiset{} else FreedBy(done[..|done| - 1]) + multiset(done[|done| - 1])
  }

  // ----- what sending does to the endpoint -----

  /** The key words compiled into the program, 0xC939CC13 0x397C1D37 0xDE6AE0E1 0xCB7C423C, in memory. */
  const KEY_IN_MEMORY: Block :=
    [0x13, 0xCC, 0x39, 0xC9, 0x37, 0x1D, 0x7C, 0x39, 0xE1, 0xE0, 0x6A, 0xDE, 0x3C, 0x42, 0x7C, 0xCB]

  /** The key that a handshake expands: the key words printed most significant byte first. */
  function SenderKey(): Block {
    Reversed(KEY_IN_MEMORY, 4)
  }

  /** Its bytes are those of the key words as they are written in the program. */
  lemma SenderKeyBytes()
    ensures SenderKey() == [0xC9, 0x39, 0xCC, 0x13, 0x39, 0x7C, 0x1D, 0x37,
                            0xDE, 0x6A, 0xE0, 0xE1, 0xCB, 0x7C, 0x42, 0x3C]
  {
    ReversedBytes(KEY_IN_MEMORY, 4, 0);
    ReversedBytes(KEY_IN_MEMORY, 4, 1);
    ReversedBytes(KEY_IN_MEMORY, 4, 2);
    ReversedBytes(KEY_IN_MEMORY, 4, 3);
    hide Reversed;
    FourWords(SenderKey(), [0xC9, 0x39, 0xCC, 0x13], [0x39, 0x7C, 0x1D, 0x37], [0xDE, 0x6A, 0xE0, 0xE1],
              [0xCB, 0x7C, 0x42, 0x3C]);
  }

  lemma FourWords(b: Block, s: seq<bv8>, t: seq<bv8>, u: seq<bv8>, v: seq<bv8>)
    requires b[0..4] == s && b[4..8] == t && b[8..12] == u && b[12..16] == v
    ensures b == s + t + u + v
  {
  }

  /** Sending a message draws new IV words, restarts the one context with them and the byte-reversed key, and
      moves its counter over the padded message. */
  ghost function Restarted(ep: Endpoint, random: Block, size: nat): Endpoint {
    ep.(roundKey := KeyExpansion(SenderKey()),
        ctxIv := IvAfter(Reversed(random, 4), PaddedSize(size)),
        iv := random)
  }

  /** Its counter, as a number, is one more for each block of the padded message than the new IV printed most
      significant byte first. */
  lemma RestartedFields(ep: Endpoint, random: Block, size: nat)
    requires size <= MAX_MESSAGE
    ensures var r := Restarted(ep, random, size);
            && r.iv == random && r.roundKey == KeyExpansion(SenderKey())
            && FromBytes(r.ctxIv) == (FromBytes(Reversed(random, 4)) + (size + 15) / 16) % TWO_128
            && r.callbackSet == ep.callbackSet && r.calls == ep.calls
  {
    hide FromBytes, KeyExpansion, Reversed, IvAfter, SenderKey;
    assert PaddedSize(size) == 16 * ((size + 15) / 16);
    CounterAfter(Reversed(random, 4), PaddedSize(size), (size + 15) / 16);
  }

  // ----- steps -----

  datatype Event =
    | Arrive(rx: seq<bv8>)
    | Poll(order: seq<u8>, done: seq<seq<Packet>>)
    | Send(random: Block, size: nat)

  ghost function Group(received: map<u8, seq<Packet>>, id: u8): seq<Packet> {
    if id in received then received[id] else []
  }

  ghost function Accept(r: Receiver, p: Packet): Receiver {
    r.(received := r.received[p.messageId := Group(r.received, p.messageId) + [p]],
       accepted := r.accepted + [p])
  }

  /** A buffer that does not parse changes nothing. */
  ghost function Arrived(r: Receiver, rx: seq<bv8>): Receiver
    requires InBounds(rx)
  {
    match ParseFrame(rx)
    case Some(p) => Accept(r, p)
    case None => r
  }

  ghost predicate Distinct<T>(s: seq<T>) {
    forall i, j :: 0 <= i < j < |s| ==> s[i] != s[j]
  }

  /** The ids in `order` are those of the complete groups, each once, and done[k] is a sort of the k-th group. */
  ghost predicate Handles(received: map<u8, seq<Packet>>, order: seq<u8>, done: seq<seq<Packet>>) {
    && |order| == |done|
    && Distinct(order)
    && (forall id :: id in order <==> id in received && Complete(received[id]))
    && (forall k :: 0 <= k < |order| ==> SortOf(done[k], received[order[k]]))
  }

  ghost predicate Polled(r: Receiver, r': Receiver, order: seq<u8>, done: seq<seq<Packet>>) {
    && Handles(r.received, order, done)
    && (forall k :: 0 <= k < |done| ==> Safe(r.endpoint.callbackSet, done[k]))
    && r'.received == (map id | id in r.received && id !in order :: r.received[id])
    && r'.endpoint == ProcessAll(r.endpoint, done)
    && r'.accepted == r.accepted
    && r'.freed == r.freed + FreedBy(done)
    && r'.reassembled == r.reassembled + done
  }

  ghost predicate Step(r: Receiver, e: Event, r': Receiver) {
    match e
    case Arrive(rx) => InBounds(rx) && r' == Arrived(r, rx)
    case Poll(order, done) => Polled(r, r', order, done)
    case Send(random, size) => r' == r.(endpoint := Restarted(r.endpoint, random, size))
  }

  /** The packet that an event accepts, if any; rejected buffers leave no trace. */
  ghost function PacketIn(e: Event): seq<Packet> {
    if e.Arrive? && InBounds(e.rx) && ParseFrame(e.rx).Some? then [ParseFrame(e.rx).value] else []
  }

  ghost predicate Run(states: seq<Receiver>, events: seq<Event>) {
    && |states| == |events| + 1
    && forall i :: 0 <= i < |events| ==> Step(states[i], events[i], states[i + 1])
  }

  /** A receiver that holds nothing yet. */
  ghost predicate Idle(r: Receiver) {
    r.received == map[] && r.accepted == [] && r.freed == multiset{} && r.reassembled == []
  }
}
