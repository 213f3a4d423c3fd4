/** Cutting a padded, encrypted message into packets and putting the packets together again. */
module Fragments {
  import opened Bytes
  import opened Frames

  /** The number of packets that n bytes take. */
  function FragmentCount(n: nat): nat {
    (n + PACKET_MAX_SIZE - 1) / PACKET_MAX_SIZE
  }

  function Min(a: nat, b: nat): nat {
    if a < b then a else b
  }

  /** Packet k of a message: both the running index and the total are cut to one byte. */
  function Fragment(bytes: seq<bv8>, ptype: u8, id: u8, k: nat): Packet
    requires PACKET_MAX_SIZE * k <= |bytes|
  {
    Packet(ptype, id, k % 256, FragmentCount(|bytes|) % 256,
           bytes[PACKET_MAX_SIZE * k..Min(PACKET_MAX_SIZE * (k + 1), |bytes|)])
  }

  lemma FragmentStart(n: nat, k: nat)
    ensures k < FragmentCount(n) <==> PACKET_MAX_SIZE * k < n
    ensures k + 1 == FragmentCount(n) <==> PACKET_MAX_SIZE * k < n <= PACKET_MAX_SIZE * (k + 1)
  {
    var q := FragmentCount(n);
    assert PACKET_MAX_SIZE * q <= n + PACKET_MAX_SIZE - 1 < PACKET_MAX_SIZE * q + PACKET_MAX_SIZE;
  }

  /** The first `count` packets of a message. */
  function FirstFragments(bytes: seq<bv8>, ptype: u8, id: u8, count: nat): (ps: seq<Packet>)
    requires count <= FragmentCount(|bytes|)
    ensures |ps| == count
  {
    if count == 0 then []
    else
      FragmentStart(|bytes|, count - 1);
      FirstFragments(bytes, ptype, id, count - 1) + [Fragment(bytes, ptype, id, count - 1)]
  }

  /** All the packets of a message. */
  function Fragmented(bytes: seq<bv8>, ptype: u8, id: u8): (ps: seq<Packet>) {
    FirstFragments(bytes, ptype, id, FragmentCount(|bytes|))
  }

  /** The data of packets, joined in their order. */
  function Joined(ps: seq<Packet>): seq<bv8> {
    if |ps| == 0 then [] else Joined(ps[..|ps| - 1]) + ps[|ps| - 1].data
  }

  lemma {:induction false} FragmentAt(bytes: seq<bv8>, ptype: u8, id: u8, count: nat, k: nat)
    requires k < count <= FragmentCount(|bytes|)
    ensures PACKET_MAX_SIZE * k < |bytes|
    ensures FirstFragments(bytes, ptype, id, count)[k] == Fragment(bytes, ptype, id, k)
  {
    hide Fragment;
    FragmentStart(|bytes|, k);
    if k + 1 < count {
      FragmentAt(bytes, ptype, id, count - 1, k);
    }
  }

  lemma {:induction false} FirstFragmentsJoin(bytes: seq<bv8>, ptype: u8, id: u8, count: nat)
    requires count <= FragmentCount(|bytes|)
    ensures Joined(FirstFragments(bytes, ptype, id, count)) == bytes[..Min(PACKET_MAX_SIZE * count, |bytes|)]
  {
    if count > 0 {
      var ps := FirstFragments(bytes, ptype, id, count);
      FragmentStart(|bytes|, count - 1);
      FirstFragmentsJoin(bytes, ptype, id, count - 1);
      assert ps[..count - 1] == FirstFragments(bytes, ptype, id, count - 1);
    }
  }

  /** The packets hold the bytes, in order and nothing else. */
  lemma FragmentsJoin(bytes: seq<bv8>, ptype: u8, id: u8)
    ensures Joined(Fragmented(bytes, ptype, id)) == bytes
  {
    var n := FragmentCount(|bytes|);
    FragmentStart(|bytes|, n);
    FirstFragmentsJoin(bytes, ptype, id, n);
    assert bytes[..|bytes|] == bytes;
  }

  /** All packets but the last are full, and the last is not empty. */
  lemma FragmentSizes(bytes: seq<bv8>, ptype: u8, id: u8, k: nat)
    requires k < FragmentCount(|bytes|)
    ensures var n := |Fragmented(bytes, ptype, id)[k].data|;
            if k + 1 < FragmentCount(|bytes|) then n == PACKET_MAX_SIZE else 1 <= n <= PACKET_MAX_SIZE
  {
    FragmentAt(bytes, ptype, id, FragmentCount(|bytes|), k);
    FragmentStart(|bytes|, k);
    FragmentStart(|bytes|, k + 1);
  }

  /** The packets in figures: n of them for more than 119 (n - 1) and up to 119 n bytes, the k-th of which holds the
      bytes from 119 k on. */
  lemma FragmentFields(bytes: seq<bv8>, ptype: u8, id: u8, n: nat, k: nat)
    requires 119 * k < |bytes| && |bytes| <= 119 * n < |bytes| + 119
    ensures |Fragmented(bytes, ptype, id)| == n && k < n
    ensures Fragmented(bytes, ptype, id)[k] ==
            Packet(ptype, id, k % 256, n % 256, if k == n - 1 then bytes[119 * k..] else bytes[119 * k..119 * (k + 1)])
  {
    FragmentStart(|bytes|, n - 1);
    FragmentStart(|bytes|, k);
    FragmentAt(bytes, ptype, id, n, k);
  }

  // ----- messages that a receiver can put together -----

  /** The packets of one message: numbered from 0, each with the total and the message's id. */
  ghost predicate Message(ps: seq<Packet>, id: u8) {
    && 1 <= |ps| <= 255
    && forall k :: 0 <= k < |ps| ==>
      && ps[k].messageId == id && ps[k].fragmentId == k && ps[k].totalFragments == |ps|
      && |ps[k].data| <= PACKET_MAX_SIZE
  }

  /** The fields fit their bytes exactly up to 255 packets, that is up to 30345 bytes; beyond that the total
      on the packets differs from their number. */
  lemma FragmentsMakeMessage(bytes: seq<bv8>, ptype: u8, id: u8)
    requires |bytes| > 0
    ensures Message(Fragmented(bytes, ptype, id), id) <==> |bytes| <= 255 * PACKET_MAX_SIZE
    ensures |bytes| > 255 * PACKET_MAX_SIZE ==>
      Fragmented(bytes, ptype, id)[0].totalFragments != |Fragmented(bytes, ptype, id)|
  {
    var ps, n := Fragmented(bytes, ptype, id), FragmentCount(|bytes|);
    FragmentStart(|bytes|, 0);
    FragmentStart(|bytes|, 255);
    forall k | 0 <= k < n
      ensures ps[k] == Fragment(bytes, ptype, id, k) && |ps[k].data| <= PACKET_MAX_SIZE
    {
      FragmentAt(bytes, ptype, id, n, k);
      FragmentSizes(bytes, ptype, id, k);
    }
  }
}
