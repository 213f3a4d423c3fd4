/** The program's AES context: round keys and chaining value, updated in place by the key expansion and
    by the CBC and CTR calls. */
module AesContext {
  import opened Gf256
  import opened SubstitutionBox
  import opened Fips197
  import opened KeySchedule
  import opened Counter
  import opened Modes
  import opened AesBlock

  /** Entry 0 is never read. */
  const RCON: seq<bv8> := [0x8d, 0x01, 0x02, 0x04, 0x08, 0x10, 0x20, 0x40, 0x80, 0x1b, 0x36]

  /** The table holds the powers of x, FIPS 197 section 5.2. */
  lemma RconIsRoundConstant(n: nat)
    requires 1 <= n <= NR
    ensures RCON[n] == RoundConstant(n)
  {
    RoundConstants();
  }

  /** Word w of a buffer. */
  ghost function WordOf(bytes: seq<bv8>, w: nat): Word
    requires 4 * w + 4 <= |bytes|
  {
    Word(bytes[4 * w], bytes[4 * w + 1], bytes[4 * w + 2], bytes[4 * w + 3])
  }

  lemma WordsMakeSchedule(rk: RoundKeys, key: Block)
    requires Filled(rk, key, WORDS)
    ensures rk == KeyExpansion(key)
  {
    hide ScheduleWord;
    forall k | 0 <= k < 176
      ensures rk[k] == KeyExpansion(key)[k]
    {
      var w := k / 4;
      assert WordOf(rk, w) == ScheduleWord(key, w);
      assert k == 4 * w + k % 4;
    }
  }

  /** What the expansion makes of the previous word, in its four-byte scratch array. */
  method IncrementInPlace(tempa: array<bv8>, i: nat)
    requires tempa.Length == 4 && NK <= i < WORDS
    modifies tempa
    ensures WordOf(tempa[..], 0) == Increment(old(WordOf(tempa[..], 0)), i)
  {
    hide Sbox, RoundConstant;
    if i % NK == 0 {
      var u8tmp := tempa[0];
      tempa[0] := tempa[1];
      tempa[1] := tempa[2];
      tempa[2] := tempa[3];
      tempa[3] := u8tmp;

      tempa[0] := Sbox(tempa[0]);
      tempa[1] := Sbox(tempa[1]);
      tempa[2] := Sbox(tempa[2]);
      tempa[3] := Sbox(tempa[3]);

      RconIsRoundConstant(i / NK);
      tempa[0] := tempa[0] ^ RCON[i / NK];
    }
  }

  /** Copies a word of one buffer to a place in another. */
  method CopyWord(src: array<bv8>, i: nat, dst: array<bv8>, j: nat)
    requires 4 * i + 4 <= src.Length && 4 * j + 4 <= dst.Length && src != dst
    modifies dst
    ensures WordOf(dst[..], j) == WordOf(src[..], i)
    ensures forall k :: 0 <= k < 4 * j ==> dst[k] == old(dst[k])
  {
    dst[j * 4 + 0] := src[i * 4 + 0];
    dst[j * 4 + 1] := src[i * 4 + 1];
    dst[j * 4 + 2] := src[i * 4 + 2];
    dst[j * 4 + 3] := src[i * 4 + 3];
  }

  /** Word i becomes the word four places back plus the scratch word. */
  method CombineWord(roundKey: array<bv8>, i: nat, tempa: array<bv8>)
    requires roundKey.Length == 176 && tempa.Length == 4 && tempa != roundKey && NK <= i < WORDS
    modifies roundKey
    ensures WordOf(roundKey[..], i) == old(WordOf(roundKey[..], i - NK).Xor(WordOf(tempa[..], 0)))
    ensures forall k :: 0 <= k < 4 * i ==> roundKey[k] == old(roundKey[k])
  {
    var j, k := i * 4, (i - NK) * 4;
    assert j == k + 16;
    roundKey[j + 0] := roundKey[k + 0] ^ tempa[0];
    roundKey[j + 1] := roundKey[k + 1] ^ tempa[1];
    roundKey[j + 2] := roundKey[k + 2] ^ tempa[2];
    roundKey[j + 3] := roundKey[k + 3] ^ tempa[3];
  }

  /** The first words of the buffer are those of the schedule. */
  ghost predicate Filled(rk: seq<bv8>, key: Block, i: nat)
    requires |rk| == 176
  {
    forall w :: 0 <= w < i && w < WORDS ==> WordOf(rk, w) == ScheduleWord(key, w)
  }

  lemma NothingFilled(rk: seq<bv8>, key: Block)
    requires |rk| == 176
    ensures Filled(rk, key, 0)
  {
  }

  lemma FilledWord(rk: seq<bv8>, key: Block, i: nat, w: nat)
    requires |rk| == 176 && w < i && w < WORDS && Filled(rk, key, i)
    ensures WordOf(rk, w) == ScheduleWord(key, w)
  {
  }

  lemma FilledOneMore(rk: seq<bv8>, rk': seq<bv8>, key: Block, i: nat)
    requires |rk| == 176 == |rk'| && i < WORDS && Filled(rk, key, i)
    requires forall k :: 0 <= k < 4 * i ==> rk'[k] == rk[k]
    requires WordOf(rk', i) == ScheduleWord(key, i)
    ensures Filled(rk', key, i + 1)
  {
    hide ScheduleWord;
    forall w | 0 <= w < i
      ensures WordOf(rk', w) == ScheduleWord(key, w)
    {
      assert WordOf(rk', w) == WordOf(rk, w);
    }
  }

  lemma NextWord(key: Block, i: nat)
    ensures i < NK ==> ScheduleWord(key, i) == WordOf(key, i)
    ensures i >= NK ==> ScheduleWord(key, i) == ScheduleWord(key, i - NK).Xor(Increment(ScheduleWord(key, i - 1), i))
  {
  }

  /** The bytes at 4i to 4i + 3 of the schedule from the sixteen bytes before them. */
  ghost predicate FollowsBytes(rk: seq<bv8>, i: nat)
    requires |rk| == 176 && 4 <= i < 44
  {
    var o := 4 * i;
    if i % 4 == 0 then
      && rk[o] == Add(rk[o - 16], Add(Sbox(rk[o - 3]), RCON[i / 4]))
      && rk[o + 1] == Add(rk[o - 15], Sbox(rk[o - 2]))
      && rk[o + 2] == Add(rk[o - 14], Sbox(rk[o - 1]))
      && rk[o + 3] == Add(rk[o - 13], Sbox(rk[o - 4]))
    else
      && rk[o] == Add(rk[o - 16], rk[o - 4]) && rk[o + 1] == Add(rk[o - 15], rk[o - 3])
      && rk[o + 2] == Add(rk[o - 14], rk[o - 2]) && rk[o + 3] == Add(rk[o - 13], rk[o - 1])
  }

  lemma WordsFollow(rk: RoundKeys, i: nat)
    requires 4 <= i < 44 && WordOf(rk, i) == NextOnBytes(WordOf(rk, i - 1), WordOf(rk, i - 4), i)
    ensures FollowsBytes(rk, i)
  {
    hide Sbox, RoundConstant, FollowsBytes, NextOnBytes, WordOf, RCON;
    if i % 4 == 0 {
      FourthWordFollows(rk, i);
    } else {
      OtherWordFollows(rk, i);
    }
  }

  lemma FourthWordFollows(rk: RoundKeys, i: nat)
    requires 4 <= i < 44 && i % 4 == 0 && WordOf(rk, i) == NextOnBytes(WordOf(rk, i - 1), WordOf(rk, i - 4), i)
    ensures FollowsBytes(rk, i)
  {
    hide Sbox, RoundConstant, NextOnBytes, Add;
    RconIsRoundConstant(i / 4);
    FourthWord(WordOf(rk, i - 1), WordOf(rk, i - 4), i);
    hide RCON;
  }

  lemma FourthWord(p: Word, q: Word, i: nat)
    requires i >= 4 && i % 4 == 0
    ensures NextOnBytes(p, q, i).b0 == Add(q.b0, Add(Sbox(p.b1), RoundConstant(i / 4)))
    ensures NextOnBytes(p, q, i).b1 == Add(q.b1, Sbox(p.b2))
    ensures NextOnBytes(p, q, i).b2 == Add(q.b2, Sbox(p.b3))
    ensures NextOnBytes(p, q, i).b3 == Add(q.b3, Sbox(p.b0))
  {
    hide Sbox, RoundConstant;
  }

  lemma OtherWordFollows(rk: RoundKeys, i: nat)
    requires 4 <= i < 44 && i % 4 != 0 && WordOf(rk, i) == NextOnBytes(WordOf(rk, i - 1), WordOf(rk, i - 4), i)
    ensures FollowsBytes(rk, i)
  {
    hide NextOnBytes, Add;
    OtherWord(WordOf(rk, i - 1), WordOf(rk, i - 4), i);
  }

  lemma OtherWord(p: Word, q: Word, i: nat)
    requires i >= 4 && i % 4 != 0
    ensures NextOnBytes(p, q, i).b0 == Add(q.b0, p.b0) && NextOnBytes(p, q, i).b1 == Add(q.b1, p.b1)
    ensures NextOnBytes(p, q, i).b2 == Add(q.b2, p.b2) && NextOnBytes(p, q, i).b3 == Add(q.b3, p.b3)
  {
  }

  lemma ScheduleFollows(rk: RoundKeys, key: Block, i: nat)
    requires Filled(rk, key, WORDS) && 4 <= i < 44
    ensures FollowsBytes(rk, i)
  {
    hide Sbox, ScheduleWord, NextOnBytes, WordOf, FollowsBytes;
    FilledWord(rk, key, WORDS, i);
    FilledWord(rk, key, WORDS, i - 1);
    FilledWord(rk, key, WORDS, i - 4);
    RecurrenceOnBytes(key, i);
    WordsFollow(rk, i);
  }

  lemma KeyComesFirst(rk: RoundKeys, key: Block)
    requires Filled(rk, key, WORDS)
    ensures rk[..16] == key
  {
    forall k | 0 <= k < 16
      ensures rk[k] == key[k]
    {
      var w := k / 4;
      assert WordOf(rk, w) == ScheduleWord(key, w) == KeyWord(key, w);
      assert k == 4 * w + k % 4;
    }
  }

  method ExpandKey(roundKey: array<bv8>, key: array<bv8>)
    requires roundKey.Length == 176 && key.Length == 16 && key != roundKey
    modifies roundKey
    ensures roundKey[..] == KeyExpansion(key[..])
    ensures roundKey[..16] == key[..]
    ensures forall i :: 4 <= i < 44 ==> FollowsBytes(roundKey[..], i)
  {
    hide Increment, KeyExpansion, Filled, ScheduleWord, Word.Xor, WordOf, FollowsBytes;
    ghost var k0: Block := key[..];
    NothingFilled(roundKey[..], k0);
    for i := 0 to NK
      invariant key[..] == k0 && Filled(roundKey[..], k0, i)
    {
      ghost var rk := roundKey[..];
      CopyWord(key, i, roundKey, i);
      NextWord(k0, i);
      FilledOneMore(rk, roundKey[..], k0, i);
    }
    var tempa := new bv8[4];
    for i := NK to WORDS
      invariant key[..] == k0 && Filled(roundKey[..], k0, i)
    {
      ghost var rk := roundKey[..];
      CopyWord(roundKey, i - 1, tempa, 0);
      FilledWord(rk, k0, i, i - 1);
      FilledWord(rk, k0, i, i - NK);
      IncrementInPlace(tempa, i);
      CombineWord(roundKey, i, tempa);
      NextWord(k0, i);
      FilledOneMore(rk, roundKey[..], k0, i);
    }
    WordsMakeSchedule(roundKey[..], k0);
    KeyComesFirst(roundKey[..], k0);
    forall i | 4 <= i < 44
      ensures FollowsBytes(roundKey[..], i)
    {
      ScheduleFollows(roundKey[..], k0, i);
    }
  }

  /** Copies a block, as memcpy does; source and destination are the same block or do not overlap. */
  method Copy(src: array<bv8>, from: nat, dst: array<bv8>, to: nat)
    requires from + 16 <= src.Length && to + 16 <= dst.Length
    requires src == dst ==> from == to || from + 16 <= to || to + 16 <= from
    modifies dst
    ensures dst[to..to + 16] == old(src[from..from + 16])
    ensures forall k :: 0 <= k < dst.Length && !(to <= k < to + 16) ==> dst[k] == old(dst[k])
  {
    ghost var block := src[from..from + 16];
    for i := 0 to 16
      invariant forall k :: 0 <= k < i ==> dst[to + k] == block[k]
      invariant forall k :: i <= k < 16 ==> src[from + k] == block[k]
      invariant forall k :: 0 <= k < dst.Length && !(to <= k < to + i) ==> dst[k] == old(dst[k])
    {
      dst[to + i] := src[from + i];
    }
  }

  class AesCtx {
    const RoundKey: array<bv8>
    const Iv: array<bv8>

    ghost predicate Valid() {
      RoundKey.Length == 176 && Iv.Length == 16 && RoundKey != Iv
    }

    /** A buffer that shares no memory with the context. */
    ghost predicate Separate(buf: array<bv8>) {
      buf != RoundKey && buf != Iv
    }

    constructor ()
      ensures Valid() && fresh(RoundKey) && fresh(Iv)
    {
      RoundKey := new bv8[176];
      Iv := new bv8[16];
    }

    method InitCtx(key: array<bv8>)
      requires Valid() && Separate(key) && key.Length == 16
      modifies RoundKey
      ensures RoundKey[..] == KeyExpansion(key[..])
    {
      ExpandKey(RoundKey, key);
    }

    method InitCtxIv(key: array<bv8>, iv: array<bv8>)
      requires Valid() && Separate(key) && Separate(iv) && key.Length == 16 && iv.Length == 16
      modifies RoundKey, Iv
      ensures RoundKey[..] == KeyExpansion(key[..]) && Iv[..] == iv[..]
    {
      hide KeyExpansion;
      ExpandKey(RoundKey, key);
      Copy(iv, 0, Iv, 0);
      assert iv[..] == iv[0..16] && Iv[..] == Iv[0..16];
    }

    method SetIv(iv: array<bv8>)
      requires Valid() && Separate(iv) && iv.Length >= 16
      modifies Iv
      ensures Iv[..] == iv[..16]
    {
      Copy(iv, 0, Iv, 0);
      assert Iv[..] == Iv[0..16];
    }

    /** The counter step inside the CTR loop. */
    method IncrementIv()
      requires Valid()
      modifies Iv
      ensures Iv[..] == Incremented(old(Iv[..]))
    {
      ghost var iv := Iv[..];
      var bi := 15;
      assert iv[..16] == iv;
      while bi >= 0
        invariant -1 <= bi <= 15
        invariant Iv[..bi + 1] == iv[..bi + 1]
        invariant Incremented(iv) == Incremented(iv[..bi + 1]) + Iv[bi + 1..]
      {
        assert Iv[bi] == Iv[..bi + 1][bi] == iv[bi];
        assert iv[..bi + 1][..bi] == iv[..bi];
        if Iv[bi] == 255 {
          ghost var rest := Iv[bi + 1..];
          Iv[bi] := 0;
          assert Iv[bi..] == [0] + rest;
          bi := bi - 1;
          continue;
        }
        ghost var rest := Iv[bi + 1..];
        Iv[bi] := Iv[bi] + 1;
        assert Iv[bi + 1..] == rest && Iv[..bi] == iv[..bi];
        assert Iv[..] == Iv[..bi] + [Iv[bi]] + Iv[bi + 1..];
        return;
      }
      assert Iv[..] == Iv[0..];
    }

    /** Counter mode in place over the first `length` bytes of the buffer. */
    method CtrXcryptBuffer(buf: array<bv8>, length: nat)
      requires Valid() && Separate(buf) && length <= buf.Length
      modifies buf, Iv
      ensures buf[..length] == Xcrypt(RoundKey[..], old(Iv[..]), old(buf[..length]))
      ensures buf[length..] == old(buf[length..])
      ensures Iv[..] == IvAfter(old(Iv[..]), length)
      ensures forall i, c: Block :: 0 <= i < length && FromBytes(c) == (FromBytes(old(Iv[..])) + i / 16) % TWO_128 ==>
        buf[..length][i] == old(buf[..length])[i] ^ Cipher(c, RoundKey[..])[i % 16]
      ensures FromBytes(Iv[..]) == (FromBytes(old(Iv[..])) + (length + 15) / 16) % TWO_128
    {
      hide Keystream, CounterBlock, Incremented, XcryptedUpTo, Xcrypt, Cipher, FromBytes;
      ghost var rk: RoundKeys := RoundKey[..];
      ghost var iv: Block := Iv[..];
      ghost var data := buf[..];
      assert buf[..length] == data[..length];
      var buffer := new bv8[16];
      var i, bi := 0, 16;
      ghost var k := 0;
      FirstCounterBlock(iv);
      XcryptStarts(rk, iv, data);
      while i < length
        invariant i <= length && RoundKey[..] == rk
        invariant i + 16 == 16 * k + bi && 0 < bi <= 16
        invariant Iv[..] == CounterBlock(iv, k)
        invariant bi < 16 ==> buffer[..] == Keystream(rk, iv, k - 1)
        invariant XcryptedUpTo(rk, iv, data, buf[..], i)
      {
        if bi == 16 {
          NextBlock(buffer, rk, iv, k);
          bi := 0;
          k := k + 1;
        }
        BlockIndex(i, k - 1, bi);
        assert buffer[bi] == Keystream(rk, iv, i / 16)[i % 16];
        ghost var out := buf[..];
        buf[i] := buf[i] ^ buffer[bi];
        XcryptedStep(rk, iv, data, out, i);
        i, bi := i + 1, bi + 1;
      }
      BlocksBegun(length, k, bi);
      XcryptedAll(rk, iv, data, buf[..], length);
      BytesOf(rk, iv, data[..length], buf[..length]);
      CounterAfter(iv, length, k);
    }

    /** Generates keystream block k into the scratch buffer and steps the counter. */
    method NextBlock(buffer: array<bv8>, ghost rk: RoundKeys, ghost iv: Block, ghost k: nat)
      requires Valid() && Separate(buffer) && buffer.Length == 16
      requires RoundKey[..] == rk && Iv[..] == CounterBlock(iv, k)
      modifies buffer, Iv
      ensures buffer[..] == Keystream(rk, iv, k) && Iv[..] == CounterBlock(iv, k + 1)
    {
      hide CounterBlock, Incremented, Cipher;
      Copy(Iv, 0, buffer, 0);
      assert Iv[..] == Iv[0..16] && View(buffer, 0) == buffer[..];
      CipherInPlace(buffer, 0, RoundKey);
      assert View(buffer, 0) == buffer[..];
      NextCounterBlock(iv, k);
      IncrementIv();
    }

    /** CBC encryption in place of the first `length` bytes.  The chaining pointer (`chain` at `at`) starts at
        the context's own value and then points into the buffer, at the block just written. */
    method CbcEncryptBuffer(buf: array<bv8>, length: nat)
      requires Valid() && Separate(buf) && length <= buf.Length && length % 16 == 0
      modifies buf, Iv
      ensures buf[..length] == CbcEncrypt(RoundKey[..], old(Iv[..]), old(buf[..length]))
      ensures buf[length..] == old(buf[length..])
      ensures Iv[..] == LastBlock(old(Iv[..]), buf[..length])
      ensures Iv[..] == if length == 0 then old(Iv[..]) else buf[length - 16..length]
    {
      hide Cipher, XorBlocks, CbcEncrypt, EncryptedUpTo, LastBlock;
      ghost var rk: RoundKeys := RoundKey[..];
      ghost var iv: Block := Iv[..];
      ghost var data := buf[..length];
      var chain, at := Iv, 0;
      var i := 0;
      ChainStarts(rk, iv, data);
      while i < length
        invariant i <= length && i % 16 == 0 && RoundKey[..] == rk && Iv[..] == iv
        invariant if i == 0 then chain == Iv && at == 0 else chain == buf && at == i - 16
        invariant chain[at..at + 16] == LastBlock(iv, buf[..i])
        invariant buf[length..] == old(buf[length..])
        invariant EncryptedUpTo(rk, iv, data, buf[..length], i)
      {
        ghost var out := buf[..length];
        PrefixSlices(buf[..], length, i);
        EncryptBlock(buf, i, chain, at);
        PrefixSlices(buf[..], length, i);
        EncryptedStep(rk, iv, data, out, buf[..length], i);
        chain, at := buf, i;
        i := i + 16;
      }
      EncryptedAll(rk, iv, data, buf[..length]);
      Copy(chain, at, Iv, 0);
      assert Iv[..] == Iv[0..16];
    }

    /** One turn of the loop. */
    method EncryptBlock(buf: array<bv8>, i: nat, chain: array<bv8>, at: nat)
      requires Valid() && Separate(buf) && BlockAt(buf, i) && BlockAt(chain, at)
      requires chain == buf ==> at + 16 <= i
      modifies buf
      ensures View(buf, i) == Cipher(XorBlocks(old(View(buf, i)), old(View(chain, at))), RoundKey[..])
      ensures OnlyBlock(buf, i)
    {
      hide Cipher, XorBlocks;
      XorWithIv(buf, i, chain, at);
      CipherInPlace(buf, i, RoundKey);
    }

    /** CBC decryption in place, with the next chaining value saved before the block is overwritten. */
    method CbcDecryptBuffer(buf: array<bv8>, length: nat)
      requires Valid() && Separate(buf) && length <= buf.Length && length % 16 == 0
      modifies buf, Iv
      ensures buf[..length] == CbcDecrypt(RoundKey[..], old(Iv[..]), old(buf[..length]))
      ensures buf[length..] == old(buf[length..])
      ensures Iv[..] == LastBlock(old(Iv[..]), old(buf[..length]))
      ensures Iv[..] == if length == 0 then old(Iv[..]) else old(buf[length - 16..length])
    {
      hide InvCipher, XorBlocks, CbcDecrypt, DecryptedUpTo, LastBlock;
      ghost var rk: RoundKeys := RoundKey[..];
      ghost var iv: Block := Iv[..];
      ghost var data := buf[..length];
      var storeNextIv := new bv8[16];
      var i := 0;
      DecryptionStarts(rk, iv, data);
      LastOfPrefix(iv, buf[..], length);
      assert LastBlock(iv, data) == if length == 0 then iv else buf[length - 16..length];
      while i < length
        invariant i <= length && i % 16 == 0 && RoundKey[..] == rk
        invariant Iv[..] == LastBlock(iv, data[..i])
        invariant buf[length..] == old(buf[length..])
        invariant DecryptedUpTo(rk, iv, data, buf[..length], i)
      {
        ghost var out := buf[..length];
        PrefixSlices(buf[..], length, i);
        DecryptBlock(buf, i, storeNextIv);
        PrefixSlices(buf[..], length, i);
        DecryptedStep(rk, iv, data, out, buf[..length], i);
        i := i + 16;
      }
      DecryptedAll(rk, iv, data, buf[..length]);
      assert data[..length] == data;
    }

    /** One turn of the loop: the ciphertext block is saved, decrypted, combined with the context's chaining
        value, and then becomes the chaining value. */
    method DecryptBlock(buf: array<bv8>, i: nat, storeNextIv: array<bv8>)
      requires Valid() && Separate(buf) && BlockAt(buf, i)
      requires Separate(storeNextIv) && storeNextIv != buf && storeNextIv.Length == 16
      modifies buf, Iv, storeNextIv
      ensures View(buf, i) == XorBlocks(InvCipher(old(View(buf, i)), RoundKey[..]), old(Iv[..]))
      ensures OnlyBlock(buf, i)
      ensures Iv[..] == old(View(buf, i))
    {
      hide InvCipher, XorBlocks;
      assert Iv[..] == View(Iv, 0);
      Copy(buf, i, storeNextIv, 0);
      InvCipherInPlace(buf, i, RoundKey);
      XorWithIv(buf, i, Iv, 0);
      Copy(storeNextIv, 0, Iv, 0);
      assert Iv[..] == View(Iv, 0);
    }
  }

  /** The first i bytes are combined with the keystream, the others untouched. */
  ghost predicate XcryptedUpTo(rk: RoundKeys, iv: Block, data: seq<bv8>, out: seq<bv8>, i: nat) {
    && |out| == |data| && i <= |data|
    && (forall k :: 0 <= k < i ==> out[k] == data[k] ^ Keystream(rk, iv, k / 16)[k % 16])
    && (forall k :: i <= k < |data| ==> out[k] == data[k])
  }

  lemma BlockIndex(i: nat, k: nat, bi: nat)
    requires i == 16 * k + bi && bi < 16
    ensures i / 16 == k && i % 16 == bi
  {
  }

  /** The loop has begun as many blocks as the counter has moved. */
  lemma BlocksBegun(length: nat, k: nat, bi: nat)
    requires length + 16 == 16 * k + bi && 0 < bi <= 16
    ensures (length + 15) / 16 == k
  {
  }

  /** The output byte by byte, over the numbers of the counters. */
  lemma BytesOf(rk: RoundKeys, iv: Block, data: seq<bv8>, out: seq<bv8>)
    requires out == Xcrypt(rk, iv, data)
    ensures forall i, c: Block :: 0 <= i < |data| && FromBytes(c) == (FromBytes(iv) + i / 16) % TWO_128 ==>
      out[i] == data[i] ^ Cipher(c, rk)[i % 16]
  {
    hide Xcrypt, Cipher, FromBytes;
    forall i, c: Block | 0 <= i < |data| && FromBytes(c) == (FromBytes(iv) + i / 16) % TWO_128
      ensures out[i] == data[i] ^ Cipher(c, rk)[i % 16]
    {
      XcryptByte(rk, iv, data, i, c);
    }
  }

  lemma XcryptStarts(rk: RoundKeys, iv: Block, data: seq<bv8>)
    ensures XcryptedUpTo(rk, iv, data, data, 0)
  {
  }

  lemma XcryptedStep(rk: RoundKeys, iv: Block, data: seq<bv8>, out: seq<bv8>, i: nat)
    requires XcryptedUpTo(rk, iv, data, out, i) && i < |data|
    ensures XcryptedUpTo(rk, iv, data, out[i := out[i] ^ Keystream(rk, iv, i / 16)[i % 16]], i + 1)
  {
    hide Keystream;
  }

  lemma XcryptedAll(rk: RoundKeys, iv: Block, data: seq<bv8>, out: seq<bv8>, length: nat)
    requires XcryptedUpTo(rk, iv, data, out, length)
    ensures out[..length] == Xcrypt(rk, iv, data[..length]) && out[length..] == data[length..]
  {
    hide Keystream;
  }

  lemma LastOfPrefix(iv: Block, s: seq<bv8>, n: nat)
    requires n % 16 == 0 && n <= |s|
    ensures LastBlock(iv, s[..n]) == if n == 0 then iv else s[n - 16..n]
  {
    if n > 0 {
      assert s[..n][n - 16..] == s[n - 16..n];
    }
  }

  lemma PrefixSlices(s: seq<bv8>, n: nat, i: nat)
    requires i + 16 <= n <= |s|
    ensures s[..n][i..i + 16] == s[i..i + 16]
    ensures s[..n][..i] == s[..i] && s[..n][..i + 16] == s[..i + 16]
  {
  }

  /** What one turn of a CBC loop leaves of its buffer. */
  lemma TurnSlices(data: seq<bv8>, out: seq<bv8>, out': seq<bv8>, i: nat)
    requires i + 16 <= |data| == |out| == |out'| && out[i..] == data[i..]
    requires forall k :: 0 <= k < |out| && !(i <= k < i + 16) ==> out'[k] == out[k]
    ensures out[i..i + 16] == data[i..][..16] == data[..i + 16][i..]
    ensures data[i..][16..] == data[i + 16..] == out'[i + 16..]
    ensures out'[..i + 16] == out[..i] + out'[i..i + 16]
    ensures data[..i + 16] == data[..i] + data[i..][..16]
  {
    assert forall k :: i <= k < |data| ==> out[k] == out[i..][k - i] == data[i..][k - i] == data[k];
  }

  lemma LastOf(iv: Block, s: seq<bv8>, c: Block)
    requires |s| % 16 == 0
    ensures LastBlock(iv, s + c) == c
  {
  }

  lemma Regrouped(a: seq<bv8>, b: seq<bv8>, c: seq<bv8>)
    ensures a + (b + c) == (a + b) + c
  {
  }

  lemma CbcEncryptStep(rk: RoundKeys, iv: Block, data: seq<bv8>)
    requires |data| % 16 == 0 && |data| > 0
    ensures var c := Cipher(XorBlocks(data[..16], iv), rk);
            CbcEncrypt(rk, iv, data) == c + CbcEncrypt(rk, c, data[16..])
  {
  }

  lemma CbcDecryptStep(rk: RoundKeys, iv: Block, data: seq<bv8>)
    requires |data| % 16 == 0 && |data| > 0
    ensures CbcDecrypt(rk, iv, data)
         == XorBlocks(InvCipher(data[..16], rk), iv) + CbcDecrypt(rk, data[..16], data[16..])
  {
  }

  /** The first i bytes are done, the others untouched. */
  ghost predicate EncryptedUpTo(rk: RoundKeys, iv: Block, data: seq<bv8>, out: seq<bv8>, i: nat)
    requires |data| % 16 == 0
  {
    && |out| == |data| && i <= |data| && i % 16 == 0
    && out[i..] == data[i..]
    && CbcEncrypt(rk, iv, data) == out[..i] + CbcEncrypt(rk, LastBlock(iv, out[..i]), data[i..])
  }

  lemma ChainStarts(rk: RoundKeys, iv: Block, data: seq<bv8>)
    requires |data| % 16 == 0
    ensures EncryptedUpTo(rk, iv, data, data, 0) && LastBlock(iv, data[..0]) == iv
  {
    assert data[..0] == [] && data[0..] == data;
  }

  lemma EncryptedStep(rk: RoundKeys, iv: Block, data: seq<bv8>, out: seq<bv8>, out': seq<bv8>, i: nat)
    requires |data| % 16 == 0 && i + 16 <= |data| && |out'| == |data|
    requires EncryptedUpTo(rk, iv, data, out, i)
    requires out'[i..i + 16] == Cipher(XorBlocks(out[i..i + 16], LastBlock(iv, out[..i])), rk)
    requires forall k :: 0 <= k < |out| && !(i <= k < i + 16) ==> out'[k] == out[k]
    ensures EncryptedUpTo(rk, iv, data, out', i + 16)
    ensures LastBlock(iv, out'[..i + 16]) == out'[i..i + 16]
  {
    hide Cipher, XorBlocks, CbcEncrypt, LastBlock;
    var c: Block := out'[i..i + 16];
    TurnSlices(data, out, out', i);
    LastOf(iv, out[..i], c);
    CbcEncryptStep(rk, LastBlock(iv, out[..i]), data[i..]);
    Regrouped(out[..i], c, CbcEncrypt(rk, c, data[i + 16..]));
  }

  lemma EncryptedAll(rk: RoundKeys, iv: Block, data: seq<bv8>, out: seq<bv8>)
    requires |data| % 16 == 0 && EncryptedUpTo(rk, iv, data, out, |data|)
    ensures out == CbcEncrypt(rk, iv, data)
  {
  }

  ghost predicate DecryptedUpTo(rk: RoundKeys, iv: Block, data: seq<bv8>, out: seq<bv8>, i: nat)
    requires |data| % 16 == 0
  {
    && |out| == |data| && i <= |data| && i % 16 == 0
    && out[i..] == data[i..]
    && CbcDecrypt(rk, iv, data) == out[..i] + CbcDecrypt(rk, LastBlock(iv, data[..i]), data[i..])
  }

  lemma DecryptionStarts(rk: RoundKeys, iv: Block, data: seq<bv8>)
    requires |data| % 16 == 0
    ensures DecryptedUpTo(rk, iv, data, data, 0) && LastBlock(iv, data[..0]) == iv
  {
    assert data[..0] == [] && data[0..] == data;
  }

  lemma DecryptedStep(rk: RoundKeys, iv: Block, data: seq<bv8>, out: seq<bv8>, out': seq<bv8>, i: nat)
    requires |data| % 16 == 0 && i + 16 <= |data| && |out'| == |data|
    requires DecryptedUpTo(rk, iv, data, out, i)
    requires out'[i..i + 16] == XorBlocks(InvCipher(out[i..i + 16], rk), LastBlock(iv, data[..i]))
    requires forall k :: 0 <= k < |out| && !(i <= k < i + 16) ==> out'[k] == out[k]
    ensures DecryptedUpTo(rk, iv, data, out', i + 16)
    ensures LastBlock(iv, data[..i + 16]) == out[i..i + 16]
  {
    hide InvCipher, XorBlocks, CbcDecrypt, LastBlock;
    var c: Block := data[i..][..16];
    TurnSlices(data, out, out', i);
    LastOf(iv, data[..i], c);
    CbcDecryptStep(rk, LastBlock(iv, data[..i]), data[i..]);
    Regrouped(out[..i], out'[i..i + 16], CbcDecrypt(rk, c, data[i + 16..]));
  }

  lemma DecryptedAll(rk: RoundKeys, iv: Block, data: seq<bv8>, out: seq<bv8>)
    requires |data| % 16 == 0 && DecryptedUpTo(rk, iv, data, out, |data|)
    ensures out == CbcDecrypt(rk, iv, data)
  {
  }

  /** Adds the block at `iv[at..]` to the block at `buf[off..]`; the two do not overlap. */
  method XorWithIv(buf: array<bv8>, off: nat, iv: array<bv8>, at: nat)
    requires BlockAt(buf, off) && BlockAt(iv, at)
    requires buf == iv ==> at + 16 <= off
    modifies buf
    ensures OnlyBlock(buf, off)
    ensures View(buf, off) == XorBlocks(old(View(buf, off)), old(View(iv, at)))
  {
    ghost var s, t := View(buf, off), View(iv, at);
    for i := 0 to 16
      invariant OnlyBlock(buf, off)
      invariant forall k :: 0 <= k < 16 ==> buf[off + k] == if k < i then s[k] ^ t[k] else s[k]
      invariant forall k :: 0 <= k < 16 ==> iv[at + k] == t[k]
    {
      buf[off + i] := buf[off + i] ^ iv[at + i];
    }
  }
}
