/** The CTR and CBC modes of SP 800-38A as functions on byte strings, and their laws. */
module Modes {
  import opened Fips197
  import opened Counter

  // ----- counter mode, section 6.5 -----

  function Keystream(rk: RoundKeys, iv: Block, k: nat): Block {
    Cipher(CounterBlock(iv, k), rk)
  }

  /** Byte i is combined with byte i mod 16 of keystream block i div 16. */
  function Xcrypt(rk: RoundKeys, iv: Block, data: seq<bv8>): (out: seq<bv8>)
    ensures |out| == |data|
  {
    seq(|data|, i requires 0 <= i < |data| => data[i] ^ Keystream(rk, iv, i / 16)[i % 16])
  }

  /** The counter after a call: one step for every block begun. */
  function IvAfter(iv: Block, length: nat): Block {
    CounterBlock(iv, (length + 15) / 16)
  }

  /** Byte i is combined with byte i mod 16 of the enciphered counter whose number is i div 16 more than that of the
      starting counter, modulo 2^128. */
  lemma XcryptByte(rk: RoundKeys, iv: Block, data: seq<bv8>, i: nat, c: Block)
    requires i < |data| && FromBytes(c) == (FromBytes(iv) + i / 16) % TWO_128
    ensures Xcrypt(rk, iv, data)[i] == data[i] ^ Cipher(c, rk)[i % 16]
  {
    hide Cipher, CounterBlock;
    CounterBlockValue(iv, i / 16);
    SameNumberSameBytes(c, CounterBlock(iv, i / 16));
  }

  /** Section 6.5 block by block: the k-th output block is the k-th input block plus the k-th enciphered counter. */
  lemma XcryptBlock(rk: RoundKeys, iv: Block, data: seq<bv8>, k: nat, c: Block)
    requires 16 * k + 16 <= |data| && FromBytes(c) == (FromBytes(iv) + k) % TWO_128
    ensures Xcrypt(rk, iv, data)[16 * k..16 * k + 16] == XorBlocks(data[16 * k..16 * k + 16], Cipher(c, rk))
  {
    hide Cipher, Xcrypt;
    forall i | 0 <= i < 16
      ensures Xcrypt(rk, iv, data)[16 * k + i] == data[16 * k + i] ^ Cipher(c, rk)[i]
    {
      assert (16 * k + i) / 16 == k && (16 * k + i) % 16 == i;
      XcryptByte(rk, iv, data, 16 * k + i, c);
    }
  }

  /** A last block of n < 16 bytes is combined with the first n bytes of its enciphered counter. */
  lemma XcryptLastBlock(rk: RoundKeys, iv: Block, data: seq<bv8>, k: nat, n: nat, c: Block)
    requires n < 16 && |data| == 16 * k + n && FromBytes(c) == (FromBytes(iv) + k) % TWO_128
    ensures forall j :: 0 <= j < n ==> Xcrypt(rk, iv, data)[16 * k..][j] == data[16 * k..][j] ^ Cipher(c, rk)[j]
  {
    hide Cipher, Xcrypt;
    forall j | 0 <= j < n
      ensures Xcrypt(rk, iv, data)[16 * k..][j] == data[16 * k..][j] ^ Cipher(c, rk)[j]
    {
      assert (16 * k + j) / 16 == k && (16 * k + j) % 16 == j;
      XcryptByte(rk, iv, data, 16 * k + j, c);
    }
  }

  /** The counter left behind is k more than before if the n bytes take k blocks, the last of them full or not. */
  lemma CounterAfter(iv: Block, n: nat, k: nat)
    requires n <= 16 * k < n + 16
    ensures FromBytes(IvAfter(iv, n)) == (FromBytes(iv) + k) % TWO_128
  {
    hide FromBytes, CounterBlock;
    assert (n + 15) / 16 == k;
    CounterBlockValue(iv, k);
  }

  /** Encryption and decryption are the same call. */
  lemma XcryptTwice(rk: RoundKeys, iv: Block, data: seq<bv8>)
    ensures Xcrypt(rk, iv, Xcrypt(rk, iv, data)) == data
  {
    hide Keystream;
    var once := Xcrypt(rk, iv, data);
    forall i | 0 <= i < |data|
      ensures Xcrypt(rk, iv, once)[i] == data[i]
    {
      XorTwice(data[i], Keystream(rk, iv, i / 16)[i % 16]);
    }
  }

  lemma SameMask(a: bv8, k: bv8, l: bv8)
    requires (a ^ k) ^ l == a
    ensures k == l
  {
  }

  lemma SameKeystreamByte(rk: RoundKeys, iv: Block, iv': Block, data: seq<bv8>, i: nat)
    requires i < 16 <= |data| && Xcrypt(rk, iv', Xcrypt(rk, iv, data))[i] == data[i]
    ensures Keystream(rk, iv, 0)[i] == Keystream(rk, iv', 0)[i]
  {
    hide Keystream;
    SameMask(data[i], Keystream(rk, iv, 0)[i], Keystream(rk, iv', 0)[i]);
  }

  lemma SameFirstBlock(rk: RoundKeys, iv: Block, iv': Block, data: seq<bv8>)
    requires |data| >= 16 && Xcrypt(rk, iv', Xcrypt(rk, iv, data)) == data
    ensures Keystream(rk, iv, 0) == Keystream(rk, iv', 0)
  {
    hide Keystream, Xcrypt;
    forall i | 0 <= i < 16
      ensures Keystream(rk, iv, 0)[i] == Keystream(rk, iv', 0)[i]
    {
      SameKeystreamByte(rk, iv, iv', data, i);
    }
  }

  /** Data of a block or more is recovered by a second call exactly if that call starts from the same counter. */
  lemma XcryptUndoneExactly(rk: RoundKeys, iv: Block, iv': Block, data: seq<bv8>)
    requires |data| >= 16
    ensures Xcrypt(rk, iv', Xcrypt(rk, iv, data)) == data <==> iv' == iv
  {
    hide Cipher, CounterBlock, Xcrypt;
    XcryptTwice(rk, iv, data);
    if Xcrypt(rk, iv', Xcrypt(rk, iv, data)) == data {
      SameFirstBlock(rk, iv, iv', data);
      CipherInjective(CounterBlock(iv, 0), CounterBlock(iv', 0), rk);
      FirstCounterBlock(iv);
      FirstCounterBlock(iv');
    }
  }

  /** A call may be split at any block boundary, the second call continuing from the counter the first left. */
  lemma XcryptSplits(rk: RoundKeys, iv: Block, a: seq<bv8>, b: seq<bv8>)
    requires |a| % 16 == 0
    ensures Xcrypt(rk, iv, a + b) == Xcrypt(rk, iv, a) + Xcrypt(rk, IvAfter(iv, |a|), b)
    ensures IvAfter(iv, |a + b|) == IvAfter(IvAfter(iv, |a|), |b|)
  {
    hide Cipher, CounterBlock;
    var n, iv' := |a| / 16, IvAfter(iv, |a|);
    assert |a| == 16 * n && (|a| + 15) / 16 == n;
    forall i | |a| <= i < |a + b|
      ensures Xcrypt(rk, iv, a + b)[i] == Xcrypt(rk, iv', b)[i - |a|]
    {
      assert i / 16 == n + (i - |a|) / 16 && i % 16 == (i - |a|) % 16;
      CountersCompose(iv, n, (i - |a|) / 16);
    }
    CountersCompose(iv, n, (|b| + 15) / 16);
  }

  /** No two of 2^128 consecutive keystream blocks are equal. */
  lemma KeystreamDistinct(rk: RoundKeys, iv: Block, j: nat, k: nat)
    requires j < k < j + TWO_128
    ensures Keystream(rk, iv, j) != Keystream(rk, iv, k)
  {
    hide Cipher, CounterBlock;
    CountersDistinct(iv, j, k);
    if Keystream(rk, iv, j) == Keystream(rk, iv, k) {
      CipherInjective(CounterBlock(iv, j), CounterBlock(iv, k), rk);
    }
  }

  // ----- cipher block chaining, section 6.2 -----

  function CbcEncrypt(rk: RoundKeys, iv: Block, data: seq<bv8>): (out: seq<bv8>)
    requires |data| % 16 == 0
    ensures |out| == |data|
    decreases |data|
  {
    if |data| == 0 then []
    else
      var c := Cipher(XorBlocks(data[..16], iv), rk);
      c + CbcEncrypt(rk, c, data[16..])
  }

  function CbcDecrypt(rk: RoundKeys, iv: Block, data: seq<bv8>): (out: seq<bv8>)
    requires |data| % 16 == 0
    ensures |out| == |data|
    decreases |data|
  {
    if |data| == 0 then []
    else XorBlocks(InvCipher(data[..16], rk), iv) + CbcDecrypt(rk, data[..16], data[16..])
  }

  /** The chaining value after a call: the last ciphertext block, if there was any. */
  function LastBlock(iv: Block, ciphertext: seq<bv8>): Block
    requires |ciphertext| % 16 == 0
  {
    if |ciphertext| == 0 then iv else ciphertext[|ciphertext| - 16..]
  }

  /** The block before position i, which for the first block is the initial value. */
  function Before(iv: Block, blocks: seq<bv8>, i: nat): Block
    requires i % 16 == 0 && i <= |blocks|
  {
    if i == 0 then iv else blocks[i - 16..i]
  }

  lemma BeforeShifted(iv: Block, c: Block, rest: seq<bv8>, i: nat)
    requires i % 16 == 0 && 16 <= i <= |c + rest|
    ensures Before(iv, c + rest, i) == Before(c, rest, i - 16)
  {
    var s := c + rest;
    if i == 16 {
      assert s[0..16] == c;
    } else {
      assert s[i - 16..i] == rest[i - 32..i - 16];
    }
  }

  lemma BlockShifted(c: Block, rest: seq<bv8>, i: nat)
    requires 16 <= i && i + 16 <= |c + rest|
    ensures (c + rest)[i..i + 16] == rest[i - 16..i]
  {
  }

  lemma EncryptFirst(rk: RoundKeys, iv: Block, first: Block, more: seq<bv8>)
    requires |more| % 16 == 0
    ensures var c := Cipher(XorBlocks(first, iv), rk); CbcEncrypt(rk, iv, first + more) == c + CbcEncrypt(rk, c, more)
  {
    hide Cipher, XorBlocks;
    assert (first + more)[..16] == first && (first + more)[16..] == more;
  }

  lemma DecryptFirst(rk: RoundKeys, iv: Block, first: Block, more: seq<bv8>)
    requires |more| % 16 == 0
    ensures CbcDecrypt(rk, iv, first + more) == XorBlocks(InvCipher(first, rk), iv) + CbcDecrypt(rk, first, more)
  {
    hide InvCipher, XorBlocks;
    assert (first + more)[..16] == first && (first + more)[16..] == more;
  }

  /** Section 6.2 block by block: each ciphertext block enciphers the sum of its plaintext block and the ciphertext
      block before it, which for the first one is the initial value. */
  lemma {:induction false} CbcEncryptBlock(rk: RoundKeys, iv: Block, data: seq<bv8>, i: nat)
    requires |data| % 16 == 0 && i % 16 == 0 && i + 16 <= |data|
    ensures var out := CbcEncrypt(rk, iv, data);
            out[i..i + 16] == Cipher(XorBlocks(data[i..i + 16], Before(iv, out, i)), rk)
    decreases |data|
  {
    hide Cipher, XorBlocks, Before, CbcEncrypt;
    var first: Block, more := data[..16], data[16..];
    var c := Cipher(XorBlocks(first, iv), rk);
    assert data == first + more;
    EncryptFirst(rk, iv, first, more);
    if i == 0 {
      FirstBlock(iv, c, CbcEncrypt(rk, c, more));
      FirstBlock(iv, first, more);
    } else {
      CbcEncryptBlock(rk, c, more, i - 16);
      BeforeShifted(iv, c, CbcEncrypt(rk, c, more), i);
      BlockShifted(c, CbcEncrypt(rk, c, more), i);
      BlockShifted(first, more, i);
    }
  }

  lemma FirstBlock(iv: Block, c: Block, rest: seq<bv8>)
    ensures (c + rest)[0..16] == c && Before(iv, c + rest, 0) == iv
  {
  }

  /** Each plaintext block is the deciphered ciphertext block plus the ciphertext block before it. */
  lemma {:induction false} CbcDecryptBlock(rk: RoundKeys, iv: Block, data: seq<bv8>, i: nat)
    requires |data| % 16 == 0 && i % 16 == 0 && i + 16 <= |data|
    ensures CbcDecrypt(rk, iv, data)[i..i + 16] == XorBlocks(InvCipher(data[i..i + 16], rk), Before(iv, data, i))
    decreases |data|
  {
    hide InvCipher, XorBlocks, Before, CbcDecrypt;
    var first: Block, more := data[..16], data[16..];
    var p := XorBlocks(InvCipher(first, rk), iv);
    assert data == first + more;
    DecryptFirst(rk, iv, first, more);
    if i == 0 {
      FirstBlock(iv, p, CbcDecrypt(rk, first, more));
      FirstBlock(iv, first, more);
    } else {
      CbcDecryptBlock(rk, first, more, i - 16);
      BeforeShifted(iv, first, more, i);
      BlockShifted(p, CbcDecrypt(rk, first, more), i);
      BlockShifted(first, more, i);
    }
  }

  lemma {:induction false} CbcDecryptUndoesEncrypt(rk: RoundKeys, iv: Block, data: seq<bv8>)
    requires |data| % 16 == 0
    ensures CbcDecrypt(rk, iv, CbcEncrypt(rk, iv, data)) == data
    decreases |data|
  {
    hide Cipher, InvCipher, XorBlocks;
    if |data| > 0 {
      var p := XorBlocks(data[..16], iv);
      var c := Cipher(p, rk);
      var out := CbcEncrypt(rk, iv, data);
      assert out[..16] == c && out[16..] == CbcEncrypt(rk, c, data[16..]);
      InvCipherUndoesCipher(p, rk);
      XorBlocksTwice(data[..16], iv);
      CbcDecryptUndoesEncrypt(rk, c, data[16..]);
    }
  }

  /** A call may be split at any block boundary, the second call chaining from the first's last block. */
  lemma {:induction false} CbcEncryptSplits(rk: RoundKeys, iv: Block, a: seq<bv8>, b: seq<bv8>)
    requires |a| % 16 == 0 && |b| % 16 == 0
    ensures CbcEncrypt(rk, iv, a + b)
         == CbcEncrypt(rk, iv, a) + CbcEncrypt(rk, LastBlock(iv, CbcEncrypt(rk, iv, a)), b)
    ensures var c := CbcEncrypt(rk, iv, a); var d := CbcEncrypt(rk, LastBlock(iv, c), b);
            LastBlock(iv, c + d) == LastBlock(LastBlock(iv, c), d)
    decreases |a|
  {
    hide Cipher, XorBlocks;
    LastJoined(iv, CbcEncrypt(rk, iv, a), CbcEncrypt(rk, LastBlock(iv, CbcEncrypt(rk, iv, a)), b));
    if |a| == 0 {
      assert a + b == b;
    } else {
      hide CbcEncrypt, LastBlock;
      var first: Block, more := a[..16], a[16..];
      var c := Cipher(XorBlocks(first, iv), rk);
      assert a == first + more && a + b == first + (more + b);
      EncryptFirst(rk, iv, first, more);
      EncryptFirst(rk, iv, first, more + b);
      CbcEncryptSplits(rk, c, more, b);
      LastJoined(iv, c, CbcEncrypt(rk, c, more));
      LastOfBlock(iv, c);
    }
  }

  lemma LastJoined(iv: Block, c: seq<bv8>, d: seq<bv8>)
    requires |c| % 16 == 0 && |d| % 16 == 0
    ensures LastBlock(iv, c + d) == LastBlock(LastBlock(iv, c), d)
  {
  }

  lemma LastOfBlock(iv: Block, c: Block)
    ensures LastBlock(iv, c) == c
  {
  }

  lemma {:induction false} CbcDecryptSplits(rk: RoundKeys, iv: Block, a: seq<bv8>, b: seq<bv8>)
    requires |a| % 16 == 0 && |b| % 16 == 0
    ensures CbcDecrypt(rk, iv, a + b) == CbcDecrypt(rk, iv, a) + CbcDecrypt(rk, LastBlock(iv, a), b)
    ensures LastBlock(iv, a + b) == LastBlock(LastBlock(iv, a), b)
    decreases |a|
  {
    hide InvCipher, XorBlocks;
    if |a| == 0 {
      assert a + b == b;
    } else {
      assert (a + b)[..16] == a[..16] && (a + b)[16..] == a[16..] + b;
      CbcDecryptSplits(rk, a[..16], a[16..], b);
    }
  }
}
