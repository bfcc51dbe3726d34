/** Counter with CBC-MAC as RFC 3610 states it, over any block cipher E, with L = 2. */
module Ccm {
  import opened Blocks

  type Cipher = Block -> Block

  // ---------------------------------------------------------------------------
  // Section 2.2: authentication

  function Zeros(n: nat): (z: seq<byte>)
    ensures |z| == n
  {
    seq(n, _ => 0)
  }

  /** Zero bytes up to the next multiple of 16. */
  function Pad16(s: seq<byte>): (p: seq<byte>)
    ensures |p| % 16 == 0 && s <= p && |p| < |s| + 16
  {
    s + Zeros((16 - |s| % 16) % 16)
  }

  /** X_{i+1} := E(X_i XOR B_i) over successive blocks. */
  function CbcMac(e: Cipher, x: Block, data: seq<byte>): Block
    requires |data| % 16 == 0
    decreases |data|
  {
    if data == [] then x else CbcMac(e, e(Xor(x, data[..16])), data[16..])
  }

  /** n modulo 256. */
  function Byte(n: nat): byte { if n == 0 then 0 else Byte(n - 1) + 1 }

  lemma ByteSuccessor(b: byte)
    ensures Value(b + 1) == if b == 255 then 0 else Value(b) + 1
    ensures b == 255 <==> Value(b) == 255
  {
  }

  lemma ByteNext(n: nat)
    ensures Byte(0) == 0 && Byte(n + 1) == Byte(n) + 1
  {
  }

  lemma ZeroValue()
    ensures Value(0) == 0
  {
  }

  lemma {:induction false} ByteValue(n: nat)
    ensures Value(Byte(n)) == n % 256
  {
    hide Byte; hide Value;
    ByteNext(if n == 0 then 0 else n - 1);
    ZeroValue();
    if n > 0 {
      ByteValue(n - 1);
      ByteSuccessor(Byte(n - 1));
    }
  }

  lemma ValueInjective(a: byte, b: byte)
    ensures Value(a) == Value(b) <==> a == b && 0 <= Value(a) < 256
  {
  }

  lemma ValueBack(b: byte)
    ensures Byte(Value(b)) == b
  {
    hide Byte; hide Value;
    ByteValue(Value(b));
    ValueInjective(Byte(Value(b)), b);
  }

  /** The two big-endian bytes of n. */
  function Be16(n: nat): (s: seq<byte>)
    ensures |s| == 2
  {
    [Byte(n / 256), Byte(n)]
  }

  /** The encoding of l(a): two, six or ten bytes (the table on page 4). */
  function AadLength(n: nat): (s: seq<byte>)
    ensures |s| == 2 || |s| == 6 || |s| == 10
  {
    if n < 0xFF00 then Be16(n)
    else if n < 0x1_0000_0000 then [0xFF, 0xFE] + Be16(n / 0x1_0000) + Be16(n)
    else [0xFF, 0xFF] + Be16(n / 0x1_0000_0000_0000) + Be16(n / 0x1_0000_0000) + Be16(n / 0x1_0000) + Be16(n)
  }

  /** The blocks that carry the additional data; none when there is none. */
  function AadBlocks(aad: seq<byte>): (s: seq<byte>)
    ensures |s| % 16 == 0
  {
    if aad == [] then [] else Pad16(AadLength(|aad|) + aad)
  }

  predicate TagSize(m: nat) { m % 2 == 0 && 4 <= m <= 16 }

  /** B_0: flags, nonce, message length. */
  function B0(m: nat, nonce: seq<byte>, hasAad: bool, len: nat): Block
    requires |nonce| == 13 && TagSize(m)
  {
    [Byte((if hasAad then 64 else 0) + 8 * ((m - 2) / 2) + 1)] + nonce + Be16(len)
  }

  /** B_1 | B_2 | ... : the additional data, then the message. */
  function MacInput(aad: seq<byte>, msg: seq<byte>): (s: seq<byte>)
    ensures |s| % 16 == 0
  {
    AadBlocks(aad) + Pad16(msg)
  }

  /** T before truncation. */
  function Mac(e: Cipher, m: nat, nonce: seq<byte>, aad: seq<byte>, msg: seq<byte>): Block
    requires |nonce| == 13 && TagSize(m)
  {
    CbcMac(e, e(B0(m, nonce, aad != [], |msg|)), MacInput(aad, msg))
  }

  // ---------------------------------------------------------------------------
  // Section 2.3: encryption

  /** A_i. */
  function CounterBlock(nonce: seq<byte>, i: nat): Block
    requires |nonce| == 13
  {
    [1] + nonce + Be16(i)
  }

  /** Byte k of the key stream S_1 | S_2 | ... */
  function KeyStream(e: Cipher, nonce: seq<byte>, k: nat): byte
    requires |nonce| == 13
  {
    e(CounterBlock(nonce, k / 16 + 1))[k % 16]
  }

  /** The bytes of `data`, which start at position `at` of the message, under the key stream. */
  function Crypt(e: Cipher, nonce: seq<byte>, at: nat, data: seq<byte>): (c: seq<byte>)
    requires |nonce| == 13
    ensures |c| == |data|
  {
    seq(|data|, i requires 0 <= i < |data| => XorByte(data[i], KeyStream(e, nonce, at + i)))
  }

  /** U: the first m bytes of T, encrypted with S_0. */
  function Tag(e: Cipher, m: nat, nonce: seq<byte>, aad: seq<byte>, msg: seq<byte>): (t: seq<byte>)
    requires |nonce| == 13 && TagSize(m)
    ensures |t| == m
  {
    Xor(Mac(e, m, nonce, aad, msg)[..m], e(CounterBlock(nonce, 0)))
  }

  // ---------------------------------------------------------------------------
  // Encrypting in pieces, and undoing it

  lemma CryptConcat(e: Cipher, nonce: seq<byte>, at: nat, a: seq<byte>, b: seq<byte>)
    requires |nonce| == 13
    ensures Crypt(e, nonce, at, a + b) == Crypt(e, nonce, at, a) + Crypt(e, nonce, at + |a|, b)
  {
    hide KeyStream; hide XorByte;
  }

  lemma CryptTwice(e: Cipher, nonce: seq<byte>, at: nat, data: seq<byte>)
    requires |nonce| == 13
    ensures Crypt(e, nonce, at, Crypt(e, nonce, at, data)) == data
  {
    hide KeyStream; hide XorByte;
    forall i | 0 <= i < |data| ensures Crypt(e, nonce, at, Crypt(e, nonce, at, data))[i] == data[i] {
      XorByteCancels(data[i], KeyStream(e, nonce, at + i));
    }
  }

  lemma {:induction false} CbcMacConcat(e: Cipher, x: Block, a: seq<byte>, b: seq<byte>)
    requires |a| % 16 == 0 && |b| % 16 == 0
    ensures CbcMac(e, x, a + b) == CbcMac(e, CbcMac(e, x, a), b)
    decreases |a|
  {
    hide Xor;
    if a == [] {
      assert a + b == b;
    } else {
      assert (a + b)[..16] == a[..16] && (a + b)[16..] == a[16..] + b;
      CbcMacConcat(e, e(Xor(x, a[..16])), a[16..], b);
    }
  }
}
