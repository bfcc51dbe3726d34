/** What the fields of struct aes_ccm mean: the state after a prefix of the message. */
module CcmState {
  import opened Blocks
  import opened Ccm
  import opened Bear

  // ---------------------------------------------------------------------------
  // The counter

  /** The last counter a message may use: the two counter bytes do not overflow. */
  const LAST_BLOCK: nat := 65535

  function CounterWord(nonce: seq<byte>, i: nat): bv32
    requires |nonce| == 13
  {
    Be32(nonce[11], nonce[12], Byte(i / 256), Byte(i))
  }

  function CounterPrefix(nonce: seq<byte>): (p: seq<byte>)
    requires |nonce| == 13
    ensures |p| == 12
  {
    [1] + nonce[..11]
  }

  lemma Be32BytesOf(b0: byte, b1: byte, b2: byte, b3: byte)
    ensures Be32Bytes(Be32(b0, b1, b2, b3)) == [b0, b1, b2, b3]
  {
    hide Le32Byte;
    Le32ByteOfDec(b3, b2, b1, b0);
  }

  lemma CounterSplit(nonce: seq<byte>, i: nat)
    requires |nonce| == 13
    ensures CounterBlock(nonce, i) == Counter32(CounterPrefix(nonce), CounterWord(nonce, i))
  {
    hide Be32; hide Be32Bytes; hide Byte;
    Be32BytesOf(nonce[11], nonce[12], Byte(i / 256), Byte(i));
    assert nonce == nonce[..11] + [nonce[11], nonce[12]];
  }

  lemma Be32Plus1(a: byte, b: byte, h: byte, l: byte)
    ensures l != 255 ==> Be32(a, b, h, l) + 1 == Be32(a, b, h, l + 1)
    ensures l == 255 && h != 255 ==> Be32(a, b, h, l) + 1 == Be32(a, b, h + 1, 0)
  {
  }

  /** The same, given the bytes of the next number. */
  lemma Be32Next(a: byte, b: byte, h: byte, l: byte, h': byte, l': byte)
    requires if l != 255 then l' == l + 1 && h' == h else h != 255 && l' == 0 && h' == h + 1
    ensures Be32(a, b, h, l) + 1 == Be32(a, b, h', l')
  {
    hide Be32;
    Be32Plus1(a, b, h, l);
  }

  /** The low counter byte wraps exactly every 256 blocks, the high one never within a message. */
  lemma CounterBytes(i: nat)
    requires i < LAST_BLOCK
    ensures Byte(i + 1) == Byte(i) + 1
    ensures (i + 1) % 256 != 0 ==> Byte(i) != 255 && Byte((i + 1) / 256) == Byte(i / 256)
    ensures (i + 1) % 256 == 0 ==>
              Byte(i) == 255 && Byte(i + 1) == 0 && Byte(i / 256) != 255 && Byte((i + 1) / 256) == Byte(i / 256) + 1
  {
    hide Value;
    ByteNext(i);
    ByteNext(i / 256);
    hide Byte;
    ByteValue(i);
    ByteValue(i / 256);
    ByteSuccessor(Byte(i));
    ByteSuccessor(Byte(i / 256));
  }

  lemma CounterNext(nonce: seq<byte>, i: nat)
    requires |nonce| == 13 && i < LAST_BLOCK
    ensures CounterWord(nonce, i) + 1 == CounterWord(nonce, i + 1)
  {
    hide Be32; hide Byte;
    CounterBytes(i);
    Be32Next(nonce[11], nonce[12], Byte(i / 256), Byte(i), Byte((i + 1) / 256), Byte(i + 1));
  }

  /** The 32-bit increments of aes_bear.c agree with the two-byte counter. */
  lemma {:induction false} CounterAdvance(nonce: seq<byte>, i: nat, k: nat)
    requires |nonce| == 13 && i + k <= LAST_BLOCK
    ensures Advance(CounterWord(nonce, i), k) == CounterWord(nonce, i + k)
  {
    hide CounterWord;
    if k > 0 {
      CounterAdvance(nonce, i, k - 1);
      CounterNext(nonce, i + k - 1);
    }
  }

  /** One block under the key stream. */
  lemma CryptOneBlock(e: Cipher, nonce: seq<byte>, b: nat, data: Block)
    requires |nonce| == 13
    ensures Crypt(e, nonce, 16 * b, data) == Xor(data, e(CounterBlock(nonce, b + 1)))
  {
    hide XorByte; hide CounterBlock;
  }

  lemma {:induction false} CtrIsCrypt(e: Cipher, nonce: seq<byte>, b: nat, data: seq<byte>)
    requires |nonce| == 13 && |data| % 16 == 0 && b + |data| / 16 <= LAST_BLOCK
    ensures CtrBlocks(e, CounterPrefix(nonce), CounterWord(nonce, b), data) == Crypt(e, nonce, 16 * b, data)
    decreases |data|
  {
    hide CounterPrefix; hide CounterWord; hide Counter32; hide Xor; hide Crypt; hide Advance; hide CounterBlock;
    hide CtrBlocks;
    if data == [] {
      assert Crypt(e, nonce, 16 * b, data) == [];
      CtrEmpty(e, CounterPrefix(nonce), CounterWord(nonce, b));
    } else {
      var n := |data| - 16;
      var init, last := data[..n], data[n..];
      assert n % 16 == 0 && |data| / 16 == n / 16 + 1;
      CtrStep(e, CounterPrefix(nonce), CounterWord(nonce, b), data, n);
      assert data[..n + 16] == data && data[n..n + 16] == last;
      CtrIsCrypt(e, nonce, b, init);
      CounterAdvance(nonce, b, |data| / 16);
      CounterSplit(nonce, b + |data| / 16);
      CryptOneBlock(e, nonce, b + n / 16, last);
      assert 16 * (b + n / 16) == 16 * b + n;
      assert data == init + last;
      CryptConcat(e, nonce, 16 * b, init, last);
    }
  }

  lemma XorByteCommutes(a: byte, b: byte)
    ensures XorByte(a, b) == XorByte(b, a)
  {
  }

  /** Bytes within one block use one block of key stream. */
  lemma CryptWithin(e: Cipher, nonce: seq<byte>, at: nat, t: seq<byte>, pad: Block)
    requires |nonce| == 13 && at % 16 + |t| <= 16 && pad == e(CounterBlock(nonce, at / 16 + 1))
    ensures Crypt(e, nonce, at, t) == Xor(pad[at % 16..at % 16 + |t|], t)
  {
    hide XorByte; hide CounterBlock;
    forall k | 0 <= k < |t| ensures Crypt(e, nonce, at, t)[k] == Xor(pad[at % 16..at % 16 + |t|], t)[k] {
      assert (at + k) / 16 == at / 16 && (at + k) % 16 == at % 16 + k;
      XorByteCommutes(t[k], pad[at % 16 + k]);
    }
  }

  // ---------------------------------------------------------------------------
  // The authenticator, with a partial block mixed in

  /** b with t mixed in from position `at` on. */
  function Absorb(b: Block, at: nat, t: seq<byte>): Block
    requires at + |t| <= 16
  {
    Splice(b, at, Xor(b[at..at + |t|], t))
  }

  function Whole(msg: seq<byte>): (n: nat)
    ensures n % 16 == 0 && n <= |msg|
  {
    |msg| - |msg| % 16
  }

  /** The authenticator after msg: full blocks chained, the rest mixed in but not yet encrypted. */
  function Partial(e: Cipher, x: Block, msg: seq<byte>): Block {
    Absorb(CbcMac(e, x, msg[..Whole(msg)]), 0, msg[Whole(msg)..])
  }

  lemma AbsorbEmpty(b: Block, at: nat)
    requires at <= 16
    ensures Absorb(b, at, []) == b
  {
  }

  lemma AbsorbTwice(b: Block, t: seq<byte>, u: seq<byte>)
    requires |t| + |u| <= 16
    ensures Absorb(Absorb(b, 0, t), |t|, u) == Absorb(b, 0, t + u)
  {
    hide XorByte; hide Absorb;
    var once, twice := Absorb(b, 0, t + u), Absorb(Absorb(b, 0, t), |t|, u);
    forall i | 0 <= i < 16 ensures twice[i] == once[i] {
      AbsorbAt(b, 0, t, i);
      AbsorbAt(Absorb(b, 0, t), |t|, u, i);
      AbsorbAt(b, 0, t + u, i);
    }
  }

  lemma AbsorbAt(b: Block, at: nat, t: seq<byte>, i: nat)
    requires at + |t| <= 16 && i < 16
    ensures Absorb(b, at, t)[i] == if at <= i < at + |t| then XorByte(b[i], t[i - at]) else b[i]
  {
    hide XorByte;
  }

  lemma AbsorbAll(b: Block, t: Block)
    ensures Absorb(b, 0, t) == Xor(b, t)
  {
    hide XorByte; hide Absorb;
    forall i | 0 <= i < 16 ensures Absorb(b, 0, t)[i] == Xor(b, t)[i] {
      AbsorbAt(b, 0, t, i);
    }
  }

  lemma PartialWhole(e: Cipher, x: Block, msg: seq<byte>)
    requires |msg| % 16 == 0
    ensures Partial(e, x, msg) == CbcMac(e, x, msg)
  {
    hide Absorb; hide CbcMac;
    assert msg[..Whole(msg)] == msg && msg[Whole(msg)..] == [];
    AbsorbEmpty(CbcMac(e, x, msg), 0);
  }

  lemma PartialGrows(e: Cipher, x: Block, msg: seq<byte>, t: seq<byte>)
    requires |msg| % 16 + |t| < 16
    ensures Partial(e, x, msg + t) == Absorb(Partial(e, x, msg), |msg| % 16, t)
  {
    hide Absorb; hide CbcMac;
    var n := Whole(msg);
    assert Whole(msg + t) == n;
    assert (msg + t)[..n] == msg[..n] && (msg + t)[n..] == msg[n..] + t;
    AbsorbTwice(CbcMac(e, x, msg[..n]), msg[n..], t);
  }

  lemma PartialFills(e: Cipher, x: Block, msg: seq<byte>, t: seq<byte>)
    requires |msg| % 16 + |t| == 16
    ensures |msg + t| % 16 == 0
    ensures Partial(e, x, msg + t) == e(Absorb(Partial(e, x, msg), |msg| % 16, t))
  {
    hide Absorb; hide CbcMac; hide Xor;
    var n := Whole(msg);
    var last := msg[n..] + t;
    assert msg + t == msg[..n] + last;
    assert |msg + t| == n + 16;
    PartialWhole(e, x, msg + t);
    CbcMacAppend(e, x, msg[..n], last);
    AbsorbTwice(CbcMac(e, x, msg[..n]), msg[n..], t);
    AbsorbAll(CbcMac(e, x, msg[..n]), last);
  }

  lemma PartialBlocks(e: Cipher, x: Block, msg: seq<byte>, data: seq<byte>)
    requires |msg| % 16 == 0 && |data| % 16 == 0
    ensures |msg + data| % 16 == 0
    ensures Partial(e, x, msg + data) == CbcMac(e, Partial(e, x, msg), data)
  {
    hide Partial; hide CbcMac;
    PartialWhole(e, x, msg);
    PartialWhole(e, x, msg + data);
    CbcMacConcat(e, x, msg, data);
  }

  /** Zero padding is mixing in nothing. */
  lemma PaddedMac(e: Cipher, x: Block, msg: seq<byte>)
    ensures CbcMac(e, x, Pad16(msg)) == if |msg| % 16 == 0 then Partial(e, x, msg) else e(Partial(e, x, msg))
  {
    if |msg| % 16 == 0 {
      assert Pad16(msg) == msg;
      PartialWhole(e, x, msg);
    } else {
      var z := Zeros(16 - |msg| % 16);
      assert Pad16(msg) == msg + z;
      PartialFills(e, x, msg, z);
      PartialWhole(e, x, msg + z);
      AbsorbZeros(Partial(e, x, msg), |msg| % 16);
    }
  }

  lemma XorZero(a: byte)
    ensures XorByte(a, 0) == a
  {
  }

  lemma AbsorbZeros(b: Block, at: nat)
    requires at <= 16
    ensures Absorb(b, at, Zeros(16 - at)) == b
  {
    hide XorByte;
    forall a: byte ensures XorByte(a, 0) == a { XorZero(a); }
  }
}
