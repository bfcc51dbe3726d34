/** The AES back end of aes_bear.c.  The bitsliced cipher always encrypts two blocks, so
    the CCM loops run the CBC-MAC in one lane and the counter mode in the other. */
module Bear {
  import opened Blocks
  import C = AesCt
  import K = AesKey
  import Code = AesCode
  import opened Ccm

  /** A key the back end can use: nr rounds and their compressed round keys (aes_rk). */
  datatype Key = Key(nr: nat, rk: seq<bv32>)

  predicate Usable(k: Key) { 1 <= k.nr <= 14 && 4 * (k.nr + 1) <= |k.rk| }

  /** e is the AES of FIPS 197 under the round keys of k. */
  ghost predicate IsCipher(k: Key, e: Cipher)
    requires Usable(k)
  {
    forall b: Block {:trigger AesBlock(RoundKeys(k.nr, k.rk), b)} :: e(b) == AesBlock(RoundKeys(k.nr, k.rk), b)
  }

  /** aesbear_setkey: what it leaves in the key is the key expansion of FIPS 197. */
  method SetKey(key: seq<byte>) returns (k: Key)
    requires KeySize(|key|)
    ensures Usable(k) && k.nr == |key| / 4 + 6 && RoundKeys(k.nr, k.rk) == ExpandedKey(key) && IsCipher(k, AesOf(key))
  {
    hide K.Holds; hide K.RoundWords; hide K.KeyOf; hide RoundKeys; hide ExpandedKey; hide AesBlock;
    var rk := new bv32[60];
    var nr := Code.KeySched(rk, key);
    ScheduleExpandsKey(key, rk[..]);
    k := Key(nr, rk[..]);
  }

  // ---------------------------------------------------------------------------
  // le32dec and le32enc on whole blocks

  /** Four calls of le32dec. */
  method Load(a: array<byte>, off: nat) returns (w0: bv32, w1: bv32, w2: bv32, w3: bv32)
    requires off + 16 <= a.Length
    ensures BlockOf(w0, w1, w2, w3) == a[off..off + 16]
  {
    hide Le32Byte; hide K.Le32;
    w0 := K.Le32(a[off], a[off + 1], a[off + 2], a[off + 3]);
    w1 := K.Le32(a[off + 4], a[off + 5], a[off + 6], a[off + 7]);
    w2 := K.Le32(a[off + 8], a[off + 9], a[off + 10], a[off + 11]);
    w3 := K.Le32(a[off + 12], a[off + 13], a[off + 14], a[off + 15]);
    Le32ByteOfDec(a[off], a[off + 1], a[off + 2], a[off + 3]);
    Le32ByteOfDec(a[off + 4], a[off + 5], a[off + 6], a[off + 7]);
    Le32ByteOfDec(a[off + 8], a[off + 9], a[off + 10], a[off + 11]);
    Le32ByteOfDec(a[off + 12], a[off + 13], a[off + 14], a[off + 15]);
  }

  /** Four calls of le32enc. */
  method Save(a: array<byte>, off: nat, w0: bv32, w1: bv32, w2: bv32, w3: bv32)
    requires off + 16 <= a.Length
    modifies a
    ensures a[..] == Splice(old(a[..]), off, BlockOf(w0, w1, w2, w3))
  {
    hide Le32Byte; hide BlockOf;
    var b := BlockOf(w0, w1, w2, w3);
    var i := 0;
    while i < 16
      invariant 0 <= i <= 16
      invariant forall k :: 0 <= k < a.Length ==> a[k] == if off <= k < off + i then b[k - off] else old(a[k])
    {
      a[off + i] := b[i];
      i := i + 1;
    }
  }

  // ---------------------------------------------------------------------------
  // The pair of lanes

  ghost function Lane(q: array<bv32>, odd: bool): Block
    requires q.Length == 8
    reads q
  {
    LaneBlock(C.WordsAt(q[..], 0), odd)
  }

  method SetLane(q: array<bv32>, odd: bool, w0: bv32, w1: bv32, w2: bv32, w3: bv32)
    requires q.Length == 8
    modifies q
    ensures Lane(q, odd) == BlockOf(w0, w1, w2, w3) && Lane(q, !odd) == old(Lane(q, !odd))
  {
    hide Le32Byte;
    if odd {
      q[1], q[3], q[5], q[7] := w0, w1, w2, w3;
    } else {
      q[0], q[2], q[4], q[6] := w0, w1, w2, w3;
    }
  }

  method GetLane(q: array<bv32>, odd: bool) returns (w0: bv32, w1: bv32, w2: bv32, w3: bv32)
    requires q.Length == 8
    ensures BlockOf(w0, w1, w2, w3) == Lane(q, odd)
  {
    hide Le32Byte;
    if odd {
      w0, w1, w2, w3 := q[1], q[3], q[5], q[7];
    } else {
      w0, w1, w2, w3 := q[0], q[2], q[4], q[6];
    }
  }

  method XorLane(q: array<bv32>, odd: bool, w0: bv32, w1: bv32, w2: bv32, w3: bv32)
    requires q.Length == 8
    modifies q
    ensures Lane(q, odd) == Xor(old(Lane(q, odd)), BlockOf(w0, w1, w2, w3)) && Lane(q, !odd) == old(Lane(q, !odd))
  {
    hide Xor; hide BlockOf;
    var v0, v1, v2, v3 := GetLane(q, odd);
    BlockOfXor(v0, v1, v2, v3, w0, w1, w2, w3);
    SetLane(q, odd, v0 ^ w0, v1 ^ w1, v2 ^ w2, v3 ^ w3);
  }

  /** sk holds the expanded round keys of k. */
  ghost predicate Expanded(k: Key, sk: array<bv32>)
    requires Usable(k)
    reads sk
  {
    8 * k.nr + 8 <= sk.Length && forall u | 0 <= u <= k.nr :: C.KeyWords(sk[..], u) == K.ExpandRound(k.rk, u)
  }

  method Expand(k: Key) returns (sk: array<bv32>)
    requires Usable(k)
    ensures fresh(sk) && Expanded(k, sk)
  {
    sk := new bv32[120];
    Code.SkeyExpand(sk, k.nr, k.rk);
  }

  /** Ortho, encrypt, ortho: each lane now holds the AES of the block it held. */
  method EncryptPair(k: Key, ghost e: Cipher, sk: array<bv32>, q: array<bv32>)
    requires Usable(k) && IsCipher(k, e) && Expanded(k, sk) && q.Length == 8 && q != sk
    modifies q
    ensures Lane(q, false) == e(old(Lane(q, false))) && Lane(q, true) == e(old(Lane(q, true)))
  {
    hide C.Ortho; hide C.Encrypt; hide C.WordsAt; hide LaneBlock; hide AesBlock; hide K.ExpandRound; hide C.KeyWords;
    ghost var w := C.WordsAt(q[..], 0);
    Code.Ortho(q, 0);
    Code.BitsliceEncrypt(k.nr, sk, q);
    Code.Ortho(q, 0);
    PairIsAes(k.nr, k.rk, sk[..], w, false);
    PairIsAes(k.nr, k.rk, sk[..], w, true);
  }

  /** aesbear_enc; in and out may be the same place. */
  method Enc(k: Key, ghost e: Cipher, src: array<byte>, so: nat, dst: array<byte>, d: nat)
    requires Usable(k) && IsCipher(k, e) && so + 16 <= src.Length && d + 16 <= dst.Length
    modifies dst
    ensures dst[..] == Splice(old(dst[..]), d, e(old(src[so..so + 16])))
  {
    hide Lane; hide BlockOf; hide Splice;
    var sk := Expand(k);
    var q := new bv32[8];
    var w0, w1, w2, w3 := Load(src, so);
    SetLane(q, false, w0, w1, w2, w3);
    SetLane(q, true, 0, 0, 0, 0);
    EncryptPair(k, e, sk, q);
    w0, w1, w2, w3 := GetLane(q, false);
    Save(dst, d, w0, w1, w2, w3);
  }

  /** The loop of aesbear_cbcmac_update1. */
  method MacLoop(k: Key, ghost e: Cipher, sk: array<bv32>, q: array<bv32>, src: array<byte>, so: nat, n: nat)
    requires Usable(k) && IsCipher(k, e) && Expanded(k, sk) && q.Length == 8 && q != sk
    requires so + n <= src.Length && n % 16 == 0
    modifies q
    ensures Lane(q, false) == CbcMac(e, old(Lane(q, false)), src[so..so + n])
  {
    hide Lane; hide BlockOf; hide Xor; hide CbcMac; hide Expanded; hide IsCipher;
    ghost var x, data := Lane(q, false), src[so..so + n];
    var j, nb := 0, n / 16;
    assert 16 * nb == n;
    CbcMacEmpty(e, x);
    while j < nb
      invariant 0 <= j <= nb && Expanded(k, sk)
      invariant Lane(q, false) == CbcMac(e, x, data[..16 * j])
    {
      var w0, w1, w2, w3 := Load(src, so + 16 * j);
      Within(src[..], so, n, 16 * j);
      XorLane(q, false, w0, w1, w2, w3);
      EncryptPair(k, e, sk, q);
      MacNext(e, x, data, j);
      j := j + 1;
    }
    assert data[..n] == data;
  }

  /** aesbear_cbcmac_update1. */
  method CbcMacUpdate1(k: Key, ghost e: Cipher, src: array<byte>, so: nat, n: nat, auth: array<byte>)
    requires Usable(k) && IsCipher(k, e) && so + n <= src.Length && 0 < n && n % 16 == 0 && 16 <= auth.Length
             && src != auth
    modifies auth
    ensures auth[..] == Splice(old(auth[..]), 0, CbcMac(e, old(auth[..16]), src[so..so + n]))
  {
    hide Lane; hide BlockOf; hide Xor; hide CbcMac; hide Expanded; hide Splice; hide IsCipher;
    var sk := Expand(k);
    var q := new bv32[8];
    SetLane(q, true, 0, 0, 0, 0);
    var w0, w1, w2, w3 := Load(auth, 0);
    SetLane(q, false, w0, w1, w2, w3);
    MacLoop(k, e, sk, q, src, so, n);
    w0, w1, w2, w3 := GetLane(q, false);
    Save(auth, 0, w0, w1, w2, w3);
  }

  lemma Within(s: seq<byte>, so: nat, n: nat, i: nat)
    requires so + n <= |s| && i + 16 <= n
    ensures s[so + i..so + i + 16] == s[so..so + n][i..i + 16]
  {
    var t, u := s[so + i..so + i + 16], s[so..so + n][i..i + 16];
    forall k | 0 <= k < 16 ensures t[k] == u[k] {
      assert s[so..so + n][i + k] == s[so + (i + k)];
    }
  }

  lemma CbcMacEmpty(e: Cipher, x: Block)
    ensures CbcMac(e, x, []) == x
  {
  }

  lemma CbcMacStep(e: Cipher, x: Block, data: seq<byte>, i: nat)
    requires i % 16 == 0 && i + 16 <= |data|
    ensures CbcMac(e, x, data[..i + 16]) == e(Xor(CbcMac(e, x, data[..i]), data[i..i + 16]))
  {
    assert data[..i + 16] == data[..i] + data[i..i + 16];
    CbcMacAppend(e, x, data[..i], data[i..i + 16]);
  }

  // ---------------------------------------------------------------------------
  // CCM, 16 bytes at a time

  function Be32(b0: byte, b1: byte, b2: byte, b3: byte): bv32 { K.Le32(b3, b2, b1, b0) }

  function Be32Bytes(c: bv32): (s: seq<byte>)
    ensures |s| == 4
  {
    [Le32Byte(c, 3), Le32Byte(c, 2), Le32Byte(c, 1), Le32Byte(c, 0)]
  }

  function Bswap32(c: bv32): bv32 {
    (c >> 24) | ((c >> 8) & 0xFF00) | ((c << 8) & 0xFF_0000) | (c << 24)
  }

  lemma BswapBytes(c: bv32)
    ensures WordBytes(Bswap32(c)) == Be32Bytes(c)
  {
  }

  /** A counter block whose last four bytes are a big-endian counter. */
  function Counter32(pre: seq<byte>, c: bv32): Block
    requires |pre| == 12
  {
    pre + Be32Bytes(c)
  }

  function Advance(c: bv32, k: nat): bv32 { if k == 0 then c else Advance(c, k - 1) + 1 }

  /** Counter mode, serially: block j under the (j+1)-st counter after c. */
  function CtrBlocks(e: Cipher, pre: seq<byte>, c: bv32, data: seq<byte>): (r: seq<byte>)
    requires |pre| == 12 && |data| % 16 == 0
    ensures |r| == |data|
    decreases |data|
  {
    if data == [] then []
    else
      var n := |data| - 16;
      CtrBlocks(e, pre, c, data[..n]) + Xor(data[n..], e(Counter32(pre, Advance(c, |data| / 16))))
  }

  lemma CtrStep(e: Cipher, pre: seq<byte>, c: bv32, data: seq<byte>, i: nat)
    requires |pre| == 12 && i % 16 == 0 && i + 16 <= |data|
    ensures CtrBlocks(e, pre, c, data[..i + 16])
         == CtrBlocks(e, pre, c, data[..i]) + Xor(data[i..i + 16], e(Counter32(pre, Advance(c, i / 16 + 1))))
  {
    hide Xor; hide Counter32; hide Advance;
    var d := data[..i + 16];
    assert d[..|d| - 16] == data[..i] && d[|d| - 16..] == data[i..i + 16];
    assert |d| / 16 == i / 16 + 1;
  }

  /** c0, c1, c2 hold the bytes of a counter block before its counter. */
  predicate IsPrefix(pre: seq<byte>, c0: bv32, c1: bv32, c2: bv32) {
    |pre| == 12 && pre == WordBytes(c0) + WordBytes(c1) + WordBytes(c2)
  }

  /** The counter block kept as three words and a counter. */
  lemma CounterWords(pre: seq<byte>, c0: bv32, c1: bv32, c2: bv32, c: bv32)
    requires |pre| == 12 && IsPrefix(pre, c0, c1, c2)
    ensures BlockOf(c0, c1, c2, Bswap32(c)) == Counter32(pre, c)
  {
    hide WordBytes; hide Be32Bytes; hide Bswap32;
    BswapBytes(c);
  }

  /** c0, c1, c2 by le32dec and c3 by be32dec, from the counter half of authctr. */
  method LoadCounter(authctr: array<byte>) returns (c0: bv32, c1: bv32, c2: bv32, c3: bv32)
    requires authctr.Length == 32
    ensures IsPrefix(authctr[16..28], c0, c1, c2)
    ensures Be32Bytes(c3) == authctr[28..32]
  {
    hide WordBytes; hide Le32Byte; hide K.Le32;
    var w: bv32;
    c0, c1, c2, w := Load(authctr, 16);
    assert authctr[16..28] == authctr[16..32][..12];
    c3 := Be32(authctr[28], authctr[29], authctr[30], authctr[31]);
    Le32ByteOfDec(authctr[31], authctr[30], authctr[29], authctr[28]);
  }

  /** be32enc of the counter. */
  method SaveCounter(authctr: array<byte>, c3: bv32)
    requires authctr.Length == 32
    modifies authctr
    ensures authctr[..] == old(authctr[..28]) + Be32Bytes(c3)
  {
    hide Le32Byte;
    authctr[28], authctr[29], authctr[30], authctr[31] :=
      Le32Byte(c3, 3), Le32Byte(c3, 2), Le32Byte(c3, 1), Le32Byte(c3, 0);
  }

  /** out := in XOR a lane, where w0 .. w3 is the block at in. */
  method SaveXor(dst: array<byte>, off: nat, w0: bv32, w1: bv32, w2: bv32, w3: bv32, q: array<bv32>, odd: bool)
    requires off + 16 <= dst.Length && q.Length == 8
    modifies dst
    ensures dst[..] == Splice(old(dst[..]), off, Xor(BlockOf(w0, w1, w2, w3), Lane(q, odd)))
  {
    hide Xor; hide BlockOf; hide Lane; hide Splice;
    var v0, v1, v2, v3 := GetLane(q, odd);
    BlockOfXor(w0, w1, w2, w3, v0, v1, v2, v3);
    Save(dst, off, w0 ^ v0, w1 ^ v1, w2 ^ v2, w3 ^ v3);
  }

  /** One pass of the loop of aesbear_ccm_enc1, after the counter was incremented. */
  method Enc1Block(k: Key, ghost e: Cipher, sk: array<bv32>, q: array<bv32>, src: array<byte>, so: nat,
                   dst: array<byte>, d: nat,
                   c0: bv32, c1: bv32, c2: bv32, c3: bv32, ghost pre: seq<byte>)
    requires Usable(k) && IsCipher(k, e) && Expanded(k, sk) && q.Length == 8 && q != sk
    requires so + 16 <= src.Length && d + 16 <= dst.Length
    requires |pre| == 12 && IsPrefix(pre, c0, c1, c2)
    modifies dst, q
    ensures Lane(q, false) == e(Xor(old(Lane(q, false)), old(src[so..so + 16])))
    ensures dst[..] == Splice(old(dst[..]), d, Xor(old(src[so..so + 16]), e(Counter32(pre, c3))))
  {
    hide Lane; hide BlockOf; hide Xor; hide Expanded; hide Counter32; hide IsPrefix; hide Bswap32; hide Splice;
    var w0, w1, w2, w3 := Load(src, so);
    XorLane(q, false, w0, w1, w2, w3);
    CounterWords(pre, c0, c1, c2, c3);
    SetLane(q, true, c0, c1, c2, Bswap32(c3));
    EncryptPair(k, e, sk, q);
    SaveXor(dst, d, w0, w1, w2, w3, q, true);
  }

  /** Output written over the input, or elsewhere, has not reached the next block yet. */
  lemma NotYetWritten(cur: seq<byte>, src: seq<byte>, so: nat, n: nat, done: seq<byte>)
    requires so + n <= |src| && |done| + 16 <= n
    requires cur == src || cur == Splice(src, so, done)
    ensures |cur| == |src|
    ensures cur[so + |done|..so + |done| + 16] == src[so..so + n][|done|..|done| + 16]
  {
    Within(src, so, n, |done|);
    SpliceAfter(src, so, done, 16);
  }

  function BlockAt(data: seq<byte>, j: nat): Block
    requires 16 * (j + 1) <= |data|
  {
    data[16 * j..16 * (j + 1)]
  }

  /** Block j of the message, encrypted. */
  ghost function CryptBlock(e: Cipher, pre: seq<byte>, c: bv32, data: seq<byte>, j: nat): Block
    requires |pre| == 12 && 16 * (j + 1) <= |data|
  {
    Xor(BlockAt(data, j), e(Counter32(pre, Advance(c, j + 1))))
  }

  lemma CtrNext(e: Cipher, pre: seq<byte>, c: bv32, data: seq<byte>, j: nat)
    requires |pre| == 12 && 16 * (j + 1) <= |data|
    ensures CtrBlocks(e, pre, c, data[..16 * (j + 1)]) ==
            CtrBlocks(e, pre, c, data[..16 * j]) + CryptBlock(e, pre, c, data, j)
  {
    hide CtrBlocks; hide Xor; hide Counter32; hide Advance;
    CtrStep(e, pre, c, data, 16 * j);
  }

  lemma MacNext(e: Cipher, x: Block, data: seq<byte>, j: nat)
    requires 16 * (j + 1) <= |data|
    ensures CbcMac(e, x, data[..16 * (j + 1)]) == e(Xor(CbcMac(e, x, data[..16 * j]), BlockAt(data, j)))
  {
    hide CbcMac; hide Xor;
    CbcMacStep(e, x, data, 16 * j);
  }

  /** The loop of aesbear_ccm_enc1. */
  method Enc1Loop(k: Key, ghost e: Cipher, sk: array<bv32>, q: array<bv32>, src: array<byte>, so: nat,
                  dst: array<byte>, d: nat, n: nat,
                  c0: bv32, c1: bv32, c2: bv32, c: bv32, ghost pre: seq<byte>) returns (c3: bv32)
    requires Usable(k) && IsCipher(k, e) && Expanded(k, sk) && q.Length == 8 && q != sk
    requires so + n <= src.Length && d + n <= dst.Length && n % 16 == 0 && (src == dst ==> so == d)
    requires |pre| == 12 && IsPrefix(pre, c0, c1, c2)
    modifies dst, q
    ensures Lane(q, false) == CbcMac(e, old(Lane(q, false)), old(src[so..so + n]))
    ensures c3 == Advance(c, n / 16)
    ensures dst[..] == Splice(old(dst[..]), d, CtrBlocks(e, pre, c, old(src[so..so + n])))
  {
    hide Lane; hide Xor; hide CbcMac; hide CtrBlocks; hide Expanded; hide Counter32; hide Splice; hide IsPrefix;
    hide IsCipher;
    ghost var x, src0, dst0 := Lane(q, false), src[..], dst[..];
    ghost var data, done := src0[so..so + n], [];
    c3 := c;
    var j, nb := 0, n / 16;
    assert 16 * nb == n;
    CbcMacEmpty(e, x);
    CtrEmpty(e, pre, c);
    SpliceEmpty(dst0, d);
    while j < nb
      invariant 0 <= j <= nb
      invariant Expanded(k, sk)
      invariant Lane(q, false) == CbcMac(e, x, data[..16 * j])
      invariant c3 == Advance(c, j)
      invariant |done| == 16 * j && done == CtrBlocks(e, pre, c, data[..16 * j])
      invariant dst[..] == Splice(dst0, d, done)
      invariant src != dst ==> src[..] == src0
    {
      NotYetWritten(src[..], src0, so, n, done);
      c3 := c3 + 1;
      Enc1Block(k, e, sk, q, src, so + 16 * j, dst, d + 16 * j, c0, c1, c2, c3, pre);
      SpliceNext(dst0, d, done, CryptBlock(e, pre, c, data, j));
      MacNext(e, x, data, j);
      CtrNext(e, pre, c, data, j);
      done := done + CryptBlock(e, pre, c, data, j);
      j := j + 1;
    }
    assert data[..n] == data;
  }

  /** aesbear_ccm_enc1. */
  method CcmEnc1(k: Key, ghost e: Cipher, src: array<byte>, so: nat, dst: array<byte>, d: nat, n: nat,
                 authctr: array<byte>, ghost c: bv32)
    requires Usable(k) && IsCipher(k, e) && so + n <= src.Length && d + n <= dst.Length && 0 < n && n % 16 == 0
    requires authctr.Length == 32 && authctr != src && authctr != dst && (src == dst ==> so == d)
    requires authctr[28..] == Be32Bytes(c)
    modifies dst, authctr
    ensures authctr[..] == CbcMac(e, old(authctr[..16]), old(src[so..so + n]))
                         + Counter32(old(authctr[16..28]), Advance(c, n / 16))
    ensures dst[..] == Splice(old(dst[..]), d, CtrBlocks(e, old(authctr[16..28]), c, old(src[so..so + n])))
  {
    hide Lane; hide BlockOf; hide CbcMac; hide CtrBlocks; hide Expanded; hide IsPrefix; hide Be32Bytes; hide Splice;
    hide Advance;
    ghost var pre := authctr[16..28];
    var sk := Expand(k);
    var q := new bv32[8];
    var w0, w1, w2, w3 := Load(authctr, 0);
    SetLane(q, false, w0, w1, w2, w3);
    var c0, c1, c2, c3 := LoadCounter(authctr);
    Be32BytesInjective(c, c3);
    c3 := Enc1Loop(k, e, sk, q, src, so, dst, d, n, c0, c1, c2, c3, pre);
    w0, w1, w2, w3 := GetLane(q, false);
    SaveAuthCtr(authctr, w0, w1, w2, w3, c3);
  }

  /** The last step of both CCM routines. */
  method SaveAuthCtr(authctr: array<byte>, w0: bv32, w1: bv32, w2: bv32, w3: bv32, c3: bv32)
    requires authctr.Length == 32
    modifies authctr
    ensures authctr[..] == BlockOf(w0, w1, w2, w3) + Counter32(old(authctr[16..28]), c3)
  {
    hide BlockOf; hide Be32Bytes;
    Save(authctr, 0, w0, w1, w2, w3);
    assert authctr[16..28] == old(authctr[16..28]) && authctr[..16] == BlockOf(w0, w1, w2, w3);
    ghost var a := authctr[..28];
    assert a == authctr[..16] + authctr[16..28];
    SaveCounter(authctr, c3);
  }

  /** The CBC-MAC of what counter mode makes of data. */
  ghost function MacOfCtr(e: Cipher, x: Block, pre: seq<byte>, c: bv32, data: seq<byte>): Block
    requires |pre| == 12 && |data| % 16 == 0
  {
    CbcMac(e, x, CtrBlocks(e, pre, c, data))
  }

  /** The first half of a pass of the loop of aesbear_ccm_dec1: decrypt with the even lane,
      mix the plaintext into the odd one, store it. */
  method Dec1Block(q: array<bv32>, src: array<byte>, so: nat, dst: array<byte>, d: nat)
    requires q.Length == 8 && so + 16 <= src.Length && d + 16 <= dst.Length
    modifies dst, q
    ensures Lane(q, false) == old(Lane(q, false))
    ensures Lane(q, true) == Xor(old(Lane(q, true)), Xor(old(src[so..so + 16]), old(Lane(q, false))))
    ensures dst[..] == Splice(old(dst[..]), d, Xor(old(src[so..so + 16]), old(Lane(q, false))))
  {
    hide Lane; hide BlockOf; hide Xor; hide Splice;
    var w0, w1, w2, w3 := Load(src, so);
    var v0, v1, v2, v3 := GetLane(q, false);
    BlockOfXor(w0, w1, w2, w3, v0, v1, v2, v3);
    var b0, b1, b2, b3 := w0 ^ v0, w1 ^ v1, w2 ^ v2, w3 ^ v3;
    XorLane(q, true, b0, b1, b2, b3);
    Save(dst, d, b0, b1, b2, b3);
  }

  /** The second half: the next counter in the even lane, then encrypt both. */
  method NextCounter(k: Key, ghost e: Cipher, sk: array<bv32>, q: array<bv32>, c0: bv32, c1: bv32, c2: bv32, c3: bv32,
                     ghost pre: seq<byte>)
    requires Usable(k) && IsCipher(k, e) && Expanded(k, sk) && q.Length == 8 && q != sk && |pre| == 12
             && IsPrefix(pre, c0, c1, c2)
    modifies q
    ensures Lane(q, false) == e(Counter32(pre, c3)) && Lane(q, true) == e(old(Lane(q, true)))
  {
    hide Lane; hide BlockOf; hide Expanded; hide Counter32; hide IsPrefix; hide Bswap32;
    CounterWords(pre, c0, c1, c2, c3);
    SetLane(q, false, c0, c1, c2, Bswap32(c3));
    EncryptPair(k, e, sk, q);
  }

  /** One more block: of the output, of its place, and of its authenticator. */
  lemma Dec1Step(e: Cipher, x: Block, pre: seq<byte>, c: bv32, data: seq<byte>, j: nat, done: seq<byte>,
                 dst: seq<byte>, d: nat)
    requires |pre| == 12 && 16 * (j + 1) <= |data| && |done| == 16 * j && d + 16 * (j + 1) <= |dst|
    requires done == CtrBlocks(e, pre, c, data[..16 * j])
    ensures var b := CryptBlock(e, pre, c, data, j);
            && done + b == CtrBlocks(e, pre, c, data[..16 * (j + 1)])
            && Splice(Splice(dst, d, done), d + 16 * j, b) == Splice(dst, d, done + b)
            && CbcMac(e, x, done + b) == e(Xor(CbcMac(e, x, done), b))
  {
    hide Xor; hide CbcMac; hide CtrBlocks; hide Counter32; hide Splice;
    SpliceNext(dst, d, done, CryptBlock(e, pre, c, data, j));
    CtrNext(e, pre, c, data, j);
    CbcMacAppend(e, x, done, CryptBlock(e, pre, c, data, j));
  }

  /** One turn of the loop: block j of the output is in place, and in the lane of the authenticator. */
  method Dec1Next(ghost e: Cipher, q: array<bv32>, src: array<byte>, so: nat, dst: array<byte>, d: nat, j: nat,
                  ghost x: Block, ghost pre: seq<byte>, ghost c: bv32, ghost data: seq<byte>,
                  ghost src0: seq<byte>, ghost dst0: seq<byte>, ghost done: seq<byte>)
    returns (ghost more: seq<byte>)
    requires q.Length == 8 && |pre| == 12 && 16 * (j + 1) <= |data|
    requires so + |data| <= src.Length == |src0| && d + |data| <= dst.Length == |dst0| && data == src0[so..so + |data|]
    requires |done| == 16 * j && |done| % 16 == 0 && done == CtrBlocks(e, pre, c, data[..|done|])
    requires dst[..] == Splice(dst0, d, done) && (src[..] == src0 || src[..] == Splice(src0, so, done))
    requires Lane(q, false) == e(Counter32(pre, Advance(c, j + 1))) && Lane(q, true) == CbcMac(e, x, done)
    modifies dst, q
    ensures |more| == |done| + 16 && more == CtrBlocks(e, pre, c, data[..|more|])
    ensures dst[..] == Splice(dst0, d, more)
    ensures CbcMac(e, x, more) == e(Lane(q, true))
  {
    hide Lane; hide Xor; hide CbcMac; hide CtrBlocks; hide Counter32; hide Splice; hide Advance;
    NotYetWritten(src[..], src0, so, |data|, done);
    Dec1Step(e, x, pre, c, data, j, done, dst0, d);
    Dec1Block(q, src, so + 16 * j, dst, d + 16 * j);
    more := done + CryptBlock(e, pre, c, data, j);
  }

  /** The loop of aesbear_ccm_dec1, entered with the first key stream block in the even lane
      and the authenticator in the odd one; the MAC runs one block behind the counter. */
  method Dec1Loop(k: Key, ghost e: Cipher, sk: array<bv32>, q: array<bv32>, src: array<byte>, so: nat,
                  dst: array<byte>, d: nat, n: nat,
                  c0: bv32, c1: bv32, c2: bv32, first: bv32, ghost pre: seq<byte>, ghost c: bv32) returns (c3: bv32)
    requires Usable(k) && IsCipher(k, e) && Expanded(k, sk) && q.Length == 8 && q != sk
    requires so + n <= src.Length && d + n <= dst.Length && 0 < n && n % 16 == 0 && (src == dst ==> so == d)
    requires |pre| == 12 && IsPrefix(pre, c0, c1, c2) && first == Advance(c, 1)
    requires Lane(q, false) == e(Counter32(pre, first))
    modifies dst, q
    ensures Lane(q, true) == MacOfCtr(e, old(Lane(q, true)), pre, c, old(src[so..so + n]))
    ensures c3 == Advance(c, n / 16)
    ensures dst[..] == Splice(old(dst[..]), d, CtrBlocks(e, pre, c, old(src[so..so + n])))
  {
    hide Lane; hide Xor; hide CbcMac; hide CtrBlocks; hide Expanded; hide Counter32; hide Splice; hide IsPrefix;
    hide IsCipher;
    ghost var x, src0, dst0 := Lane(q, true), src[..], dst[..];
    ghost var data, done := src0[so..so + n], [];
    c3 := first;
    var j, nb := 0, n / 16;
    assert 16 * nb == n;
    CtrEmpty(e, pre, c);
    CbcMacEmpty(e, x);
    SpliceEmpty(dst0, d);
    while true
      invariant 0 <= j < nb
      invariant Expanded(k, sk)
      invariant |done| == 16 * j && done == CtrBlocks(e, pre, c, data[..16 * j])
      invariant Lane(q, true) == CbcMac(e, x, done)
      invariant c3 == Advance(c, j + 1)
      invariant Lane(q, false) == e(Counter32(pre, c3))
      invariant dst[..] == Splice(dst0, d, done)
      invariant src != dst ==> src[..] == src0
      decreases nb - j
    {
      done := Dec1Next(e, q, src, so, dst, d, j, x, pre, c, data, src0, dst0, done);
      if j + 1 == nb {
        break;
      }
      c3 := c3 + 1;
      NextCounter(k, e, sk, q, c0, c1, c2, c3, pre);
      j := j + 1;
    }
    assert data[..n] == data;
    EncryptPair(k, e, sk, q);
  }

  lemma CbcMacAppend(e: Cipher, x: Block, a: seq<byte>, b: Block)
    requires |a| % 16 == 0
    ensures CbcMac(e, x, a + b) == e(Xor(CbcMac(e, x, a), b))
  {
    hide Xor;
    CbcMacConcat(e, x, a, b);
    assert b[..16] == b && b[16..] == [];
  }

  /** aesbear_ccm_dec1. */
  method CcmDec1(k: Key, ghost e: Cipher, src: array<byte>, so: nat, dst: array<byte>, d: nat, n: nat,
                 authctr: array<byte>, ghost c: bv32)
    requires Usable(k) && IsCipher(k, e) && so + n <= src.Length && d + n <= dst.Length && 0 < n && n % 16 == 0
    requires authctr.Length == 32 && authctr != src && authctr != dst && (src == dst ==> so == d)
    requires authctr[28..] == Be32Bytes(c)
    modifies dst, authctr
    ensures dst[..] == Splice(old(dst[..]), d, CtrBlocks(e, old(authctr[16..28]), c, old(src[so..so + n])))
    ensures authctr[..] == MacOfCtr(e, old(authctr[..16]), old(authctr[16..28]), c, old(src[so..so + n]))
                         + Counter32(old(authctr[16..28]), Advance(c, n / 16))
  {
    hide Lane; hide BlockOf; hide CbcMac; hide CtrBlocks; hide Expanded; hide IsPrefix; hide Be32Bytes; hide Splice;
    hide Counter32;
    ghost var pre := authctr[16..28];
    var sk := Expand(k);
    var q := new bv32[8];
    var c0, c1, c2, c3 := LoadCounter(authctr);
    Be32BytesInjective(c, c3);
    c3 := c3 + 1;
    SetLane(q, true, 0, 0, 0, 0);
    NextCounter(k, e, sk, q, c0, c1, c2, c3, pre);
    var w0, w1, w2, w3 := Load(authctr, 0);
    SetLane(q, true, w0, w1, w2, w3);
    assert c3 == Advance(c, 1);
    c3 := Dec1Loop(k, e, sk, q, src, so, dst, d, n, c0, c1, c2, c3, pre, c);
    w0, w1, w2, w3 := GetLane(q, true);
    SaveAuthCtr(authctr, w0, w1, w2, w3, c3);
  }

  lemma CtrEmpty(e: Cipher, pre: seq<byte>, c: bv32)
    requires |pre| == 12
    ensures CtrBlocks(e, pre, c, []) == []
  {
  }

  lemma Be32BytesInjective(a: bv32, b: bv32)
    requires Be32Bytes(a) == Be32Bytes(b)
    ensures a == b
  {
    assert Be32Bytes(a)[0] == Be32Bytes(b)[0] && Be32Bytes(a)[1] == Be32Bytes(b)[1];
    assert Be32Bytes(a)[2] == Be32Bytes(b)[2] && Be32Bytes(a)[3] == Be32Bytes(b)[3];
  }
}
