/** The resumable AES-CCM of aes_ccm.c. */
module CcmStream {
  import opened Blocks
  import opened Ccm
  import B = Bear
  import opened CcmState

  /** xor: x := a XOR b, byte by byte; a or b may be the same place as x. */
  method XorInto(x: array<byte>, xo: nat, a: array<byte>, ao: nat, b: array<byte>, bo: nat, n: nat)
    requires xo + n <= x.Length && ao + n <= a.Length && bo + n <= b.Length
    requires (a == x ==> ao == xo) && (b == x ==> bo == xo)
    modifies x
    ensures x[..] == Splice(old(x[..]), xo, Xor(old(a[ao..ao + n]), old(b[bo..bo + n])))
  {
    hide XorByte; hide Splice; hide Xor;
    ghost var x0, a0, b0 := x[..], a[..], b[..];
    ghost var r := Xor(a0[ao..ao + n], b0[bo..bo + n]);
    var j := 0;
    SpliceEmpty(x0, xo);
    while j < n
      invariant 0 <= j <= n
      invariant x[..] == Splice(x0, xo, r[..j])
      invariant (a != x ==> a[..] == a0) && (b != x ==> b[..] == b0)
    {
      Unwritten(a[..], a0, ao, r[..j]);
      Unwritten(b[..], b0, bo, r[..j]);
      XorAt(a0[ao..ao + n], b0[bo..bo + n], j);
      PutByte(x, xo + j, XorByte(a[ao + j], b[bo + j]));
      SpliceNext(x0, xo, r[..j], [r[j]]);
      assert r[..j + 1] == r[..j] + [r[j]];
      j := j + 1;
    }
    assert r[..n] == r;
  }

  method PutByte(x: array<byte>, off: nat, v: byte)
    requires off < x.Length
    modifies x
    ensures x[..] == Splice(old(x[..]), off, [v])
  {
    x[off] := v;
  }

  lemma Unwritten(cur: seq<byte>, a: seq<byte>, ao: nat, done: seq<byte>)
    requires ao + |done| < |a|
    requires cur == a || cur == Splice(a, ao, done)
    ensures |cur| == |a| && cur[ao + |done|] == a[ao + |done|]
  {
  }

  lemma XorAt(a: seq<byte>, b: seq<byte>, j: nat)
    requires |a| == |b| && j < |a|
    ensures Xor(a, b)[j] == XorByte(a[j], b[j])
  {
  }

  lemma SpliceInFirst(s: seq<byte>, n: nat, off: nat, b: seq<byte>)
    requires n <= |s| && off + |b| <= n
    ensures Splice(s, off, b)[..n] == Splice(s[..n], off, b) && Splice(s, off, b)[n..] == s[n..]
  {
  }

  lemma SpliceWhole(s: seq<byte>, b: seq<byte>)
    requires |s| == |b|
    ensures Splice(s, 0, b) == b
  {
  }

  /** The value of i once the tag was taken. */
  const DONE: nat := 0xFFFF_FFFF

  /** The fields of the stream say what they should after `msg`. */
  ghost predicate Holds(e: Cipher, x: Block, nonce: seq<byte>, msg: seq<byte>,
                        auth: seq<byte>, ctr: seq<byte>, pad: seq<byte>, i: nat)
  {
    && |nonce| == 13
    && i == |msg| % 16
    && auth == Partial(e, x, msg)
    && ctr == CounterBlock(nonce, (|msg| + 15) / 16)
    && (i != 0 ==> pad == e(ctr))
  }

  lemma CounterHalves(ctr: seq<byte>, nonce: seq<byte>, b: nat)
    requires |nonce| == 13 && ctr == CounterBlock(nonce, b)
    ensures ctr[..12] == CounterPrefix(nonce) && ctr[12..] == B.Be32Bytes(CounterWord(nonce, b))
  {
    hide CounterBlock; hide CounterPrefix; hide CounterWord; hide B.Be32Bytes;
    CounterSplit(nonce, b);
  }

  /** The encoding of the length of the additional data as aes_ccm_init writes it. */
  function CodeAadLength(n: nat): (s: seq<byte>)
    ensures |s| == 2 || |s| == 6 || |s| == 10
  {
    if n < 0xFF00 then Be16(n)
    else if n < 0xFFFF_FFFF then [0xFF, 0xFE] + Be16(n / 0x1_0000) + Be16(n)
    else [0xFF, 0xFF] + Be16(n / 0x1_0000_0000_0000) + Be16(n / 0x1_0000_0000) + Be16(n / 0x1_0000) + Be16(n)
  }

  function CodeAadBlocks(aad: seq<byte>): (s: seq<byte>)
    ensures |s| % 16 == 0
  {
    if aad == [] then [] else Pad16(CodeAadLength(|aad|) + aad)
  }

  /** The authenticator when the message starts. */
  function Start(e: Cipher, m: nat, nonce: seq<byte>, aad: seq<byte>, mlen: nat): Block
    requires |nonce| == 13 && TagSize(m)
  {
    CbcMac(e, e(B0(m, nonce, aad != [], mlen)), CodeAadBlocks(aad))
  }

  /** The tag of a message whose authenticator started from `start`. */
  function TagAfter(e: Cipher, m: nat, start: Block, nonce: seq<byte>, msg: seq<byte>): (t: seq<byte>)
    requires |nonce| == 13 && TagSize(m)
    ensures |t| == m
  {
    Xor(CbcMac(e, start, Pad16(msg))[..m], e(CounterBlock(nonce, 0)))
  }

  lemma XorCommutes(a: seq<byte>, b: seq<byte>)
    requires |a| == |b|
    ensures Xor(a, b) == Xor(b, a)
  {
    hide XorByte;
    forall i | 0 <= i < |a| ensures Xor(a, b)[i] == Xor(b, a)[i] {
      XorByteCommutes(a[i], b[i]);
    }
  }

  lemma XorPrefix(a: seq<byte>, b: seq<byte>)
    requires |a| <= |b|
    ensures Xor(a, b) == Xor(a, b[..|a|])
  {
    hide XorByte;
  }

  /** r more bytes that end within the block begun, or with it. */
  lemma WithinBlock(n: nat, r: nat)
    requires 0 < n % 16 && n % 16 + r <= 16
    ensures (n + r) % 16 == (n % 16 + r) % 16 && (n + r + 15) / 16 == (n + 15) / 16
  {
  }

  /** r bytes that begin a block. */
  lemma BeginsBlock(n: nat, r: nat)
    requires n % 16 == 0 && 0 < r < 16
    ensures (n + r) % 16 == r && (n + r + 15) / 16 == n / 16 + 1 && (n + 15) / 16 == n / 16
  {
  }

  class Stream {
    const key: B.Key
    const m: nat               // M, the size of the tag
    const mlen: nat
    var mleft: nat
    var i: nat
    const authctr: array<byte> // authenticator, then counter block
    const pad: array<byte>     // `out`: the current block of key stream

    ghost const e: Cipher
    ghost const nonce: seq<byte>
    ghost const start: Block   // the authenticator before the message
    ghost var msg: seq<byte>   // the plaintext so far

    ghost predicate Valid()
      reads this, authctr, pad
    {
      && authctr.Length == 32 && pad.Length == 16 && authctr != pad
      && B.Usable(key) && B.IsCipher(key, e) && TagSize(m)
      && mlen <= 16 * LAST_BLOCK && |msg| + mleft == mlen && |nonce| == 13
      && (i != DONE ==> i < 16 && Holds(e, start, nonce, msg, authctr[..16], authctr[16..], pad[..], i))
    }

    /** Valid, while a call is under way. */
    ghost predicate Core()
      reads this, authctr, pad
    {
      && authctr.Length == 32 && pad.Length == 16 && authctr != pad
      && B.Usable(key) && B.IsCipher(key, e) && TagSize(m)
      && mlen <= 16 * LAST_BLOCK && |msg| <= mlen && |nonce| == 13 && i < 16
      && Holds(e, start, nonce, msg, authctr[..16], authctr[16..], pad[..], i)
    }

    predicate Buffers(src: array<byte>, so: nat, dst: array<byte>, d: nat, n: nat) {
      && so + n <= src.Length && d + n <= dst.Length && (src == dst ==> so == d)
      && src != authctr && src != pad && dst != authctr && dst != pad
    }

    /** aes_ccm_init, with L = 2. */
    constructor (key: B.Key, ghost e: Cipher, m: nat, nonce: seq<byte>, ad: array<byte>, adlen: nat, mlen: nat)
      requires B.Usable(key) && B.IsCipher(key, e)
      requires TagSize(m) && |nonce| == 13 && adlen <= ad.Length && mlen <= 16 * LAST_BLOCK
      ensures Valid() && i == 0 && msg == [] && mleft == mlen
      ensures this.key == key && this.e == e && this.m == m && this.nonce == nonce && this.mlen == mlen
      ensures start == Start(e, m, nonce, ad[..adlen], mlen)
      ensures fresh(authctr) && fresh(pad)
    {
      this.key, this.e, this.m, this.nonce := key, e, m, nonce;
      this.mlen, this.mleft := mlen, mlen;
      this.i, this.msg := 0, [];
      this.start := Start(e, m, nonce, ad[..adlen], mlen);
      authctr, pad := new byte[32], new byte[16];
      new;
      hide B.IsCipher; hide CbcMac; hide Byte; hide CodeAadBlocks;
      FirstBlock(nonce, adlen != 0);
      assert ad[..adlen] != [] <==> adlen != 0;
      EncryptAuth();
      if adlen != 0 {
        InitAad(ad, adlen, authctr[..16]);
      }
      InitCounter(nonce);
      PartialWhole(e, start, []);
    }

    /** aes_ccm_inc; the counter never wraps, so the panic is out of reach. */
    method Inc(ghost b: nat)
      requires authctr.Length == 32 && |nonce| == 13 && b < LAST_BLOCK
      requires authctr[16..] == CounterBlock(nonce, b)
      modifies authctr
      ensures authctr[..16] == old(authctr[..16]) && authctr[16..] == CounterBlock(nonce, b + 1)
    {
      hide Byte;
      CounterBytes(b);
      assert authctr[16..][15] == Byte(b) && authctr[16..][14] == Byte(b / 256);
      authctr[31] := authctr[31] + 1;
      if authctr[31] == 0 {
        authctr[30] := authctr[30] + 1;
        if authctr[30] == 0 {
          assert false; // panic("AES-CCM overflow")
        }
      }
    }

    /** Mix bytes into the authenticator from position `at` on. */
    method MixIn(at: nat, src: array<byte>, so: nat, r: nat)
      requires authctr.Length == 32 && at + r <= 16 && so + r <= src.Length && src != authctr
      modifies authctr
      ensures authctr[..16] == Absorb(old(authctr[..16]), at, src[so..so + r])
      ensures authctr[16..] == old(authctr[16..])
    {
      hide Splice; hide Xor;
      ghost var a := authctr[..];
      XorInto(authctr, at, authctr, at, src, so, r);
      assert a[..16][at..at + r] == a[at..at + r];
      SpliceInFirst(a, 16, at, Xor(a[at..at + r], src[so..so + r]));
    }

    /** aes_enc of the authenticator, in place. */
    method EncryptAuth()
      requires authctr.Length == 32 && B.Usable(key) && B.IsCipher(key, e)
      modifies authctr
      ensures authctr[..16] == e(old(authctr[..16])) && authctr[16..] == old(authctr[16..])
    {
      hide Splice; hide B.IsCipher;
      ghost var a := authctr[..];
      B.Enc(key, e, authctr, 0, authctr, 0);
      SpliceInFirst(a, 16, 0, e(a[..16]));
      SpliceWhole(a[..16], e(a[..16]));
    }

    /** B_0, in the place of the authenticator. */
    method FirstBlock(nonce: seq<byte>, hasAad: bool)
      requires authctr.Length == 32 && |nonce| == 13 && TagSize(m)
      modifies authctr
      ensures authctr[..16] == B0(m, nonce, hasAad, mlen)
    {
      hide Byte;
      authctr[0] := Byte((if hasAad then 64 else 0) + 8 * ((m - 2) / 2) + 1);
      CopyNonce(1, nonce);
      authctr[14] := Byte(mlen / 256);
      authctr[15] := Byte(mlen);
    }

    /** A_0, in the place of the counter block. */
    method InitCounter(nonce: seq<byte>)
      requires authctr.Length == 32 && |nonce| == 13
      modifies authctr
      ensures authctr[..16] == old(authctr[..16]) && authctr[16..] == CounterBlock(nonce, 0)
    {
      authctr[16] := 1;
      CopyNonce(17, nonce);
      authctr[30], authctr[31] := 0, 0;
      assert Byte(0) == 0;
    }

    method CopyNonce(off: nat, nonce: seq<byte>)
      requires authctr.Length == 32 && |nonce| == 13 && off + 13 <= 32
      modifies authctr
      ensures authctr[..] == Splice(old(authctr[..]), off, nonce)
    {
      var j := 0;
      while j < 13
        invariant 0 <= j <= 13
        invariant authctr[..] == Splice(old(authctr[..]), off, nonce[..j])
      {
        authctr[off + j] := nonce[j];
        j := j + 1;
      }
      assert nonce[..13] == nonce;
    }

    /** The length of the additional data and as much of it as fits in the same block. */
    method AadFirst(ad: array<byte>, adlen: nat, ghost x: Block) returns (k: nat)
      requires authctr.Length == 32 && B.Usable(key) && B.IsCipher(key, e)
      requires 0 < adlen <= ad.Length && ad != authctr && authctr[..16] == x
      modifies authctr
      ensures k <= adlen && |CodeAadLength(adlen)| + k <= 16
      ensures var data := CodeAadLength(adlen) + ad[..k];
              if |data| < 16 then k == adlen && authctr[..16] == e(Partial(e, x, data))
              else authctr[..16] == Partial(e, x, data)
    {
      hide B.IsCipher; hide Partial; hide Absorb; hide CodeAadLength;
      var len := CodeAadLength(adlen);
      var lenBytes := new byte[|len|](j requires 0 <= j < |len| => len[j]);
      assert lenBytes[0..|len|] == len;
      EmptyPartial(e, x);
      MixIn(0, lenBytes, 0, |len|);
      PartialGrows(e, x, [], len);
      assert [] + len == len;
      k := if adlen <= 16 - |len| then adlen else 16 - |len|;
      MixIn(|len|, ad, 0, k);
      if |len| + k < 16 {
        PartialGrows(e, x, len, ad[0..k]);
      } else {
        PartialFills(e, x, len, ad[0..k]);
      }
      assert ad[0..k] == ad[..k];
      EncryptAuth();
    }

    /** The rest of the additional data: whole blocks, then the padded remainder. */
    method AadRest(ad: array<byte>, k: nat, adlen: nat, ghost x: Block, ghost sofar: seq<byte>)
      requires authctr.Length == 32 && B.Usable(key) && B.IsCipher(key, e)
      requires k <= adlen <= ad.Length && ad != authctr && |sofar| == 16 && authctr[..16] == Partial(e, x, sofar)
      modifies authctr
      ensures authctr[..16] == CbcMac(e, x, Pad16(sofar + ad[k..adlen]))
    {
      hide B.IsCipher; hide CbcMac; hide Partial; hide Absorb; hide Splice; hide Pad16;
      var rest := adlen - k;
      var w := rest - rest % 16;
      ghost var data := sofar + ad[k..k + w];
      if w != 0 {
        ghost var a := authctr[..];
        B.CbcMacUpdate1(key, e, ad, k, w, authctr);
        SpliceAt(a, 0, CbcMac(e, a[..16], ad[k..k + w]));
        assert authctr[..16] == authctr[..][0..16];
        PartialBlocks(e, x, sofar, ad[k..k + w]);
      } else {
        assert data == sofar;
      }
      ghost var tail := ad[k + w..k + w + rest % 16];
      assert data + tail == sofar + ad[k..adlen];
      PaddedMac(e, x, data + tail);
      if rest % 16 != 0 {
        MixIn(0, ad, k + w, rest % 16);
        PartialGrows(e, x, data, tail);
        EncryptAuth();
      } else {
        assert data + tail == data;
      }
    }

    /** The additional data. */
    method InitAad(ad: array<byte>, adlen: nat, ghost x: Block)
      requires authctr.Length == 32 && B.Usable(key) && B.IsCipher(key, e)
      requires 0 < adlen <= ad.Length && ad != authctr && authctr[..16] == x
      modifies authctr
      ensures authctr[..16] == CbcMac(e, x, CodeAadBlocks(ad[..adlen]))
    {
      hide B.IsCipher; hide CbcMac; hide Partial; hide CodeAadLength; hide Pad16;
      var k := AadFirst(ad, adlen, x);
      ghost var sofar := CodeAadLength(adlen) + ad[..k];
      assert sofar + ad[k..adlen] == CodeAadLength(adlen) + ad[..adlen];
      if |CodeAadLength(adlen)| + k == 16 {
        AadRest(ad, k, adlen, x, sofar);
      } else {
        assert sofar == CodeAadLength(adlen) + ad[..adlen];
        PaddedMac(e, x, sofar);
      }
    }

    /** Enc and Dec: t was mixed in behind i bytes of a block; encrypt the block when it is full. */
    method EndPartial(ghost t: seq<byte>, r: nat)
      requires authctr.Length == 32 && pad.Length == 16 && authctr != pad
      requires B.Usable(key) && B.IsCipher(key, e) && TagSize(m) && mlen <= 16 * LAST_BLOCK && |nonce| == 13
      requires |t| == r && 0 < i == |msg| % 16 && i + r <= 16 && |msg| + r <= mlen
      requires authctr[..16] == Absorb(Partial(e, start, msg), i, t)
      requires authctr[16..] == CounterBlock(nonce, (|msg| + 15) / 16) && pad[..] == e(authctr[16..])
      modifies this`i, this`msg, authctr
      ensures Core() && msg == old(msg) + t && i == (old(i) + r) % 16
    {
      hide Partial; hide CounterBlock; hide B.IsCipher; hide Absorb;
      WithinBlock(|msg|, r);
      i := i + r;
      if i == 16 {
        PartialFills(e, start, msg, t);
        EncryptAuth();
        i := 0;
      } else {
        PartialGrows(e, start, msg, t);
      }
      msg := msg + t;
    }

    /** Enc: finish a partial block that was already started. */
    method EncPartial(src: array<byte>, so: nat, dst: array<byte>, d: nat, r: nat)
      requires Core() && Buffers(src, so, dst, d, r) && 0 < i && i + r <= 16 && |msg| + r <= mlen
      modifies this`i, this`msg, authctr, dst
      ensures Core() && msg == old(msg) + old(src[so..so + r]) && i == (old(i) + r) % 16
      ensures dst[..] == Splice(old(dst[..]), d, Crypt(e, nonce, |old(msg)|, old(src[so..so + r])))
    {
      hide Splice; hide Xor; hide Crypt; hide Partial; hide CounterBlock; hide B.IsCipher; hide Absorb;
      ghost var t := src[so..so + r];
      MixIn(i, src, so, r);
      XorInto(dst, d, pad, i, src, so, r);
      CryptWithin(e, nonce, |msg|, t, pad[..]);
      assert pad[..][i..i + r] == pad[i..i + r];
      EndPartial(t, r);
    }

    /** Enc: 16 bytes at a time. */
    method EncBlocks(src: array<byte>, so: nat, dst: array<byte>, d: nat, n: nat)
      requires Core() && Buffers(src, so, dst, d, n) && i == 0 && 0 < n && n % 16 == 0 && |msg| + n <= mlen
      modifies this`msg, authctr, dst
      ensures Core() && msg == old(msg) + old(src[so..so + n])
      ensures dst[..] == Splice(old(dst[..]), d, Crypt(e, nonce, |old(msg)|, old(src[so..so + n])))
    {
      hide Splice; hide Xor; hide Crypt; hide Partial; hide B.IsCipher; hide CbcMac; hide B.CtrBlocks; hide B.Advance;
      hide CounterBlock; hide B.Counter32; hide CounterWord; hide CounterPrefix; hide B.Be32Bytes;
      ghost var data, b := src[so..so + n], |msg| / 16;
      CounterHalves(authctr[16..], nonce, b);
      assert authctr[16..28] == authctr[16..][..12] && authctr[28..] == authctr[16..][12..];
      B.CcmEnc1(key, e, src, so, dst, d, n, authctr, CounterWord(nonce, b));
      CtrIsCrypt(e, nonce, b, data);
      PartialBlocks(e, start, msg, data);
      CounterAdvance(nonce, b, n / 16);
      CounterSplit(nonce, b + n / 16);
      msg := msg + data;
    }

    /** Enc: start a partial block. */
    method EncTail(src: array<byte>, so: nat, dst: array<byte>, d: nat, r: nat)
      requires Core() && Buffers(src, so, dst, d, r) && i == 0 && 0 < r < 16 && |msg| + r <= mlen
      modifies this`i, this`msg, authctr, pad, dst
      ensures Core() && msg == old(msg) + old(src[so..so + r])
      ensures dst[..] == Splice(old(dst[..]), d, Crypt(e, nonce, |old(msg)|, old(src[so..so + r])))
    {
      hide Splice; hide Xor; hide Crypt; hide Partial; hide B.IsCipher; hide CounterBlock; hide Absorb;
      BeginsBlock(|msg|, r);
      ghost var t, b := src[so..so + r], |msg| / 16;
      MixIn(0, src, so, r);
      Inc(b);
      NextPad();
      XorInto(dst, d, pad, 0, src, so, r);
      CryptWithin(e, nonce, |msg|, t, pad[..]);
      assert pad[..][0..r] == pad[0..r];
      PartialGrows(e, start, msg, t);
      i := r;
      msg := msg + t;
    }

    /** aes_enc of the counter block into `out`. */
    method NextPad()
      requires authctr.Length == 32 && pad.Length == 16 && authctr != pad && B.Usable(key) && B.IsCipher(key, e)
      modifies pad
      ensures pad[..] == e(authctr[16..])
    {
      hide Splice; hide B.IsCipher;
      ghost var p, c := pad[..], authctr[16..];
      B.Enc(key, e, authctr, 16, pad, 0);
      assert authctr[16..32] == c;
      SpliceWhole(p, e(c));
    }

    /** Enc, from a block boundary on. */
    method EncAligned(src: array<byte>, so: nat, dst: array<byte>, d: nat, n: nat)
      requires Core() && Buffers(src, so, dst, d, n) && i == 0 && |msg| + n <= mlen
      modifies this`i, this`msg, authctr, pad, dst
      ensures Core() && msg == old(msg) + old(src[so..so + n])
      ensures dst[..] == Splice(old(dst[..]), d, Crypt(e, nonce, |old(msg)|, old(src[so..so + n])))
    {
      hide Splice; hide Crypt; hide B.IsCipher; hide Holds;
      ghost var msg0, src0, dst0 := msg, src[..], dst[..];
      var w := n - n % 16;
      if w != 0 {
        EncBlocks(src, so, dst, d, w);
      } else {
        NoPiece(e, nonce, src0, so, dst0, d, msg0);
      }
      if n - w != 0 {
        NextPiece(e, nonce, src[..], src0, so, dst0, d, msg0, w, n - w);
        EncTail(src, so + w, dst, d + w, n - w);
      }
    }

    /** aes_ccm_enc. */
    method Enc(src: array<byte>, so: nat, dst: array<byte>, d: nat, n: nat)
      requires Valid() && i != DONE && n <= mleft && Buffers(src, so, dst, d, n)
      modifies this`i, this`msg, this`mleft, authctr, pad, dst
      ensures Valid() && i != DONE && mleft == old(mleft) - n
      ensures msg == old(msg) + old(src[so..so + n])
      ensures dst[..] == Splice(old(dst[..]), d, Crypt(e, nonce, |old(msg)|, old(src[so..so + n])))
    {
      hide Splice; hide Crypt; hide B.IsCipher; hide Holds;
      ghost var msg0, src0, dst0 := msg, src[..], dst[..];
      mleft := mleft - n;
      var r := 0;
      if i != 0 {
        r := if 16 - i <= n then 16 - i else n;
        EncPartial(src, so, dst, d, r);
        if i != 0 {
          assert r == n;
          return;
        }
      } else {
        NoPiece(e, nonce, src0, so, dst0, d, msg0);
      }
      NextPiece(e, nonce, src[..], src0, so, dst0, d, msg0, r, n - r);
      EncAligned(src, so + r, dst, d + r, n - r);
    }

    /** Dec: finish a partial block that was already started. */
    method DecPartial(src: array<byte>, so: nat, dst: array<byte>, d: nat, r: nat)
      requires Core() && Buffers(src, so, dst, d, r) && 0 < i && i + r <= 16 && |msg| + r <= mlen
      modifies this`i, this`msg, authctr, dst
      ensures Core() && msg == old(msg) + Crypt(e, nonce, |old(msg)|, old(src[so..so + r])) && i == (old(i) + r) % 16
      ensures dst[..] == Splice(old(dst[..]), d, Crypt(e, nonce, |old(msg)|, old(src[so..so + r])))
    {
      hide Splice; hide Xor; hide Crypt; hide Partial; hide CounterBlock; hide B.IsCipher; hide Absorb;
      ghost var c, dst0 := src[so..so + r], dst[..];
      ghost var t := Crypt(e, nonce, |msg|, c);
      XorInto(dst, d, pad, i, src, so, r);
      CryptWithin(e, nonce, |msg|, c, pad[..]);
      assert pad[..][i..i + r] == pad[i..i + r];
      SpliceAt(dst0, d, t);
      assert dst[d..d + r] == dst[..][d..d + r];
      MixIn(i, dst, d, r);
      EndPartial(t, r);
    }

    /** Dec: 16 bytes at a time. */
    method DecBlocks(src: array<byte>, so: nat, dst: array<byte>, d: nat, n: nat)
      requires Core() && Buffers(src, so, dst, d, n) && i == 0 && 0 < n && n % 16 == 0 && |msg| + n <= mlen
      modifies this`msg, authctr, dst
      ensures Core() && msg == old(msg) + Crypt(e, nonce, |old(msg)|, old(src[so..so + n]))
      ensures dst[..] == Splice(old(dst[..]), d, Crypt(e, nonce, |old(msg)|, old(src[so..so + n])))
    {
      hide Splice; hide Xor; hide Crypt; hide Partial; hide B.IsCipher; hide CbcMac; hide B.CtrBlocks; hide B.Advance;
      hide CounterBlock; hide B.Counter32; hide CounterWord; hide CounterPrefix; hide B.Be32Bytes;
      ghost var data, b := src[so..so + n], |msg| / 16;
      CounterHalves(authctr[16..], nonce, b);
      assert authctr[16..28] == authctr[16..][..12] && authctr[28..] == authctr[16..][12..];
      B.CcmDec1(key, e, src, so, dst, d, n, authctr, CounterWord(nonce, b));
      CtrIsCrypt(e, nonce, b, data);
      PartialBlocks(e, start, msg, Crypt(e, nonce, |msg|, data));
      CounterAdvance(nonce, b, n / 16);
      CounterSplit(nonce, b + n / 16);
      msg := msg + Crypt(e, nonce, |msg|, data);
    }

    /** Dec: start a partial block. */
    method DecTail(src: array<byte>, so: nat, dst: array<byte>, d: nat, r: nat)
      requires Core() && Buffers(src, so, dst, d, r) && i == 0 && 0 < r < 16 && |msg| + r <= mlen
      modifies this`i, this`msg, authctr, pad, dst
      ensures Core() && msg == old(msg) + Crypt(e, nonce, |old(msg)|, old(src[so..so + r]))
      ensures dst[..] == Splice(old(dst[..]), d, Crypt(e, nonce, |old(msg)|, old(src[so..so + r])))
    {
      hide Splice; hide Xor; hide Crypt; hide Partial; hide B.IsCipher; hide CounterBlock; hide Absorb;
      BeginsBlock(|msg|, r);
      ghost var c, b, dst0 := src[so..so + r], |msg| / 16, dst[..];
      ghost var t := Crypt(e, nonce, |msg|, c);
      Inc(b);
      NextPad();
      XorInto(dst, d, pad, 0, src, so, r);
      CryptWithin(e, nonce, |msg|, c, pad[..]);
      assert pad[..][0..r] == pad[0..r];
      SpliceAt(dst0, d, t);
      assert dst[d..d + r] == dst[..][d..d + r];
      MixIn(0, dst, d, r);
      PartialGrows(e, start, msg, t);
      i := r;
      msg := msg + t;
    }

    /** Dec, from a block boundary on. */
    method DecAligned(src: array<byte>, so: nat, dst: array<byte>, d: nat, n: nat)
      requires Core() && Buffers(src, so, dst, d, n) && i == 0 && |msg| + n <= mlen
      modifies this`i, this`msg, authctr, pad, dst
      ensures Core() && msg == old(msg) + Crypt(e, nonce, |old(msg)|, old(src[so..so + n]))
      ensures dst[..] == Splice(old(dst[..]), d, Crypt(e, nonce, |old(msg)|, old(src[so..so + n])))
    {
      hide Splice; hide Crypt; hide B.IsCipher; hide Holds;
      ghost var msg0, src0, dst0 := msg, src[..], dst[..];
      var w := n - n % 16;
      if w != 0 {
        DecBlocks(src, so, dst, d, w);
      } else {
        NoPiece(e, nonce, src0, so, dst0, d, msg0);
      }
      if n - w != 0 {
        NextPiece(e, nonce, src[..], src0, so, dst0, d, msg0, w, n - w);
        DecTail(src, so + w, dst, d + w, n - w);
      }
    }

    /** aes_ccm_dec. */
    method Dec(src: array<byte>, so: nat, dst: array<byte>, d: nat, n: nat)
      requires Valid() && i != DONE && n <= mleft && Buffers(src, so, dst, d, n)
      modifies this`i, this`msg, this`mleft, authctr, pad, dst
      ensures Valid() && i != DONE && mleft == old(mleft) - n
      ensures msg == old(msg) + Crypt(e, nonce, |old(msg)|, old(src[so..so + n]))
      ensures dst[..] == Splice(old(dst[..]), d, Crypt(e, nonce, |old(msg)|, old(src[so..so + n])))
    {
      hide Splice; hide Crypt; hide B.IsCipher; hide Holds;
      ghost var msg0, src0, dst0 := msg, src[..], dst[..];
      mleft := mleft - n;
      var r := 0;
      if i != 0 {
        r := if 16 - i <= n then 16 - i else n;
        DecPartial(src, so, dst, d, r);
        if i != 0 {
          assert r == n;
          return;
        }
      } else {
        NoPiece(e, nonce, src0, so, dst0, d, msg0);
      }
      NextPiece(e, nonce, src[..], src0, so, dst0, d, msg0, r, n - r);
      DecAligned(src, so + r, dst, d + r, n - r);
    }

    /** aes_ccm_tag. */
    method Tag(tag: array<byte>)
      requires Valid() && i != DONE && mleft == 0 && m <= tag.Length && tag != authctr && tag != pad
      modifies this`i, authctr, pad, tag
      ensures Valid() && i == DONE
      ensures tag[..] == Splice(old(tag[..]), 0, TagAfter(e, m, start, nonce, msg))
    {
      hide Splice; hide Xor; hide B.IsCipher; hide Partial; hide CbcMac; hide CounterBlock;
      PaddedMac(e, start, msg);
      if i != 0 {
        EncryptAuth();
      }
      ghost var a := authctr[..16];
      ZeroCtr((|msg| + 15) / 16);
      NextPad();
      XorInto(tag, 0, pad, 0, authctr, 0, m);
      assert authctr[0..m] == a[..m] && pad[0..m] == pad[..][..m];
      XorCommutes(a[..m], pad[..][..m]);
      XorPrefix(a[..m], pad[..]);
      i := DONE;
    }

    /** aes_ccm_zero_ctr. */
    method ZeroCtr(ghost b: nat)
      requires authctr.Length == 32 && |nonce| == 13 && authctr[16..] == CounterBlock(nonce, b)
      modifies authctr
      ensures authctr[..16] == old(authctr[..16]) && authctr[16..] == CounterBlock(nonce, 0)
    {
      authctr[30], authctr[31] := 0, 0;
      assert Byte(0) == 0;
    }

    /** aes_ccm_verify. */
    method Verify(tag: seq<byte>) returns (ok: bool)
      requires Valid() && i != DONE && mleft == 0 && m <= |tag|
      modifies this`i, authctr, pad
      ensures Valid() && i == DONE
      ensures ok <==> tag[..m] == TagAfter(e, m, start, nonce, msg)
    {
      hide Splice; hide TagAfter; hide B.IsCipher; hide Holds;
      var expected := new byte[16];
      ghost var before := expected[..];
      Tag(expected);
      SpliceAt(before, 0, TagAfter(e, m, start, nonce, msg));
      ok := tag[..m] == expected[..m];
      assert expected[..m] == expected[..][0..m];
    }
  }

  lemma EmptyPartial(e: Cipher, x: Block)
    ensures Partial(e, x, []) == x
  {
    PartialWhole(e, x, []);
  }

  lemma NoPiece(e: Cipher, nonce: seq<byte>, src: seq<byte>, so: nat, dst: seq<byte>, d: nat, msg: seq<byte>)
    requires |nonce| == 13 && so <= |src| && d <= |dst|
    ensures msg + src[so..so + 0] == msg && msg + Crypt(e, nonce, |msg|, src[so..so + 0]) == msg
    ensures Splice(dst, d, Crypt(e, nonce, |msg|, src[so..so + 0])) == dst
  {
  }

  /** After r bytes were handled, handling the next w is handling r + w. */
  lemma NextPiece(e: Cipher, nonce: seq<byte>, cur: seq<byte>, src: seq<byte>, so: nat, dst: seq<byte>, d: nat,
                  msg: seq<byte>, r: nat, w: nat)
    requires |nonce| == 13 && so + (r + w) <= |src| && d + (r + w) <= |dst|
    requires cur == src || cur == Splice(src, so, Crypt(e, nonce, |msg|, src[so..so + r]))
    ensures |cur| == |src| && cur[so + r..so + r + w] == src[so + r..so + r + w]
    ensures msg + src[so..so + r] + src[so + r..so + r + w] == msg + src[so..so + (r + w)]
    ensures msg + Crypt(e, nonce, |msg|, src[so..so + r]) + Crypt(e, nonce, |msg| + r, src[so + r..so + r + w])
         == msg + Crypt(e, nonce, |msg|, src[so..so + (r + w)])
    ensures Splice(Splice(dst, d, Crypt(e, nonce, |msg|, src[so..so + r])), d + r,
                   Crypt(e, nonce, |msg| + r, src[so + r..so + r + w]))
         == Splice(dst, d, Crypt(e, nonce, |msg|, src[so..so + (r + w)]))
  {
    hide Crypt;
    var a, b := src[so..so + r], src[so + r..so + r + w];
    assert a + b == src[so..so + (r + w)];
    CryptConcat(e, nonce, |msg|, a, b);
    SpliceNext(dst, d, Crypt(e, nonce, |msg|, a), Crypt(e, nonce, |msg| + r, b));
    SpliceAfter(src, so, Crypt(e, nonce, |msg|, a), w);
  }
}
