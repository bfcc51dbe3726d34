/** AES-CCM over buffer chains: aes_ccm_mbuf.c. */
module CcmMbuf {
  import opened Blocks
  import opened Ccm
  import opened Mbufs
  import S = CcmStream
  import B = Bear

  /** The stream works outside the chain. */
  ghost predicate Apart(c: S.Stream, ms: seq<Mbuf>) {
    c.authctr !in Storage(ms) && c.pad !in Storage(ms)
  }

  lemma NonceSize(c: S.Stream)
    requires c.Valid()
    ensures |c.nonce| == 13
  {
  }

  /** One call of aes_ccm_enc, in place on the storage of one segment; the others keep their bytes. */
  method EncStorage(c: S.Stream, ms: seq<Mbuf>, k: nat, p: nat, n: nat)
    requires c.Valid() && c.i != S.DONE && Chain(ms) && Apart(c, ms) && k < |ms| && p + n <= ms[k].data.Length
    requires n <= c.mleft
    modifies c`i, c`msg, c`mleft, c.authctr, c.pad, ms[k].data
    ensures c.Valid() && c.i != S.DONE && c.mleft == old(c.mleft) - n
    ensures var piece := old(ms[k].data[p..p + n]);
            && c.msg == old(c.msg) + piece
            && ms[k].data[..] == Splice(old(ms[k].data[..]), p, Crypt(c.e, c.nonce, |old(c.msg)|, piece))
    ensures |Segs(ms)| == |ms| && forall i :: 0 <= i < |ms| && i != k ==> ms[i].Bytes() == old(Segs(ms))[i]
  {
    hide Splice; hide Crypt; hide B.IsCipher; hide S.Holds; hide Segs;
    assert forall i :: 0 <= i < |ms| ==> ms[i].data in Storage(ms);
    c.Enc(ms[k].data, p, ms[k].data, p, n);
  }

  /** The same, as the chain sees it. */
  method EncSegment(c: S.Stream, ms: seq<Mbuf>, k: nat, o: nat, n: nat)
    requires c.Valid() && c.i != S.DONE && Chain(ms) && Apart(c, ms)
    requires k < |ms| && o + n <= ms[k].len && n <= c.mleft
    modifies c`i, c`msg, c`mleft, c.authctr, c.pad, ms[k].data
    ensures c.Valid() && c.i != S.DONE && c.mleft == old(c.mleft) - n
    ensures Before(ms, k) + o + n <= |old(Contents(ms))|
    ensures var at := Before(ms, k) + o;
            var piece := old(Contents(ms))[at..at + n];
            && c.msg == old(c.msg) + piece
            && Contents(ms) == Splice(old(Contents(ms)), at, Crypt(c.e, c.nonce, |old(c.msg)|, piece))
  {
    hide Splice; hide Crypt; hide B.IsCipher; hide S.Stream.Valid; hide Segs; hide Flat; hide Before;
    NonceSize(c);
    BytesWithin(ms, k, o, n);
    var p := ms[k].off + o;
    ghost var f, ss, d, x := Contents(ms), Segs(ms), ms[k].data[..], ms[k].data[p..p + n];
    ghost var r := Crypt(c.e, c.nonce, |c.msg|, x);
    assert ss[k] == d[ms[k].off..ms[k].off + ms[k].len];
    EncStorage(c, ms, k, p, n);
    WroteData(ms, ss, k, o, r, d);
    assert Contents(ms) == Splice(f, Before(ms, k) + o, r);
  }

  /** One turn of the loop: r bytes were encrypted, and n more are. */
  method EncNext(c: S.Stream, ms: seq<Mbuf>, k: nat, o: nat, n: nat, ghost f: seq<byte>, ghost off: nat,
                 ghost msg0: seq<byte>, ghost r: nat)
    requires c.Valid() && c.i != S.DONE && Chain(ms) && Apart(c, ms) && k < |ms| && o + n <= ms[k].len && n <= c.mleft
    requires off + r + n <= |f| && Before(ms, k) + o == off + r && c.msg == msg0 + f[off..off + r]
    requires Contents(ms) == Splice(f, off, Crypt(c.e, c.nonce, |msg0|, f[off..off + r]))
    modifies c`i, c`msg, c`mleft, c.authctr, c.pad, ms[k].data
    ensures c.Valid() && c.i != S.DONE && c.mleft == old(c.mleft) - n && c.msg == msg0 + f[off..off + (r + n)]
    ensures Contents(ms) == Splice(f, off, Crypt(c.e, c.nonce, |msg0|, f[off..off + (r + n)]))
  {
    hide Splice; hide Crypt; hide B.IsCipher; hide S.Stream.Valid; hide Contents; hide Segs; hide Before;
    NonceSize(c);
    S.NextPiece(c.e, c.nonce, Contents(ms), f, off, f, off, msg0, r, n);
    EncSegment(c, ms, k, o, n);
  }

  /** The loop of aes_ccm_enc_mbuf: encrypt from byte `off` on. */
  method EncLoop(c: S.Stream, ms: seq<Mbuf>, k0: nat, o0: nat, off: nat, len: nat)
    requires c.Valid() && c.i != S.DONE && c.mleft == len && Chain(ms) && Apart(c, ms)
    requires off + len <= |Contents(ms)| && k0 < |ms| && o0 < ms[k0].len && Before(ms, k0) + o0 == off
    modifies c`i, c`msg, c`mleft, c.authctr, c.pad, Storage(ms)
    ensures c.Valid() && c.i != S.DONE && c.mleft == 0
    ensures var plain := old(Contents(ms))[off..off + len];
            && c.msg == old(c.msg) + plain
            && Contents(ms) == Splice(old(Contents(ms)), off, Crypt(c.e, c.nonce, |old(c.msg)|, plain))
  {
    hide Splice; hide Crypt; hide B.IsCipher; hide S.Stream.Valid; hide Contents; hide Segs; hide Before;
    NonceSize(c);
    ghost var f, msg0 := Contents(ms), c.msg;
    var k: nat, o: nat, left: nat := k0, o0, len;
    S.NoPiece(c.e, c.nonce, f, off, f, off, msg0);
    while left > 0
      invariant c.Valid() && c.i != S.DONE && c.mleft == left <= len
      invariant k <= |ms| && (left > 0 ==> k < |ms| && o <= ms[k].len && Before(ms, k) + o == off + (len - left))
      invariant c.msg == msg0 + f[off..off + (len - left)]
      invariant Contents(ms) == Splice(f, off, Crypt(c.e, c.nonce, |msg0|, f[off..off + (len - left)]))
      decreases left, |ms| - k
    {
      var seglen := if ms[k].len - o <= left then ms[k].len - o else left;
      BytesWithin(ms, k, o, seglen);
      EncNext(c, ms, k, o, seglen, f, off, msg0, len - left);
      left := left - seglen;
      k, o := k + 1, 0;
      BeforeAll(ms);
    }
  }

  /** aes_ccm_enc_mbuf. */
  method EncMbuf(c: S.Stream, ms: seq<Mbuf>, off: nat, len: nat, tag: array<byte>)
    requires c.Valid() && c.i != S.DONE && c.mleft == len && Chain(ms) && Apart(c, ms)
    requires off < |Contents(ms)| && off + len <= |Contents(ms)|
    requires c.m <= tag.Length && tag != c.authctr && tag != c.pad && tag !in Storage(ms)
    modifies c`i, c`msg, c`mleft, c.authctr, c.pad, Storage(ms), tag
    ensures c.Valid()
    ensures var plain := old(Contents(ms))[off..off + len];
            && c.msg == old(c.msg) + plain
            && Contents(ms) == Splice(old(Contents(ms)), off, Crypt(c.e, c.nonce, |old(c.msg)|, plain))
    ensures tag[..] == Splice(old(tag[..]), 0, S.TagAfter(c.e, c.m, c.start, c.nonce, c.msg))
  {
    hide Splice; hide Crypt; hide B.IsCipher; hide S.Holds; hide Contents; hide Segs; hide S.TagAfter; hide Before;
    var k, o := Find(ms, off);
    EncLoop(c, ms, k, o, off, len);
    c.Tag(tag);
  }

  /** One call of aes_ccm_dec, in place on the storage of one segment; the others keep their bytes. */
  method DecStorage(c: S.Stream, ms: seq<Mbuf>, k: nat, p: nat, n: nat)
    requires c.Valid() && c.i != S.DONE && Chain(ms) && Apart(c, ms) && k < |ms| && p + n <= ms[k].data.Length
    requires n <= c.mleft
    modifies c`i, c`msg, c`mleft, c.authctr, c.pad, ms[k].data
    ensures c.Valid() && c.i != S.DONE && c.mleft == old(c.mleft) - n
    ensures var plain := Crypt(c.e, c.nonce, |old(c.msg)|, old(ms[k].data[p..p + n]));
            c.msg == old(c.msg) + plain && ms[k].data[..] == Splice(old(ms[k].data[..]), p, plain)
    ensures |Segs(ms)| == |ms| && forall i :: 0 <= i < |ms| && i != k ==> ms[i].Bytes() == old(Segs(ms))[i]
  {
    hide Splice; hide Crypt; hide B.IsCipher; hide S.Holds; hide Segs;
    assert forall i :: 0 <= i < |ms| ==> ms[i].data in Storage(ms);
    c.Dec(ms[k].data, p, ms[k].data, p, n);
  }

  /** The same, as the chain sees it. */
  method DecSegment(c: S.Stream, ms: seq<Mbuf>, k: nat, o: nat, n: nat)
    requires c.Valid() && c.i != S.DONE && Chain(ms) && Apart(c, ms)
    requires k < |ms| && o + n <= ms[k].len && n <= c.mleft
    modifies c`i, c`msg, c`mleft, c.authctr, c.pad, ms[k].data
    ensures c.Valid() && c.i != S.DONE && c.mleft == old(c.mleft) - n
    ensures Before(ms, k) + o + n <= |old(Contents(ms))|
    ensures var at := Before(ms, k) + o;
            var plain := Crypt(c.e, c.nonce, |old(c.msg)|, old(Contents(ms))[at..at + n]);
            c.msg == old(c.msg) + plain && Contents(ms) == Splice(old(Contents(ms)), at, plain)
  {
    hide Splice; hide Crypt; hide B.IsCipher; hide S.Stream.Valid; hide Segs; hide Flat; hide Before;
    NonceSize(c);
    BytesWithin(ms, k, o, n);
    var p := ms[k].off + o;
    ghost var f, ss, d, x := Contents(ms), Segs(ms), ms[k].data[..], ms[k].data[p..p + n];
    ghost var r := Crypt(c.e, c.nonce, |c.msg|, x);
    assert ss[k] == d[ms[k].off..ms[k].off + ms[k].len];
    DecStorage(c, ms, k, p, n);
    WroteData(ms, ss, k, o, r, d);
    assert Contents(ms) == Splice(f, Before(ms, k) + o, r);
  }

  /** One turn of the loop: r bytes were decrypted, and n more are. */
  method DecNext(c: S.Stream, ms: seq<Mbuf>, k: nat, o: nat, n: nat, ghost f: seq<byte>, ghost off: nat,
                 ghost msg0: seq<byte>, ghost r: nat)
    requires c.Valid() && c.i != S.DONE && Chain(ms) && Apart(c, ms) && k < |ms| && o + n <= ms[k].len && n <= c.mleft
    requires off + r + n <= |f| && Before(ms, k) + o == off + r
    requires c.msg == msg0 + Crypt(c.e, c.nonce, |msg0|, f[off..off + r])
    requires Contents(ms) == Splice(f, off, Crypt(c.e, c.nonce, |msg0|, f[off..off + r]))
    modifies c`i, c`msg, c`mleft, c.authctr, c.pad, ms[k].data
    ensures c.Valid() && c.i != S.DONE && c.mleft == old(c.mleft) - n
    ensures c.msg == msg0 + Crypt(c.e, c.nonce, |msg0|, f[off..off + (r + n)])
    ensures Contents(ms) == Splice(f, off, Crypt(c.e, c.nonce, |msg0|, f[off..off + (r + n)]))
  {
    hide Splice; hide Crypt; hide B.IsCipher; hide S.Stream.Valid; hide Contents; hide Segs; hide Before;
    NonceSize(c);
    S.NextPiece(c.e, c.nonce, Contents(ms), f, off, f, off, msg0, r, n);
    DecSegment(c, ms, k, o, n);
  }

  /** The first loop of aes_ccm_dec_mbuf: decrypt from byte `off` on. */
  method DecLoop(c: S.Stream, ms: seq<Mbuf>, k0: nat, o0: nat, off: nat, len: nat)
    requires c.Valid() && c.i != S.DONE && c.mleft == len && Chain(ms) && Apart(c, ms)
    requires off + len <= |Contents(ms)| && k0 < |ms| && o0 < ms[k0].len && Before(ms, k0) + o0 == off
    modifies c`i, c`msg, c`mleft, c.authctr, c.pad, Storage(ms)
    ensures c.Valid() && c.i != S.DONE && c.mleft == 0
    ensures var plain := Crypt(c.e, c.nonce, |old(c.msg)|, old(Contents(ms))[off..off + len]);
            c.msg == old(c.msg) + plain && Contents(ms) == Splice(old(Contents(ms)), off, plain)
  {
    hide Splice; hide Crypt; hide B.IsCipher; hide S.Stream.Valid; hide Contents; hide Segs; hide Before;
    NonceSize(c);
    ghost var f, msg0 := Contents(ms), c.msg;
    var k: nat, o: nat, left: nat := k0, o0, len;
    S.NoPiece(c.e, c.nonce, f, off, f, off, msg0);
    while left > 0
      invariant c.Valid() && c.i != S.DONE && c.mleft == left <= len
      invariant k <= |ms| && (left > 0 ==> k < |ms| && o <= ms[k].len && Before(ms, k) + o == off + (len - left))
      invariant c.msg == msg0 + Crypt(c.e, c.nonce, |msg0|, f[off..off + (len - left)])
      invariant Contents(ms) == Splice(f, off, Crypt(c.e, c.nonce, |msg0|, f[off..off + (len - left)]))
      decreases left, |ms| - k
    {
      var seglen := if ms[k].len - o <= left then ms[k].len - o else left;
      BytesWithin(ms, k, o, seglen);
      DecNext(c, ms, k, o, seglen, f, off, msg0, len - left);
      left := left - seglen;
      k, o := k + 1, 0;
      BeforeAll(ms);
    }
  }

  /** memset of one segment. */
  method ZeroSegment(ms: seq<Mbuf>, k: nat, o: nat, n: nat)
    requires Chain(ms) && k < |ms| && o + n <= ms[k].len
    modifies ms[k].data
    ensures Before(ms, k) + o + n <= |old(Contents(ms))|
    ensures Contents(ms) == Splice(old(Contents(ms)), Before(ms, k) + o, Zeros(n))
  {
    hide Splice; hide Segs; hide Flat; hide Before;
    BytesWithin(ms, k, o, n);
    var p := ms[k].off + o;
    ghost var ss, d := Segs(ms), ms[k].data[..];
    assert ss[k] == d[ms[k].off..ms[k].off + ms[k].len];
    Memset(ms[k].data, p, n);
    WroteData(ms, ss, k, o, Zeros(n), d);
  }

  method Memset(a: array<byte>, p: nat, n: nat)
    requires p + n <= a.Length
    modifies a
    ensures a[..] == Splice(old(a[..]), p, Zeros(n))
  {
    for j := 0 to n
      invariant a[..] == Splice(old(a[..]), p, Zeros(j))
    {
      a[p + j] := 0;
    }
  }

  /** The second loop of aes_ccm_dec_mbuf: clear the message. */
  method ZeroLoop(ms: seq<Mbuf>, k0: nat, o0: nat, off: nat, len: nat)
    requires Chain(ms) && off + len <= |Contents(ms)| && k0 < |ms| && o0 < ms[k0].len && Before(ms, k0) + o0 == off
    modifies Storage(ms)
    ensures Contents(ms) == Splice(old(Contents(ms)), off, Zeros(len))
  {
    hide Splice; hide Contents; hide Segs; hide Before;
    ghost var f := Contents(ms);
    var k: nat, o: nat, left: nat := k0, o0, len;
    SpliceEmpty(f, off);
    assert Zeros(0) == [];
    while left > 0
      invariant left <= len && |Contents(ms)| == |f|
      invariant k <= |ms| && (left > 0 ==> k < |ms| && o <= ms[k].len && Before(ms, k) + o == off + (len - left))
      invariant Contents(ms) == Splice(f, off, Zeros(len - left))
      decreases left, |ms| - k
    {
      var seglen := if ms[k].len - o <= left then ms[k].len - o else left;
      BytesWithin(ms, k, o, seglen);
      ZeroSegment(ms, k, o, seglen);
      SpliceNext(f, off, Zeros(len - left), Zeros(seglen));
      assert Zeros(len - left) + Zeros(seglen) == Zeros(len - left + seglen);
      left := left - seglen;
      k, o := k + 1, 0;
      BeforeAll(ms);
    }
  }

  lemma SpliceOver(s: seq<byte>, off: nat, a: seq<byte>, b: seq<byte>)
    requires off + |a| <= |s| && |a| == |b|
    ensures Splice(Splice(s, off, a), off, b) == Splice(s, off, b)
  {
  }

  /** aes_ccm_dec_mbuf: nothing of the message is left when the tag is wrong. */
  method DecMbuf(c: S.Stream, ms: seq<Mbuf>, off: nat, len: nat, tag: seq<byte>) returns (ok: bool)
    requires c.Valid() && c.i != S.DONE && c.mleft == len && Chain(ms) && Apart(c, ms)
    requires off < |Contents(ms)| && off + len <= |Contents(ms)| && c.m <= |tag|
    modifies c`i, c`msg, c`mleft, c.authctr, c.pad, Storage(ms)
    ensures c.Valid()
    ensures var plain := Crypt(c.e, c.nonce, |old(c.msg)|, old(Contents(ms))[off..off + len]);
            && (ok <==> tag[..c.m] == S.TagAfter(c.e, c.m, c.start, c.nonce, old(c.msg) + plain))
            && Contents(ms) == Splice(old(Contents(ms)), off, if ok then plain else Zeros(len))
  {
    hide Splice; hide Crypt; hide B.IsCipher; hide S.Holds; hide Contents; hide Segs; hide S.TagAfter; hide Before;
    ghost var f, plain := Contents(ms), Crypt(c.e, c.nonce, |c.msg|, Contents(ms)[off..off + len]);
    var k, o := Find(ms, off);
    DecLoop(c, ms, k, o, off, len);
    ok := c.Verify(tag);
    if !ok {
      ZeroLoop(ms, k, o, off, len);
      SpliceOver(f, off, plain, Zeros(len));
    }
  }
}
