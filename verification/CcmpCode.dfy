/** CCMP on packets: ieee80211_crypto_ccmp.c. */
module CcmpCode {
  import opened Blocks
  import opened Ccm
  import opened CcmState
  import opened CcmRfc
  import opened Ccmp
  import opened Mbufs
  import opened Packets
  import S = CcmStream
  import M = CcmMbuf
  import B = Bear
  import L = LittleEndian

  /** The header decides its own length. */
  lemma SameHdrSpace(f: seq<byte>, h: seq<byte>, pad: bool)
    requires |f| >= 24 && |h| >= 24 && h[0] == f[0] && h[1] == f[1]
    ensures HdrSpace(h, pad) == HdrSpace(f, pad) && HdrSize(h) == HdrSize(f)
  {
  }

  lemma SpliceEnd(s: seq<byte>, off: nat, b: seq<byte>)
    requires off + |b| == |s|
    ensures Splice(s, off, b) == s[..off] + b
  {
  }

  lemma ReadBound(iv: seq<byte>)
    requires |iv| == HEADER
    ensures Read6(iv) < PN_MOD
  {
    hide L.LeValue;
    L.ValueBound(iv[..2] + iv[4..]);
    assert L.Pow256(6) == PN_MOD;
  }

  class CcmpKey {
    const key: B.Key
    const sw: bool     // IEEE80211_KEY_SWCRYPT
    var tsc: nat       // wk_keytsc
    var rsc: nat       // wk_keyrsc
    ghost const e: Cipher

    ghost predicate Valid()
      reads this
    {
      B.Usable(key) && B.IsCipher(key, e) && tsc < TSC_MOD && rsc < TSC_MOD
    }

    /** ccmp_attach and ccmp_setkey: from here on the cipher is AES under the 16 bytes of the key. */
    constructor (bytes: seq<byte>, sw: bool, tsc: nat, rsc: nat)
      requires |bytes| == 16 && tsc < TSC_MOD && rsc < TSC_MOD
      ensures Valid() && e == AesOf(bytes) && this.sw == sw && this.tsc == tsc && this.rsc == rsc
    {
      hide B.IsCipher; hide RoundKeys; hide ExpandedKey;
      var k := B.SetKey(bytes);
      key, this.sw, this.tsc, this.rsc, e := k, sw, tsc, rsc, AesOf(bytes);
    }

    /** ccmp_init_blocks. */
    method InitBlocks(h: seq<byte>, pn: nat, len: nat) returns (c: S.Stream)
      requires Valid() && Header(h) && len <= 16 * LAST_BLOCK
      ensures c.Valid() && fresh(c) && fresh(c.authctr) && fresh(c.pad) && c.i == 0 && c.msg == [] && c.mleft == len
      ensures c.e == e && c.m == MIC && c.nonce == Nonce(h, pn) && c.start == S.Start(e, MIC, Nonce(h, pn), Aad(h), len)
    {
      hide Nonce; hide Aad; hide B.IsCipher; hide S.Start; hide S.Holds;
      var a := Aad(h);
      var ad := new byte[|a|](i requires 0 <= i < |a| => a[i]);
      assert ad[..|a|] == a;
      c := new S.Stream(key, e, MIC, Nonce(h, pn), ad, |a|, len);
    }

    /** The CCM state for the frame in a packet, with n bytes of payload. */
    method Prepare(p: Packet, hdrlen: nat, pn: nat, n: nat, ghost h: seq<byte>) returns (c: S.Stream)
      requires Valid() && p.Valid() && hdrlen <= p.ms[0].len && hdrlen <= |p.Bytes()| && n <= 16 * LAST_BLOCK
      requires Header(h) && h == p.Bytes()[..hdrlen]
      ensures c.Valid() && fresh(c) && fresh(c.authctr) && fresh(c.pad) && c.i == 0 && c.msg == [] && c.mleft == n
      ensures c.e == e && c.m == MIC && c.nonce == Nonce(h, pn) && c.start == S.Start(e, MIC, Nonce(h, pn), Aad(h), n)
    {
      hide Nonce; hide Aad; hide B.IsCipher; hide S.Start; hide S.Holds; hide Contents; hide Before; hide Header;
      p.HeadBytes(hdrlen);
      c := InitBlocks(p.ms[0].data[p.ms[0].off..p.ms[0].off + hdrlen], pn, n);
    }

    /** ccmp_encrypt, up to the tag. */
    method EncryptBody(p: Packet, hdrlen: nat) returns (mic: array<byte>)
      requires Valid() && p.Valid() && 24 <= hdrlen <= p.ms[0].len && HdrSize(p.Bytes()) <= hdrlen
      requires hdrlen + HEADER < p.pktlen <= hdrlen + HEADER + 16 * LAST_BLOCK
      modifies Storage(p.ms)
      ensures p.Valid() && fresh(mic)
      ensures var f := old(p.Bytes());
              var h, payload := f[..hdrlen], f[hdrlen + HEADER..];
              && p.Bytes() == f[..hdrlen + HEADER] + Crypt(e, Nonce(h, tsc), 0, payload)
              && mic[..] == Tag(e, MIC, Nonce(h, tsc), Aad(h), payload)
    {
      hide Nonce; hide Aad; hide B.IsCipher; hide S.Start; hide S.Holds; hide Crypt; hide Tag; hide S.TagAfter;
      hide Contents; hide Before; hide HdrSize; hide Splice;
      var n := p.pktlen - (hdrlen + HEADER);
      ghost var f := p.Bytes();
      ghost var h, payload := f[..hdrlen], f[hdrlen + HEADER..];
      SameHdrSpace(f, h, false);
      var c := Prepare(p, hdrlen, tsc, n, h);
      mic := new byte[MIC];
      ghost var tag0 := mic[..];
      assert f[hdrlen + HEADER..hdrlen + HEADER + n] == payload;
      M.EncMbuf(c, p.ms, hdrlen + HEADER, n, mic);
      SpliceEnd(f, hdrlen + HEADER, Crypt(e, Nonce(h, tsc), 0, payload));
      assert c.msg == payload;
      TagIsRfc(e, MIC, Nonce(h, tsc), Aad(h), payload);
      S.SpliceWhole(tag0, Tag(e, MIC, Nonce(h, tsc), Aad(h), payload));
    }

    /** ccmp_encrypt. */
    method Encrypt(p: Packet, hdrlen: nat, mbufs: nat) returns (ok: bool)
      requires Valid() && p.Valid() && 24 <= hdrlen <= p.ms[0].len && HdrSize(p.Bytes()) <= hdrlen
      requires hdrlen + HEADER < p.pktlen <= hdrlen + HEADER + 16 * LAST_BLOCK
      modifies p, p.ms, Storage(p.ms)
      ensures p.Valid() && (mbufs > 0 ==> ok)
      ensures var f := old(p.Bytes());
              var h, payload := f[..hdrlen], f[hdrlen + HEADER..];
              ok ==> p.Bytes() == f[..hdrlen + HEADER] + Crypt(e, Nonce(h, tsc), 0, payload)
                                  + Tag(e, MIC, Nonce(h, tsc), Aad(h), payload)
    {
      hide Nonce; hide Aad; hide B.IsCipher; hide Crypt; hide Tag; hide Contents; hide Before; hide HdrSize;
      var mic := EncryptBody(p, hdrlen);
      ghost var cut;
      ok, cut := p.Append(mic[..], mbufs);
      assert ok ==> mic[..][..cut] == mic[..];
    }

    /** ccmp_encap: the frame has room for the CCMP header between its header and its payload. */
    method Encap(p: Packet, keyid: byte, pad: bool, mbufs: nat) returns (ok: bool)
      requires Valid() && p.Valid() && 24 <= p.ms[0].len <= |p.Bytes()|
      requires HdrSpace(p.Bytes(), pad) + HEADER <= p.ms[0].len
      requires sw ==>
                 HdrSpace(p.Bytes(), pad) + HEADER < p.pktlen <= HdrSpace(p.Bytes(), pad) + HEADER + 16 * LAST_BLOCK
      modifies this`tsc, p, p.ms, Storage(p.ms)
      ensures Valid() && p.Valid() && tsc == (old(tsc) + 1) % TSC_MOD && (mbufs > 0 || !sw ==> ok)
      ensures var f := old(p.Bytes());
              var hdrlen := HdrSpace(f, pad);
              var h, payload := f[..hdrlen], f[hdrlen + HEADER..];
              Header(h) && (ok ==>
                  p.Bytes() == if sw then Sealed(e, h, tsc, keyid, payload) else h + Iv(tsc, keyid) + payload)
    {
      hide Nonce; hide Aad; hide B.IsCipher; hide Crypt; hide Tag; hide Contents; hide Before; hide HdrSpace;
      hide Iv; hide Splice;
      ghost var f := p.Bytes();
      p.HeadBytes(24);
      var head := p.ms[0].data[p.ms[0].off..p.ms[0].off + 24];
      var hdrlen := HdrSpace(head, pad);
      SameHdrSpace(f, head, pad);
      SameHdrSpace(f, f[..hdrlen], pad);
      tsc := (tsc + 1) % TSC_MOD;
      p.PutHead(hdrlen, Iv(tsc, keyid));
      ghost var g := p.Bytes();
      SpliceParts(f, hdrlen, Iv(tsc, keyid));
      SameHdrSpace(f, g, pad);
      ok := true;
      if sw {
        ok := Encrypt(p, hdrlen, mbufs);
      }
    }

    /** ccmp_decrypt, from the prepared CCM state on. */
    method DecryptBody(p: Packet, c: S.Stream, at: nat, n: nat, mic: seq<byte>) returns (ok: bool)
      requires p.Valid() && c.Valid() && c.i == 0 && c.msg == [] && c.mleft == n && M.Apart(c, p.ms) && c.m <= |mic|
      requires at < p.pktlen && at + n <= p.pktlen
      modifies c`i, c`msg, c`mleft, c.authctr, c.pad, Storage(p.ms)
      ensures p.Valid()
      ensures var f := old(p.Bytes());
              var plain := Crypt(c.e, c.nonce, 0, f[at..at + n]);
              && (ok <==> mic[..c.m] == S.TagAfter(c.e, c.m, c.start, c.nonce, plain))
              && p.Bytes() == f[..at] + (if ok then plain else Zeros(n)) + f[at + n..]
    {
      hide B.IsCipher; hide S.Start; hide S.Holds; hide Crypt; hide S.TagAfter; hide Contents; hide Before; hide Splice;
      ghost var f := p.Bytes();
      ghost var plain := Crypt(c.e, c.nonce, 0, f[at..at + n]);
      assert [] + plain == plain;
      ok := M.DecMbuf(c, p.ms, at, n, mic);
      SpliceParts(f, at, if ok then plain else Zeros(n));
    }

    /** ccmp_decrypt. */
    method Decrypt(p: Packet, pn: nat, hdrlen: nat) returns (ok: bool)
      requires Valid() && p.Valid() && 24 <= hdrlen <= p.ms[0].len && HdrSize(p.Bytes()) <= hdrlen
      requires hdrlen + HEADER + TRAILER <= p.pktlen <= hdrlen + HEADER + TRAILER + 16 * LAST_BLOCK
      modifies Storage(p.ms)
      ensures p.Valid()
      ensures var f := old(p.Bytes());
              var h, n := f[..hdrlen], |f| - TRAILER;
              var plain := Crypt(e, Nonce(h, pn), 0, f[hdrlen + HEADER..n]);
              && (ok <==> f[n..] == Tag(e, MIC, Nonce(h, pn), Aad(h), plain))
              && p.Bytes() == f[..hdrlen + HEADER] + (if ok then plain else Zeros(|plain|)) + f[n..]
    {
      hide Nonce; hide Aad; hide B.IsCipher; hide S.Start; hide S.Holds; hide Crypt; hide Tag; hide S.TagAfter;
      hide Contents; hide Before; hide HdrSize; hide Splice;
      var at, n := hdrlen + HEADER, p.pktlen - (hdrlen + HEADER + TRAILER);
      ghost var f := p.Bytes();
      ghost var h := f[..hdrlen];
      SameHdrSpace(f, h, false);
      var c := Prepare(p, hdrlen, pn, n, h);
      var mic := p.CopyOut(p.pktlen - TRAILER, TRAILER);
      ghost var plain := Crypt(e, Nonce(h, pn), 0, f[at..at + n]);
      TagIsRfc(e, MIC, Nonce(h, pn), Aad(h), plain);
      assert p.Bytes() == f;
      assert f[at + n..at + n + TRAILER] == f[at + n..] && mic[..MIC] == mic;
      ok := DecryptBody(p, c, at, n, mic);
    }

    /** ccmp_decrypt, and the stripping behind it. */
    method DecryptStrip(p: Packet, pn: nat, hdrlen: nat) returns (ok: bool)
      requires Valid() && p.Valid() && 24 <= hdrlen && hdrlen + HEADER <= p.ms[0].len && HdrSize(p.Bytes()) <= hdrlen
      requires hdrlen + HEADER + TRAILER <= p.pktlen <= hdrlen + HEADER + TRAILER + 16 * LAST_BLOCK
      modifies p, p.ms, Storage(p.ms)
      ensures p.Valid()
      ensures var f := old(p.Bytes());
              var h, n := f[..hdrlen], |f| - TRAILER;
              var plain := Crypt(e, Nonce(h, pn), 0, f[hdrlen + HEADER..n]);
              && (ok <==> f[n..] == Tag(e, MIC, Nonce(h, pn), Aad(h), plain))
              && (ok ==> p.Bytes() == h + plain)
    {
      hide Nonce; hide Aad; hide Crypt; hide Tag; hide Contents; hide Before; hide HdrSize;
      ghost var f := p.Bytes();
      ghost var n := |f| - TRAILER;
      SameHdrSpace(f, f[..hdrlen], false);
      ghost var plain := Crypt(e, Nonce(f[..hdrlen], pn), 0, f[hdrlen + HEADER..n]);
      ok := Decrypt(p, pn, hdrlen);
      if ok {
        StripBoth(p, hdrlen, f, plain);
      }
    }

    /** The header moves up, and both ends go. */
    method StripBoth(p: Packet, hdrlen: nat, ghost f: seq<byte>, ghost plain: seq<byte>)
      requires p.Valid() && 24 <= hdrlen && hdrlen + HEADER <= p.ms[0].len
      requires |f| == hdrlen + HEADER + |plain| + TRAILER
      requires p.Bytes() == f[..hdrlen + HEADER] + plain + f[|f| - TRAILER..]
      modifies p, p.ms, Storage(p.ms)
      ensures p.Valid() && p.Bytes() == f[..hdrlen] + plain
    {
      hide Contents; hide Before;
      StripOpened(f, hdrlen, HEADER, plain, f[|f| - TRAILER..]);
      p.Strip(hdrlen, HEADER, TRAILER);
    }

    /** The counter is no part of the packet. */
    method Advance(p: Packet, pn: nat)
      requires p.Valid()
      modifies this`rsc
      ensures p.Valid() && p.Bytes() == old(p.Bytes()) && rsc == pn
    {
      hide Segs; hide Flat; hide Before;
      ghost var ss := Segs(p.ms);
      rsc := pn;
      assert Segs(p.ms) == ss;
    }

    /** ccmp_decap; `held` says whether the assertions of ccmp_decrypt held. */
    method Decap(p: Packet, hdrlen: nat) returns (ok: bool, held: bool)
      requires Valid() && p.Valid() && 24 <= hdrlen && hdrlen + HEADER <= p.ms[0].len && HdrSize(p.Bytes()) <= hdrlen
      requires hdrlen + HEADER + TRAILER <= p.pktlen
      requires sw ==> p.pktlen <= hdrlen + HEADER + TRAILER + 16 * LAST_BLOCK
      modifies this`rsc, p, p.ms, Storage(p.ms)
      ensures Valid() && p.Valid()
      ensures var f := old(p.Bytes());
              var iv := f[hdrlen..hdrlen + HEADER];
              !held <==> sw && iv[3] & EXTIV != 0 && old(rsc) < Read6(iv) && |f| == hdrlen + HEADER + TRAILER
      ensures sw ==> match Opened(e, old(rsc), old(p.Bytes()), hdrlen)
                     case Dropped => !ok && rsc == old(rsc)
                     case Accepted(pn, g) => ok && rsc == pn && p.Bytes() == g
      ensures !sw ==> var f := old(p.Bytes());
                      var iv := f[hdrlen..hdrlen + HEADER];
                      && (ok <==> iv[3] & EXTIV != 0 && old(rsc) < Read6(iv))
                      && rsc == (if ok then Read6(iv) else old(rsc))
                      && (ok ==> p.Bytes() == f[..hdrlen] + f[hdrlen + HEADER..|f| - TRAILER])
    {
      hide Nonce; hide Aad; hide B.IsCipher; hide Crypt; hide Tag; hide Contents; hide Before; hide HdrSize; hide Read6;
      ghost var f := p.Bytes();
      p.HeadBytes(hdrlen + HEADER);
      var iv := p.ms[0].data[p.ms[0].off + hdrlen..p.ms[0].off + hdrlen + HEADER];
      assert iv == f[..hdrlen + HEADER][hdrlen..] == f[hdrlen..hdrlen + HEADER];
      held := true;
      if iv[3] & EXTIV == 0 {
        return false, held;
      }
      var pn := Read6(iv);
      if pn <= rsc {
        return false, held;
      }
      if sw {
        held := hdrlen < p.pktlen && HEADER < p.pktlen - hdrlen && TRAILER < p.pktlen - (hdrlen + HEADER);
        ok := DecryptStrip(p, pn, hdrlen);
        if !ok {
          return;
        }
      } else {
        p.Strip(hdrlen, HEADER, TRAILER);
      }
      ReadBound(iv);
      Advance(p, pn);
      ok := true;
    }
  }
  /** A frame with packet number 1 and no body. */
  const EMPTY: seq<byte> := seq(24, _ => 0) + [1, 0, 0, EXTIV, 0, 0, 0, 0] + seq(8, _ => 0)

  lemma EmptyIs()
    ensures |EMPTY| == 24 + HEADER + TRAILER && HdrSize(EMPTY) == 24
    ensures EMPTY[24..32][3] & EXTIV != 0 && Read6(EMPTY[24..32]) == 1
  {
    var iv := EMPTY[24..32];
    assert iv == [1, 0, 0, EXTIV, 0, 0, 0, 0];
    assert iv[..2] + iv[4..] == [1, 0, 0, 0, 0, 0];
    L.ValueOfOne();
  }

  /** It reaches an assertion of ccmp_decrypt that does not hold, under any software key. */
  method EmptyBody(k: CcmpKey, p: Packet) returns (ok: bool, held: bool)
    requires k.Valid() && k.sw && k.rsc == 0 && p.Valid() && p.Bytes() == EMPTY && p.ms[0].len >= 32
    modifies k`rsc, p, p.ms, Storage(p.ms)
    ensures !held
  {
    hide Contents; hide Before; hide Read6; hide HdrSize; hide Opened; hide B.IsCipher;
    EmptyIs();
    ok, held := k.Decap(p, 24);
  }
}
