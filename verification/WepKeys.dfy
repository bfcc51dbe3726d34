/** WEP: ieee80211_crypto_wep.c. */
module WepKeys {
  import opened Blocks
  import opened Mbufs
  import opened Packets
  import C = CcmpCode
  import H = Ccmp
  import R = Rc4
  import W = Wep

  const HEADER: nat := 4
  const TRAILER: nat := 4

  // ---------------------------------------------------------------------------
  // Initialization vectors

  function IvByte(iv: bv32, k: bv8): byte { ((iv >> (8 * (k & 3))) & 0xff) as bv8 }

  /** A vector (B, 255, N) with 3 <= B < 16. */
  predicate Weak(b: byte, m: byte) { 3 <= b < 16 && m == 255 }

  /** The vector to use when the counter stands at iv. */
  function Chosen(iv: bv32): bv32 {
    if iv & 0xff00 == 0xff00 && 3 <= (iv & 0xff0000) >> 16 < 16 then iv + 0x100 else iv
  }

  /** No weak vector is ever sent, and only weak ones are skipped. */
  lemma NeverWeak(iv: bv32)
    ensures !Weak(IvByte(Chosen(iv), 2), IvByte(Chosen(iv), 1))
    ensures Chosen(iv) == iv <==> !Weak(IvByte(iv, 2), IvByte(iv, 1))
  {
  }

  // ---------------------------------------------------------------------------
  // Frames

  function Iv(iv: bv32): (v: seq<byte>)
    ensures |v| == 3
  {
    [IvByte(iv, 2), IvByte(iv, 1), IvByte(iv, 0)]
  }

  function Sealed(table: R.Table, key: seq<byte>, h: seq<byte>, iv: seq<byte>, keyid: byte,
                  payload: seq<byte>): seq<byte>
    requires |iv| == 3
  {
    h + (iv + [keyid]) + R.Sealed(table, iv + key, payload)
  }

  lemma IvParts(iv: bv32)
    ensures var v := Iv(iv);
            && v[0] as bv32 == iv / 0x1_0000 % 0x100 && v[1] as bv32 == iv / 0x100 % 0x100 && v[2] as bv32 == iv % 0x100
  {
  }

  /** A WEP frame (section 8.2.1.2 of IEEE 802.11-2007): header, vector, key id, and data with its integrity value under
      RC4, whose key is the vector followed by the key. */
  lemma SealedParts(table: R.Table, key: seq<byte>, h: seq<byte>, iv: seq<byte>, keyid: byte, payload: seq<byte>)
    requires |iv| == 3
    ensures var f, n := Sealed(table, key, h, iv, keyid, payload), |h|;
            && f[..n] == h && f[n] == iv[0] && f[n + 1] == iv[1] && f[n + 2] == iv[2] && f[n + 3] == keyid
            && f[n + 4..] == R.Crypt(R.Init([iv[0], iv[1], iv[2]] + key), payload + R.Icv(table, payload))
  {
    hide R.Crypt; hide R.Init; hide R.Icv;
    assert iv == [iv[0], iv[1], iv[2]];
  }

  /** What the receiver makes of a frame: the frame without WEP, and whether its integrity value fits. */
  function Opened(table: R.Table, key: seq<byte>, f: seq<byte>, hdrlen: nat): (seq<byte>, bool)
    requires hdrlen + HEADER + TRAILER <= |f|
  {
    var r := R.Opened(table, f[hdrlen..hdrlen + 3] + key, f[hdrlen + HEADER..]);
    (f[..hdrlen] + r.0, r.1)
  }

  /** Whatever happened to the header, the payload comes back. */
  lemma RoundTrip(table: R.Table, key: seq<byte>, h: seq<byte>, g: seq<byte>, iv: seq<byte>, keyid: byte,
                  payload: seq<byte>)
    requires |iv| == 3 && |h| == |g|
    ensures Opened(table, key, g + Sealed(table, key, h, iv, keyid, payload)[|h|..], |g|) == (g + payload, true)
  {
    hide R.Sealed; hide R.Opened;
    var c := R.Sealed(table, iv + key, payload);
    var f := g + Sealed(table, key, h, iv, keyid, payload)[|h|..];
    assert f == g + (iv + [keyid]) + c;
    assert f[..|g|] == g && f[|g|..|g| + 3] == iv && f[|g| + HEADER..] == c;
    R.RoundTrip(table, iv + key, payload);
  }

  class WepKey {
    const table: R.Table // crc32_table
    const key: seq<byte>
    const sw: bool       // IEEE80211_KEY_SWCRYPT
    var iv: bv32         // wc_iv

    /** wep_attach and wep_setkey; the first vector is random. */
    constructor (table: R.Table, key: seq<byte>, sw: bool, iv: bv32)
      ensures this.table == table && this.key == key && this.sw == sw && this.iv == iv
    {
      this.table, this.key, this.sw, this.iv := table, key, sw, iv;
    }

    /** wep_encap, its first part: the header with the initialization vector. Returns that vector and where it
        stands. */
    method PutIv(p: Packet, keyid: byte, pad: bool) returns (v: seq<byte>, hdrlen: nat)
      requires p.Valid() && 24 <= p.ms[0].len <= |p.Bytes()| && H.HdrSpace(p.Bytes(), pad) + HEADER <= p.ms[0].len
      modifies this`iv, p.ms[0].data
      ensures p.Valid() && iv == Chosen(old(iv)) + 1 && v == Iv(Chosen(old(iv)))
              && hdrlen == H.HdrSpace(old(p.Bytes()), pad)
      ensures var f, g := old(p.Bytes()), p.Bytes();
              && g == f[..hdrlen] + (v + [keyid]) + f[hdrlen + HEADER..]
              && g[..hdrlen + HEADER] == f[..hdrlen] + (v + [keyid]) && g[hdrlen + HEADER..] == f[hdrlen + HEADER..]
    {
      hide Segs; hide Flat; hide Before; hide H.HdrSpace; hide Iv; hide Splice; hide Chosen;
      ghost var f, ss := p.Bytes(), Segs(p.ms);
      p.HeadBytes(24);
      var head := p.ms[0].data[p.ms[0].off..p.ms[0].off + 24];
      hdrlen := H.HdrSpace(head, pad);
      C.SameHdrSpace(f, head, pad);
      v := Iv(Chosen(iv));
      iv := Chosen(iv) + 1;
      assert Segs(p.ms) == ss;
      p.PutHead(hdrlen, v + [keyid]);
      SpliceParts(f, hdrlen, v + [keyid]);
    }

    /** wep_encap. */
    method Encap(p: Packet, keyid: byte, pad: bool, mbufs: nat) returns (ok: bool)
      requires p.Valid() && 24 <= p.ms[0].len <= |p.Bytes()| && H.HdrSpace(p.Bytes(), pad) + HEADER <= p.ms[0].len
      modifies this`iv, p, p.ms, Storage(p.ms)
      ensures p.Valid() && iv == Chosen(old(iv)) + 1 && (mbufs > 0 || !sw ==> ok)
      ensures var f := old(p.Bytes());
              var hdrlen := H.HdrSpace(f, pad);
              var h, v, payload := f[..hdrlen], Iv(Chosen(old(iv))), f[hdrlen + HEADER..];
              var full := if sw then Sealed(table, key, h, v, keyid, payload) else h + (v + [keyid]) + payload;
              p.Bytes() <= full && (ok <==> p.Bytes() == full)
    {
      hide R.Sealed; hide Contents; hide Before; hide H.HdrSpace; hide Iv; hide Chosen;
      var v, hdrlen := PutIv(p, keyid, pad);
      ok := true;
      if sw {
        ok := W.EncryptAppend(table, v + key, p, hdrlen + HEADER, mbufs);
      }
    }

    /** wep_decap. */
    method Decap(p: Packet, hdrlen: nat) returns (ok: bool)
      requires p.Valid() && hdrlen + HEADER <= p.ms[0].len && hdrlen + HEADER + TRAILER <= |p.Bytes()|
      requires sw ==> W.Room(p)
      modifies p, p.ms, Storage(p.ms)
      ensures p.Valid()
      ensures sw ==> var f := old(p.Bytes());
                     && (ok ==> p.Bytes() == Opened(table, key, f, hdrlen).0)
                     && (ok <==> R.Accepts(table, f[hdrlen..hdrlen + 3] + key, f[hdrlen + HEADER..],
                                           old(W.IcvSeen(p, hdrlen + HEADER))))
      ensures !sw ==> ok && var f := old(p.Bytes()); p.Bytes() == f[..hdrlen] + f[hdrlen + HEADER..|f| - TRAILER]
    {
      hide R.Opened; hide R.Accepts; hide Contents; hide Before; hide W.IcvSeen; hide W.Room;
      ghost var f := p.Bytes();
      p.HeadBytes(hdrlen + 3);
      var v := p.ms[0].data[p.ms[0].off + hdrlen..p.ms[0].off + hdrlen + 3];
      assert v == f[..hdrlen + 3][hdrlen..] == f[hdrlen..hdrlen + 3];
      if sw {
        StripOpened(f, hdrlen, HEADER, R.Opened(table, v + key, f[hdrlen + HEADER..]).0, f[|f| - 4..]);
        ok := W.Decrypt(table, v + key, p, hdrlen + HEADER);
        if !ok {
          return;
        }
      }
      p.Strip(hdrlen, HEADER, TRAILER);
      ok := true;
    }
  }
}
