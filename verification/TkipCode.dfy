/** TKIP on packets: ieee80211_crypto_tkip.c. */
module TkipCode {
  import opened Blocks
  import opened Mbufs
  import opened Options
  import opened Packets
  import opened Tkip
  import C = CcmpCode
  import H = Ccmp
  import M = Michael
  import MC = MichaelCode
  import R = Rc4
  import W = Wep

  ghost function TtakOf(a: array<bv16>): Ttak
    requires a.Length == 5
    reads a
  {
    Ttak(a[0], a[1], a[2], a[3], a[4])
  }

  /** tkip_mixing_phase1, one round. */
  method MixRound(a: array<bv16>, box: Sbox, tk: seq<byte>, i: nat, n: bv16)
    requires a.Length == 5 && |tk| == 16
    modifies a
    ensures TtakOf(a) == Round(box, tk, i, n, old(TtakOf(a)))
  {
    hide S; hide Add; hide Xor16; hide TkWord;
    var j := i % 2;
    a[0] := Add(a[0], S(box, Xor16(a[4], TkWord(tk, j))));
    a[1] := Add(a[1], S(box, Xor16(a[0], TkWord(tk, 2 + j))));
    a[2] := Add(a[2], S(box, Xor16(a[1], TkWord(tk, 4 + j))));
    a[3] := Add(a[3], S(box, Xor16(a[2], TkWord(tk, 6 + j))));
    a[4] := Add(Add(a[4], S(box, Xor16(a[3], TkWord(tk, j)))), n);
  }

  /** tkip_mixing_phase1. */
  method MixPhase1(a: array<bv16>, box: Sbox, tk: seq<byte>, ta: seq<byte>, iv32: bv32)
    requires a.Length == 5 && |tk| == 16 && |ta| == 6
    modifies a
    ensures TtakOf(a) == Phase1(box, tk, ta, iv32)
  {
    hide Round; hide Start;
    var t := Start(ta, iv32);
    a[0], a[1], a[2], a[3], a[4] := t.t0, t.t1, t.t2, t.t3, t.t4;
    var n: bv16 := 0;
    for i := 0 to 8
      invariant (TtakOf(a), n) == Rounds(box, tk, t, i)
    {
      MixRound(a, box, tk, i, n);
      n := n + 1;
    }
  }

  // ---------------------------------------------------------------------------
  // Frames

  const HEADER: nat := 8
  const TRAILER: nat := 4
  const MICLEN: nat := 8

  function TscByte(tsc: bv64, k: bv8): byte { ((tsc >> ((8 * k) & 63)) & 0xff) as bv8 }

  function Iv(tsc: bv64, keyid: byte): (v: seq<byte>)
    ensures |v| == HEADER
  {
    [TscByte(tsc, 1), WepSeed(TscByte(tsc, 1)), TscByte(tsc, 0), keyid | H.EXTIV,
     TscByte(tsc, 2), TscByte(tsc, 3), TscByte(tsc, 4), TscByte(tsc, 5)]
  }

  /** READ_6. */
  function Read6(b0: byte, b1: byte, b2: byte, b3: byte, b4: byte, b5: byte): bv64 {
    b0 as bv64 | (b1 as bv64 << 8) | (b2 as bv64 << 16) | (b3 as bv64 << 24) | (b4 as bv64 << 32) | (b5 as bv64 << 40)
  }

  function ReadTsc(iv: seq<byte>): bv64
    requires |iv| == HEADER
  {
    Read6(iv[2], iv[0], iv[4], iv[5], iv[6], iv[7])
  }

  /** The frame carries the four further counter bytes. */
  predicate HasExtIv(iv: seq<byte>)
    requires |iv| == HEADER
  {
    iv[3] & H.EXTIV != 0
  }

  predicate Replayed(tsc: bv64, rsc: bv64) { tsc <= rsc }

  const TSC_MASK: bv64 := 0xFFFF_FFFF_FFFF

  /** The TKIP header (section 8.3.2.2 of IEEE 802.11-2007): TSC1, the WEP seed byte, TSC0, key id with the extended IV
      bit, TSC2 to TSC5. */
  lemma IvParts(tsc: bv64, keyid: byte)
    ensures var v := Iv(tsc, keyid);
            && v[0] as bv64 == tsc / 0x100 % 0x100 && v[1] == (v[0] | 0x20) & 0x7f && v[2] as bv64 == tsc % 0x100
            && v[3] == keyid | 0x20 && v[4] as bv64 == tsc / 0x1_0000 % 0x100
            && v[5] as bv64 == tsc / 0x100_0000 % 0x100 && v[6] as bv64 == tsc / 0x1_0000_0000 % 0x100
            && v[7] as bv64 == tsc / 0x100_0000_0000 % 0x100
  {
    hide TscByte;
    TscBytes(tsc);
  }

  lemma TscBytes(tsc: bv64)
    ensures TscByte(tsc, 0) as bv64 == tsc % 0x100 && TscByte(tsc, 1) as bv64 == tsc / 0x100 % 0x100
    ensures TscByte(tsc, 2) as bv64 == tsc / 0x1_0000 % 0x100 && TscByte(tsc, 3) as bv64 == tsc / 0x100_0000 % 0x100
    ensures TscByte(tsc, 4) as bv64 == tsc / 0x1_0000_0000 % 0x100
    ensures TscByte(tsc, 5) as bv64 == tsc / 0x100_0000_0000 % 0x100
  {
  }

  /** The first three bytes of a frame's RC4 key go over the air in front of it. */
  lemma IvIsSeed(box: Sbox, tk: seq<byte>, ta: seq<byte>, tsc: bv64, keyid: byte)
    requires |tk| == 16 && |ta| == 6
    ensures Iv(tsc, keyid)[..3] == FrameKey(box, tk, ta, tsc)[..3]
  {
    hide Phase1; hide S; hide Add; hide Xor16; hide TkWord; hide RotR1; hide Half; hide Lo8; hide Hi8; hide TscByte;
    hide WepSeed; hide Iv16;
    SeedBytes(tsc);
  }

  lemma SeedBytes(tsc: bv64)
    ensures Hi8(Iv16(tsc)) == TscByte(tsc, 1) && Lo8(Iv16(tsc)) == TscByte(tsc, 0)
  {
  }

  lemma ReadOfIv(tsc: bv64, keyid: byte)
    ensures ReadTsc(Iv(tsc, keyid)) == tsc & TSC_MASK
  {
    hide Read6; hide TscByte;
    Read6OfBytes(tsc);
  }

  lemma Read6OfBytes(tsc: bv64)
    ensures Read6(TscByte(tsc, 0), TscByte(tsc, 1), TscByte(tsc, 2), TscByte(tsc, 3), TscByte(tsc, 4), TscByte(tsc, 5))
            == tsc & TSC_MASK
  {
  }

  /** Only the low 48 bits enter the key. */
  lemma FrameKeyMasked(box: Sbox, tk: seq<byte>, ta: seq<byte>, tsc: bv64)
    requires |tk| == 16 && |ta| == 6
    ensures FrameKey(box, tk, ta, tsc & TSC_MASK) == FrameKey(box, tk, ta, tsc)
  {
    hide Phase1; hide Phase2;
    assert Iv32(tsc & TSC_MASK) == Iv32(tsc) && Iv16(tsc & TSC_MASK) == Iv16(tsc);
  }

  /** A protected frame; body is the data with its MIC. */
  function Sealed(box: Sbox, table: R.Table, tk: seq<byte>, ta: seq<byte>, h: seq<byte>, tsc: bv64,
                  keyid: byte, body: seq<byte>): seq<byte>
    requires |tk| == 16 && |ta| == 6
  {
    h + Iv(tsc, keyid) + R.Sealed(table, FrameKey(box, tk, ta, tsc), body)
  }

  /** A frame as it is sent: sealed here, or left to the hardware behind its IV. */
  function Sent(sw: bool, box: Sbox, table: R.Table, tk: seq<byte>, ta: seq<byte>, f: seq<byte>, hdrlen: nat,
                tsc: bv64, keyid: byte): seq<byte>
    requires |tk| == 16 && |ta| == 6 && hdrlen + HEADER <= |f|
  {
    var h, body := f[..hdrlen], f[hdrlen + HEADER..];
    if sw then Sealed(box, table, tk, ta, h, tsc, keyid, body) else h + Iv(tsc, keyid) + body
  }

  const SIZE_MOD: nat := 0x1_0000_0000

  /** What tkip_demic hands to michael_mic for a packet of length len: the difference, as an unsigned number. */
  function DataLen(len: nat, hdrlen: nat): nat
    requires hdrlen + MICLEN < SIZE_MOD
  {
    if hdrlen + MICLEN <= len then len - (hdrlen + MICLEN) else SIZE_MOD - (hdrlen + MICLEN - len)
  }

  /** The length field asks for no more than header and MIC, and for no more data than there is. */
  predicate Inside(f: seq<byte>, hdrlen: nat, len: nat) { hdrlen + MICLEN <= len <= |f| + MICLEN }

  /** The pseudo header can be read off the header. */
  predicate MicHeader(f: seq<byte>, hdrlen: nat) {
    hdrlen <= |f| && H.Header(f[..hdrlen]) && (f[0] & 0x80 != 0 ==> hdrlen > 24)
  }

  /** The eight bytes that tkip_demic compares: by the length field the last eight, as far as the chain has them, and
      what was on the stack. */
  function MicSeen(f: seq<byte>, len: nat, stack: seq<byte>): (mic: seq<byte>)
    requires len >= MICLEN && |stack| == MICLEN
    ensures |mic| == MICLEN
  {
    var t := Taken(f, len - MICLEN, MICLEN);
    t + stack[|t|..]
  }

  /** The verdict of tkip_demic on a frame f with length field len. */
  predicate MicFits(key: seq<byte>, f: seq<byte>, hdrlen: nat, len: nat, stack: seq<byte>)
    requires |key| == 8 && |stack| == MICLEN && MicHeader(f, hdrlen) && Inside(f, hdrlen, len)
  {
    MicSeen(f, len, stack) == M.Mic(key, M.CodeHeader(f[..hdrlen]), f[hdrlen..len - MICLEN])
  }

  /** With a right length field the verdict is on the last eight bytes, whatever was on the stack. */
  lemma MicIsLast(key: seq<byte>, f: seq<byte>, hdrlen: nat, stack: seq<byte>)
    requires |key| == 8 && |stack| == MICLEN && MicHeader(f, hdrlen) && hdrlen + MICLEN <= |f|
    ensures var m := |f| - MICLEN;
            MicFits(key, f, hdrlen, |f|, stack) <==> f[m..] == M.Mic(key, M.CodeHeader(f[..hdrlen]), f[hdrlen..m])
  {
    hide M.Mic; hide M.CodeHeader;
    var m := |f| - MICLEN;
    assert Taken(f, m, MICLEN) == f[m..] && stack[MICLEN..] == [];
    assert MicSeen(f, |f|, stack) == f[m..];
  }

  /** With one that is too large there is a stack on which any frame is refused. */
  lemma TooLongRefused(key: seq<byte>, f: seq<byte>, hdrlen: nat, len: nat)
    requires |key| == 8 && MicHeader(f, hdrlen) && Inside(f, hdrlen, len) && |f| < len
    ensures var mic := M.Mic(key, M.CodeHeader(f[..hdrlen]), f[hdrlen..len - MICLEN]);
            |mic| == MICLEN && !MicFits(key, f, hdrlen, len, seq(MICLEN, _ => R.Other(mic[7])))
  {
    hide M.Mic; hide M.CodeHeader;
    var mic := M.Mic(key, M.CodeHeader(f[..hdrlen]), f[hdrlen..len - MICLEN]);
    var stack := seq(MICLEN, _ => R.Other(mic[7]));
    assert MicSeen(f, len, stack)[7] == stack[7];
  }

  class TkipKey {
    const box: Sbox
    const table: R.Table  // crc32_table
    const tk: seq<byte>   // wk_key
    const txmic: seq<byte>
    const rxmic: seq<byte>
    const sw: bool        // IEEE80211_KEY_SWCRYPT
    const swmic: bool     // IEEE80211_KEY_SWMIC
    var tsc: bv64         // wk_keytsc
    var rsc: bv64         // wk_keyrsc
    var rxRsc: bv64
    var txDone: bool      // tx_phase1_done
    var rxDone: bool      // rx_phase1_done
    const txTtak: array<bv16>
    const rxTtak: array<bv16>
    ghost var txTa: seq<byte> // the address the cached transmit key was mixed for

    ghost predicate Valid()
      reads this, txTtak, rxTtak
    {
      && |tk| == 16 && |txmic| == 8 && |rxmic| == 8 && |txTa| == 6
      && txTtak.Length == 5 && rxTtak.Length == 5 && txTtak != rxTtak
      && (sw && txDone ==> TtakOf(txTtak) == Phase1(box, tk, txTa, Iv32(tsc)))
    }

    /** tkip_attach and tkip_setkey: nothing is cached, and the counter starts at 1. */
    constructor (box: Sbox, table: R.Table, tk: seq<byte>, txmic: seq<byte>, rxmic: seq<byte>, sw: bool, swmic: bool,
                 rsc: bv64)
      requires |tk| == 16 && |txmic| == 8 && |rxmic| == 8
      ensures Valid() && tsc == 1 && !txDone && fresh(txTtak) && fresh(rxTtak)
      ensures this.box == box && this.table == table && this.tk == tk && this.txmic == txmic && this.rxmic == rxmic
      ensures this.sw == sw && this.swmic == swmic && this.rsc == rsc
      ensures forall mix: Mixer :: Good(mix, RxCache())
    {
      this.box, this.table, this.tk, this.txmic, this.rxmic, this.sw, this.swmic :=
        box, table, tk, txmic, rxmic, sw, swmic;
      this.tsc, this.rsc, rxRsc, txDone, rxDone := 1, rsc, 0, false, false;
      txTtak, rxTtak := new bv16[5], new bv16[5];
      txTa := [0, 0, 0, 0, 0, 0];
    }

    /** The address whose phase-1 key a frame from ta gets: the cached one, if there is one. */
    ghost function TxFor(ta: seq<byte>): seq<byte>
      reads this
    {
      if txDone then txTa else ta
    }

    /** The receive cache. */
    ghost function RxCache(): Rx
      requires rxTtak.Length == 5
      reads this, rxTtak
    {
      Rx(rsc, rxDone, TtakOf(rxTtak))
    }

    /** tkip_encrypt, its start: the RC4 key, with phase 1 only when it is not cached. */
    method TxKey(ta: seq<byte>) returns (key: seq<byte>)
      requires Valid() && sw && |ta| == 6
      modifies this`txDone, this`txTa, txTtak
      ensures Valid() && txDone && txTa == old(TxFor(ta))
      ensures RxCache() == old(RxCache()) && key == FrameKey(box, tk, txTa, tsc)
      ensures TtakOf(txTtak) == Phase1(box, tk, ta, Iv32(tsc)) <==> !old(txDone) || old(txTa) == ta
    {
      hide Phase1; hide Phase2; hide Iv32; hide Iv16; hide TtakOf;
      Phase1Injective(box, tk, ta, Iv32(tsc), TxFor(ta), Iv32(tsc));
      if !txDone {
        MixPhase1(txTtak, box, tk, ta, Iv32(tsc));
        txDone, txTa := true, ta;
      }
      TtakIs(txTtak);
      key := Phase2(box, tk, Ttak(txTtak[0], txTtak[1], txTtak[2], txTtak[3], txTtak[4]), Iv16(tsc));
    }

    /** tkip_encrypt, its end: the next counter; the cache goes when its upper half changes. */
    method NextFrame()
      requires Valid()
      modifies this`tsc, this`txDone
      ensures Valid() && tsc == Next(old(tsc)) && (txDone ==> old(txDone))
    {
      hide Phase1; hide Iv32; hide Iv16; hide TtakOf; hide Next;
      NextTsc(tsc);
      tsc := Next(tsc);
      if Iv16(tsc) == 0 {
        txDone := false;
      }
    }

    /** tkip_encrypt: the frame is sealed under its own two-phase key, if nothing is cached for another address. */
    method Encrypt(p: Packet, off: nat, mbufs: nat) returns (ok: bool)
      requires Valid() && sw && p.Valid() && 24 <= off <= p.ms[0].len && off <= |p.Bytes()|
      modifies this`tsc, this`txDone, this`txTa, txTtak, p, p.ms, Storage(p.ms)
      ensures Valid() && p.Valid() && tsc == (if ok then Next(old(tsc)) else old(tsc)) && (mbufs > 0 ==> ok)
      ensures RxCache() == old(RxCache()) && txTa == old(TxFor(p.Bytes()[10..16]))
      ensures var f := old(p.Bytes());
              var full := f[..off] + R.Sealed(table, FrameKey(box, tk, txTa, old(tsc)), f[off..]);
              p.Bytes() <= full && (ok <==> p.Bytes() == full)
    {
      hide FrameKey; hide Phase1; hide R.Sealed; hide Contents; hide Before; hide TtakOf; hide Iv32; hide Next;
      var key := TxKeyFor(p);
      ok := W.EncryptAppend(table, key, p, off, mbufs);
      if ok {
        NextKeeps(p);
      }
    }

    /** The transmit key, with the transmitter address taken from the frame. */
    method TxKeyFor(p: Packet) returns (key: seq<byte>)
      requires Valid() && sw && p.Valid() && 16 <= p.ms[0].len && 16 <= |p.Bytes()|
      modifies this`txDone, this`txTa, txTtak
      ensures Valid() && p.Valid() && p.Bytes() == old(p.Bytes()) && RxCache() == old(RxCache())
      ensures txDone && txTa == old(TxFor(p.Bytes()[10..16])) && key == FrameKey(box, tk, txTa, tsc)
    {
      hide FrameKey; hide Phase1; hide Segs; hide Flat; hide Before; hide TtakOf; hide Iv32;
      ghost var f, ss := p.Bytes(), Segs(p.ms);
      p.HeadBytes(16);
      var ta := p.ms[0].data[p.ms[0].off + 10..p.ms[0].off + 16];
      assert ta == f[..16][10..] == f[10..16];
      key := TxKey(ta);
      assert Segs(p.ms) == ss;
    }

    /** The next counter; the packet and the receive cache do not depend on it. */
    method NextKeeps(p: Packet)
      requires Valid() && p.Valid()
      modifies this`tsc, this`txDone
      ensures Valid() && p.Valid() && p.Bytes() == old(p.Bytes()) && tsc == Next(old(tsc))
              && RxCache() == old(RxCache())
    {
      hide Phase1; hide Segs; hide Flat; hide Before; hide Iv32; hide Next;
      ghost var ss := Segs(p.ms);
      NextFrame();
      assert Segs(p.ms) == ss;
    }

    /** tkip_encap, its start: the extended IV goes behind the header. */
    method PutIv(p: Packet, keyid: byte, pad: bool) returns (hdrlen: nat)
      requires p.Valid() && 24 <= p.ms[0].len <= |p.Bytes()| && H.HdrSpace(p.Bytes(), pad) + HEADER <= p.ms[0].len
      modifies p.ms[0].data
      ensures p.Valid() && hdrlen == H.HdrSpace(old(p.Bytes()), pad) >= 24 && |p.Bytes()| == |old(p.Bytes())|
      ensures var f := old(p.Bytes());
              && p.Bytes()[..hdrlen + HEADER] == f[..hdrlen] + Iv(tsc, keyid)
              && p.Bytes()[hdrlen + HEADER..] == f[hdrlen + HEADER..] && p.Bytes()[10..16] == f[10..16]
    {
      hide Contents; hide Before; hide Iv; hide H.HdrSpace; hide Splice;
      ghost var f := p.Bytes();
      p.HeadBytes(24);
      var head := p.ms[0].data[p.ms[0].off..p.ms[0].off + 24];
      hdrlen := H.HdrSpace(head, pad);
      C.SameHdrSpace(f, head, pad);
      p.PutHead(hdrlen, Iv(tsc, keyid));
      SpliceParts(f, hdrlen, Iv(tsc, keyid));
      ghost var g := p.Bytes();
      assert g[10..16] == g[..hdrlen][10..16] == f[..hdrlen][10..16] == f[10..16];
    }

    /** tkip_encap; `counterm` is the countermeasures flag. */
    method Encap(p: Packet, keyid: byte, pad: bool, counterm: bool, mbufs: nat) returns (ok: bool)
      requires Valid() && p.Valid() && 24 <= p.ms[0].len <= |p.Bytes()|
               && H.HdrSpace(p.Bytes(), pad) + HEADER <= p.ms[0].len
      modifies this`tsc, this`txDone, this`txTa, txTtak, p, p.ms, Storage(p.ms)
      ensures Valid() && p.Valid() && tsc == (if ok then Next(old(tsc)) else old(tsc))
      ensures (counterm ==> !ok && p.Bytes() == old(p.Bytes())) && (!counterm && (mbufs > 0 || !sw) ==> ok)
      ensures !counterm ==> var f, ta := old(p.Bytes()), old(TxFor(p.Bytes()[10..16]));
                            var full := Sent(sw, box, table, tk, ta, f, H.HdrSpace(f, pad), old(tsc), keyid);
                            p.Bytes() <= full && (ok <==> p.Bytes() == full) && (sw ==> txTa == ta)
    {
      hide FrameKey; hide Phase1; hide R.Sealed; hide Contents; hide Before; hide TtakOf; hide Iv32; hide Next; hide Iv;
      hide H.HdrSpace; hide Splice;
      if counterm {
        return false;
      }
      var hdrlen := PutIv(p, keyid, pad);
      ghost var g := p.Bytes();
      assert g == g[..hdrlen + HEADER] + g[hdrlen + HEADER..];
      if sw {
        ok := Encrypt(p, hdrlen + HEADER, mbufs);
      } else {
        Bump(p);
        ok := true;
      }
    }

    /** The hardware has the phase-1 key; only the counter moves on. */
    method Bump(p: Packet)
      requires Valid() && p.Valid() && !sw
      modifies this`tsc
      ensures Valid() && p.Valid() && p.Bytes() == old(p.Bytes()) && tsc == Next(old(tsc))
    {
      hide Segs; hide Flat; hide Before; hide Phase1; hide TtakOf; hide Iv32;
      ghost var ss := Segs(p.ms);
      tsc := Next(tsc);
      assert Segs(p.ms) == ss;
    }

    /** tkip_decrypt, its start: the RC4 key, from the cache or afresh. */
    method RxKey(ta: seq<byte>) returns (key: seq<byte>)
      requires Valid() && |ta| == 6
      modifies this`rxDone, rxTtak
      ensures Valid()
      ensures var t := Used(MixerOf(box, tk, ta), old(RxCache()), rxRsc);
              RxCache() == Rx(rsc, true, t) && key == Phase2(box, tk, t, Iv16(rxRsc))
    {
      hide Phase1; hide Phase2; hide Iv32; hide Iv16; hide TtakOf;
      var iv32 := Iv32(rxRsc);
      if iv32 != Iv32(rsc) || !rxDone {
        MixPhase1(rxTtak, box, tk, ta, iv32);
        rxDone := true;
      }
      TtakIs(rxTtak);
      key := Phase2(box, tk, Ttak(rxTtak[0], rxTtak[1], rxTtak[2], rxTtak[3], rxTtak[4]), Iv16(rxRsc));
    }

    /** The same, with the transmitter address taken from the frame. */
    method RxKeyFor(p: Packet) returns (key: seq<byte>)
      requires Valid() && p.Valid() && 16 <= p.ms[0].len && 16 <= |p.Bytes()|
      modifies this`rxDone, rxTtak
      ensures Valid() && p.Valid() && p.Bytes() == old(p.Bytes()) && |key| == 16
      ensures var t := Used(MixerOf(box, tk, p.Bytes()[10..16]), old(RxCache()), rxRsc);
              RxCache() == Rx(rsc, true, t) && key == Phase2(box, tk, t, Iv16(rxRsc))
    {
      hide Phase1; hide Phase2; hide Segs; hide Flat; hide Before; hide TtakOf; hide Iv32; hide Iv16; hide Used;
      ghost var f, ss := p.Bytes(), Segs(p.ms);
      p.HeadBytes(16);
      var ta := p.ms[0].data[p.ms[0].off + 10..p.ms[0].off + 16];
      assert ta == f[..16][10..] == f[10..16];
      key := RxKey(ta);
      assert Segs(p.ms) == ss;
    }

    /** tkip_decrypt, its end: a phase-1 key that replaced the cached one is dropped with the frame. */
    method Forget(p: Packet)
      requires Valid() && p.Valid()
      modifies this`rxDone
      ensures Valid() && p.Valid() && p.Bytes() == old(p.Bytes())
      ensures RxCache() == Rx(rsc, old(rxDone) && Iv32(rxRsc) == Iv32(rsc), TtakOf(rxTtak))
    {
      hide Phase1; hide Segs; hide Flat; hide Before; hide Iv32;
      ghost var ss := Segs(p.ms);
      if Iv32(rxRsc) != Iv32(rsc) {
        rxDone := false;
      }
      assert Segs(p.ms) == ss;
    }

    /** tkip_decrypt, given the key. */
    method OpenWith(p: Packet, off: nat, key: seq<byte>) returns (ok: bool)
      requires Valid() && p.Valid() && key != [] && off <= p.ms[0].len && off + 4 <= |p.Bytes()| && W.Room(p)
      modifies this`rxDone, Storage(p.ms)
      ensures Valid() && p.Valid()
      ensures var c := old(RxCache()); RxCache() == c.(done := c.done && (ok || Iv32(rxRsc) == Iv32(rsc)))
      ensures var f := old(p.Bytes()); p.Bytes() == f[..off] + R.Opened(table, key, f[off..]).0 + f[|f| - 4..]
      ensures ok <==> R.Accepts(table, key, old(p.Bytes())[off..], old(W.IcvSeen(p, off)))
    {
      hide R.Opened; hide R.Accepts; hide Contents; hide Before; hide W.IcvSeen; hide W.Room; hide Phase1; hide Iv32;
      hide TtakOf;
      ok := W.Decrypt(table, key, p, off);
      if !ok {
        Forget(p);
      }
    }

    /** The RC4 key that a received frame is opened with. */
    ghost function RxKeyOf(f: seq<byte>, before: Rx): (key: seq<byte>)
      requires |tk| == 16 && |f| >= 16
      reads this
      ensures |key| == 16
    {
      Phase2(box, tk, RxTtakOf(f, before), Iv16(rxRsc))
    }

    /** The phase-1 key under it. */
    ghost function RxTtakOf(f: seq<byte>, before: Rx): Ttak
      requires |tk| == 16 && |f| >= 16
      reads this
    {
      Used(MixerOf(box, tk, f[10..16]), before, rxRsc)
    }

    /** tkip_decrypt. */
    method Decrypt(p: Packet, off: nat) returns (ok: bool)
      requires Valid() && p.Valid() && 24 <= off <= p.ms[0].len && off + 4 <= |p.Bytes()| && W.Room(p)
      modifies this`rxDone, rxTtak, Storage(p.ms)
      ensures Valid() && p.Valid()
      ensures RxCache() == Decrypted(MixerOf(box, tk, old(p.Bytes())[10..16]), old(RxCache()), rxRsc, ok)
      ensures var f := old(p.Bytes());
              var key := RxKeyOf(f, old(RxCache()));
              && p.Bytes() == f[..off] + R.Opened(table, key, f[off..]).0 + f[|f| - 4..]
              && (ok <==> R.Accepts(table, key, f[off..], old(W.IcvSeen(p, off))))
    {
      hide Phase1; hide Phase2; hide R.Opened; hide R.Accepts; hide Contents; hide Before; hide TtakOf; hide Iv32;
      hide Iv16;
      hide Used; hide W.IcvSeen; hide W.Room;
      var key := KeyKeepsPacket(p, off, p.Bytes());
      ok := OpenWith(p, off, key);
    }

    /** Fetching the key leaves the packet and its storage alone. */
    method KeyKeepsPacket(p: Packet, ghost off: nat, ghost f: seq<byte>) returns (key: seq<byte>)
      requires Valid() && p.Valid() && 24 <= off <= p.ms[0].len && off + 4 <= |f| && p.Bytes() == f && W.Room(p)
      modifies this`rxDone, rxTtak
      ensures Valid() && p.Valid() && p.Bytes() == f && W.Room(p)
      ensures W.IcvSeen(p, off) == old(W.IcvSeen(p, off))
      ensures RxCache() == Rx(rsc, true, RxTtakOf(f, old(RxCache()))) && key == RxKeyOf(f, old(RxCache()))
    {
      hide Phase1; hide Phase2; hide R.Seen; hide Contents; hide Before; hide TtakOf; hide Iv32; hide Iv16; hide Used;
      ghost var a := p.ms[|p.ms| - 1].data;
      ghost var d := a[..];
      assert a in Storage(p.ms);
      key := RxKeyFor(p);
      assert a[..] == d;
    }

    /** The transmit side and the packet do not depend on rxRsc and rsc. */
    method SetRxRsc(p: Packet, v: bv64)
      requires Valid() && p.Valid()
      modifies this`rxRsc
      ensures Valid() && p.Valid() && p.Bytes() == old(p.Bytes()) && rxRsc == v && RxCache() == old(RxCache())
    {
      hide Phase1; hide Segs; hide Flat; hide Before; hide Iv32;
      ghost var ss := Segs(p.ms);
      rxRsc := v;
      assert Segs(p.ms) == ss;
    }

    method SetRsc(p: Packet)
      requires Valid() && p.Valid()
      modifies this`rsc
      ensures Valid() && p.Valid() && p.Bytes() == old(p.Bytes()) && RxCache() == Demicced(old(RxCache()), rxRsc)
    {
      hide Phase1; hide Segs; hide Flat; hide Before; hide Iv32;
      ghost var ss := Segs(p.ms);
      rsc := rxRsc;
      assert Segs(p.ms) == ss;
    }

    /** What decapsulation leaves when the counter is new: the frame without TKIP, and the verdict on the four bytes
        that the check saw. */
    ghost predicate Decapped(f: seq<byte>, hdrlen: nat, before: Rx, ok: bool, g: seq<byte>, seen: seq<byte>)
      requires |tk| == 16 && rxTtak.Length == 5 && 24 <= hdrlen && hdrlen + HEADER + TRAILER <= |f|
      reads this, rxTtak
    {
      if !sw then
        ok && RxCache() == before && g == f[..hdrlen] + f[hdrlen + HEADER..|f| - TRAILER]
      else
        var key, c := RxKeyOf(f, before), f[hdrlen + HEADER..];
        && RxCache() == Decrypted(MixerOf(box, tk, f[10..16]), before, rxRsc, ok)
        && (ok ==> g == f[..hdrlen] + R.Opened(table, key, c).0)
        && (ok <==> R.Accepts(table, key, c, seen))
    }

    /** tkip_decap, its end, when the cipher is in software. */
    method DecryptStrip(p: Packet, hdrlen: nat) returns (ok: bool)
      requires Valid() && p.Valid() && 24 <= hdrlen && hdrlen + HEADER <= p.ms[0].len
               && hdrlen + HEADER + TRAILER <= |p.Bytes()|
      requires W.Room(p)
      modifies this`rxDone, rxTtak, p, p.ms, Storage(p.ms)
      ensures Valid() && p.Valid()
      ensures RxCache() == Decrypted(MixerOf(box, tk, old(p.Bytes())[10..16]), old(RxCache()), rxRsc, ok)
      ensures var f := old(p.Bytes());
              var key, c := RxKeyOf(f, old(RxCache())), f[hdrlen + HEADER..];
              && (ok ==> p.Bytes() == f[..hdrlen] + R.Opened(table, key, c).0)
              && (ok <==> R.Accepts(table, key, c, old(W.IcvSeen(p, hdrlen + HEADER))))
    {
      hide RxKeyOf; hide R.Opened; hide R.Accepts; hide Contents; hide Before; hide TtakOf; hide Iv32; hide Used;
      hide Phase1;
      hide W.IcvSeen; hide W.Room; hide Decrypted;
      ghost var f := p.Bytes();
      ghost var key := RxKeyOf(f, RxCache());
      StripOpened(f, hdrlen, HEADER, R.Opened(table, key, f[hdrlen + HEADER..]).0, f[|f| - 4..]);
      ok := Decrypt(p, hdrlen + HEADER);
      if ok {
        StripKeeps(p, hdrlen);
      }
    }

    /** Stripping; the caches are no part of the packet. */
    method StripKeeps(p: Packet, hdrlen: nat)
      requires Valid() && p.Valid() && hdrlen + HEADER <= p.ms[0].len && hdrlen + HEADER + TRAILER <= |p.Bytes()|
      modifies p, p.ms, Storage(p.ms)
      ensures Valid() && p.Valid() && RxCache() == old(RxCache())
      ensures var f := old(p.Bytes()); p.Bytes() == f[..hdrlen] + f[hdrlen + HEADER..|f| - TRAILER]
    {
      hide Contents; hide Before; hide TtakOf; hide Phase1;
      p.Strip(hdrlen, HEADER, TRAILER);
    }

    /** tkip_decap, its end. */
    method DecapBody(p: Packet, hdrlen: nat) returns (ok: bool)
      requires Valid() && p.Valid() && 24 <= hdrlen && hdrlen + HEADER <= p.ms[0].len
               && hdrlen + HEADER + TRAILER <= |p.Bytes()|
      requires sw ==> W.Room(p)
      modifies this`rxDone, rxTtak, p, p.ms, Storage(p.ms)
      ensures Valid() && p.Valid()
      ensures Decapped(old(p.Bytes()), hdrlen, old(RxCache()), ok, p.Bytes(),
                       old(if sw then W.IcvSeen(p, hdrlen + HEADER) else []))
    {
      hide RxKeyOf; hide R.Opened; hide R.Accepts; hide Contents; hide Before; hide TtakOf; hide Iv32; hide Used;
      hide Phase1;
      hide W.IcvSeen; hide W.Room;
      if sw {
        ok := DecryptStrip(p, hdrlen);
      } else {
        p.Strip(hdrlen, HEADER, TRAILER);
        ok := true;
      }
    }

    /** tkip_decap. */
    method Decap(p: Packet, hdrlen: nat, counterm: bool) returns (ok: bool)
      requires Valid() && p.Valid() && 24 <= hdrlen && hdrlen + HEADER <= p.ms[0].len
               && hdrlen + HEADER + TRAILER <= |p.Bytes()|
      requires sw ==> W.Room(p)
      modifies this`rxRsc, this`rxDone, rxTtak, p, p.ms, Storage(p.ms)
      ensures Valid() && p.Valid()
      ensures var f := old(p.Bytes());
              var iv := f[hdrlen..hdrlen + HEADER];
              if !HasExtIv(iv) || counterm then !ok && RxCache() == old(RxCache()) && rxRsc == old(rxRsc)
              else
                && rxRsc == ReadTsc(iv)
                && (if Replayed(rxRsc, rsc) then !ok && RxCache() == old(RxCache())
                    else Decapped(f, hdrlen, old(RxCache()), ok, p.Bytes(),
                                  old(if sw then W.IcvSeen(p, hdrlen + HEADER) else [])))
    {
      hide Phase1; hide Contents; hide Before; hide TtakOf; hide Iv32; hide ReadTsc; hide Decapped; hide HasExtIv;
      hide Replayed;
      hide W.IcvSeen; hide W.Room;
      ghost var f := p.Bytes();
      p.HeadBytes(hdrlen + HEADER);
      var iv := p.ms[0].data[p.ms[0].off + hdrlen..p.ms[0].off + hdrlen + HEADER];
      assert iv == f[..hdrlen + HEADER][hdrlen..] == f[hdrlen..hdrlen + HEADER];
      if !HasExtIv(iv) || counterm {
        return false;
      }
      SetRxRsc(p, ReadTsc(iv));
      if Replayed(rxRsc, rsc) {
        return false;
      }
      ok := DecapBody(p, hdrlen);
    }

    /** tkip_enmic. */
    method Enmic(p: Packet, pad: bool, force: bool, mbufs: nat) returns (ok: bool)
      requires Valid() && p.Valid() && 24 <= p.ms[0].len <= |p.Bytes()| && H.HdrSpace(p.Bytes(), pad) <= p.ms[0].len
      requires p.Bytes()[0] & 0x80 != 0 ==> H.HdrSpace(p.Bytes(), pad) > 24
      modifies p, p.ms, Storage(p.ms)
      ensures p.Valid() && (mbufs > 0 ==> ok)
      ensures var f := old(p.Bytes());
              var n := H.HdrSpace(f, pad);
              H.Header(f[..n]) && (ok ==>
                  p.Bytes() == if force || swmic then f + M.Mic(txmic, M.CodeHeader(f[..n]), f[n..]) else f)
    {
      hide M.Mic; hide M.CodeHeader; hide Contents; hide Before; hide H.HdrSpace; hide Phase1; hide TtakOf;
      ghost var f := p.Bytes();
      var hdrlen := HeaderLength(p, pad);
      ok := true;
      if force || swmic {
        var mic, _ := MC.MichaelMic(txmic, p.ms, hdrlen, p.pktlen - hdrlen);
        assert f[hdrlen..hdrlen + (|f| - hdrlen)] == f[hdrlen..];
        ghost var n;
        ok, n := p.Append(mic, mbufs);
        assert ok ==> mic[..n] == mic;
      }
    }

    /** ieee80211_hdrspace of the frame. */
    method HeaderLength(p: Packet, pad: bool) returns (n: nat)
      requires p.ms != [] && Chain(p.ms) && 24 <= p.ms[0].len <= |Contents(p.ms)|
      ensures Contents(p.ms) == old(Contents(p.ms))
      ensures var f := Contents(p.ms); n == H.HdrSpace(f, pad) && (n <= |f| ==> H.Header(f[..n]))
    {
      hide Contents; hide Before;
      ghost var f := Contents(p.ms);
      FirstBytes(p.ms, 24);
      var head := p.ms[0].data[p.ms[0].off..p.ms[0].off + 24];
      n := H.HdrSpace(head, pad);
      C.SameHdrSpace(f, head, pad);
      if n <= |f| {
        C.SameHdrSpace(f, f[..n], pad);
      }
    }

    /** tkip_demic, the check, on a packet whose length field may be off; `stack` is what mic0 holds before. */
    method CheckMic(p: Packet, hdrlen: nat, stack: seq<byte>) returns (ok: bool, inside: bool)
      requires |rxmic| == 8 && |stack| == MICLEN && p.ms != [] && Chain(p.ms) && 24 <= hdrlen <= p.ms[0].len
      requires hdrlen <= |Contents(p.ms)| < SIZE_MOD - hdrlen - MICLEN && MicHeader(Contents(p.ms), hdrlen)
      ensures Contents(p.ms) == old(Contents(p.ms)) && (inside <==> Inside(Contents(p.ms), hdrlen, p.pktlen))
      ensures ok <==> inside && MicFits(rxmic, Contents(p.ms), hdrlen, p.pktlen, stack)
    {
      hide M.Mic; hide M.CodeHeader; hide Contents; hide Before;
      var mic;
      mic, inside := MC.MichaelMic(rxmic, p.ms, hdrlen, DataLen(p.pktlen, hdrlen));
      ok := false;
      if inside {
        var mic0 := CopyData(p.ms, p.pktlen - MICLEN, MICLEN);
        ok := mic == mic0 + stack[|mic0|..];
      }
    }

    /** tkip_demic, its end: the MIC goes and the replay counter moves up. */
    method TrimMic(p: Packet)
      requires Valid() && p.ms != [] && Chain(p.ms)
      modifies this`rsc, p, p.ms
      ensures Valid() && p.Valid() && p.Bytes() == Without(old(Contents(p.ms)), MICLEN)
      ensures RxCache() == Demicced(old(RxCache()), rxRsc)
    {
      hide Contents; hide Before; hide Phase1; hide TtakOf; hide Without;
      p.AdjTail(MICLEN);
      SetRsc(p);
    }

    /** tkip_demic: `inside` says whether michael_mic stayed inside the chain. */
    method Demic(p: Packet, pad: bool, force: bool, stack: seq<byte>) returns (ok: bool, inside: bool)
      requires Valid() && |stack| == MICLEN && p.ms != [] && Chain(p.ms) && 24 <= p.ms[0].len <= |Contents(p.ms)|
      requires var f := Contents(p.ms);
               var n := H.HdrSpace(f, pad);
               n <= p.ms[0].len && |f| < SIZE_MOD - n - MICLEN && MicHeader(f, n)
      modifies this`rsc, p, p.ms
      ensures Valid() && p.ms != [] && Chain(p.ms) && (ok ==> inside && p.Valid())
      ensures var f, len := old(Contents(p.ms)), old(p.pktlen);
              var n, due := H.HdrSpace(f, pad), force || swmic;
              && (inside <==> !due || Inside(f, n, len))
              && (ok <==> !due || (Inside(f, n, len) && MicFits(rxmic, f, n, len, stack)))
              && Contents(p.ms) == (if ok then Without(f, MICLEN) else f)
              && RxCache() == (if ok then Demicced(old(RxCache()), rxRsc) else old(RxCache()))
    {
      hide MicFits; hide MicHeader; hide Contents; hide Before; hide H.HdrSpace; hide Phase1; hide TtakOf; hide Without;
      var hdrlen := HeaderLength(p, pad);
      inside := true;
      if force || swmic {
        ok, inside := CheckMic(p, hdrlen, stack);
        if !ok {
          return;
        }
      }
      TrimMic(p);
      ok := true;
    }
  }

  /** Two addresses send under one fresh key: the second gets the phase-1 key of the first. */
  method SecondSender(box: Sbox, table: R.Table, tk: seq<byte>, mic: seq<byte>, ta: seq<byte>, tb: seq<byte>)
    returns (k: TkipKey)
    requires |tk| == 16 && |mic| == 8 && |ta| == 6 && |tb| == 6 && ta != tb
    ensures fresh(k) && k.Valid() && TtakOf(k.txTtak) != Phase1(box, tk, tb, Iv32(k.tsc))
  {
    hide Phase1; hide Phase2; hide TtakOf; hide Iv32;
    k := new TkipKey(box, table, tk, mic, mic, true, true, 0);
    var _ := k.TxKey(ta);
    var _ := k.TxKey(tb);
  }

  /** The counter of a frame, and what decryption under a receive cache makes of its body. */
  function Opened(box: Sbox, table: R.Table, tk: seq<byte>, ta: seq<byte>, rx: Rx,
                  iv: seq<byte>, c: seq<byte>): (bv64, (seq<byte>, bool))
    requires |tk| == 16 && |ta| == 6 && |iv| == HEADER && |c| >= 4
  {
    var tsc := ReadTsc(iv);
    (tsc, R.Opened(table, Phase2(box, tk, Used(MixerOf(box, tk, ta), rx, tsc), Iv16(tsc)), c))
  }

  /** Sealed by one side and opened by the other with a good cache: the body comes back. */
  lemma RoundTrip(box: Sbox, table: R.Table, tk: seq<byte>, ta: seq<byte>, h: seq<byte>, tsc: bv64, keyid: byte,
                  body: seq<byte>, rx: Rx)
    requires |tk| == 16 && |ta| == 6 && Good(MixerOf(box, tk, ta), rx)
    ensures var f := Sealed(box, table, tk, ta, h, tsc, keyid, body)[|h|..];
            && HasExtIv(f[..HEADER])
            && Opened(box, table, tk, ta, rx, f[..HEADER], f[HEADER..]) == (tsc & TSC_MASK, (body, true))
  {
    hide R.Sealed; hide R.Opened; hide Phase1; hide Phase2; hide ReadTsc; hide Iv; hide Used; hide Good; hide Iv32;
    hide Iv16; hide HasExtIv;
    var v, key := Iv(tsc, keyid), FrameKey(box, tk, ta, tsc);
    var f := Sealed(box, table, tk, ta, h, tsc, keyid, body)[|h|..];
    assert f == v + R.Sealed(table, key, body);
    assert f[..HEADER] == v && f[HEADER..] == R.Sealed(table, key, body);
    ReadOfIv(tsc, keyid);
    IvHasExt(tsc, keyid);
    FrameKeyMasked(box, tk, ta, tsc);
    UsedExactly(MixerOf(box, tk, ta), rx, tsc & TSC_MASK);
    R.RoundTrip(table, key, body);
  }

  lemma IvHasExt(tsc: bv64, keyid: byte)
    ensures HasExtIv(Iv(tsc, keyid))
  {
  }

  lemma OpenedTsc(box: Sbox, table: R.Table, tk: seq<byte>, ta: seq<byte>, rx: Rx, iv: seq<byte>, c: seq<byte>)
    requires |tk| == 16 && |ta| == 6 && |iv| == HEADER && |c| >= 4
    ensures Opened(box, table, tk, ta, rx, iv, c).0 == ReadTsc(iv)
  {
  }

  // ---------------------------------------------------------------------------
  // Replays

  /** The counters of the frames that pass decapsulation and MIC check, one after another. */
  function Passed(rsc: bv64, fs: seq<Frame>): seq<bv64>
    decreases |fs|
  {
    if fs == [] then []
    else if !Replayed(fs[0].tsc, rsc) && fs[0].icvOk && fs[0].micOk then [fs[0].tsc] + Passed(fs[0].tsc, fs[1..])
    else Passed(rsc, fs[1..])
  }

  predicate Below(a: bv64, b: bv64) { a < b }

  lemma NewIsAbove(tsc: bv64, rsc: bv64)
    ensures !Replayed(tsc, rsc) <==> Below(rsc, tsc)
  {
  }

  lemma BelowBelow(a: bv64, b: bv64, c: bv64)
    requires Below(a, b) && Below(b, c)
    ensures Below(a, c)
  {
  }

  /** They only go up, from the counter the receiver stands at. */
  lemma {:induction false} TscIncreases(rsc: bv64, fs: seq<Frame>, i: nat, j: nat)
    requires i < j < |Passed(rsc, fs)|
    ensures Below(rsc, Passed(rsc, fs)[i]) && Below(Passed(rsc, fs)[i], Passed(rsc, fs)[j])
    decreases |fs|
  {
    hide Replayed; hide Below;
    PassedAbove(rsc, fs, i);
    if !Replayed(fs[0].tsc, rsc) && fs[0].icvOk && fs[0].micOk {
      PassedAbove(fs[0].tsc, fs[1..], j - 1);
      if i > 0 {
        TscIncreases(fs[0].tsc, fs[1..], i - 1, j - 1);
      }
    } else {
      TscIncreases(rsc, fs[1..], i, j);
    }
  }

  lemma {:induction false} PassedAbove(rsc: bv64, fs: seq<Frame>, i: nat)
    requires i < |Passed(rsc, fs)|
    ensures Below(rsc, Passed(rsc, fs)[i])
    decreases |fs|
  {
    hide Replayed; hide Below;
    if !Replayed(fs[0].tsc, rsc) && fs[0].icvOk && fs[0].micOk {
      NewIsAbove(fs[0].tsc, rsc);
      if i > 0 {
        PassedAbove(fs[0].tsc, fs[1..], i - 1);
        BelowBelow(rsc, fs[0].tsc, Passed(rsc, fs)[i]);
      }
    } else {
      PassedAbove(rsc, fs[1..], i);
    }
  }

  /** What a receiver makes of the bytes of a frame, when its last buffer holds the integrity value: decapsulation, then
      the check of the MIC; header and payload, or nothing. */
  function Delivered(box: Sbox, table: R.Table, tk: seq<byte>, mic: seq<byte>, rx: Rx, f: seq<byte>, hdrlen: nat,
                     stack: seq<byte>): Option<seq<byte>>
    requires |tk| == 16 && |mic| == 8 && |stack| == MICLEN && MicHeader(f, hdrlen) && hdrlen + HEADER + TRAILER <= |f|
  {
    var h, iv, c := f[..hdrlen], f[hdrlen..hdrlen + HEADER], f[hdrlen + HEADER..];
    if !HasExtIv(iv) || Replayed(ReadTsc(iv), rx.rsc) then None
    else
      var (body, ok) := Opened(box, table, tk, h[10..16], rx, iv, c).1;
      var r := h + body;
      assert r[..hdrlen] == h && r[0] == f[0];
      if ok && Inside(r, hdrlen, |r|) && MicFits(mic, r, hdrlen, |r|, stack) then Some(Without(r, MICLEN)) else None
  }

  /** The frame on the air: the header as received, and what one side sealed behind its own header h. */
  function OnAir(box: Sbox, table: R.Table, tk: seq<byte>, h: seq<byte>, g: seq<byte>, tsc: bv64, keyid: byte,
                 body: seq<byte>): seq<byte>
    requires |tk| == 16 && |h| >= 16
  {
    g + Sealed(box, table, tk, h[10..16], h, tsc, keyid, body)[|h|..]
  }

  lemma AirParts(box: Sbox, table: R.Table, tk: seq<byte>, h: seq<byte>, g: seq<byte>, tsc: bv64, keyid: byte,
                 body: seq<byte>)
    requires |tk| == 16 && |h| >= 16 && MicHeader(g, |g|)
    ensures var f, s := OnAir(box, table, tk, h, g, tsc, keyid, body),
                        Sealed(box, table, tk, h[10..16], h, tsc, keyid, body)[|h|..];
            && |f| >= |g| + HEADER + TRAILER && f[..|g|] == g == g[..|g|] && MicHeader(f, |g|) && |s| >= HEADER
            && f[|g|..|g| + HEADER] == s[..HEADER] && f[|g| + HEADER..] == s[HEADER..]
  {
    hide FrameKey; hide R.Sealed; hide Iv;
    assert g[..|g|] == g;
  }

  /** The check of a frame that carries the MIC of payload under header h, at a receiver that sees header g. */
  lemma MicOfOther(mic: seq<byte>, h: seq<byte>, g: seq<byte>, payload: seq<byte>, stack: seq<byte>)
    requires |mic| == 8 && |stack| == MICLEN && MicHeader(h, |h|) && MicHeader(g, |g|)
    ensures h[..|h|] == h && g[..|g|] == g
    ensures var r := g + (payload + M.Mic(mic, M.CodeHeader(h), payload));
            && MicHeader(r, |g|) && Inside(r, |g|, |r|) && Without(r, MICLEN) == g + payload
            && (MicFits(mic, r, |g|, |r|, stack) <==>
                  M.Mic(mic, M.CodeHeader(h), payload) == M.Mic(mic, M.CodeHeader(g), payload))
  {
    hide M.Mic; hide M.CodeHeader; hide MicFits;
    assert h[..|h|] == h && g[..|g|] == g;
    var t := M.Mic(mic, M.CodeHeader(h), payload);
    var r := g + (payload + t);
    assert r[..|g|] == g && r[|r| - MICLEN..] == t && r[|g|..|r| - MICLEN] == payload;
    assert r[..|r| - MICLEN] == g + payload;
    MicIsLast(mic, r, |g|, stack);
  }

  /** From tkip_enmic and tkip_encap on one side to tkip_decap and tkip_demic on the other, with a right cache: the
      payload comes back if and only if the frame is no replay and the pseudo headers of sender and receiver give the
      same MIC; with addresses unchanged, that is if and only if the priority is. */
  lemma EndToEnd(box: Sbox, table: R.Table, tk: seq<byte>, mic: seq<byte>, h: seq<byte>, g: seq<byte>, tsc: bv64,
                 keyid: byte, payload: seq<byte>, rx: Rx, stack: seq<byte>)
    requires |tk| == 16 && |mic| == 8 && |stack| == MICLEN && MicHeader(h, |h|) && MicHeader(g, |g|) && |h| == |g|
    requires h[10..16] == g[10..16] && Good(MixerOf(box, tk, g[10..16]), rx)
    ensures h[..|h|] == h && g[..|g|] == g
    ensures var body := payload + M.Mic(mic, M.CodeHeader(h), payload);
            var f := OnAir(box, table, tk, h, g, tsc, keyid, body);
            && |f| >= |g| + HEADER + TRAILER && MicHeader(f, |g|)
            && Delivered(box, table, tk, mic, rx, f, |g|, stack) ==
               if !Replayed(tsc & TSC_MASK, rx.rsc)
                  && M.Mic(mic, M.CodeHeader(h), payload) == M.Mic(mic, M.CodeHeader(g), payload)
               then Some(g + payload) else None
    ensures M.Addresses(h) == M.Addresses(g) ==>
              (M.Mic(mic, M.CodeHeader(h), payload) == M.Mic(mic, M.CodeHeader(g), payload) <==>
                 M.CodeHeader(h)[12] == M.CodeHeader(g)[12])
  {
    hide M.Mic; hide MicFits; hide Sealed; hide Opened; hide ReadTsc; hide HasExtIv; hide Without; hide M.Addresses;
    hide Replayed; hide OnAir; hide Good; hide H.HdrSize;
    assert h[..|h|] == h;
    var body := payload + M.Mic(mic, M.CodeHeader(h), payload);
    AirParts(box, table, tk, h, g, tsc, keyid, body);
    RoundTrip(box, table, tk, g[10..16], h, tsc, keyid, body, rx);
    var f := OnAir(box, table, tk, h, g, tsc, keyid, body);
    OpenedTsc(box, table, tk, g[10..16], rx, f[|g|..|g| + HEADER], f[|g| + HEADER..]);
    MicOfOther(mic, h, g, payload, stack);
    if M.Addresses(h) == M.Addresses(g) {
      SamePseudo(mic, h, g, payload);
    }
  }

  lemma SamePseudo(mic: seq<byte>, h: seq<byte>, g: seq<byte>, payload: seq<byte>)
    requires |mic| == 8 && MicHeader(h, |h|) && MicHeader(g, |g|) && h[..|h|] == h && g[..|g|] == g
    requires M.Addresses(h) == M.Addresses(g)
    ensures M.Mic(mic, M.CodeHeader(h), payload) == M.Mic(mic, M.CodeHeader(g), payload) <==>
              M.CodeHeader(h)[12] == M.CodeHeader(g)[12]
  {
    hide M.Mic; hide M.Addresses;
    var a, b := M.CodeHeader(h), M.CodeHeader(g);
    assert a[..12] == M.Addresses(h) && b[..12] == M.Addresses(g);
    assert a == a[..12] + [a[12], 0, 0, 0] && b == b[..12] + [b[12], 0, 0, 0];
    M.MicExactly(mic, a, b, payload);
  }

  lemma TtakIs(a: array<bv16>)
    requires a.Length == 5
    ensures TtakOf(a) == Ttak(a[0], a[1], a[2], a[3], a[4])
  {
  }
}
