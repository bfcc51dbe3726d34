/** ieee80211_fragment: the loop that cuts a frame. */
module FragmentCode {
  import opened Blocks
  import opened Ccm
  import opened Mbufs
  import opened Packets
  import opened Frags
  import F = Fragment

  const MCLBYTES: nat := 4096
  const MH_ALIGN: nat := 256

  /** A packet of one buffer that holds g, with MH_ALIGN bytes in front for a cipher header. */
  ghost predicate Single(p: Packet, g: Frame)
    reads p, p.ms, Storage(p.ms)
  {
    && |p.ms| == 1 && p.ms[0].off == MH_ALIGN && p.ms[0].len == p.pktlen == |g|
    && p.ms[0].InBounds() && p.ms[0].Bytes() == g
  }

  lemma SingleIs(p: Packet, g: Frame)
    requires Single(p, g)
    ensures p.Valid() && p.Bytes() == g
  {
    var m := p.ms[0];
    assert p.ms == [m] && Before([m], 0) == 0 && Before([m], 1) == m.len;
    assert Segs([m]) == [m.Bytes()] && Flat([m.Bytes()]) == m.Bytes();
  }

  /** No two share a buffer. */
  ghost predicate Separate(ps: seq<Packet>)
    reads ps
  {
    && (forall i :: 0 <= i < |ps| ==> |ps[i].ms| == 1)
    && (forall i, j :: 0 <= i < j < |ps| ==> ps[i].ms[0] != ps[j].ms[0] && ps[i].ms[0].data != ps[j].ms[0].data)
  }

  function Unmark(g: Frame): Frame { g[1 := g[1] & !MORE] }

  /** The header of fragment i with some payload. */
  function Headed(f: Frame, hdr: nat, i: nat, off: nat, payload: nat): (g: Frame)
    requires 24 <= hdr <= off && off + payload <= |f|
    ensures |g| == hdr + payload
  {
    F.HeaderOf(f[..hdr], i, false) + f[off..off + payload]
  }

  /** Fragment i while it still announces another. */
  function Marked(f: Frame, hdr: nat, room: nat, i: nat): Frame
    requires 24 <= hdr <= |f|
  {
    F.FromGrows(f, hdr, room, i);
    F.HeaderOf(f[..hdr], i, false) + f[F.From(f, hdr, room, i)..F.From(f, hdr, room, i + 1)]
  }

  lemma MarkedParts(f: Frame, hdr: nat, room: nat, i: nat)
    requires 24 <= hdr <= |f|
    ensures F.From(f, hdr, room, i) <= F.From(f, hdr, room, i + 1) <= |f|
    ensures Marked(f, hdr, room, i) ==
            F.HeaderOf(f[..hdr], i, false) + f[F.From(f, hdr, room, i)..F.From(f, hdr, room, i + 1)]
  {
    F.FromGrows(f, hdr, room, i);
  }

  lemma MarkedIs(f: Frame, hdr: nat, ciphdr: nat, mtu: nat, i: nat)
    requires F.Fits(f, hdr, ciphdr, mtu) && i < F.Count(f, hdr, ciphdr, mtu)
    ensures var g := Marked(f, hdr, F.Room(hdr, ciphdr, mtu), i);
            if i + 1 < F.Count(f, hdr, ciphdr, mtu) then F.FragmentOf(f, hdr, ciphdr, mtu, i) == g
            else F.FragmentOf(f, hdr, ciphdr, mtu, i) == Unmark(g)
  {
    hide F.Count; hide Byte; hide F.From;
    F.FromGrows(f, hdr, F.Room(hdr, ciphdr, mtu), i);
    F.HeaderFields(f[..hdr], i, false, []);
  }

  /** The next fragment starts where this one ends, a full room on unless the payload is used up. */
  lemma NextFrom(f: Frame, hdr: nat, ciphdr: nat, mtu: nat, i: nat)
    requires F.Fits(f, hdr, ciphdr, mtu) && i < F.Count(f, hdr, ciphdr, mtu)
    ensures var room := F.Room(hdr, ciphdr, mtu);
            var off := F.From(f, hdr, room, i);
            && off < |f| && F.From(f, hdr, room, i + 1) == (if room < |f| - off then off + room else |f|)
            && (F.From(f, hdr, room, i + 1) == |f| <==> i + 1 == F.Count(f, hdr, ciphdr, mtu))
  {
    hide F.Count;
    var n, room := F.Count(f, hdr, ciphdr, mtu), F.Room(hdr, ciphdr, mtu);
    F.CountIsEnough(f, hdr, ciphdr, mtu);
    Scaled(i, n - 1, room);
    Scaled(i + 1, n - 1, room);
    assert (i + 1) * room == i * room + room;
    assert n * room == (n - 1) * room + room;
  }

  lemma Scaled(i: nat, k: nat, room: nat)
    ensures i <= k ==> i * room <= k * room
  {
    if i <= k {
      assert k * room == i * room + (k - i) * room;
    }
  }

  /** The frame with its first header marked. */
  function MarkFirst(f: Frame): Frame { f[1 := f[1] | MORE] }

  lemma FirstIs(f: Frame, hdr: nat, ciphdr: nat, mtu: nat)
    requires F.Fits(f, hdr, ciphdr, mtu)
    ensures |MarkFirst(f)| == |f| && 1 < F.Count(f, hdr, ciphdr, mtu)
            && F.FragmentOf(f, hdr, ciphdr, mtu, 0) == MarkFirst(f)[..mtu - ciphdr]
    ensures F.From(f, hdr, F.Room(hdr, ciphdr, mtu), 1) == mtu - ciphdr
  {
    hide F.Count;
    F.CountIsEnough(f, hdr, ciphdr, mtu);
    assert Byte(0) == 0;
    F.OrZero(f[22]);
  }

  /** Mark the first fragment. */
  method Mark(m0: Packet)
    requires m0.Valid() && 24 <= m0.ms[0].len && |m0.Bytes()| >= 24
    modifies m0.ms[0].data
    ensures m0.Valid() && m0.Bytes() == MarkFirst(old(m0.Bytes()))
  {
    hide Contents; hide Before;
    ghost var f := m0.Bytes();
    m0.HeadBytes(2);
    var b := m0.ms[0].data[m0.ms[0].off + 1];
    assert b == f[..2][1];
    m0.PutHead(1, [b | MORE]);
  }

  /** A new packet: m_getcl and m_align, then the bytes are copied in. */
  method NewPacket(g: Frame) returns (p: Packet)
    requires |g| <= MCLBYTES
    ensures fresh(p) && Single(p, g) && fresh(p.ms[0]) && fresh(p.ms[0].data)
  {
    hide Segs; hide Flat; hide Before; hide Splice;
    var m := new Mbuf(MCLBYTES + MH_ALIGN);
    m.off, m.len := MH_ALIGN, |g|;
    ghost var d := m.data[..];
    CopyIn(m.data, MH_ALIGN, g);
    SpliceAt(d, MH_ALIGN, g);
    assert m.Bytes() == m.data[..][MH_ALIGN..MH_ALIGN + |g|];
    p := PacketOf(m);
  }

  /** The frame itself is left alone. */
  method NewBeside(m0: Packet, g: Frame) returns (p: Packet)
    requires m0.Valid() && |g| <= MCLBYTES
    ensures m0.Valid() && m0.Bytes() == old(m0.Bytes())
    ensures fresh(p) && Single(p, g) && fresh(p.ms[0]) && fresh(p.ms[0].data)
  {
    hide Segs; hide Flat; hide Before; hide Single;
    ghost var ss := Segs(m0.ms);
    p := NewPacket(g);
    assert Segs(m0.ms) == ss;
  }

  /** The bytes of a new fragment: the header with its number, and payload copied out of the frame. */
  method Piece(m0: Packet, ghost f: Frame, hdr: nat, i: nat, off: nat, payload: nat) returns (g: Frame)
    requires m0.Valid() && 24 <= hdr <= m0.ms[0].len && m0.Bytes() == MarkFirst(f) && hdr <= off && off + payload <= |f|
    ensures m0.Valid() && m0.Bytes() == old(m0.Bytes())
    ensures g == Headed(f, hdr, i, off, payload)
  {
    hide Contents; hide Before; hide Byte;
    m0.HeadBytes(hdr);
    var h := m0.ms[0].data[m0.ms[0].off..m0.ms[0].off + hdr];
    var data := m0.CopyOut(off, payload);
    assert data == f[off..off + payload];
    assert h == MarkFirst(f[..hdr]);
    g := h[22 := h[22] | Byte(i % 16)] + data;
  }

  /** One more fragment in the list; those of the list hold gs. */
  method Chained(m0: Packet, rest: seq<Packet>, ghost f: Frame, hdr: nat, off: nat, payload: nat, ghost gs: seq<Frame>)
    returns (more: seq<Packet>)
    requires m0.Valid() && 24 <= hdr <= m0.ms[0].len && m0.Bytes() == MarkFirst(f) && hdr <= off && off + payload <= |f|
    requires hdr + payload <= MCLBYTES && |gs| == |rest| && Separate(rest)
    requires forall i :: 0 <= i < |rest| ==> Single(rest[i], gs[i])
    ensures m0.Valid() && m0.Bytes() == old(m0.Bytes())
    ensures |more| == |rest| + 1 && more[..|rest|] == rest && Separate(more)
    ensures forall i :: 0 <= i < |rest| ==> Single(rest[i], gs[i])
    ensures var p := more[|rest|]; fresh(p) && |p.ms| == 1 && fresh(p.ms[0]) && fresh(p.ms[0].data)
    ensures Single(more[|rest|], Headed(f, hdr, |rest| + 1, off, payload))
  {
    hide Contents; hide Before; hide MarkFirst; hide Headed;
    var g := Piece(m0, f, hdr, |rest| + 1, off, payload);
    var p := NewBeside(m0, g);
    more := rest + [p];
  }

  /** The loop: the fragments after the first, each still announcing another. */
  method CutRest(m0: Packet, ghost f: Frame, hdr: nat, ciphdr: nat, mtu: nat, mbufs: nat)
    returns (ok: bool, rest: seq<Packet>)
    requires m0.Valid() && hdr <= m0.ms[0].len && F.Fits(f, hdr, ciphdr, mtu) && m0.Bytes() == MarkFirst(f)
    requires mtu < MCLBYTES
    ensures m0.Valid() && m0.Bytes() == old(m0.Bytes())
    ensures ok <==> F.Count(f, hdr, ciphdr, mtu) - 1 <= mbufs
    ensures ok ==> |rest| == F.Count(f, hdr, ciphdr, mtu) - 1 > 0 && Separate(rest)
    ensures ok ==> forall i :: 0 <= i < |rest| ==> fresh(rest[i]) && fresh(rest[i].ms[0]) && fresh(rest[i].ms[0].data)
    ensures ok ==> forall i :: 0 <= i < |rest| ==> Single(rest[i], Marked(f, hdr, F.Room(hdr, ciphdr, mtu), i + 1))
  {
    hide F.Count; hide F.From; hide Contents; hide Before; hide Marked; hide F.HeaderOf; hide Single;
    ghost var n, room := F.Count(f, hdr, ciphdr, mtu), F.Room(hdr, ciphdr, mtu);
    FirstIs(f, hdr, ciphdr, mtu);
    ok, rest := true, [];
    var off, remainder := mtu - ciphdr, m0.pktlen - (mtu - ciphdr);
    while remainder != 0
      invariant m0.Valid() && m0.Bytes() == MarkFirst(f) && |rest| < n && |rest| <= mbufs
      invariant off == F.From(f, hdr, room, |rest| + 1) && 0 <= remainder == |f| - off
      invariant remainder == 0 <==> |rest| + 1 == n
      invariant Separate(rest)
      invariant forall i :: 0 <= i < |rest| ==> fresh(rest[i]) && fresh(rest[i].ms[0]) && fresh(rest[i].ms[0].data)
      invariant forall i :: 0 <= i < |rest| ==> Single(rest[i], Marked(f, hdr, room, i + 1))
      decreases remainder
    {
      NextFrom(f, hdr, ciphdr, mtu, |rest| + 1);
      if |rest| == mbufs {
        return false, [];
      }
      var fragsize := if hdr + ciphdr + remainder > mtu then mtu else hdr + ciphdr + remainder;
      var payload := fragsize - (hdr + ciphdr);
      MarkedParts(f, hdr, room, |rest| + 1);
      ghost var k := |rest|;
      ghost var gs := seq(k, i requires 0 <= i < k => Marked(f, hdr, room, i + 1));
      rest := Chained(m0, rest, f, hdr, off, payload, gs);
      assert Single(rest[k], Marked(f, hdr, room, k + 1));
      remainder, off := remainder - payload, off + payload;
    }
  }

  /** The last fragment announces no other. */
  method ClearMore(p: Packet, ghost g: Frame)
    requires Single(p, g)
    modifies p.ms[0].data
    ensures Single(p, Unmark(g))
  {
    var b := p.ms[0].data[p.ms[0].off + 1];
    assert b == g[1];
    p.ms[0].data[p.ms[0].off + 1] := b & !MORE;
  }

  /** p shares nothing with m0. */
  ghost predicate Outside(m0: Packet, p: Packet)
    requires |p.ms| == 1
    reads m0, p
  {
    p != m0 && p.ms[0] !in m0.ms && p.ms[0].data !in Storage(m0.ms)
  }

  /** The end: the last fragment loses its mark, and the first loses what was copied out. */
  method Finish(m0: Packet, rest: seq<Packet>, ghost f: Frame, hdr: nat, ciphdr: nat, mtu: nat)
    requires m0.Valid() && F.Fits(f, hdr, ciphdr, mtu) && m0.Bytes() == MarkFirst(f)
    requires |rest| == F.Count(f, hdr, ciphdr, mtu) - 1 > 0 && Separate(rest)
    requires forall i :: 0 <= i < |rest| ==> Single(rest[i], Marked(f, hdr, F.Room(hdr, ciphdr, mtu), i + 1))
    requires forall i :: 0 <= i < |rest| ==> Outside(m0, rest[i])
    modifies m0, m0.ms, rest[|rest| - 1].ms[0].data
    ensures m0.Valid() && m0.Bytes() == F.FragmentOf(f, hdr, ciphdr, mtu, 0) && Separate(rest)
    ensures forall i :: 0 <= i < |rest| ==> Single(rest[i], F.FragmentOf(f, hdr, ciphdr, mtu, i + 1))
  {
    hide F.Count; hide F.From; hide F.FragmentOf; hide Contents; hide Before; hide Marked; hide F.HeaderOf;
    hide Without; hide Unmark; hide MarkFirst; hide Single;
    ghost var room := F.Room(hdr, ciphdr, mtu);
    FirstIs(f, hdr, ciphdr, mtu);
    ClearLast(m0, rest, f, hdr, ciphdr, mtu);
    WithoutIsPrefix(MarkFirst(f), |f| - (mtu - ciphdr));
    ghost var k := |rest|;
    ghost var gs := seq(k, i requires 0 <= i < k => F.FragmentOf(f, hdr, ciphdr, mtu, i + 1));
    TrimFirst(m0, rest, m0.pktlen - (mtu - ciphdr), gs);
  }

  /** m_adj on the first fragment leaves the others alone. */
  method TrimFirst(m0: Packet, rest: seq<Packet>, n: nat, ghost gs: seq<Frame>)
    requires m0.Valid() && |gs| == |rest| && Separate(rest)
    requires forall i :: 0 <= i < |rest| ==> Single(rest[i], gs[i]) && Outside(m0, rest[i])
    modifies m0, m0.ms
    ensures m0.Valid() && m0.Bytes() == Without(old(m0.Bytes()), n) && Separate(rest)
    ensures forall i :: 0 <= i < |rest| ==> Single(rest[i], gs[i])
  {
    hide Contents; hide Before; hide Without;
    m0.AdjTail(n);
  }

  method ClearLast(m0: Packet, rest: seq<Packet>, ghost f: Frame, hdr: nat, ciphdr: nat, mtu: nat)
    requires m0.Valid() && F.Fits(f, hdr, ciphdr, mtu)
    requires |rest| == F.Count(f, hdr, ciphdr, mtu) - 1 > 0 && Separate(rest)
    requires forall i :: 0 <= i < |rest| ==> Single(rest[i], Marked(f, hdr, F.Room(hdr, ciphdr, mtu), i + 1))
    requires forall i :: 0 <= i < |rest| ==> Outside(m0, rest[i])
    modifies rest[|rest| - 1].ms[0].data
    ensures m0.Valid() && m0.Bytes() == old(m0.Bytes())
    ensures forall i :: 0 <= i < |rest| ==> Single(rest[i], F.FragmentOf(f, hdr, ciphdr, mtu, i + 1))
  {
    hide F.Count; hide F.From; hide F.FragmentOf; hide Segs; hide Flat; hide Before; hide Marked; hide Unmark;
    ghost var room, ss := F.Room(hdr, ciphdr, mtu), Segs(m0.ms);
    assert forall m | m in m0.ms :: m.data in Storage(m0.ms);
    ClearMore(rest[|rest| - 1], Marked(f, hdr, room, |rest|));
    assert Segs(m0.ms) == ss;
    forall i | 0 <= i < |rest| ensures Single(rest[i], F.FragmentOf(f, hdr, ciphdr, mtu, i + 1)) {
      MarkedIs(f, hdr, ciphdr, mtu, i + 1);
    }
  }

  /** ieee80211_fragment; the allocator has `mbufs` buffers to give. The first fragment stays in m0, the others are new
      packets of one buffer each, with space in front for the cipher header. */
  method Fragment(m0: Packet, hdr: nat, ciphdr: nat, mtu: nat, mbufs: nat) returns (ok: bool, rest: seq<Packet>)
    requires m0.Valid() && 24 <= hdr <= m0.ms[0].len && |m0.Bytes()| > mtu && hdr + ciphdr < mtu < MCLBYTES
    modifies m0, m0.ms, Storage(m0.ms)
    ensures m0.Valid() && Separate(rest)
    ensures forall i :: 0 <= i < |rest| ==> fresh(rest[i]) && fresh(rest[i].ms[0]) && fresh(rest[i].ms[0].data)
    ensures var f: Frame := old(m0.Bytes());
            && F.Fits(f, hdr, ciphdr, mtu)
            && (ok <==> F.Count(f, hdr, ciphdr, mtu) - 1 <= mbufs)
            && m0.Bytes() == (if ok then F.FragmentOf(f, hdr, ciphdr, mtu, 0) else MarkFirst(f))
            && |rest| == (if ok then F.Count(f, hdr, ciphdr, mtu) - 1 else 0)
            && (forall i :: 0 <= i < |rest| ==> Single(rest[i], F.FragmentOf(f, hdr, ciphdr, mtu, i + 1)))
            && forall i :: 0 <= i < |rest| ==>
                 rest[i].Valid() && rest[i].Bytes() == F.FragmentOf(f, hdr, ciphdr, mtu, i + 1)
  {
    hide F.Count; hide F.From; hide F.FragmentOf; hide Contents; hide Before; hide Marked; hide F.HeaderOf;
    hide Without; hide Unmark; hide MarkFirst; hide Single;
    ghost var f: Frame := m0.Bytes();
    FirstIs(f, hdr, ciphdr, mtu);
    Mark(m0);
    ok, rest := CutRest(m0, f, hdr, ciphdr, mtu, mbufs);
    if !ok {
      return false, [];
    }
    Finish(m0, rest, f, hdr, ciphdr, mtu);
    forall i | 0 <= i < |rest|
      ensures rest[i].Valid() && rest[i].Bytes() == F.FragmentOf(f, hdr, ciphdr, mtu, i + 1)
    {
      SingleIs(rest[i], F.FragmentOf(f, hdr, ciphdr, mtu, i + 1));
    }
  }
}
