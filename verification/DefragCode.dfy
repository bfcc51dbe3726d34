/** ieee80211_defrag: the receiver's side, on buffer chains. */
module DefragCode {
  import opened Blocks
  import opened Mbufs
  import opened Packets
  import opened Frags
  import opened Options
  import F = Frags

  /** A packet whose first buffer holds at least the fixed header; its length field may be off. */
  ghost predicate Sound(p: Packet)
    reads p, p.ms
  {
    p.ms != [] && Chain(p.ms) && p.ms[0].len >= 24
  }

  lemma SoundIsFrame(p: Packet)
    requires Sound(p)
    ensures |Contents(p.ms)| >= 24
  {
    FirstBytes(p.ms, 24);
  }

  ghost function FrameOf(p: Packet): Frame
    requires Sound(p)
    reads p, p.ms, Storage(p.ms)
  {
    SoundIsFrame(p);
    Contents(p.ms)
  }

  /** The decisions look at the fixed header only. */
  lemma HeadDecides(f: Frame, h: Frame, g: Frame, l: Frame)
    requires h == f[..24] && l == g[..24]
    ensures SeqCtl(h) == SeqCtl(f) && FragNo(h) == FragNo(f) && More(h) == More(f)
    ensures Continues(l, h) <==> Continues(g, f)
  {
    assert h[4..10] == f[4..10] && h[10..16] == f[10..16] && l[4..10] == g[4..10] && l[10..16] == g[10..16];
  }

  /** Separate packets. */
  ghost predicate Apart(p: Packet, q: Packet)
    reads p, q
  {
    p != q && forall m, n | m in p.ms && n in q.ms :: m != n && m.data != n.data
  }

  lemma JoinChains(p: Packet, q: Packet)
    requires Sound(p) && Chain(q.ms) && Apart(p, q)
    ensures Chain(p.ms + q.ms) && Contents(p.ms + q.ms) == Contents(p.ms) + Contents(q.ms)
  {
    var ms, ns, all: seq<Mbuf> := p.ms, q.ms, p.ms + q.ms;
    forall i, j | 0 <= i < j < |all| ensures all[i] != all[j] && all[i].data != all[j].data {
      if i < |ms| <= j {
        assert ms[i] in p.ms && ns[j - |ms|] in q.ms;
      }
    }
    ContentsConcat(ms, ns);
  }

  /** The buffers of a packet, and the length it claims. */
  datatype Chained = Chained(ms: seq<Mbuf>, len: nat)

  const NOTHING: Chained := Chained([], 0)

  ghost function View(p: Packet): Chained
    reads p
  {
    Chained(p.ms, p.pktlen)
  }

  /** m stripped of its header and put behind h: m_cat counts the new bytes as well if h is a single buffer. */
  ghost function Together(h: Chained, m: Chained, hdrspace: nat): Chained
    requires hdrspace <= m.len
  {
    var mlen := m.len - hdrspace;
    Chained(h.ms + m.ms, h.len + mlen + (if |h.ms| == 1 then mlen else 0))
  }

  ghost function Buffers(p: Packet?): multiset<Mbuf>
    reads p
  {
    if p == null then multiset{} else multiset(p.ms)
  }

  /** x is one of the two, and the other is nothing. */
  ghost predicate OneIs(r: Packet?, k: Packet?, x: Packet?) { (r == x && k == null) || (r == null && k == x) }

  /** Every buffer of the two packets is in what is kept or was freed. */
  lemma Conserved(held: multiset<Mbuf>, hs: seq<Mbuf>, ms: seq<Mbuf>, freed: seq<Mbuf>, kept: multiset<Mbuf>,
                  dropsHeld: bool, dropsPiece: bool)
    requires kept == (if dropsHeld then multiset{} else held) + (if dropsPiece then multiset{} else multiset(ms))
    requires dropsHeld ==> held == multiset(hs)
    ensures kept + multiset(freed + (if dropsHeld then hs else []) + (if dropsPiece then ms else []))
         == held + multiset(ms) + multiset(freed)
  {
  }

  /** The length field is right exactly when nothing was counted twice. */
  lemma ValidIs(p: Packet, ps: seq<Piece>, b: nat)
    requires Sound(p)
    ensures p.Valid() <==> p.pktlen == |FrameOf(p)|
    ensures p.pktlen == |FrameOf(p)| + Excess(ps, b) ==> (p.Valid() <==> LengthRight(ps, b))
  {
    BeforeAll(p.ms);
  }

  twostate lemma Untouched(p: Packet)
    requires old(Sound(p)) && unchanged(p) && unchanged(p.ms) && forall m | m in p.ms :: unchanged(m.data)
    ensures Sound(p) && FrameOf(p) == old(FrameOf(p)) && p.Valid() == old(p.Valid())
  {
    hide Segs; hide Flat; hide Before;
    assert Segs(p.ms) == old(Segs(p.ms));
  }

  /** By how much the length field of the frame that ps make up is too large; the first piece has b buffers. */
  ghost function Excess(ps: seq<Piece>, b: nat): nat {
    if |ps| > 1 && b == 1 then |ps[1].f| - ps[1].hdr else 0
  }

  /** One piece, or a first piece of several buffers, or a second one without payload. */
  ghost predicate LengthRight(ps: seq<Piece>, b: nat) { |ps| <= 1 || b != 1 || |ps[1].f| == ps[1].hdr }

  /** A chain that holds frame f, made of ps. */
  ghost predicate Counted(c: Chained, f: Frame, ps: seq<Piece>, b: nat) {
    && c.len == |f| + Excess(ps, b)
    && ps != [] && b > 0 && (if |ps| == 1 then |c.ms| == b else |c.ms| > 1)
  }

  lemma CountedSnoc(h: Chained, f: Frame, ps: seq<Piece>, b: nat, m: Chained, p: Piece)
    requires Counted(h, f, ps, b) && m.len == |p.f| && m.ms != []
    ensures Counted(Together(h, m, p.hdr), WithSeq(f, p.f) + p.f[p.hdr..], ps + [p], b)
  {
  }

  /** p does not go on with what is held: it is on its own, or is dropped. */
  predicate Starts(held: Option<Frame>, p: Piece, orphan: bool) {
    held.None? || DropsHeld(held, p, orphan)
  }

  /** The chain of what is held or returned afterwards. */
  ghost function KeptChain(held: Option<Frame>, c: Chained, m: Chained, p: Piece, orphan: bool): Chained
    requires m.len == |p.f|
  {
    if Starts(held, p, orphan) then m else if orphan then c else Together(c, m, p.hdr)
  }

  /** What the step makes of the pieces and of the length. */
  lemma StepKeeps(n: F.Node, arrived: seq<Piece>, c: Chained, b: nat, m: Chained, p: Piece, orphan: bool)
    requires F.Inv(n, arrived) && m.ms != [] && m.len == |p.f|
    requires n.held.Some? ==> Counted(c, n.held.value, n.pieces, b)
    ensures var t, o := F.Step(n, Arrive(p, orphan)), F.Defrag(n.held, p, orphan);
            && F.Inv(t, arrived + [p]) && t.held == o.held
            && t.results == n.results + (if o.result.Some? then [o.result.value] else [])
            && (o.result.Some? ==>
                  && |t.made| > 0
                  && KeptChain(n.held, c, m, p, orphan).len == |o.result.value| + Excess(t.made[|t.made| - 1], b))
            && (o.held.Some? ==>
                  Counted(KeptChain(n.held, c, m, p, orphan), o.held.value, t.pieces,
                          if Starts(n.held, p, orphan) then |m.ms| else b))
  {
    hide F.Inv; hide More; hide FragNo; hide Continues; hide WithSeq;
    F.StepInv(n, Arrive(p, orphan), arrived);
    if n.held.Some? {
      CountedSnoc(c, n.held.value, n.pieces, b, m, p);
    }
  }

  class Station {
    var rxfrag: Packet?
    ghost var freed: seq<Mbuf>     // the buffers given to m_freem
    ghost var node: F.Node         // the pieces behind what is held, was returned and was freed
    ghost var arrived: seq<Piece>
    ghost var first: nat           // the number of buffers of the first piece held

    ghost predicate HeldOk()
      reads this, rxfrag, if rxfrag == null then {} else set m | m in rxfrag.ms
    {
      rxfrag != null ==> Sound(rxfrag)
    }

    /** What is held, as bytes. */
    ghost function Held(): Option<Frame>
      requires HeldOk()
      reads this, rxfrag, if rxfrag == null then {} else set m | m in rxfrag.ms
      reads if rxfrag == null then {} else Storage(rxfrag.ms)
    {
      if rxfrag == null then None else Some(FrameOf(rxfrag))
    }

    /** The packet held is the frame of the node, with the length that its pieces call for. */
    ghost predicate Valid()
      reads this, rxfrag, if rxfrag == null then {} else set m | m in rxfrag.ms
      reads if rxfrag == null then {} else Storage(rxfrag.ms)
    {
      && HeldOk() && Held() == node.held && F.Inv(node, arrived)
      && (rxfrag != null ==> Counted(View(rxfrag), FrameOf(rxfrag), node.pieces, first))
    }

    constructor ()
      ensures Valid() && Held() == None && node == F.FRESH && freed == [] && arrived == []
    {
      rxfrag := null;
      freed, node, arrived, first := [], F.FRESH, [], 0;
      F.FreshInv();
    }

    /** m_freem; `keep` is a packet that stays. */
    method Free(p: Packet, ghost keep: Packet?)
      requires keep != null ==> Sound(keep)
      modifies this`freed
      ensures freed == old(freed) + p.ms
      ensures keep != null ==> Sound(keep) && FrameOf(keep) == old(FrameOf(keep))
    {
      hide Segs; hide Flat;
      ghost var ss := if keep == null then [] else Segs(keep.ms);
      freed := freed + p.ms;
      assert keep != null ==> Segs(keep.ms) == ss;
    }

    /** ieee80211_defrag; `orphan` says that the node is in no table. What is returned or held is the frame that
        reassembly gives. The length of a returned packet is too large by Excess, so it is right exactly when it is one
        piece, its first piece had several buffers, or its second had no payload. Every buffer is held, returned or
        freed, and only once. */
    method Defrag(m: Packet, hdrspace: nat, orphan: bool, ghost id: nat) returns (r: Packet?)
      requires Valid() && Sound(m) && m.Valid() && 24 <= hdrspace <= |m.Bytes()|
      requires rxfrag != null ==> Apart(rxfrag, m)
      modifies this, rxfrag, m, m.ms, if rxfrag == null then {} else Storage(rxfrag.ms)
      ensures Valid()
      ensures var p := Arrival(id, old(FrameOf(m)), hdrspace);
              && node == F.Step(old(node), Arrive(p, orphan)) && arrived == old(arrived) + [p]
              && first == (if Starts(old(node).held, p, orphan) then |old(m.ms)| else old(first))
              && freed == old(freed) + (if DropsHeld(old(node).held, p, orphan) then old(rxfrag.ms) else [])
                          + (if DropsPiece(old(node).held, p, orphan) then old(m.ms) else [])
      ensures if r == null then node.results == old(node).results
              else Sound(r) && node.results == old(node).results + [FrameOf(r)]
                   && |node.made| > 0 && r.pktlen == |FrameOf(r)| + Excess(node.made[|node.made| - 1], old(first))
                   && (r.Valid() <==> LengthRight(node.made[|node.made| - 1], old(first)))
      ensures Buffers(rxfrag) + Buffers(r) + multiset(freed) == old(Buffers(rxfrag) + Buffers(m) + multiset(freed))
      ensures r in {null, m, old(rxfrag)} && rxfrag in {null, m, old(rxfrag)} && (r != null ==> r != rxfrag)
    {
      hide SeqCtl; hide FragNo; hide More; hide Continues; hide WithSeq; hide F.Inv; hide Contents; hide Before;
      hide F.Step;
      hide F.Defrag; hide DropsPiece; hide DropsHeld; hide LengthRight; hide Excess; hide KeptChain; hide Counted;
      hide Starts;
      hide Sound; hide FrameOf;
      ValidIs(m, [], 0);
      ghost var p := Arrival(id, FrameOf(m), hdrspace);
      ghost var c, mv := (if rxfrag == null then NOTHING else View(rxfrag)), View(m);
      r := Conserve(m, hdrspace, orphan, id);
      Track(p, orphan, c, mv, r);
    }

    /** The same on packets alone, with the account of the buffers. */
    method Conserve(m: Packet, hdrspace: nat, orphan: bool, ghost id: nat) returns (r: Packet?)
      requires HeldOk() && Sound(m) && m.Valid() && 24 <= hdrspace <= |m.Bytes()|
      requires rxfrag != null ==> Apart(rxfrag, m)
      modifies this`rxfrag, this`freed, rxfrag, m, m.ms, if rxfrag == null then {} else Storage(rxfrag.ms)
      ensures HeldOk() && (r != null ==> Sound(r))
      ensures var held, p := old(Held()), Arrival(id, old(FrameOf(m)), hdrspace);
              var o := F.Defrag(held, p, orphan);
              && Held() == o.held && (if r == null then o.result == None else o.result == Some(FrameOf(r)))
              && freed == old(freed) + (if DropsHeld(held, p, orphan) then old(rxfrag.ms) else [])
                          + (if DropsPiece(held, p, orphan) then old(m.ms) else [])
      ensures var c := old(if rxfrag == null then NOTHING else View(rxfrag));
              var k := KeptChain(old(Held()), c, old(View(m)), Arrival(id, old(FrameOf(m)), hdrspace), orphan);
              (r != null ==> View(r) == k) && (rxfrag != null ==> View(rxfrag) == k)
      ensures Buffers(rxfrag) + Buffers(r) + multiset(freed) == old(Buffers(rxfrag) + Buffers(m) + multiset(freed))
      ensures r in {null, m, old(rxfrag)} && rxfrag in {null, m, old(rxfrag)} && (r != null ==> r != rxfrag)
    {
      hide Contents; hide F.Defrag; hide FragNo; hide More; hide Continues;
      BeforeAll(m.ms);
      ghost var p := Arrival(id, FrameOf(m), hdrspace);
      ghost var held, b, hs := Held(), Buffers(rxfrag), if rxfrag == null then [] else rxfrag.ms;
      ghost var was := freed;
      r := Reassemble(m, hdrspace, orphan, id);
      ghost var dh, dp := DropsHeld(held, p, orphan), DropsPiece(held, p, orphan);
      Conserved(b, hs, old(m.ms), was, Buffers(rxfrag) + Buffers(r), dh, dp);
    }

    /** Bookkeeping: the machine of module Frags takes the same step. The held chain was c, the new one m. */
    ghost method Track(p: Piece, orphan: bool, c: Chained, m: Chained, r: Packet?)
      requires HeldOk() && (r != null ==> Sound(r)) && F.Inv(node, arrived) && m.ms != [] && m.len == |p.f|
      requires node.held.Some? ==> Counted(c, node.held.value, node.pieces, first)
      requires var o := F.Defrag(node.held, p, orphan);
               Held() == o.held && (if r == null then o.result == None else o.result == Some(FrameOf(r)))
      requires var k := KeptChain(node.held, c, m, p, orphan);
               (r != null ==> View(r) == k) && (rxfrag != null ==> View(rxfrag) == k)
      modifies this`node, this`arrived, this`first
      ensures Valid() && node == F.Step(old(node), Arrive(p, orphan)) && arrived == old(arrived) + [p]
      ensures first == if Starts(old(node).held, p, orphan) then |m.ms| else old(first)
      ensures if r == null then node.results == old(node).results
              else Sound(r) && node.results == old(node).results + [FrameOf(r)]
                   && |node.made| > 0 && r.pktlen == |FrameOf(r)| + Excess(node.made[|node.made| - 1], old(first))
                   && (r.Valid() <==> LengthRight(node.made[|node.made| - 1], old(first)))
    {
      hide F.Step; hide F.Defrag; hide F.Inv; hide Starts; hide Contents; hide Before; hide LengthRight; hide Excess;
      hide KeptChain; hide Counted; hide Sound; hide FrameOf;
      var t := F.Step(node, Arrive(p, orphan));
      StepKeeps(node, arrived, c, first, m, p, orphan);
      if r != null {
        ValidIs(r, t.made[|t.made| - 1], first);
      }
      Record(t, arrived + [p], if Starts(node.held, p, orphan) then |m.ms| else first, r);
    }

    /** The records are no part of the packets. */
    ghost method Record(n: F.Node, ps: seq<Piece>, b: nat, r: Packet?)
      requires HeldOk() && (r != null ==> Sound(r))
      modifies this`node, this`arrived, this`first
      ensures node == n && arrived == ps && first == b && HeldOk() && Held() == old(Held())
      ensures r != null ==> Sound(r) && FrameOf(r) == old(FrameOf(r)) && r.Valid() == old(r.Valid())
    {
      hide Sound; hide FrameOf; hide Chain; hide Before;
      node, arrived, first := n, ps, b;
      if rxfrag != null {
        Untouched(rxfrag);
      }
      if r != null {
        Untouched(r);
      }
    }

    /** The same on packets alone. */
    method Reassemble(m: Packet, hdrspace: nat, orphan: bool, ghost id: nat) returns (r: Packet?)
      requires HeldOk() && Sound(m) && m.Valid() && 24 <= hdrspace <= |m.Bytes()|
      requires rxfrag != null ==> Apart(rxfrag, m)
      modifies this`rxfrag, this`freed, rxfrag, m, m.ms, if rxfrag == null then {} else Storage(rxfrag.ms)
      ensures HeldOk() && (r != null ==> Sound(r))
      ensures var held, p := old(Held()), Arrival(id, old(FrameOf(m)), hdrspace);
              var o := F.Defrag(held, p, orphan);
              && Held() == o.held && (if r == null then o.result == None else o.result == Some(FrameOf(r)))
              && freed == old(freed) + (if DropsHeld(held, p, orphan) then old(rxfrag.ms) else [])
                          + (if DropsPiece(held, p, orphan) then old(m.ms) else [])
      ensures var held, p := old(Held()), Arrival(id, old(FrameOf(m)), hdrspace);
              if Starts(held, p, orphan) then
                if DropsPiece(held, p, orphan) then r == null && rxfrag == null
                else OneIs(r, rxfrag, m) && View(m) == old(View(m))
              else if orphan then r == null && rxfrag == old(rxfrag) && View(rxfrag) == old(View(rxfrag))
              else OneIs(r, rxfrag, old(rxfrag))
                   && View(old(rxfrag)) == Together(old(View(rxfrag)), old(View(m)), hdrspace)
    {
      hide Contents; hide Before; hide SeqCtl; hide FragNo; hide More; hide Continues; hide WithSeq;
      ghost var f := FrameOf(m);
      FirstBytes(m.ms, 24);
      var h := m.ms[0].data[m.ms[0].off..m.ms[0].off + 24];
      HeadDecides(f, h, f, h);
      if !More(h) && FragNo(h) == 0 && rxfrag == null {
        return m;
      }
      if orphan {
        Free(m, rxfrag);
        return null;
      }
      var mfrag := Combine(m, hdrspace, h);
      r := KeepOrReturn(mfrag, More(h));
    }

    /** The frame held goes on with m, or m starts afresh, or m is dropped; what is not used is freed. */
    method Combine(m: Packet, hdrspace: nat, h: Frame) returns (mfrag: Packet?)
      requires HeldOk() && Sound(m) && m.Valid() && 24 <= hdrspace <= |m.Bytes()| && h == FrameOf(m)[..24]
      requires rxfrag != null ==> Apart(rxfrag, m)
      modifies this`rxfrag, this`freed, rxfrag, m, m.ms, if rxfrag == null then {} else Storage(rxfrag.ms)
      ensures rxfrag == null && (mfrag != null ==> Sound(mfrag))
      ensures var held, f := old(rxfrag), old(FrameOf(m));
              if held != null && Continues(old(FrameOf(rxfrag)), f) then
                && mfrag == held && freed == old(freed)
                && FrameOf(held) == WithSeq(old(FrameOf(rxfrag)), f) + f[hdrspace..]
                && View(held) == Together(old(View(rxfrag)), old(View(m)), hdrspace)
              else
                var dropped := if held == null then [] else old(rxfrag.ms);
                if FragNo(f) != 0 then mfrag == null && freed == old(freed) + dropped + old(m.ms)
                else mfrag == m && FrameOf(m) == f && View(m) == old(View(m)) && freed == old(freed) + dropped
    {
      hide Contents; hide Before; hide SeqCtl; hide FragNo; hide More; hide Continues; hide WithSeq;
      ghost var f := FrameOf(m);
      HeadDecides(f, h, f, h);
      mfrag := Take(m);
      if mfrag != null {
        FirstBytes(mfrag.ms, 24);
        var l := mfrag.ms[0].data[mfrag.ms[0].off..mfrag.ms[0].off + 24];
        HeadDecides(f, h, FrameOf(mfrag), l);
        if !Continues(l, h) {
          Free(mfrag, m);
          mfrag := null;
        }
      }
      if mfrag == null {
        if FragNo(h) != 0 {
          Free(m, null);
          return;
        }
        mfrag := m;
      } else {
        Concatenate(mfrag, m, hdrspace);
      }
    }

    /** What is held, taken off so that the timer does not reap it. */
    method Take(ghost m: Packet) returns (mfrag: Packet?)
      requires HeldOk() && Sound(m)
      modifies this`rxfrag
      ensures mfrag == old(rxfrag) && rxfrag == null && Sound(m) && FrameOf(m) == old(FrameOf(m))
      ensures mfrag != null ==> Sound(mfrag) && FrameOf(mfrag) == old(FrameOf(rxfrag))
    {
      hide Segs; hide Flat;
      ghost var ss := if rxfrag == null then [] else Segs(rxfrag.ms);
      ghost var tt := Segs(m.ms);
      mfrag := rxfrag;
      rxfrag := null;
      assert mfrag != null ==> Segs(mfrag.ms) == ss;
      assert Segs(m.ms) == tt;
    }

    /** ieee80211_defrag, its end: hold what there is while more is to come. */
    method KeepOrReturn(mfrag: Packet?, more: bool) returns (r: Packet?)
      requires rxfrag == null && (mfrag != null ==> Sound(mfrag))
      modifies this`rxfrag
      ensures mfrag != null ==> Sound(mfrag) && FrameOf(mfrag) == old(FrameOf(mfrag))
      ensures if more then rxfrag == mfrag && r == null else rxfrag == null && r == mfrag
    {
      hide Segs; hide Flat;
      ghost var ss := if mfrag == null then [] else Segs(mfrag.ms);
      r := mfrag;
      if more {
        rxfrag, r := mfrag, null;
      }
      assert mfrag != null ==> Segs(mfrag.ms) == ss;
    }

    /** The timer, once what is held is too old. */
    method Reap()
      requires Valid()
      modifies this
      ensures Valid() && rxfrag == null && node == F.Step(old(node), F.Reap) && arrived == old(arrived)
      ensures multiset(freed) == old(Buffers(rxfrag) + multiset(freed))
    {
      hide F.Inv;
      F.StepInv(node, F.Reap, arrived);
      assert arrived + [] == arrived;
      if rxfrag != null {
        Free(rxfrag, null);
        rxfrag := null;
      }
      node := F.Step(node, F.Reap);
    }
  }

  /** m_cat, and the length that ieee80211_defrag adds behind it. m_cat counts the new bytes too when it finds the
      packet header in the last buffer of the chain, that is, when the chain is a single buffer. */
  method Cat(mfrag: Packet, m: Packet)
    requires Sound(mfrag) && m.Valid() && Apart(mfrag, m)
    modifies mfrag
    ensures Sound(mfrag) && Contents(mfrag.ms) == old(Contents(mfrag.ms)) + old(Contents(m.ms))
    ensures mfrag.ms == old(mfrag.ms) + m.ms && mfrag.ms[0] == old(mfrag.ms[0])
    ensures mfrag.pktlen == old(mfrag.pktlen) + m.pktlen + (if |old(mfrag.ms)| == 1 then m.pktlen else 0)
  {
    hide Segs; hide Flat; hide Before;
    ghost var ms := mfrag.ms;
    ghost var ss, tt := Segs(ms), Segs(m.ms);
    var single := |mfrag.ms| == 1;
    JoinChains(mfrag, m);
    ghost var all := mfrag.ms + m.ms;
    ghost var uu := Segs(all);
    mfrag.ms := mfrag.ms + m.ms;
    if single {
      mfrag.pktlen := mfrag.pktlen + m.pktlen;
    }
    mfrag.pktlen := mfrag.pktlen + m.pktlen;
    assert Segs(mfrag.ms) == uu;
  }

  /** Strip the header of m and put the rest behind mfrag. */
  method Behind(mfrag: Packet, m: Packet, hdrspace: nat)
    requires Sound(mfrag) && m.Valid() && Apart(mfrag, m) && hdrspace <= |m.Bytes()|
    modifies mfrag, m, m.ms
    ensures Sound(mfrag) && mfrag.ms[0] == old(mfrag.ms[0])
    ensures Contents(mfrag.ms) == old(Contents(mfrag.ms)) + old(Contents(m.ms))[hdrspace..]
    ensures View(mfrag) == Together(old(View(mfrag)), old(View(m)), hdrspace)
  {
    hide Segs; hide Flat; hide Before; hide From;
    ghost var g, ss := Contents(m.ms), Segs(mfrag.ms);
    m.AdjHead(hdrspace);
    FromIs(g, hdrspace);
    assert Segs(mfrag.ms) == ss;
    Cat(mfrag, m);
  }

  /** Strip the header of m and put the rest behind mfrag, whose sequence control becomes that of m. */
  method Concatenate(mfrag: Packet, m: Packet, hdrspace: nat)
    requires Sound(mfrag) && Sound(m) && m.Valid() && Apart(mfrag, m) && 24 <= hdrspace <= |m.Bytes()|
    modifies mfrag, m, m.ms, Storage(mfrag.ms)
    ensures Sound(mfrag)
    ensures FrameOf(mfrag) == WithSeq(old(FrameOf(mfrag)), old(FrameOf(m))) + old(FrameOf(m))[hdrspace..]
    ensures View(mfrag) == Together(old(View(mfrag)), old(View(m)), hdrspace)
  {
    hide Contents; hide Before;
    ghost var f, g := FrameOf(mfrag), FrameOf(m);
    FirstBytes(m.ms, 24);
    var h := m.ms[0].data[m.ms[0].off..m.ms[0].off + 24];
    Behind(mfrag, m, hdrspace);
    assert mfrag.ms[0].data in Storage(old(mfrag.ms));
    PutFirst(mfrag.ms, 22, h[22..24]);
    SpliceIsWithSeq(f, g, g[hdrspace..], h);
  }

  lemma FromIs(s: seq<byte>, n: nat)
    requires n <= |s|
    ensures From(s, n) == s[n..]
  {
  }

  lemma SpliceIsWithSeq(f: Frame, g: Frame, tail: seq<byte>, h: Frame)
    requires h == g[..24]
    ensures Splice(f + tail, 22, h[22..24]) == WithSeq(f, g) + tail
  {
  }

  /** Two fragments of one frame: a bare header, and a header with one byte of payload. */
  const FIRST: Arrival := Arrival(0, [0, MORE] + seq(22, _ => 0), 24)
  const SECOND: Arrival := Arrival(1, [0, 0] + seq(20, _ => 0) + [1, 0] + seq(9, _ => 7), 24)

  /** What the two make up. */
  const BOTH: Frame := WithSeq(FIRST.f, SECOND.f) + SECOND.f[24..]

  lemma TwoSteps()
    ensures var n := F.Step(F.FRESH, Arrive(FIRST, false));
            && n.held == Some(FIRST.f) && n.pieces == [FIRST] && n.made == [] && n.results == []
            && !Starts(n.held, SECOND, false)
            && F.Step(n, Arrive(SECOND, false)).made == [[FIRST, SECOND]]
            && F.Step(n, Arrive(SECOND, false)).results == [BOTH]
  {
    var f, g := FIRST.f, SECOND.f;
    Lows();
    assert f[4..10] == g[4..10] && f[10..16] == g[10..16];
    assert [FIRST] + [SECOND] == [FIRST, SECOND];
  }

  lemma Lows()
    ensures Value(0) == 0 && Value(1) == 1 && More(FIRST.f) && !More(SECOND.f)
  {
  }

  /** Each of them arrives in one buffer. The packet returned claims nine bytes too many. */
  method TwoFragments() returns (r: Packet?)
    ensures r != null && Sound(r) && FrameOf(r) == BOTH && r.pktlen == |BOTH| + 9
  {
    hide F.Step; hide Segs; hide Flat; hide Before; hide F.Inv; hide Counted;
    var b := OneBuffer(SECOND.f);
    ghost var ss := Segs(b.ms);
    var st := OneHeld();
    assert Segs(b.ms) == ss;
    r := Finish(st, b);
  }

  method OneHeld() returns (st: Station)
    ensures fresh(st) && st.Valid() && st.node == F.Step(F.FRESH, Arrive(FIRST, false)) && st.first == 1
    ensures st.rxfrag != null && fresh(st.rxfrag) && forall m | m in st.rxfrag.ms :: fresh(m) && fresh(m.data)
  {
    hide F.Step; hide Contents; hide Before; hide LengthRight; hide Sound; hide FrameOf; hide F.Inv; hide Counted;
    TwoSteps();
    st := new Station();
    var a := OneBuffer(FIRST.f);
    ghost var ms := a.ms;
    var r := st.Defrag(a, 24, false, 0);
    AmongThem(st.rxfrag, Buffers(r), st.freed, ms);
  }

  lemma AmongThem(p: Packet?, r: multiset<Mbuf>, freed: seq<Mbuf>, ms: seq<Mbuf>)
    requires Buffers(p) + r + multiset(freed) == multiset{} + multiset(ms) + multiset([])
    ensures p != null ==> forall m | m in p.ms :: m in ms
  {
    if p != null {
      forall m | m in p.ms ensures m in ms {
        assert m in multiset(p.ms) && m in Buffers(p) + r + multiset(freed);
        assert m in multiset(ms);
      }
    }
  }

  method Finish(st: Station, b: Packet) returns (r: Packet?)
    requires st.Valid() && st.node == F.Step(F.FRESH, Arrive(FIRST, false)) && st.first == 1
    requires Sound(b) && b.Valid() && FrameOf(b) == SECOND.f && (st.rxfrag != null ==> Apart(st.rxfrag, b))
    modifies st, st.rxfrag, b, b.ms, if st.rxfrag == null then {} else Storage(st.rxfrag.ms)
    ensures r != null && Sound(r) && FrameOf(r) == BOTH && r.pktlen == |BOTH| + 9
  {
    hide F.Step; hide Contents; hide Before; hide Sound; hide FrameOf;
    TwoSteps();
    ValidIs(b, [], 0);
    r := st.Defrag(b, 24, false, 1);
  }

  method OneBuffer(f: Frame) returns (p: Packet)
    ensures fresh(p) && Sound(p) && p.Valid() && p.Bytes() == f == FrameOf(p) && |p.ms| == 1
    ensures fresh(p.ms[0]) && fresh(p.ms[0].data)
  {
    hide Segs; hide Flat; hide Before;
    var m := FilledMbuf(f, []);
    p := PacketOf(m);
  }
}
