/** The receive path of ieee80211_input for a TKIP key: reassembly, then the MIC over the whole frame. */
module Receive {
  import opened Blocks
  import opened Mbufs
  import opened Packets
  import opened Frags
  import opened DefragCode
  import opened TkipCode

  /** The last eight bytes are the MIC of the rest. */
  predicate Genuine(key: seq<byte>, f: seq<byte>, hdrlen: nat)
    requires |key| == 8 && MicHeader(f, hdrlen) && hdrlen + MICLEN <= |f|
  {
    var m := |f| - MICLEN;
    f[m..] == M.Mic(key, M.CodeHeader(f[..hdrlen]), f[hdrlen..m])
  }

  /** tkip_demic accepts f with length field len, whatever is on the stack. */
  ghost predicate AlwaysAccepted(key: seq<byte>, f: seq<byte>, hdrlen: nat, len: nat)
    requires |key| == 8 && MicHeader(f, hdrlen)
  {
    Inside(f, hdrlen, len) && forall stack: seq<byte> | |stack| == MICLEN :: MicFits(key, f, hdrlen, len, stack)
  }

  /** A genuine frame that reassembly made of pieces ps, with the length field it has then, always passes its MIC check
      if and only if the length field is right: it is one piece, its first piece had several buffers, or its second no
      payload. With more than eight bytes too many, the check leaves the chain. */
  lemma GenuineExactly(key: seq<byte>, f: seq<byte>, hdrlen: nat, ps: seq<Piece>, b: nat)
    requires |key| == 8 && MicHeader(f, hdrlen) && hdrlen + MICLEN <= |f| && Genuine(key, f, hdrlen)
    ensures AlwaysAccepted(key, f, hdrlen, |f| + Excess(ps, b)) <==> LengthRight(ps, b)
    ensures Inside(f, hdrlen, |f| + Excess(ps, b)) <==> Excess(ps, b) <= MICLEN
  {
    hide M.Mic; hide M.CodeHeader; hide MicFits; hide MicHeader;
    var len := |f| + Excess(ps, b);
    if LengthRight(ps, b) {
      forall stack: seq<byte> | |stack| == MICLEN ensures MicFits(key, f, hdrlen, len, stack) {
        MicIsLast(key, f, hdrlen, stack);
      }
    } else if Inside(f, hdrlen, len) {
      TooLongRefused(key, f, hdrlen, len);
    }
  }

  /** The packet that TwoFragments makes, under any key whose MIC is in software: the check leaves the chain. */
  method LeavesChain(k: TkipKey, r: Packet) returns (ok: bool, inside: bool)
    requires k.Valid() && k.swmic && Sound(r) && FrameOf(r) == BOTH && r.pktlen == |BOTH| + 9
    modifies k`rsc, r, r.ms
    ensures !inside && !ok
  {
    hide Contents; hide Before; hide M.Mic; hide M.CodeHeader; hide MicFits; hide H.HdrSpace; hide MicHeader;
    BothHeader();
    FirstBytes(r.ms, r.ms[0].len);
    ok, inside := k.Demic(r, false, false, [0, 0, 0, 0, 0, 0, 0, 0]);
  }

  /** A frame that is a bare header, as decapsulation of a body of no bytes leaves it: the length wraps, and the check
      leaves the chain. */
  method BareHeader(k: TkipKey, r: Packet) returns (ok: bool, inside: bool)
    requires k.Valid() && k.swmic && Sound(r) && r.Valid() && FrameOf(r) == FIRST.f
    modifies k`rsc, r, r.ms
    ensures !inside && !ok
  {
    hide Contents; hide Before; hide M.Mic; hide M.CodeHeader; hide MicFits; hide H.HdrSpace; hide MicHeader;
    FirstHeader();
    FirstBytes(r.ms, r.ms[0].len);
    ValidIs(r, [], 0);
    ok, inside := k.Demic(r, false, false, [0, 0, 0, 0, 0, 0, 0, 0]);
  }

  lemma FirstHeader()
    ensures |FIRST.f| == 24 && H.HdrSpace(FIRST.f, false) == 24 && MicHeader(FIRST.f, 24)
  {
    assert FIRST.f[0] == 0 && FIRST.f[1] == MORE;
  }

  lemma BothHeader()
    ensures |BOTH| == 33 && H.HdrSpace(BOTH, false) == 24 && MicHeader(BOTH, 24)
  {
    assert BOTH[0] == 0 && BOTH[1] == MORE;
  }
}
