/** From the bits of the TIM bitmap to what sleeping stations read in a beacon. */
module Tim {
  import opened Beacon
  import P = PowerSave
  import C = PowerSaveCode

  /** The bits as bytes. */
  function Octets(bits: seq<bool>): (s: seq<Oct>)
    requires |bits| % 8 == 0
    ensures |s| == |bits| / 8
  {
    seq<Oct>(|bits| / 8, k requires 0 <= k < |bits| / 8 => bits[8 * k..8 * k + 8])
  }

  lemma BitOfOctets(bits: seq<bool>, aid: nat)
    requires |bits| % 8 == 0
    ensures Bit(Octets(bits), aid) <==> aid < |bits| && bits[aid]
  {
    if aid < |bits| {
      assert Octets(bits)[aid / 8] == bits[8 * (aid / 8)..8 * (aid / 8) + 8];
    }
  }

  lemma {:induction false} NoneSet(bits: seq<bool>)
    ensures P.Ones(bits) == 0 <==> forall k :: 0 <= k < |bits| ==> !bits[k]
  {
    if bits != [] {
      NoneSet(bits[1..]);
      assert forall k :: 0 < k < |bits| ==> bits[k] == bits[1..][k - 1];
    }
  }

  /** Nothing is pending exactly when every byte is zero. */
  lemma PendingIsEmpty(bits: seq<bool>)
    requires |bits| % 8 == 0
    ensures P.Ones(bits) == 0 <==> Empty(Octets(bits))
  {
    NoneSet(bits);
    var s := Octets(bits);
    if P.Ones(bits) == 0 {
      forall k | 0 <= k < |s| ensures s[k] == ZERO { }
    }
    if Empty(s) {
      forall k | 0 <= k < |bits| ensures !bits[k] {
        BitOfOctets(bits, k);
        assert s[k / 8] == ZERO;
        assert !ZERO[k % 8];
      }
    }
  }

  /** In every run, an update that changes the length or keeps the offset tells each station exactly whether frames
      are saved for it or a bit was left behind for its id. */
  lemma StationsReadTheirBit(n: nat, es: seq<P.Event>, off: nat, len: nat, id: P.Id)
    requires 0 < n && n % 8 == 0 && id in P.Run(n, es).ps.stas && off % 2 == 0
    ensures var s := P.Run(n, es);
            var bitmap, x := Octets(s.ps.bits), s.ps.stas[id];
            && (s.ps.pending == 0 <==> Empty(bitmap))
            && (Len(bitmap) != len || off == Off(bitmap) || s.ps.pending == 0 ==>
                  (Decoded(NewOff(bitmap, off, len), Window(bitmap), x.aid) <==> x.queue != [] || x.aid in s.stale))
  {
    hide Off; hide Len; hide Window; hide NewOff; hide Decoded; hide P.Run;
    var ps := P.Run(n, es).ps;
    P.InEveryRun(n, es, id);
    PendingIsEmpty(ps.bits);
    BitOfOctets(ps.bits, ps.stas[id].aid);
    UpdateExactly(Octets(ps.bits), off, len);
  }

  /** The bitmap after t events. */
  ghost function BitmapAt(n: nat, es: seq<P.Event>, t: nat): (b: seq<Oct>)
    requires 0 < n && n % 8 == 0 && t <= |es|
    ensures b != []
  {
    Octets(P.Run(n, es[..t]).ps.bits)
  }

  /** The bitmaps at some points of a run. */
  ghost function Bitmaps(n: nat, es: seq<P.Event>, ts: seq<nat>): (bs: seq<seq<Oct>>)
    requires 0 < n && n % 8 == 0 && forall i :: 0 <= i < |ts| ==> ts[i] <= |es|
    ensures |bs| == |ts| && Proper(bs) && forall i :: 0 <= i < |ts| ==> bs[i] == BitmapAt(n, es, ts[i])
  {
    seq(|ts|, i requires 0 <= i < |ts| => BitmapAt(n, es, ts[i]))
  }

  /** Every station reads exactly whether frames wait for it. */
  ghost predicate AllTold(ps: P.Ps, off: nat, window: seq<Oct>) {
    forall id :: id in ps.stas ==> (Decoded(off, window, ps.stas[id].aid) <==> ps.stas[id].queue != [])
  }

  /** With bits and queues in step, the bits as they are read are right for the stations that there are exactly when the
      offset is right. */
  lemma ToldExactly(ps: P.Ps, off: nat)
    requires |ps.bits| % 8 == 0 && ps.bits != [] && off % 2 == 0 && P.Distinct(ps) && P.BitsRight(ps)
    ensures var b := Octets(ps.bits); AllTold(ps, off, Window(b)) <==> off == Off(b) || Empty(b)
  {
    hide Off; hide Len; hide Window; hide Decoded; hide Bit; hide Empty;
    var b := Octets(ps.bits);
    if off == Off(b) || Empty(b) {
      UpdateExactly(b, off, Len(b));
      forall id | id in ps.stas ensures Decoded(off, Window(b), ps.stas[id].aid) <==> ps.stas[id].queue != [] {
        WaitingIs(ps, id);
        BitOfOctets(ps.bits, ps.stas[id].aid);
      }
    } else {
      var aid := Misread(b, off);
      BitOfOctets(ps.bits, aid);
      assert P.Waiting(ps, aid);
    }
  }

  lemma WaitingIs(ps: P.Ps, id: P.Id)
    requires P.Distinct(ps) && id in ps.stas
    ensures P.Waiting(ps, ps.stas[id].aid) <==> ps.stas[id].queue != []
  {
  }

  /** Beacons are updated at points ts of a run in which stations leave with empty queues. After the last update every
      station reads exactly whether frames wait for it, if and only if the window starts where it did when its length
      was last changed, or nothing is pending. */
  lemma BeaconsTell(n: nat, es: seq<P.Event>, ts: seq<nat>, j: nat)
    requires 0 < n && n % 8 == 0 && (forall i :: 0 <= i < |ts| ==> ts[i] <= |es|) && P.TidyRun(n, es)
    requires j < |ts| && Since(Bitmaps(n, es, ts), j)
    ensures var t := ts[|ts| - 1];
            var bs, ps := Bitmaps(n, es, ts), P.Run(n, es[..t]).ps;
            var b := BitmapAt(n, es, t);
            AllTold(ps, Shown(bs).0, Window(b)) <==> Off(b) == Off(bs[j]) || ps.pending == 0
  {
    hide Off; hide Len; hide Window; hide P.Run; hide Shown; hide Empty; hide Since; hide AllTold; hide P.BitsRight;
    hide Bitmaps;
    var bs, t := Bitmaps(n, es, ts), ts[|ts| - 1];
    var ps := P.Run(n, es[..t]).ps;
    P.LeftBehindExactly(n, es);
    P.InvOfRun(n, es[..t]);
    PendingIsEmpty(ps.bits);
    OffSince(bs, j);
    ToldExactly(ps, Shown(bs).0);
  }

  /** The element of the beacon is that of the updates so far, and holds the window of the bits of the last one. */
  ghost predicate Shows(ap: C.TimAp, b: BeaconFrame, bs: seq<seq<Oct>>)
    reads ap, b, b.buf
  {
    && b.Valid() && |ap.shown| % 8 == 0 && ap.shown != [] && bs != [] && Proper(bs)
    && bs[|bs| - 1] == Octets(ap.shown) && b.Tim() == Window(Octets(ap.shown)) && (b.off, b.timLen) == Shown(bs)
  }

  /** An update with the same bits changes nothing. */
  lemma SameAgain(bs: seq<seq<Oct>>)
    requires bs != [] && Proper(bs)
    ensures Shown(bs + [bs[|bs| - 1]]) == Shown(bs)
  {
    hide Off; hide Len;
    assert (bs + [bs[|bs| - 1]])[..|bs|] == bs;
  }

  lemma NextShown(bs: seq<seq<Oct>>, b: seq<Oct>)
    requires bs != [] && b != [] && Proper(bs)
    ensures Shown(bs + [b]) == (NewOff(b, Shown(bs).0, Shown(bs).1), Len(b))
  {
    hide Off; hide Len; hide NewOff;
    assert (bs + [b])[..|bs|] == bs;
  }

  /** The TIM part of ieee80211_beacon_update, under its flag: whether or not the flag was set, the element is then that
      of one more update, with the current bitmap, and a station reads its bit right as ReadExactly says. */
  method UpdateBeacon(ap: C.TimAp, b: BeaconFrame, ghost bs: seq<seq<Oct>>)
    requires ap.Valid() && Shows(ap, b, bs) && |ap.shown| / 8 + b.trailerLen <= b.buf.Length
    requires Off(Octets(ap.tim[..])) != 128
    modifies ap`timUpdate, ap`shown, b, b.buf
    ensures ap.Valid() && !ap.timUpdate && ap.shown == ap.tim[..]
    ensures Shows(ap, b, bs + [Octets(ap.tim[..])])
    ensures b.off == NewOff(Octets(ap.tim[..]), old(b.off), old(b.timLen))
    ensures b.Trailer() == old(b.Trailer()) && b.trailerLen == old(b.trailerLen)
  {
    hide P.Inv; hide Off; hide Window; hide Empty; hide NewOff; hide Shown;
    NextShown(bs, Octets(ap.tim[..]));
    if ap.timUpdate {
      var bits := ap.tim[..];
      CountIs(ap);
      PendingIsEmpty(bits);
      b.UpdateTim(Octets(bits), ap.pending);
      ap.timUpdate := false;
      ap.shown := bits;
    } else {
      SameAgain(bs);
    }
  }

  lemma CountIs(ap: C.TimAp)
    requires ap.Valid()
    ensures ap.pending == P.Ones(ap.tim[..])
  {
  }
}
