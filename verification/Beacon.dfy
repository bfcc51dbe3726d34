/** The TIM element of beacons: the window of the bitmap that ieee80211_beacon_update copies in. */
module Beacon {

  /** A byte of the bitmap, bit by bit. */
  type Oct = b: seq<bool> | |b| == 8 witness [false, false, false, false, false, false, false, false]

  const ZERO: Oct := [false, false, false, false, false, false, false, false]

  predicate Empty(bitmap: seq<Oct>) { forall k :: 0 <= k < |bitmap| ==> bitmap[k] == ZERO }

  function Even(n: nat): (e: nat)
    ensures e % 2 == 0 && e <= n <= e + 1
  {
    n - n % 2
  }

  /** The first byte that is not zero. */
  function First(bitmap: seq<Oct>): (i: nat)
    requires !Empty(bitmap)
    ensures i < |bitmap| && bitmap[i] != ZERO && forall k :: 0 <= k < i ==> bitmap[k] == ZERO
  {
    if bitmap[0] != ZERO then 0 else
      assert exists k :: 0 < k < |bitmap| && bitmap[k] != ZERO;
      assert !Empty(bitmap[1..]) by {
        var k :| 0 < k < |bitmap| && bitmap[k] != ZERO;
        assert bitmap[1..][k - 1] != ZERO;
      }
      1 + First(bitmap[1..])
  }

  /** The last byte that is not zero. */
  function Last(bitmap: seq<Oct>): (i: nat)
    requires !Empty(bitmap)
    ensures i < |bitmap| && bitmap[i] != ZERO && forall k :: i < k < |bitmap| ==> bitmap[k] == ZERO
  {
    var n := |bitmap| - 1;
    if bitmap[n] != ZERO then n else
      assert exists k :: 0 <= k < n && bitmap[k] != ZERO;
      assert !Empty(bitmap[..n]) by { var k :| 0 <= k < n && bitmap[k] != ZERO; assert bitmap[..n][k] != ZERO; }
      Last(bitmap[..n])
  }

  /** Where the window starts: at an even offset. */
  function Off(bitmap: seq<Oct>): (o: nat)
    ensures o % 2 == 0
  {
    if Empty(bitmap) then 0 else Even(First(bitmap))
  }

  /** How long it is: at least one byte. */
  function Len(bitmap: seq<Oct>): (n: nat)
    requires bitmap != []
    ensures n >= 1 && Off(bitmap) + n <= |bitmap|
  {
    if Empty(bitmap) then 1 else 1 + (Last(bitmap) - Off(bitmap))
  }

  /** The window leaves out zero bytes only. */
  lemma WindowCovers(bitmap: seq<Oct>, k: nat)
    requires bitmap != [] && k < |bitmap| && !(Off(bitmap) <= k < Off(bitmap) + Len(bitmap))
    ensures bitmap[k] == ZERO
  {
  }

  /** Station aid's bit in the bitmap. */
  predicate Bit(bitmap: seq<Oct>, aid: nat) { aid / 8 < |bitmap| && bitmap[aid / 8][aid % 8] }

  /** Station aid's bit as a receiver of the element reads it (section 7.3.2.6 of IEEE 802.11-2007). */
  predicate Decoded(off: nat, window: seq<Oct>, aid: nat) {
    off <= aid / 8 < off + |window| && window[aid / 8 - off][aid % 8]
  }

  function Window(bitmap: seq<Oct>): (w: seq<Oct>)
    requires bitmap != []
    ensures |w| == Len(bitmap)
  {
    bitmap[Off(bitmap)..Off(bitmap) + Len(bitmap)]
  }

  lemma DecodedRight(bitmap: seq<Oct>, aid: nat)
    requires bitmap != []
    ensures Decoded(Off(bitmap), Window(bitmap), aid) <==> Bit(bitmap, aid)
  {
    var k := aid / 8;
    if k < |bitmap| && !(Off(bitmap) <= k < Off(bitmap) + Len(bitmap)) {
      WindowCovers(bitmap, k);
      assert !ZERO[aid % 8];
    }
  }

  /** A byte that is not zero has a bit set. */
  lemma SetBit(b: Oct) returns (j: nat)
    requires b != ZERO
    ensures j < 8 && b[j]
  {
    assert exists k :: 0 <= k < 8 && b[k] != ZERO[k];
    j :| j < 8 && b[j] != ZERO[j];
  }

  /** The window read at another even offset is misread for some station. */
  lemma Misread(bitmap: seq<Oct>, off: nat) returns (aid: nat)
    requires !Empty(bitmap) && off % 2 == 0 && off != Off(bitmap)
    ensures Bit(bitmap, aid) && !Decoded(off, Window(bitmap), aid)
  {
    var k := if Off(bitmap) < off then First(bitmap) else Last(bitmap);
    var j := SetBit(bitmap[k]);
    aid := 8 * k + j;
    assert aid / 8 == k && aid % 8 == j;
  }

  /** What the element holds after an update: the new window, and the offset, which is rewritten only when the
      length changes. */
  function NewOff(bitmap: seq<Oct>, off: nat, len: nat): nat
    requires bitmap != []
  {
    if Len(bitmap) != len then Off(bitmap) else off
  }

  /** Every station reads its bit right exactly when the length changes, or the offset stays, or nothing is pending. */
  lemma UpdateExactly(bitmap: seq<Oct>, off: nat, len: nat)
    requires bitmap != [] && off % 2 == 0
    ensures (forall aid :: Decoded(NewOff(bitmap, off, len), Window(bitmap), aid) <==> Bit(bitmap, aid))
      <==> Len(bitmap) != len || off == Off(bitmap) || Empty(bitmap)
  {
    if Len(bitmap) != len || off == Off(bitmap) {
      forall aid ensures Decoded(NewOff(bitmap, off, len), Window(bitmap), aid) <==> Bit(bitmap, aid) {
        DecodedRight(bitmap, aid);
      }
    } else if Empty(bitmap) {
      forall aid ensures Decoded(off, Window(bitmap), aid) <==> Bit(bitmap, aid) {
        assert !ZERO[aid % 8];
      }
    } else {
      var aid := Misread(bitmap, off);
    }
  }

  /** A bitmap has at least one byte. */
  predicate Proper(bs: seq<seq<Oct>>) { forall i :: 0 <= i < |bs| ==> bs[i] != [] }

  /** Offset and length in the element after one update after another; the first bitmap is that of the beacon when it
      was allocated. */
  function Shown(bs: seq<seq<Oct>>): (e: (nat, nat))
    requires bs != [] && Proper(bs)
    ensures e.0 % 2 == 0 && e.1 == Len(bs[|bs| - 1])
  {
    var b := bs[|bs| - 1];
    if |bs| == 1 then (Off(b), Len(b))
    else
      var (off, len) := Shown(bs[..|bs| - 1]);
      (NewOff(b, off, len), Len(b))
  }

  /** The length has been what it is since update j. */
  ghost predicate Since(bs: seq<seq<Oct>>, j: nat)
    requires Proper(bs)
  {
    && j < |bs| && (j > 0 ==> Len(bs[j - 1]) != Len(bs[j]))
    && forall i :: j <= i < |bs| ==> Len(bs[i]) == Len(bs[j])
  }

  /** The offset is that of the update which brought the length. */
  lemma {:induction false} OffSince(bs: seq<seq<Oct>>, j: nat)
    requires Proper(bs) && Since(bs, j)
    ensures Shown(bs).0 == Off(bs[j])
  {
    hide Off; hide Len;
    var cs := bs[..|bs| - 1];
    if |bs| > 1 && j < |cs| {
      assert Since(cs, j);
      OffSince(cs, j);
      assert Len(cs[|cs| - 1]) == Len(bs[j]);
    } else if |bs| > 1 {
      assert cs[|cs| - 1] == bs[j - 1];
    }
  }

  /** After any updates, every station reads its bit right exactly when the window starts where it did when its length
      was last changed, or nothing is pending. */
  lemma ReadExactly(bs: seq<seq<Oct>>, j: nat)
    requires Proper(bs) && Since(bs, j)
    ensures var b := bs[|bs| - 1];
            (forall aid :: Decoded(Shown(bs).0, Window(b), aid) <==> Bit(b, aid)) <==> Off(b) == Off(bs[j]) || Empty(b)
  {
    hide Off; hide Len; hide Bit; hide Decoded; hide Window; hide Empty;
    OffSince(bs, j);
    UpdateExactly(bs[|bs| - 1], Shown(bs).0, Len(bs[|bs| - 1]));
  }

  /** Frames wait for station 1, then for station 17 instead: the window is one byte long as before, so the offset stays
      at 0, and station 17 reads that nothing waits. */
  lemma MovedWindow()
    ensures var bs: seq<seq<Oct>> := [[ZERO, ZERO, ZERO], [ZERO[1 := true], ZERO, ZERO], [ZERO, ZERO, ZERO[1 := true]]];
            Bit(bs[2], 17) && !Decoded(Shown(bs).0, Window(bs[2]), 17)
  {
    var a: seq<Oct>, b: seq<Oct>, c: seq<Oct> :=
      [ZERO, ZERO, ZERO], [ZERO[1 := true], ZERO, ZERO], [ZERO, ZERO, ZERO[1 := true]];
    assert b[0][1] && c[2][1] && !ZERO[1];
    assert First(b) == 0 == Last(b) && First(c) == 2 == Last(c);
    var bs := [a, b, c];
    assert Since(bs, 0);
    OffSince(bs, 0);
  }

  /** The assertion that the bitmap is not empty holds exactly when its first byte in use is not byte 128 or 129;
      a bitmap of at most 128 bytes has neither. */
  lemma SentinelExactly(bitmap: seq<Oct>)
    requires !Empty(bitmap)
    ensures Off(bitmap) != 128 <==> First(bitmap) != 128 && First(bitmap) != 129
    ensures |bitmap| <= 128 ==> Off(bitmap) != 128
  {
    hide First; hide Empty;
  }

  /** With only station 1024 waiting, the assertion fires. */
  lemma SentinelFires()
    ensures var bitmap: seq<Oct> := seq(129, k => if k == 128 then ZERO[0 := true] else ZERO);
            Bit(bitmap, 1024) && Off(bitmap) == 128
  {
    hide First;
    var bitmap: seq<Oct> := seq(129, k => if k == 128 then ZERO[0 := true] else ZERO);
    assert bitmap[128][0] && !ZERO[0];
    assert forall k :: 0 <= k < 128 ==> bitmap[k] == ZERO;
    assert First(bitmap) == 128;
  }

  // ---------------------------------------------------------------------------
  // The beacon itself

  /** The TIM bitmap and what follows it in the beacon. */
  class BeaconFrame {
    const buf: array<Oct>  // from tim_bitmap on
    var timLen: nat        // bo_tim_len
    var trailerLen: nat    // bo_trailer_len
    var off: nat           // tim_bitctl without the multicast bit

    ghost predicate Valid()
      reads this
    {
      timLen + trailerLen <= buf.Length && off % 2 == 0
    }

    ghost function Tim(): seq<Oct>
      requires Valid()
      reads this, buf
    {
      buf[..timLen]
    }

    ghost function Trailer(): seq<Oct>
      requires Valid()
      reads this, buf
    {
      buf[timLen..timLen + trailerLen]
    }

    /** memmove and memcpy. */
    method Move(src: seq<Oct>, at: nat)
      requires at + |src| <= buf.Length
      modifies buf
      ensures buf[at..at + |src|] == src && buf[..at] == old(buf[..at]) && buf[at + |src|..] == old(buf[at + |src|..])
    {
      for j := 0 to |src|
        invariant forall k :: 0 <= k < buf.Length ==> buf[k] == if at <= k < at + j then src[k - at] else old(buf[k])
      {
        buf[at + j] := src[j];
      }
    }

    /** The two scans of the bitmap. */
    method Scan(bitmap: seq<Oct>, pending: nat) returns (timoff: nat, timlen: nat)
      requires bitmap != [] && (pending == 0 <==> Empty(bitmap))
      requires Off(bitmap) != 128
      ensures timoff == Off(bitmap) && timlen == Len(bitmap)
    {
      hide First; hide Last;
      timoff, timlen := 0, 1;
      if pending != 0 {
        timoff := 128;
        var i := 0;
        while i < |bitmap|
          invariant 0 <= i <= |bitmap| && timoff == 128 && forall k :: 0 <= k < i ==> bitmap[k] == ZERO
        {
          if bitmap[i] != ZERO {
            timoff := i - i % 2;
            break;
          }
          i := i + 1;
        }
        assert i == First(bitmap);
        assert timoff != 128;
        i := |bitmap| - 1;
        while i >= timoff
          invariant timoff - 1 <= i < |bitmap| && Last(bitmap) <= i
          invariant forall k :: i < k < |bitmap| ==> bitmap[k] == ZERO
        {
          if bitmap[i] != ZERO {
            break;
          }
          i := i - 1;
        }
        timlen := 1 + (i - timoff);
      }
    }

    /** The element gets another length and what follows it moves along. */
    method Resize(n: nat)
      requires Valid() && n + trailerLen <= buf.Length
      modifies this`timLen, buf
      ensures Valid() && timLen == n && Trailer() == old(Trailer())
    {
      Move(buf[timLen..timLen + trailerLen], n);
      timLen := n;
    }

    /** The element gets its bytes. */
    method Fill(w: seq<Oct>)
      requires Valid() && |w| == timLen
      modifies buf
      ensures Valid() && Tim() == w && Trailer() == old(Trailer())
    {
      ghost var t := Trailer();
      Move(w, 0);
      assert buf[..timLen] == buf[0..0 + timLen];
      assert Trailer() == buf[timLen..][..trailerLen] == t;
    }

    /** The TIM part of ieee80211_beacon_update: the window is in place and what follows it is kept. */
    method UpdateTim(bitmap: seq<Oct>, pending: nat)
      requires Valid() && bitmap != [] && (pending == 0 <==> Empty(bitmap)) && Off(bitmap) != 128
      requires |bitmap| + trailerLen <= buf.Length
      modifies this, buf
      ensures Valid() && Tim() == Window(bitmap) && Trailer() == old(Trailer()) && trailerLen == old(trailerLen)
      ensures off == NewOff(bitmap, old(off), old(timLen))
    {
      hide Off; hide Len; hide Empty;
      var timoff, timlen := Scan(bitmap, pending);
      OffEven(bitmap);
      if timlen != timLen {
        Resize(timlen);
        off := timoff;
      }
      Fill(bitmap[timoff..timoff + timLen]);
    }
  }

  lemma OffEven(bitmap: seq<Oct>)
    requires bitmap != []
    ensures Off(bitmap) % 2 == 0 && Off(bitmap) + Len(bitmap) <= |bitmap|
  {
  }
}
