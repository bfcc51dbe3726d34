/** Fragmentation as ieee80211_fragment does it (section 9.4 of IEEE 802.11-2007), and reassembly undoing it. */
module Fragment {
  import opened Blocks
  import opened Ccm
  import opened LittleEndian
  import opened Frags
  import opened Options

  /** The frame is longer than the mtu, and the mtu leaves room for payload. */
  predicate Fits(f: Frame, hdr: nat, ciphdr: nat, mtu: nat) { 24 <= hdr && hdr + ciphdr < mtu < |f| }

  /** Payload bytes per fragment. */
  function Room(hdr: nat, ciphdr: nat, mtu: nat): (n: nat)
    requires hdr + ciphdr < mtu
    ensures n > 0
  {
    mtu - (hdr + ciphdr)
  }

  /** How many fragments. */
  function Count(f: Frame, hdr: nat, ciphdr: nat, mtu: nat): nat
    requires Fits(f, hdr, ciphdr, mtu)
  {
    (|f| - hdr + Room(hdr, ciphdr, mtu) - 1) / Room(hdr, ciphdr, mtu)
  }

  /** Where the payload of fragment i starts and ends. */
  function From(f: Frame, hdr: nat, room: nat, i: nat): nat
    requires hdr <= |f|
  {
    if hdr + i * room < |f| then hdr + i * room else |f|
  }

  /** The header of fragment i. */
  function HeaderOf(h: Frame, i: nat, last: bool): Frame {
    var fc1 := if last then (h[1] | MORE) & !MORE else h[1] | MORE;
    h[1 := fc1][22 := h[22] | Byte(i % 16)]
  }

  /** Fragment i. */
  function FragmentOf(f: Frame, hdr: nat, ciphdr: nat, mtu: nat, i: nat): Frame
    requires Fits(f, hdr, ciphdr, mtu) && i < Count(f, hdr, ciphdr, mtu)
  {
    var room := Room(hdr, ciphdr, mtu);
    var from, to := From(f, hdr, room, i), From(f, hdr, room, i + 1);
    FromGrows(f, hdr, room, i);
    HeaderOf(f[..hdr], i, i + 1 == Count(f, hdr, ciphdr, mtu)) + f[from..to]
  }

  lemma FromGrows(f: Frame, hdr: nat, room: nat, i: nat)
    requires hdr <= |f|
    ensures hdr <= From(f, hdr, room, i) <= From(f, hdr, room, i + 1) <= |f|
    ensures From(f, hdr, room, i + 1) - From(f, hdr, room, i) <= room
  {
    assert (i + 1) * room == i * room + room;
  }

  /** The last fragment is where the payload ends. */
  lemma CountIsEnough(f: Frame, hdr: nat, ciphdr: nat, mtu: nat)
    requires Fits(f, hdr, ciphdr, mtu)
    ensures var n, room := Count(f, hdr, ciphdr, mtu), Room(hdr, ciphdr, mtu);
            n >= 2 && hdr + n * room >= |f| > hdr + (n - 1) * room
  {
    var d, room := |f| - hdr, Room(hdr, ciphdr, mtu);
    var n := (d + room - 1) / room;
    var r := (d + room - 1) % room;
    assert d + room - 1 == room * n + r && r < room;
    assert room * n == n * room && (n - 1) * room == n * room - room;
  }

  /** Every fragment fits the mtu once the cipher header is added. */
  lemma FragmentFits(f: Frame, hdr: nat, ciphdr: nat, mtu: nat, i: nat)
    requires Fits(f, hdr, ciphdr, mtu) && i < Count(f, hdr, ciphdr, mtu)
    ensures |FragmentOf(f, hdr, ciphdr, mtu, i)| + ciphdr <= mtu
  {
    FromGrows(f, hdr, Room(hdr, ciphdr, mtu), i);
  }

  // ---------------------------------------------------------------------------
  // What the receiver reads in a fragment

  lemma {:induction false} OrCounts(b: byte, k: nat)
    requires b & 0x0f == 0 && k < 16
    ensures Value(b | Byte(k)) == Value(b) + k
  {
    hide Value;
    if k == 0 {
      OrZero(b);
    } else {
      OrCounts(b, k - 1);
      var x := Byte(k - 1);
      hide Byte;
      ValueOfByte(k - 1);
      SmallValue(x);
      OrNext(b, x);
      Successor(b | x);
    }
  }

  lemma SmallValue(x: byte)
    requires Value(x) < 15
    ensures x < 15
  {
  }

  lemma OrZero(b: byte)
    ensures b | 0 == b
  {
  }

  lemma OrNext(b: byte, x: byte)
    requires b & 0x0f == 0 && x < 15
    ensures b | (x + 1) == (b | x) + 1 && b | x != 255
  {
  }

  lemma Successor(b: byte)
    requires b != 255
    ensures Value(b + 1) == Value(b) + 1
  {
    ByteSuccessor(b);
  }

  /** The header starts with fragment number 0. */
  predicate Fresh(f: Frame) { f[22] & 0x0f == 0 }

  lemma MoreBits(b: byte)
    ensures (b | MORE) & MORE != 0 && ((b | MORE) & !MORE) & MORE == 0
  {
  }

  /** The fields of a header with its fragment number, read from the whole frame. */
  lemma HeaderFields(h: Frame, i: nat, last: bool, tail: seq<byte>)
    ensures var g: Frame := HeaderOf(h, i, last) + tail;
            && g[1] == (if last then (h[1] | MORE) & !MORE else h[1] | MORE)
            && g[22] == h[22] | Byte(i % 16) && g[23] == h[23] && SameStations(g, h) && g[16..22] == h[16..22]
  {
    hide Byte;
    var g: Frame := HeaderOf(h, i, last) + tail;
    assert g[4..10] == h[4..10] && g[10..16] == h[10..16];
  }

  /** Fragment i (section 9.4 of IEEE 802.11-2007): bit 2 of the second byte says that more follow, the low four bits of
      byte 22 are the fragment number, everything else is the header of the frame, and mtu less both headers is how much
      payload each carries, from where the one before left off. */
  lemma FragmentParts(f: Frame, hdr: nat, ciphdr: nat, mtu: nat, i: nat, k: nat)
    requires Fits(f, hdr, ciphdr, mtu) && i < Count(f, hdr, ciphdr, mtu) && k < hdr
    ensures var g, room := FragmentOf(f, hdr, ciphdr, mtu, i), mtu - hdr - ciphdr;
            && |g| >= hdr && (g[1] & 0x04 != 0 <==> hdr + (i + 1) * room < |f|)
            && g[1] & 0xfb == f[1] & 0xfb && g[22] == f[22] | Byte(i % 16)
            && (k != 1 && k != 22 ==> g[k] == f[k])
            && hdr + i * room < |f|
            && g[hdr..] == f[hdr + i * room..if hdr + (i + 1) * room < |f| then hdr + (i + 1) * room else |f|]
  {
    hide Byte; hide Count;
    var n, room := Count(f, hdr, ciphdr, mtu), Room(hdr, ciphdr, mtu);
    FromGrows(f, hdr, room, i);
    CountIsEnough(f, hdr, ciphdr, mtu);
    Multiples(i, n, room);
    MarkBits(f[1]);
  }

  lemma Multiples(i: nat, n: nat, room: nat)
    requires i < n
    ensures i * room <= (n - 1) * room && (i + 1 < n ==> (i + 1) * room <= (n - 1) * room)
    ensures i + 1 == n ==> (i + 1) * room == n * room
  {
    assert (n - 1) * room == i * room + (n - 1 - i) * room;
    if i + 1 < n {
      assert (n - 1) * room == (i + 1) * room + (n - 2 - i) * room;
    }
  }

  lemma MarkBits(b: byte)
    ensures (b | MORE) & 0x04 != 0 && (b | MORE) & 0xfb == b & 0xfb
    ensures ((b | MORE) & !MORE) & 0x04 == 0 && ((b | MORE) & !MORE) & 0xfb == b & 0xfb
  {
  }

  lemma SeqOfFields(f: Frame, g: Frame, i: nat)
    requires Fresh(f) && g[22] == f[22] | Byte(i % 16) && g[23] == f[23]
    ensures SeqCtl(g) == SeqCtl(f) + i % 16 && FragNo(g) == i % 16
  {
    hide Value; hide Byte;
    OrCounts(f[22], i % 16);
    LowNibble(f[22]);
  }

  /** The receiver sees the fragment number modulo 16, the same stations, and more to come except at the end. */
  lemma FragmentHeader(f: Frame, hdr: nat, ciphdr: nat, mtu: nat, i: nat)
    requires Fits(f, hdr, ciphdr, mtu) && i < Count(f, hdr, ciphdr, mtu) && Fresh(f)
    ensures var g := FragmentOf(f, hdr, ciphdr, mtu, i);
            && |g| >= hdr && SeqCtl(g) == SeqCtl(f) + i % 16 && FragNo(g) == i % 16
            && (More(g) <==> i + 1 < Count(f, hdr, ciphdr, mtu)) && SameStations(g, f) && g[16..22] == f[16..22]
  {
    hide Byte; hide Count; hide From; hide HeaderOf; hide SeqCtl; hide FragNo;
    var h, room := f[..hdr], Room(hdr, ciphdr, mtu);
    FromGrows(f, hdr, room, i);
    var tail := f[From(f, hdr, room, i)..From(f, hdr, room, i + 1)];
    HeaderFields(h, i, i + 1 == Count(f, hdr, ciphdr, mtu), tail);
    MoreBits(f[1]);
    var g := FragmentOf(f, hdr, ciphdr, mtu, i);
    HeaderLen(h, i, i + 1 == Count(f, hdr, ciphdr, mtu));
    SeqOfFields(f, g, i);
    assert h[4..10] == f[4..10] && h[10..16] == f[10..16] && h[16..22] == f[16..22];
  }

  lemma HeaderLen(h: Frame, i: nat, last: bool)
    ensures |HeaderOf(h, i, last)| == |h|
  {
  }

  lemma LowNibble(b: byte)
    ensures b & 0x0f == 0 ==> Value(b) % 16 == 0
  {
    LowNibbleBits(b);
    if b & 0x0f == 0 {
      NibbleUp(b >> 4);
    }
  }

  lemma LowNibbleBits(b: byte)
    ensures b & 0x0f == 0 ==> b == (b >> 4) << 4 && b >> 4 < 16
  {
  }

  lemma NibbleUp(x: byte)
    requires x < 16
    ensures Value(x << 4) % 16 == 0
  {
    assert x == 0 || x == 1 || x == 2 || x == 3 || x == 4 || x == 5 || x == 6 || x == 7 || x == 8 || x == 9
      || x == 10 || x == 11 || x == 12 || x == 13 || x == 14 || x == 15;
  }

  // ---------------------------------------------------------------------------
  // Feeding the fragments to reassembly

  /** One frame and how it is cut. */
  datatype Cut = Cut(f: Frame, hdr: nat, ciphdr: nat, mtu: nat) {
    ghost predicate Ok() { Fits(f, hdr, ciphdr, mtu) && Fresh(f) }

    function Fragments(): nat
      requires Fits(f, hdr, ciphdr, mtu)
    {
      Count(f, hdr, ciphdr, mtu)
    }

    /** Fragment i as it arrives. */
    function Part(i: nat): Piece
      requires Fits(f, hdr, ciphdr, mtu) && i < Fragments()
    {
      PartHeader(i);
      Arrival(i, FragmentOf(f, hdr, ciphdr, mtu, i), hdr)
    }

    lemma PartHeader(i: nat)
      requires Fits(f, hdr, ciphdr, mtu) && i < Fragments()
      ensures |FragmentOf(f, hdr, ciphdr, mtu, i)| >= hdr
    {
      HeaderLen(f[..hdr], i, i + 1 == Fragments());
    }

    /** Fragments a to b. */
    function Parts(a: nat, b: nat): (ps: seq<Piece>)
      requires Fits(f, hdr, ciphdr, mtu) && a <= b <= Fragments()
      ensures |ps| == b - a
    {
      seq<Piece>(b - a, j requires 0 <= j < b - a => Part(a + j))
    }

    /** The first k fragments, in order. */
    function Events(k: nat): (es: seq<Event>)
      requires Fits(f, hdr, ciphdr, mtu) && k <= Fragments()
      ensures |es| == k
    {
      seq(k, j requires 0 <= j < k => Arrive(Part(j), false))
    }
  }

  /** The fragment where the reassembly that holds fragment k - 1 started: fragment numbers restart every sixteen. */
  function Base(k: nat): (b: nat)
    requires k > 0
    ensures b < k
  {
    k - 1 - (k - 1) % 16
  }

  lemma BaseNext(k: nat)
    requires k > 0
    ensures Base(k + 1) == if k % 16 == 0 then k else Base(k)
  {
  }

  lemma PartIs(c: Cut, i: nat)
    requires c.Ok() && i < c.Fragments()
    ensures var g := c.Part(i).f;
            && c.Part(i).hdr == c.hdr && SeqCtl(g) == SeqCtl(c.f) + i % 16 && FragNo(g) == i % 16
            && (More(g) <==> i + 1 < c.Fragments()) && SameStations(g, c.f) && g[16..22] == c.f[16..22]
  {
    hide FragmentOf;
    FragmentHeader(c.f, c.hdr, c.ciphdr, c.mtu, i);
  }

  lemma PartsSnoc(c: Cut, a: nat, b: nat)
    requires c.Ok() && a <= b < c.Fragments()
    ensures c.Parts(a, b + 1) == c.Parts(a, b) + [c.Part(b)]
  {
    hide FragmentOf;
  }

  /** Joined(Parts(a, b)) has the sequence control of fragment b - 1 and the stations of the frame. */
  lemma PartsHeader(c: Cut, a: nat, b: nat)
    requires c.Ok() && a < b <= c.Fragments()
    ensures var g := Joined(c.Parts(a, b)); SeqCtl(g) == SeqCtl(c.f) + (b - 1) % 16 && SameStations(g, c.f)
  {
    hide SeqCtl; hide SameStations; hide Joined; hide FragmentOf; hide More; hide FragNo;
    var ps := c.Parts(a, b);
    JoinedHeader(ps);
    PartIs(c, a);
    PartIs(c, b - 1);
    SameStationsTrans(Joined(ps), ps[0].f, c.f);
  }

  /** Fragment k continues what is held exactly when its number did not restart. */
  lemma ContinuesExactly(c: Cut, a: nat, k: nat)
    requires c.Ok() && a < k < c.Fragments()
    ensures Continues(Joined(c.Parts(a, k)), c.Part(k).f) <==> k % 16 != 0
  {
    hide SeqCtl; hide SameStations; hide Joined; hide FragmentOf; hide More; hide FragNo;
    PartsHeader(c, a, k);
    PartIs(c, k);
    Symmetric(c.f, Joined(c.Parts(a, k)));
    SameStationsTrans(c.Part(k).f, c.f, Joined(c.Parts(a, k)));
  }

  lemma Symmetric(f: Frame, g: Frame)
    ensures SameStations(f, g) <==> SameStations(g, f)
  {
  }

  /** Fragment 0, on a node that holds nothing. */
  lemma FeedFirst(c: Cut)
    requires c.Ok() && 1 < c.Fragments()
    ensures Defrag(None, c.Part(0), false) == Outcome(Some(Joined(c.Parts(0, 1))), None)
  {
    hide Joined; hide FragmentOf; hide More; hide FragNo; hide Continues; hide WithSeq;
    PartIs(c, 0);
    Alone(c, 0);
  }

  /** Fragment k, on a node that holds the fragments before it. */
  lemma FeedNext(c: Cut, k: nat)
    requires c.Ok() && 0 < k < c.Fragments()
    ensures Defrag(Some(Joined(c.Parts(Base(k), k))), c.Part(k), false)
         == Keep(Joined(c.Parts(Base(k + 1), k + 1)), k + 1 < c.Fragments())
  {
    hide Joined; hide FragmentOf; hide More; hide FragNo; hide Continues; hide WithSeq;
    hide Base;
    BaseNext(k);
    PartIs(c, k);
    ContinuesExactly(c, Base(k), k);
    if k % 16 == 0 {
      Alone(c, k);
    } else {
      JoinedSnoc(c.Parts(Base(k), k), c.Part(k));
      PartsSnoc(c, Base(k), k);
    }
  }

  /** What a node holds while the fragments come in. */
  lemma {:induction false} HeldAfter(c: Cut, k: nat)
    requires c.Ok() && 0 < k < c.Fragments()
    ensures var n := Run(c.Events(k));
            n.held == Some(Joined(c.Parts(Base(k), k))) && n.results == []
  {
    hide Joined; hide FragmentOf; hide Step; hide Defrag;
    EventsSnoc(c, k - 1);
    StepIsDefrag(Run(c.Events(k - 1)), c.Part(k - 1), false);
    if k == 1 {
      assert c.Events(0) == [];
      FeedFirst(c);
    } else {
      HeldAfter(c, k - 1);
      FeedNext(c, k - 1);
    }
  }

  lemma Alone(c: Cut, i: nat)
    requires c.Ok() && i < c.Fragments()
    ensures Joined(c.Parts(i, i + 1)) == c.Part(i).f
  {
    hide FragmentOf;
  }

  lemma EventsSnoc(c: Cut, k: nat)
    requires c.Ok() && k < c.Fragments()
    ensures c.Events(k + 1)[..k] == c.Events(k) && c.Events(k + 1)[k] == Arrive(c.Part(k), false)
  {
    hide FragmentOf;
  }

  /** The payloads of fragments a to b, joined. */
  lemma {:induction false} PartsPayload(c: Cut, a: nat, b: nat)
    requires c.Ok() && a < b <= c.Fragments()
    ensures var g, room := Joined(c.Parts(a, b)), Room(c.hdr, c.ciphdr, c.mtu);
            && From(c.f, c.hdr, room, a) <= From(c.f, c.hdr, room, b) <= |c.f|
            && |g| >= c.hdr && g[c.hdr..] == c.f[From(c.f, c.hdr, room, a)..From(c.f, c.hdr, room, b)]
            && g[16..22] == c.f[16..22]
    decreases b
  {
    hide FragmentOf; hide From; hide SeqCtl; hide More; hide FragNo; hide SameStations; hide Joined;
    var room := Room(c.hdr, c.ciphdr, c.mtu);
    PartIs(c, b - 1);
    FragmentPayload(c, b - 1);
    if b == a + 1 {
      Alone(c, a);
    } else {
      PartsPayload(c, a, b - 1);
      PartsSnoc(c, a, b - 1);
      var g, p := Joined(c.Parts(a, b - 1)), c.Part(b - 1);
      JoinedSnoc(c.Parts(a, b - 1), p);
      WithSeqTail(g, p.f, c.hdr, p.f[c.hdr..]);
      SlicesJoin(c.f, From(c.f, c.hdr, room, a), From(c.f, c.hdr, room, b - 1), From(c.f, c.hdr, room, b));
    }
  }

  lemma WithSeqTail(g: Frame, p: Frame, hdr: nat, tail: seq<byte>)
    requires 24 <= hdr <= |g|
    ensures (WithSeq(g, p) + tail)[hdr..] == g[hdr..] + tail && (WithSeq(g, p) + tail)[16..22] == g[16..22]
  {
  }

  lemma FragmentPayload(c: Cut, i: nat)
    requires c.Ok() && i < c.Fragments()
    ensures var room := Room(c.hdr, c.ciphdr, c.mtu);
            && From(c.f, c.hdr, room, i) <= From(c.f, c.hdr, room, i + 1) <= |c.f|
            && c.Part(i).f[c.hdr..] == c.f[From(c.f, c.hdr, room, i)..From(c.f, c.hdr, room, i + 1)]
  {
    hide Count; hide HeaderOf;
    FromGrows(c.f, c.hdr, Room(c.hdr, c.ciphdr, c.mtu), i);
    HeaderLen(c.f[..c.hdr], i, i + 1 == c.Fragments());
  }

  /** Feeding the fragments in order to a node that holds nothing returns one frame, at the last fragment. Its
      addresses are those of the original; its payload is the original one exactly when there are at most
      sixteen fragments, and otherwise only a proper suffix. */
  lemma RoundTrip(c: Cut)
    requires c.Ok()
    ensures var rs := Run(c.Events(c.Fragments())).results;
            && |rs| == 1 && |rs[0]| >= c.hdr && SameStations(rs[0], c.f) && rs[0][16..22] == c.f[16..22]
            && (rs[0][c.hdr..] == c.f[c.hdr..] <==> c.Fragments() <= 16)
            && (c.Fragments() > 16 ==> |rs[0]| < |c.f|)
  {
    hide FragmentOf; hide From; hide SeqCtl; hide More; hide FragNo; hide SameStations; hide Joined; hide Step;
    hide Defrag; hide Count;
    var n, room := c.Fragments(), Room(c.hdr, c.ciphdr, c.mtu);
    CountIsEnough(c.f, c.hdr, c.ciphdr, c.mtu);
    HeldAfter(c, n - 1);
    FeedNext(c, n - 1);
    EventsSnoc(c, n - 1);
    StepIsDefrag(Run(c.Events(n - 1)), c.Part(n - 1), false);
    PartsHeader(c, Base(n), n);
    PartsPayload(c, Base(n), n);
    FromEnds(c.f, c.hdr, c.ciphdr, c.mtu, Base(n));
  }

  /** Payload starts at the header for fragment 0 only, and ends with the last fragment. */
  lemma FromEnds(f: Frame, hdr: nat, ciphdr: nat, mtu: nat, a: nat)
    requires Fits(f, hdr, ciphdr, mtu) && a < Count(f, hdr, ciphdr, mtu)
    ensures var room := Room(hdr, ciphdr, mtu);
            && From(f, hdr, room, Count(f, hdr, ciphdr, mtu)) == |f|
            && (if a == 0 then From(f, hdr, room, a) == hdr else From(f, hdr, room, a) > hdr)
  {
    hide Count;
    CountIsEnough(f, hdr, ciphdr, mtu);
    var room := Room(hdr, ciphdr, mtu);
    if a == 0 {
      assert a * room == 0;
    } else {
      assert a * room == (a - 1) * room + room;
    }
  }

  /** A frame of seventeen payload bytes, sent one byte at a time, comes back shorter. */
  lemma SeventeenFragments()
    ensures var c := Cut(seq(41, _ => 0), 24, 0, 25);
            c.Ok() && c.Fragments() == 17 && |Run(c.Events(17)).results| == 1 && |Run(c.Events(17)).results[0]| < 41
  {
    hide Run;
    var c := Cut(seq(41, _ => 0), 24, 0, 25);
    RoundTrip(c);
  }
}
