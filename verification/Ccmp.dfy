/** CCMP: what a protected frame holds, and what the receiver makes of it. */
module Ccmp {
  import opened Blocks
  import opened Ccm
  import opened LittleEndian

  const HEADER: nat := 8
  const TRAILER: nat := 8
  const MIC: nat := 8
  const EXTIV: byte := 0x20

  // ---------------------------------------------------------------------------
  // Frame headers

  predicate FourAddress(h: seq<byte>)
    requires |h| >= 24
  {
    h[1] & 0x03 == 0x03
  }

  /** A QoS data frame. */
  predicate HasQos(h: seq<byte>)
    requires |h| >= 24
  {
    h[0] & 0x8c == 0x88
  }

  function HdrSize(h: seq<byte>): (n: nat)
    requires |h| >= 24
    ensures 24 <= n <= 32
  {
    24 + (if FourAddress(h) then 6 else 0) + (if HasQos(h) then 2 else 0)
  }

  /** ieee80211_hdrspace: `pad` is the DATAPAD flag. */
  function HdrSpace(h: seq<byte>, pad: bool): (n: nat)
    requires |h| >= 24
    ensures HdrSize(h) <= n <= 32
  {
    if pad then (HdrSize(h) + 3) / 4 * 4 else HdrSize(h)
  }

  predicate Header(h: seq<byte>) { |h| >= 24 && |h| >= HdrSize(h) }

  /** The priority bits of a QoS frame. */
  function Priority(h: seq<byte>): byte
    requires Header(h)
  {
    if HasQos(h) then h[if FourAddress(h) then 30 else 24] & 0x0f else 0
  }

  // ---------------------------------------------------------------------------
  // Packet numbers: 48 bits on the air, 64 in the counters

  const PN_MOD: nat := 0x1_0000_0000_0000
  const TSC_MOD: nat := 0x1_0000_0000_0000_0000

  /** PN0 to PN5. */
  function PnBytes(pn: nat): (s: seq<byte>)
    ensures |s| == 6
  {
    LeBytes(pn, 6)
  }

  lemma PnBytesOf(pn: nat)
    ensures LeValue(PnBytes(pn)) == pn % PN_MOD && PnBytes(pn % PN_MOD) == PnBytes(pn)
  {
    hide LeBytes; hide LeValue;
    assert Pow256(6) == PN_MOD;
    ValueOfBytes(pn, 6);
    BytesOfMod(pn, 6);
  }

  /** READ_6 of the eight bytes between header and payload. */
  function Read6(iv: seq<byte>): nat
    requires |iv| == HEADER
  {
    LeValue(iv[..2] + iv[4..])
  }

  // ---------------------------------------------------------------------------
  // ccmp_init_blocks: section 8.3.3.3 of IEEE 802.11-2007

  /** The first frame control byte without the middle subtype bits. */
  function Fc0(b: byte): byte { b & 0x8f }

  /** The second one without the retry, power management and more-data bits. */
  function Fc1(b: byte): byte { b & 0xc7 }

  /** The fragment number, without the low part of the sequence number. */
  function Nibble(b: byte): byte { b & 0x0f }

  function Nonce(h: seq<byte>, pn: nat): (n: seq<byte>)
    requires Header(h)
    ensures |n| == 13
  {
    var p := PnBytes(pn);
    [Priority(h)] + h[10..16] + [p[5], p[4], p[3], p[2], p[1], p[0]]
  }

  function Aad(h: seq<byte>): (a: seq<byte>)
    requires Header(h)
    ensures 22 <= |a| <= 30
  {
    [Fc0(h[0]), Fc1(h[1])] + h[4..22] + [Nibble(h[22]), 0]
    + (if FourAddress(h) then h[24..30] else [])
    + (if HasQos(h) then [Priority(h), 0] else [])
  }

  /** What CCMP protects of a header: everything but the retry, power and more-data bits, the middle subtype bits, the
      duration, the sequence number, and all of the QoS field but the priority. */
  ghost predicate SameProtected(h: seq<byte>, g: seq<byte>)
    requires Header(h) && Header(g)
  {
    && h[0] & 0x8f == g[0] & 0x8f && h[1] & 0xc7 == g[1] & 0xc7
    && h[4..22] == g[4..22] && h[22] & 0x0f == g[22] & 0x0f
    && (h[1] & 0x03 == 0x03 ==> |g| >= 30 && h[24..30] == g[24..30])
    && (h[0] & 0x8c == 0x88 ==>
          var at := if h[1] & 0x03 == 0x03 then 30 else 24; at < |h| && at < |g| && h[at] & 0x0f == g[at] & 0x0f)
  }

  lemma MaskedBits(a: byte, b: byte)
    ensures a & 0x8f == b & 0x8f ==> a & 0x8c == b & 0x8c
    ensures a & 0xc7 == b & 0xc7 ==> a & 0x03 == b & 0x03
  {
  }

  lemma SameShape(h: seq<byte>, g: seq<byte>)
    requires |h| >= 24 && |g| >= 24 && h[0] & 0x8f == g[0] & 0x8f && h[1] & 0xc7 == g[1] & 0xc7
    ensures (HasQos(h) <==> HasQos(g)) && (FourAddress(h) <==> FourAddress(g)) && HdrSize(h) == HdrSize(g)
  {
    MaskedBits(h[0], g[0]);
    MaskedBits(h[1], g[1]);
  }

  /** How long a header is: two more bytes in QoS data frames, six more with four addresses. */
  lemma HeaderSizes(h: seq<byte>)
    requires |h| >= 24
    ensures HdrSize(h) == 24 <==> h[1] & 0x03 != 0x03 && h[0] & 0x8c != 0x88
    ensures HdrSize(h) == 26 <==> h[1] & 0x03 != 0x03 && h[0] & 0x8c == 0x88
    ensures HdrSize(h) == 30 <==> h[1] & 0x03 == 0x03 && h[0] & 0x8c != 0x88
    ensures HdrSize(h) == 32 <==> h[1] & 0x03 == 0x03 && h[0] & 0x8c == 0x88
  {
  }

  /** Where the parts of the header stand in the additional data (section 8.3.3.3.2 of IEEE 802.11-2007): masked frame
      control, three addresses, the fragment number and a zero, the fourth address, the priority and a zero. */
  lemma AadParts(h: seq<byte>)
    requires Header(h)
    ensures var a, four, qos := Aad(h), h[1] & 0x03 == 0x03, h[0] & 0x8c == 0x88;
            && |a| == 22 + (if four then 6 else 0) + (if qos then 2 else 0)
            && a[0] == h[0] & 0x8f && a[1] == h[1] & 0xc7 && a[2..20] == h[4..22] && a[20] == h[22] & 0x0f && a[21] == 0
            && (four ==> |h| >= 30 && a[22..28] == h[24..30])
            && (qos && !four ==> |h| > 24 && a[22] == h[24] & 0x0f && a[23] == 0)
            && (qos && four ==> |h| > 30 && a[28] == h[30] & 0x0f && a[29] == 0)
  {
    hide Fc0; hide Fc1; hide Nibble;
    Masks(h[0], h[1], h[22]);
  }

  lemma Masks(a: byte, b: byte, c: byte)
    ensures Fc0(a) == a & 0x8f && Fc1(b) == b & 0xc7 && Nibble(c) == c & 0x0f
  {
  }

  /** The priority of a frame, as a number in its QoS field. */
  lemma PriorityIs(h: seq<byte>)
    requires Header(h)
    ensures h[0] & 0x8c != 0x88 ==> Priority(h) == 0
    ensures h[0] & 0x8c == 0x88 && h[1] & 0x03 != 0x03 ==> |h| > 24 && Priority(h) == h[24] & 0x0f
    ensures h[0] & 0x8c == 0x88 && h[1] & 0x03 == 0x03 ==> |h| > 30 && Priority(h) == h[30] & 0x0f
  {
  }

  /** The nonce (section 8.3.3.3.3): the priority, the transmitter, and the packet number, highest byte first. */
  lemma NonceParts(h: seq<byte>, pn: nat)
    requires Header(h)
    ensures var n := Nonce(h, pn);
            && n[0] == Priority(h) && n[1..7] == h[10..16]
            && n[7] == Byte(pn / 0x100_0000_0000) && n[8] == Byte(pn / 0x1_0000_0000) && n[9] == Byte(pn / 0x100_0000)
            && n[10] == Byte(pn / 0x1_0000) && n[11] == Byte(pn / 0x100) && n[12] == Byte(pn)
  {
    hide PnBytes; hide Priority; hide Byte;
    PnByteAt(pn);
  }

  lemma PnByteAt(pn: nat)
    ensures PnBytes(pn) == [Byte(pn), Byte(pn / 0x100), Byte(pn / 0x1_0000), Byte(pn / 0x100_0000),
                            Byte(pn / 0x1_0000_0000), Byte(pn / 0x100_0000_0000)]
  {
    hide Byte;
    var n1, n2, n3, n4 := pn / 256, pn / 256 / 256, pn / 256 / 256 / 256, pn / 256 / 256 / 256 / 256;
    assert LeBytes(n4 / 256, 1) == [Byte(n4 / 256)];
    assert LeBytes(n4, 2) == [Byte(n4)] + LeBytes(n4 / 256, 1);
    assert LeBytes(n3, 3) == [Byte(n3)] + LeBytes(n4, 2);
    assert LeBytes(n2, 4) == [Byte(n2)] + LeBytes(n3, 3);
    assert LeBytes(n1, 5) == [Byte(n1)] + LeBytes(n2, 4);
    Quotients(pn);
  }

  lemma Quotients(n: nat)
    ensures n / 256 / 256 == n / 0x1_0000 && n / 256 / 256 / 256 == n / 0x100_0000
    ensures n / 256 / 256 / 256 / 256 == n / 0x1_0000_0000 && n / 256 / 256 / 256 / 256 / 256 == n / 0x100_0000_0000
  {
  }

  lemma SameParts(h: seq<byte>, g: seq<byte>, pn: nat)
    requires Header(h) && Header(g) && SameProtected(h, g)
    ensures Nonce(h, pn) == Nonce(g, pn) && Aad(h) == Aad(g)
  {
    hide FourAddress; hide HasQos; hide Priority; hide PnBytes; hide Fc0; hide Fc1; hide Nibble; hide SameProtected;
    SameFields(h, g);
    SamePriority(h, g);
    FourthAddress(h, g);
    SliceOfSlice(h, 4, 18, 6, 6);
    SliceOfSlice(g, 4, 18, 6, 6);
  }

  lemma SameFields(h: seq<byte>, g: seq<byte>)
    requires Header(h) && Header(g) && SameProtected(h, g)
    ensures Fc0(h[0]) == Fc0(g[0]) && Fc1(h[1]) == Fc1(g[1]) && Nibble(h[22]) == Nibble(g[22]) && h[4..22] == g[4..22]
    ensures (HasQos(h) <==> HasQos(g)) && (FourAddress(h) <==> FourAddress(g))
  {
    SameShape(h, g);
  }

  lemma SamePriority(h: seq<byte>, g: seq<byte>)
    requires Header(h) && Header(g) && SameProtected(h, g)
    ensures Priority(h) == Priority(g)
  {
    hide FourAddress; hide HasQos; hide Priority;
    MaskedBits(h[0], g[0]);
    MaskedBits(h[1], g[1]);
    PriorityIs(h);
    PriorityIs(g);
  }

  lemma FourthAddress(h: seq<byte>, g: seq<byte>)
    requires Header(h) && Header(g) && SameProtected(h, g)
    ensures FourAddress(h) ==> |h| >= 30 && |g| >= 30 && h[24..30] == g[24..30]
  {
  }

  /** Two headers give the same nonce and additional data exactly when they agree on what is protected. */
  lemma ProtectedExactly(h: seq<byte>, g: seq<byte>, pn: nat)
    requires Header(h) && Header(g)
    ensures Nonce(h, pn) == Nonce(g, pn) && Aad(h) == Aad(g) <==> SameProtected(h, g)
  {
    hide Nonce; hide Aad; hide FourAddress; hide HasQos; hide Priority;
    if SameProtected(h, g) {
      SameParts(h, g, pn);
    }
    if Nonce(h, pn) == Nonce(g, pn) && Aad(h) == Aad(g) {
      SameAad(h, g);
    }
  }

  lemma SameAad(h: seq<byte>, g: seq<byte>)
    requires Header(h) && Header(g) && Aad(h) == Aad(g)
    ensures SameProtected(h, g)
  {
    hide Aad; hide FourAddress; hide HasQos; hide Priority;
    AadParts(h);
    AadParts(g);
    MaskedBits(h[0], g[0]);
    MaskedBits(h[1], g[1]);
  }

  /** A frame control bit that is not one of the six left out changes the additional data. */
  lemma FrameControlProtected(h: seq<byte>, g: seq<byte>)
    requires Header(h) && Header(g) && ((h[0] ^ g[0]) & 0x8f != 0 || (h[1] ^ g[1]) & 0xc7 != 0)
    ensures Aad(h) != Aad(g)
  {
    hide Aad; hide FourAddress; hide HasQos; hide Priority;
    AadParts(h);
    AadParts(g);
    BitsDiffer(h[0], g[0], 0x8f);
    BitsDiffer(h[1], g[1], 0xc7);
  }

  lemma BitsDiffer(a: byte, b: byte, mask: byte)
    ensures (a ^ b) & mask != 0 <==> a & mask != b & mask
  {
  }

  // ---------------------------------------------------------------------------
  // Frames

  /** The eight bytes between header and payload. */
  function Iv(tsc: nat, keyid: byte): (v: seq<byte>)
    ensures |v| == HEADER
  {
    PnBytes(tsc)[..2] + [0, keyid | EXTIV] + PnBytes(tsc)[2..]
  }

  /** The CCMP header (section 8.3.3.2): PN0, PN1, zero, key id with the extended IV bit, PN2 to PN5. */
  lemma IvParts(tsc: nat, keyid: byte)
    ensures Iv(tsc, keyid) == [Byte(tsc), Byte(tsc / 0x100), 0, keyid | 0x20, Byte(tsc / 0x1_0000),
                               Byte(tsc / 0x100_0000), Byte(tsc / 0x1_0000_0000), Byte(tsc / 0x100_0000_0000)]
  {
    hide PnBytes; hide Byte;
    PnByteAt(tsc);
  }

  lemma ReadOfIv(tsc: nat, keyid: byte)
    ensures Read6(Iv(tsc, keyid)) == tsc % PN_MOD
  {
    hide PnBytes; hide LeValue;
    var p := PnBytes(tsc);
    assert Iv(tsc, keyid)[..2] + Iv(tsc, keyid)[4..] == p;
    PnBytesOf(tsc);
  }

  /** A protected frame: section 8.3.3.2 of IEEE 802.11-2007. */
  function Sealed(e: Cipher, h: seq<byte>, tsc: nat, keyid: byte, payload: seq<byte>): seq<byte>
    requires Header(h)
  {
    var nonce := Nonce(h, tsc);
    h + Iv(tsc, keyid) + Crypt(e, nonce, 0, payload) + Tag(e, MIC, nonce, Aad(h), payload)
  }

  datatype Received = Dropped | Accepted(pn: nat, frame: seq<byte>)

  /** What the receiver, which last accepted packet number rsc, makes of a frame. */
  function Opened(e: Cipher, rsc: nat, f: seq<byte>, hdrlen: nat): Received
    requires 24 <= hdrlen && |f| >= hdrlen + HEADER + TRAILER && HdrSize(f) <= hdrlen
  {
    var h, iv, n := f[..hdrlen], f[hdrlen..hdrlen + HEADER], |f| - TRAILER;
    var pn := Read6(iv);
    if iv[3] & EXTIV == 0 || pn <= rsc then Dropped
    else
      var nonce := Nonce(h, pn);
      var plain := Crypt(e, nonce, 0, f[hdrlen + HEADER..n]);
      if f[n..] == Tag(e, MIC, nonce, Aad(h), plain) then Accepted(pn, h + plain) else Dropped
  }

  lemma HasExtIv(keyid: byte)
    ensures (keyid | EXTIV) & EXTIV != 0
  {
  }

  /** Only the low 48 bits of the counter enter the nonce. */
  lemma NonceMasked(h: seq<byte>, tsc: nat)
    requires Header(h)
    ensures Nonce(h, tsc % PN_MOD) == Nonce(h, tsc)
  {
    hide PnBytes; hide Priority;
    PnBytesOf(tsc);
  }

  lemma AfterHeader(h: seq<byte>, iv: seq<byte>, c: seq<byte>, t: seq<byte>)
    ensures forall g: seq<byte> :: g + (h + iv + c + t)[|h|..] == g + iv + c + t
  {
    assert (h + iv + c + t)[|h|..] == iv + c + t;
  }

  /** The frame arrives with header g in the place of h; nothing protected was changed. */
  lemma RoundTrip(e: Cipher, h: seq<byte>, g: seq<byte>, tsc: nat, keyid: byte, payload: seq<byte>, rsc: nat)
    requires Header(h) && Header(g) && |g| == |h| && SameProtected(h, g)
    requires rsc < tsc % PN_MOD
    ensures var f := g + Sealed(e, h, tsc, keyid, payload)[|h|..];
            Opened(e, rsc, f, |g|) == Accepted(tsc % PN_MOD, g + payload)
  {
    hide PnBytes; hide Tag; hide Crypt; hide Nonce; hide Aad; hide Read6;
    var pn, iv, nonce := tsc % PN_MOD, Iv(tsc, keyid), Nonce(h, tsc);
    var c := Crypt(e, nonce, 0, payload);
    var t := Tag(e, MIC, nonce, Aad(h), payload);
    var f := g + Sealed(e, h, tsc, keyid, payload)[|h|..];
    assert f == g + iv + c + t by { AfterHeader(h, iv, c, t); }
    FourParts(g, iv, c, t);
    ReadOfIv(tsc, keyid);
    HasExtIv(keyid);
    NonceMasked(g, tsc);
    ProtectedExactly(h, g, tsc);
    CryptTwice(e, nonce, 0, payload);
  }

  // ---------------------------------------------------------------------------
  // Runs

  /** A frame as it arrives, with the length of its header. */
  datatype Arrival = Arrival(f: seq<byte>, hdrlen: nat) {
    predicate Ok() { 24 <= hdrlen && |f| >= hdrlen + HEADER + TRAILER && HdrSize(f) <= hdrlen }
  }

  function Open(e: Cipher, rsc: nat, a: Arrival): (r: Received)
    requires a.Ok()
    ensures r.Accepted? ==> rsc < r.pn
  {
    Opened(e, rsc, a.f, a.hdrlen)
  }

  predicate AllOk(arrivals: seq<Arrival>) { forall a <- arrivals :: a.Ok() }

  /** The packet numbers one key accepts from a run of frames. */
  function Run(e: Cipher, rsc: nat, arrivals: seq<Arrival>): (pns: seq<nat>)
    requires AllOk(arrivals)
    decreases arrivals
  {
    if arrivals == [] then []
    else
      assert arrivals[0].Ok();
      match Open(e, rsc, arrivals[0])
      case Dropped => Run(e, rsc, arrivals[1..])
      case Accepted(pn, _) => [pn] + Run(e, pn, arrivals[1..])
  }

  /** The receive counter after a run. */
  function Rsc(rsc: nat, pns: seq<nat>): nat { if pns == [] then rsc else pns[|pns| - 1] }

  /** Each number is above all before it, and above rsc. */
  predicate Climbs(rsc: nat, pns: seq<nat>) {
    && (forall i, j :: 0 <= i < j < |pns| ==> pns[i] < pns[j])
    && (forall i :: 0 <= i < |pns| ==> rsc < pns[i])
  }

  /** Whatever arrives, the packet numbers accepted strictly increase. */
  lemma {:induction false} PnIncreases(e: Cipher, rsc: nat, arrivals: seq<Arrival>)
    requires AllOk(arrivals)
    ensures Climbs(rsc, Run(e, rsc, arrivals))
    decreases arrivals
  {
    hide Open;
    if arrivals != [] {
      assert arrivals[0].Ok();
      match Open(e, rsc, arrivals[0])
      case Dropped =>
        PnIncreases(e, rsc, arrivals[1..]);
        assert Run(e, rsc, arrivals) == Run(e, rsc, arrivals[1..]);
      case Accepted(pn, _) =>
        PnIncreases(e, pn, arrivals[1..]);
        assert Run(e, rsc, arrivals) == [pn] + Run(e, pn, arrivals[1..]);
    }
  }

  lemma StaleDropped(e: Cipher, rsc: nat, later: nat, a: Arrival)
    requires a.Ok() && Open(e, rsc, a).Accepted? && Open(e, rsc, a).pn <= later
    ensures Open(e, later, a) == Dropped
  {
    hide Tag; hide Crypt; hide Nonce; hide Aad; hide Read6;
  }

  /** A frame that was accepted once is never accepted again, whatever arrived in between. */
  lemma NoReplay(e: Cipher, rsc: nat, a: Arrival, arrivals: seq<Arrival>)
    requires a.Ok() && AllOk(arrivals) && Open(e, rsc, a).Accepted?
    ensures var pn := Open(e, rsc, a).pn;
            Open(e, Rsc(pn, Run(e, pn, arrivals)), a) == Dropped
  {
    hide Open; hide Run;
    var pn := Open(e, rsc, a).pn;
    PnIncreases(e, pn, arrivals);
    StaleDropped(e, rsc, Rsc(pn, Run(e, pn, arrivals)), a);
  }

  lemma NonceHolds(h: seq<byte>, g: seq<byte>, a: nat, b: nat)
    requires Header(h) && Header(g)
    ensures Nonce(h, a) == Nonce(g, b) <==>
              Priority(h) == Priority(g) && h[10..16] == g[10..16] && PnBytes(a) == PnBytes(b)
  {
    hide PnBytes; hide Priority;
    var m, n := Nonce(h, a), Nonce(g, b);
    assert m[0] == Priority(h) && m[1..7] == h[10..16] && n[0] == Priority(g) && n[1..7] == g[10..16];
    if m == n {
      forall k | 0 <= k < 6 ensures PnBytes(a)[k] == PnBytes(b)[k] {
        assert m[12 - k] == n[12 - k];
      }
    }
  }

  /** A counter of 64 bits keeps the low 48, and two counts share those exactly when they are a multiple apart. */
  lemma SameLow(a: nat, b: nat)
    requires a <= b
    ensures a % TSC_MOD % PN_MOD == b % TSC_MOD % PN_MOD <==> (b - a) % PN_MOD == 0
  {
    ModMod(a);
    ModMod(b);
    Residues(a, b);
  }

  lemma Residues(a: nat, b: nat)
    requires a <= b
    ensures a % PN_MOD == b % PN_MOD <==> (b - a) % PN_MOD == 0
  {
  }

  lemma ModMod(n: nat)
    ensures n % TSC_MOD % PN_MOD == n % PN_MOD
  {
  }

  lemma SamePn(a: nat, b: nat)
    ensures PnBytes(a) == PnBytes(b) <==> a % PN_MOD == b % PN_MOD
  {
    hide PnBytes;
    PnBytesOf(a);
    PnBytesOf(b);
  }

  /** Of the frames sent under one key, two use the same nonce if and only if they share transmitter and priority and
      are a multiple of 2^48 frames apart; of fewer than 2^48 frames no two do. */
  lemma FreshNonces(h: seq<byte>, g: seq<byte>, tsc: nat, i: nat, j: nat)
    requires Header(h) && Header(g) && i <= j
    ensures Nonce(h, (tsc + i) % TSC_MOD) == Nonce(g, (tsc + j) % TSC_MOD) <==>
              Priority(h) == Priority(g) && h[10..16] == g[10..16] && (j - i) % PN_MOD == 0
    ensures i < j < i + PN_MOD ==> Nonce(h, (tsc + i) % TSC_MOD) != Nonce(g, (tsc + j) % TSC_MOD)
  {
    hide PnBytes; hide Nonce; hide Priority;
    var a, b := (tsc + i) % TSC_MOD, (tsc + j) % TSC_MOD;
    NonceHolds(h, g, a, b);
    SamePn(a, b);
    SameLow(tsc + i, tsc + j);
  }
}
