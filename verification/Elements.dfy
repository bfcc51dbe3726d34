/** Information elements (section 7.3.2 of IEEE 802.11-2007): the element loop, and rate sets through it. */
module Elements {
  import opened Options
  import opened Rates
  import opened RatesCode

  type Octet = Rate

  datatype RawElement = RawElement(id: Octet, data: seq<Octet>)

  type Element = e: RawElement | |e.data| < 256 witness RawElement(0, [])

  const RATES: Octet := 1
  const XRATES: Octet := 50

  /** The elements one after another. */
  function Print(es: seq<Element>): seq<Octet> {
    if es == [] then [] else [es[0].id, |es[0].data|] + es[0].data + Print(es[1..])
  }

  /** The size of an element with n bytes of data. */
  function Size(n: nat): nat { n + 2 }

  /** The elements the loop visits from position `at` on, or nothing when one does not fit. A single last byte is
      skipped. */
  function Walk(b: seq<Octet>, at: nat): Option<seq<Element>>
    requires at <= |b|
    decreases |b| - at
  {
    if at + 1 >= |b| then Some([])
    else if |b| - at < Size(b[at + 1]) then None
    else
      var next := at + Size(b[at + 1]);
      var e: Element := RawElement(b[at], b[at + 2..next]);
      match Walk(b, next)
      case None => None
      case Some(es) => Some([e] + es)
  }

  /** The last element of a kind. */
  function Last(es: seq<Element>, id: Octet): Option<Element> {
    if es == [] then None else if es[|es| - 1].id == id then Some(es[|es| - 1]) else Last(es[..|es| - 1], id)
  }

  lemma WalkOne(b: seq<Octet>, at: nat, e: Element)
    requires at + Size(|e.data|) <= |b| && b[at] == e.id && b[at + 1] == |e.data|
             && b[at + 2..at + Size(|e.data|)] == e.data
    requires Walk(b, at + Size(|e.data|)).Some?
    ensures Walk(b, at) == Some([e] + Walk(b, at + Size(|e.data|)).value)
  {
  }

  lemma WalkEnd(pre: seq<Octet>)
    ensures Print([]) == [] && pre + Print([]) == pre && Walk(pre, |pre|) == Some([])
  {
  }

  lemma PrintOne(es: seq<Element>)
    requires es != []
    ensures Print(es) == [es[0].id, |es[0].data|] + es[0].data + Print(es[1..])
  {
  }

  lemma PlaceOne(pre: seq<Octet>, id: Octet, n: Octet, data: seq<Octet>, rest: seq<Octet>)
    requires n == |data|
    ensures var b, pre' := pre + ([id, n] + data + rest), pre + [id, n] + data;
            && b == pre' + rest && |pre'| == |pre| + Size(n) && b[|pre|] == id && b[|pre| + 1] == n
              && b[|pre| + 2..|pre'|] == data
  {
  }

  /** The loop visits exactly the elements that were printed. */
  lemma {:induction false} WalkPrint(pre: seq<Octet>, es: seq<Element>)
    ensures Walk(pre + Print(es), |pre|) == Some(es)
    decreases es
  {
    hide Walk; hide Print;
    if es == [] {
      WalkEnd(pre);
    } else {
      var e := es[0];
      var pre' := pre + [e.id, |e.data|] + e.data;
      PrintOne(es);
      PlaceOne(pre, e.id, |e.data|, e.data, Print(es[1..]));
      WalkPrint(pre', es[1..]);
      WalkOne(pre + Print(es), |pre|, e);
      assert [e] + es[1..] == es;
    }
  }

  /** What the loop visits is what stands there: printing it gives the bytes back, up to one last byte. */
  lemma {:induction false} PrintWalk(b: seq<Octet>, at: nat)
    requires at <= |b| && Walk(b, at).Some?
    ensures var p := Print(Walk(b, at).value); at + |p| <= |b| <= at + |p| + 1 && b[at..at + |p|] == p
    decreases |b| - at
  {
    if at + 1 < |b| {
      var next := at + Size(b[at + 1]);
      PrintWalk(b, next);
      var es := Walk(b, next).value;
      var p := Print(Walk(b, at).value);
      assert Walk(b, at).value[1..] == es;
      assert p == [b[at], b[at + 1]] + b[at + 2..next] + Print(es);
    }
  }

  /** The element loop: what rates and xrates point to when it ends. */
  method ScanElements(b: seq<Octet>) returns (ok: bool, rates: Option<Element>, xrates: Option<Element>)
    ensures ok <==> Walk(b, 0).Some?
    ensures ok ==> rates == Last(Walk(b, 0).value, RATES) && xrates == Last(Walk(b, 0).value, XRATES)
  {
    hide Walk; hide Last;
    var frm := 0;
    ghost var es: seq<Element> := [];
    ok, rates, xrates := true, None, None;
    LastNone(RATES);
    LastNone(XRATES);
    AfterNone(Walk(b, 0));
    while frm + 1 < |b|
      invariant 0 <= frm <= |b| && rates == Last(es, RATES) && xrates == Last(es, XRATES)
      invariant Walk(b, 0) == After(es, Walk(b, frm))
      decreases |b| - frm
    {
      WalkNext(b, frm);
      if |b| - frm < Size(b[frm + 1]) {
        return false, None, None;
      }
      var next := frm + Size(b[frm + 1]);
      var e: Element := RawElement(b[frm], b[frm + 2..next]);
      if e.id == RATES {
        rates := Some(e);
      } else if e.id == XRATES {
        xrates := Some(e);
      }
      LastOne(es, e, RATES);
      LastOne(es, e, XRATES);
      AfterOne(es, e, Walk(b, next));
      es := es + [e];
      frm := next;
    }
    WalkNext(b, frm);
    assert es + [] == es;
  }

  /** What was visited, then the rest. */
  function After(es: seq<Element>, rest: Option<seq<Element>>): Option<seq<Element>> {
    match rest
    case None => None
    case Some(more) => Some(es + more)
  }

  lemma AfterNone(rest: Option<seq<Element>>)
    ensures After([], rest) == rest
  {
    if rest.Some? {
      assert [] + rest.value == rest.value;
    }
  }

  lemma AfterOne(es: seq<Element>, e: Element, rest: Option<seq<Element>>)
    ensures After(es, After([e], rest)) == After(es + [e], rest)
  {
    if rest.Some? {
      assert es + ([e] + rest.value) == es + [e] + rest.value;
    }
  }

  lemma WalkNext(b: seq<Octet>, at: nat)
    requires at <= |b|
    ensures at + 1 >= |b| ==> Walk(b, at) == Some([])
    ensures at + 1 < |b| && |b| - at < Size(b[at + 1]) ==> Walk(b, at) == None
    ensures at + 1 < |b| && |b| - at >= Size(b[at + 1]) ==>
              var next := at + Size(b[at + 1]);
              var e: Element := RawElement(b[at], b[at + 2..next]);
              Walk(b, at) == After([e], Walk(b, next))
  {
  }

  lemma LastOne(es: seq<Element>, e: Element, id: Octet)
    ensures Last(es + [e], id) == if e.id == id then Some(e) else Last(es, id)
  {
    assert (es + [e])[..|es|] == es;
  }

  // ---------------------------------------------------------------------------
  // Rate sets

  /** The most rates that fit the first element. */
  const RATE_SIZE: nat := 8

  function FirstRates(s: seq<Rate>): Element {
    RawElement(RATES, if |s| > RATE_SIZE then s[..RATE_SIZE] else s)
  }

  /** The extended rates, if there are any. */
  function MoreRates(s: seq<Rate>): seq<Element>
    requires |s| < 256
  {
    if |s| > RATE_SIZE then
      var e: Element := RawElement(XRATES, s[RATE_SIZE..]);
      [e]
    else []
  }

  /** The bytes of the two elements: number 1 with up to eight rates, number 50 with the rest. */
  lemma RateElements(s: seq<Rate>)
    requires |s| < 256
    ensures |s| <= 8 ==> Print([FirstRates(s)]) == [1, |s|] + s && MoreRates(s) == []
    ensures |s| > 8 ==>
              Print([FirstRates(s)]) == [1, 8] + s[..8] && Print(MoreRates(s)) == [50, |s| - 8] + s[8..]
  {
    PrintOne([FirstRates(s)]);
    assert [FirstRates(s)][1..] == [];
    if |s| > 8 {
      PrintOne(MoreRates(s));
      assert MoreRates(s)[1..] == [];
    }
  }

  /** The set that ieee80211_setup_rates takes from the two elements: never more than fit. */
  function Taken(rates: Element, xrates: Option<Element>): (s: seq<Rate>)
    requires |rates.data| <= MAXSIZE
    ensures |s| <= MAXSIZE
  {
    match xrates
    case None => rates.data
    case Some(x) =>
      rates.data + (if |rates.data| + |x.data| > MAXSIZE then x.data[..MAXSIZE - |rates.data|] else x.data)
  }

  predicate Foreign(es: seq<Element>) { forall e <- es :: e.id != RATES && e.id != XRATES }

  lemma {:induction false} LastSkips(a: seq<Element>, b: seq<Element>, id: Octet)
    requires forall e <- b :: e.id != id
    ensures Last(a + b, id) == Last(a, id)
    decreases b
  {
    if b == [] {
      assert a + b == a;
    } else {
      assert (a + b)[..|a + b| - 1] == a + b[..|b| - 1] && (a + b)[|a + b| - 1] == b[|b| - 1];
      assert b[|b| - 1] in b;
      assert forall e <- b[..|b| - 1] :: e in b;
      LastSkips(a, b[..|b| - 1], id);
    }
  }

  lemma LastFinds(a: seq<Element>, e: Element)
    ensures Last(a + [e], e.id) == Some(e)
  {
  }

  /** A set of at most fifteen rates, printed among other elements, comes back from the element loop and
      ieee80211_setup_rates unchanged. */
  lemma RatesRoundTrip(s: seq<Rate>, before: seq<Element>, between: seq<Element>, after: seq<Element>)
    requires |s| <= MAXSIZE && Foreign(before) && Foreign(between) && Foreign(after)
    ensures var es := before + [FirstRates(s)] + between + MoreRates(s) + after;
            && Walk(Print(es), 0) == Some(es)
            && Last(es, RATES) == Some(FirstRates(s))
            && |FirstRates(s).data| <= MAXSIZE
            && Taken(FirstRates(s), Last(es, XRATES)) == s
  {
    hide Last; hide Walk; hide Print;
    var r, x := FirstRates(s), MoreRates(s);
    var a := before + [r];
    var b := a + between;
    var c := b + x;
    WalkPrint([], c + after);
    assert [] + Print(c + after) == Print(c + after);
    LastSkips(c, after, RATES);
    LastSkips(b, x, RATES);
    LastSkips(a, between, RATES);
    LastFinds(before, r);
    LastSkips(c, after, XRATES);
    if |s| > RATE_SIZE {
      LastFinds(b, x[0]);
      assert s[..RATE_SIZE] + s[RATE_SIZE..] == s;
    } else {
      assert c == b;
      LastSkips(a, between, XRATES);
      LastSkips(before, [r], XRATES);
      LastSkips([], before, XRATES);
      assert [] + before == before;
      LastNone(XRATES);
    }
  }

  lemma LastNone(id: Octet)
    ensures Last([], id) == None
  {
  }

  /** Without flags ieee80211_fix_rate changes nothing. */
  lemma {:induction false} NoFlags(job: Job, s: seq<Rate>)
    requires !job.nego && !job.del
    ensures job.Remaining(s) == s
  {
    if s != [] {
      NoFlags(job, s[1..]);
    }
  }
}
