/** ieee80211_fix_rate and ieee80211_iserp_rateset of ieee80211_proto.c, in place on the rate array. */
module RatesCode {
  import opened Rates

  const MAXSIZE: nat := 15

  /** struct ieee80211_rateset, and the index of the rate in use. */
  class RateSet {
    const rates: array<Rate>
    var n: nat
    var txrate: nat

    ghost predicate Valid()
      reads this
    {
      rates.Length == MAXSIZE && n <= MAXSIZE
    }

    ghost function Contents(): seq<Rate>
      requires Valid()
      reads this, rates
    {
      rates[..n]
    }

    constructor ()
      ensures Valid() && Contents() == [] && fresh(rates)
    {
      rates := new Rate[MAXSIZE](_ => 0);
      n, txrate := 0, 0;
    }

    /** ieee80211_fix_rate. The rates are visited in the order `seen`: as received, or ascending when sorting. */
    method FixRate(job: Job) returns (result: Rate, ghost seen: seq<Rate>, ghost sc: Scan)
      requires Valid()
      modifies this, rates
      ensures Valid() && Contents() == job.Remaining(seen) && multiset(seen) == multiset(old(Contents()))
      ensures if job.sort then Ascending(seen) else seen == old(Contents())
      ensures ScanOk(job, old(txrate), sc) && sc.seen == seen && sc.tx == txrate
      ensures result == if Fails(job, sc) then sc.bad + 128 else RV(sc.ok)
    {
      hide Midway; hide ScanOk; hide Visit;
      var i, okrate: Rate, badrate: Rate, fixedrate: Rate, error := 0, 0, 0, 0, false;
      ghost var s0, tx0 := Contents(), txrate;
      seen, sc := [], Scan([], 0, txrate, 0, 0, false);
      MidwayStart(job, s0);
      ScanStart(job, tx0);
      assert rates[..0] == [] && rates[0..n] == s0;
      while i < n
        invariant Valid() && 0 <= i <= n && Midway(job, s0, seen, rates[..i], rates[i..n]) && badrate < 128
        invariant ScanOk(job, tx0, sc) && sc == Scan(seen, okrate, txrate, badrate, fixedrate, error)
        decreases n - i
      {
        MidwayDone(job, s0, seen, rates[..i], rates[i..n]);
        var r, ignore, m := Turn(job, rates, i, n, s0, seen);
        VisitOk(job, tx0, sc, r);
        okrate, txrate, badrate, fixedrate, error :=
          Tally(job, sc, r, ignore, rates[i], i, okrate, txrate, fixedrate, error);
        seen, sc := seen + [r], Visit(job, sc, r);
        n := m;
        if !(job.del && ignore) {
          i := i + 1;
        }
      }
      assert rates[i..n] == [];
      MidwayEnd(job, s0, seen, rates[..i]);
      result := if okrate == 0 || error || (job.frate && fixedrate == 0) then badrate + 128 else RV(okrate);
    }
  }

  /** What one visited rate does to the variables of the loop. */
  method Tally(job: Job, ghost sc: Scan, r: Rate, ignore: bool, out: Rate, i: nat, ok: Rate, tx: nat, fix: Rate,
               err: bool)
    returns (ok': Rate, tx': nat, bad': Rate, fix': Rate, err': bool)
    requires sc == Scan(sc.seen, ok, tx, sc.bad, fix, err) && i == |job.Remaining(sc.seen)|
    requires ignore == !job.Accepts(r) && (!ignore ==> out == job.Out(r))
    ensures Visit(job, sc, r) == Scan(sc.seen + [r], ok', tx', bad', fix', err') && bad' < 128
  {
    ok', tx', bad', fix', err' := ok, tx, RV(r), fix, err;
    if job.frate && RV(r) == RV(job.fixed) {
      fix' := RV(r);
    }
    if ignore && job.ap && Basic(r) {
      err' := true;
    }
    if !ignore {
      ok', tx' := out, i;
    }
  }

  /** The three ways to fail. */
  predicate Fails(job: Job, sc: Scan) { sc.ok == 0 || sc.err || (job.frate && sc.fix == 0) }

  method SwapRates(a: array<Rate>, i: nat, j: nat, ghost lo: nat, ghost hi: nat)
    requires lo <= i < hi && lo <= j < hi <= a.Length
    modifies a
    ensures multiset(a[lo..hi]) == old(multiset(a[lo..hi])) && a[..lo] == old(a[..lo]) && a[hi..] == old(a[hi..])
    ensures a[i] == old(a[j]) && a[j] == old(a[i])
    ensures forall k :: 0 <= k < a.Length && k != i && k != j ==> a[k] == old(a[k])
  {
    a[i], a[j] := a[j], a[i];
    assert a[lo..hi] == old(a[lo..hi])[i - lo := old(a[j])][j - lo := old(a[i])];
  }

  /** One pass of the sort: the least rate of a[i..n] comes to the front. */
  method SelectLeast(a: array<Rate>, i: nat, n: nat)
    requires i < n <= a.Length
    modifies a
    ensures multiset(a[i..n]) == old(multiset(a[i..n])) && a[..i] == old(a[..i]) && a[n..] == old(a[n..])
    ensures forall k :: i <= k < n ==> RV(a[i]) <= RV(a[k])
  {
    for j := i + 1 to n
      invariant multiset(a[i..n]) == old(multiset(a[i..n])) && a[..i] == old(a[..i]) && a[n..] == old(a[n..])
      invariant forall k :: i <= k < j ==> RV(a[i]) <= RV(a[k])
    {
      if RV(a[i]) > RV(a[j]) {
        SwapRates(a, i, j, i, n);
      }
    }
  }

  /** The first supported rate of the same value. */
  method Lookup(srs: seq<Rate>, r: Rate) returns (j: nat)
    ensures j == FindRate(srs, r)
  {
    j := 0;
    while j < |srs|
      invariant j <= |srs| && forall k :: 0 <= k < j ==> RV(srs[k]) != RV(r)
    {
      if RV(r) == RV(srs[j]) {
        break;
      }
      j := j + 1;
    }
    ghost var k := FindRate(srs, r);
  }

  /** Close the gap at i. */
  method DeleteAt(a: array<Rate>, i: nat, n: nat)
    requires i < n <= a.Length
    modifies a
    ensures a[..i] == old(a[..i]) && a[i..n - 1] == old(a[i + 1..n]) && a[n..] == old(a[n..]) && a[n - 1] == 0
  {
    for j := i to n - 1
      invariant a[..i] == old(a[..i]) && a[n..] == old(a[n..])
      invariant forall k :: i <= k < j ==> a[k] == old(a[k + 1])
      invariant forall k :: j <= k < n ==> a[k] == old(a[k])
    {
      a[j] := a[j + 1];
    }
    a[n - 1] := 0;
  }

  /** What the loop has done so far: `seen` were visited, a[..i] is what remains of them, a[i..n] is still to come. */
  ghost predicate Midway(job: Job, s0: seq<Rate>, seen: seq<Rate>, done: seq<Rate>, rest: seq<Rate>) {
    && multiset(seen) + multiset(rest) == multiset(s0)
    && done == job.Remaining(seen)
    && (!job.sort ==> seen + rest == s0)
    && (job.sort ==> Ascending(seen) && Below(seen, rest))
  }

  /** No rate of one is above any of the other. */
  ghost predicate Below(a: seq<Rate>, b: seq<Rate>) { forall x, y | x in a && y in b :: RV(x) <= RV(y) }

  lemma MidwayStart(job: Job, s0: seq<Rate>)
    ensures Midway(job, s0, [], [], s0)
  {
    assert [] + s0 == s0;
  }

  lemma MidwaySorted(job: Job, s0: seq<Rate>, seen: seq<Rate>, done: seq<Rate>, rest: seq<Rate>, rest': seq<Rate>)
    requires Midway(job, s0, seen, done, rest) && job.sort && multiset(rest') == multiset(rest)
    ensures Midway(job, s0, seen, done, rest')
  {
    forall y | y in rest' ensures y in rest { assert y in multiset(rest'); }
  }

  lemma MidwayNext(job: Job, s0: seq<Rate>, seen: seq<Rate>, done: seq<Rate>, rest: seq<Rate>)
    requires Midway(job, s0, seen, done, rest) && rest != []
    requires job.sort ==> forall k :: 0 <= k < |rest| ==> RV(rest[0]) <= RV(rest[k])
    ensures Midway(job, s0, seen + [rest[0]], done + (if job.Keeps(rest[0]) then [job.Out(rest[0])] else []), rest[1..])
  {
    hide Ascending; hide Below;
    RemainingSnoc(job, seen, rest[0]);
    Shifted(seen, rest);
    if job.sort {
      BelowNext(seen, rest);
    }
  }

  lemma Shifted(seen: seq<Rate>, rest: seq<Rate>)
    requires rest != []
    ensures seen + [rest[0]] + rest[1..] == seen + rest
    ensures multiset(seen + [rest[0]]) + multiset(rest[1..]) == multiset(seen) + multiset(rest)
  {
    assert rest == [rest[0]] + rest[1..];
  }

  lemma BelowNext(seen: seq<Rate>, rest: seq<Rate>)
    requires rest != [] && Ascending(seen) && Below(seen, rest)
    requires forall k :: 0 <= k < |rest| ==> RV(rest[0]) <= RV(rest[k])
    ensures Ascending(seen + [rest[0]]) && Below(seen + [rest[0]], rest[1..])
  {
    assert rest[0] in rest;
    AscendingSnoc(seen, rest[0]);
    forall x, y | x in seen + [rest[0]] && y in rest[1..] ensures RV(x) <= RV(y) {
      assert y in rest;
    }
  }

  lemma AscendingSnoc(s: seq<Rate>, r: Rate)
    requires Ascending(s) && forall x | x in s :: RV(x) <= RV(r)
    ensures Ascending(s + [r])
  {
    var next := s + [r];
    assert forall k :: 0 <= k < |s| ==> next[k] in s;
  }

  lemma MidwayDone(job: Job, s0: seq<Rate>, seen: seq<Rate>, done: seq<Rate>, rest: seq<Rate>)
    requires Midway(job, s0, seen, done, rest)
    ensures |done| == |job.Remaining(seen)|
  {
  }

  lemma MidwayEnd(job: Job, s0: seq<Rate>, seen: seq<Rate>, done: seq<Rate>)
    requires Midway(job, s0, seen, done, [])
    ensures multiset(seen) == multiset(s0) && done == job.Remaining(seen)
    ensures (!job.sort ==> seen == s0) && (job.sort ==> Ascending(seen))
  {
    assert seen + [] == seen;
  }

  /** Check one rate against the supported ones, and overwrite it with the local one. */
  method Negotiate(job: Job, a: array<Rate>, i: nat) returns (ignore: bool)
    requires i < a.Length
    modifies a
    ensures ignore == !job.Accepts(old(a[i])) && a[..] == old(a[..])[i := job.Out(old(a[i]))]
  {
    ignore := false;
    if job.nego {
      var j := Lookup(job.srs, a[i]);
      if j < |job.srs| {
        a[i] := job.srs[j];
      } else {
        ignore := true;
      }
    }
  }

  /** The least of the remaining rates first, when sorting. */
  method Order(job: Job, a: array<Rate>, i: nat, n: nat, ghost s0: seq<Rate>, ghost seen: seq<Rate>)
    requires i < n <= a.Length && Midway(job, s0, seen, a[..i], a[i..n])
    modifies a
    ensures Midway(job, s0, seen, a[..i], a[i..n])
    ensures job.sort ==> forall k :: 0 <= k < n - i ==> RV(a[i]) <= RV(a[i..n][k])
  {
    hide Midway;
    if job.sort {
      ghost var done, rest := a[..i], a[i..n];
      SelectLeast(a, i, n);
      MidwaySorted(job, s0, seen, done, rest, a[i..n]);
    }
  }

  /** One turn of the loop at position i; the array holds done, then rest, up to n. */
  method Turn(job: Job, a: array<Rate>, i: nat, n: nat, ghost s0: seq<Rate>, ghost seen: seq<Rate>)
    returns (r: Rate, ignore: bool, n': nat)
    requires i < n <= a.Length && Midway(job, s0, seen, a[..i], a[i..n])
    modifies a
    ensures ignore == !job.Accepts(r) && n' == (if job.del && ignore then n - 1 else n)
    ensures var i' := if job.del && ignore then i else i + 1;
            i' <= n' && Midway(job, s0, seen + [r], a[..i'], a[i'..n']) && (!ignore ==> a[i] == job.Out(r))
  {
    hide Midway;
    Order(job, a, i, n, s0, seen);
    r := a[i];
    ghost var done, rest := a[..i], a[i..n];
    MidwayNext(job, s0, seen, done, rest);
    ignore := Negotiate(job, a, i);
    n' := n;
    assert a[..i] == done && a[i] == job.Out(r) && a[i + 1..n] == rest[1..];
    if job.del && ignore {
      DeleteAt(a, i, n);
      n' := n - 1;
      assert done + [] == done;
    } else {
      assert a[..i + 1] == done + [job.Out(r)];
    }
  }

  // ---------------------------------------------------------------------------
  // What this means for a sorted, negotiated and pruned set

  lemma {:induction false} RemainingMembers(job: Job, s: seq<Rate>)
    requires job.nego && job.del
    ensures forall r :: r in job.Remaining(s) ==> r in job.srs && job.Accepts(r)
    ensures job.Remaining(s) != [] <==> exists r :: r in s && Supported(job.srs, r)
    ensures (forall r | r in s :: RV(r) != 0) ==> forall r | r in job.Remaining(s) :: RV(r) != 0
  {
    if s != [] {
      RemainingMembers(job, s[1..]);
      OutAccepted(job, s[0]);
      assert s == [s[0]] + s[1..];
    }
  }

  lemma {:induction false} RemainingAbove(job: Job, s: seq<Rate>, b: nat)
    requires forall r | r in s :: b <= RV(r)
    ensures forall r | r in job.Remaining(s) :: b <= RV(r)
  {
    if s != [] {
      assert s == [s[0]] + s[1..];
      RemainingAbove(job, s[1..], b);
    }
  }

  lemma {:induction false} RemainingAscends(job: Job, s: seq<Rate>)
    requires Ascending(s)
    ensures Ascending(job.Remaining(s))
  {
    if s != [] {
      RemainingAscends(job, s[1..]);
      RemainingAbove(job, s[1..], RV(s[0]));
      var rest := job.Remaining(s[1..]);
      assert forall k :: 0 <= k < |rest| ==> rest[k] in rest;
    }
  }

  /** When every rate left is acceptable, the last is the top. */
  lemma TopOfAll(job: Job, out: seq<Rate>, tx0: nat, tx: nat, ok: Rate)
    requires TopIs(job, out, tx0, tx, ok) && forall r | r in out :: job.Accepts(r)
    ensures if out == [] then ok == 0 else tx == |out| - 1 && ok == out[tx]
  {
    assert forall k :: 0 <= k < |out| ==> out[k] in out;
    if out != [] {
      assert job.Accepts(out[|out| - 1]);
    }
  }

  lemma SameMembers(a: seq<Rate>, b: seq<Rate>)
    requires multiset(a) == multiset(b)
    ensures forall r :: r in a <==> r in b
  {
    forall r ensures r in a <==> r in b { assert r in multiset(a) <==> r in multiset(b); }
  }

  /** What remains is the local form of the supported rates received. */
  lemma {:induction false} RemainingOrigin(job: Job, s: seq<Rate>, o: Rate)
    requires job.nego && job.del
    ensures o in job.Remaining(s) <==> exists r :: r in s && Supported(job.srs, r) && o == job.srs[FindRate(job.srs, r)]
  {
    if s != [] {
      RemainingOrigin(job, s[1..], o);
      assert s == [s[0]] + s[1..];
      assert job.Keeps(s[0]) ==> job.Out(s[0]) == job.srs[FindRate(job.srs, s[0])];
    }
  }

  /** The supported rates received all have value zero, and the local one is not basic. */
  ghost predicate ZeroTop(job: Job, s0: seq<Rate>) {
    && Supported(job.srs, 0) && job.srs[FindRate(job.srs, 0)] == 0
    && (exists r :: r in s0 && Supported(job.srs, r))
    && (forall r | r in s0 && Supported(job.srs, r) :: RV(r) == 0)
  }

  lemma OnlyZeroBelow(job: Job, s0: seq<Rate>, out: seq<Rate>)
    requires job.nego && job.del && out != [] && Ascending(out) && multiset(out) == multiset(job.Remaining(s0))
    requires RV(out[|out| - 1]) == 0
    ensures forall r | r in s0 && Supported(job.srs, r) :: RV(r) == 0
  {
    SameMembers(out, job.Remaining(s0));
    forall r | r in s0 && Supported(job.srs, r) ensures RV(r) == 0 {
      var o := job.srs[FindRate(job.srs, r)];
      RemainingOrigin(job, s0, o);
      var k :| 0 <= k < |out| && out[k] == o;
    }
  }

  lemma ZeroTopExactly(job: Job, s0: seq<Rate>, out: seq<Rate>)
    requires job.nego && job.del && out != [] && Ascending(out) && multiset(out) == multiset(job.Remaining(s0))
    ensures out[|out| - 1] == 0 <==> ZeroTop(job, s0)
  {
    hide Ascending;
    var top := out[|out| - 1];
    SameMembers(out, job.Remaining(s0));
    RemainingOrigin(job, s0, top);
    var r :| r in s0 && Supported(job.srs, r) && top == job.srs[FindRate(job.srs, r)];
    if RV(r) == RV(0) {
      SameFind(job.srs, r, 0);
    }
    if top == 0 {
      OnlyZeroBelow(job, s0, out);
    }
  }

  /** The failures meant: nothing in common, a basic rate that an access point does not support, no fixed rate. */
  ghost predicate MeantToFail(job: Job, s0: seq<Rate>) {
    || (forall r | r in s0 :: !Supported(job.srs, r))
    || (job.ap && exists r :: r in s0 && Basic(r) && !Supported(job.srs, r))
    || (job.frate && !exists r :: r in s0 && RV(r) == RV(job.fixed))
  }

  /** Sorting, negotiating and deleting: the set ends up ascending, holds the received rates that are supported
      locally, each as it stands in the local set, and the rate in use is the top one. The call fails when it is
      meant to, and otherwise exactly when a rate of value zero stands for none: the only one in common, or the fixed
      one. */
  lemma Negotiated(job: Job, s0: seq<Rate>, seen: seq<Rate>, tx0: nat, sc: Scan)
    requires job.sort && job.nego && job.del && multiset(seen) == multiset(s0) && Ascending(seen)
    requires ScanOk(job, tx0, sc) && sc.seen == seen
    ensures var out := job.Remaining(seen);
            && Ascending(out) && multiset(out) == multiset(job.Remaining(s0))
            && (forall r | r in out :: r in job.srs)
            && (out != [] ==> sc.tx == |out| - 1)
            && (Fails(job, sc) <==>
                  MeantToFail(job, s0) || ZeroTop(job, s0) || (job.frate && RV(job.fixed) == 0))
  {
    hide TopIs; hide Ascending; hide Supported; hide ZeroTop;
    var out := job.Remaining(seen);
    SameMembers(seen, s0);
    RemainingAscends(job, seen);
    RemainingPermuted(job, seen, s0);
    RemainingMembers(job, seen);
    TopOfAll(job, out, tx0, sc.tx, sc.ok);
    FailsExactly(job, s0, seen, sc);
    if out != [] {
      ZeroTopExactly(job, s0, out);
    } else {
      ZeroTopHas(job, s0);
    }
  }

  lemma ZeroTopHas(job: Job, s0: seq<Rate>)
    ensures ZeroTop(job, s0) ==> exists r :: r in s0 && Supported(job.srs, r)
  {
  }

  /** With no rate of value zero in the local set, the call fails exactly when it is meant to. */
  lemma FailsAsMeant(job: Job, s0: seq<Rate>, seen: seq<Rate>, tx0: nat, sc: Scan)
    requires job.sort && job.nego && job.del && multiset(seen) == multiset(s0) && Ascending(seen)
    requires ScanOk(job, tx0, sc) && sc.seen == seen
    requires 0 !in job.srs && (job.frate ==> RV(job.fixed) != 0)
    ensures Fails(job, sc) <==> MeantToFail(job, s0)
  {
    hide ScanOk; hide Ascending; hide MeantToFail; hide Fails;
    Negotiated(job, s0, seen, tx0, sc);
  }

  lemma FailsExactly(job: Job, s0: seq<Rate>, seen: seq<Rate>, sc: Scan)
    requires forall r :: r in seen <==> r in s0
    requires sc.fix != 0 <==>
               job.frate && RV(job.fixed) != 0 && exists k :: 0 <= k < |seen| && RV(seen[k]) == RV(job.fixed)
    requires sc.err <==> exists k :: 0 <= k < |seen| && job.Refuses(seen[k])
    ensures sc.err <==> exists r :: r in s0 && job.Refuses(r)
    ensures job.frate ==> (sc.fix == 0 <==> RV(job.fixed) == 0 || !exists r :: r in s0 && RV(r) == RV(job.fixed))
  {
    assert forall k :: 0 <= k < |seen| ==> seen[k] in s0;
    assert forall r | r in s0 :: exists k :: 0 <= k < |seen| && seen[k] == r;
  }

  /** A supported rate of value zero is kept, yet the call reports failure. */
  lemma ZeroRateFails()
    ensures var job := Job(true, false, true, true, false, [0], 0);
            var sc := Visit(job, Scan([], 0, 0, 0, 0, false), 0);
            job.Remaining([0]) == [0] && Fails(job, sc)
  {
    var job := Job(true, false, true, true, false, [0], 0);
    RemainingOne(job, 0);
  }

  // ---------------------------------------------------------------------------
  // ERP rate sets

  /** The seven rates an ERP station supports, in the order of the table in the code. */
  const ERP_RATES: seq<Rate> := [2, 4, 11, 22, 12, 24, 48]

  /** Some rate has the value q. */
  ghost predicate Has(s: seq<Rate>, q: Rate) { exists k :: 0 <= k < |s| && RV(s[k]) == q }

  function Values(s: seq<Rate>): set<Rate> { if s == [] then {} else {RV(s[0])} + Values(s[1..]) }

  lemma {:induction false} ValuesOf(s: seq<Rate>)
    ensures |Values(s)| <= |s| && forall q :: q in Values(s) <==> Has(s, q)
  {
    if s != [] {
      ValuesOf(s[1..]);
      assert s[0] == s[0..1][0];
      forall q ensures q in Values(s) <==> Has(s, q) {
        if Has(s[1..], q) {
          var k :| 0 <= k < |s| - 1 && RV(s[1..][k]) == q;
          assert RV(s[k + 1]) == q;
        }
        if Has(s, q) && q != RV(s[0]) {
          var k :| 0 <= k < |s| && RV(s[k]) == q;
          assert RV(s[1..][k - 1]) == q;
        }
      }
    }
  }

  lemma SubsetSize<T>(a: set<T>, b: set<T>)
    requires a <= b
    ensures |a| <= |b|
  {
    if a != {} {
      var x :| x in a;
      SubsetSize(a - {x}, b - {x});
    }
  }

  /** Fewer than seven rates cannot include seven different ones. */
  lemma TooFew(s: seq<Rate>)
    requires forall q | q in ERP_RATES :: Has(s, q)
    ensures |s| >= 7
  {
    hide Has; hide Values;
    ValuesOf(s);
    var all: set<Rate> := {2, 4, 11, 22, 12, 24, 48};
    forall q | q in all ensures q in Values(s) {
      var k := if q == 2 then 0 else if q == 4 then 1 else if q == 11 then 2 else if q == 22 then 3
               else if q == 12 then 4 else if q == 24 then 5 else 6;
      assert ERP_RATES[k] == q;
    }
    SubsetSize(all, Values(s));
  }

  /** The inner loop: stop at the rate, or at the first higher one. */
  method Includes(a: array<Rate>, n: nat, q: Rate) returns (ok: bool)
    requires n <= a.Length && Ascending(a[..n])
    ensures ok <==> Has(a[..n], q)
  {
    ghost var s := a[..n];
    for j := 0 to n
      invariant forall k :: 0 <= k < j ==> RV(s[k]) < q
    {
      var r := RV(a[j]);
      if q == r {
        assert RV(s[j]) == q;
        return true;
      }
      if r > q {
        assert forall k :: j <= k < n ==> RV(s[j]) <= RV(s[k]);
        return false;
      }
    }
    return false;
  }

  /** ieee80211_iserp_rateset: on a sorted set, exactly when all seven rates are there. */
  method IsErp(rs: RateSet) returns (ok: bool)
    requires rs.Valid() && Ascending(rs.Contents())
    ensures ok <==> forall q | q in ERP_RATES :: Has(rs.Contents(), q)
  {
    ghost var s := rs.Contents();
    if rs.n < |ERP_RATES| {
      if forall q | q in ERP_RATES :: Has(s, q) {
        TooFew(s);
      }
      return false;
    }
    for i := 0 to |ERP_RATES|
      invariant forall k :: 0 <= k < i ==> Has(s, ERP_RATES[k])
    {
      ok := Includes(rs.rates, rs.n, ERP_RATES[i]);
      if !ok {
        assert ERP_RATES[i] in ERP_RATES;
        return;
      }
    }
    ok := true;
  }
}
