/** Rate sets: what ieee80211_fix_rate makes of a received set. */
module Rates {

  /** A rate byte: the rate in units of 500 kb/s, plus 128 for a basic rate. */
  type Rate = r: nat | r < 256

  /** IEEE80211_RATE_VAL. */
  function RV(r: Rate): (v: Rate)
    ensures v < 128
  {
    r % 128
  }

  predicate Basic(r: Rate) { r >= 128 }

  /** The first supported rate of the same value, if there is one. */
  function FindRate(srs: seq<Rate>, r: Rate): (k: nat)
    ensures k <= |srs| && (k < |srs| ==> RV(srs[k]) == RV(r))
    ensures forall j :: 0 <= j < k ==> RV(srs[j]) != RV(r)
  {
    if srs == [] then 0 else if RV(srs[0]) == RV(r) then 0 else 1 + FindRate(srs[1..], r)
  }

  predicate Supported(srs: seq<Rate>, r: Rate) { FindRate(srs, r) < |srs| }

  /** What is asked of ieee80211_fix_rate: sort, check the fixed rate, negotiate, delete. */
  datatype Job = Job(sort: bool, frate: bool, nego: bool, del: bool, ap: bool, srs: seq<Rate>, fixed: Rate) {

    /** The rate is not to be ignored. */
    predicate Accepts(r: Rate) { !nego || Supported(srs, r) }

    predicate Keeps(r: Rate) { !del || Accepts(r) }

    /** The rate as it ends up: with the local basic bit once negotiated. */
    function Out(r: Rate): (o: Rate)
      ensures RV(o) == RV(r)
    {
      if nego && Supported(srs, r) then srs[FindRate(srs, r)] else r
    }

    /** The rate makes an access point refuse the set. */
    predicate Refuses(r: Rate) { nego && ap && Basic(r) && !Supported(srs, r) }

    /** The rates that remain, in the order received. */
    function Remaining(s: seq<Rate>): seq<Rate> {
      if s == [] then [] else (if Keeps(s[0]) then [Out(s[0])] else []) + Remaining(s[1..])
    }
  }

  predicate Ascending(s: seq<Rate>) { forall i, j :: 0 <= i < j < |s| ==> RV(s[i]) <= RV(s[j]) }

  lemma {:induction false} RemainingConcat(job: Job, a: seq<Rate>, b: seq<Rate>)
    ensures job.Remaining(a + b) == job.Remaining(a) + job.Remaining(b)
  {
    if a == [] {
      assert a + b == b;
    } else {
      assert (a + b)[1..] == a[1..] + b;
      RemainingConcat(job, a[1..], b);
    }
  }

  lemma RemainingOne(job: Job, r: Rate)
    ensures job.Remaining([r]) == if job.Keeps(r) then [job.Out(r)] else []
  {
    assert [r][1..] == [];
  }

  function Without(b: seq<Rate>, k: nat): seq<Rate>
    requires k < |b|
  {
    b[..k] + b[k + 1..]
  }

  lemma Extracted(b: seq<Rate>, k: nat)
    requires k < |b|
    ensures multiset(b) == multiset(Without(b, k)) + multiset{b[k]}
  {
    assert b == b[..k] + [b[k]] + b[k + 1..];
  }

  lemma RemainingExtracted(job: Job, b: seq<Rate>, k: nat)
    requires k < |b|
    ensures multiset(job.Remaining(b)) == multiset(job.Remaining(Without(b, k))) + multiset(job.Remaining([b[k]]))
  {
    RemainingConcat(job, b[..k], b[k + 1..]);
    RemainingConcat(job, b[..k], [b[k]] + b[k + 1..]);
    RemainingConcat(job, [b[k]], b[k + 1..]);
    assert b == b[..k] + ([b[k]] + b[k + 1..]);
  }

  lemma Cancel(x: Rate, m: multiset<Rate>, n: multiset<Rate>)
    requires m + multiset{x} == n + multiset{x}
    ensures m == n
  {
    assert (m + multiset{x}) - multiset{x} == m && (n + multiset{x}) - multiset{x} == n;
  }

  /** What remains depends on the rates received, not on their order. */
  lemma {:induction false} RemainingPermuted(job: Job, a: seq<Rate>, b: seq<Rate>)
    requires multiset(a) == multiset(b)
    ensures multiset(job.Remaining(a)) == multiset(job.Remaining(b))
    decreases |a|
  {
    hide Without;
    if a == [] {
      assert |b| == |multiset(b)|;
    } else {
      assert a[0] in multiset(b);
      var k :| 0 <= k < |b| && b[k] == a[0];
      Extracted(a, 0);
      Extracted(b, k);
      Cancel(a[0], multiset(Without(a, 0)), multiset(Without(b, k)));
      WithoutLen(a, 0);
      RemainingPermuted(job, Without(a, 0), Without(b, k));
      RemainingExtracted(job, a, 0);
      RemainingExtracted(job, b, k);
    }
  }

  lemma WithoutLen(b: seq<Rate>, k: nat)
    requires k < |b|
    ensures |Without(b, k)| == |b| - 1
  {
  }

  // ---------------------------------------------------------------------------
  // What is known after some rates were visited

  /** The rates visited, and the variables of the loop: okrate, ni_txrate, badrate, fixedrate, error. */
  datatype Scan = Scan(seen: seq<Rate>, ok: Rate, tx: nat, bad: Rate, fix: Rate, err: bool)

  /** One more rate. */
  function Visit(job: Job, sc: Scan, r: Rate): Scan {
    var i := |job.Remaining(sc.seen)|;
    Scan(sc.seen + [r],
         if job.Accepts(r) then job.Out(r) else sc.ok,
         if job.Accepts(r) then i else sc.tx,
         RV(r),
         if job.frate && RV(r) == RV(job.fixed) then RV(r) else sc.fix,
         sc.err || job.Refuses(r))
  }

  /** ni_txrate and okrate: the last rate that is not ignored; as before when there is none. */
  ghost predicate TopIs(job: Job, done: seq<Rate>, tx0: nat, tx: nat, ok: Rate) {
    if exists k :: 0 <= k < |done| && job.Accepts(done[k]) then
      tx < |done| && job.Accepts(done[tx]) && ok == done[tx] && forall k :: tx < k < |done| ==> !job.Accepts(done[k])
    else tx == tx0 && ok == 0
  }

  ghost predicate ScanOk(job: Job, tx0: nat, sc: Scan) {
    && TopIs(job, job.Remaining(sc.seen), tx0, sc.tx, sc.ok)
    && sc.bad == (if sc.seen == [] then 0 else RV(sc.seen[|sc.seen| - 1]))
    && (sc.fix != 0 <==>
          job.frate && RV(job.fixed) != 0 && exists k :: 0 <= k < |sc.seen| && RV(sc.seen[k]) == RV(job.fixed))
    && (sc.err <==> exists k :: 0 <= k < |sc.seen| && job.Refuses(sc.seen[k]))
  }

  lemma ScanStart(job: Job, tx0: nat)
    ensures ScanOk(job, tx0, Scan([], 0, tx0, 0, 0, false))
  {
  }

  lemma RemainingSnoc(job: Job, seen: seq<Rate>, r: Rate)
    ensures job.Remaining(seen + [r]) == job.Remaining(seen) + (if job.Keeps(r) then [job.Out(r)] else [])
  {
    RemainingConcat(job, seen, [r]);
    RemainingOne(job, r);
  }

  /** Negotiation keeps the value, so it keeps the verdict. */
  lemma OutAccepted(job: Job, r: Rate)
    ensures job.Accepts(job.Out(r)) <==> job.Accepts(r)
  {
    SameFind(job.srs, r, job.Out(r));
  }

  lemma {:induction false} SameFind(srs: seq<Rate>, r: Rate, q: Rate)
    requires RV(r) == RV(q)
    ensures FindRate(srs, r) == FindRate(srs, q)
  {
    if srs != [] {
      SameFind(srs[1..], r, q);
    }
  }

  lemma TopVisit(job: Job, done: seq<Rate>, tx0: nat, tx: nat, ok: Rate, r: Rate)
    requires TopIs(job, done, tx0, tx, ok)
    ensures job.Accepts(r) ==> TopIs(job, done + [job.Out(r)], tx0, |done|, job.Out(r))
    ensures !job.Accepts(r) ==> TopIs(job, done + (if job.Keeps(r) then [job.Out(r)] else []), tx0, tx, ok)
  {
    OutAccepted(job, r);
    var more := if job.Keeps(r) then [job.Out(r)] else [];
    var next := done + more;
    if job.Accepts(r) {
      assert job.Accepts(next[|done|]);
    } else {
      assert forall k :: 0 <= k < |done| ==> next[k] == done[k];
      assert forall k :: |done| <= k < |next| ==> !job.Accepts(next[k]);
    }
  }

  lemma VisitOk(job: Job, tx0: nat, sc: Scan, r: Rate)
    requires ScanOk(job, tx0, sc)
    ensures ScanOk(job, tx0, Visit(job, sc, r))
  {
    hide TopIs;
    var seen := sc.seen + [r];
    RemainingSnoc(job, sc.seen, r);
    TopVisit(job, job.Remaining(sc.seen), tx0, sc.tx, sc.ok, r);
    assert seen[|sc.seen|] == r && forall k :: 0 <= k < |sc.seen| ==> seen[k] == sc.seen[k];
  }
}
