/** The printers and the parser of rate elements, on buffers. */
module ElementsCode {
  import opened Options
  import opened Rates
  import opened RatesCode
  import opened Elements

  /** memcpy. */
  method Copy(dst: array<Octet>, at: nat, src: seq<Octet>)
    requires at + |src| <= dst.Length
    modifies dst
    ensures dst[..at] == old(dst[..at]) && dst[at..at + |src|] == src
    ensures dst[at + |src|..] == old(dst[at + |src|..])
  {
    for j := 0 to |src|
      invariant forall k :: 0 <= k < dst.Length ==> dst[k] == if at <= k < at + j then src[k - at] else old(dst[k])
    {
      dst[at + j] := src[j];
    }
  }

  /** One element at the cursor. */
  method Put(frm: array<Octet>, at: nat, id: Octet, data: seq<Octet>) returns (next: nat)
    requires |data| < 256 && at + Size(|data|) <= frm.Length
    modifies frm
    ensures next == at + Size(|data|) && frm[..next] == old(frm[..at]) + Print([RawElement(id, data)])
  {
    Copy(frm, at, [id, |data|]);
    Copy(frm, at + 2, data);
    next := at + Size(|data|);
    var e: Element := RawElement(id, data);
    PrintOne([e]);
    assert frm[..next] == frm[..at] + frm[at..at + 2] + frm[at + 2..next];
    assert frm[at..at + 2] == frm[..at + 2][at..];
  }

  /** ieee80211_add_rates. */
  method AddRates(frm: array<Octet>, at: nat, rs: RateSet) returns (next: nat)
    requires rs.Valid() && at + Size(RATE_SIZE) <= frm.Length && rs.rates != frm
    modifies frm
    ensures next <= at + Size(RATE_SIZE) && frm[..next] == old(frm[..at]) + Print([FirstRates(rs.Contents())])
  {
    var nrates := rs.n;
    if nrates > RATE_SIZE {
      nrates := RATE_SIZE;
    }
    assert rs.rates[..nrates] == FirstRates(rs.Contents()).data;
    next := Put(frm, at, RATES, rs.rates[..nrates]);
  }

  /** ieee80211_add_xrates. */
  method AddXrates(frm: array<Octet>, at: nat, rs: RateSet) returns (next: nat)
    requires rs.Valid() && at + Size(MAXSIZE - RATE_SIZE) <= frm.Length && rs.rates != frm
    modifies frm
    ensures next <= at + Size(MAXSIZE - RATE_SIZE) && frm[..next] == old(frm[..at]) + Print(MoreRates(rs.Contents()))
  {
    next := at;
    if rs.n > RATE_SIZE {
      assert rs.rates[RATE_SIZE..rs.n] == rs.Contents()[RATE_SIZE..];
      next := Put(frm, at, XRATES, rs.rates[RATE_SIZE..rs.n]);
    } else {
      assert old(frm[..at]) + [] == old(frm[..at]);
    }
  }

  /** ieee80211_setup_rates, up to the call of ieee80211_fix_rate. */
  method Install(rs: RateSet, rates: Element, xrates: Option<Element>)
    requires rs.Valid() && |rates.data| <= MAXSIZE
    modifies rs`n, rs.rates
    ensures rs.Valid() && rs.Contents() == Taken(rates, xrates)
  {
    Copy(rs.rates, 0, seq(MAXSIZE, _ => 0));
    rs.n := |rates.data|;
    Copy(rs.rates, 0, rates.data);
    assert rs.rates[..rs.n] == rs.rates[0..rs.n];
    if xrates.Some? {
      var nxrates := |xrates.value.data|;
      if rs.n + nxrates > MAXSIZE {
        nxrates := MAXSIZE - rs.n;
      }
      Copy(rs.rates, rs.n, xrates.value.data[..nxrates]);
      assert rs.rates[..rs.n + nxrates] == rs.rates[..rs.n] + rs.rates[rs.n..rs.n + nxrates];
      rs.n := rs.n + nxrates;
    }
  }

  /** ieee80211_setup_rates. */
  method SetupRates(rs: RateSet, rates: Element, xrates: Option<Element>, job: Job)
    returns (result: Rate, ghost seen: seq<Rate>, ghost sc: Scan)
    requires rs.Valid() && |rates.data| <= MAXSIZE
    modifies rs, rs.rates
    ensures rs.Valid() && rs.Contents() == job.Remaining(seen) && multiset(seen) == multiset(Taken(rates, xrates))
    ensures if job.sort then Ascending(seen) else seen == Taken(rates, xrates)
    ensures ScanOk(job, old(rs.txrate), sc) && sc.seen == seen && sc.tx == rs.txrate
    ensures result == if Fails(job, sc) then sc.bad + 128 else RV(sc.ok)
  {
    hide ScanOk; hide Taken;
    Install(rs, rates, xrates);
    result, seen, sc := rs.FixRate(job);
  }
}
