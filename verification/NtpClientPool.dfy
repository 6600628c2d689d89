/** The mutable `NtpClientPool`, proved against the specification of its servers and of the offset estimate. */
module NtpClientPoolModel {
  import opened RobustMedian
  import opened NtpPool

  // ----- what the offset becomes -----

  predicate IsAccepted(s: Sample) {
    s.isOk && !(s.maxDelayUs > 0 && s.delayUs > s.maxDelayUs)
  }

  function Accepted(samples: seq<Sample>): (r: seq<int>)
    ensures |r| <= |samples|
  {
    if samples == [] then []
    else Accepted(samples[..|samples| - 1]) + if IsAccepted(samples[|samples| - 1]) then [samples[|samples| - 1].offsetUs] else []
  }

  predicate IsFirst(samples: seq<Sample>, n: nat, j: nat) {
    j < n <= |samples| && IsAccepted(samples[j]) && forall i :: 0 <= i < j ==> !IsAccepted(samples[i])
  }

  /** The first accepted sample wins if its delay is unusable; otherwise the earliest of the smallest usable delay. */
  predicate IsBest(samples: seq<Sample>, n: nat, j: nat) {
    && j < n <= |samples| && IsAccepted(samples[j])
    && if samples[j].delayUs <= 0 then IsFirst(samples, n, j)
       else
         (forall i :: 0 <= i < n && IsFirst(samples, n, i) ==> samples[i].delayUs > 0)
         && forall i :: 0 <= i < n && IsAccepted(samples[i]) && samples[i].delayUs > 0 ==>
              samples[j].delayUs <= samples[i].delayUs && (i < j ==> samples[j].delayUs < samples[i].delayUs)
  }

  /** `e` is what the configured aggregation makes of the samples. */
  ghost predicate IsEstimate(samples: seq<Sample>, how: Aggregation, e: int) {
    match how
    case BestDelay =>
      if forall i :: 0 <= i < |samples| ==> !IsAccepted(samples[i]) then e == 0
      else exists j: nat :: IsBest(samples, |samples|, j) && e == samples[j].offsetUs
    case UseMedianMadTrim => IsTrimmedMedian(Accepted(samples), e)
    case UseMedian => IsMedian(Accepted(samples), e)
  }

  /** Conversion of a floating value to an integer drops the fraction. */
  function Truncated(x: real): int {
    if x >= 0.0 then x.Floor else -((-x).Floor)
  }

  function Blend(was: int, e: int, alpha: real): real {
    (1.0 - alpha) * was as real + alpha * e as real
  }

  /** Exponential smoothing from `was` towards the estimate; the factor is clamped to [0, 1]. */
  function Smoothed(was: int, e: int, alpha: real): int {
    if alpha >= 1.0 then e
    else if alpha > 0.0 then Truncated(Blend(was, e, alpha))
    else was
  }

  lemma TruncatedWithin(x: real, a: int, b: int)
    requires a as real <= x <= b as real
    ensures a <= Truncated(x) <= b
  {
  }

  /** Smoothing never overshoots. */
  lemma SmoothedWithin(was: int, e: int, alpha: real, a: int, b: int)
    requires a <= was <= b && a <= e <= b
    ensures a <= Smoothed(was, e, alpha) <= b
  {
    hide Truncated;
    if 0.0 < alpha < 1.0 {
      MeanWithin(was as real, e as real, alpha, a as real, b as real);
      TruncatedWithin(Blend(was, e, alpha), a, b);
    }
  }

  lemma MeanWithin(w: real, v: real, alpha: real, a: real, b: real)
    requires a <= w <= b && a <= v <= b && 0.0 < alpha < 1.0
    ensures a <= (1.0 - alpha) * w + alpha * v <= b
  {
    var k := 1.0 - alpha;
    ScaledWithin(w, k, a, b);
    ScaledWithin(v, alpha, a, b);
    assert k * a + alpha * a == (k + alpha) * a == a;
    assert k * b + alpha * b == (k + alpha) * b == b;
    SumWithin(k * a, k * w, k * b, alpha * a, alpha * v, alpha * b);
  }

  lemma SumWithin(a: real, x: real, b: real, c: real, y: real, d: real)
    requires a <= x <= b && c <= y <= d
    ensures a + c <= x + y <= b + d
  {
  }

  lemma ScaledWithin(w: real, k: real, a: real, b: real)
    requires a <= w <= b && k >= 0.0
    ensures k * a <= k * w <= k * b
  {
  }

  lemma Weighted(w: real, v: real, alpha: real)
    ensures (1.0 - alpha) * w + alpha * v == w + alpha * (v - w)
  {
  }

  lemma TruncatedNear(x: real)
    ensures x >= 0.0 ==> x - 1.0 < Truncated(x) as real <= x
    ensures x <= 0.0 ==> x <= Truncated(x) as real < x + 1.0
  {
  }

  lemma TruncatedGrows(x: real, y: real)
    requires x <= y
    ensures Truncated(x) <= Truncated(y)
  {
  }

  /** A step of smoothing goes the fraction `alpha` of the way to the estimate, less the fraction of a microsecond that
      takes the result towards zero. */
  lemma SmoothedNear(was: int, e: int, alpha: real)
    requires 0.0 <= alpha <= 1.0
    ensures var exact := was as real + alpha * (e as real - was as real);
      && (exact >= 0.0 ==> exact - 1.0 < Smoothed(was, e, alpha) as real <= exact)
      && (exact <= 0.0 ==> exact <= Smoothed(was, e, alpha) as real < exact + 1.0)
  {
    hide Truncated;
    if 0.0 < alpha < 1.0 {
      Weighted(was as real, e as real, alpha);
      TruncatedNear(Blend(was, e, alpha));
    }
  }

  lemma SteepLine(w: real, d: real, alpha: real, beta: real)
    requires alpha <= beta
    ensures d >= 0.0 ==> w + alpha * d <= w + beta * d
    ensures d <= 0.0 ==> w + alpha * d >= w + beta * d
  {
    var k := beta - alpha;
    assert beta * d == alpha * d + k * d;
    if d >= 0.0 { assert k * d >= 0.0; } else { assert k * (-d) >= 0.0; }
  }

  lemma BlendGrows(was: int, e: int, alpha: real, beta: real)
    requires alpha <= beta
    ensures was <= e ==> Blend(was, e, alpha) <= Blend(was, e, beta)
    ensures was >= e ==> Blend(was, e, alpha) >= Blend(was, e, beta)
  {
    Weighted(was as real, e as real, alpha);
    Weighted(was as real, e as real, beta);
    SteepLine(was as real, e as real - was as real, alpha, beta);
  }

  /** The larger the factor, the closer to the estimate. */
  lemma SmoothedGrows(was: int, e: int, alpha: real, beta: real)
    requires alpha <= beta
    ensures was <= e ==> was <= Smoothed(was, e, alpha) <= Smoothed(was, e, beta) <= e
    ensures was >= e ==> was >= Smoothed(was, e, alpha) >= Smoothed(was, e, beta) >= e
  {
    hide Truncated, Blend;
    var (a, b) := (if was <= e then was else e, if was <= e then e else was);
    SmoothedWithin(was, e, alpha, a, b);
    SmoothedWithin(was, e, beta, a, b);
    BlendGrows(was, e, alpha, beta);
    if was <= e {
      TruncatedGrows(Blend(was, e, alpha), Blend(was, e, beta));
    } else {
      TruncatedGrows(Blend(was, e, beta), Blend(was, e, alpha));
    }
  }

  /** A strict majority of truthful samples keeps the pool offset truthful, whatever the rest report. */
  lemma MajorityKeepsOffset(samples: seq<Sample>, how: Aggregation, e: int, was: int, alpha: real, a: int, b: int)
    requires IsEstimate(samples, how, e) && !how.BestDelay?
    requires 2 * Count(Accepted(samples), Within(a, b)) > |Accepted(samples)|
    requires a - 3 * (b - a) <= was <= b + 3 * (b - a) && a <= b
    ensures a - 3 * (b - a) <= Smoothed(was, e, alpha) <= b + 3 * (b - a)
    ensures how.UseMedian? && a <= was <= b ==> a <= Smoothed(was, e, alpha) <= b
  {
    hide Accepted, IsMedian, IsTrimmedMedian, Count, Smoothed;
    if how.UseMedian? {
      MedianOfMajority(Accepted(samples), e, a, b);
      if a <= was <= b { SmoothedWithin(was, e, alpha, a, b); }
    } else {
      TrimmedMedianOfMajority(Accepted(samples), e, a, b);
    }
    SmoothedWithin(was, e, alpha, a - 3 * (b - a), b + 3 * (b - a));
  }

  /** The samples that the queries of a measurement return. */
  function SamplesOf(servers: seq<ServerState>, picked: seq<nat>, queries: seq<Query>): (r: seq<Sample>)
    requires |queries| == |picked| && forall i :: 0 <= i < |picked| ==> picked[i] < |servers|
    ensures |r| == |picked|
  {
    seq(|picked|, i requires 0 <= i < |picked| => SampleOf(servers[picked[i]].cfg, queries[i].reply))
  }

  /** The offsets of the replies that count, in the order of the queries. */
  function UsableOffsets(servers: seq<ServerState>, picked: seq<nat>, queries: seq<Query>): seq<int>
    requires |queries| == |picked| && forall i :: 0 <= i < |picked| ==> picked[i] < |servers|
  {
    if picked == [] then []
    else
      var n := |picked| - 1;
      UsableOffsets(servers, picked[..n], queries[..n])
      + if IsUsable(servers[picked[n]].cfg, queries[n].reply) then [queries[n].reply.offsetUs] else []
  }

  /** The samples that are accepted are those of the replies that count. */
  lemma {:induction false} AcceptedAreUsable(servers: seq<ServerState>, picked: seq<nat>, queries: seq<Query>)
    requires |queries| == |picked| && forall i :: 0 <= i < |picked| ==> picked[i] < |servers|
    ensures Accepted(SamplesOf(servers, picked, queries)) == UsableOffsets(servers, picked, queries)
  {
    if picked != [] {
      var n := |picked| - 1;
      AcceptedAreUsable(servers, picked[..n], queries[..n]);
      assert SamplesOf(servers, picked, queries)[..n] == SamplesOf(servers, picked[..n], queries[..n]);
    }
  }

  /** The estimate is the configured kind of median of those offsets. */
  lemma EstimateOfReplies(servers: seq<ServerState>, picked: seq<nat>, queries: seq<Query>, how: Aggregation, e: int)
    requires |queries| == |picked| && forall i :: 0 <= i < |picked| ==> picked[i] < |servers|
    requires IsEstimate(SamplesOf(servers, picked, queries), how, e)
    ensures how.UseMedian? ==> IsMedian(UsableOffsets(servers, picked, queries), e)
    ensures how.UseMedianMadTrim? ==> IsTrimmedMedian(UsableOffsets(servers, picked, queries), e)
  {
    hide IsMedian, IsTrimmedMedian, Accepted, UsableOffsets;
    AcceptedAreUsable(servers, picked, queries);
  }

  /** With the best delay deciding: an offset reported with the least usable delay, if the first reply that counts has a
      usable delay; otherwise that first reply's offset. */
  lemma BestDelayOfReplies(servers: seq<ServerState>, picked: seq<nat>, queries: seq<Query>, e: int)
    requires |queries| == |picked| && forall i :: 0 <= i < |picked| ==> picked[i] < |servers|
    requires IsEstimate(SamplesOf(servers, picked, queries), BestDelay, e)
    requires exists i :: 0 <= i < |picked| && IsUsable(servers[picked[i]].cfg, queries[i].reply)
    ensures exists j :: 0 <= j < |picked| && IsUsable(servers[picked[j]].cfg, queries[j].reply) && e == queries[j].reply.offsetUs
              && forall i :: 0 <= i < |picked| && IsUsable(servers[picked[i]].cfg, queries[i].reply) ==>
                   if queries[j].reply.delayUs <= 0 then j <= i
                   else queries[i].reply.delayUs <= 0 || queries[j].reply.delayUs < queries[i].reply.delayUs
                        || (queries[j].reply.delayUs == queries[i].reply.delayUs && j <= i)
  {
    var samples := SamplesOf(servers, picked, queries);
    assert forall i :: 0 <= i < |picked| ==> (IsAccepted(samples[i]) <==> IsUsable(servers[picked[i]].cfg, queries[i].reply));
    var i :| 0 <= i < |picked| && IsUsable(servers[picked[i]].cfg, queries[i].reply);
    assert IsAccepted(samples[i]);
    var j: nat :| IsBest(samples, |samples|, j) && e == samples[j].offsetUs;
  }

  function EligibleUpTo(servers: seq<ServerState>, now: int, n: nat): (r: seq<nat>)
    requires n <= |servers|
    ensures forall i :: 0 <= i < |r| ==> r[i] < n && now >= servers[r[i]].nextAllowed
    ensures forall i, j :: 0 <= i < j < |r| ==> r[i] < r[j]
    ensures forall x: nat :: x < n && now >= servers[x].nextAllowed ==> x in r
  {
    if n == 0 then []
    else
      var r := EligibleUpTo(servers, now, n - 1);
      if now >= servers[n - 1].nextAllowed then assert n - 1 in r + [n - 1]; r + [n - 1] else r
  }

  lemma {:induction false} DistinctOnce(s: seq<nat>, x: nat)
    requires AllDistinct(s)
    ensures multiset(s)[x] <= 1
  {
    if s != [] {
      assert s == [s[0]] + s[1..];
      DistinctOnce(s[1..], x);
      if x == s[0] { assert x !in s[1..]; }
    }
  }

  lemma TwiceInMultiset(t: seq<nat>, i: nat, j: nat)
    requires i < j < |t| && multiset(t)[t[i]] <= 1
    ensures t[i] != t[j]
  {
    assert t == t[..j] + [t[j]] + t[j + 1..];
    assert t[i] == t[..j][i];
  }

  lemma DistinctPermutation(s: seq<nat>, t: seq<nat>)
    requires AllDistinct(s) && multiset(t) == multiset(s)
    ensures AllDistinct(t) && |t| == |s| && forall x :: x in t <==> x in s
  {
    assert |t| == |multiset(t)| == |s|;
    forall i, j | 0 <= i < j < |t|
      ensures t[i] != t[j]
    {
      DistinctOnce(s, t[i]);
      TwiceInMultiset(t, i, j);
    }
    assert forall x :: x in t <==> x in multiset(t);
  }

  /** Stands for `std::shuffle`: any permutation may result. */
  method Shuffle(s: seq<nat>) returns (t: seq<nat>)
    ensures multiset(t) == multiset(s)
  {
    t := [];
    var rest := s;
    while rest != []
      invariant multiset(t) + multiset(rest) == multiset(s)
      decreases |rest|
    {
      var k :| 0 <= k < |rest|;
      assert rest == rest[..k] + [rest[k]] + rest[k + 1..];
      t, rest := t + [rest[k]], rest[..k] + rest[k + 1..];
    }
  }

  /** `best_delay_offset`. */
  method BestDelayOffset(samples: seq<Sample>) returns (offset: int)
    ensures IsEstimate(samples, BestDelay, offset)
  {
    var best: int := -1;
    for i := 0 to |samples|
      invariant best == -1 || (0 <= best < i && IsBest(samples, i, best))
      invariant best == -1 <==> forall j :: 0 <= j < i ==> !IsAccepted(samples[j])
    {
      var s := samples[i];
      if !s.isOk {
        continue;
      }
      if s.maxDelayUs > 0 && s.delayUs > s.maxDelayUs {
        continue;
      }
      if best == -1 || (s.delayUs > 0 && samples[best].delayUs > 0 && s.delayUs < samples[best].delayUs) {
        best := i;
      }
    }
    offset := if best == -1 then 0 else samples[best].offsetUs;
  }

  /** `update_from_samples` collects the offsets it will aggregate. */
  method AcceptedOffsets(samples: seq<Sample>) returns (offsets: seq<int>)
    ensures offsets == Accepted(samples)
  {
    offsets := [];
    for i := 0 to |samples|
      invariant offsets == Accepted(samples[..i])
    {
      assert samples[..i + 1][..i] == samples[..i];
      var s := samples[i];
      if !s.isOk {
        continue;
      }
      if s.maxDelayUs > 0 && s.delayUs > s.maxDelayUs {
        continue;
      }
      offsets := offsets + [s.offsetUs];
    }
    assert samples[..|samples|] == samples;
  }

  lemma {:induction false} ConfigsKept(servers: seq<ServerState>, picked: seq<nat>, queries: seq<Query>, j: nat)
    requires |queries| == |picked| && j < |servers| && forall i :: 0 <= i < |picked| ==> picked[i] < |servers|
    ensures AfterQueries(servers, picked, queries)[j].cfg == servers[j].cfg
  {
    if picked != [] { ConfigsKept(servers, picked[..|picked| - 1], queries[..|picked| - 1], j); }
  }

  /** The aggregation switch of `update_from_samples`. */
  method Aggregate(samples: seq<Sample>, offsets: seq<int>, how: Aggregation) returns (e: int)
    requires offsets == Accepted(samples) && (how.BestDelay? || offsets != [])
    ensures IsEstimate(samples, how, e)
  {
    hide IsMedian, IsTrimmedMedian, Accepted;
    if how.BestDelay? {
      e := BestDelayOffset(samples);
    } else {
      var values := new int[|offsets|](i requires 0 <= i < |offsets| => offsets[i]);
      assert values[..] == offsets;
      if how.UseMedianMadTrim? {
        e := MedianMadTrim(values);
      } else {
        e := Median(values);
      }
    }
  }

  class NtpClientPool {
    var cfg: PoolConfig
    var servers: seq<ServerState>
    var lastSamples: seq<Sample>
    var offsetUs: int

    constructor (cfg: PoolConfig, configs: seq<ServerConfig>)
      ensures this.cfg == cfg && offsetUs == 0 && lastSamples == [] && |servers| == |configs|
      ensures forall i :: 0 <= i < |servers| ==> servers[i] == ServerState(configs[i], 0, 0, 0, 0, 0, 0, false)
    {
      this.cfg, offsetUs, lastSamples := cfg, 0, [];
      servers := seq(|configs|, i requires 0 <= i < |configs| => ServerState(configs[i], 0, 0, 0, 0, 0, 0, false));
    }

    /** As many eligible servers as asked for, or all of them, in any order. */
    method PickServersLocked(serversToSample: nat, now: int) returns (picked: seq<nat>)
      ensures Eligible(servers, now, picked)
      ensures |picked| == Min(|EligibleUpTo(servers, now, |servers|)|, serversToSample)
    {
      var eligible: seq<nat> := [];
      for i := 0 to |servers|
        invariant eligible == EligibleUpTo(servers, now, i)
      {
        if now >= servers[i].nextAllowed { eligible := eligible + [i]; }
      }
      if eligible == [] {
        return [];
      }
      picked := Shuffle(eligible);
      DistinctPermutation(eligible, picked);
      assert forall i :: 0 <= i < |picked| ==> picked[i] in eligible;
      if serversToSample < |picked| { picked := picked[..serversToSample]; }
    }

    method UpdateServerStateAfterQuery(index: nat, sample: Sample, now: int)
      requires index < |servers|
      modifies this`servers
      ensures servers == old(servers)[index := Answered(old(servers)[index], sample, now)]
    {
      var state := servers[index];
      state := state.(isLastOk := sample.isOk, lastError := sample.errorCode,
                      lastOffsetUs := sample.offsetUs, lastDelayUs := sample.delayUs);
      if sample.isOk {
        servers := servers[index := state.(failCount := 0, backoff := 0)];
        return;
      }
      state := state.(failCount := state.failCount + 1);
      if state.backoff == 0 {
        state := state.(backoff := state.cfg.backoffInitial);
      } else {
        state := state.(backoff := Min(state.cfg.backoffMax, state.backoff * 2));
      }
      servers := servers[index := state.(nextAllowed := now + state.backoff)];
    }

    method QueryOne(index: nat, q: Query) returns (out: Sample)
      requires index < |servers|
      modifies this`servers
      ensures servers == old(servers)[index := Queried(old(servers)[index], q.start, q.reply, q.finish)]
      ensures out == SampleOf(old(servers)[index].cfg, q.reply)
      ensures out.isOk && (out.maxDelayUs <= 0 || out.delayUs <= out.maxDelayUs) <==> IsUsable(old(servers)[index].cfg, q.reply)
      ensures out.offsetUs == q.reply.offsetUs && out.delayUs == q.reply.delayUs && out.stratum == q.reply.stratum
      ensures out.errorCode == 0 ==> q.reply.ok
    {
      var serverCfg := servers[index].cfg;
      servers := servers[index := servers[index].(nextAllowed := q.start + serverCfg.minInterval)];
      var error := q.reply.errorCode;
      if error == 0 && !q.reply.ok { error := -1; }
      out := Sample(q.reply.ok, error, q.reply.stratum, q.reply.offsetUs, q.reply.delayUs,
                    if serverCfg.maxDelay > 0 then serverCfg.maxDelay * 1000 else 0);
      UpdateServerStateAfterQuery(index, out, q.finish);
    }

    /** An estimate from no samples at all is undefined unless the best delay decides. */
    method UpdateFromSamples(samples: seq<Sample>, cfg: PoolConfig) returns (updated: bool, ghost estimate: int)
      requires cfg.minValidSamples > 0 || cfg.aggregation.BestDelay? || Accepted(samples) != []
      modifies this`offsetUs
      ensures updated <==> |Accepted(samples)| >= cfg.minValidSamples
      ensures if updated then IsEstimate(samples, cfg.aggregation, estimate)
                              && offsetUs == Smoothed(old(offsetUs), estimate, cfg.smoothingAlpha)
              else offsetUs == old(offsetUs)
    {
      hide IsEstimate, Accepted, Truncated, Blend;
      var offsets := AcceptedOffsets(samples);
      if |offsets| < cfg.minValidSamples {
        return false, 0;
      }
      var e := Aggregate(samples, offsets, cfg.aggregation);
      var alpha := if cfg.smoothingAlpha < 0.0 then 0.0 else if cfg.smoothingAlpha > 1.0 then 1.0 else cfg.smoothingAlpha;
      if alpha >= 1.0 {
        offsetUs := e;
      } else if alpha > 0.0 {
        offsetUs := Truncated(Blend(offsetUs, e, alpha));
      }
      return true, e;
    }

    /** The query loop of a measurement. */
    method QueryAll(picked: seq<nat>, queries: seq<Query>) returns (samples: seq<Sample>)
      requires |queries| == |picked| && forall i :: 0 <= i < |picked| ==> picked[i] < |servers|
      modifies this`servers
      ensures servers == AfterQueries(old(servers), picked, queries) && samples == SamplesOf(old(servers), picked, queries)
    {
      hide Queried, SampleOf;
      samples := [];
      for i := 0 to |picked|
        invariant |servers| == |old(servers)| && |samples| == i
        invariant servers == AfterQueries(old(servers), picked[..i], queries[..i])
        invariant samples == SamplesOf(old(servers), picked, queries)[..i]
      {
        assert picked[..i + 1][..i] == picked[..i] && queries[..i + 1][..i] == queries[..i];
        ConfigsKept(old(servers), picked[..i], queries[..i], picked[i]);
        var sample := QueryOne(picked[i], queries[i]);
        samples := samples + [sample];
      }
      assert picked[..|picked|] == picked && queries[..|picked|] == queries;
    }

    /** One whole measurement; `replies` holds the clock readings and answers of the queries, in order. */
    method MeasureN(serversToSample: nat, now: int, replies: seq<Query>) returns (updated: bool, ghost picked: seq<nat>)
      requires |replies| >= |EligibleUpTo(servers, now, |servers|)|
      requires cfg.minValidSamples > 0 || cfg.aggregation.BestDelay?
      modifies this`servers, this`lastSamples, this`offsetUs
      ensures |picked| == Min(|EligibleUpTo(old(servers), now, |old(servers)|)|, serversToSample)
      ensures Eligible(old(servers), now, picked) && |picked| <= |replies|
      ensures servers == AfterQueries(old(servers), picked, replies[..|picked|])
      ensures lastSamples == SamplesOf(old(servers), picked, replies[..|picked|])
      ensures updated <==> |UsableOffsets(old(servers), picked, replies[..|picked|])| >= cfg.minValidSamples
      ensures Accepted(lastSamples) == UsableOffsets(old(servers), picked, replies[..|picked|])
      ensures if updated then exists e :: IsEstimate(lastSamples, cfg.aggregation, e)
                                          && offsetUs == Smoothed(old(offsetUs), e, cfg.smoothingAlpha)
              else offsetUs == old(offsetUs)
    {
      hide IsEstimate, Accepted, Smoothed, AfterQueries, SamplesOf, EligibleUpTo, Eligible, UsableOffsets;
      var chosen := PickServersLocked(serversToSample, now);
      picked := chosen;
      AcceptedAreUsable(servers, chosen, replies[..|chosen|]);
      var samples := QueryAll(chosen, replies[..|chosen|]);
      ghost var e;
      updated, e := UpdateFromSamples(samples, cfg);
      lastSamples := samples;
    }
  }
}
