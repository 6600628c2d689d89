/** The NTP server pool: rate limits and backoff over runs of measurements, and the offset estimate. */
module NtpPool {
  /** `NtpServerConfig`; durations in milliseconds. */
  datatype ServerConfig = ServerConfig(minInterval: int, maxDelay: int, backoffInitial: int, backoffMax: int)

  datatype ServerState = ServerState(cfg: ServerConfig, nextAllowed: int, backoff: int, failCount: int,
                                     lastOffsetUs: int, lastDelayUs: int, lastError: int, isLastOk: bool)

  /** What the client object reports after a query: `ok` is false when `query` threw. */
  datatype Reply = Reply(ok: bool, errorCode: int, offsetUs: int, delayUs: int, stratum: int)

  datatype Sample = Sample(isOk: bool, errorCode: int, stratum: int, offsetUs: int, delayUs: int, maxDelayUs: int)

  datatype Aggregation = UseMedian | BestDelay | UseMedianMadTrim

  datatype PoolConfig = PoolConfig(sampleServers: nat, minValidSamples: nat, aggregation: Aggregation, smoothingAlpha: real)

  // ----- one query -----

  /** A reply that counts: the query succeeded within the server's delay limit, if it has one. */
  predicate IsUsable(cfg: ServerConfig, reply: Reply) {
    reply.ok && (cfg.maxDelay <= 0 || reply.delayUs <= 1000 * cfg.maxDelay)
  }

  function SampleOf(cfg: ServerConfig, reply: Reply): Sample {
    var error := if reply.errorCode == 0 && !reply.ok then -1 else reply.errorCode;
    Sample(reply.ok, error, reply.stratum, reply.offsetUs, reply.delayUs, if cfg.maxDelay > 0 then cfg.maxDelay * 1000 else 0)
  }

  /** Before the query: the server rests for its minimum interval. */
  function Reserved(s: ServerState, now: int): ServerState {
    s.(nextAllowed := now + s.cfg.minInterval)
  }

  function Min(a: int, b: int): int { if b < a then b else a }

  /** `update_server_state_after_query`. */
  function Answered(s: ServerState, sample: Sample, now: int): ServerState {
    var t := s.(isLastOk := sample.isOk, lastError := sample.errorCode, lastOffsetUs := sample.offsetUs, lastDelayUs := sample.delayUs);
    if sample.isOk then t.(failCount := 0, backoff := 0)
    else
      var backoff := if t.backoff == 0 then t.cfg.backoffInitial else Min(t.cfg.backoffMax, t.backoff * 2);
      t.(failCount := t.failCount + 1, backoff := backoff, nextAllowed := now + backoff)
  }

  function Queried(s: ServerState, start: int, reply: Reply, finish: int): ServerState {
    Answered(Reserved(s, start), SampleOf(s.cfg, reply), finish)
  }

  // ----- runs -----

  /** One query as it happened: reserved at `start`, answered at `finish`. */
  datatype Query = Query(start: int, reply: Reply, finish: int)

  /** A measurement: servers picked at `now`, then queried one after another. */
  datatype Measurement = Measurement(now: int, picked: seq<nat>, queries: seq<Query>)

  predicate AllDistinct(picked: seq<nat>) {
    forall i, j :: 0 <= i < j < |picked| ==> picked[i] != picked[j]
  }

  predicate Eligible(servers: seq<ServerState>, now: int, picked: seq<nat>) {
    AllDistinct(picked) && forall i :: 0 <= i < |picked| ==> picked[i] < |servers| && now >= servers[picked[i]].nextAllowed
  }

  /** The servers after the given queries to the picked servers. */
  function AfterQueries(servers: seq<ServerState>, picked: seq<nat>, queries: seq<Query>): (r: seq<ServerState>)
    requires |queries| == |picked| && forall i :: 0 <= i < |picked| ==> picked[i] < |servers|
    ensures |r| == |servers|
  {
    if picked == [] then servers
    else
      var n := |picked| - 1;
      var t := AfterQueries(servers, picked[..n], queries[..n]);
      t[picked[n] := Queried(t[picked[n]], queries[n].start, queries[n].reply, queries[n].finish)]
  }

  /** Picking chose eligible servers, and the clock did not run backwards between picking and any query. */
  predicate IsMeasurement(servers: seq<ServerState>, m: Measurement) {
    && Eligible(servers, m.now, m.picked) && |m.queries| == |m.picked|
    && forall i :: 0 <= i < |m.queries| ==> m.now <= m.queries[i].start
  }

  /** Measurements one after another on a fixed list of servers. */
  predicate IsPoolRun(servers: seq<ServerState>, run: seq<Measurement>)
    decreases |run|, 0
  {
    run == [] || (IsPoolRun(servers, run[..|run| - 1]) && IsMeasurement(ServersAfter(servers, run[..|run| - 1]), run[|run| - 1]))
  }

  function ServersAfter(servers: seq<ServerState>, run: seq<Measurement>): (r: seq<ServerState>)
    requires IsPoolRun(servers, run)
    ensures |r| == |servers|
    decreases |run|, 1
  {
    if run == [] then servers
    else AfterQueries(ServersAfter(servers, run[..|run| - 1]), run[|run| - 1].picked, run[|run| - 1].queries)
  }

  // ----- what one server sees of a run -----

  /** The queries sent to server `i`. */
  function Own(picked: seq<nat>, queries: seq<Query>, i: nat): (r: seq<Query>)
    requires |queries| == |picked|
    ensures i !in picked ==> r == []
  {
    if picked == [] then []
    else
      var n := |picked| - 1;
      Own(picked[..n], queries[..n], i) + if picked[n] == i then [queries[n]] else []
  }

  function History(servers: seq<ServerState>, run: seq<Measurement>, i: nat): seq<Query>
    requires IsPoolRun(servers, run)
  {
    if run == [] then []
    else History(servers, run[..|run| - 1], i) + Own(run[|run| - 1].picked, run[|run| - 1].queries, i)
  }

  function AfterHistory(s: ServerState, h: seq<Query>): ServerState {
    if h == [] then s
    else
      var n := |h| - 1;
      Queried(AfterHistory(s, h[..n]), h[n].start, h[n].reply, h[n].finish)
  }

  /** How many queries at the end of the history failed in a row. */
  function Failures(h: seq<Query>): nat {
    if h == [] || h[|h| - 1].reply.ok then 0 else Failures(h[..|h| - 1]) + 1
  }

  function Pow2(k: nat): (p: int)
    ensures p >= 1
  {
    if k == 0 then 1 else 2 * Pow2(k - 1)
  }

  /** The backoff that `k` consecutive failures earn. */
  function BackoffAfter(cfg: ServerConfig, k: nat): int {
    if k == 0 then 0
    else if k == 1 then cfg.backoffInitial
    else Min(cfg.backoffMax, Pow2(k - 1) * cfg.backoffInitial)
  }

  predicate Fresh(s: ServerState) {
    s.backoff == 0 && s.failCount == 0 && s.cfg.backoffInitial > 0 && s.cfg.backoffMax > 0
  }

  lemma NextBackoff(cfg: ServerConfig, k: nat)
    requires cfg.backoffInitial > 0 && cfg.backoffMax > 0 && k >= 1
    ensures BackoffAfter(cfg, k) > 0
    ensures BackoffAfter(cfg, k + 1) == Min(cfg.backoffMax, BackoffAfter(cfg, k) * 2)
  {
    var (p, q) := (Pow2(k - 1), cfg.backoffInitial);
    assert Pow2(k) == 2 * p;
    assert (2 * p) * q == 2 * (p * q);
    assert p * q >= q by { assert (p - 1) * q >= 0; }
  }

  /** After any history of queries the backoff and the failure count depend only on the failures since the last success. */
  lemma {:induction false} BackoffOfHistory(s: ServerState, h: seq<Query>)
    requires Fresh(s)
    ensures var t := AfterHistory(s, h);
      t.cfg == s.cfg && t.backoff == BackoffAfter(s.cfg, Failures(h)) && t.failCount == Failures(h)
  {
    if h != [] {
      var n := |h| - 1;
      BackoffOfHistory(s, h[..n]);
      if !h[n].reply.ok && Failures(h[..n]) > 0 { NextBackoff(s.cfg, Failures(h[..n])); }
    }
  }

  /** When the server may next be queried: after its minimum interval from a success, after its backoff from a failure. */
  lemma NextAllowedOfHistory(s: ServerState, h: seq<Query>)
    requires Fresh(s) && |h| > 0
    ensures var q := h[|h| - 1];
      AfterHistory(s, h).nextAllowed
      == if q.reply.ok then q.start + s.cfg.minInterval else q.finish + BackoffAfter(s.cfg, Failures(h))
  {
    BackoffOfHistory(s, h[..|h| - 1]);
    BackoffOfHistory(s, h);
  }

  /** What a server remembers is its latest reply; a failure without an error code counts as error -1. */
  lemma LastReplyOfHistory(s: ServerState, h: seq<Query>)
    requires |h| > 0
    ensures var (t, r) := (AfterHistory(s, h), h[|h| - 1].reply);
      t.isLastOk == r.ok && t.lastOffsetUs == r.offsetUs && t.lastDelayUs == r.delayUs
      && t.lastError == (if r.errorCode != 0 then r.errorCode else if r.ok then 0 else -1)
  {
  }

  lemma {:induction false} OwnQueries(servers: seq<ServerState>, picked: seq<nat>, queries: seq<Query>, i: nat)
    requires |queries| == |picked| && i < |servers| && forall j :: 0 <= j < |picked| ==> picked[j] < |servers|
    ensures AfterQueries(servers, picked, queries)[i] == AfterHistory(servers[i], Own(picked, queries, i))
  {
    if picked != [] {
      var n := |picked| - 1;
      OwnQueries(servers, picked[..n], queries[..n], i);
      if picked[n] == i {
        var h := Own(picked[..n], queries[..n], i);
        assert Own(picked, queries, i)[..|h|] == h;
      } else {
        assert Own(picked, queries, i) == Own(picked[..n], queries[..n], i);
      }
    }
  }

  lemma {:induction false} HistoryConcat(s: ServerState, h: seq<Query>, k: seq<Query>)
    ensures AfterHistory(s, h + k) == AfterHistory(AfterHistory(s, h), k)
  {
    if k == [] {
      assert h + k == h;
    } else {
      var n := |k| - 1;
      HistoryConcat(s, h, k[..n]);
      assert (h + k)[..|h| + n] == h + k[..n];
    }
  }

  /** A distinct pick queries each server at most once, and not before it is allowed. */
  lemma {:induction false} OwnIsOne(servers: seq<ServerState>, m: Measurement, i: nat, n: nat)
    requires IsMeasurement(servers, m) && i < |servers| && n <= |m.picked|
    ensures var own := Own(m.picked[..n], m.queries[..n], i);
      own == [] || (|own| == 1 && own[0].start >= servers[i].nextAllowed && i in m.picked[..n])
  {
    if n > 0 {
      OwnIsOne(servers, m, i, n - 1);
      assert m.picked[..n][..n - 1] == m.picked[..n - 1] && m.queries[..n][..n - 1] == m.queries[..n - 1];
      assert m.picked[..n][n - 1] == m.picked[n - 1];
    }
  }

  /** Every query of the history came no earlier than the server allowed at that moment. */
  predicate Respected(s: ServerState, h: seq<Query>) {
    forall n :: 0 <= n < |h| ==> h[n].start >= AfterHistory(s, h[..n]).nextAllowed
  }

  lemma RespectedMore(s: ServerState, h: seq<Query>, q: Query)
    requires Respected(s, h) && q.start >= AfterHistory(s, h).nextAllowed
    ensures Respected(s, h + [q])
  {
    forall n | 0 <= n < |h| + 1
      ensures (h + [q])[n].start >= AfterHistory(s, (h + [q])[..n]).nextAllowed
    {
      assert (h + [q])[..n] == h[..n];
      if n == |h| { assert h[..n] == h; }
    }
  }

  /** One more measurement, for one server. */
  lemma OneMoreMeasurement(before: seq<ServerState>, m: Measurement, i: nat, s: ServerState, h: seq<Query>)
    requires IsMeasurement(before, m) && i < |before| && before[i] == AfterHistory(s, h) && Respected(s, h)
    ensures var own := Own(m.picked, m.queries, i);
      AfterQueries(before, m.picked, m.queries)[i] == AfterHistory(s, h + own) && Respected(s, h + own)
  {
    var own := Own(m.picked, m.queries, i);
    OwnQueries(before, m.picked, m.queries, i);
    HistoryConcat(s, h, own);
    assert m.picked[..|m.picked|] == m.picked && m.queries[..|m.picked|] == m.queries;
    OwnIsOne(before, m, i, |m.picked|);
    hide *;
    if own == [] {
      assert h + own == h;
    } else {
      RespectedMore(s, h, own[0]);
      assert own == [own[0]];
    }
  }

  /** Over any run, each server's state is what its own queries made of it, and none of them came too early. */
  lemma {:induction false} ServerOverRun(servers: seq<ServerState>, run: seq<Measurement>, i: nat)
    requires IsPoolRun(servers, run) && i < |servers|
    ensures ServersAfter(servers, run)[i] == AfterHistory(servers[i], History(servers, run, i))
    ensures Respected(servers[i], History(servers, run, i))
  {
    if run != [] {
      var m := run[|run| - 1];
      ServerOverRun(servers, run[..|run| - 1], i);
      hide AfterHistory, AfterQueries, Own, Respected, IsMeasurement;
      OneMoreMeasurement(ServersAfter(servers, run[..|run| - 1]), m, i, servers[i], History(servers, run[..|run| - 1], i));
    }
  }

  /** Backoff over runs: consecutive failures double it from the initial value up to the maximum, a success clears it. */
  lemma BackoffOverRun(servers: seq<ServerState>, run: seq<Measurement>, i: nat)
    requires IsPoolRun(servers, run) && i < |servers| && Fresh(servers[i])
    ensures var k := Failures(History(servers, run, i));
      var s := ServersAfter(servers, run)[i];
      s.backoff == BackoffAfter(servers[i].cfg, k) && s.failCount == k
  {
    ServerOverRun(servers, run, i);
    BackoffOfHistory(servers[i], History(servers, run, i));
  }

  /** And what a server reports about its last query is the last reply of its history. */
  lemma StatusOverRun(servers: seq<ServerState>, run: seq<Measurement>, i: nat)
    requires IsPoolRun(servers, run) && i < |servers| && History(servers, run, i) != []
    ensures var (t, h) := (ServersAfter(servers, run)[i], History(servers, run, i));
      var r := h[|h| - 1].reply;
      t.isLastOk == r.ok && t.lastOffsetUs == r.offsetUs && t.lastDelayUs == r.delayUs
      && t.lastError == (if r.errorCode != 0 then r.errorCode else if r.ok then 0 else -1)
  {
    ServerOverRun(servers, run, i);
    LastReplyOfHistory(servers[i], History(servers, run, i));
  }

  /** Rate limit over runs: a query follows the previous one to its server only after the minimum interval or the backoff. */
  lemma QueriesAreSpaced(servers: seq<ServerState>, run: seq<Measurement>, i: nat, n: nat)
    requires IsPoolRun(servers, run) && i < |servers| && Fresh(servers[i])
    requires n + 1 < |History(servers, run, i)|
    ensures var h := History(servers, run, i);
      h[n + 1].start >= if h[n].reply.ok then h[n].start + servers[i].cfg.minInterval
                        else h[n].finish + BackoffAfter(servers[i].cfg, Failures(h[..n + 1]))
  {
    ServerOverRun(servers, run, i);
    var h := History(servers, run, i);
    NextAllowedOfHistory(servers[i], h[..n + 1]);
    hide History, AfterHistory, IsPoolRun;
    assert h[n + 1].start >= AfterHistory(servers[i], h[..n + 1]).nextAllowed;
  }
}
