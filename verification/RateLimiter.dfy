/**
 Per-IP token buckets over a bounded, least-recently-used map, with a sweep that forgets idle
 visitors. Tokens and time are real numbers: time in seconds, tokens refilled at `rate`.

 Everything a bucket decides is a function of its level, the tokens it would hold if asked
 now; a visitor the limiter does not know has a full one.
 */
module RateLimiter {
  import opened Common

  const IDLE_SECONDS: real := 180.0

  datatype Config = Config(rate: real, burst: nat, maxVisitors: int) {
    predicate Enabled() {
      rate > 0.0 && burst > 0
    }

    function Burst(): real {
      burst as real
    }
  }

  datatype Visitor = Visitor(tokens: real, lastSeen: real)

  /** `lru` lists the known IPs, most recently used first. */
  datatype Limiter = Limiter(visitors: map<string, Visitor>, lru: seq<string>)

  const EMPTY := Limiter(map[], [])

  // ---------- the operations as functions ----------

  function Filter(s: seq<string>, keep: set<string>): seq<string> {
    if s == [] then [] else (if s[0] in keep then [s[0]] else []) + Filter(s[1..], keep)
  }

  /** Tokens earned over a stretch of time. */
  function Gain(elapsed: real, cfg: Config): real {
    elapsed * cfg.rate
  }

  function Refilled(v: Visitor, now: real, cfg: Config): real {
    var tokens := v.tokens + Gain(now - v.lastSeen, cfg);
    if tokens > cfg.Burst() then cfg.Burst() else tokens
  }

  function Evicted(l: Limiter, cfg: Config): Limiter {
    if cfg.maxVisitors <= 0 || |l.visitors| < cfg.maxVisitors || l.lru == [] then l
    else
      var last := |l.lru| - 1;
      Limiter(l.visitors - {l.lru[last]}, l.lru[..last])
  }

  /** The limiter after a request of `ip` at `now`, and the decision. */
  function Allowed(l: Limiter, ip: string, now: real, cfg: Config): (Limiter, bool) {
    if ip !in l.visitors then
      var l' := Evicted(l, cfg);
      (Limiter(l'.visitors[ip := Visitor(cfg.Burst() - 1.0, now)], [ip] + l'.lru), true)
    else
      var tokens := Refilled(l.visitors[ip], now, cfg);
      var lru := [ip] + Filter(l.lru, l.visitors.Keys - {ip});
      if tokens < 1.0 then (Limiter(l.visitors[ip := Visitor(tokens, now)], lru), false)
      else (Limiter(l.visitors[ip := Visitor(tokens - 1.0, now)], lru), true)
  }

  function Swept(l: Limiter, now: real): Limiter {
    var stale := set ip | ip in l.visitors && now - l.visitors[ip].lastSeen > IDLE_SECONDS;
    Limiter(l.visitors - stale, Filter(l.lru, l.visitors.Keys - stale))
  }

  // ---------- the structural invariant ----------

  ghost predicate Distinct(s: seq<string>) {
    forall i, j :: 0 <= i < j < |s| ==> s[i] != s[j]
  }

  /** List order follows recency. */
  ghost predicate RecencyOrdered(s: seq<string>, visitors: map<string, Visitor>) {
    forall i, j :: 0 <= i < j < |s| && s[i] in visitors && s[j] in visitors ==>
      visitors[s[i]].lastSeen >= visitors[s[j]].lastSeen
  }

  ghost predicate Valid(l: Limiter, cfg: Config, now: real) {
    && Distinct(l.lru)
    && (forall ip :: ip in l.lru <==> ip in l.visitors)
    && (cfg.maxVisitors > 0 ==> |l.visitors| <= cfg.maxVisitors)
    && RecencyOrdered(l.lru, l.visitors)
    && (forall ip :: ip in l.visitors ==>
          0.0 <= l.visitors[ip].tokens <= cfg.Burst() && l.visitors[ip].lastSeen <= now)
  }

  lemma {:induction false} FilterFacts(s: seq<string>, keep: set<string>, visitors: map<string, Visitor>)
    ensures forall x :: x in Filter(s, keep) <==> x in s && x in keep
    ensures Distinct(s) ==> Distinct(Filter(s, keep))
    ensures RecencyOrdered(s, visitors) ==> RecencyOrdered(Filter(s, keep), visitors)
  {
    if s != [] {
      FilterFacts(s[1..], keep, visitors);
      var rest := Filter(s[1..], keep);
      assert s == [s[0]] + s[1..];
      forall i | 0 <= i < |rest|
        ensures Distinct(s) ==> rest[i] != s[0]
        ensures RecencyOrdered(s, visitors) && s[0] in visitors && rest[i] in visitors ==>
          visitors[s[0]].lastSeen >= visitors[rest[i]].lastSeen
      {
        assert rest[i] in rest && rest[i] in s[1..];
        var k :| 0 <= k < |s[1..]| && s[1..][k] == rest[i];
        assert s[k + 1] == rest[i];
      }
      assert RecencyOrdered(s, visitors) ==> RecencyOrdered(s[1..], visitors);
      assert Distinct(s) ==> Distinct(s[1..]);
    }
  }

  lemma BackIsOldest(l: Limiter, cfg: Config, now: real)
    requires Valid(l, cfg, now) && l.lru != []
    ensures l.lru[|l.lru| - 1] in l.visitors
    ensures forall kept :: kept in l.visitors ==> l.visitors[l.lru[|l.lru| - 1]].lastSeen <= l.visitors[kept].lastSeen
  {
    var last := |l.lru| - 1;
    assert l.lru[last] in l.lru;
    forall kept | kept in l.visitors ensures l.visitors[l.lru[last]].lastSeen <= l.visitors[kept].lastSeen {
      assert kept in l.lru;
      var i :| 0 <= i < |l.lru| && l.lru[i] == kept;
      if i < last {
        assert l.visitors[l.lru[i]].lastSeen >= l.visitors[l.lru[last]].lastSeen;
      }
    }
  }

  lemma {:induction false} FilterDropsBack(s: seq<string>, keep: set<string>)
    requires Distinct(s) && s != []
    requires forall x :: x in s ==> (x in keep <==> x != s[|s| - 1])
    ensures Filter(s, keep) == s[..|s| - 1]
  {
    var rest := s[1..];
    assert s == [s[0]] + rest;
    if rest == [] {
      assert s[0] in s;
      assert Filter(rest, keep) == [];
    } else {
      assert s[0] in s && s[0] != s[|s| - 1];
      forall i, j | 0 <= i < j < |rest| ensures rest[i] != rest[j] {
        assert s[i + 1] != s[j + 1];
      }
      FilterDropsBack(rest, keep);
      assert s[..|s| - 1] == [s[0]] + rest[..|rest| - 1];
    }
  }

  lemma DropBackValid(l: Limiter, cfg: Config, now: real)
    requires Valid(l, cfg, now) && l.lru != []
    ensures l.lru[|l.lru| - 1] in l.visitors
    ensures Valid(Limiter(l.visitors - {l.lru[|l.lru| - 1]}, l.lru[..|l.lru| - 1]), cfg, now)
    ensures |l.visitors - {l.lru[|l.lru| - 1]}| == |l.visitors| - 1
  {
    var back := l.lru[|l.lru| - 1];
    BackIsOldest(l, cfg, now);
    FilterDropsBack(l.lru, l.visitors.Keys - {back});
    ForgetValid(l, {back}, cfg, now);
    OneFewer(l.visitors, back);
  }

  lemma OneFewer(m: map<string, Visitor>, ip: string)
    requires ip in m
    ensures |m - {ip}| == |m| - 1
  {
    assert m.Keys == (m - {ip}).Keys + {ip};
  }

  lemma NoKeys(m: map<string, Visitor>)
    requires forall ip :: ip !in m
    ensures |m| == 0
  {
    assert m == map[];
  }

  /** Eviction makes room, and takes a visitor seen no later than any other. */
  lemma EvictionTakesOldest(l: Limiter, cfg: Config, now: real)
    requires Valid(l, cfg, now)
    ensures Valid(Evicted(l, cfg), cfg, now)
    ensures cfg.maxVisitors > 0 ==> |Evicted(l, cfg).visitors| < cfg.maxVisitors
    ensures forall ip :: ip in Evicted(l, cfg).visitors ==> ip in l.visitors
    ensures forall gone, kept :: gone in l.visitors && gone !in Evicted(l, cfg).visitors && kept in l.visitors ==>
      l.visitors[gone].lastSeen <= l.visitors[kept].lastSeen
  {
    if cfg.maxVisitors > 0 && |l.visitors| >= cfg.maxVisitors {
      assert l.lru != [] by {
        if l.lru == [] {
          NoKeys(l.visitors);
        }
      }
      DropBackValid(l, cfg, now);
      BackIsOldest(l, cfg, now);
    }
  }

  lemma PushFrontOrdered(lru: seq<string>, visitors: map<string, Visitor>, ip: string, v: Visitor)
    requires Distinct(lru) && RecencyOrdered(lru, visitors) && ip !in lru
    requires forall x :: x in lru ==> x in visitors && visitors[x].lastSeen <= v.lastSeen
    ensures Distinct([ip] + lru) && RecencyOrdered([ip] + lru, visitors[ip := v])
  {
    var lru' := [ip] + lru;
    forall i, j | 0 <= i < j < |lru'|
      ensures lru'[i] != lru'[j]
      ensures lru'[i] in visitors[ip := v] && lru'[j] in visitors[ip := v]
      ensures visitors[ip := v][lru'[i]].lastSeen >= visitors[ip := v][lru'[j]].lastSeen
    {
      assert lru'[j] == lru[j - 1] && lru[j - 1] in lru;
      if i > 0 {
        assert lru'[i] == lru[i - 1] && lru[i - 1] in lru;
      }
    }
  }

  lemma PushFrontValid(l: Limiter, ip: string, v: Visitor, cfg: Config, now: real)
    requires Valid(l, cfg, now) && ip !in l.visitors
    requires cfg.maxVisitors > 0 ==> |l.visitors| < cfg.maxVisitors
    requires 0.0 <= v.tokens <= cfg.Burst() && v.lastSeen == now
    ensures Valid(Limiter(l.visitors[ip := v], [ip] + l.lru), cfg, now)
  {
    var l' := Limiter(l.visitors[ip := v], [ip] + l.lru);
    assert l'.visitors.Keys == l.visitors.Keys + {ip};
    PushFrontOrdered(l.lru, l.visitors, ip, v);
  }

  lemma ForgetValid(l: Limiter, gone: set<string>, cfg: Config, now: real)
    requires Valid(l, cfg, now)
    ensures Valid(Limiter(l.visitors - gone, Filter(l.lru, l.visitors.Keys - gone)), cfg, now)
  {
    FilterFacts(l.lru, l.visitors.Keys - gone, l.visitors);
    SubsetSize((l.visitors - gone).Keys, l.visitors.Keys);
  }

  lemma NewVisitorValid(l: Limiter, ip: string, cfg: Config, now: real)
    requires cfg.Enabled() && Valid(l, cfg, now) && ip !in l.visitors
    ensures Valid(Allowed(l, ip, now, cfg).0, cfg, now)
  {
    EvictionTakesOldest(l, cfg, now);
    PushFrontValid(Evicted(l, cfg), ip, Visitor(cfg.Burst() - 1.0, now), cfg, now);
  }

  lemma KnownVisitorValid(l: Limiter, ip: string, cfg: Config, now: real)
    requires cfg.Enabled() && Valid(l, cfg, now) && ip in l.visitors
    ensures Valid(Allowed(l, ip, now, cfg).0, cfg, now)
  {
    var tokens := Refilled(l.visitors[ip], now, cfg);
    RefillBounds(l.visitors[ip], now, cfg);
    MoveToFrontValid(l, ip, Visitor(if tokens < 1.0 then tokens else tokens - 1.0, now), cfg, now);
  }

  lemma MoveToFrontValid(l: Limiter, ip: string, v: Visitor, cfg: Config, now: real)
    requires Valid(l, cfg, now) && ip in l.visitors
    requires 0.0 <= v.tokens <= cfg.Burst() && v.lastSeen == now
    ensures Valid(Limiter(l.visitors[ip := v], [ip] + Filter(l.lru, l.visitors.Keys - {ip})), cfg, now)
  {
    var rest := Limiter(l.visitors - {ip}, Filter(l.lru, l.visitors.Keys - {ip}));
    ForgetValid(l, {ip}, cfg, now);
    OneFewer(l.visitors, ip);
    PushFrontValid(rest, ip, v, cfg, now);
    assert rest.visitors[ip := v] == l.visitors[ip := v];
  }

  /** With a clock that does not run backwards, every operation keeps keys and list equal, the list
      duplicate-free and ordered by recency, the map within capacity and the tokens within [0, burst]. */
  lemma OperationsKeepValid(l: Limiter, ip: string, cfg: Config, before: real, now: real)
    requires cfg.Enabled() && Valid(l, cfg, before) && before <= now
    ensures Valid(Allowed(l, ip, now, cfg).0, cfg, now)
    ensures Valid(Swept(l, now), cfg, now)
  {
    ForgetValid(l, (set x | x in l.visitors && now - l.visitors[x].lastSeen > IDLE_SECONDS), cfg, now);
    if ip in l.visitors {
      KnownVisitorValid(l, ip, cfg, now);
    } else {
      NewVisitorValid(l, ip, cfg, now);
    }
  }

  lemma RefillBounds(v: Visitor, now: real, cfg: Config)
    requires cfg.Enabled() && 0.0 <= v.tokens <= cfg.Burst() && v.lastSeen <= now
    ensures 0.0 <= Refilled(v, now, cfg) <= cfg.Burst()
  {
    GainNonNegative(now - v.lastSeen, cfg);
  }

  lemma GainNonNegative(elapsed: real, cfg: Config)
    requires cfg.Enabled() && elapsed >= 0.0
    ensures Gain(elapsed, cfg) >= 0.0
  {
  }

  lemma GainAdds(a: real, b: real, cfg: Config)
    ensures Gain(a + b, cfg) == Gain(a, cfg) + Gain(b, cfg)
  {
  }

  lemma GainOfNothing(cfg: Config)
    ensures Gain(0.0, cfg) == 0.0
  {
  }

  // ---------- the imperative form ----------

  class RateLimiterObject {
    const cfg: Config
    var visitors: map<string, Visitor>
    var lru: seq<string>

    constructor (cfg: Config)
      ensures this.cfg == cfg && View() == EMPTY
      ensures forall now :: Valid(View(), cfg, now)
    {
      this.cfg := cfg;
      visitors, lru := map[], [];
    }

    ghost function View(): Limiter
      reads this
    {
      Limiter(visitors, lru)
    }

    method EvictIfFull()
      modifies this
      ensures View() == Evicted(old(View()), cfg)
    {
      if cfg.maxVisitors <= 0 || |visitors| < cfg.maxVisitors {
        return;
      }
      if lru != [] {
        var back := lru[|lru| - 1];
        visitors := visitors - {back};
        lru := lru[..|lru| - 1];
      }
    }

    /** A disabled limiter lets everything through and records nothing. */
    method Allow(ip: string, now: real, ghost before: real) returns (ok: bool)
      requires Valid(View(), cfg, before) && before <= now
      modifies this
      ensures !cfg.Enabled() ==> ok && View() == old(View())
      ensures cfg.Enabled() ==> (View(), ok) == Allowed(old(View()), ip, now, cfg)
      ensures Valid(View(), cfg, now)
    {
      if cfg.rate <= 0.0 || cfg.burst == 0 {
        return true;
      }
      ghost var l := View();
      OperationsKeepValid(l, ip, cfg, before, now);
      ok := Decide(ip, now);
    }

    method Decide(ip: string, now: real) returns (ok: bool)
      requires cfg.Enabled()
      modifies this
      ensures (View(), ok) == Allowed(old(View()), ip, now, cfg)
    {
      if ip !in visitors {
        EvictIfFull();
        lru := [ip] + lru;
        visitors := visitors[ip := Visitor(cfg.burst as real - 1.0, now)];
        return true;
      }
      lru := [ip] + Filter(lru, visitors.Keys - {ip});
      var tokens := visitors[ip].tokens + Gain(now - visitors[ip].lastSeen, cfg);
      if tokens > cfg.burst as real {
        tokens := cfg.burst as real;
      }
      if tokens < 1.0 {
        visitors := visitors[ip := Visitor(tokens, now)];
        return false;
      }
      visitors := visitors[ip := Visitor(tokens - 1.0, now)];
      return true;
    }

    /** One tick of the idle sweep. */
    method Cleanup(now: real, ghost before: real)
      requires Valid(View(), cfg, before) && before <= now
      modifies this
      ensures View() == Swept(old(View()), now)
      ensures Valid(View(), cfg, now)
    {
      ForgetValid(View(), (set x | x in visitors && now - visitors[x].lastSeen > IDLE_SECONDS), cfg, now);
      var stale := set x | x in visitors && now - visitors[x].lastSeen > IDLE_SECONDS;
      lru := Filter(lru, visitors.Keys - stale);
      visitors := visitors - stale;
    }
  }

  // ---------- traces ----------

  datatype Event = Request(ip: string, time: real) | Sweep(time: real)

  function Step(l: Limiter, e: Event, cfg: Config): Limiter {
    match e
    case Request(ip, now) => Allowed(l, ip, now, cfg).0
    case Sweep(now) => Swept(l, now)
  }

  function After(l: Limiter, events: seq<Event>, cfg: Config): Limiter {
    if events == [] then l else Step(After(l, events[..|events| - 1], cfg), events[|events| - 1], cfg)
  }

  function Decision(l: Limiter, e: Event, cfg: Config): seq<bool> {
    if e.Request? then [Allowed(l, e.ip, e.time, cfg).1] else []
  }

  /** The decisions on the requests, in order. */
  function Decisions(l: Limiter, events: seq<Event>, cfg: Config): seq<bool> {
    if events == [] then []
    else
      var init := events[..|events| - 1];
      Decisions(l, init, cfg) + Decision(After(l, init, cfg), events[|events| - 1], cfg)
  }

  /** One if the event is an allowed request of `ip`. */
  function Drawn(l: Limiter, e: Event, ip: string, cfg: Config): nat {
    if e.Request? && e.ip == ip && Allowed(l, ip, e.time, cfg).1 then 1 else 0
  }

  /** How many requests of `ip` are allowed. */
  function AllowedCount(l: Limiter, events: seq<Event>, ip: string, cfg: Config): nat {
    if events == [] then 0
    else
      var init := events[..|events| - 1];
      AllowedCount(l, init, ip, cfg) + Drawn(After(l, init, cfg), events[|events| - 1], ip, cfg)
  }

  /** The clock does not run backwards between `from` and `to`. */
  ghost predicate Monotone(events: seq<Event>, from: real, to: real) {
    if events == [] then from <= to
    else events[|events| - 1].time <= to && Monotone(events[..|events| - 1], from, events[|events| - 1].time)
  }

  /** The tokens `ip` could draw on at `now`: a full bucket when it is not known. */
  function Level(l: Limiter, ip: string, now: real, cfg: Config): real {
    if ip in l.visitors then Refilled(l.visitors[ip], now, cfg) else cfg.Burst()
  }

  /** The IP is not forgotten along the way: neither evicted for capacity nor swept. */
  ghost predicate Remembered(l: Limiter, events: seq<Event>, ip: string, cfg: Config) {
    events == [] ||
    (var init := events[..|events| - 1];
     && Remembered(l, init, ip, cfg)
     && (ip in After(l, init, cfg).visitors ==> ip in After(l, events, cfg).visitors))
  }

  lemma LevelGrows(l: Limiter, ip: string, now: real, later: real, cfg: Config)
    requires cfg.Enabled() && now <= later
    ensures Level(l, ip, later, cfg) <= Level(l, ip, now, cfg) + Gain(later - now, cfg)
    ensures Level(l, ip, later, cfg) <= cfg.Burst()
  {
    GainNonNegative(later - now, cfg);
    if ip in l.visitors {
      var v := l.visitors[ip];
      assert later - v.lastSeen == (now - v.lastSeen) + (later - now);
      GainAdds(now - v.lastSeen, later - now, cfg);
    }
  }

  /** A request is allowed exactly when the level reaches one, and then draws one token. */
  lemma RequestDraws(l: Limiter, ip: string, now: real, cfg: Config)
    requires cfg.Enabled()
    ensures var (l', ok) := Allowed(l, ip, now, cfg);
      && (ok <==> Level(l, ip, now, cfg) >= 1.0)
      && ip in l'.visitors
      && l'.visitors[ip] == Visitor(Level(l, ip, now, cfg) - (if ok then 1.0 else 0.0), now)
      && Level(l', ip, now, cfg) == Level(l, ip, now, cfg) - if ok then 1.0 else 0.0
  {
    GainOfNothing(cfg);
    var (l', ok) := Allowed(l, ip, now, cfg);
    assert now - l'.visitors[ip].lastSeen == 0.0;
  }

  lemma OtherUntouched(l: Limiter, ip: string, other: string, now: real, cfg: Config)
    requires other != ip
    requires other in l.visitors ==> other in Allowed(l, ip, now, cfg).0.visitors
    ensures var l' := Allowed(l, ip, now, cfg).0;
      && (other in l'.visitors <==> other in l.visitors)
      && (other in l.visitors ==> l'.visitors[other] == l.visitors[other])
  {
  }

  /** One event takes from the level exactly what it draws, unless it forgets the IP. */
  lemma StepDraws(l: Limiter, e: Event, ip: string, cfg: Config)
    requires cfg.Enabled() && (ip in l.visitors ==> ip in Step(l, e, cfg).visitors)
    ensures Level(Step(l, e, cfg), ip, e.time, cfg) + Drawn(l, e, ip, cfg) as real == Level(l, ip, e.time, cfg)
  {
    if e.Request? {
      if e.ip == ip {
        RequestDraws(l, ip, e.time, cfg);
      } else {
        OtherUntouched(l, e.ip, ip, e.time, cfg);
      }
    }
  }

  /** Conservation: what is allowed plus what is left never exceeds the initial level plus the refill. */
  lemma {:induction false} Conservation(l: Limiter, events: seq<Event>, ip: string, cfg: Config, s: real, t: real)
    requires cfg.Enabled() && Monotone(events, s, t) && Remembered(l, events, ip, cfg)
    ensures AllowedCount(l, events, ip, cfg) as real + Level(After(l, events, cfg), ip, t, cfg) <=
      Level(l, ip, s, cfg) + Gain(t - s, cfg)
  {
    if events == [] {
      LevelGrows(l, ip, s, t, cfg);
    } else {
      var init := events[..|events| - 1];
      var e := events[|events| - 1];
      Conservation(l, init, ip, cfg, s, e.time);
      StepDraws(After(l, init, cfg), e, ip, cfg);
      LevelGrows(After(l, events, cfg), ip, e.time, t, cfg);
      assert t - s == (e.time - s) + (t - e.time);
      GainAdds(e.time - s, t - e.time, cfg);
    }
  }

  /** The level of a valid limiter lies in [0, burst]. */
  lemma LevelBounds(l: Limiter, ip: string, now: real, cfg: Config)
    requires cfg.Enabled() && Valid(l, cfg, now)
    ensures 0.0 <= Level(l, ip, now, cfg) <= cfg.Burst()
  {
    if ip in l.visitors {
      RefillBounds(l.visitors[ip], now, cfg);
    }
  }

  lemma {:induction false} TracesKeepValid(l: Limiter, events: seq<Event>, cfg: Config, s: real, t: real)
    requires cfg.Enabled() && Monotone(events, s, t) && Valid(l, cfg, s)
    ensures Valid(After(l, events, cfg), cfg, t)
  {
    if events != [] {
      var e := events[|events| - 1];
      TracesKeepValid(l, events[..|events| - 1], cfg, s, e.time);
      OperationsKeepValid(After(l, events[..|events| - 1], cfg), if e.Request? then e.ip else "", cfg, e.time, e.time);
    }
  }

  lemma GainIs(elapsed: real, cfg: Config)
    ensures Gain(elapsed, cfg) == cfg.rate * elapsed
  {
  }

  /** A token takes 1 / rate seconds. */
  lemma TokenTakes(cfg: Config)
    requires cfg.rate > 0.0
    ensures Gain(1.0 / cfg.rate, cfg) == 1.0
  {
  }

  /** MAIN RESULT. While an IP is remembered, at most burst + rate * (t - s) of its requests are allowed
      between s and t, from any valid state of the limiter. */
  lemma RateBound(l: Limiter, events: seq<Event>, ip: string, cfg: Config, s: real, t: real)
    requires cfg.rate > 0.0 && cfg.burst > 0 && Valid(l, cfg, s)
    requires Monotone(events, s, t) && Remembered(l, events, ip, cfg)
    ensures AllowedCount(l, events, ip, cfg) as real <= cfg.burst as real + Gain(t - s, cfg)
  {
    Conservation(l, events, ip, cfg, s, t);
    TracesKeepValid(l, events, cfg, s, t);
    LevelBounds(l, ip, s, cfg);
    LevelBounds(After(l, events, cfg), ip, t, cfg);
  }

  // ---------- who keeps to the rate is not refused ----------

  /** The level is that of a full bucket, or has grown from `level` since `s` at the full rate. */
  ghost predicate HasRefilled(l: Limiter, ip: string, level: real, cfg: Config, s: real, t: real) {
    Level(l, ip, t, cfg) == cfg.Burst() || Level(l, ip, t, cfg) >= level + Gain(t - s, cfg)
  }

  lemma KeepsRefilling(l: Limiter, ip: string, level: real, cfg: Config, s: real, now: real, later: real)
    requires cfg.Enabled() && now <= later && HasRefilled(l, ip, level, cfg, s, now)
    ensures HasRefilled(l, ip, level, cfg, s, later)
  {
    GainNonNegative(later - now, cfg);
    assert later - s == (now - s) + (later - now);
    GainAdds(now - s, later - now, cfg);
    if ip in l.visitors {
      var v := l.visitors[ip];
      assert later - v.lastSeen == (now - v.lastSeen) + (later - now);
      GainAdds(now - v.lastSeen, later - now, cfg);
    }
  }

  predicate NotAsking(events: seq<Event>, ip: string) {
    forall i :: 0 <= i < |events| && events[i].Request? ==> events[i].ip != ip
  }

  /** Whatever one of the others asks for. */
  lemma OtherLeavesRefill(l: Limiter, e: Event, ip: string, level: real, cfg: Config, s: real, t: real)
    requires cfg.Enabled() && e.time <= t && (ip in l.visitors ==> ip in Step(l, e, cfg).visitors)
    requires (e.Request? ==> e.ip != ip) && HasRefilled(l, ip, level, cfg, s, e.time)
    ensures HasRefilled(Step(l, e, cfg), ip, level, cfg, s, t)
  {
    StepDraws(l, e, ip, cfg);
    KeepsRefilling(Step(l, e, cfg), ip, level, cfg, s, e.time, t);
  }

  /** Whatever the others ask for. */
  lemma {:induction false} OthersLeaveRefill(
    l: Limiter, events: seq<Event>, ip: string, cfg: Config, s: real, t: real)
    requires cfg.Enabled() && Monotone(events, s, t) && Remembered(l, events, ip, cfg) && NotAsking(events, ip)
    ensures HasRefilled(After(l, events, cfg), ip, Level(l, ip, s, cfg), cfg, s, t)
  {
    var level := Level(l, ip, s, cfg);
    if events == [] {
      GainOfNothing(cfg);
      assert s - s == 0.0;
      KeepsRefilling(l, ip, level, cfg, s, s, t);
    } else {
      var init := events[..|events| - 1];
      var e := events[|events| - 1];
      OthersLeaveRefill(l, init, ip, cfg, s, e.time);
      LastEvent(l, events, ip, cfg);
      OtherLeavesRefill(After(l, init, cfg), e, ip, level, cfg, s, t);
    }
  }

  lemma RefilledIsAllowed(l: Limiter, ip: string, level: real, cfg: Config, s: real, t: real)
    requires cfg.Enabled() && HasRefilled(l, ip, level, cfg, s, t) && level >= 0.0 && Gain(t - s, cfg) >= 1.0
    ensures Allowed(l, ip, t, cfg).1
  {
    RequestDraws(l, ip, t, cfg);
  }

  lemma LevelAfterRequest(l: Limiter, ip: string, now: real, cfg: Config)
    requires cfg.Enabled() && Valid(l, cfg, now)
    ensures Level(Allowed(l, ip, now, cfg).0, ip, now, cfg) >= 0.0
  {
    RequestDraws(l, ip, now, cfg);
    LevelBounds(l, ip, now, cfg);
  }

  /** MAIN RESULT. Nobody who keeps to the rate is refused: from any valid state, a request that comes once a token
      has been earned since the same IP's previous one is allowed, whatever the previous decision was and whatever
      others have asked for in between, as long as the IP is remembered. */
  lemma PoliteIsAllowed(
    l: Limiter, ip: string, now: real, others: seq<Event>, later: real, cfg: Config)
    requires cfg.rate > 0.0 && cfg.burst > 0 && Valid(l, cfg, now) && Monotone(others, now, later)
    requires NotAsking(others, ip) && Remembered(Allowed(l, ip, now, cfg).0, others, ip, cfg)
    requires Gain(later - now, cfg) >= 1.0
    ensures Allowed(After(Allowed(l, ip, now, cfg).0, others, cfg), ip, later, cfg).1
  {
    var l' := Allowed(l, ip, now, cfg).0;
    LevelAfterRequest(l, ip, now, cfg);
    OthersLeaveRefill(l', others, ip, cfg, now, later);
    RefilledIsAllowed(After(l', others, cfg), ip, Level(l', ip, now, cfg), cfg, now, later);
  }

  // ---------- forgetting idle visitors ----------

  /** The same trace for a limiter that never forgets. */
  function Unswept(events: seq<Event>): seq<Event> {
    if events == [] then []
    else
      var init := Unswept(events[..|events| - 1]);
      if events[|events| - 1].Request? then init + [events[|events| - 1]] else init
  }

  /** Every bucket of the two limiters has the same level from `now` on. */
  ghost predicate SameLevels(a: Limiter, b: Limiter, now: real, cfg: Config) {
    forall ip, t :: t >= now ==> Level(a, ip, t, cfg) == Level(b, ip, t, cfg)
  }

  /** An idle visitor's bucket is full again when it is swept, if the idle time refills a burst. */
  lemma IdleIsFull(v: Visitor, now: real, cfg: Config)
    requires cfg.Enabled() && Gain(IDLE_SECONDS, cfg) >= cfg.Burst()
    requires v.tokens >= 0.0 && now - v.lastSeen > IDLE_SECONDS
    ensures Refilled(v, now, cfg) == cfg.Burst()
  {
    var more := now - v.lastSeen - IDLE_SECONDS;
    GainAdds(IDLE_SECONDS, more, cfg);
    GainNonNegative(more, cfg);
    assert IDLE_SECONDS + more == now - v.lastSeen;
  }

  lemma SweepKeepsLevels(l: Limiter, now: real, cfg: Config)
    requires cfg.Enabled() && Gain(IDLE_SECONDS, cfg) >= cfg.Burst() && Valid(l, cfg, now)
    ensures SameLevels(l, Swept(l, now), now, cfg)
  {
    forall ip, t | t >= now ensures Level(l, ip, t, cfg) == Level(Swept(l, now), ip, t, cfg) {
      if ip in l.visitors && ip !in Swept(l, now).visitors {
        IdleIsFull(l.visitors[ip], t, cfg);
      }
    }
  }

  // ---------- traces that never fill the limiter ----------

  /** The distinct IPs that ask along the trace. */
  ghost function Askers(events: seq<Event>): set<string> {
    set e | e in events && e.Request? :: e.ip
  }

  /** No more distinct IPs than the limiter can hold; without a capacity any trace will do. */
  ghost predicate Roomy(events: seq<Event>, cfg: Config) {
    cfg.maxVisitors <= 0 || |Askers(events)| <= cfg.maxVisitors
  }

  /** A request of `ip` evicts nobody. */
  predicate HasRoom(l: Limiter, ip: string, cfg: Config) {
    cfg.maxVisitors <= 0 || ip in l.visitors || |l.visitors| < cfg.maxVisitors
  }

  lemma AskersGrow(events: seq<Event>)
    requires events != []
    ensures var e := events[|events| - 1];
      Askers(events) == Askers(events[..|events| - 1]) + if e.Request? then {e.ip} else {}
  {
    var e := events[|events| - 1];
    assert events == events[..|events| - 1] + [e];
  }

  lemma RoomyPrefix(events: seq<Event>, cfg: Config)
    requires events != [] && Roomy(events, cfg)
    ensures Roomy(events[..|events| - 1], cfg)
  {
    AskersGrow(events);
    SubsetSize(Askers(events[..|events| - 1]), Askers(events));
  }

  lemma {:induction false} KnownAreAskers(events: seq<Event>, cfg: Config)
    ensures After(EMPTY, events, cfg).visitors.Keys <= Askers(events)
  {
    if events != [] {
      KnownAreAskers(events[..|events| - 1], cfg);
      AskersGrow(events);
    }
  }

  lemma {:induction false} UnsweptAskers(events: seq<Event>)
    ensures Askers(Unswept(events)) == Askers(events)
  {
    if events == [] {
      assert Unswept(events) == events;
    } else {
      var e := events[|events| - 1];
      UnsweptAskers(events[..|events| - 1]);
      AskersGrow(events);
      if e.Request? {
        AskersGrow(Unswept(events));
        assert Unswept(events)[..|Unswept(events)| - 1] == Unswept(events[..|events| - 1]);
      }
    }
  }

  /** On a roomy trace every request finds room. */
  lemma RequestHasRoom(events: seq<Event>, cfg: Config)
    requires events != [] && events[|events| - 1].Request? && Roomy(events, cfg)
    ensures HasRoom(After(EMPTY, events[..|events| - 1], cfg), events[|events| - 1].ip, cfg)
  {
    var l, ip := After(EMPTY, events[..|events| - 1], cfg), events[|events| - 1].ip;
    KnownAreAskers(events[..|events| - 1], cfg);
    AskersGrow(events);
    if ip !in l.visitors {
      assert |l.visitors.Keys + {ip}| == |l.visitors| + 1;
      SubsetSize(l.visitors.Keys + {ip}, Askers(events));
    }
  }

  lemma RequestKeepsSameLevels(a: Limiter, b: Limiter, ip: string, now: real, cfg: Config)
    requires cfg.Enabled() && HasRoom(a, ip, cfg) && HasRoom(b, ip, cfg) && SameLevels(a, b, now, cfg)
    ensures Allowed(a, ip, now, cfg).1 == Allowed(b, ip, now, cfg).1
    ensures SameLevels(Allowed(a, ip, now, cfg).0, Allowed(b, ip, now, cfg).0, now, cfg)
  {
    var (a', oka) := Allowed(a, ip, now, cfg);
    var (b', okb) := Allowed(b, ip, now, cfg);
    assert Level(a, ip, now, cfg) == Level(b, ip, now, cfg);
    RequestDraws(a, ip, now, cfg);
    RequestDraws(b, ip, now, cfg);
    assert a'.visitors[ip] == b'.visitors[ip];
    forall x, t | t >= now ensures Level(a', x, t, cfg) == Level(b', x, t, cfg) {
      if x != ip {
        OtherUntouched(a, ip, x, now, cfg);
        OtherUntouched(b, ip, x, now, cfg);
        assert Level(a, x, t, cfg) == Level(b, x, t, cfg);
      }
    }
  }

  lemma {:induction false} SweepsAreInvisible(events: seq<Event>, cfg: Config, s: real, t: real)
    requires cfg.Enabled() && Gain(IDLE_SECONDS, cfg) >= cfg.Burst()
    requires Monotone(events, s, t) && Roomy(events, cfg)
    ensures Decisions(EMPTY, events, cfg) == Decisions(EMPTY, Unswept(events), cfg)
    ensures SameLevels(After(EMPTY, events, cfg), After(EMPTY, Unswept(events), cfg), t, cfg)
  {
    if events != [] {
      var init := events[..|events| - 1];
      var e := events[|events| - 1];
      RoomyPrefix(events, cfg);
      SweepsAreInvisible(init, cfg, s, e.time);
      var a, b := After(EMPTY, init, cfg), After(EMPTY, Unswept(init), cfg);
      match e
      case Request(ip, now) =>
        assert Unswept(events)[..|Unswept(events)| - 1] == Unswept(init);
        UnsweptAskers(events);
        RequestHasRoom(events, cfg);
        RequestHasRoom(Unswept(events), cfg);
        RequestKeepsSameLevels(a, b, ip, now, cfg);
      case Sweep(now) =>
        assert Valid(EMPTY, cfg, s);
        TracesKeepValid(EMPTY, init, cfg, s, now);
        SweepKeepsLevels(a, now, cfg);
    }
  }

  lemma RoomyStepDraws(l: Limiter, e: Event, ip: string, cfg: Config)
    requires cfg.Enabled() && Gain(IDLE_SECONDS, cfg) >= cfg.Burst() && Valid(l, cfg, e.time)
    requires e.Request? ==> HasRoom(l, e.ip, cfg)
    ensures Level(Step(l, e, cfg), ip, e.time, cfg) + Drawn(l, e, ip, cfg) as real == Level(l, ip, e.time, cfg)
  {
    if e.Request? {
      StepDraws(l, e, ip, cfg);
    } else {
      SweepKeepsLevels(l, e.time, cfg);
      assert Level(l, ip, e.time, cfg) == Level(Swept(l, e.time), ip, e.time, cfg);
    }
  }

  /** What has been allowed since `s` and what is left at `t` fit the burst and the refill. */
  ghost predicate Affordable(l: Limiter, allowed: nat, ip: string, cfg: Config, s: real, t: real) {
    allowed as real + Level(l, ip, t, cfg) <= cfg.Burst() + Gain(t - s, cfg)
  }

  /** One more event keeps it affordable. */
  lemma StepIsAffordable(l: Limiter, e: Event, ip: string, cfg: Config, s: real, t: real, allowed: nat)
    requires cfg.Enabled() && Gain(IDLE_SECONDS, cfg) >= cfg.Burst() && Valid(l, cfg, e.time) && e.time <= t
    requires e.Request? ==> HasRoom(l, e.ip, cfg)
    requires Affordable(l, allowed, ip, cfg, s, e.time)
    ensures Affordable(Step(l, e, cfg), allowed + Drawn(l, e, ip, cfg), ip, cfg, s, t)
  {
    RoomyStepDraws(l, e, ip, cfg);
    LevelGrows(Step(l, e, cfg), ip, e.time, t, cfg);
    assert t - s == (e.time - s) + (t - e.time);
    GainAdds(e.time - s, t - e.time, cfg);
  }

  ghost predicate WithinBudget(events: seq<Event>, ip: string, cfg: Config, s: real, t: real) {
    Affordable(After(EMPTY, events, cfg), AllowedCount(EMPTY, events, ip, cfg), ip, cfg, s, t)
  }

  /** What the last event of a trace adds. */
  lemma LastEvent(l: Limiter, events: seq<Event>, ip: string, cfg: Config)
    requires events != []
    ensures var init, e := events[..|events| - 1], events[|events| - 1];
      && After(l, events, cfg) == Step(After(l, init, cfg), e, cfg)
      && AllowedCount(l, events, ip, cfg) ==
           AllowedCount(l, init, ip, cfg) + Drawn(After(l, init, cfg), e, ip, cfg)
  {
  }

  lemma OneMoreWithinBudget(events: seq<Event>, ip: string, cfg: Config, s: real, t: real)
    requires cfg.Enabled() && Gain(IDLE_SECONDS, cfg) >= cfg.Burst() && events != []
    requires var init, e := events[..|events| - 1], events[|events| - 1];
      && Valid(After(EMPTY, init, cfg), cfg, e.time) && e.time <= t
      && (e.Request? ==> HasRoom(After(EMPTY, init, cfg), e.ip, cfg))
      && WithinBudget(init, ip, cfg, s, e.time)
    ensures WithinBudget(events, ip, cfg, s, t)
  {
    var init, e := events[..|events| - 1], events[|events| - 1];
    LastEvent(EMPTY, events, ip, cfg);
    StepIsAffordable(After(EMPTY, init, cfg), e, ip, cfg, s, t, AllowedCount(EMPTY, init, ip, cfg));
  }

  lemma {:induction false} SweptConservation(events: seq<Event>, ip: string, cfg: Config, s: real, t: real)
    requires cfg.Enabled() && Gain(IDLE_SECONDS, cfg) >= cfg.Burst()
    requires Monotone(events, s, t) && Roomy(events, cfg)
    ensures WithinBudget(events, ip, cfg, s, t)
  {
    if events == [] {
      LevelGrows(EMPTY, ip, s, t, cfg);
    } else {
      var init := events[..|events| - 1];
      var e := events[|events| - 1];
      RoomyPrefix(events, cfg);
      SweptConservation(init, ip, cfg, s, e.time);
      assert Valid(EMPTY, cfg, s);
      TracesKeepValid(EMPTY, init, cfg, s, e.time);
      if e.Request? {
        RequestHasRoom(events, cfg);
      }
      OneMoreWithinBudget(events, ip, cfg, s, t);
    }
  }

  /** When three idle minutes refill a burst, the rate bound survives sweeps: as long as the limiter is not
      asked by more IPs than it holds, none is allowed more than burst + rate * (t - s) requests. */
  lemma RateBoundDespiteSweeps(events: seq<Event>, ip: string, cfg: Config, s: real, t: real)
    requires cfg.Enabled() && Gain(IDLE_SECONDS, cfg) >= cfg.Burst()
    requires Monotone(events, s, t) && Roomy(events, cfg)
    ensures AllowedCount(EMPTY, events, ip, cfg) as real <= cfg.Burst() + Gain(t - s, cfg)
  {
    SweptConservation(events, ip, cfg, s, t);
    assert Valid(EMPTY, cfg, s);
    TracesKeepValid(EMPTY, events, cfg, s, t);
    LevelBounds(After(EMPTY, events, cfg), ip, t, cfg);
  }

  // ---------- when the sweep is visible ----------

  function Burst(ip: string, now: real, n: nat): (r: seq<Event>)
    ensures |r| == n
  {
    seq(n, _ => Request(ip, now))
  }

  lemma {:induction false} BurstIsMonotone(ip: string, now: real, n: nat)
    ensures Monotone(Burst(ip, now, n), now, now)
    ensures Unswept(Burst(ip, now, n)) == Burst(ip, now, n)
  {
    if n > 0 {
      assert Burst(ip, now, n)[..n - 1] == Burst(ip, now, n - 1);
      BurstIsMonotone(ip, now, n - 1);
    }
  }

  /** From a level of at least n, n simultaneous requests are all allowed and draw n tokens. */
  lemma {:induction false} BurstDraws(l: Limiter, ip: string, now: real, n: nat, cfg: Config)
    requires cfg.Enabled() && Level(l, ip, now, cfg) >= n as real
    ensures AllowedCount(l, Burst(ip, now, n), ip, cfg) == n
    ensures Level(After(l, Burst(ip, now, n), cfg), ip, now, cfg) == Level(l, ip, now, cfg) - n as real
    ensures n > 0 ==> ip in After(l, Burst(ip, now, n), cfg).visitors
    ensures n > 0 ==> After(l, Burst(ip, now, n), cfg).visitors[ip].lastSeen == now
  {
    if n > 0 {
      assert Burst(ip, now, n)[..n - 1] == Burst(ip, now, n - 1);
      BurstDraws(l, ip, now, n - 1, cfg);
      RequestDraws(After(l, Burst(ip, now, n - 1), cfg), ip, now, cfg);
    }
  }

  /** Drain the bucket at 0, sweep at `e`, drain again at `e`. */
  function Witness(cfg: Config, e: real): seq<Event> {
    Burst("a", 0.0, cfg.burst) + [Sweep(e)] + Burst("a", e, cfg.burst)
  }

  lemma AfterOneMore(l: Limiter, events: seq<Event>, e: Event, cfg: Config)
    ensures After(l, events + [e], cfg) == Step(After(l, events, cfg), e, cfg)
  {
    assert (events + [e])[..|events|] == events;
  }

  lemma DecisionsOneMore(l: Limiter, events: seq<Event>, e: Event, cfg: Config)
    ensures Decisions(l, events + [e], cfg) == Decisions(l, events, cfg) + Decision(After(l, events, cfg), e, cfg)
  {
    assert (events + [e])[..|events|] == events;
  }

  /** Running a machine over two stretches is running it over both at once; `out` is what a step puts out. */
  lemma {:induction false} RunAppend<S(!new), E(!new), O(!new)>(
    step: (S, E) -> S, out: (S, E) -> seq<O>, run: (S, seq<E>) -> S, outs: (S, seq<E>) -> seq<O>,
    s: S, a: seq<E>, b: seq<E>)
    requires forall x :: run(x, []) == x
    requires forall x :: outs(x, []) == []
    requires forall x, events, e :: run(x, events + [e]) == step(run(x, events), e)
    requires forall x, events, e :: outs(x, events + [e]) == outs(x, events) + out(run(x, events), e)
    ensures run(s, a + b) == run(run(s, a), b)
    ensures outs(s, a + b) == outs(s, a) + outs(run(s, a), b)
  {
    var middle := run(s, a);
    if b == [] {
      assert a + b == a;
      assert run(middle, []) == middle && outs(middle, []) == [];
    } else {
      var init, last := b[..|b| - 1], b[|b| - 1];
      var both := a + init;
      RunAppend(step, out, run, outs, s, a, init);
      assert b == init + [last] && a + b == both + [last];
      assert run(s, both + [last]) == step(run(s, both), last);
      assert outs(s, both + [last]) == outs(s, both) + out(run(s, both), last);
      assert run(middle, init + [last]) == step(run(middle, init), last);
      assert outs(middle, init + [last]) == outs(middle, init) + out(run(middle, init), last);
    }
  }

  lemma TraceAppend(l: Limiter, a: seq<Event>, b: seq<Event>, cfg: Config)
    ensures After(l, a + b, cfg) == After(After(l, a, cfg), b, cfg)
    ensures Decisions(l, a + b, cfg) == Decisions(l, a, cfg) + Decisions(After(l, a, cfg), b, cfg)
  {
    forall x, events, e
      ensures After(x, events + [e], cfg) == Step(After(x, events, cfg), e, cfg)
      ensures Decisions(x, events + [e], cfg) == Decisions(x, events, cfg) + Decision(After(x, events, cfg), e, cfg)
    {
      AfterOneMore(x, events, e, cfg);
      DecisionsOneMore(x, events, e, cfg);
    }
    RunAppend(
      (x, e) => Step(x, e, cfg), (x, e) => Decision(x, e, cfg),
      (x, events) => After(x, events, cfg), (x, events) => Decisions(x, events, cfg), l, a, b);
  }

  lemma {:induction false} UnsweptAppend(a: seq<Event>, b: seq<Event>)
    ensures Unswept(a + b) == Unswept(a) + Unswept(b)
  {
    if b == [] {
      assert a + b == a;
    } else {
      var last := |b| - 1;
      UnsweptAppend(a, b[..last]);
      assert (a + b)[..|a| + last] == a + b[..last] && (a + b)[|a| + last] == b[last];
    }
  }

  lemma AppendTrace(l: Limiter, a: seq<Event>, b: seq<Event>, cfg: Config)
    ensures After(l, a + b, cfg) == After(After(l, a, cfg), b, cfg)
    ensures Decisions(l, a + b, cfg) == Decisions(l, a, cfg) + Decisions(After(l, a, cfg), b, cfg)
    ensures Unswept(a + b) == Unswept(a) + Unswept(b)
  {
    TraceAppend(l, a, b, cfg);
    UnsweptAppend(a, b);
  }

  lemma {:induction false} AppendMonotone(a: seq<Event>, b: seq<Event>, s: real, m: real, t: real)
    requires Monotone(a, s, m) && Monotone(b, m, t)
    ensures Monotone(a + b, s, t)
  {
    if b == [] {
      assert a + b == a;
      if a != [] {
        assert a[|a| - 1].time <= m;
      }
    } else {
      assert (a + b)[..|a + b| - 1] == a + b[..|b| - 1] && (a + b)[|a + b| - 1] == b[|b| - 1];
      AppendMonotone(a, b[..|b| - 1], s, m, b[|b| - 1].time);
    }
  }

  ghost predicate AllTrue(s: seq<bool>) {
    forall i :: 0 <= i < |s| ==> s[i]
  }

  lemma AllTrueAppend(s: seq<bool>, b: bool)
    ensures AllTrue(s + [b]) <==> AllTrue(s) && b
  {
    assert (s + [b])[|s|] == b;
    assert forall i :: 0 <= i < |s| ==> (s + [b])[i] == s[i];
  }

  lemma {:induction false} BurstDecisions(l: Limiter, ip: string, now: real, n: nat, cfg: Config)
    ensures |Decisions(l, Burst(ip, now, n), cfg)| == n
    ensures AllTrue(Decisions(l, Burst(ip, now, n), cfg)) <==> AllowedCount(l, Burst(ip, now, n), ip, cfg) == n
    ensures AllowedCount(l, Burst(ip, now, n), ip, cfg) <= n
  {
    if n > 0 {
      assert Burst(ip, now, n)[..n - 1] == Burst(ip, now, n - 1);
      BurstDecisions(l, ip, now, n - 1, cfg);
      var l' := After(l, Burst(ip, now, n - 1), cfg);
      AllTrueAppend(Decisions(l, Burst(ip, now, n - 1), cfg), Allowed(l', ip, now, cfg).1);
      assert Decision(l', Request(ip, now), cfg) == [Allowed(l', ip, now, cfg).1];
    }
  }

  lemma {:induction false} BurstRemembers(l: Limiter, ip: string, now: real, n: nat, cfg: Config)
    ensures Remembered(l, Burst(ip, now, n), ip, cfg)
  {
    if n > 0 {
      assert Burst(ip, now, n)[..n - 1] == Burst(ip, now, n - 1);
      BurstRemembers(l, ip, now, n - 1, cfg);
    }
  }

  /** A stretch just longer than the idle time that still refills less than a burst. */
  lemma JustIdle(cfg: Config) returns (e: real)
    requires cfg.Enabled() && Gain(IDLE_SECONDS, cfg) < cfg.Burst()
    ensures e > IDLE_SECONDS && Gain(e, cfg) < cfg.Burst()
  {
    var missing := cfg.Burst() - Gain(IDLE_SECONDS, cfg);
    var d := missing / (2.0 * cfg.rate);
    assert d > 0.0;
    assert Gain(d, cfg) == missing / 2.0;
    GainAdds(IDLE_SECONDS, d, cfg);
    e := IDLE_SECONDS + d;
  }

  /** A full burst after the sweep is allowed in full. */
  lemma SweptBurstAllowed(cfg: Config, e: real)
    requires cfg.Enabled() && e > IDLE_SECONDS
    ensures var drained := After(EMPTY, Burst("a", 0.0, cfg.burst), cfg);
      AllTrue(Decisions(Swept(drained, e), Burst("a", e, cfg.burst), cfg))
  {
    var drained := After(EMPTY, Burst("a", 0.0, cfg.burst), cfg);
    BurstDraws(EMPTY, "a", 0.0, cfg.burst, cfg);
    assert "a" !in Swept(drained, e).visitors;
    BurstDraws(Swept(drained, e), "a", e, cfg.burst, cfg);
    BurstDecisions(Swept(drained, e), "a", e, cfg.burst, cfg);
  }

  /** A full burst leaves nothing but what has been refilled since. */
  lemma DrainedLevel(cfg: Config, e: real)
    requires cfg.Enabled() && e >= 0.0
    ensures var drained := After(EMPTY, Burst("a", 0.0, cfg.burst), cfg);
      Valid(drained, cfg, e) && Level(drained, "a", e, cfg) <= Gain(e, cfg)
  {
    var drained := After(EMPTY, Burst("a", 0.0, cfg.burst), cfg);
    BurstDraws(EMPTY, "a", 0.0, cfg.burst, cfg);
    assert Level(drained, "a", 0.0, cfg) == 0.0;
    LevelGrows(drained, "a", 0.0, e, cfg);
    BurstIsMonotone("a", 0.0, cfg.burst);
    TracesKeepValid(EMPTY, Burst("a", 0.0, cfg.burst), cfg, 0.0, 0.0);
    assert Valid(drained, cfg, e);
  }

  /** From a level below n, not all of n simultaneous requests are allowed. */
  lemma ShortBurstDenied(l: Limiter, ip: string, now: real, n: nat, cfg: Config)
    requires cfg.Enabled() && Valid(l, cfg, now) && Level(l, ip, now, cfg) < n as real
    ensures !AllTrue(Decisions(l, Burst(ip, now, n), cfg))
  {
    var requests := Burst(ip, now, n);
    BurstIsMonotone(ip, now, n);
    BurstRemembers(l, ip, now, n, cfg);
    Conservation(l, requests, ip, cfg, now, now);
    GainOfNothing(cfg);
    TracesKeepValid(l, requests, cfg, now, now);
    LevelBounds(After(l, requests, cfg), ip, now, cfg);
    assert AllowedCount(l, requests, ip, cfg) as real <= Level(l, ip, now, cfg);
    BurstDecisions(l, ip, now, n, cfg);
  }

  /** Without the sweep the bucket has not refilled, and some request of the second burst is denied. */
  lemma UnsweptBurstDenied(cfg: Config, e: real)
    requires cfg.Enabled() && e > IDLE_SECONDS && Gain(e, cfg) < cfg.Burst()
    ensures var drained := After(EMPTY, Burst("a", 0.0, cfg.burst), cfg);
      !AllTrue(Decisions(drained, Burst("a", e, cfg.burst), cfg))
  {
    DrainedLevel(cfg, e);
    ShortBurstDenied(After(EMPTY, Burst("a", 0.0, cfg.burst), cfg), "a", e, cfg.burst, cfg);
  }

  /** When the refill over the idle time falls short of the burst, the sweep hands out tokens early. */
  lemma SweepIsVisible(cfg: Config) returns (e: real)
    requires cfg.Enabled() && Gain(IDLE_SECONDS, cfg) < cfg.Burst()
    ensures Monotone(Witness(cfg, e), 0.0, e)
    ensures Decisions(EMPTY, Witness(cfg, e), cfg) != Decisions(EMPTY, Unswept(Witness(cfg, e)), cfg)
  {
    e := JustIdle(cfg);
    WitnessMonotone(cfg, e);
    SweptBurstAllowed(cfg, e);
    UnsweptBurstDenied(cfg, e);
    WitnessDecisions(cfg, e);
    var prefix := Decisions(EMPTY, Burst("a", 0.0, cfg.burst), cfg);
    var drained := After(EMPTY, Burst("a", 0.0, cfg.burst), cfg);
    var again := Burst("a", e, cfg.burst);
    SamePrefix(prefix, Decisions(Swept(drained, e), again, cfg), Decisions(drained, again, cfg));
  }

  lemma SamePrefix(prefix: seq<bool>, a: seq<bool>, b: seq<bool>)
    ensures prefix + a == prefix + b <==> a == b
  {
    assert (prefix + a)[|prefix|..] == a;
    assert (prefix + b)[|prefix|..] == b;
  }

  lemma SweepOnly(l: Limiter, e: real, cfg: Config)
    ensures After(l, [Sweep(e)], cfg) == Swept(l, e)
    ensures Decisions(l, [Sweep(e)], cfg) == []
    ensures Unswept([Sweep(e)]) == []
  {
    var sweep := [Sweep(e)];
    assert sweep[..0] == [];
    assert After(l, [], cfg) == l && Decisions(l, [], cfg) == [] && Unswept([]) == [];
  }

  lemma WitnessDecisions(cfg: Config, e: real)
    ensures var first, second := Burst("a", 0.0, cfg.burst), Burst("a", e, cfg.burst);
      var drained := After(EMPTY, first, cfg);
      && Decisions(EMPTY, Witness(cfg, e), cfg) ==
           Decisions(EMPTY, first, cfg) + Decisions(Swept(drained, e), second, cfg)
      && Decisions(EMPTY, Unswept(Witness(cfg, e)), cfg) ==
           Decisions(EMPTY, first, cfg) + Decisions(drained, second, cfg)
  {
    var first, second := Burst("a", 0.0, cfg.burst), Burst("a", e, cfg.burst);
    BurstIsMonotone("a", 0.0, cfg.burst);
    BurstIsMonotone("a", e, cfg.burst);
    TraceWithSweep(EMPTY, first, second, e, cfg);
  }

  lemma TraceWithSweep(l: Limiter, first: seq<Event>, second: seq<Event>, e: real, cfg: Config)
    ensures Decisions(l, first + [Sweep(e)] + second, cfg) ==
      Decisions(l, first, cfg) + Decisions(Swept(After(l, first, cfg), e), second, cfg)
    ensures Unswept(first) == first && Unswept(second) == second ==>
      Decisions(l, Unswept(first + [Sweep(e)] + second), cfg) ==
        Decisions(l, first, cfg) + Decisions(After(l, first, cfg), second, cfg)
  {
    var middle := After(l, first, cfg);
    var before := Decisions(l, first, cfg);
    SweepOnly(middle, e, cfg);
    AppendTrace(l, first, [Sweep(e)], cfg);
    AppendTrace(l, first + [Sweep(e)], second, cfg);
    AppendTrace(l, first, second, cfg);
    assert before + [] == before;
    assert Unswept(first) + [] == Unswept(first);
  }

  lemma WitnessMonotone(cfg: Config, e: real)
    requires e > IDLE_SECONDS
    ensures Monotone(Witness(cfg, e), 0.0, e)
  {
    BurstIsMonotone("a", 0.0, cfg.burst);
    BurstIsMonotone("a", e, cfg.burst);
    assert [Sweep(e)][..0] == [];
    assert Monotone([], 0.0, e);
    AppendMonotone(Burst("a", 0.0, cfg.burst), [Sweep(e)], 0.0, 0.0, e);
    AppendMonotone(Burst("a", 0.0, cfg.burst) + [Sweep(e)], Burst("a", e, cfg.burst), 0.0, e, e);
  }

  lemma WitnessIsRoomy(cfg: Config, e: real)
    ensures Roomy(Witness(cfg, e), cfg)
  {
    assert Askers(Witness(cfg, e)) <= {"a"};
    SubsetSize(Askers(Witness(cfg, e)), {"a"});
  }

  ghost predicate SweepInvisible(cfg: Config) {
    forall events, s, t :: Monotone(events, s, t) && Roomy(events, cfg) ==>
      Decisions(EMPTY, events, cfg) == Decisions(EMPTY, Unswept(events), cfg)
  }

  /** MAIN RESULT. Over the traces that do not fill the limiter, whatever its capacity, sweeping idle visitors
      changes no decision if and only if three idle minutes refill a whole burst. */
  lemma SweepInvisibleIff(cfg: Config)
    requires cfg.Enabled()
    ensures SweepInvisible(cfg) <==> cfg.rate * (3.0 * 60.0) >= cfg.burst as real
  {
    GainIs(IDLE_SECONDS, cfg);
    if Gain(IDLE_SECONDS, cfg) >= cfg.Burst() {
      forall events, s, t | Monotone(events, s, t) && Roomy(events, cfg)
        ensures Decisions(EMPTY, events, cfg) == Decisions(EMPTY, Unswept(events), cfg)
      {
        SweepsAreInvisible(events, cfg, s, t);
      }
    } else {
      var e := SweepIsVisible(cfg);
      WitnessIsRoomy(cfg, e);
    }
  }
}
