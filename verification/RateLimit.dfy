/** The fixed-window limiter. A request reads the clock, names its minute's counter after the minute
    it read, and reaches Redis at that moment or later, possibly in a later minute. Digests are taken
    as injective, so a counter is named by the quota and the minute. */
module RateLimit {
  import opened Wrappers

  const WINDOW_MS := 60_000

  datatype Quota = Quota(kind: string, identity: string)
  datatype Key = Key(quota: Quota, window: int)

  /** A Redis counter; without a deadline it never expires. */
  datatype Counter = Counter(count: nat, expiresAt: Option<int>)
  type Counters = map<Key, Counter>

  datatype Request = Request(quota: Quota, limit: nat, issuedAt: int, arrivesAt: int)
  datatype Reply = Admitted | Rejected(retryAfter: int)

  function Window(t: int): int { t / WINDOW_MS }

  /** The first moment after the minute of `t`. */
  function WindowEnd(t: int): int { (Window(t) + 1) * WINDOW_MS }

  predicate Live(counters: Counters, key: Key, now: int) {
    key in counters && (counters[key].expiresAt.Some? ==> now < counters[key].expiresAt.value)
  }

  function Increment(counters: Counters, key: Key, now: int): Counter {
    if Live(counters, key, now) then counters[key].(count := counters[key].count + 1) else Counter(1, None)
  }

  /** The counter the script leaves behind. */
  function Scripted(counters: Counters, key: Key, now: int, expiryMs: int): Counter {
    var c := Increment(counters, key, now);
    if c.count == 1 || c.expiresAt.None? then c.(expiresAt := Some(now + expiryMs)) else c
  }

  function ExpiryMs(issuedAt: int): int { WINDOW_MS - issuedAt % WINDOW_MS }

  function KeyOf(r: Request): Key { Key(r.quota, Window(r.issuedAt)) }

  function AfterConsume(counters: Counters, r: Request): Counters {
    counters[KeyOf(r) := Scripted(counters, KeyOf(r), r.arrivesAt, ExpiryMs(r.issuedAt))]
  }

  function Max(a: int, b: int): int { if a >= b then a else b }

  function CeilSeconds(ms: int): int { (ms + 999) / 1000 }

  function ReplyTo(counters: Counters, r: Request): Reply {
    var c := AfterConsume(counters, r)[KeyOf(r)];
    var ttl := if c.expiresAt.Some? then c.expiresAt.value - r.arrivesAt else -1;
    if c.count > r.limit then Rejected(Max(1, CeilSeconds(Max(1, ttl)))) else Admitted
  }

  /** The limiter over its Redis counters. */
  class RateLimitService {
    var counters: map<Key, Counter>

    constructor ()
      ensures counters == map[]
    {
      counters := map[];
    }

    /** The counter script: increment, then give a new or persistent counter its deadline. */
    method RunScript(key: Key, now: int, expiryMs: int) returns (count: nat, ttl: int)
      modifies this
      ensures counters == old(counters)[key := Scripted(old(counters), key, now, expiryMs)]
      ensures count == counters[key].count
      ensures counters[key].expiresAt == Some(now + ttl)
    {
      var c := if Live(counters, key, now) then counters[key].(count := counters[key].count + 1) else Counter(1, None);
      counters := counters[key := c];
      count := c.count;
      ttl := if c.expiresAt.Some? then c.expiresAt.value - now else -1;
      if count == 1 || ttl < 0 {
        counters := counters[key := c.(expiresAt := Some(now + expiryMs))];
        ttl := expiryMs;
      }
    }

    method Consume(r: Request) returns (reply: Reply)
      modifies this
      ensures counters == AfterConsume(old(counters), r)
      ensures reply == ReplyTo(old(counters), r)
    {
      var window := r.issuedAt / WINDOW_MS;
      var expiryMs := WINDOW_MS - r.issuedAt % WINDOW_MS;
      var count, ttl := RunScript(Key(r.quota, window), r.arrivesAt, expiryMs);
      var ttlMs := if ttl < 1 then 1 else ttl;
      if count > r.limit {
        var seconds := (ttlMs + 999) / 1000;
        reply := Rejected(if seconds < 1 then 1 else seconds);
      } else {
        reply := Admitted;
      }
    }
  }

  /** The script counts on from a counter that still stands, and starts one at one otherwise. It leaves
      no counter without a deadline: it gives a new or persistent one its own and keeps any other. */
  lemma ScriptExactly(counters: Counters, key: Key, now: int, expiryMs: int)
    ensures var c := Scripted(counters, key, now, expiryMs);
      if key !in counters || (counters[key].expiresAt.Some? && counters[key].expiresAt.value <= now) then
        c == Counter(1, Some(now + expiryMs))
      else
        var before := counters[key];
        c.count == before.count + 1
        && c.expiresAt == if before.count > 0 && before.expiresAt.Some? then before.expiresAt else Some(now + expiryMs)
  {
  }

  // ---------------------------------------------------------------- runs

  /** Requests in the order they reach Redis, each no earlier than it was issued. */
  ghost predicate IsRun(rs: seq<Request>) {
    && (forall i :: 0 <= i < |rs| ==> rs[i].issuedAt <= rs[i].arrivesAt)
    && (forall i, j :: 0 <= i < j < |rs| ==> rs[i].arrivesAt <= rs[j].arrivesAt)
  }

  /** Every request arrives within the minute it was issued in. */
  ghost predicate Timely(rs: seq<Request>) {
    forall i :: 0 <= i < |rs| ==> rs[i].arrivesAt < WindowEnd(rs[i].issuedAt)
  }

  function Exec(rs: seq<Request>): Counters {
    if rs == [] then map[] else AfterConsume(Exec(rs[..|rs| - 1]), rs[|rs| - 1])
  }

  function ReplyAt(rs: seq<Request>, i: nat): Reply
    requires i < |rs|
  {
    ReplyTo(Exec(rs[..i]), rs[i])
  }

  /** How many requests carry the key. */
  function Requests(rs: seq<Request>, key: Key): nat {
    if rs == [] then 0
    else Requests(rs[..|rs| - 1], key) + (if KeyOf(rs[|rs| - 1]) == key then 1 else 0)
  }

  function AdmittedFor(rs: seq<Request>, key: Key): nat {
    if rs == [] then 0
    else
      AdmittedFor(rs[..|rs| - 1], key)
      + (if KeyOf(rs[|rs| - 1]) == key && ReplyAt(rs, |rs| - 1).Admitted? then 1 else 0)
  }

  lemma ExpiryReachesWindowEnd(t: int)
    ensures t + ExpiryMs(t) == WindowEnd(t) && 1 <= ExpiryMs(t) <= WINDOW_MS
  {
  }

  /** A minute's requests are those of the quota issued in that aligned minute. */
  lemma RequestsOfMinute(rs: seq<Request>, r: Request, key: Key)
    ensures Requests(rs + [r], key)
            == Requests(rs, key) + (if r.quota == key.quota && r.issuedAt / 60_000 == key.window then 1 else 0)
  {
    assert (rs + [r])[..|rs|] == rs;
  }

  // ---------------------------------------------------------------- restarts

  /** A counter expires as much after its minute as the request that opened it was delayed. */
  function Deadline(opener: Request): int { WindowEnd(opener.issuedAt) + (opener.arrivesAt - opener.issuedAt) }

  /** The request opens a counter: there is none yet, or it arrives at or after the deadline of the
      one that is there. */
  predicate Opens(opener: Option<Request>, r: Request) {
    opener.Some? ==> r.arrivesAt >= Deadline(opener.value)
  }

  /** The request that opened the key's counter last. */
  function Opener(rs: seq<Request>, key: Key): Option<Request> {
    if rs == [] then None
    else
      var before, r := Opener(rs[..|rs| - 1], key), rs[|rs| - 1];
      if KeyOf(r) == key && Opens(before, r) then Some(r) else before
  }

  /** The key's requests since its counter was opened last, the opening one included. */
  function SinceRestart(rs: seq<Request>, key: Key): nat {
    if rs == [] then 0
    else
      var before, r := rs[..|rs| - 1], rs[|rs| - 1];
      if KeyOf(r) != key then SinceRestart(before, key)
      else if Opens(Opener(before, key), r) then 1
      else SinceRestart(before, key) + 1
  }

  /** Some request of the key found an earlier counter of its minute expired. */
  predicate Restarted(rs: seq<Request>, key: Key) {
    rs != []
    && var before, r := rs[..|rs| - 1], rs[|rs| - 1];
       Restarted(before, key) || (KeyOf(r) == key && Opener(before, key).Some? && Opens(Opener(before, key), r))
  }

  lemma {:induction false} OpenerIsOne(rs: seq<Request>, key: Key)
    ensures Opener(rs, key).Some? <==> Requests(rs, key) > 0
    ensures Opener(rs, key).Some? ==> Opener(rs, key).value in rs && KeyOf(Opener(rs, key).value) == key
  {
    if rs != [] { OpenerIsOne(rs[..|rs| - 1], key); }
  }

  /** The count since the last restart falls short of the minute's count exactly when there was one. */
  lemma {:induction false} RestartsShorten(rs: seq<Request>, key: Key)
    ensures Opener(rs, key).Some? <==> SinceRestart(rs, key) > 0
    ensures SinceRestart(rs, key) <= Requests(rs, key)
    ensures Restarted(rs, key) <==> SinceRestart(rs, key) < Requests(rs, key)
  {
    if rs != [] {
      RestartsShorten(rs[..|rs| - 1], key);
      OpenerIsOne(rs[..|rs| - 1], key);
    }
  }

  ghost predicate Counts(counters: Counters, rs: seq<Request>, key: Key) {
    && (key in counters <==> Opener(rs, key).Some?)
    && (key in counters ==> counters[key] == Counter(SinceRestart(rs, key), Some(Deadline(Opener(rs, key).value))))
  }

  lemma ConsumeCounts(counters: Counters, before: seq<Request>, r: Request, key: Key)
    requires Counts(counters, before, key) && (Opener(before, key).Some? <==> SinceRestart(before, key) > 0)
    ensures Counts(AfterConsume(counters, r), before + [r], key)
  {
    assert (before + [r])[..|before|] == before;
    ExpiryReachesWindowEnd(r.issuedAt);
  }

  /** In every sequence of requests each counter holds the requests of its key since it was opened
      last, and expires as long after its minute as the request that opened it was delayed. */
  lemma {:induction false} CountersCount(rs: seq<Request>, key: Key)
    ensures Counts(Exec(rs), rs, key)
  {
    if rs != [] {
      var n := |rs| - 1;
      CountersCount(rs[..n], key);
      RestartsShorten(rs[..n], key);
      ConsumeCounts(Exec(rs[..n]), rs[..n], rs[n], key);
      assert rs[..n] + [rs[n]] == rs;
    }
  }

  lemma {:induction false} TimelyNeverRestarts(rs: seq<Request>, key: Key)
    requires IsRun(rs) && Timely(rs)
    ensures !Restarted(rs, key)
  {
    if rs != [] {
      TimelyNeverRestarts(rs[..|rs| - 1], key);
      OpenerIsOne(rs[..|rs| - 1], key);
    }
  }

  // ---------------------------------------------------------------- what is admitted

  /** In every sequence of requests, one is admitted exactly when the requests of its minute since its
      counter was opened last, itself included, are at most its limit; if that counter never
      restarted, exactly when fewer than the limit came before it in its minute. */
  lemma AdmittedIffUnderLimit(rs: seq<Request>, i: nat)
    requires i < |rs|
    ensures ReplyAt(rs, i).Admitted? <==>
              SinceRestart(rs[..i + 1], Key(rs[i].quota, rs[i].issuedAt / 60_000)) <= rs[i].limit
    ensures !Restarted(rs[..i + 1], Key(rs[i].quota, rs[i].issuedAt / 60_000)) ==>
              (ReplyAt(rs, i).Admitted? <==> Requests(rs[..i], Key(rs[i].quota, rs[i].issuedAt / 60_000)) < rs[i].limit)
  {
    var upTo := rs[..i + 1];
    assert upTo[..i] == rs[..i];
    CountersCount(rs[..i], KeyOf(rs[i]));
    RestartsShorten(rs[..i], KeyOf(rs[i]));
    RestartsShorten(upTo, KeyOf(rs[i]));
  }

  /** What decides a request after any sequence: nothing is admitted without a limit; otherwise it is
      if it arrives at or after its counter's deadline, or opens one, or finds room in the count. */
  lemma NextIsAdmittedIff(rs: seq<Request>, r: Request)
    ensures ReplyTo(Exec(rs), r).Admitted? <==>
            r.limit > 0 && (Opens(Opener(rs, KeyOf(r)), r) || SinceRestart(rs, KeyOf(r)) < r.limit)
  {
    CountersCount(rs, KeyOf(r));
  }

  function Min(a: nat, b: nat): nat { if a <= b then a else b }

  ghost predicate HasLimit(rs: seq<Request>, quota: Quota, limit: nat) {
    forall i :: 0 <= i < |rs| && rs[i].quota == quota ==> rs[i].limit == limit
  }

  /** Between the two bounds: a restart admits at least one more than the limit, once there are more
      requests than the limit. */
  ghost predicate Bounded(rs: seq<Request>, key: Key, limit: nat) {
    var n, admitted := Requests(rs, key), AdmittedFor(rs, key);
    && admitted <= n
    && (n <= limit ==> admitted == n)
    && (!Restarted(rs, key) ==> admitted == Min(n, limit))
    && (Restarted(rs, key) && limit > 0 ==> admitted >= Min(n, limit + 1))
    && (limit == 0 ==> admitted == 0)
  }

  lemma LastIsBounded(rs: seq<Request>, key: Key, limit: nat)
    requires rs != [] && KeyOf(rs[|rs| - 1]) == key && rs[|rs| - 1].limit == limit
    requires Bounded(rs[..|rs| - 1], key, limit)
    ensures Bounded(rs, key, limit)
  {
    var n := |rs| - 1;
    assert rs[..n + 1] == rs;
    AdmittedIffUnderLimit(rs, n);
    RestartsShorten(rs[..n], key);
    RestartsShorten(rs, key);
  }

  lemma {:induction false} MinuteIsBounded(rs: seq<Request>, key: Key, limit: nat)
    requires HasLimit(rs, key.quota, limit)
    ensures Bounded(rs, key, limit)
  {
    if rs != [] {
      var n := |rs| - 1;
      MinuteIsBounded(rs[..n], key, limit);
      if KeyOf(rs[n]) == key {
        assert rs[n].limit == limit;
        LastIsBounded(rs, key, limit);
      }
    }
  }

  /** In every sequence of requests an aligned minute admits exactly the smaller of its requests and
      the limit if and only if its counter never restarted, or there were no more requests than the
      limit anyway, or the limit admits nothing; in the other case it admits more. */
  lemma MinuteAdmitsMin(rs: seq<Request>, key: Key, limit: nat)
    requires HasLimit(rs, key.quota, limit)
    ensures AdmittedFor(rs, key) >= Min(Requests(rs, key), limit)
    ensures AdmittedFor(rs, key) == Min(Requests(rs, key), limit) <==>
            !Restarted(rs, key) || Requests(rs, key) <= limit || limit == 0
  {
    MinuteIsBounded(rs, key, limit);
  }

  /** After a minute filled on time every request of it that arrives after the minute is admitted
      beyond the limit. */
  lemma EveryLateRequestIsAdmitted(rs: seq<Request>, r: Request)
    requires Requests(rs, KeyOf(r)) >= r.limit > 0 && r.arrivesAt >= WindowEnd(r.issuedAt)
    requires forall i :: 0 <= i < |rs| && KeyOf(rs[i]) == KeyOf(r) ==> rs[i].arrivesAt == rs[i].issuedAt
    ensures ReplyTo(Exec(rs), r).Admitted?
  {
    NextIsAdmittedIff(rs, r);
    OpenerIsOne(rs, KeyOf(r));
  }

  // ---------------------------------------------------------------- any sixty seconds

  function AdmittedBetween(rs: seq<Request>, quota: Quota, from: int, to: int): nat {
    if rs == [] then 0
    else
      var r := rs[|rs| - 1];
      AdmittedBetween(rs[..|rs| - 1], quota, from, to)
      + (if r.quota == quota && from <= r.arrivesAt < to && ReplyAt(rs, |rs| - 1).Admitted? then 1 else 0)
  }

  /** The same, counted by the moment of issue. */
  function AdmittedIssuedBetween(rs: seq<Request>, quota: Quota, from: int, to: int): nat {
    if rs == [] then 0
    else
      var r := rs[|rs| - 1];
      AdmittedIssuedBetween(rs[..|rs| - 1], quota, from, to)
      + (if r.quota == quota && from <= r.issuedAt < to && ReplyAt(rs, |rs| - 1).Admitted? then 1 else 0)
  }

  lemma {:induction false} TwoMinutesCover(rs: seq<Request>, quota: Quota, from: int)
    ensures AdmittedIssuedBetween(rs, quota, from, from + WINDOW_MS)
            <= AdmittedFor(rs, Key(quota, Window(from))) + AdmittedFor(rs, Key(quota, Window(from) + 1))
  {
    if rs != [] { TwoMinutesCover(rs[..|rs| - 1], quota, from); }
  }

  /** Any sixty seconds, aligned or not, admit at most twice the limit of the requests issued in them,
      late arrivals included, unless a counter of their two minutes restarted. */
  lemma SixtySecondsIssueTwice(rs: seq<Request>, quota: Quota, limit: nat, from: int)
    requires HasLimit(rs, quota, limit)
    requires !Restarted(rs, Key(quota, from / 60_000)) && !Restarted(rs, Key(quota, from / 60_000 + 1))
    ensures AdmittedIssuedBetween(rs, quota, from, from + 60_000) <= 2 * limit
  {
    TwoMinutesCover(rs, quota, from);
    MinuteAdmitsMin(rs, Key(quota, Window(from)), limit);
    MinuteAdmitsMin(rs, Key(quota, Window(from) + 1), limit);
  }

  /** Arrivals of the interval that belong to a minute before the one it begins in. */
  function LateBetween(rs: seq<Request>, quota: Quota, from: int, to: int): nat {
    if rs == [] then 0
    else
      var r := rs[|rs| - 1];
      LateBetween(rs[..|rs| - 1], quota, from, to)
      + (if r.quota == quota && from <= r.arrivesAt < to && Window(r.issuedAt) < Window(from) then 1 else 0)
  }

  lemma {:induction false} TwoMinutesCoverArrivals(rs: seq<Request>, quota: Quota, from: int)
    requires IsRun(rs)
    ensures AdmittedBetween(rs, quota, from, from + WINDOW_MS)
            <= AdmittedFor(rs, Key(quota, Window(from))) + AdmittedFor(rs, Key(quota, Window(from) + 1))
               + LateBetween(rs, quota, from, from + WINDOW_MS)
  {
    if rs != [] { TwoMinutesCoverArrivals(rs[..|rs| - 1], quota, from); }
  }

  lemma {:induction false} TimelyHasNoLate(rs: seq<Request>, quota: Quota, from: int)
    requires IsRun(rs) && Timely(rs)
    ensures LateBetween(rs, quota, from, from + WINDOW_MS) == 0
  {
    if rs != [] {
      TimelyHasNoLate(rs[..|rs| - 1], quota, from);
      SameMinute(rs[|rs| - 1]);
    }
  }

  lemma SameMinute(r: Request)
    requires r.issuedAt <= r.arrivesAt < WindowEnd(r.issuedAt)
    ensures Window(r.arrivesAt) == Window(r.issuedAt)
  {
  }

  /** Counted by arrival, any sixty seconds admit at most twice the limit and the late arrivals from
      earlier minutes, unless a counter of their two minutes restarted. */
  lemma SixtySecondsAdmitTwiceAndLate(rs: seq<Request>, quota: Quota, limit: nat, from: int)
    requires IsRun(rs) && HasLimit(rs, quota, limit)
    requires !Restarted(rs, Key(quota, from / 60_000)) && !Restarted(rs, Key(quota, from / 60_000 + 1))
    ensures AdmittedBetween(rs, quota, from, from + 60_000)
            <= 2 * limit + LateBetween(rs, quota, from, from + 60_000)
  {
    TwoMinutesCoverArrivals(rs, quota, from);
    MinuteAdmitsMin(rs, Key(quota, Window(from)), limit);
    MinuteAdmitsMin(rs, Key(quota, Window(from) + 1), limit);
  }

  /** So at most twice the limit when every request arrives within its minute. */
  lemma SixtySecondsAdmitTwice(rs: seq<Request>, quota: Quota, limit: nat, from: int)
    requires IsRun(rs) && Timely(rs) && HasLimit(rs, quota, limit)
    ensures AdmittedBetween(rs, quota, from, from + 60_000) <= 2 * limit
  {
    TimelyNeverRestarts(rs, Key(quota, Window(from)));
    TimelyNeverRestarts(rs, Key(quota, Window(from) + 1));
    SixtySecondsAdmitTwiceAndLate(rs, quota, limit, from);
    TimelyHasNoLate(rs, quota, from);
  }

  lemma FirstOfMinuteIsAdmitted(rs: seq<Request>, r: Request)
    requires r.limit > 0 && forall i :: 0 <= i < |rs| ==> KeyOf(rs[i]) != KeyOf(r)
    ensures ReplyTo(Exec(rs), r).Admitted?
  {
    NextIsAdmittedIff(rs, r);
    OpenerIsOne(rs, KeyOf(r));
  }

  /** The late term is needed: with a limit of one, three requests of three minutes can be
      admitted within sixty seconds of arrivals. */
  lemma LateArrivalsAdmitThrice(quota: Quota)
    ensures var rs := [Request(quota, 1, 59_900, 60_200), Request(quota, 1, 60_300, 60_300),
                       Request(quota, 1, 120_100, 120_100)];
      IsRun(rs) && AdmittedBetween(rs, quota, 60_200, 120_200) == 3
  {
    var a, b := Request(quota, 1, 59_900, 60_200), Request(quota, 1, 60_300, 60_300);
    var c := Request(quota, 1, 120_100, 120_100);
    var rs := [a, b, c];
    assert rs[..2] == [a, b] && [a, b][..1] == [a] && [a][..0] == [];
    FirstOfMinuteIsAdmitted([], a);
    FirstOfMinuteIsAdmitted([a], b);
    FirstOfMinuteIsAdmitted([a, b], c);
    assert AdmittedBetween([a], quota, 60_200, 120_200) == 1;
    assert AdmittedBetween([a, b], quota, 60_200, 120_200) == 2;
  }

  // ---------------------------------------------------------------- Retry-After

  /** Every rejection asks for 1 to 60 seconds, and waiting them out reaches a later minute. */
  lemma RetryAfterReachesNextMinute(rs: seq<Request>, i: nat)
    requires IsRun(rs) && i < |rs| && ReplyAt(rs, i).Rejected?
    ensures 1 <= ReplyAt(rs, i).retryAfter <= 60
    ensures (rs[i].arrivesAt + 1000 * ReplyAt(rs, i).retryAfter) / 60_000 > rs[i].issuedAt / 60_000
  {
    var key := KeyOf(rs[i]);
    CountersCount(rs[..i], key);
    RestartsShorten(rs[..i], key);
    OpenerIsOne(rs[..i], key);
    ExpiryReachesWindowEnd(rs[i].issuedAt);
    if Opener(rs[..i], key).Some? {
      var opener := Opener(rs[..i], key).value;
      ExpiryReachesWindowEnd(opener.issuedAt);
      assert opener.issuedAt <= opener.arrivesAt <= rs[i].arrivesAt;
    }
  }

  /** The wait asked for is the least whole number of seconds, at least one, that reaches the deadline of
      the counter the request met or opened. */
  lemma RetryAfterIsLeast(rs: seq<Request>, r: Request)
    requires ReplyTo(Exec(rs), r).Rejected?
    ensures var opener := Opener(rs + [r], KeyOf(r)); var seconds := ReplyTo(Exec(rs), r).retryAfter;
      && opener.Some? && seconds >= 1
      && var began := opener.value.issuedAt;
      && var deadline := (began / 60_000 + 1) * 60_000 + (opener.value.arrivesAt - began);
      && r.arrivesAt + 1000 * seconds >= deadline
      && (seconds > 1 ==> r.arrivesAt + 1000 * (seconds - 1) < deadline)
  {
    assert (rs + [r])[..|rs|] == rs;
    CountersCount(rs, KeyOf(r));
    RestartsShorten(rs, KeyOf(r));
    ExpiryReachesWindowEnd(r.issuedAt);
  }

  /** One quota's requests leave every other quota's replies alone: dropping them all changes none. */
  function Without(rs: seq<Request>, quota: Quota): seq<Request> {
    if rs == [] then []
    else
      var before := Without(rs[..|rs| - 1], quota);
      if rs[|rs| - 1].quota == quota then before else before + [rs[|rs| - 1]]
  }

  ghost predicate AgreeOutside(a: Counters, b: Counters, quota: Quota) {
    forall k: Key :: k.quota != quota ==> (k in a <==> k in b) && (k in a ==> a[k] == b[k])
  }

  lemma ConsumeAgrees(a: Counters, b: Counters, quota: Quota, r: Request)
    requires AgreeOutside(a, b, quota) && r.quota != quota
    ensures AgreeOutside(AfterConsume(a, r), AfterConsume(b, r), quota) && ReplyTo(a, r) == ReplyTo(b, r)
  {
    assert KeyOf(r).quota != quota;
    assert Increment(a, KeyOf(r), r.arrivesAt) == Increment(b, KeyOf(r), r.arrivesAt);
  }

  lemma {:induction false} CountersAgree(rs: seq<Request>, quota: Quota)
    ensures AgreeOutside(Exec(rs), Exec(Without(rs, quota)), quota)
  {
    if rs != [] {
      var before, r := Without(rs[..|rs| - 1], quota), rs[|rs| - 1];
      CountersAgree(rs[..|rs| - 1], quota);
      if r.quota != quota {
        ConsumeAgrees(Exec(rs[..|rs| - 1]), Exec(before), quota, r);
        assert (before + [r])[..|before|] == before;
      }
    }
  }

  lemma QuotasAreIndependent(rs: seq<Request>, quota: Quota, r: Request)
    requires r.quota != quota
    ensures ReplyTo(Exec(rs), r) == ReplyTo(Exec(Without(rs, quota)), r)
  {
    CountersAgree(rs, quota);
    ConsumeAgrees(Exec(rs), Exec(Without(rs, quota)), quota, r);
  }
}
