/** The application cache of every instance over one table of applications. A `get` is three steps:
    look at the cache, read the database, store. A change is two: commit, then drop the local entry
    and publish; each instance receives the publication later, or never. */
module AppCache {
  import opened Wrappers

  type AppId = int
  type Instance = int
  type Call = int

  datatype App = App(issuer: string, audience: string, jwksUri: string, enabled: bool)
  datatype Entry = Entry(value: App, expiresAt: int)
  type Cache = map<AppId, Entry>

  const CACHE_TTL_MS := 5 * 60 * 1000

  // ---------------------------------------------------------------- one instance

  function Hit(cache: Cache, appId: AppId, now: int): Option<App> {
    if appId in cache && cache[appId].expiresAt > now then Some(cache[appId].value) else None
  }

  function Stored(cache: Cache, appId: AppId, value: Option<App>, now: int): Cache {
    if value.Some? then cache[appId := Entry(value.value, now + CACHE_TTL_MS)] else cache
  }

  function Dropped(cache: Cache, appId: AppId): Cache { map k | k in cache && k != appId :: cache[k] }

  class ApplicationsService {
    var cache: map<AppId, Entry>

    constructor ()
      ensures cache == map[]
    {
      cache := map[];
    }

    /** The first half of `get`. */
    method Look(appId: AppId, now: int) returns (found: Option<App>)
      ensures found == Hit(cache, appId, now)
      ensures cache == old(cache)
    {
      if appId in cache {
        var cached := cache[appId];
        if cached.expiresAt > now { return Some(cached.value); }
      }
      return None;
    }

    /** The second half of `get`: a value the table does not have is not found and not stored. */
    method Store(appId: AppId, value: Option<App>, now: int) returns (found: Option<App>)
      modifies this
      ensures cache == Stored(old(cache), appId, value, now)
      ensures found == value
    {
      if value.None? { return None; }
      cache := cache[appId := Entry(value.value, now + CACHE_TTL_MS)];
      return value;
    }

    /** `changed` before it publishes, and the handler of the change channel. */
    method Drop(appId: AppId)
      modifies this
      ensures cache == Dropped(old(cache), appId)
    {
      cache := map k | k in cache && k != appId :: cache[k];
    }
  }

  // ---------------------------------------------------------------- all instances

  datatype Fill = Fill(instance: Instance, appId: AppId, value: Option<Option<App>>)

  datatype Message = Message(instance: Instance, appId: AppId)

  datatype World = World(
    now: int,
    db: map<AppId, App>,
    caches: map<Instance, Cache>,
    fills: map<Call, Fill>,            // gets that missed; the value once it is read
    unpublished: map<Call, AppId>,     // committed changes still to be published
    inbox: multiset<Message>)          // publications still to be delivered

  datatype Step =
    | Tick(ms: nat)
    | Commit(call: Call, appId: AppId, value: App)
    | Publish(call: Call, instance: Instance)
    | Deliver(message: Message)
    | Lose(message: Message)
    | Look(call: Call, instance: Instance, appId: AppId)
    | Read(call: Call)
    | Store(call: Call)
    | Get(instance: Instance, appId: AppId)    // look, read and store at one moment

  function CacheOf(w: World, i: Instance): Cache { if i in w.caches then w.caches[i] else map[] }

  function InDb(w: World, a: AppId): Option<App> { if a in w.db then Some(w.db[a]) else None }

  function WithCache(w: World, i: Instance, c: Cache): World { w.(caches := w.caches[i := c]) }

  /** A publication reaches every instance's inbox. */
  ghost function Broadcast(instances: set<Instance>, a: AppId): multiset<Message> {
    multiset(set i | i in instances :: Message(i, a))
  }

  ghost function Next(instances: set<Instance>, w: World, s: Step): World {
    match s
    case Tick(ms) => w.(now := w.now + ms)
    case Commit(c, a, v) =>
      if c in w.unpublished then w else w.(db := w.db[a := v], unpublished := w.unpublished[c := a])
    case Publish(c, i) =>
      if c !in w.unpublished then w
      else
        var a := w.unpublished[c];
        WithCache(w, i, Dropped(CacheOf(w, i), a)).(unpublished := w.unpublished - {c},
            inbox := w.inbox + Broadcast(instances, a))
    case Deliver(m) =>
      if m !in w.inbox then w
      else WithCache(w, m.instance, Dropped(CacheOf(w, m.instance), m.appId)).(inbox := w.inbox - multiset{m})
    case Lose(m) => w.(inbox := w.inbox - multiset{m})
    case Look(c, i, a) =>
      if c in w.fills || Hit(CacheOf(w, i), a, w.now).Some? then w else w.(fills := w.fills[c := Fill(i, a, None)])
    case Read(c) =>
      if c !in w.fills || w.fills[c].value.Some? then w
      else w.(fills := w.fills[c := w.fills[c].(value := Some(InDb(w, w.fills[c].appId)))])
    case Store(c) =>
      if c !in w.fills || w.fills[c].value.None? then w
      else
        var f := w.fills[c];
        WithCache(w, f.instance, Stored(CacheOf(w, f.instance), f.appId, f.value.value, w.now)).(fills := w.fills - {c})
    case Get(i, a) =>
      if Hit(CacheOf(w, i), a, w.now).Some? then w
      else WithCache(w, i, Stored(CacheOf(w, i), a, InDb(w, a), w.now))
  }

  /** What a `get` returns in this step, if it returns. */
  function Served(w: World, s: Step): Option<App> {
    match s
    case Look(_, i, a) => Hit(CacheOf(w, i), a, w.now)
    case Get(i, a) => if Hit(CacheOf(w, i), a, w.now).Some? then Hit(CacheOf(w, i), a, w.now) else InDb(w, a)
    case Store(c) => if c in w.fills && w.fills[c].value.Some? then w.fills[c].value.value else None
    case _ => None
  }

  function ServedFor(w: World, s: Step): AppId
    requires Served(w, s).Some?
  {
    match s
    case Look(_, _, a) => a
    case Get(_, a) => a
    case Store(c) => w.fills[c].appId
  }

  const START := World(0, map[], map[], map[], map[], multiset{})

  ghost function Exec(instances: set<Instance>, steps: seq<Step>): World {
    if steps == [] then START else Next(instances, Exec(instances, steps[..|steps| - 1]), steps[|steps| - 1])
  }

  lemma ExecExtends(instances: set<Instance>, steps: seq<Step>, s: Step)
    ensures Exec(instances, steps + [s]) == Next(instances, Exec(instances, steps), s)
  {
    assert (steps + [s])[..|steps|] == steps;
  }

  /** The step hands the caller of a `get` this value: the entry its instance holds until a later
      moment, or else what the fill has read. */
  predicate HandsOut(w: World, s: Step, v: App) {
    match s
    case Look(_, i, a) =>
      i in w.caches && a in w.caches[i] && w.now < w.caches[i][a].expiresAt && w.caches[i][a].value == v
    case Get(i, a) =>
      if i in w.caches && a in w.caches[i] && w.now < w.caches[i][a].expiresAt then w.caches[i][a].value == v
      else a in w.db && w.db[a] == v
    case Store(c) => c in w.fills && w.fills[c].value == Some(Some(v))
    case _ => false
  }

  lemma ServedExactly(w: World, s: Step, v: App)
    ensures Served(w, s) == Some(v) <==> HandsOut(w, s, v)
  {
  }

  // ---------------------------------------------------------------- bounded staleness

  ghost function TimeAt(instances: set<Instance>, steps: seq<Step>, k: nat): int
    requires k <= |steps|
  {
    Exec(instances, steps[..k]).now
  }

  /** Between two points of a run exactly the time of the ticks in between passes. */
  lemma TicksMoveTheClock(instances: set<Instance>, steps: seq<Step>, k: nat)
    requires k < |steps|
    ensures TimeAt(instances, steps, k + 1) ==
        TimeAt(instances, steps, k) + (if steps[k].Tick? then steps[k].ms else 0)
  {
    assert steps[..k + 1][..k] == steps[..k];
  }

  /** Before step `k` the call is still in the fill that reads at step `j`: it has missed and not yet
      read at `j`, it reads there, and it stores nothing in between. */
  ghost predicate OpenFill(
      instances: set<Instance>, steps: seq<Step>, c: Call, i: Instance, a: AppId, j: nat, k: nat)
  {
    && j < k <= |steps| && steps[j] == Read(c)
    && c in Exec(instances, steps[..j]).fills && Exec(instances, steps[..j]).fills[c] == Fill(i, a, None)
    && forall m :: j < m < k ==> steps[m] != Store(c)
  }

  /** A `get` that misses, reads and stores at one moment. */
  ghost predicate GetFills(instances: set<Instance>, steps: seq<Step>, i: Instance, a: AppId, k: nat) {
    && k < |steps| && steps[k] == Get(i, a)
    && var w := Exec(instances, steps[..k]); Hit(CacheOf(w, i), a, w.now).None?
  }

  /** One fill of the run for the instance: it reads the value at step `j` and stores it at step `k`. */
  ghost predicate FilledBy(
      instances: set<Instance>, steps: seq<Step>, i: Instance, a: AppId, v: App, j: nat, k: nat)
  {
    && j <= k < |steps|
    && InDb(Exec(instances, steps[..j]), a) == Some(v)
    && (|| (j == k && GetFills(instances, steps, i, a, k))
        || (j < k && steps[k].Store? && OpenFill(instances, steps, steps[k].call, i, a, j, k)))
  }

  ghost predicate ReadBy(
      instances: set<Instance>, steps: seq<Step>, c: Call, i: Instance, a: AppId, v: Option<App>, j: nat)
  {
    OpenFill(instances, steps, c, i, a, j, |steps|) && InDb(Exec(instances, steps[..j]), a) == v
  }

  ghost predicate WasRead(
      instances: set<Instance>, steps: seq<Step>, c: Call, i: Instance, a: AppId, v: Option<App>)
  {
    exists j :: ReadBy(instances, steps, c, i, a, v, j)
  }

  ghost predicate StoredAt(instances: set<Instance>, steps: seq<Step>, e: Entry, k: nat) {
    k <= |steps| && e.expiresAt == TimeAt(instances, steps, k) + CACHE_TTL_MS
  }

  ghost predicate WasFilled(instances: set<Instance>, steps: seq<Step>, i: Instance, a: AppId, e: Entry) {
    exists j, k :: FilledBy(instances, steps, i, a, e.value, j, k) && StoredAt(instances, steps, e, k)
  }

  /** Every entry was filled by one fill of the run, and every value being filled in was read by the
      fill that holds it. */
  ghost predicate Provenance(instances: set<Instance>, steps: seq<Step>) {
    var w := Exec(instances, steps);
    && (forall i, a :: i in w.caches && a in w.caches[i] ==> WasFilled(instances, steps, i, a, w.caches[i][a]))
    && (forall c :: c in w.fills && w.fills[c].value.Some? ==>
          WasRead(instances, steps, c, w.fills[c].instance, w.fills[c].appId, w.fills[c].value.value))
  }

  lemma FilledGrows(instances: set<Instance>, steps: seq<Step>, s: Step, i: Instance, a: AppId, e: Entry)
    requires WasFilled(instances, steps, i, a, e)
    ensures WasFilled(instances, steps + [s], i, a, e)
  {
    var more := steps + [s];
    var j: nat, k: nat :| FilledBy(instances, steps, i, a, e.value, j, k) && StoredAt(instances, steps, e, k);
    assert more[..j] == steps[..j] && more[..k] == steps[..k];
    assert FilledBy(instances, more, i, a, e.value, j, k) && StoredAt(instances, more, e, k);
  }

  lemma ReadGrows(
      instances: set<Instance>, steps: seq<Step>, s: Step, c: Call, i: Instance, a: AppId, v: Option<App>)
    requires WasRead(instances, steps, c, i, a, v) && s != Store(c)
    ensures WasRead(instances, steps + [s], c, i, a, v)
  {
    var more := steps + [s];
    var j: nat :| ReadBy(instances, steps, c, i, a, v, j);
    assert more[..j] == steps[..j];
    assert ReadBy(instances, more, c, i, a, v, j);
  }

  lemma StoreIsAFill(instances: set<Instance>, steps: seq<Step>, c: Call)
    requires Provenance(instances, steps)
    ensures var w := Exec(instances, steps);
      c in w.fills && w.fills[c].value.Some? && w.fills[c].value.value.Some? ==>
        WasFilled(instances, steps + [Store(c)], w.fills[c].instance, w.fills[c].appId,
                  Entry(w.fills[c].value.value.value, w.now + CACHE_TTL_MS))
  {
    var w, more := Exec(instances, steps), steps + [Store(c)];
    if c in w.fills && w.fills[c].value.Some? && w.fills[c].value.value.Some? {
      var f := w.fills[c];
      assert WasRead(instances, steps, c, f.instance, f.appId, f.value.value);
      var j: nat :| ReadBy(instances, steps, c, f.instance, f.appId, f.value.value, j);
      assert more[..j] == steps[..j] && more[..|steps|] == steps;
      assert FilledBy(instances, more, f.instance, f.appId, f.value.value.value, j, |steps|);
      assert StoredAt(instances, more, Entry(f.value.value.value, w.now + CACHE_TTL_MS), |steps|);
    }
  }

  lemma GetIsAFill(instances: set<Instance>, steps: seq<Step>, i: Instance, a: AppId)
    ensures var w := Exec(instances, steps);
      a in w.db && Hit(CacheOf(w, i), a, w.now).None? ==>
        WasFilled(instances, steps + [Get(i, a)], i, a, Entry(w.db[a], w.now + CACHE_TTL_MS))
  {
    var w, more := Exec(instances, steps), steps + [Get(i, a)];
    assert more[..|steps|] == steps;
    if a in w.db && Hit(CacheOf(w, i), a, w.now).None? {
      assert FilledBy(instances, more, i, a, w.db[a], |steps|, |steps|);
      assert StoredAt(instances, more, Entry(w.db[a], w.now + CACHE_TTL_MS), |steps|);
    }
  }

  lemma ReadIsARead(instances: set<Instance>, steps: seq<Step>, c: Call)
    ensures var w := Exec(instances, steps);
      c in w.fills && w.fills[c].value.None? ==>
        WasRead(instances, steps + [Read(c)], c, w.fills[c].instance, w.fills[c].appId, InDb(w, w.fills[c].appId))
  {
    var w, more := Exec(instances, steps), steps + [Read(c)];
    assert more[..|steps|] == steps;
    if c in w.fills && w.fills[c].value.None? {
      var f := w.fills[c];
      assert ReadBy(instances, more, c, f.instance, f.appId, InDb(w, f.appId), |steps|);
    }
  }

  /** The entry a step writes, if it writes one. */
  predicate Writes(w: World, s: Step, i: Instance, a: AppId, e: Entry) {
    match s
    case Store(c) =>
      c in w.fills && w.fills[c].instance == i && w.fills[c].appId == a && w.fills[c].value == Some(Some(e.value))
      && e.expiresAt == w.now + CACHE_TTL_MS
    case Get(_, _) =>
      s.instance == i && s.appId == a && InDb(w, a) == Some(e.value) && Hit(CacheOf(w, i), a, w.now).None?
      && e.expiresAt == w.now + CACHE_TTL_MS
    case _ => false
  }

  lemma EntriesAreOldOrWritten(instances: set<Instance>, w: World, s: Step, i: Instance, a: AppId)
    ensures var w' := Next(instances, w, s);
      a in CacheOf(w', i) ==>
        (a in CacheOf(w, i) && CacheOf(w, i)[a] == CacheOf(w', i)[a]) || Writes(w, s, i, a, CacheOf(w', i)[a])
  {
  }

  /** The step makes the instance forget the application. */
  predicate Forgets(w: World, s: Step, i: Instance, a: AppId) {
    || s == Deliver(Message(i, a))
    || (s.Publish? && s.instance == i && s.call in w.unpublished && w.unpublished[s.call] == a)
  }

  lemma DroppingStays(instances: set<Instance>, w: World, s: Step, i: Instance, a: AppId)
    requires a in CacheOf(w, i) && !Forgets(w, s, i, a) && (s.Publish? || s.Deliver?)
    ensures a in CacheOf(Next(instances, w, s), i) && CacheOf(Next(instances, w, s), i)[a] == CacheOf(w, i)[a]
  {
  }

  lemma FillingStays(instances: set<Instance>, w: World, s: Step, i: Instance, a: AppId)
    requires a in CacheOf(w, i) && !s.Publish? && !s.Deliver?
    ensures a in CacheOf(Next(instances, w, s), i)
    ensures CacheOf(Next(instances, w, s), i)[a] == CacheOf(w, i)[a]
        || Writes(w, s, i, a, CacheOf(Next(instances, w, s), i)[a])
  {
  }

  /** An entry stays until its instance changes that application or hears of its change, or refills
      it; in particular it is served until it expires. */
  lemma EntriesStay(instances: set<Instance>, w: World, s: Step, i: Instance, a: AppId)
    requires a in CacheOf(w, i) && !Forgets(w, s, i, a)
    ensures var w' := Next(instances, w, s);
      && a in CacheOf(w', i)
      && (CacheOf(w', i)[a] == CacheOf(w, i)[a] || Writes(w, s, i, a, CacheOf(w', i)[a]))
  {
    if s.Publish? || s.Deliver? { DroppingStays(instances, w, s, i, a); } else { FillingStays(instances, w, s, i, a); }
  }

  lemma EntriesWereFilled(instances: set<Instance>, steps: seq<Step>, s: Step, i: Instance, a: AppId)
    requires Provenance(instances, steps)
    ensures var w' := Next(instances, Exec(instances, steps), s);
      a in CacheOf(w', i) ==> WasFilled(instances, steps + [s], i, a, CacheOf(w', i)[a])
  {
    var w := Exec(instances, steps);
    var w' := Next(instances, w, s);
    if a in CacheOf(w', i) {
      EntriesAreOldOrWritten(instances, w, s, i, a);
      var e := CacheOf(w', i)[a];
      if Writes(w, s, i, a, e) {
        if s.Store? { StoreIsAFill(instances, steps, s.call); } else { GetIsAFill(instances, steps, i, a); }
      } else {
        FilledGrows(instances, steps, s, i, a, e);
      }
    }
  }

  /** A loaded fill was loaded before the step, by a read the step does not end, or by the step. */
  lemma LoadedFills(instances: set<Instance>, w: World, s: Step, c: Call)
    requires var w' := Next(instances, w, s); c in w'.fills && w'.fills[c].value.Some?
    ensures var w' := Next(instances, w, s);
      && c in w.fills && w'.fills[c].instance == w.fills[c].instance && w'.fills[c].appId == w.fills[c].appId
      && (if w.fills[c].value.Some? then s != Store(c) && w'.fills[c] == w.fills[c]
          else s == Read(c) && w'.fills[c].value == Some(InDb(w, w.fills[c].appId)))
  {
  }

  lemma FillsWereRead(instances: set<Instance>, steps: seq<Step>, s: Step, c: Call)
    requires Provenance(instances, steps)
    ensures var w' := Next(instances, Exec(instances, steps), s);
      c in w'.fills && w'.fills[c].value.Some? ==>
        WasRead(instances, steps + [s], c, w'.fills[c].instance, w'.fills[c].appId, w'.fills[c].value.value)
  {
    var w := Exec(instances, steps);
    var w' := Next(instances, w, s);
    if c in w'.fills && w'.fills[c].value.Some? {
      LoadedFills(instances, w, s, c);
      var f := w.fills[c];
      if f.value.Some? {
        ReadGrows(instances, steps, s, c, f.instance, f.appId, f.value.value);
      } else {
        ReadIsARead(instances, steps, c);
      }
    }
  }

  lemma StepKeepsProvenance(instances: set<Instance>, steps: seq<Step>, s: Step)
    requires Provenance(instances, steps)
    ensures Provenance(instances, steps + [s])
  {
    ExecExtends(instances, steps, s);
    var w' := Exec(instances, steps + [s]);
    forall i, a | i in w'.caches && a in w'.caches[i]
      ensures WasFilled(instances, steps + [s], i, a, w'.caches[i][a])
    {
      EntriesWereFilled(instances, steps, s, i, a);
    }
    forall c | c in w'.fills && w'.fills[c].value.Some?
      ensures WasRead(instances, steps + [s], c, w'.fills[c].instance, w'.fills[c].appId, w'.fills[c].value.value)
    {
      FillsWereRead(instances, steps, s, c);
    }
  }

  lemma {:induction false} RunsKeepProvenance(instances: set<Instance>, steps: seq<Step>)
    ensures Provenance(instances, steps)
  {
    if steps != [] {
      RunsKeepProvenance(instances, steps[..|steps| - 1]);
      StepKeepsProvenance(instances, steps[..|steps| - 1], steps[|steps| - 1]);
      assert steps[..|steps| - 1] + [steps[|steps| - 1]] == steps;
    }
  }

  function ServedAt(s: Step, w: World): Instance
    requires Served(w, s).Some?
  {
    match s
    case Look(_, i, _) => i
    case Get(i, _) => i
    case Store(c) => w.fills[c].instance
  }

  /** Every value served was the database's at step `j`, where the fill that stored it at step `k`, or
      is serving it now, read it; and that store is less than five minutes old. So the value is never
      older than five minutes plus the duration of that one fill, with every invalidation lost or late
      if need be. */
  lemma StalenessIsBounded(instances: set<Instance>, steps: seq<Step>, s: Step) returns (j: nat, k: nat)
    requires Served(Exec(instances, steps), s).Some?
    ensures var w := Exec(instances, steps);
      FilledBy(instances, steps + [s], ServedAt(s, w), ServedFor(w, s), Served(w, s).value, j, k)
    ensures j <= k <= |steps|
    ensures k < |steps| ==> TimeAt(instances, steps, |steps|) < TimeAt(instances, steps, k) + 300_000
    ensures TimeAt(instances, steps, |steps|) - TimeAt(instances, steps, j)
            <= 300_000 + (TimeAt(instances, steps, k) - TimeAt(instances, steps, j))
  {
    var w := Exec(instances, steps);
    assert steps[..|steps|] == steps && (steps + [s])[..|steps|] == steps;
    RunsKeepProvenance(instances, steps);
    if s.Store? {
      var f := w.fills[s.call];
      assert WasRead(instances, steps, s.call, f.instance, f.appId, f.value.value);
      j :| ReadBy(instances, steps, s.call, f.instance, f.appId, f.value.value, j);
      k := |steps|;
      assert (steps + [s])[..j] == steps[..j];
    } else if s.Get? && Hit(CacheOf(w, s.instance), s.appId, w.now).None? {
      j, k := |steps|, |steps|;
    } else {
      j, k := HitWasFilled(instances, steps, s, s.instance, s.appId);
    }
  }

  lemma HitWasFilled(instances: set<Instance>, steps: seq<Step>, s: Step, i: Instance, a: AppId)
      returns (j: nat, k: nat)
    requires Provenance(instances, steps)
    requires var w := Exec(instances, steps); Hit(CacheOf(w, i), a, w.now).Some?
    ensures j <= k < |steps| && TimeAt(instances, steps, |steps|) < TimeAt(instances, steps, k) + CACHE_TTL_MS
    ensures FilledBy(instances, steps + [s], i, a, CacheOf(Exec(instances, steps), i)[a].value, j, k)
  {
    var e := CacheOf(Exec(instances, steps), i)[a];
    assert WasFilled(instances, steps, i, a, e);
    j, k :| FilledBy(instances, steps, i, a, e.value, j, k) && StoredAt(instances, steps, e, k);
    assert steps[..|steps|] == steps && (steps + [s])[..j] == steps[..j] && (steps + [s])[..k] == steps[..k];
  }

  /** The read of a fill is unique, so the duration is that of the one fill. */
  lemma OneReadPerFill(
      instances: set<Instance>, steps: seq<Step>, c: Call, f: Fill, g: Fill, j: nat, l: nat, k: nat)
    requires OpenFill(instances, steps, c, f.instance, f.appId, j, k)
    requires OpenFill(instances, steps, c, g.instance, g.appId, l, k)
    ensures j == l
  {
    if j < l {
      ReadLoads(instances, steps, c, j);
      LoadedStays(instances, steps, c, j, l);
    } else if l < j {
      ReadLoads(instances, steps, c, l);
      LoadedStays(instances, steps, c, l, j);
    }
  }

  ghost predicate LoadedAt(instances: set<Instance>, steps: seq<Step>, c: Call, n: nat) {
    && n <= |steps|
    && c in Exec(instances, steps[..n]).fills && Exec(instances, steps[..n]).fills[c].value.Some?
  }

  lemma ReadLoads(instances: set<Instance>, steps: seq<Step>, c: Call, n: nat)
    requires n < |steps| && steps[n] == Read(c) && c in Exec(instances, steps[..n]).fills
    ensures LoadedAt(instances, steps, c, n + 1)
  {
    NextAfter(instances, steps, n);
  }

  lemma LoadedNext(instances: set<Instance>, steps: seq<Step>, c: Call, n: nat)
    requires n < |steps| && LoadedAt(instances, steps, c, n) && steps[n] != Store(c)
    ensures LoadedAt(instances, steps, c, n + 1)
  {
    NextAfter(instances, steps, n);
  }

  lemma {:induction false} LoadedStays(instances: set<Instance>, steps: seq<Step>, c: Call, j: nat, n: nat)
    requires j < n <= |steps| && LoadedAt(instances, steps, c, j + 1)
    requires forall m :: j < m < n ==> steps[m] != Store(c)
    ensures LoadedAt(instances, steps, c, n)
    decreases n
  {
    if n > j + 1 {
      LoadedStays(instances, steps, c, j, n - 1);
      LoadedNext(instances, steps, c, n - 1);
    }
  }

  // ---------------------------------------------------------------- currency

  ghost predicate Pending(w: World, i: Instance, a: AppId) {
    (exists c :: c in w.unpublished && w.unpublished[c] == a) || Message(i, a) in w.inbox
  }

  ghost predicate Current(instances: set<Instance>, w: World) {
    forall i, a :: i in instances ==> CurrentAt(w, i, a)
  }

  ghost predicate CurrentAt(w: World, i: Instance, a: AppId) {
    a in CacheOf(w, i) && !Pending(w, i, a) ==> InDb(w, a) == Some(CacheOf(w, i)[a].value)
  }

  lemma PublishKeepsCurrent(instances: set<Instance>, w: World, c: Call, p: Instance, i: Instance, a: AppId)
    requires CurrentAt(w, i, a) && i in instances
    ensures CurrentAt(Next(instances, w, Publish(c, p)), i, a)
  {
    var w' := Next(instances, w, Publish(c, p));
    if c in w.unpublished && Pending(w, i, a) && Message(i, a) !in w.inbox {
      var d :| d in w.unpublished && w.unpublished[d] == a;
      if d == c { assert Message(i, a) in Broadcast(instances, a); } else { assert d in w'.unpublished; }
    }
  }

  lemma CommitKeepsCurrent(instances: set<Instance>, w: World, c: Call, b: AppId, v: App, i: Instance, a: AppId)
    requires CurrentAt(w, i, a)
    ensures CurrentAt(Next(instances, w, Commit(c, b, v)), i, a)
  {
    var w' := Next(instances, w, Commit(c, b, v));
    if c !in w.unpublished {
      assert c in w'.unpublished && w'.unpublished[c] == b;
      if Pending(w, i, a) && Message(i, a) !in w.inbox {
        var d :| d in w.unpublished && w.unpublished[d] == a;
        assert d in w'.unpublished && w'.unpublished[d] == a;
      }
    }
  }

  lemma DeliverKeepsCurrent(instances: set<Instance>, w: World, m: Message, i: Instance, a: AppId)
    requires CurrentAt(w, i, a)
    ensures CurrentAt(Next(instances, w, Deliver(m)), i, a)
  {
    var w' := Next(instances, w, Deliver(m));
    assert w'.unpublished == w.unpublished;
    if m != Message(i, a) { assert Message(i, a) in w.inbox ==> Message(i, a) in w'.inbox; }
  }

  lemma OthersKeepCurrent(instances: set<Instance>, w: World, s: Step, i: Instance, a: AppId)
    requires CurrentAt(w, i, a) && (s.Tick? || s.Look? || s.Read? || s.Get?)
    ensures CurrentAt(Next(instances, w, s), i, a)
  {
    var w' := Next(instances, w, s);
    assert w'.db == w.db && w'.unpublished == w.unpublished && w'.inbox == w.inbox;
  }

  lemma StepKeepsCurrent(instances: set<Instance>, w: World, s: Step)
    requires Current(instances, w) && !s.Store? && !s.Lose?
    ensures Current(instances, Next(instances, w, s))
  {
    forall i, a | i in instances ensures CurrentAt(Next(instances, w, s), i, a) {
      assert CurrentAt(w, i, a);
      match s
      case Publish(c, p) => PublishKeepsCurrent(instances, w, c, p, i, a);
      case Commit(c, b, v) => CommitKeepsCurrent(instances, w, c, b, v, i, a);
      case Deliver(m) => DeliverKeepsCurrent(instances, w, m, i, a);
      case _ => OthersKeepCurrent(instances, w, s, i, a);
    }
  }

  lemma LeavesOthersAlone(instances: set<Instance>, w: World, s: Step, i: Instance, a: AppId)
    requires CurrentAt(w, i, a)
    requires s.Store? || s.Lose?
    requires s.Store? && s.call in w.fills ==> w.fills[s.call].instance != i || w.fills[s.call].appId != a
    requires s.Lose? ==> s.message != Message(i, a)
    ensures CurrentAt(Next(instances, w, s), i, a)
  {
    var w' := Next(instances, w, s);
    assert w'.db == w.db && w'.unpublished == w.unpublished;
    assert Message(i, a) in w'.inbox <==> Message(i, a) in w.inbox;
  }

  /** A fill about to store a value the database no longer has, with no invalidation pending for its
      instance. */
  ghost predicate StaleStore(instances: set<Instance>, w: World, c: Call) {
    && c in w.fills && w.fills[c].value.Some? && w.fills[c].value.value.Some? && w.fills[c].instance in instances
    && InDb(w, w.fills[c].appId) != w.fills[c].value.value
    && !Pending(w, w.fills[c].instance, w.fills[c].appId)
  }

  /** The last invalidation pending for an entry the database no longer agrees with. */
  ghost predicate StaleLoss(instances: set<Instance>, w: World, m: Message) {
    && m.instance in instances && m.appId in CacheOf(w, m.instance)
    && InDb(w, m.appId) != Some(CacheOf(w, m.instance)[m.appId].value)
    && w.inbox[m] == 1 && forall c :: c in w.unpublished ==> w.unpublished[c] != m.appId
  }

  ghost predicate Breaks(instances: set<Instance>, w: World, s: Step) {
    match s
    case Store(c) => StaleStore(instances, w, c)
    case Lose(m) => StaleLoss(instances, w, m)
    case _ => false
  }

  lemma StoreBreaksIff(instances: set<Instance>, w: World, c: Call)
    requires Current(instances, w)
    ensures Current(instances, Next(instances, w, Store(c))) <==> !StaleStore(instances, w, c)
  {
    var w' := Next(instances, w, Store(c));
    if c in w.fills {
      var f := w.fills[c];
      forall i, a | i in instances && (i != f.instance || a != f.appId) ensures CurrentAt(w', i, a) {
        assert CurrentAt(w, i, a);
        LeavesOthersAlone(instances, w, Store(c), i, a);
      }
      if f.instance in instances {
        assert CurrentAt(w, f.instance, f.appId);
        assert Pending(w', f.instance, f.appId) <==> Pending(w, f.instance, f.appId);
        assert CurrentAt(w', f.instance, f.appId) <==> !StaleStore(instances, w, c);
      }
    }
  }

  lemma LossBreaksIff(instances: set<Instance>, w: World, m: Message)
    requires Current(instances, w)
    ensures Current(instances, Next(instances, w, Lose(m))) <==> !StaleLoss(instances, w, m)
  {
    var w' := Next(instances, w, Lose(m));
    forall i, a | i in instances && Message(i, a) != m ensures CurrentAt(w', i, a) {
      assert CurrentAt(w, i, a);
      LeavesOthersAlone(instances, w, Lose(m), i, a);
    }
    if m.instance in instances {
      assert CurrentAt(w, m.instance, m.appId);
      assert Pending(w', m.instance, m.appId) <==>
             (exists c :: c in w.unpublished && w.unpublished[c] == m.appId) || w.inbox[m] > 1;
      assert CurrentAt(w', m.instance, m.appId) <==> !StaleLoss(instances, w, m);
    }
  }

  /** From a current state, exactly two kinds of step leave one that is not. */
  lemma BreaksIff(instances: set<Instance>, w: World, s: Step)
    requires Current(instances, w)
    ensures Current(instances, Next(instances, w, s)) <==> !Breaks(instances, w, s)
  {
    match s
    case Store(c) => StoreBreaksIff(instances, w, c);
    case Lose(m) => LossBreaksIff(instances, w, m);
    case _ => StepKeepsCurrent(instances, w, s);
  }

  ghost predicate CurrentAfter(instances: set<Instance>, steps: seq<Step>, n: nat)
    requires n <= |steps|
  {
    Current(instances, Exec(instances, steps[..n]))
  }

  ghost predicate BreaksAt(instances: set<Instance>, steps: seq<Step>, k: nat)
    requires k < |steps|
  {
    Breaks(instances, Exec(instances, steps[..k]), steps[k])
  }

  ghost predicate Unbroken(instances: set<Instance>, steps: seq<Step>) {
    forall k :: 0 <= k < |steps| ==> !BreaksAt(instances, steps, k)
  }

  lemma NextAfter(instances: set<Instance>, steps: seq<Step>, n: nat)
    requires n < |steps|
    ensures Exec(instances, steps[..n + 1]) == Next(instances, Exec(instances, steps[..n]), steps[n])
  {
    assert steps[..n + 1] == steps[..n] + [steps[n]];
    ExecExtends(instances, steps[..n], steps[n]);
  }

  lemma {:induction false} UnbrokenIsCurrent(instances: set<Instance>, steps: seq<Step>, n: nat)
    requires n <= |steps| && forall k :: 0 <= k < n ==> !BreaksAt(instances, steps, k)
    ensures CurrentAfter(instances, steps, n)
  {
    if n == 0 {
      assert steps[..0] == [] && Exec(instances, []) == START;
      assert forall i, a :: CurrentAt(START, i, a);
    } else {
      UnbrokenIsCurrent(instances, steps, n - 1);
      NextAfter(instances, steps, n - 1);
      assert !BreaksAt(instances, steps, n - 1) && CurrentAfter(instances, steps, n - 1);
      BreaksIff(instances, Exec(instances, steps[..n - 1]), steps[n - 1]);
    }
  }

  /** In every run, with split fills and lost publications: an instance's cached value differs from
      the database only while an invalidation for it is pending, in every state of the run, if and
      only if no step of the run stores a stale value or loses a last invalidation. */
  lemma CurrentIffUnbroken(instances: set<Instance>, steps: seq<Step>)
    ensures (forall n :: 0 <= n <= |steps| ==> CurrentAfter(instances, steps, n)) <==> Unbroken(instances, steps)
  {
    if Unbroken(instances, steps) {
      forall n | 0 <= n <= |steps| ensures CurrentAfter(instances, steps, n) { UnbrokenIsCurrent(instances, steps, n); }
    }
    if forall n :: 0 <= n <= |steps| ==> CurrentAfter(instances, steps, n) {
      forall k | 0 <= k < |steps| ensures !BreaksAt(instances, steps, k) {
        assert CurrentAfter(instances, steps, k) && CurrentAfter(instances, steps, k + 1);
        NextAfter(instances, steps, k);
        BreaksIff(instances, Exec(instances, steps[..k]), steps[k]);
      }
    }
  }

  /** The application changes between one fill's read at `j` and that fill's store at `k`. */
  ghost predicate Disturbs(instances: set<Instance>, steps: seq<Step>, i: Instance, j: nat, m: nat, k: nat) {
    && j < m < k < |steps| && steps[k].Store? && steps[m].Commit?
    && OpenFill(instances, steps, steps[k].call, i, steps[m].appId, j, k)
  }

  lemma {:induction false} DatabaseRests(instances: set<Instance>, steps: seq<Step>, j: nat, k: nat, a: AppId)
    requires j <= k <= |steps| && forall m :: j <= m < k ==> !(steps[m].Commit? && steps[m].appId == a)
    ensures InDb(Exec(instances, steps[..j]), a) == InDb(Exec(instances, steps[..k]), a)
    decreases k
  {
    if j < k {
      DatabaseRests(instances, steps, j, k - 1, a);
      NextAfter(instances, steps, k - 1);
      OnlyCommitsWrite(instances, Exec(instances, steps[..k - 1]), steps[k - 1], a);
    }
  }

  lemma OnlyCommitsWrite(instances: set<Instance>, w: World, s: Step, a: AppId)
    requires !(s.Commit? && s.appId == a)
    ensures InDb(Next(instances, w, s), a) == InDb(w, a)
  {
  }

  lemma OpenInPrefix(instances: set<Instance>, steps: seq<Step>, c: Call, i: Instance, a: AppId, j: nat, k: nat)
    requires k <= |steps| && OpenFill(instances, steps[..k], c, i, a, j, k)
    ensures OpenFill(instances, steps, c, i, a, j, k)
  {
    assert steps[..k][..j] == steps[..j];
  }

  lemma UndisturbedStoreIsFresh(instances: set<Instance>, steps: seq<Step>, k: nat)
    requires k < |steps| && steps[k].Store? && forall i, j, m :: !Disturbs(instances, steps, i, j, m, k)
    ensures !BreaksAt(instances, steps, k)
  {
    var before := steps[..k];
    var w, c := Exec(instances, before), steps[k].call;
    if c in w.fills && w.fills[c].value.Some? {
      RunsKeepProvenance(instances, before);
      var f := w.fills[c];
      assert WasRead(instances, before, c, f.instance, f.appId, f.value.value);
      var j: nat :| ReadBy(instances, before, c, f.instance, f.appId, f.value.value, j);
      assert before[..j] == steps[..j];
      OpenInPrefix(instances, steps, c, f.instance, f.appId, j, k);
      forall m | j <= m < k ensures !(steps[m].Commit? && steps[m].appId == f.appId) {
        assert !Disturbs(instances, steps, f.instance, j, m, k);
      }
      DatabaseRests(instances, steps, j, k, f.appId);
    }
  }

  /** So split fills keep every instance current as long as no application changes between a fill's
      read of it and its store, and no publication is lost; fills made at one moment always do. */
  lemma UndisturbedRunsStayCurrent(instances: set<Instance>, steps: seq<Step>)
    requires forall k :: 0 <= k < |steps| ==> !steps[k].Lose?
    requires forall i, j, m, k :: !Disturbs(instances, steps, i, j, m, k)
    ensures forall n :: 0 <= n <= |steps| ==> CurrentAfter(instances, steps, n)
  {
    forall k | 0 <= k < |steps| ensures !BreaksAt(instances, steps, k) {
      if steps[k].Store? { UndisturbedStoreIsFresh(instances, steps, k); }
    }
    CurrentIffUnbroken(instances, steps);
  }

  /** In a run without such a step an instance serves anything but the database's value only while an
      invalidation for it is still to be published or delivered. */
  lemma QuietInstancesServeTheDatabase(instances: set<Instance>, steps: seq<Step>, i: Instance, a: AppId)
    requires Unbroken(instances, steps) && i in instances
    ensures var w := Exec(instances, steps);
      Served(w, Get(i, a)) == InDb(w, a) || Pending(w, i, a)
  {
    CurrentIffUnbroken(instances, steps);
    assert steps[..|steps|] == steps && CurrentAfter(instances, steps, |steps|);
    assert CurrentAt(Exec(instances, steps), i, a);
  }

  // ---------------------------------------------------------------- a stale store happens

  /** Application 7 changes to `v`, and the change reaches instance 0. */
  function Change(c: Call, v: App): seq<Step> { [Commit(c, 7, v), Publish(c, 0), Deliver(Message(0, 7))] }

  ghost predicate Settled(w: World, v: App) {
    w.unpublished == map[] && w.inbox == multiset{} && CacheOf(w, 0) == map[] && InDb(w, 7) == Some(v)
  }

  lemma ChangeSettles(steps: seq<Step>, c: Call, v: App)
    requires var w := Exec({0}, steps); w.unpublished == map[] && w.inbox == multiset{} && CacheOf(w, 0) == map[]
    ensures Settled(Exec({0}, steps + Change(c, v)), v)
    ensures Exec({0}, steps + Change(c, v)).fills == Exec({0}, steps).fills
  {
    var w := Exec({0}, steps);
    var w1 := Next({0}, w, Commit(c, 7, v));
    var w2 := Next({0}, w1, Publish(c, 0));
    assert (set i: Instance | i in {0} :: Message(i, 7)) == {Message(0, 7)};
    assert w2.inbox == multiset{Message(0, 7)};
    ExecExtends({0}, steps, Commit(c, 7, v));
    ExecExtends({0}, steps + [Commit(c, 7, v)], Publish(c, 0));
    ExecExtends({0}, steps + [Commit(c, 7, v)] + [Publish(c, 0)], Deliver(Message(0, 7)));
    assert steps + [Commit(c, 7, v)] + [Publish(c, 0)] + [Deliver(Message(0, 7))] == steps + Change(c, v);
  }

  lemma FillReads(steps: seq<Step>, v: App)
    requires Settled(Exec({0}, steps), v) && Exec({0}, steps).fills == map[]
    ensures var w := Exec({0}, steps + [Look(2, 0, 7)] + [Read(2)]);
      Settled(w, v) && w.fills == map[2 := Fill(0, 7, Some(Some(v)))]
  {
    ExecExtends({0}, steps, Look(2, 0, 7));
    ExecExtends({0}, steps + [Look(2, 0, 7)], Read(2));
  }

  lemma StoredStale(w: World, v: App, u: App)
    requires Settled(w, u) && w.fills == map[2 := Fill(0, 7, Some(Some(v)))]
    ensures var w' := Next({0}, w, Store(2));
      InDb(w', 7) == Some(u) && Served(w', Get(0, 7)) == Some(v) && !Pending(w', 0, 7)
  {
  }

  function LateRun(v: App, u: App): seq<Step> { Change(1, v) + [Look(2, 0, 7)] + [Read(2)] + Change(3, u) + [Store(2)] }

  /** A run with such a step: a fill that read before a change and stores after its delivery leaves a
      stale entry with nothing pending. */
  lemma LateStoreOutlivesInvalidation(v: App, u: App)
    ensures var w := Exec({0}, LateRun(v, u));
      InDb(w, 7) == Some(u) && Served(w, Get(0, 7)) == Some(v) && !Pending(w, 0, 7)
  {
    ChangeSettles([], 1, v);
    assert [] + Change(1, v) == Change(1, v);
    FillReads(Change(1, v), v);
    var reading := Change(1, v) + [Look(2, 0, 7)] + [Read(2)];
    ChangeSettles(reading, 3, u);
    ExecExtends({0}, reading + Change(3, u), Store(2));
    StoredStale(Exec({0}, reading + Change(3, u)), v, u);
  }
}
