/** The token timer of a socket. A runtime timer waits at most 2,147,483,647 ms, so a longer wait is
    made of several timers; each one reads the clock when it fires and arms the next or disconnects. */
module ExpiryTimer {
  const MAXIMUM_DELAY := 2_147_483_647

  datatype Timer = Armed(at: int, delay: int) | Disconnected(at: int)

  function Min(a: int, b: int): int { if a <= b then a else b }
  function Max(a: int, b: int): int { if a >= b then a else b }

  function Arm(expiresAt: int, now: int): Timer { Armed(now, Min(Max(0, expiresAt - now), MAXIMUM_DELAY)) }

  /** One timer firing: the clock it reads in its check, and the clock the re-arming reads. */
  datatype Firing = Firing(checkedAt: int, armedAt: int)

  function Fire(expiresAt: int, t: Timer, f: Firing): Timer {
    match t
    case Armed(_, _) => if expiresAt - f.checkedAt > 0 then Arm(expiresAt, f.armedAt) else Disconnected(f.checkedAt)
    case Disconnected(_) => t
  }

  /** A socket with its timer. */
  class Client {
    const expiresAt: int
    var timer: Timer

    constructor (expiresAt: int, now: int)
      ensures this.expiresAt == expiresAt && timer == Arm(expiresAt, now)
    {
      this.expiresAt := expiresAt;
      new;
      ScheduleExpiry(now);
    }

    method ScheduleExpiry(now: int)
      modifies this
      ensures timer == Arm(expiresAt, now)
      ensures timer.Armed? && timer.at == now && 0 <= timer.delay <= 2_147_483_647
      ensures timer.delay == expiresAt - now || (timer.delay == 0 && expiresAt < now)
              || (timer.delay == 2_147_483_647 && timer.delay < expiresAt - now)
    {
      var remaining := if expiresAt - now > 0 then expiresAt - now else 0;
      timer := Armed(now, if remaining < MAXIMUM_DELAY then remaining else MAXIMUM_DELAY);
    }

    method OnTimer(f: Firing)
      requires timer.Armed?
      modifies this
      ensures timer == Fire(expiresAt, old(timer), f)
    {
      if expiresAt - f.checkedAt > 0 {
        ScheduleExpiry(f.armedAt);
        return;
      }
      timer := Disconnected(f.checkedAt);
    }
  }

  // ---------------------------------------------------------------- chains of timers

  function Exec(expiresAt: int, start: int, fs: seq<Firing>): Timer {
    if fs == [] then Arm(expiresAt, start) else Fire(expiresAt, Exec(expiresAt, start, fs[..|fs| - 1]), fs[|fs| - 1])
  }

  /** The clock never runs backwards between a check and its re-arming. */
  predicate Forward(fs: seq<Firing>) { forall k :: 0 <= k < |fs| ==> fs[k].checkedAt <= fs[k].armedAt }

  /** No timer fires before its delay has passed. */
  ghost predicate NeverEarly(expiresAt: int, start: int, fs: seq<Firing>) {
    forall k :: 0 <= k < |fs| && Exec(expiresAt, start, fs[..k]).Armed? ==>
      fs[k].checkedAt >= Exec(expiresAt, start, fs[..k]).at + Exec(expiresAt, start, fs[..k]).delay
  }

  /** Timers fire at most `late` ms late, and re-arming follows its check within `gap` ms. */
  ghost predicate Punctual(expiresAt: int, start: int, fs: seq<Firing>, late: nat, gap: nat) {
    && (forall k :: 0 <= k < |fs| ==> fs[k].armedAt <= fs[k].checkedAt + gap)
    && forall k :: 0 <= k < |fs| && Exec(expiresAt, start, fs[..k]).Armed? ==>
         fs[k].checkedAt <= Exec(expiresAt, start, fs[..k]).at + Exec(expiresAt, start, fs[..k]).delay + late
  }

  function Ceil(a: int, b: int): int
    requires b > 0
  {
    (a + b - 1) / b
  }

  function TimersNeeded(expiresAt: int, start: int): int { Max(1, Ceil(expiresAt - start, 2_147_483_647)) }

  /** However early or late timers fire, nothing is disconnected before its token expires. */
  lemma {:induction false} NeverBeforeExpiry(expiresAt: int, start: int, fs: seq<Firing>)
    ensures Exec(expiresAt, start, fs).Disconnected? ==> Exec(expiresAt, start, fs).at >= expiresAt
  {
    if fs != [] { NeverBeforeExpiry(expiresAt, start, fs[..|fs| - 1]); }
  }

  lemma PrefixesInherit(expiresAt: int, start: int, fs: seq<Firing>, n: nat)
    requires n <= |fs|
    ensures NeverEarly(expiresAt, start, fs) ==> NeverEarly(expiresAt, start, fs[..n])
    ensures forall late, gap :: Punctual(expiresAt, start, fs, late, gap) ==>
        Punctual(expiresAt, start, fs[..n], late, gap)
  {
    assert forall k :: 0 <= k < n ==> fs[..n][..k] == fs[..k];
  }

  /** A timer still armed after k firings has waited k full delays. */
  lemma {:induction false} FullDelaysPassed(expiresAt: int, start: int, fs: seq<Firing>)
    requires Forward(fs) && NeverEarly(expiresAt, start, fs) && Exec(expiresAt, start, fs).Armed?
    ensures Exec(expiresAt, start, fs).at >= start + |fs| * MAXIMUM_DELAY
    ensures fs != [] ==> start + |fs| * MAXIMUM_DELAY <= fs[|fs| - 1].checkedAt < expiresAt
  {
    if fs != [] {
      PrefixesInherit(expiresAt, start, fs, |fs| - 1);
      FullDelaysPassed(expiresAt, start, fs[..|fs| - 1]);
      ArmedDelay(expiresAt, start, fs[..|fs| - 1]);
    }
  }

  lemma ArmedDelay(expiresAt: int, start: int, fs: seq<Firing>)
    ensures var t := Exec(expiresAt, start, fs); t.Armed? ==> t == Arm(expiresAt, t.at)
  {
    if fs != [] && Exec(expiresAt, start, fs).Armed? { assert Exec(expiresAt, start, fs[..|fs| - 1]).Armed?; }
  }

  /** If no timer fires early, the chain is over after at most max(1, ceil(remaining / maximum))
      timers, for every expiry date. */
  lemma ChainIsShort(expiresAt: int, start: int, fs: seq<Firing>)
    requires Forward(fs) && NeverEarly(expiresAt, start, fs) && |fs| >= TimersNeeded(expiresAt, start)
    ensures Exec(expiresAt, start, fs).Disconnected?
  {
    CeilCovers(expiresAt - start, |fs|);
    if Exec(expiresAt, start, fs).Armed? { FullDelaysPassed(expiresAt, start, fs); }
  }

  lemma CeilCovers(remaining: int, n: nat)
    requires n >= Ceil(remaining, MAXIMUM_DELAY)
    ensures n * MAXIMUM_DELAY >= remaining
  {
  }

  /** The bound is reached: with timers that fire exactly on time, no shorter chain disconnects. */
  lemma {:induction false} ShorterChainsWait(expiresAt: int, start: int, fs: seq<Firing>)
    requires Punctual(expiresAt, start, fs, 0, 0) && |fs| < TimersNeeded(expiresAt, start)
    ensures Exec(expiresAt, start, fs).Armed? && Exec(expiresAt, start, fs).at <= start + |fs| * MAXIMUM_DELAY
  {
    if fs != [] {
      PrefixesInherit(expiresAt, start, fs, |fs| - 1);
      ShorterChainsWait(expiresAt, start, fs[..|fs| - 1]);
      ArmedDelay(expiresAt, start, fs[..|fs| - 1]);
      assert |fs| * MAXIMUM_DELAY < expiresAt - start;
    }
  }

  /** A punctual chain disconnects no later than its lateness after the token expires. */
  lemma DisconnectsPromptly(expiresAt: int, start: int, fs: seq<Firing>, late: nat, gap: nat)
    requires Punctual(expiresAt, start, fs, late, gap) && Exec(expiresAt, start, fs).Disconnected?
    ensures expiresAt <= Exec(expiresAt, start, fs).at <= Max(expiresAt, start) + gap + late
  {
    NeverBeforeExpiry(expiresAt, start, fs);
    LastFiring(expiresAt, start, fs, late, gap);
  }

  lemma {:induction false} LastFiring(expiresAt: int, start: int, fs: seq<Firing>, late: nat, gap: nat)
    requires Punctual(expiresAt, start, fs, late, gap)
    ensures var t := Exec(expiresAt, start, fs);
      if t.Armed? then t.at <= Max(expiresAt, start) + gap else t.at <= Max(expiresAt, start) + gap + late
  {
    if fs != [] {
      PrefixesInherit(expiresAt, start, fs, |fs| - 1);
      LastFiring(expiresAt, start, fs[..|fs| - 1], late, gap);
      ArmedDelay(expiresAt, start, fs[..|fs| - 1]);
    }
  }
}
