/**
 The per-address fixed-window rate limiter, its one-call specification, and what every
 interleaving of the threads that share it preserves.
 */
module RateLimiter {
  import opened Octets

  /** The octets of a client address. */
  type Ip = Bytes

  datatype Bucket = Bucket(windowStart: nat, count: nat)

  type Buckets = map<Ip, Bucket>

  /** Window length in clock ticks and admissions per window. */
  datatype Limits = Limits(window: nat, quota: u32) {
    predicate Enabled() { quota > 0 && window > 0 }
  }

  const PRUNE_ABOVE: nat := 1024

  /** `Instant::duration_since`, which saturates at zero. */
  function Elapsed(now: nat, start: nat): nat { if now >= start then now - start else 0 }

  // ----- one call --------------------------------------------------------------

  function LiveOnly(state: Buckets, now: nat, window: nat): Buckets {
    map ip | ip in state && Elapsed(now, state[ip].windowStart) < window :: state[ip]
  }

  function Pruned(state: Buckets, now: nat, window: nat): Buckets {
    if |state| > PRUNE_ABOVE then LiveOnly(state, now, window) else state
  }

  /** How a call was decided: a new bucket, a new window in an old bucket, one more
      admission in the window, or a denial. */
  datatype Kind = Fresh | Reset | Counted | Denied

  function Decide(bucket: Option<Bucket>, now: nat, limits: Limits): Kind {
    if bucket.None? then Fresh
    else if Elapsed(now, bucket.value.windowStart) >= limits.window then Reset
    else if bucket.value.count >= limits.quota then Denied
    else Counted
  }

  function Lookup(state: Buckets, ip: Ip): Option<Bucket> { if ip in state then Some(state[ip]) else None }

  function AfterCall(bucket: Option<Bucket>, now: nat, limits: Limits): Bucket {
    match Decide(bucket, now, limits)
    case Fresh => Bucket(now, 1)
    case Reset => Bucket(now, 1)
    case Counted => Bucket(bucket.value.windowStart, bucket.value.count + 1)
    case Denied => bucket.value
  }

  /** One enabled call: the new map, and how the call was decided. */
  function CallStep(state: Buckets, ip: Ip, now: nat, limits: Limits): (Buckets, Kind) {
    var kept := Pruned(state, now, limits.window);
    var bucket := Lookup(kept, ip);
    (kept[ip := AfterCall(bucket, now, limits)], Decide(bucket, now, limits))
  }

  class Limiter {
    const limits: Limits
    var state: Buckets

    constructor (window: nat, quota: u32)
      ensures limits == Limits(window, quota) && state == map[]
    {
      limits := Limits(window, quota);
      state := map[];
    }

    /** `check`, with the clock reading taken before the lock. */
    method Check(ip: Ip, now: nat) returns (allowed: bool)
      modifies this
      ensures limits.quota == 0 || limits.window == 0 ==> allowed && state == old(state)
      ensures limits.quota > 0 && limits.window > 0 ==>
                && state == CallStep(old(state), ip, now, limits).0
                && (allowed <==> !CallStep(old(state), ip, now, limits).1.Denied?)
    {
      if !limits.Enabled() {
        return true;
      }
      if |state| > PRUNE_ABOVE {
        state := LiveOnly(state, now, limits.window);
      }
      if ip !in state {
        state := state[ip := Bucket(now, 0)];
      }
      var bucket := state[ip];
      if Elapsed(now, bucket.windowStart) >= limits.window {
        state := state[ip := Bucket(now, 1)];
        return true;
      }
      if bucket.count >= limits.quota {
        return false;
      }
      state := state[ip := Bucket(bucket.windowStart, bucket.count + 1)];
      return true;
    }
  }

  // ----- threads that share the limiter ----------------------------------------

  /** A thread is idle, or has read the clock for a call and waits for the lock. */
  datatype Thread = Idle | Sampled(ip: Ip, now: nat)

  /** One decided call, in lock order. */
  datatype Entry = Entry(ip: Ip, now: nat, kind: Kind)

  datatype Machine = Machine(clock: nat, threads: seq<Thread>, state: Buckets, log: seq<Entry>)

  predicate Init(m: Machine) { m.state == map[] && m.log == [] && forall t | t in m.threads :: t.Idle? }

  predicate Tick(m: Machine, next: Machine) { next.clock >= m.clock && next == m.(clock := next.clock) }

  predicate Sample(m: Machine, next: Machine, tid: nat, ip: Ip) {
    && tid < |m.threads| && m.threads[tid].Idle?
    && next == m.(threads := m.threads[tid := Sampled(ip, m.clock)])
  }

  predicate Commit(m: Machine, next: Machine, tid: nat, limits: Limits) {
    && tid < |m.threads| && m.threads[tid].Sampled?
    && var Sampled(ip, now) := m.threads[tid];
       var (state, kind) := CallStep(m.state, ip, now, limits);
       next == m.(threads := m.threads[tid := Idle], state := state, log := m.log + [Entry(ip, now, kind)])
  }

  ghost predicate Step(m: Machine, next: Machine, limits: Limits) {
    || Tick(m, next)
    || (exists tid, ip :: Sample(m, next, tid, ip))
    || (exists tid :: Commit(m, next, tid, limits))
  }

  /** Any sequence of steps from an initial state. */
  ghost predicate Behavior(trace: seq<Machine>, limits: Limits) {
    && trace != [] && Init(trace[0])
    && forall i | 0 <= i < |trace| - 1 :: Step(trace[i], trace[i + 1], limits)
  }

  /** Start of the address's current window in the log and the admissions since. */
  function CurrentWindow(log: seq<Entry>, ip: Ip): Option<Bucket> {
    if log == [] then None
    else
      var before, last := CurrentWindow(log[..|log| - 1], ip), log[|log| - 1];
      if last.ip != ip then before
      else
        match last.kind
        case Fresh => Some(Bucket(last.now, 1))
        case Reset => Some(Bucket(last.now, 1))
        case Counted => if before.None? then None else Some(Bucket(before.value.windowStart, before.value.count + 1))
        case Denied => before
  }

  /** Every bucket is the log's account of the address's current window, within the quota. */
  ghost predicate Conserved(m: Machine, limits: Limits) {
    forall ip | ip in m.state ::
      CurrentWindow(m.log, ip) == Some(m.state[ip]) && 1 <= m.state[ip].count <= limits.quota
  }

  /** The bucket's window is over at this reading. */
  predicate Over(bucket: Bucket, now: nat, limits: Limits) { now >= bucket.windowStart + limits.window }

  /** The addresses whose window is not over at this reading. */
  function Live(state: Buckets, now: nat, limits: Limits): set<Ip> { set ip | ip in state && !Over(state[ip], now, limits) }

  /** What one decided call does to the caller's own bucket, by kind. */
  ghost predicate OwnBucket(state: Buckets, next: Buckets, e: Entry, limits: Limits) {
    && e.ip in next
    && match e.kind
       case Fresh => next[e.ip] == Bucket(e.now, 1)
                     && (e.ip in state ==> |state| > 1024 && Over(state[e.ip], e.now, limits))
       case Reset => next[e.ip] == Bucket(e.now, 1)
                     && e.ip in state && e.now >= state[e.ip].windowStart + limits.window
       case Counted => e.ip in state && !Over(state[e.ip], e.now, limits) && state[e.ip].count < limits.quota
                       && next[e.ip] == Bucket(state[e.ip].windowStart, state[e.ip].count + 1)
       case Denied => e.ip in state && !Over(state[e.ip], e.now, limits) && state[e.ip].count == limits.quota
                      && next[e.ip] == state[e.ip]
  }

  /** What it does to the others: a bucket is dropped only from a crowded map and only once its
      window is over at the caller's reading; all others stay as they are. */
  ghost predicate OtherBuckets(state: Buckets, next: Buckets, e: Entry, limits: Limits) {
    && (forall ip | ip in next && ip != e.ip :: ip in state && next[ip] == state[ip])
    && (forall ip | ip in state && ip !in next :: |state| > 1024 && Over(state[ip], e.now, limits))
  }

  /** What a step may do: nothing to the map but by one decided call, which leaves it small.  A
      window restarts only when it is over at the caller's own reading, or was at the reading of
      the call that pruned it. */
  ghost predicate Disciplined(m: Machine, next: Machine, limits: Limits) {
    || (next.log == m.log && next.state == m.state)
    || (&& |next.log| == |m.log| + 1 && next.log[..|m.log|] == m.log
        && var e := next.log[|m.log|];
           && OwnBucket(m.state, next.state, e, limits) && OtherBuckets(m.state, next.state, e, limits)
           && |next.state| <= Max(1025, |Live(m.state, e.now, limits)| + 1))
  }

  lemma SizeAfterCall(state: Buckets, ip: Ip, now: nat, limits: Limits)
    ensures |CallStep(state, ip, now, limits).0| <= Max(1025, |Live(state, now, limits)| + 1)
  {
    hide LiveOnly, Live, AfterCall;
    if |state| > 1024 {
      PrunedAreLive(state, now, limits);
    }
    var kept := Pruned(state, now, limits.window);
    AtMostOneMore(kept, ip, AfterCall(Lookup(kept, ip), now, limits));
  }

  /** From a crowded map exactly those buckets are dropped whose window is over. */
  lemma PrunedAreLive(state: Buckets, now: nat, limits: Limits)
    requires |state| > 1024
    ensures |Pruned(state, now, limits.window)| <= |Live(state, now, limits)|
    ensures limits.Enabled() ==> Pruned(state, now, limits.window).Keys == Live(state, now, limits)
  {
    var pruned := Pruned(state, now, limits.window);
    assert pruned.Keys <= Live(state, now, limits);
    SubsetSize(pruned.Keys, Live(state, now, limits));
  }

  lemma SubsetSize<T>(a: set<T>, b: set<T>)
    requires a <= b
    ensures |a| <= |b|
  {
    assert b == a + (b - a);
  }

  lemma AtMostOneMore(state: Buckets, ip: Ip, bucket: Bucket)
    ensures |state[ip := bucket]| <= |state| + 1
  {
    assert state[ip := bucket].Keys == state.Keys + {ip};
    assert |state[ip := bucket].Keys| == |state[ip := bucket]| && |state.Keys| == |state|;
  }

  lemma CallIsDisciplined(state: Buckets, ip: Ip, now: nat, limits: Limits)
    requires limits.Enabled() && forall x | x in state :: state[x].count <= limits.quota
    ensures var (next, kind) := CallStep(state, ip, now, limits);
            OwnBucket(state, next, Entry(ip, now, kind), limits) && OtherBuckets(state, next, Entry(ip, now, kind), limits)
  {
    var kept := Pruned(state, now, limits.window);
    assert forall x | x in kept :: x in state && kept[x] == state[x];
    assert forall x | x in state && x !in kept :: |state| > PRUNE_ABOVE && Over(state[x], now, limits);
    hide Pruned;
  }

  /** A committed call keeps every bucket equal to its account, whatever its clock reading. */
  lemma CommitConserves(m: Machine, next: Machine, tid: nat, limits: Limits)
    requires limits.Enabled() && Conserved(m, limits) && Commit(m, next, tid, limits)
    ensures Conserved(next, limits) && Disciplined(m, next, limits)
  {
    var Sampled(ip, now) := m.threads[tid];
    var kept := Pruned(m.state, now, limits.window);
    SizeAfterCall(m.state, ip, now, limits);
    CallIsDisciplined(m.state, ip, now, limits);
    assert next.log[..|m.log|] == m.log;
    forall x | x in next.state
      ensures CurrentWindow(next.log, x) == Some(next.state[x]) && 1 <= next.state[x].count <= limits.quota
    {
      if x != ip {
        assert x in kept && kept[x] == m.state[x];
      } else if ip in kept {
        assert kept[ip] == m.state[ip];
      }
    }
  }

  /** Every state of every interleaving conserves counts, and every step is disciplined, though
      clock readings may reach the lock in any order.  A reading that comes late may so find its
      bucket pruned by a later reading, and start anew in a window that is not over for it. */
  lemma {:induction false} BehaviorConserves(trace: seq<Machine>, limits: Limits)
    requires limits.Enabled() && Behavior(trace, limits)
    ensures forall i | 0 <= i < |trace| :: Conserved(trace[i], limits)
    ensures forall i | 0 <= i < |trace| - 1 :: Disciplined(trace[i], trace[i + 1], limits)
  {
    if |trace| > 1 {
      var n := |trace| - 1;
      var init, m, next := trace[..n], trace[n - 1], trace[n];
      forall i | 0 <= i < |init| - 1 ensures Step(init[i], init[i + 1], limits) {
        assert init[i] == trace[i] && init[i + 1] == trace[i + 1];
      }
      BehaviorConserves(init, limits);
      assert init[n - 1] == m && Step(m, trace[n - 1 + 1], limits);
      assert Conserved(m, limits);
      StepConserves(m, next, limits);
      forall i | 0 <= i < |trace| ensures Conserved(trace[i], limits) {
        if i < n { assert trace[i] == init[i]; }
      }
      forall i | 0 <= i < |trace| - 1 ensures Disciplined(trace[i], trace[i + 1], limits) {
        if i < n - 1 { assert trace[i] == init[i] && trace[i + 1] == init[i + 1]; }
      }
    }
  }

  lemma StepConserves(m: Machine, next: Machine, limits: Limits)
    requires limits.Enabled() && Conserved(m, limits) && Step(m, next, limits)
    ensures Conserved(next, limits) && Disciplined(m, next, limits)
  {
    if exists tid :: Commit(m, next, tid, limits) {
      var tid :| Commit(m, next, tid, limits);
      CommitConserves(m, next, tid, limits);
    }
  }
}
