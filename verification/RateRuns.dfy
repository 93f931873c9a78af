/**
 Whole runs of the rate limiter: a never-pruning limiter it refines, the isolation of one
 client from the others, and the exact number of admissions a span of time can hold.
 */
module RateRuns {
  import opened Octets
  import opened RateLimiter

  datatype Call = Call(ip: Ip, now: nat)

  function Front<T>(s: seq<T>): seq<T> requires s != [] { s[..|s| - 1] }

  function Last<T>(s: seq<T>): T requires s != [] { s[|s| - 1] }

  ghost predicate Rising(times: seq<nat>) {
    forall i, j | 0 <= i < j < |times| :: times[i] <= times[j]
  }

  ghost predicate InOrder(calls: seq<Call>) {
    forall i, j | 0 <= i < j < |calls| :: calls[i].now <= calls[j].now
  }

  // ----- the limiter, the one that never prunes, and one client alone ----------

  /** The map after a run from the empty map. */
  function StateAfter(calls: seq<Call>, limits: Limits): Buckets {
    if calls == [] then map[]
    else CallStep(StateAfter(Front(calls), limits), Last(calls).ip, Last(calls).now, limits).0
  }

  /** What the limiter answers to every call of a run. */
  function Answers(calls: seq<Call>, limits: Limits): (r: seq<bool>)
    ensures |r| == |calls|
  {
    if calls == [] then []
    else
      var kind := CallStep(StateAfter(Front(calls), limits), Last(calls).ip, Last(calls).now, limits).1;
      Answers(Front(calls), limits) + [!kind.Denied?]
  }

  /** The map of a limiter without lines 60 to 63 of src/rate_limit.rs: no bucket is ever dropped. */
  function KeptAfter(calls: seq<Call>, limits: Limits): Buckets {
    if calls == [] then map[]
    else
      var kept, ip := KeptAfter(Front(calls), limits), Last(calls).ip;
      kept[ip := AfterCall(Lookup(kept, ip), Last(calls).now, limits)]
  }

  function KeptAnswers(calls: seq<Call>, limits: Limits): (r: seq<bool>)
    ensures |r| == |calls|
  {
    if calls == [] then []
    else
      var bucket := Lookup(KeptAfter(Front(calls), limits), Last(calls).ip);
      KeptAnswers(Front(calls), limits) + [!Decide(bucket, Last(calls).now, limits).Denied?]
  }

  /** One client's bucket, as if nobody else called. */
  function SoloBucket(times: seq<nat>, limits: Limits): Option<Bucket> {
    if times == [] then None else Some(AfterCall(SoloBucket(Front(times), limits), Last(times), limits))
  }

  function SoloAnswers(times: seq<nat>, limits: Limits): (r: seq<bool>)
    ensures |r| == |times|
  {
    if times == [] then []
    else SoloAnswers(Front(times), limits) + [!Decide(SoloBucket(Front(times), limits), Last(times), limits).Denied?]
  }

  /** The times of one client's calls in a run, and the answers given to that client. */
  function TimesOf(calls: seq<Call>, ip: Ip): seq<nat> {
    if calls == [] then []
    else TimesOf(Front(calls), ip) + if Last(calls).ip == ip then [Last(calls).now] else []
  }

  function AnswersTo(calls: seq<Call>, answers: seq<bool>, ip: Ip): (r: seq<bool>)
    requires |answers| == |calls|
    ensures |r| == |TimesOf(calls, ip)|
  {
    if calls == [] then []
    else AnswersTo(Front(calls), Front(answers), ip) + if Last(calls).ip == ip then [Last(answers)] else []
  }

  // ----- when pruning is invisible ---------------------------------------------

  /** The latest reading of a call that found the map crowded. */
  function Floor(calls: seq<Call>, limits: Limits): nat {
    if calls == [] then 0
    else
      var before := Floor(Front(calls), limits);
      if |StateAfter(Front(calls), limits)| > PRUNE_ABOVE then Max(before, Last(calls).now) else before
  }

  /** No call has an earlier reading than a previous call that found the map crowded. */
  ghost predicate NoLookingBack(calls: seq<Call>, limits: Limits) {
    calls == [] || (NoLookingBack(Front(calls), limits) && Last(calls).now >= Floor(Front(calls), limits))
  }

  lemma {:induction false} InOrderSuffices(calls: seq<Call>, limits: Limits)
    requires InOrder(calls)
    ensures NoLookingBack(calls, limits) && (calls != [] ==> Floor(calls, limits) <= Last(calls).now)
  {
    hide StateAfter;
    if calls != [] {
      InOrderSuffices(Front(calls), limits);
      assert Front(calls) != [] ==> Last(Front(calls)).now <= Last(calls).now;
    }
  }

  /** Readings in any order do, as long as the map stays uncrowded. */
  lemma {:induction false} QuietSuffices(calls: seq<Call>, limits: Limits)
    requires forall i | 0 <= i < |calls| :: |StateAfter(calls[..i], limits)| <= PRUNE_ABOVE
    ensures NoLookingBack(calls, limits) && Floor(calls, limits) == 0
  {
    hide StateAfter;
    if calls != [] {
      forall i | 0 <= i < |Front(calls)| ensures |StateAfter(Front(calls)[..i], limits)| <= PRUNE_ABOVE {
        assert Front(calls)[..i] == calls[..i];
      }
      QuietSuffices(Front(calls), limits);
      assert calls[..|calls| - 1] == Front(calls);
    }
  }

  /** The pruning map agrees with the full one except on buckets whose window is over. */
  ghost predicate Prunes(state: Buckets, kept: Buckets, floor: nat, limits: Limits) {
    && Within(state, kept)
    && (forall ip | ip in kept && ip !in state :: Over(kept[ip], floor, limits))
  }

  /** Every bucket of one map is a bucket of the other. */
  ghost predicate Within(state: Buckets, kept: Buckets) {
    forall ip | ip in state :: ip in kept && kept[ip] == state[ip]
  }

  lemma PrunesStep(state: Buckets, kept: Buckets, floor: nat, ip: Ip, now: nat, limits: Limits)
    requires limits.Enabled() && floor <= now && Prunes(state, kept, floor, limits)
    ensures CallStep(state, ip, now, limits).1.Denied? <==> Decide(Lookup(kept, ip), now, limits).Denied?
    ensures Prunes(CallStep(state, ip, now, limits).0, kept[ip := AfterCall(Lookup(kept, ip), now, limits)],
                   if |state| > PRUNE_ABOVE then now else floor, limits)
  {
    var small := Pruned(state, now, limits.window);
    assert Prunes(small, kept, now, limits);
  }

  lemma {:induction false} RunPrunes(calls: seq<Call>, limits: Limits)
    requires limits.Enabled() && NoLookingBack(calls, limits)
    ensures Prunes(StateAfter(calls, limits), KeptAfter(calls, limits), Floor(calls, limits), limits)
    ensures Answers(calls, limits) == KeptAnswers(calls, limits)
  {
    if calls != [] {
      hide CallStep, AfterCall, Decide;
      var front := Front(calls);
      RunPrunes(front, limits);
      PrunesStep(StateAfter(front, limits), KeptAfter(front, limits), Floor(front, limits), Last(calls).ip, Last(calls).now, limits);
    }
  }

  /** Unless a call looks back behind one that found the map crowded, the limiter answers as if it
      never pruned. */
  lemma PruningIsInvisible(calls: seq<Call>, limits: Limits)
    requires limits.Enabled() && NoLookingBack(calls, limits)
    ensures Answers(calls, limits) == KeptAnswers(calls, limits)
  {
    RunPrunes(calls, limits);
  }

  // ----- when it shows ---------------------------------------------------------

  /** The call finds its own bucket dropped although the window is not over at its reading. */
  ghost predicate LosesLive(state: Buckets, kept: Buckets, call: Call, limits: Limits) {
    && call.ip in kept && call.ip !in Pruned(state, call.now, limits.window) && !Over(kept[call.ip], call.now, limits)
  }

  /** It then opens another bucket than the one that was dropped; only a bucket of quota one that
      was opened at this very reading comes back the same. */
  ghost predicate Reopens(state: Buckets, kept: Buckets, call: Call, limits: Limits) {
    LosesLive(state, kept, call, limits) && !(limits.quota == 1 && kept[call.ip].windowStart == call.now)
  }

  /** It is admitted with its quota spent. */
  ghost predicate Refunds(state: Buckets, kept: Buckets, call: Call, limits: Limits) {
    LosesLive(state, kept, call, limits) && kept[call.ip].count >= limits.quota
  }

  /** From maps one of which lies within the other, the verdicts differ exactly on a refund. */
  lemma VerdictsDiffer(state: Buckets, kept: Buckets, call: Call, limits: Limits)
    requires limits.Enabled() && Within(state, kept)
    ensures (CallStep(state, call.ip, call.now, limits).1.Denied? != Decide(Lookup(kept, call.ip), call.now, limits).Denied?)
       <==> Refunds(state, kept, call, limits)
  {
    var small := Pruned(state, call.now, limits.window);
    assert Within(small, kept);
    hide Pruned;
  }

  lemma WithinStep(state: Buckets, kept: Buckets, call: Call, limits: Limits)
    requires limits.Enabled() && Within(state, kept) && forall ip | ip in kept :: 1 <= kept[ip].count <= limits.quota
    ensures Within(CallStep(state, call.ip, call.now, limits).0, kept[call.ip := AfterCall(Lookup(kept, call.ip), call.now, limits)])
       <==> !Reopens(state, kept, call, limits)
  {
    var small := Pruned(state, call.now, limits.window);
    var next := CallStep(state, call.ip, call.now, limits).0;
    assert Within(small, kept);
    hide Pruned;
    assert call.ip in next;
  }

  lemma {:induction false} KeptCounts(calls: seq<Call>, limits: Limits)
    requires limits.Enabled()
    ensures forall ip | ip in KeptAfter(calls, limits) :: 1 <= KeptAfter(calls, limits)[ip].count <= limits.quota
  {
    if calls != [] {
      KeptCounts(Front(calls), limits);
    }
  }

  /** All along the run the limiter's buckets are buckets of the one that never prunes. */
  ghost predicate StaysWithin(calls: seq<Call>, limits: Limits) {
    calls == []
    || (StaysWithin(Front(calls), limits) && Within(StateAfter(calls, limits), KeptAfter(calls, limits)))
  }

  ghost predicate NeverReopens(calls: seq<Call>, limits: Limits) {
    calls == []
    || (&& NeverReopens(Front(calls), limits)
        && !Reopens(StateAfter(Front(calls), limits), KeptAfter(Front(calls), limits), Last(calls), limits))
  }

  ghost predicate NeverRefunds(calls: seq<Call>, limits: Limits) {
    calls == []
    || (&& NeverRefunds(Front(calls), limits)
        && !Refunds(StateAfter(Front(calls), limits), KeptAfter(Front(calls), limits), Last(calls), limits))
  }

  /** The maps stay in step exactly when no call reopens, and while they do the answers are those
      of the limiter that never prunes exactly when no call is refunded; any order of readings. */
  lemma {:induction false} WhenPruningShows(calls: seq<Call>, limits: Limits)
    requires limits.Enabled()
    ensures StaysWithin(calls, limits) <==> NeverReopens(calls, limits)
    ensures StaysWithin(calls, limits) ==> (Answers(calls, limits) == KeptAnswers(calls, limits) <==> NeverRefunds(calls, limits))
  {
    hide CallStep, AfterCall, Decide, Reopens, Refunds;
    if calls != [] {
      var front, call := Front(calls), Last(calls);
      var state, kept := StateAfter(front, limits), KeptAfter(front, limits);
      WhenPruningShows(front, limits);
      KeptCounts(front, limits);
      if StaysWithin(front, limits) {
        assert Within(state, kept) by { WithinNow(front, limits); }
        WithinStep(state, kept, call, limits);
        VerdictsDiffer(state, kept, call, limits);
        LastApart(Answers(front, limits), KeptAnswers(front, limits), !CallStep(state, call.ip, call.now, limits).1.Denied?,
                  !Decide(Lookup(kept, call.ip), call.now, limits).Denied?);
      }
    }
  }

  lemma WithinNow(calls: seq<Call>, limits: Limits)
    requires StaysWithin(calls, limits)
    ensures Within(StateAfter(calls, limits), KeptAfter(calls, limits))
  {
  }

  lemma LastApart(a: seq<bool>, b: seq<bool>, x: bool, y: bool)
    requires |a| == |b|
    ensures a + [x] == b + [y] <==> a == b && x == y
  {
    if a + [x] == b + [y] {
      assert (a + [x])[..|a|] == a && (b + [y])[..|b|] == b && (a + [x])[|a|] == x && (b + [y])[|b|] == y;
    }
  }

  /** That many clients, each with one admission at time zero. */
  function Crowd(n: u32): (state: Buckets)
    ensures |state| == n && forall k: u32 :: U32Bytes(k) in state <==> k < n
    ensures forall ip | ip in state :: state[ip] == Bucket(0, 1)
  {
    if n == 0 then map[]
    else
      assert forall k: u32 :: U32Bytes(k) == U32Bytes(n - 1) ==> k == n - 1 by { DistinctAddresses(n - 1); }
      var fewer := Crowd(n - 1);
      assert |fewer[U32Bytes(n - 1) := Bucket(0, 1)]| == n by { OneMore(fewer, U32Bytes(n - 1)); }
      fewer[U32Bytes(n - 1) := Bucket(0, 1)]
  }

  lemma DistinctAddresses(n: u32)
    ensures forall k: u32 :: U32Bytes(k) == U32Bytes(n) ==> k == n
  {
    forall k: u32 | U32Bytes(k) == U32Bytes(n) ensures k == n {
      AtU32(U32Bytes(k), 0, k);
      AtU32(U32Bytes(n), 0, n);
    }
  }

  lemma OneMore(state: Buckets, ip: Ip)
    requires ip !in state
    ensures |state[ip := Bucket(0, 1)]| == |state| + 1
  {
    assert state[ip := Bucket(0, 1)].Keys == state.Keys + {ip};
    assert |state[ip := Bucket(0, 1)].Keys| == |state[ip := Bucket(0, 1)]| && |state.Keys| == |state|;
  }

  function CrowdCalls(n: u32): seq<Call> {
    if n == 0 then [] else CrowdCalls(n - 1) + [Call(U32Bytes(n - 1), 0)]
  }

  lemma {:induction false} CrowdArrives(n: u32, limits: Limits)
    requires limits.Enabled() && n <= PRUNE_ABOVE + 1
    ensures StateAfter(CrowdCalls(n), limits) == Crowd(n) && KeptAfter(CrowdCalls(n), limits) == Crowd(n)
  {
    if n > 0 {
      hide U32Bytes, Limits.Enabled;
      CrowdArrives(n - 1, limits);
      assert Front(CrowdCalls(n)) == CrowdCalls(n - 1) && Last(CrowdCalls(n)) == Call(U32Bytes(n - 1), 0);
      NewcomerAdmitted(Crowd(n - 1), U32Bytes(n - 1), 0, limits);
    }
  }

  lemma NewcomerAdmitted(state: Buckets, ip: Ip, now: nat, limits: Limits)
    requires ip !in state && |state| <= PRUNE_ABOVE
    ensures CallStep(state, ip, now, limits).0 == state[ip := Bucket(now, 1)]
    ensures AfterCall(Lookup(state, ip), now, limits) == Bucket(now, 1)
  {
  }

  /** A call that comes when every window is over leaves a crowded map with its bucket alone. */
  lemma CrowdPruned(state: Buckets, ip: Ip, now: nat, limits: Limits)
    requires |state| > PRUNE_ABOVE && forall x | x in state :: Over(state[x], now, limits)
    ensures CallStep(state, ip, now, limits).0 == map[ip := Bucket(now, 1)]
  {
    assert LiveOnly(state, now, limits.window) == map[];
  }

  /** Out of order the pruning shows: a crowd at time zero, one call after the window that prunes
      it, and a late reading of time zero is admitted with the quota of its live window spent. */
  lemma PruningShowsOutOfOrder(window: nat)
    requires window >= 1
    ensures var limits, crowd := Limits(window, 1), CrowdCalls(PRUNE_ABOVE + 1);
            var calls := crowd + [Call(U32Bytes(5000), window)] + [Call(U32Bytes(0), 0)];
            Last(Answers(calls, limits)) && !Last(KeptAnswers(calls, limits))
  {
    hide U32Bytes, CrowdCalls, Crowd, CallStep;
    var limits, crowd := Limits(window, 1), CrowdCalls(PRUNE_ABOVE + 1);
    var other, first := U32Bytes(5000), U32Bytes(0);
    var late := crowd + [Call(other, window)];
    var calls := late + [Call(first, 0)];
    CrowdArrives(PRUNE_ABOVE + 1, limits);
    DistinctAddresses(0);
    var full := Crowd(PRUNE_ABOVE + 1);
    assert Front(calls) == late && Last(calls) == Call(first, 0);
    assert Front(late) == crowd && Last(late) == Call(other, window);
    CrowdPruned(full, other, window, limits);
    Readmitted(other, first, limits);
    assert KeptAfter(late, limits)[first] == Bucket(0, 1);
  }

  lemma Readmitted(other: Ip, ip: Ip, limits: Limits)
    requires other != ip && limits.Enabled()
    ensures !CallStep(map[other := Bucket(limits.window, 1)], ip, 0, limits).1.Denied?
  {
    assert |map[other := Bucket(limits.window, 1)]| == 1;
  }

  // ----- clients are isolated --------------------------------------------------

  lemma {:induction false} KeptIsSolo(calls: seq<Call>, ip: Ip, limits: Limits)
    ensures Lookup(KeptAfter(calls, limits), ip) == SoloBucket(TimesOf(calls, ip), limits)
    ensures AnswersTo(calls, KeptAnswers(calls, limits), ip) == SoloAnswers(TimesOf(calls, ip), limits)
  {
    if calls != [] {
      hide AfterCall, Decide;
      var front, now := Front(calls), Last(calls).now;
      KeptIsSolo(front, ip, limits);
      assert Front(KeptAnswers(calls, limits)) == KeptAnswers(front, limits);
      var times := TimesOf(front, ip);
      if Last(calls).ip == ip {
        assert Front(times + [now]) == times && Last(times + [now]) == now;
      } else {
        assert times + [] == times;
      }
    }
  }

  /** What a client is answered is a function of its own call times alone: two runs in which it
      calls at the same times give it the same answers, whoever else calls. */
  lemma ClientsAreIsolated(calls: seq<Call>, others: seq<Call>, ip: Ip, limits: Limits)
    requires limits.Enabled() && NoLookingBack(calls, limits) && NoLookingBack(others, limits)
    requires TimesOf(calls, ip) == TimesOf(others, ip)
    ensures AnswersTo(calls, Answers(calls, limits), ip) == AnswersTo(others, Answers(others, limits), ip)
    ensures AnswersTo(calls, Answers(calls, limits), ip) == SoloAnswers(TimesOf(calls, ip), limits)
  {
    PruningIsInvisible(calls, limits);
    PruningIsInvisible(others, limits);
    KeptIsSolo(calls, ip, limits);
    KeptIsSolo(others, ip, limits);
  }

  // ----- how many admissions a span can hold -----------------------------------

  function CountYes(times: seq<nat>, answers: seq<bool>, from: nat, span: nat): nat
    requires |answers| == |times|
  {
    if times == [] then 0
    else CountYes(Front(times), Front(answers), from, span)
         + if Last(answers) && from <= Last(times) < from + span then 1 else 0
  }

  /** Admissions of one client in the half-open interval of `span` ticks that starts at `from`. */
  function Admitted(calls: seq<Call>, ip: Ip, from: nat, span: nat, limits: Limits): nat {
    CountYes(TimesOf(calls, ip), AnswersTo(calls, Answers(calls, limits), ip), from, span)
  }

  function SoloAdmitted(times: seq<nat>, from: nat, span: nat, limits: Limits): nat {
    CountYes(times, SoloAnswers(times, limits), from, span)
  }

  /** The quota once for every window, or part of one, that fits in the span. */
  function Cap(span: int, limits: Limits): (r: nat)
    requires limits.Enabled()
    ensures span > 0 ==> r >= limits.quota
    decreases span
  {
    if span <= 0 then 0 else limits.quota + Cap(span - limits.window, limits)
  }

  /** The most admissions of one client that any interval of the span can hold: full windows from
      its first tick on, or the rest of a window that began before it and full windows after. */
  function Sharp(span: nat, limits: Limits): nat
    requires limits.Enabled() && span >= 1
  {
    Max(limits.quota - 1 + Cap(span - 1, limits), Cap(span, limits))
  }

  lemma {:induction false} CapGrows(small: int, large: int, limits: Limits)
    requires limits.Enabled() && small <= large
    ensures Cap(small, limits) <= Cap(large, limits)
    decreases large
  {
    if small > 0 {
      CapGrows(small - limits.window, large - limits.window, limits);
    }
  }

  lemma SharpGrows(small: nat, large: nat, limits: Limits)
    requires limits.Enabled() && 1 <= small <= large
    ensures Sharp(small, limits) <= Sharp(large, limits)
  {
    CapGrows(small - 1, large - 1, limits);
    CapGrows(small, large, limits);
  }

  /** One window later there is room for exactly one more quota. */
  lemma SharpStep(span: nat, later: nat, limits: Limits)
    requires limits.Enabled() && span >= 1 && later >= span + limits.window
    ensures Sharp(later, limits) >= Sharp(span, limits) + limits.quota
  {
    SharpGrows(span + limits.window, later, limits);
    assert Cap(span + limits.window, limits) == limits.quota + Cap(span, limits);
    assert Cap(span - 1 + limits.window, limits) == limits.quota + Cap(span - 1, limits);
  }

  /** How the admissions counted so far are tied to the client's current window. */
  ghost predicate Accounted(bucket: Option<Bucket>, yes: nat, from: nat, limits: Limits)
    requires limits.Enabled()
  {
    match bucket
    case None => yes == 0
    case Some(Bucket(start, count)) =>
      && 1 <= count <= limits.quota
      && (start < from ==> yes < count && (yes > 0 ==> from < start + limits.window))
      && (start >= from ==> yes + limits.quota <= Sharp(start - from + 1, limits) + count)
  }

  lemma AccountedStep(bucket: Option<Bucket>, yes: nat, now: nat, from: nat, span: nat, limits: Limits)
    requires limits.Enabled() && Accounted(bucket, yes, from, limits)
    ensures Accounted(Some(AfterCall(bucket, now, limits)),
                      yes + if !Decide(bucket, now, limits).Denied? && from <= now < from + span then 1 else 0, from, limits)
  {
    var next := AfterCall(bucket, now, limits);
    if next.windowStart >= from && (bucket.None? || bucket.value.windowStart != next.windowStart) {
      var x := now - from + 1;
      if bucket.None? {
        SharpGrows(1, x, limits);
      } else if bucket.value.windowStart < from {
        SharpGrows(1, x, limits);
        if yes > 0 { SharpGrows(2, x, limits); }
      } else {
        SharpStep(bucket.value.windowStart - from + 1, x, limits);
      }
    }
  }

  lemma {:induction false} SoloIsAccounted(times: seq<nat>, from: nat, span: nat, limits: Limits)
    requires limits.Enabled() && Rising(times) && span >= 1
    ensures Accounted(SoloBucket(times, limits), SoloAdmitted(times, from, span, limits), from, limits)
    ensures times != [] ==> SoloBucket(times, limits).value.windowStart <= Last(times)
    ensures SoloAdmitted(times, from, span, limits) <= Sharp(span, limits)
  {
    hide Sharp, Cap;
    if times != [] {
      var front, now := Front(times), Last(times);
      SoloIsAccounted(front, from, span, limits);
      var bucket, yes := SoloBucket(front, limits), SoloAdmitted(front, from, span, limits);
      AccountedStep(bucket, yes, now, from, span, limits);
      assert Front(SoloAnswers(times, limits)) == SoloAnswers(front, limits);
      var next := AfterCall(bucket, now, limits);
      if from <= now < from + span {
        if next.windowStart >= from {
          SharpGrows(next.windowStart - from + 1, span, limits);
        } else {
          QuotaFits(span, limits);
        }
      }
    }
  }

  lemma QuotaFits(span: nat, limits: Limits)
    requires limits.Enabled() && span >= 1
    ensures Sharp(span, limits) >= limits.quota
  {
  }

  /** Readings in order are in order for every client. */
  lemma {:induction false} TimesRise(calls: seq<Call>, ip: Ip)
    requires InOrder(calls)
    ensures Rising(TimesOf(calls, ip))
    ensures forall k | 0 <= k < |TimesOf(calls, ip)| :: TimesOf(calls, ip)[k] <= Last(calls).now
  {
    if calls != [] {
      TimesRise(Front(calls), ip);
      if Front(calls) != [] {
        assert Last(Front(calls)).now <= Last(calls).now;
      }
    }
  }

  /** No interval holds more admissions of one client than `Sharp` says, on every run in which the
      client's own readings do not decrease and no call looks back behind a crowded one. */
  lemma AdmissionBound(calls: seq<Call>, ip: Ip, from: nat, span: nat, limits: Limits)
    requires limits.Enabled() && NoLookingBack(calls, limits) && Rising(TimesOf(calls, ip)) && span >= 1
    ensures Admitted(calls, ip, from, span, limits) <= Sharp(span, limits)
  {
    hide Sharp, SoloAnswers, Answers, AnswersTo;
    ClientsAreIsolated(calls, calls, ip, limits);
    SoloIsAccounted(TimesOf(calls, ip), from, span, limits);
  }

  /** The bound in the customary terms: one quota more than the windows of the span, strictly; so
      fewer than two quotas in one window's length, and two in one tick more. */
  lemma SharpInWindows(span: nat, limits: Limits)
    requires limits.Enabled() && span >= 1
    ensures Cap(span, limits) <= Sharp(span, limits) < Cap(span, limits) + limits.quota
    ensures limits.window >= 2 ==> Sharp(limits.window, limits) == 2 * limits.quota - 1
    ensures Sharp(limits.window + 1, limits) == 2 * limits.quota
  {
    CapGrows(span - 1, span, limits);
    assert Cap(limits.window, limits) == limits.quota + Cap(0, limits);
    assert Cap(limits.window + 1, limits) == limits.quota + Cap(1, limits);
    assert Cap(1, limits) == limits.quota + Cap(1 - limits.window, limits);
    if limits.window >= 2 {
      assert Cap(limits.window - 1, limits) == limits.quota + Cap(-1, limits);
    }
  }

  /** The cap is the quota times the least number of windows that cover the span. */
  lemma {:induction false} CapIsCeiling(span: nat, windows: nat, limits: Limits)
    requires limits.Enabled()
    requires (windows - 1) * limits.window < span <= windows * limits.window
    ensures Cap(span, limits) == limits.quota * windows
  {
    var n, w := limits.quota, limits.window;
    if windows <= 1 {
      assert Cap(span - w, limits) == 0;
    } else {
      assert windows * w == (windows - 1) * w + w;
      assert (windows - 1) * w == (windows - 2) * w + w && (windows - 2) * w >= 0;
      CapIsCeiling(span - w, windows - 1, limits);
      assert n * windows == n * (windows - 1) + n;
    }
  }

  // ----- the bound is attained -------------------------------------------------

  function Burst(time: nat, n: nat): seq<nat> { seq(n, _ => time) }

  /** Where the last of the windows that start in the span starts. */
  function LastStart(span: int, limits: Limits): (r: nat)
    requires limits.Enabled()
    ensures span >= 1 ==> r < span
    decreases span
  {
    if span <= limits.window then 0 else limits.window + LastStart(span - limits.window, limits)
  }

  /** A full burst at every window start of the span. */
  function Train(first: nat, span: int, limits: Limits): seq<nat>
    requires limits.Enabled()
    decreases span
  {
    if span <= 0 then []
    else Train(first, span - limits.window, limits) + Burst(first + LastStart(span, limits), limits.quota)
  }

  /** What a run has come to: its bucket, its admissions in the interval, its last call. */
  ghost predicate Stands(times: seq<nat>, start: nat, count: nat, last: nat, from: nat, span: nat, yes: nat, limits: Limits) {
    && times != [] && Rising(times) && Last(times) == last
    && SoloBucket(times, limits) == Some(Bucket(start, count))
    && SoloAdmitted(times, from, span, limits) == yes
  }

  lemma Extend(times: seq<nat>, now: nat, from: nat, span: nat, limits: Limits)
    requires Rising(times) && (times != [] ==> Last(times) <= now)
    ensures Rising(times + [now]) && Last(times + [now]) == now
    ensures SoloBucket(times + [now], limits) == Some(AfterCall(SoloBucket(times, limits), now, limits))
    ensures SoloAdmitted(times + [now], from, span, limits) == SoloAdmitted(times, from, span, limits)
            + if !Decide(SoloBucket(times, limits), now, limits).Denied? && from <= now < from + span then 1 else 0
  {
    hide AfterCall, Decide;
    var more := times + [now];
    assert Front(more) == times;
    assert Front(SoloAnswers(more, limits)) == SoloAnswers(times, limits);
  }

  /** A burst into a live window with room is admitted whole. */
  lemma {:induction false} BurstFills(times: seq<nat>, start: nat, count: nat, last: nat, now: nat, n: nat,
                                      from: nat, span: nat, yes: nat, limits: Limits)
    requires limits.Enabled() && Stands(times, start, count, last, from, span, yes, limits)
    requires last <= now && start <= now < start + limits.window && count + n <= limits.quota
    requires from <= now < from + span
    ensures Stands(times + Burst(now, n), start, count + n, if n == 0 then last else now, from, span, yes + n, limits)
  {
    hide SoloBucket, SoloAdmitted, Rising;
    if n == 0 {
      assert times + Burst(now, 0) == times;
    } else {
      BurstFills(times, start, count, last, now, n - 1, from, span, yes, limits);
      var before := times + Burst(now, n - 1);
      Extend(before, now, from, span, limits);
      assert times + Burst(now, n) == before + [now];
    }
  }

  /** A full burst that opens a window is admitted whole. */
  lemma BurstOpens(times: seq<nat>, now: nat, from: nat, span: nat, yes: nat, limits: Limits)
    requires limits.Enabled() && Rising(times) && (times != [] ==> Last(times) <= now)
    requires SoloAdmitted(times, from, span, limits) == yes && from <= now < from + span
    requires SoloBucket(times, limits).None? || SoloBucket(times, limits).value.windowStart + limits.window <= now
    ensures Stands(times + Burst(now, limits.quota), now, limits.quota, now, from, span, yes + limits.quota, limits)
  {
    hide SoloBucket, SoloAdmitted, Rising;
    Extend(times, now, from, span, limits);
    BurstFills(times + [now], now, 1, now, now, limits.quota - 1, from, span, yes + 1, limits);
    assert times + [now] + Burst(now, limits.quota - 1) == times + Burst(now, limits.quota);
  }

  lemma {:induction false} TrainRuns(before: seq<nat>, first: nat, length: int, from: nat, span: nat, limits: Limits)
    requires limits.Enabled() && length >= 1 && Rising(before) && (before != [] ==> Last(before) <= first)
    requires SoloBucket(before, limits).None? || SoloBucket(before, limits).value.windowStart + limits.window <= first
    requires from <= first && first + length <= from + span
    ensures Stands(before + Train(first, length, limits), first + LastStart(length, limits), limits.quota,
                   first + LastStart(length, limits), from, span,
                   SoloAdmitted(before, from, span, limits) + Cap(length, limits), limits)
    decreases length
  {
    hide SoloBucket, SoloAdmitted, Rising, Burst;
    var w, yes := limits.window, SoloAdmitted(before, from, span, limits);
    if length <= w {
      BurstOpens(before, first, from, span, yes, limits);
      assert Train(first, length - w, limits) == [];
      assert before + Train(first, length, limits) == before + Burst(first, limits.quota);
    } else {
      TrainRuns(before, first, length - w, from, span, limits);
      var done := before + Train(first, length - w, limits);
      BurstOpens(done, first + LastStart(length, limits), from, span, yes + Cap(length - w, limits), limits);
      assert before + Train(first, length, limits) == done + Burst(first + LastStart(length, limits), limits.quota);
    }
  }

  /** A busiest client for a span: the better of the two ways to spend quotas. */
  function WorstTimes(span: nat, limits: Limits): seq<nat>
    requires limits.Enabled() && span >= 1
  {
    if Sharp(span, limits) == Cap(span, limits) then Train(0, span, limits)
    else [0] + Burst(limits.window - 1, limits.quota - 1) + Train(limits.window, span - 1, limits)
  }

  function WorstFrom(span: nat, limits: Limits): nat
    requires limits.Enabled() && span >= 1
  {
    if Sharp(span, limits) == Cap(span, limits) then 0 else limits.window - 1
  }

  lemma LateStart(span: nat, limits: Limits)
    requires limits.Enabled() && span >= 1
    requires Sharp(span, limits) != Cap(span, limits)
    ensures Sharp(span, limits) == limits.quota - 1 + Cap(span - 1, limits)
    ensures span >= 2 && limits.window >= 2
  {
  }

  lemma StartsAlone(from: nat, span: nat, limits: Limits)
    requires limits.Enabled() && from >= 1
    ensures Stands([0], 0, 1, 0, from, span, 0, limits)
  {
    Extend([], 0, from, span, limits);
    assert [] + [0] == [0];
  }

  lemma NothingYet(from: nat, span: nat, limits: Limits)
    ensures Rising([]) && SoloAdmitted([], from, span, limits) == 0
  {
  }

  lemma WorstRuns(span: nat, limits: Limits)
    requires limits.Enabled() && span >= 1
    ensures Rising(WorstTimes(span, limits))
    ensures SoloAdmitted(WorstTimes(span, limits), WorstFrom(span, limits), span, limits) == Sharp(span, limits)
  {
    hide Sharp, Cap, Train, LastStart, SoloAdmitted, Rising, Burst;
    var n, w := limits.quota, limits.window;
    if Sharp(span, limits) == Cap(span, limits) {
      NothingYet(0, span, limits);
      TrainRuns([], 0, span, 0, span, limits);
      assert [] + Train(0, span, limits) == Train(0, span, limits);
    } else {
      LateStart(span, limits);
      var from := w - 1;
      StartsAlone(from, span, limits);
      BurstFills([0], 0, 1, 0, w - 1, n - 1, from, span, 0, limits);
      TrainRuns([0] + Burst(w - 1, n - 1), w, span - 1, from, span, limits);
    }
  }

  function CallsAt(times: seq<nat>, ip: Ip): seq<Call> { seq(|times|, i requires 0 <= i < |times| => Call(ip, times[i])) }

  lemma {:induction false} TimesOfCallsAt(times: seq<nat>, ip: Ip)
    ensures TimesOf(CallsAt(times, ip), ip) == times
  {
    if times != [] {
      TimesOfCallsAt(Front(times), ip);
      assert Front(CallsAt(times, ip)) == CallsAt(Front(times), ip);
    }
  }

  /** For every window, quota and span some run attains the bound. */
  lemma AdmissionBoundAttained(ip: Ip, span: nat, limits: Limits)
    requires limits.Enabled() && span >= 1
    ensures exists calls, from ::
              InOrder(calls) && Admitted(calls, ip, from, span, limits) == Sharp(span, limits)
  {
    hide Sharp, WorstTimes, WorstFrom, SoloAnswers, Answers, AnswersTo;
    var times := WorstTimes(span, limits);
    var calls := CallsAt(times, ip);
    WorstRuns(span, limits);
    TimesOfCallsAt(times, ip);
    assert InOrder(calls);
    InOrderSuffices(calls, limits);
    ClientsAreIsolated(calls, calls, ip, limits);
    assert Admitted(calls, ip, WorstFrom(span, limits), span, limits) == Sharp(span, limits);
  }

  // ----- threads that share the limiter behave as one run ----------------------

  function CallsOf(log: seq<Entry>): (r: seq<Call>)
    ensures |r| == |log|
  {
    seq(|log|, i requires 0 <= i < |log| => Call(log[i].ip, log[i].now))
  }

  function Verdicts(log: seq<Entry>): (r: seq<bool>)
    ensures |r| == |log|
  {
    seq(|log|, i requires 0 <= i < |log| => !log[i].kind.Denied?)
  }

  /** The log is the run of its own calls, one after the other. */
  ghost predicate Sequential(m: Machine, limits: Limits) {
    m.state == StateAfter(CallsOf(m.log), limits) && Verdicts(m.log) == Answers(CallsOf(m.log), limits)
  }

  lemma StepIsSequential(m: Machine, next: Machine, limits: Limits)
    requires Sequential(m, limits) && Step(m, next, limits)
    ensures Sequential(next, limits)
  {
    hide CallStep;
    if exists tid :: Commit(m, next, tid, limits) {
      var tid :| Commit(m, next, tid, limits);
      assert Front(CallsOf(next.log)) == CallsOf(m.log);
      assert Verdicts(next.log) == Verdicts(m.log) + [!Last(next.log).kind.Denied?];
    }
  }

  /** Every interleaving of any number of threads decides its calls as one sequential run does,
      in the order in which they took the lock. */
  lemma {:induction false} BehaviorIsSequential(trace: seq<Machine>, limits: Limits)
    requires Behavior(trace, limits)
    ensures forall i | 0 <= i < |trace| :: Sequential(trace[i], limits)
  {
    if |trace| == 1 {
      assert CallsOf([]) == [] && Verdicts([]) == [];
    } else {
      hide Sequential, Step;
      var n := |trace| - 1;
      var front := trace[..n];
      forall i | 0 <= i < |front| - 1 ensures Step(front[i], front[i + 1], limits) {
        assert Step(trace[i], trace[i + 1], limits);
      }
      BehaviorIsSequential(front, limits);
      assert Sequential(front[n - 1], limits) && Step(trace[n - 1], trace[n - 1 + 1], limits);
      StepIsSequential(trace[n - 1], trace[n], limits);
      forall i | 0 <= i < |trace| ensures Sequential(trace[i], limits) {
        if i < n { assert trace[i] == front[i]; }
      }
    }
  }

  /** Whatever the interleaving: as long as a client's clock readings reach the lock in order and
      none looks back behind a crowded call, it is not admitted more often in an interval than
      `Sharp` says. */
  lemma SharedAdmissionBound(trace: seq<Machine>, i: nat, ip: Ip, from: nat, span: nat, limits: Limits)
    requires limits.Enabled() && Behavior(trace, limits) && i < |trace| && span >= 1
    requires NoLookingBack(CallsOf(trace[i].log), limits) && Rising(TimesOf(CallsOf(trace[i].log), ip))
    ensures var calls, verdicts := CallsOf(trace[i].log), Verdicts(trace[i].log);
            CountYes(TimesOf(calls, ip), AnswersTo(calls, verdicts, ip), from, span) <= Sharp(span, limits)
  {
    hide Sharp, Behavior, CountYes, TimesOf, AnswersTo, NoLookingBack, Rising;
    BehaviorIsSequential(trace, limits);
    assert Sequential(trace[i], limits);
    AdmissionBound(CallsOf(trace[i].log), ip, from, span, limits);
  }
}
