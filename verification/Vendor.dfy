/** The vendor resolver (package oui): one shared cache, at most one fetch per OUI, and a rate
    limiter, used by any number of goroutines. Every critical section is one atomic step. */
module Vendor {
  import opened Text
  import opened Order
  import opened Oui
  import opened Runs

  /** Nanoseconds, as in time.Duration. */
  const SPACING := 600_000_000

  /** Stands for a vendor confirmed to be unknown. */
  const UNKNOWN := "\0unknown"

  /** What the API call came to: an error, or a vendor, which is empty if there is none. */
  datatype Outcome = Failed | Found(vendor: string)

  // ----- The critical sections, on values

  function Cached(outcome: Outcome): string
    requires outcome.Found?
  {
    if outcome.vendor == "" then UNKNOWN else outcome.vendor
  }

  function Shown(cached: string): string {
    if cached == UNKNOWN then "" else cached
  }

  /** In `Lookup`: is a fetch to be started? */
  predicate Misses(cache: map<string, string>, inflight: set<string>, key: string) {
    key !in cache && key !in inflight
  }

  /** In `fetch`: the cache after the answer. */
  function Stored(cache: map<string, string>, key: string, outcome: Outcome): map<string, string> {
    if outcome.Failed? then cache else cache[key := Cached(outcome)]
  }

  /** In `respectRateLimit`: the earliest moment a sleeper that read the clock at `now` wakes. */
  function WakeTime(lastSent: Option<int>, now: int): int {
    if lastSent.Some? && now - lastSent.value < SPACING then now + (SPACING - (now - lastSent.value)) else now
  }

  /** The shared fields, each method one critical section. */
  class Resolver {
    var cache: map<string, string>
    var inflight: set<string>
    var lastSent: Option<int>

    constructor ()
      ensures cache == map[] && inflight == {} && lastSent == None
    {
      cache, inflight, lastSent := map[], {}, None;
    }

    /** `fetch` is the key a fetch has to be started for. */
    method Lookup(mac: string) returns (vendor: string, fetch: Option<string>)
      modifies this`inflight
      ensures match OuiKey(mac)
              case None => vendor == "" && fetch == None && inflight == old(inflight)
              case Some(key) =>
                && vendor == (if key in cache then Shown(cache[key]) else "")
                && fetch == (if Misses(cache, old(inflight), key) then Some(key) else None)
                && inflight == old(inflight) + if fetch.Some? then {key} else {}
    {
      var key := ComputeOuiKey(mac);
      if key.None? {
        return "", None;
      }
      var v := "";
      fetch := None;
      if key.value in cache {
        v := cache[key.value];
      } else if key.value !in inflight {
        inflight := inflight + {key.value};
        fetch := key;
      }
      vendor := if v == UNKNOWN then "" else v;
    }

    method Store(key: string, outcome: Outcome)
      modifies this`cache
      ensures cache == Stored(old(cache), key, outcome)
    {
      if outcome.Failed? {
      } else if outcome.vendor == "" {
        cache := cache[key := UNKNOWN];
      } else {
        cache := cache[key := outcome.vendor];
      }
    }

    method Finish(key: string)
      modifies this`inflight
      ensures inflight == old(inflight) - {key}
    {
      inflight := inflight - {key};
    }

    /** Under the limiter's lock. The clock reads `now`; `sleep(d)` is how long a sleep of `d`
        takes, and `lag` passes before the clock is read again. */
    method RespectRateLimit(now: int, sleep: int -> int, lag: nat)
      requires forall d :: sleep(d) >= d
      modifies this`lastSent
      ensures lastSent.Some? && lastSent.value >= WakeTime(old(lastSent), now)
      ensures old(lastSent).Some? ==> lastSent.value - old(lastSent).value >= 600_000_000
      ensures lastSent == Some(lag + if old(lastSent).None? || now - old(lastSent).value >= 600_000_000 then now
                                     else now + sleep(600_000_000 - (now - old(lastSent).value)))
    {
      var woken := now;
      if lastSent.Some? {
        var d := now - lastSent.value;
        if d < SPACING {
          woken := now + sleep(SPACING - d);
        }
      }
      lastSent := Some(woken + lag);
    }

    /** The fields are those of the system. */
    ghost predicate Shows(s: System)
      reads this
    {
      cache == s.cache && inflight == s.inflight && lastSent == s.lastSent
    }

    /** One step of any goroutine, on the object. */
    method Perform(s: System, step: Step) returns (t: System)
      requires Shows(s) && Enabled(s, step)
      modifies this
      ensures t == Take(s, step) && Shows(t)
    {
      t := Take(s, step);
      match step
      case Lookup(mac, _) =>
        var vendor, fetch := this.Lookup(mac);
      case Release(_) =>
        lastSent := Some(s.now);
      case Store(id) =>
        this.Store(s.fetches[id].key, s.fetches[id].stage.outcome);
      case Finish(id) =>
        this.Finish(s.fetches[id].key);
      case _ =>
    }
  }

  // ----- All goroutines together

  datatype Stage =
    | Queued                      // waiting for the limiter
    | Limited(wake: int)          // holds the limiter, sleeping until `wake` at least
    | Calling                     // released by the limiter, the API call is under way
    | Answered(outcome: Outcome)  // the answer is not stored yet
    | Finishing                   // stored; the key is still marked in flight

  datatype Fetch = Fetch(key: string, stage: Stage)

  /** The clock, the shared fields, the limiter's lock, the goroutines running `fetch`, and what
      happened so far: release times, cache writes, and successful API answers with their keys. */
  datatype System = System(now: int, cache: map<string, string>, inflight: set<string>,
                           lastSent: Option<int>, holder: Option<nat>, fetches: map<nat, Fetch>,
                           releases: seq<int>, writes: seq<(string, string)>, answers: seq<(string, string)>)

  datatype Step =
    | Tick(d: nat)
    | Lookup(mac: string, id: nat)  // `id` names the goroutine, should one be started
    | Acquire(id: nat)
    | Release(id: nat)
    | Answer(id: nat, outcome: Outcome)
    | Store(id: nat)
    | Finish(id: nat)

  predicate Initial(s: System) {
    && s.cache == map[] && s.inflight == {} && s.lastSent == None && s.holder == None
    && s.fetches == map[] && s.releases == [] && s.writes == [] && s.answers == []
  }

  predicate Enabled(s: System, step: Step) {
    match step
    case Tick(_) => true
    case Lookup(_, id) => id !in s.fetches
    case Acquire(id) => id in s.fetches && s.fetches[id].stage.Queued? && s.holder.None?
    case Release(id) => id in s.fetches && s.fetches[id].stage.Limited? && s.now >= s.fetches[id].stage.wake
    case Answer(id, _) => id in s.fetches && s.fetches[id].stage.Calling?
    case Store(id) => id in s.fetches && s.fetches[id].stage.Answered?
    case Finish(id) => id in s.fetches && s.fetches[id].stage.Finishing?
  }

  function Move(s: System, id: nat, stage: Stage): map<nat, Fetch>
    requires id in s.fetches
  {
    s.fetches[id := s.fetches[id].(stage := stage)]
  }

  function Take(s: System, step: Step): System
    requires Enabled(s, step)
  {
    match step
    case Tick(d) => s.(now := s.now + d)
    case Lookup(mac, id) =>
      var key := OuiKey(mac);
      if key.None? || !Misses(s.cache, s.inflight, key.value) then s
      else s.(inflight := s.inflight + {key.value}, fetches := s.fetches[id := Fetch(key.value, Queued)])
    case Acquire(id) =>
      s.(holder := Some(id), fetches := Move(s, id, Limited(WakeTime(s.lastSent, s.now))))
    case Release(id) =>
      s.(holder := None, lastSent := Some(s.now), releases := s.releases + [s.now], fetches := Move(s, id, Calling))
    case Answer(id, outcome) =>
      s.(fetches := Move(s, id, Answered(outcome)),
         answers := s.answers + if outcome.Found? then [(s.fetches[id].key, outcome.vendor)] else [])
    case Store(id) =>
      var key, outcome := s.fetches[id].key, s.fetches[id].stage.outcome;
      s.(cache := Stored(s.cache, key, outcome), fetches := Move(s, id, Finishing),
         writes := s.writes + if outcome.Found? then [(key, Cached(outcome))] else [])
    case Finish(id) =>
      s.(inflight := s.inflight - {s.fetches[id].key}, fetches := s.fetches - {id})
  }

  function Next(s: System, step: Step): Option<System> {
    if Enabled(s, step) then Some(Take(s, step)) else None
  }

  ghost predicate Reachable(t: System) {
    exists s :: Initial(s) && Reaches(Next, s, t)
  }

  /** A name no goroutine has. */
  function FreeId(fetches: map<nat, Fetch>, from: nat): (id: nat)
    ensures id !in fetches
    decreases |set k | k in fetches && k >= from|
  {
    if from !in fetches then from
    else
      ghost var here, later := set k | k in fetches && k >= from, set k | k in fetches && k >= from + 1;
      assert here == later + {from};
      FreeId(fetches, from + 1)
  }

  // ----- Single flight

  /** A key is in flight exactly while a fetch for it is live, and there is at most one. */
  ghost predicate SingleFlight(s: System) {
    && (forall key :: key in s.inflight <==> exists id :: id in s.fetches && s.fetches[id].key == key)
    && (forall id, other :: id in s.fetches && other in s.fetches && s.fetches[id].key == s.fetches[other].key
          ==> id == other)
  }

  /** A fetch that has yet to store its answer finds its key uncached. */
  ghost predicate Pending(s: System) {
    forall id :: id in s.fetches && !s.fetches[id].stage.Finishing? ==> s.fetches[id].key !in s.cache
  }

  predicate Succeeded(f: Fetch) {
    f.stage.Answered? && f.stage.outcome.Found?
  }

  ghost predicate HasAnswer(s: System, key: string) {
    key in s.cache || exists id :: id in s.fetches && s.fetches[id].key == key && Succeeded(s.fetches[id])
  }

  ghost predicate DistinctKeys(s: seq<(string, string)>) {
    forall i, j :: 0 <= i < j < |s| ==> s[i].0 != s[j].0
  }

  /** The API has answered for the key, with a vendor or with none. */
  ghost predicate AnsweredFor(s: System, key: string) {
    exists i :: 0 <= i < |s.answers| && s.answers[i].0 == key
  }

  /** Each key was answered successfully at most once: the answer is cached or about to be. */
  ghost predicate OneSuccess(s: System) {
    && DistinctKeys(s.answers)
    && (forall key :: AnsweredFor(s, key) <==> HasAnswer(s, key))
  }

  /** Each cache entry was written once, with the value it has. */
  ghost predicate WrittenOnce(s: System) {
    && (forall i, j :: 0 <= i < j < |s.writes| ==> s.writes[i].0 != s.writes[j].0)
    && (forall key, v :: (key, v) in s.writes <==> key in s.cache && s.cache[key] == v)
  }

  ghost predicate CachedFrom(s: System, key: string, i: int) {
    && 0 <= i < |s.answers| && s.answers[i].0 == key && key in s.cache
    && s.cache[key] == if s.answers[i].1 == "" then "\0unknown" else s.answers[i].1
  }

  /** What is cached, and what is about to be, is what the API answered for the key; no vendor is
      noted as unknown. */
  ghost predicate FromAnswers(s: System) {
    && (forall key :: key in s.cache ==> exists i :: CachedFrom(s, key, i))
    && (forall id :: id in s.fetches && Succeeded(s.fetches[id]) ==>
          (s.fetches[id].key, s.fetches[id].stage.outcome.vendor) in s.answers)
  }

  // ----- Rate limit

  ghost predicate Limiter(s: System) {
    && (forall i :: 0 <= i < |s.releases| - 1 ==> s.releases[i + 1] - s.releases[i] >= SPACING)
    && s.lastSent == (if s.releases == [] then None else Some(s.releases[|s.releases| - 1]))
    && (s.lastSent.Some? ==> s.lastSent.value <= s.now)
    && (forall id :: id in s.fetches && s.fetches[id].stage.Limited? ==>
          s.holder == Some(id) && (s.lastSent.Some? ==> s.fetches[id].stage.wake >= s.lastSent.value + SPACING))
  }

  ghost predicate Inv(s: System) {
    SingleFlight(s) && Pending(s) && OneSuccess(s) && WrittenOnce(s) && FromAnswers(s) && Limiter(s)
  }

  lemma StepKeepsSingleFlight(s: System, step: Step)
    requires Inv(s) && Enabled(s, step)
    ensures SingleFlight(Take(s, step))
  {
    var t := Take(s, step);
    forall key
      ensures key in t.inflight <==> exists id :: id in t.fetches && t.fetches[id].key == key
    {
      if key in s.inflight {
        var id :| id in s.fetches && s.fetches[id].key == key;
        assert id in t.fetches ==> t.fetches[id].key == key;
      }
      if step.Lookup? && key in t.inflight && key !in s.inflight {
        assert t.fetches[step.id].key == key;
      }
    }
  }

  lemma StepKeepsPending(s: System, step: Step)
    requires Inv(s) && Enabled(s, step)
    ensures Pending(Take(s, step))
  {
  }

  /** The key a step brings a successful answer for, if it brings any. */
  predicate Answers(s: System, step: Step, key: string)
    requires Enabled(s, step)
  {
    step.Answer? && step.outcome.Found? && s.fetches[step.id].key == key
  }

  lemma StepKeepsAnswers(s: System, step: Step, key: string)
    requires Inv(s) && Enabled(s, step) && (HasAnswer(s, key) || Answers(s, step, key))
    ensures HasAnswer(Take(s, step), key)
  {
    var t := Take(s, step);
    if Answers(s, step, key) {
      assert t.fetches[step.id].key == key && Succeeded(t.fetches[step.id]);
    } else if key !in s.cache {
      var id :| id in s.fetches && s.fetches[id].key == key && Succeeded(s.fetches[id]);
      assert key in t.cache || (id in t.fetches && t.fetches[id].key == key && Succeeded(t.fetches[id]));
    }
  }

  lemma StepBringsAnswer(s: System, step: Step, key: string)
    requires Inv(s) && Enabled(s, step) && HasAnswer(Take(s, step), key)
    ensures HasAnswer(s, key) || Answers(s, step, key)
  {
    var t := Take(s, step);
    if key in t.cache {
      assert key !in s.cache ==> step.Store? && s.fetches[step.id].key == key && Succeeded(s.fetches[step.id]);
    } else {
      var id :| id in t.fetches && t.fetches[id].key == key && Succeeded(t.fetches[id]);
      assert id in s.fetches && s.fetches[id].key == key;
    }
  }

  lemma StepRecordsAnswer(s: System, step: Step, key: string)
    requires Enabled(s, step)
    ensures AnsweredFor(Take(s, step), key) <==> AnsweredFor(s, key) || Answers(s, step, key)
  {
    var t := Take(s, step);
    if i :| 0 <= i < |s.answers| && s.answers[i].0 == key {
      assert t.answers[i].0 == key;
    }
    if Answers(s, step, key) {
      assert t.answers[|s.answers|].0 == key;
    }
  }

  lemma StepKeepsOneSuccess(s: System, step: Step)
    requires Inv(s) && Enabled(s, step)
    ensures OneSuccess(Take(s, step))
  {
    var t := Take(s, step);
    forall key
      ensures AnsweredFor(t, key) <==> HasAnswer(t, key)
    {
      StepRecordsAnswer(s, step, key);
      if HasAnswer(t, key) {
        StepBringsAnswer(s, step, key);
      }
      if HasAnswer(s, key) || Answers(s, step, key) {
        StepKeepsAnswers(s, step, key);
      }
    }
    if step.Answer? && step.outcome.Found? {
      assert !HasAnswer(s, s.fetches[step.id].key);
    }
  }

  lemma StepKeepsWrittenOnce(s: System, step: Step)
    requires Inv(s) && Enabled(s, step)
    ensures WrittenOnce(Take(s, step))
  {
    if step.Store? && s.fetches[step.id].stage.outcome.Found? {
      var key := s.fetches[step.id].key;
      assert key !in s.cache;
      forall i | 0 <= i < |s.writes|
        ensures s.writes[i].0 != key
      {
        assert (s.writes[i].0, s.writes[i].1) in s.writes;
      }
    }
  }

  lemma StepKeepsCachedAnswer(s: System, step: Step, key: string)
    requires Inv(s) && Enabled(s, step) && key in Take(s, step).cache
    ensures exists i :: CachedFrom(Take(s, step), key, i)
  {
    var t := Take(s, step);
    if key in s.cache {
      var i :| CachedFrom(s, key, i);
      assert CachedFrom(t, key, i);
    } else {
      var f := s.fetches[step.id];
      var i :| 0 <= i < |s.answers| && s.answers[i] == (f.key, f.stage.outcome.vendor);
      assert CachedFrom(t, key, i);
    }
  }

  lemma StepKeepsFromAnswers(s: System, step: Step)
    requires Inv(s) && Enabled(s, step)
    ensures FromAnswers(Take(s, step))
  {
    var t := Take(s, step);
    forall key | key in t.cache
      ensures exists i :: CachedFrom(t, key, i)
    {
      StepKeepsCachedAnswer(s, step, key);
    }
    forall id | id in t.fetches && Succeeded(t.fetches[id])
      ensures (t.fetches[id].key, t.fetches[id].stage.outcome.vendor) in t.answers
    {
      if step.Answer? && step.id == id {
        assert t.answers[|s.answers|] == (t.fetches[id].key, t.fetches[id].stage.outcome.vendor);
      } else {
        assert (s.fetches[id].key, s.fetches[id].stage.outcome.vendor) in s.answers;
      }
    }
  }

  lemma StepKeepsLimiter(s: System, step: Step)
    requires Inv(s) && Enabled(s, step)
    ensures Limiter(Take(s, step))
  {
  }

  lemma StepKeepsInv(s: System, step: Step)
    requires Inv(s) && Enabled(s, step)
    ensures Inv(Take(s, step))
  {
    StepKeepsSingleFlight(s, step);
    StepKeepsPending(s, step);
    StepKeepsOneSuccess(s, step);
    StepKeepsWrittenOnce(s, step);
    StepKeepsFromAnswers(s, step);
    StepKeepsLimiter(s, step);
  }

  ghost predicate Extends(c: map<string, string>, d: map<string, string>) {
    forall key :: key in c ==> key in d && d[key] == c[key]
  }

  lemma StepExtendsCache(s: System, step: Step)
    requires Pending(s) && Enabled(s, step)
    ensures Extends(s.cache, Take(s, step).cache)
  {
  }

  lemma RunKeepsInv(s: System, steps: seq<Step>, t: System)
    requires Inv(s) && Leads(Next, s, steps, t)
    ensures Inv(t) && Extends(s.cache, t.cache)
  {
    var inv := (u: System) => Inv(u) && Extends(s.cache, u.cache);
    forall u, step | inv(u) && Next(u, step).Some?
      ensures inv(Next(u, step).value)
    {
      StepKeepsInv(u, step);
      StepExtendsCache(u, step);
    }
    RunKeeps(Next, inv, s, steps, t);
  }

  lemma ReachableKeepsInv(s: System)
    requires Reachable(s)
    ensures Inv(s)
  {
    var first :| Initial(first) && Reaches(Next, first, s);
    var steps :| Leads(Next, first, steps, s);
    RunKeepsInv(first, steps, s);
  }

  /** In every interleaving: at most one live fetch per key, live exactly while the key is in
      flight; at most one successful API answer and at most one cache write per key. */
  lemma OneFetchOneAnswerOneWrite(t: System)
    requires Reachable(t)
    ensures forall key :: key in t.inflight <==> exists id :: id in t.fetches && t.fetches[id].key == key
    ensures forall id, other ::
      id in t.fetches && other in t.fetches && t.fetches[id].key == t.fetches[other].key ==> id == other
    ensures DistinctKeys(t.answers)
    ensures forall i, j :: 0 <= i < j < |t.writes| ==> t.writes[i].0 != t.writes[j].0
    ensures forall key :: key in t.cache ==> AnsweredFor(t, key) && (key, t.cache[key]) in t.writes
  {
    ReachableKeepsInv(t);
  }

  /** What is cached in one reachable state is cached, unchanged, in every later one. */
  lemma CacheNeverChanges(t: System, u: System)
    requires Reachable(t) && Reaches(Next, t, u)
    ensures Extends(t.cache, u.cache)
  {
    ReachableKeepsInv(t);
    var more :| Leads(Next, t, more, u);
    RunKeepsInv(t, more, u);
  }

  /** A fetch that acquires the limiter sleeps until 600 ms after the last release, and not at all
      if that is past. */
  lemma AcquireWakes(s: System, id: nat)
    requires Enabled(s, Acquire(id))
    ensures var last := s.lastSent;
            Take(s, Acquire(id)).fetches[id].stage ==
            Limited(if last.Some? && last.value + 600_000_000 > s.now then last.value + 600_000_000 else s.now)
  {
  }

  // ----- When a lookup starts a fetch

  ghost predicate LiveFor(s: System, key: string) {
    exists id :: id in s.fetches && s.fetches[id].key == key
  }

  /** In every reachable state, exactly if no fetch for the key was ever answered with success and
      none is live. */
  lemma MissesIff(s: System, key: string)
    requires Reachable(s)
    ensures Misses(s.cache, s.inflight, key) <==> !AnsweredFor(s, key) && !LiveFor(s, key)
  {
    ReachableKeepsInv(s);
  }

  lemma {:induction false} ReleasesSpread(s: System, i: nat, j: nat)
    requires Limiter(s) && i <= j < |s.releases|
    ensures s.releases[j] - s.releases[i] >= (j - i) * SPACING
  {
    if i == j {
    } else {
      ReleasesSpread(s, i, j - 1);
      assert s.releases[(j - 1) + 1] - s.releases[j - 1] >= SPACING;
    }
  }

  /** With a monotone clock, any n successive releases span at least (n - 1) times the spacing,
      and no window of one second holds three of them. */
  lemma RateBound(t: System, i: nat, j: nat)
    requires Reachable(t) && i <= j < |t.releases|
    ensures t.releases[j] - t.releases[i] >= (j - i) * 600_000_000
    ensures t.releases[j] - t.releases[i] <= 1_000_000_000 ==> j - i + 1 <= 2
  {
    ReachableKeepsInv(t);
    ReleasesSpread(t, i, j);
    if j - i >= 2 {
      assert (j - i) * SPACING >= 2 * SPACING;
    }
  }
}
