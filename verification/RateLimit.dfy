/** The in-memory sliding-window rate limiter (common/rate-limit.go): a bounded queue of accepted
    times for each key, and a cleanup that drops idle keys. Times are whole seconds. */
module RateLimit {
  import opened Text

  type Times = seq<int>
  type Store = map<string, Times>

  /** The decision of `Request` on the queue of its key. A queue is never empty, since a key is stored
      together with its first request. */
  predicate Accepts(queue: Option<Times>, limit: nat, window: int, now: int) {
    queue.Some? && queue.value != [] ==> |queue.value| < limit || now - queue.value[0] >= window
  }

  function AfterAccept(queue: Option<Times>, limit: nat, now: int): (q: Times)
    ensures q != []
  {
    if queue.None? then [now]
    else if |queue.value| < limit || queue.value == [] then queue.value + [now]
    else queue.value[1..] + [now]
  }

  predicate Expired(queue: Times, expiration: int, now: int) {
    queue == [] || now - queue[|queue| - 1] > expiration
  }

  function QueueOf(store: Store, k: string): Option<Times> { if k in store then Some(store[k]) else None }

  /** One pass of `clearExpiredItems`. */
  function Swept(store: Store, expiration: int, now: int): Store {
    map k | k in store && !Expired(store[k], expiration, now) :: store[k]
  }

  class InMemoryRateLimiter {
    var store: Store
    const expiration: int

    predicate Valid()
      reads this
    {
      forall k :: k in store ==> store[k] != []
    }

    constructor (expiration: int)
      ensures Valid() && store == map[] && this.expiration == expiration
    {
      store, this.expiration := map[], expiration;
    }

    method Request(key: string, limit: nat, window: int, now: int) returns (ok: bool)
      requires Valid()
      modifies this
      ensures Valid()
      ensures ok == Accepts(QueueOf(old(store), key), limit, window, now)
      ensures !ok ==> store == old(store)
      ensures ok ==> store == old(store)[key := AfterAccept(QueueOf(old(store), key), limit, now)]
    {
      if key in store {
        var queue := store[key];
        if |queue| < limit {
          store := store[key := queue + [now]];
          return true;
        } else if now - queue[0] >= window {
          queue := queue[1..];
          store := store[key := queue + [now]];
          return true;
        } else {
          return false;
        }
      }
      var queue: Times := [];
      store := store[key := queue + [now]];
      assert queue + [now] == [now];
      return true;
    }

    method ClearExpiredItems(now: int)
      requires Valid()
      modifies this
      ensures Valid() && store == Swept(old(store), expiration, now)
    {
      var keys := store.Keys;
      while keys != {}
        invariant keys <= old(store.Keys)
        invariant store == map k | k in old(store) && (k in keys || !Expired(old(store)[k], expiration, now))
                           :: old(store)[k]
        decreases keys
      {
        var key :| key in keys;
        var queue := store[key];
        if |queue| == 0 || now - queue[|queue| - 1] > expiration {
          store := store - {key};
        }
        keys := keys - {key};
      }
    }
  }

  // ---------------------------------------------------------------------------
  // The reference: all accepted times of a key

  /** How many of the times are later than `after`. */
  function Later(times: Times, after: int): nat {
    if times == [] then 0
    else Later(times[..|times| - 1], after) + if times[|times| - 1] > after then 1 else 0
  }

  /** How many of the times lie in `[from, to)`. */
  function Within(times: Times, from: int, to: int): nat {
    if times == [] then 0
    else Within(times[..|times| - 1], from, to) + if from <= times[|times| - 1] < to then 1 else 0
  }

  /** A request is due when fewer than `limit` accepted ones lie within the last `window` seconds. */
  predicate Due(times: Times, limit: nat, window: int, now: int) {
    Later(times, now - window) < limit
  }

  ghost predicate AllAtMost(times: Times, bound: int) { forall i :: 0 <= i < |times| ==> times[i] <= bound }

  ghost predicate AllAbove(times: Times, bound: int) { forall i :: 0 <= i < |times| ==> times[i] > bound }

  ghost predicate Ordered(times: Times) { forall i, j :: 0 <= i <= j < |times| ==> times[i] <= times[j] }

  lemma {:induction false} LaterConcat(a: Times, b: Times, after: int)
    ensures Later(a + b, after) == Later(a, after) + Later(b, after)
  {
    if b == [] {
      assert a + b == a;
    } else {
      assert (a + b)[..|a + b| - 1] == a + b[..|b| - 1];
      LaterConcat(a, b[..|b| - 1], after);
    }
  }

  lemma {:induction false} LaterBounds(s: Times, after: int)
    ensures Later(s, after) <= |s|
    ensures AllAtMost(s, after) ==> Later(s, after) == 0
    ensures AllAbove(s, after) ==> Later(s, after) == |s|
  {
    if s != [] { LaterBounds(s[..|s| - 1], after); }
  }

  lemma {:induction false} WithinLater(s: Times, from: int, to: int, after: int)
    requires from > after
    ensures Within(s, from, to) <= Later(s, after)
  {
    if s != [] { WithinLater(s[..|s| - 1], from, to, after); }
  }

  // ---------------------------------------------------------------------------
  // One key: its queue against its history

  /** The queue is the end of the history; what a queue that is not full lacks has been idle for longer
      than the expiration. */
  ghost predicate InStep(queue: Option<Times>, history: Times, clock: int, limit: nat, expiration: int) {
    && Ordered(history) && AllAtMost(history, clock)
    && match queue
       case None => AllAtMost(history, clock - expiration - 1)
       case Some(q) =>
         && 0 < |q| <= |history| && |q| <= limit && q == history[|history| - |q|..]
         && (|q| < limit ==> AllAtMost(history[..|history| - |q|], clock - expiration - 1))
  }

  lemma AcceptKeepsStep(queue: Option<Times>, history: Times, clock: int, limit: nat, expiration: int, now: int)
    requires InStep(queue, history, clock, limit, expiration) && clock <= now && limit >= 1
    ensures InStep(Some(AfterAccept(queue, limit, now)), history + [now], now, limit, expiration)
  {
    var h, q := history + [now], AfterAccept(queue, limit, now);
    if queue.Some? {
      var n := |history| - |queue.value|;
      if |queue.value| < limit {
        assert q == h[n..];
        assert h[..n] == history[..n];
      } else {
        assert q == h[n + 1..];
      }
    } else {
      assert q == h[|history|..];
      assert h[..|history|] == history;
    }
  }

  lemma TimeKeepsStep(queue: Option<Times>, history: Times, clock: int, limit: nat, expiration: int, now: int)
    requires InStep(queue, history, clock, limit, expiration) && clock <= now
    ensures InStep(queue, history, now, limit, expiration)
    ensures queue.Some? && Expired(queue.value, expiration, now) ==> InStep(None, history, now, limit, expiration)
  {
    if queue.Some? {
      assert queue.value[|queue.value| - 1] == history[|history| - 1];
    }
  }

  lemma FullQueue(gone: Times, q: Times, after: int)
    requires q != [] && AllAtMost(gone, q[0]) && forall i :: 0 <= i < |q| ==> q[0] <= q[i]
    ensures q[0] <= after ==> Later(gone + q, after) < |q|
    ensures q[0] > after ==> Later(gone + q, after) >= |q|
  {
    LaterConcat(gone, q, after);
    LaterBounds(gone, after);
    LaterBounds(q, after);
    if q[0] <= after {
      assert [q[0]] + q[1..] == q;
      LaterConcat([q[0]], q[1..], after);
      LaterBounds([q[0]], after);
      LaterBounds(q[1..], after);
    }
  }

  /** A queue in step with the history decides like the history. */
  lemma DecisionIsDue(
    queue: Option<Times>, history: Times, clock: int, limit: nat, window: int, expiration: int, now: int)
    requires InStep(queue, history, clock, limit, expiration) && clock <= now
    requires limit >= 1 && window <= expiration + 1
    ensures Accepts(queue, limit, window, now) <==> Due(history, limit, window, now)
  {
    var after := now - window;
    match queue
    case None => LaterBounds(history, after);
    case Some(q) =>
      var n := |history| - |q|;
      var gone := history[..n];
      assert history == gone + q;
      if |q| < limit {
        LaterConcat(gone, q, after);
        LaterBounds(gone, after);
        LaterBounds(q, after);
      } else {
        OrderedSplit(history, n);
        FullQueue(gone, q, after);
      }
  }

  lemma OrderedSplit(history: Times, n: nat)
    requires Ordered(history) && n < |history|
    ensures AllAtMost(history[..n], history[n])
    ensures forall i :: 0 <= i < |history| - n ==> history[n..][0] <= history[n..][i]
  {
  }

  // ---------------------------------------------------------------------------
  // Runs

  datatype Event = Hit(key: string, now: int) | Sweep(now: int)

  /** The limit and window each key is always used with. */
  datatype Policy = Policy(limit: string -> nat, window: string -> int, expiration: int)

  datatype State = State(store: Store, accepted: map<string, Times>, clock: int) {
    function Queue(k: string): Option<Times> { QueueOf(store, k) }

    function History(k: string): Times { if k in accepted then accepted[k] else [] }
  }

  predicate Allowed(p: Policy, s: State, k: string, now: int) {
    Accepts(s.Queue(k), p.limit(k), p.window(k), now)
  }

  function Next(p: Policy, s: State, e: Event): State {
    match e
    case Hit(k, now) =>
      if Allowed(p, s, k, now) then
        State(s.store[k := AfterAccept(s.Queue(k), p.limit(k), now)], s.accepted[k := s.History(k) + [now]], now)
      else s.(clock := now)
    case Sweep(now) => s.(store := Swept(s.store, p.expiration, now), clock := now)
  }

  /** `s` is where a run of events leads, the clock never going back. */
  ghost predicate Reaches(p: Policy, start: int, events: seq<Event>, s: State) {
    if events == [] then s == State(map[], map[], start)
    else
      var init, e := events[..|events| - 1], events[|events| - 1];
      exists q :: Reaches(p, start, init, q) && Step(p, q, e, s)
  }

  ghost predicate Step(p: Policy, q: State, e: Event, s: State) { q.clock <= e.now && s == Next(p, q, e) }

  ghost predicate KeyOk(p: Policy, s: State, k: string) {
    InStep(s.Queue(k), s.History(k), s.clock, p.limit(k), p.expiration)
  }

  lemma StepKeepsKey(p: Policy, s: State, e: Event, n: State, k: string)
    requires KeyOk(p, s, k) && Step(p, s, e, n) && p.limit(k) >= 1
    ensures KeyOk(p, n, k)
  {
    AcceptKeepsStep(s.Queue(k), s.History(k), s.clock, p.limit(k), p.expiration, e.now);
    TimeKeepsStep(s.Queue(k), s.History(k), s.clock, p.limit(k), p.expiration, e.now);
    if e.Hit? && e.key == k && Allowed(p, s, k, e.now) {
      assert n.Queue(k) == Some(AfterAccept(s.Queue(k), p.limit(k), e.now));
      assert n.History(k) == s.History(k) + [e.now];
    } else {
      assert n.History(k) == s.History(k);
      assert n.Queue(k) == s.Queue(k)
          || (n.Queue(k) == None && s.Queue(k).Some? && Expired(s.Queue(k).value, p.expiration, e.now));
    }
  }

  lemma {:induction false} RunKeepsKey(p: Policy, start: int, events: seq<Event>, s: State, k: string)
    requires Reaches(p, start, events, s) && p.limit(k) >= 1
    ensures KeyOk(p, s, k)
  {
    if events != [] {
      var init, e := events[..|events| - 1], events[|events| - 1];
      var q :| Reaches(p, start, init, q) && Step(p, q, e, s);
      RunKeepsKey(p, start, init, q, k);
      StepKeepsKey(p, q, e, s, k);
    }
  }

  /** After any run of requests and cleanups, a request is accepted exactly when fewer than `limit`
      of all the accepted requests for its key lie within the last `window` seconds. */
  lemma RequestIsExact(p: Policy, start: int, events: seq<Event>, s: State, k: string, now: int)
    requires Reaches(p, start, events, s) && s.clock <= now
    requires p.limit(k) >= 1 && p.window(k) <= p.expiration + 1
    ensures Allowed(p, s, k, now) <==> Due(s.History(k), p.limit(k), p.window(k), now)
  {
    RunKeepsKey(p, start, events, s, k);
    DecisionIsDue(s.Queue(k), s.History(k), s.clock, p.limit(k), p.window(k), p.expiration, now);
  }

  lemma HistoryStep(p: Policy, q: State, e: Event, s: State, k: string)
    requires Step(p, q, e, s)
    ensures s.History(k) == q.History(k) + if e.Hit? && e.key == k && Allowed(p, q, k, e.now) then [e.now] else []
  {
  }

  /** One more accepted request does not overfill any window. */
  lemma DueKeepsBound(history: Times, limit: nat, window: int, now: int, from: int)
    requires Due(history, limit, window, now) && Within(history, from, from + window) <= limit
    ensures Within(history + [now], from, from + window) <= limit
  {
    assert (history + [now])[..|history|] == history;
    if from <= now < from + window {
      WithinLater(history, from, from + window, now - window);
    }
  }

  /** No time window of length `window` ever holds more than `limit` accepted requests. */
  lemma {:induction false} WindowIsBounded(p: Policy, start: int, events: seq<Event>, s: State, k: string, from: int)
    requires Reaches(p, start, events, s)
    requires p.limit(k) >= 1 && p.window(k) <= p.expiration + 1
    ensures Within(s.History(k), from, from + p.window(k)) <= p.limit(k)
  {
    if events != [] {
      var init, e := events[..|events| - 1], events[|events| - 1];
      var q :| Reaches(p, start, init, q) && Step(p, q, e, s);
      WindowIsBounded(p, start, init, q, k, from);
      HistoryStep(p, q, e, s, k);
      if e.Hit? && e.key == k && Allowed(p, q, k, e.now) {
        RequestIsExact(p, start, init, q, k, e.now);
        DueKeepsBound(q.History(k), p.limit(k), p.window(k), e.now, from);
      }
    }
  }

  // ---------------------------------------------------------------------------
  // Where the conditions are needed

  /** `n` accepted requests for one key at time 0. */
  lemma {:induction false} Burst(p: Policy, k: string, n: nat) returns (events: seq<Event>, s: State)
    requires n <= p.limit(k)
    ensures Reaches(p, 0, events, s) && s.clock == 0
    ensures |s.History(k)| == n && forall i :: 0 <= i < n ==> s.History(k)[i] == 0
    ensures s.Queue(k) == if n == 0 then None else Some(s.History(k))
  {
    if n == 0 {
      events, s := [], State(map[], map[], 0);
    } else {
      var init, q := Burst(p, k, n - 1);
      var e := Hit(k, 0);
      events, s := init + [e], Next(p, q, e);
      Extend(p, 0, init, q, e);
      assert Allowed(p, q, k, 0);
      HistoryStep(p, q, e, s, k);
      assert AfterAccept(q.Queue(k), p.limit(k), 0) == q.History(k) + [0];
      assert s.Queue(k) == Some(AfterAccept(q.Queue(k), p.limit(k), 0));
    }
  }

  lemma Extend(p: Policy, start: int, events: seq<Event>, q: State, e: Event)
    requires Reaches(p, start, events, q) && q.clock <= e.now
    ensures Reaches(p, start, events + [e], Next(p, q, e))
  {
    assert (events + [e])[..|events|] == events;
    assert Step(p, q, e, Next(p, q, e));
  }

  /** The bound on the window is exact: with any longer one, the cleanup forgets a full window. */
  lemma LongWindowsForget(p: Policy, k: string) returns (events: seq<Event>, s: State)
    requires p.limit(k) >= 1 && p.expiration >= 0 && p.window(k) > p.expiration + 1
    ensures Reaches(p, 0, events, s)
    ensures Allowed(p, s, k, s.clock) && !Due(s.History(k), p.limit(k), p.window(k), s.clock)
  {
    var init, q := Burst(p, k, p.limit(k));
    var e := Sweep(p.expiration + 1);
    events, s := init + [e], Next(p, q, e);
    Extend(p, 0, init, q, e);
    LaterBounds(q.History(k), s.clock - p.window(k));
  }

  /** A limit of zero does not shut a key out: it acts as a limit of one. */
  lemma ZeroLimitActsAsOne(queue: Option<Times>, window: int, now: int)
    requires queue.Some? ==> queue.value != []
    ensures Accepts(queue, 0, window, now) == Accepts(queue, 1, window, now)
    ensures AfterAccept(queue, 0, now) == AfterAccept(queue, 1, now)
  {
  }
}
