/** Verification codes (common/verification.go): a map from purpose and key to a code, whose expired
    entries are swept when it grows. Times are nanoseconds of a clock that never goes back. */
module Verification {
  import opened Text

  datatype Purpose = EmailVerification | PasswordReset {
    function Tag(): string { if EmailVerification? then "v" else "r" }
  }

  datatype Value = Value(code: string, time: int)

  type Entries = map<string, Value>

  const SECOND := 1_000_000_000

  /** Whole seconds, as `int(now.Sub(t).Seconds())` gives them once `now` is not before `t`. */
  predicate Expired(v: Value, validMinutes: int, now: int) { (now - v.time) / SECOND >= validMinutes * 60 }

  function Slot(purpose: string, key: string): string { purpose + key }

  function Swept(entries: Entries, validMinutes: int, now: int): Entries {
    map k | k in entries && !Expired(entries[k], validMinutes, now) :: entries[k]
  }

  class VerificationCodes {
    var entries: Entries
    const maxSize: nat
    const validMinutes: int

    constructor (maxSize: nat, validMinutes: int)
      ensures entries == map[] && this.maxSize == maxSize && this.validMinutes == validMinutes
    {
      entries, this.maxSize, this.validMinutes := map[], maxSize, validMinutes;
    }

    /** `RegisterVerificationCodeWithKey`; `later` is the time that the sweep reads. */
    method Register(key: string, code: string, purpose: string, now: int, later: int)
      modifies this
      ensures var grown := old(entries)[Slot(purpose, key) := Value(code, now)];
              entries == if |grown| > maxSize then Swept(grown, validMinutes, later) else grown
    {
      entries := entries[purpose + key := Value(code, now)];
      if |entries| > maxSize { RemoveExpiredPairs(later); }
    }

    /** `VerifyCodeWithKey` */
    method Verify(key: string, code: string, purpose: string, now: int) returns (ok: bool)
      ensures ok == Accepts(entries, Slot(purpose, key), code, validMinutes, now)
    {
      if purpose + key !in entries { return false; }
      var value := entries[purpose + key];
      if (now - value.time) / SECOND >= validMinutes * 60 { return false; }
      return code == value.code;
    }

    method DeleteKey(key: string, purpose: string)
      modifies this
      ensures entries == old(entries) - {Slot(purpose, key)}
    {
      entries := entries - {purpose + key};
    }

    method RemoveExpiredPairs(now: int)
      modifies this
      ensures entries == Swept(old(entries), validMinutes, now)
    {
      var todo := entries.Keys;
      while todo != {}
        invariant todo <= old(entries).Keys
        invariant forall k ::
                    k in entries <==> k in old(entries) && (k in todo || !Expired(old(entries)[k], validMinutes, now))
        invariant forall k :: k in entries ==> entries[k] == old(entries)[k]
        decreases todo
      {
        var key :| key in todo;
        if Expired(entries[key], validMinutes, now) { entries := entries - {key}; }
        todo := todo - {key};
      }
    }
  }

  predicate Accepts(entries: Entries, slot: string, code: string, validMinutes: int, now: int) {
    slot in entries && !Expired(entries[slot], validMinutes, now) && entries[slot].code == code
  }

  // ---------------------------------------------------------------------------
  // Purposes share one map

  /** Slots are told apart as long as purposes have one length. */
  lemma SlotsAreDistinct(p: string, k: string, q: string, l: string)
    requires |p| == |q|
    ensures Slot(p, k) == Slot(q, l) <==> p == q && k == l
  {
    assert Slot(p, k)[..|p|] == p && Slot(q, l)[..|q|] == q;
    assert Slot(p, k)[|p|..] == k && Slot(q, l)[|q|..] == l;
  }

  lemma PurposesAreDistinct(p: Purpose, k: string, q: Purpose, l: string)
    ensures Slot(p.Tag(), k) == Slot(q.Tag(), l) <==> p == q && k == l
  {
    SlotsAreDistinct(p.Tag(), k, q.Tag(), l);
  }

  // Remark: the lengths matter. A purpose that extended another one would collide with it.
  lemma LongerPurposesCollide(p: string, extra: string, k: string)
    requires extra != ""
    ensures p != p + extra && Slot(p, extra + k) == Slot(p + extra, k)
  {
    assert |p| != |p + extra|;
  }

  // ---------------------------------------------------------------------------
  // Runs

  /** `swept` says whether a registration found the map too large and swept it at `later`. */
  datatype Event =
    | Registered(purpose: Purpose, key: string, code: string, now: int, later: int, swept: bool)
    | Deleted(purpose: Purpose, key: string)

  datatype State = State(entries: Entries, clock: int)

  function Next(minutes: int, s: State, e: Event): State {
    match e
    case Registered(p, k, code, now, later, swept) =>
      var grown := s.entries[Slot(p.Tag(), k) := Value(code, now)];
      State(if swept then Swept(grown, minutes, later) else grown, later)
    case Deleted(p, k) => s.(entries := s.entries - {Slot(p.Tag(), k)})
  }

  predicate InOrder(clock: int, e: Event) { e.Registered? ==> clock <= e.now <= e.later }

  ghost predicate Step(minutes: int, q: State, e: Event, s: State) { InOrder(q.clock, e) && s == Next(minutes, q, e) }

  ghost predicate Reaches(minutes: int, start: int, events: seq<Event>, s: State) {
    if events == [] then s == State(map[], start)
    else
      var init, e := events[..|events| - 1], events[|events| - 1];
      exists q :: Reaches(minutes, start, init, q) && Step(minutes, q, e, s)
  }

  /** The reference: the most recent registration, unless it was deleted since. */
  function Latest(events: seq<Event>, p: Purpose, k: string): Option<Value> {
    if events == [] then None
    else
      var e := events[|events| - 1];
      if e.purpose != p || e.key != k then Latest(events[..|events| - 1], p, k)
      else if e.Registered? then Some(Value(e.code, e.now))
      else None
  }

  /** What is stored is the latest registration; what is missing was none, or has expired. */
  ghost predicate InStep(minutes: int, entries: Entries, slot: string, latest: Option<Value>, clock: int) {
    if slot in entries then latest == Some(entries[slot])
    else latest.Some? ==> Expired(latest.value, minutes, clock)
  }

  lemma SweepKeepsStep(minutes: int, entries: Entries, slot: string, latest: Option<Value>, clock: int, later: int)
    requires InStep(minutes, entries, slot, latest, clock) && clock <= later
    ensures InStep(minutes, Swept(entries, minutes, later), slot, latest, later)
    ensures InStep(minutes, entries, slot, latest, later)
  {
  }

  lemma StepKeeps(minutes: int, s: State, e: Event, p: Purpose, k: string, before: Option<Value>)
    requires InOrder(s.clock, e) && InStep(minutes, s.entries, Slot(p.Tag(), k), before, s.clock)
    ensures var after := if e.purpose != p || e.key != k then before
                         else if e.Registered? then Some(Value(e.code, e.now)) else None;
            var n := Next(minutes, s, e);
            InStep(minutes, n.entries, Slot(p.Tag(), k), after, n.clock) && s.clock <= n.clock
  {
    PurposesAreDistinct(p, k, e.purpose, e.key);
    if e.Registered? {
      var after := if e.purpose != p || e.key != k then before else Some(Value(e.code, e.now));
      var grown := s.entries[Slot(e.purpose.Tag(), e.key) := Value(e.code, e.now)];
      assert InStep(minutes, grown, Slot(p.Tag(), k), after, s.clock);
      SweepKeepsStep(minutes, grown, Slot(p.Tag(), k), after, s.clock, e.later);
    }
  }

  lemma {:induction false} RunKeepsStep(minutes: int, start: int, events: seq<Event>, s: State, p: Purpose, k: string)
    requires Reaches(minutes, start, events, s)
    ensures InStep(minutes, s.entries, Slot(p.Tag(), k), Latest(events, p, k), s.clock)
  {
    if events != [] {
      var init, e := events[..|events| - 1], events[|events| - 1];
      var q :| Reaches(minutes, start, init, q) && Step(minutes, q, e, s);
      RunKeepsStep(minutes, start, init, q, p, k);
      StepKeeps(minutes, q, e, p, k, Latest(init, p, k));
    }
  }

  /** After any run a code is accepted if and only if the most recent registration for that purpose and
      key has not been deleted, has not expired and carries that code. */
  lemma VerifyIsExact(
    minutes: int, start: int, events: seq<Event>, s: State, p: Purpose, k: string, code: string, now: int)
    requires Reaches(minutes, start, events, s) && s.clock <= now
    ensures Accepts(s.entries, Slot(p.Tag(), k), code, minutes, now)
       <==> var latest := Latest(events, p, k);
            latest.Some? && !Expired(latest.value, minutes, now) && latest.value.code == code
  {
    RunKeepsStep(minutes, start, events, s, p, k);
  }

  /** The same with the time written out, in nanoseconds: a registration is good for that many minutes. */
  lemma VerifyIsExactInTime(
    minutes: int, start: int, events: seq<Event>, s: State, p: Purpose, k: string, code: string, now: int)
    requires Reaches(minutes, start, events, s) && s.clock <= now
    ensures Accepts(s.entries, Slot(p.Tag(), k), code, minutes, now)
       <==> var latest := Latest(events, p, k);
            && latest.Some? && latest.value.code == code
            && now < latest.value.time + minutes * 60 * 1_000_000_000
  {
    VerifyIsExact(minutes, start, events, s, p, k, code, now);
    var latest := Latest(events, p, k);
    if latest.Some? { ExpiredExactly(latest.value, minutes, now); }
  }

  lemma ExpiredExactly(v: Value, minutes: int, now: int)
    ensures Expired(v, minutes, now) <==> now >= v.time + minutes * 60 * 1_000_000_000
  {
  }

  /** A sweep keeps exactly the entries that are still good. */
  lemma SweptExactly(entries: Entries, minutes: int, now: int, k: string)
    ensures k in Swept(entries, minutes, now)
       <==> k in entries && now < entries[k].time + minutes * 60 * 1_000_000_000
    ensures k in Swept(entries, minutes, now) ==> Swept(entries, minutes, now)[k] == entries[k]
  {
    if k in entries { ExpiredExactly(entries[k], minutes, now); }
  }

  function Unswept(e: Event): Event { if e.Registered? then e.(swept := false) else e }

  /** The same registrations and deletions, whatever was swept. */
  ghost predicate SameButSweeps(a: seq<Event>, b: seq<Event>) {
    |a| == |b| && forall i :: 0 <= i < |a| ==> Unswept(a[i]) == Unswept(b[i])
  }

  lemma {:induction false} SameLatest(a: seq<Event>, b: seq<Event>, p: Purpose, k: string)
    requires SameButSweeps(a, b)
    ensures Latest(a, p, k) == Latest(b, p, k)
  {
    if a != [] {
      SameLatest(a[..|a| - 1], b[..|b| - 1], p, k);
      assert Unswept(a[|a| - 1]) == Unswept(b[|b| - 1]);
    }
  }

  /** Sweeping is unobservable: stores that sweep at different times, so at any two sizes, give the same
      answers. */
  lemma EvictionIsUnobservable(minutes: int, start: int, a: seq<Event>, b: seq<Event>, s: State, t: State,
                               p: Purpose, k: string, code: string, now: int)
    requires SameButSweeps(a, b) && Reaches(minutes, start, a, s) && Reaches(minutes, start, b, t)
    requires s.clock <= now && t.clock <= now
    ensures Accepts(s.entries, Slot(p.Tag(), k), code, minutes, now)
       <==> Accepts(t.entries, Slot(p.Tag(), k), code, minutes, now)
  {
    SameLatest(a, b, p, k);
    VerifyIsExact(minutes, start, a, s, p, k, code, now);
    VerifyIsExact(minutes, start, b, t, p, k, code, now);
  }
}
