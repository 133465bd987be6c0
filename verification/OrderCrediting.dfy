/** What a thread achieves inside the section of an order, whatever other threads do meanwhile
    (controller/topup.go, lines 373-408 and 494-511; model/topup.go, lines 78-103 and 316-387). */
module OrderCrediting {
  import opened Text
  import opened OrderLock

  function RowOf(s: State, k: Order): Option<Row> { if k in s.rows then Some(s.rows[k]) else None }

  /** An Epay order that waits for its payment. */
  const PAYABLE := Some(Row(true, Pending))

  /** How far thread `t` has come with order `k`: `found` is the row its fetch finds, `before` the credits
      of the order at that time. */
  ghost predicate Progress(s: State, t: Thread, k: Order, found: Option<Row>, before: nat) {
    match s.Pc(t)
    case Seen(k', _, row) => k' == k && row == found && Untouched(s, k, found, before)
    case Marking(k', _) => k' == k && found == PAYABLE && Untouched(s, k, found, before)
    case Crediting(k', _) =>
      k' == k && found == PAYABLE && RowOf(s, k) == Some(Row(true, Success)) && s.Credits(k) == before
    case Leaving(k', _) =>
      && k' == k
      && if found == PAYABLE then RowOf(s, k) == Some(Row(true, Success)) && s.Credits(k) == before + 1
         else Untouched(s, k, found, before)
    case _ => false
  }

  /** The order is as it was found; one that was missing may have been inserted since. */
  ghost predicate Untouched(s: State, k: Order, found: Option<Row>, before: nat) {
    && s.Credits(k) == before
    && (found.Some? ==> RowOf(s, k) == found)
    && (found.None? && k in s.rows ==> s.rows[k].status == Pending)
  }

  /** What a thread does in the section when no call fails. */
  predicate Smooth(a: Action) {
    a.OnOrder? && (a.o == Check || a.o == Mark(true, true) || a.o == Credit(true, true))
  }

  function Rank(pc: Pc): nat {
    match pc
    case Holding(_, _) => 4
    case Seen(_, _, _) => 3
    case Marking(_, _) => 2
    case Crediting(_, _) => 1
    case _ => 0
  }

  lemma FetchFinds(s: State, t: Thread)
    requires s.Pc(t).Holding?
    ensures var k, n := s.Pc(t).k, Next(s, t, OnOrder(Fetch));
            Enabled(s, t, OnOrder(Fetch)) && Progress(n, t, k, RowOf(s, k), s.Credits(k)) && Rank(n.Pc(t)) < 4
  {
  }

  /** Each own step leads on, and some own step is possible until the thread leaves. */
  lemma OwnStepAdvances(s: State, t: Thread, k: Order, found: Option<Row>, before: nat, a: Action)
    requires Progress(s, t, k, found, before) && Enabled(s, t, a) && Smooth(a)
    ensures Progress(Next(s, t, a), t, k, found, before) && Rank(Next(s, t, a).Pc(t)) < Rank(s.Pc(t))
  {
  }

  lemma OwnStepIsPossible(s: State, t: Thread, k: Order, found: Option<Row>, before: nat) returns (a: Action)
    requires Progress(s, t, k, found, before) && !s.Pc(t).Leaving?
    ensures Enabled(s, t, a) && Smooth(a)
  {
    a := OnOrder(match s.Pc(t)
                 case Seen(_, _, _) => Check
                 case Marking(_, _) => Mark(true, true)
                 case _ => Credit(true, true));
  }

  /** Order `k` is the same in both states, but that it may have been inserted. */
  ghost predicate SameOrder(s: State, n: State, k: Order) {
    && n.Credits(k) == s.Credits(k)
    && (RowOf(n, k) == RowOf(s, k) || (k !in s.rows && k in n.rows && n.rows[k].status == Pending))
  }

  lemma OtherOrderStep(s: State, u: Thread, a: OrderAction, k: Order)
    requires OrderEnabled(s, s.Pc(u), a) && (s.Pc(u).Holds() ==> s.Pc(u).k != k)
    ensures SameOrder(s, OrderNext(s, u, a), k)
  {
  }

  lemma OtherStep(s: State, t: Thread, u: Thread, a: Action)
    requires LockInv(s) && u != t && s.Pc(t).Holds() && Enabled(s, u, a)
    ensures SameOrder(s, Next(s, u, a), s.Pc(t).k)
  {
    match a
    case OnLock(l) => LockTouchesNoOrder(s, u, l);
    case OnUnlock(l) => UnlockTouchesNoOrder(s, u, l);
    case OnOrder(o) =>
      if s.Pc(u).Holds() { HoldersDiffer(s, t, u); }
      OtherOrderStep(s, u, o, s.Pc(t).k);
  }

  lemma LockStay(s: State, t: Thread, u: Thread, a: LockAction)
    requires u != t && LockEnabled(s, s.Pc(u), a)
    ensures LockNext(s, u, a).Pc(t) == s.Pc(t)
  {
  }

  lemma UnlockStay(s: State, t: Thread, u: Thread, a: UnlockAction)
    requires u != t && UnlockEnabled(s, s.Pc(u), a)
    ensures UnlockNext(s, u, a).Pc(t) == s.Pc(t)
  {
  }

  lemma OrderStay(s: State, t: Thread, u: Thread, a: OrderAction)
    requires u != t && OrderEnabled(s, s.Pc(u), a)
    ensures OrderNext(s, u, a).Pc(t) == s.Pc(t)
  {
  }

  lemma OthersStay(s: State, t: Thread, u: Thread, a: Action)
    requires u != t && Enabled(s, u, a)
    ensures Next(s, u, a).Pc(t) == s.Pc(t)
  {
    match a
    case OnLock(l) => LockStay(s, t, u, l);
    case OnUnlock(l) => UnlockStay(s, t, u, l);
    case OnOrder(o) => OrderStay(s, t, u, o);
  }

  lemma SameOrderKeeps(s: State, n: State, t: Thread, k: Order, found: Option<Row>, before: nat)
    requires Progress(s, t, k, found, before) && n.Pc(t) == s.Pc(t) && SameOrder(s, n, k)
    ensures Progress(n, t, k, found, before)
  {
  }

  lemma OtherStepKeeps(s: State, t: Thread, k: Order, found: Option<Row>, before: nat, u: Thread, a: Action)
    requires LockInv(s) && Progress(s, t, k, found, before) && u != t && Enabled(s, u, a)
    ensures Progress(Next(s, u, a), t, k, found, before)
  {
    assert s.Pc(t).Holds() && s.Pc(t).k == k;
    OtherStep(s, t, u, a);
    OthersStay(s, t, u, a);
    SameOrderKeeps(s, Next(s, u, a), t, k, found, before);
  }

  /** `n` is reached from `s` by these events, thread `t` doing nothing but the smooth steps. */
  ghost predicate Leads(s: State, events: seq<Event>, t: Thread, n: State)
    decreases |events|
  {
    if events == [] then n == s
    else
      var init, e := events[..|events| - 1], events[|events| - 1];
      exists p :: Leads(s, init, t, p) && StepOf(p, e, t, n)
  }

  ghost predicate StepOf(p: State, e: Event, t: Thread, n: State) {
    Enabled(p, e.thread, e.action) && (e.thread == t ==> Smooth(e.action)) && n == Next(p, e.thread, e.action)
  }

  lemma {:induction false} LeadsKeep(
    s: State, events: seq<Event>, t: Thread, n: State, k: Order, found: Option<Row>, before: nat)
    requires LockInv(s) && Progress(s, t, k, found, before) && Leads(s, events, t, n)
    ensures LockInv(n) && Progress(n, t, k, found, before)
  {
    if events != [] {
      var init, e := events[..|events| - 1], events[|events| - 1];
      var p :| Leads(s, init, t, p) && StepOf(p, e, t, n);
      LeadsKeep(s, init, t, p, k, found, before);
      LockStep(p, e.thread, e.action);
      if e.thread == t {
        OwnStepAdvances(p, t, k, found, before, e.action);
      } else {
        OtherStepKeeps(p, t, k, found, before, e.thread, e.action);
      }
    }
  }

  /** A thread that holds an order, meets no failing call and leaves has credited it, if it was an Epay order
      waiting for payment, and marked it as paid; any other order it leaves as it was. All other threads may
      do anything meanwhile. */
  lemma SectionCredits(start: seq<Event>, s: State, t: Thread, events: seq<Event>, n: State)
    requires Run(start, s) && s.Pc(t).Holding?
    requires Leads(Next(s, t, OnOrder(Fetch)), events, t, n) && n.Pc(t).Leaving?
    ensures var k := s.Pc(t).k;
            if k in s.rows && s.rows[k].epay && s.rows[k].status == Pending then
              k in n.rows && n.rows[k].status == Success && s.Credits(k) == 0 && n.Credits(k) == 1
            else
              && n.Credits(k) == s.Credits(k)
              && (k in s.rows ==> k in n.rows && n.rows[k] == s.rows[k])
              && (k !in s.rows && k in n.rows ==> n.rows[k].status == Pending)
  {
    var k, f := s.Pc(t).k, Next(s, t, OnOrder(Fetch));
    RunKeepsInvariants(start, s);
    FetchFinds(s, t);
    LockStep(s, t, OnOrder(Fetch));
    LeadsKeep(f, events, t, n, k, RowOf(s, k), s.Credits(k));
    assert OrderOk(s, k);
  }

  lemma LeadsOn(s: State, events: seq<Event>, t: Thread, p: State, e: Event, n: State)
    requires Leads(s, events, t, p) && StepOf(p, e, t, n)
    ensures Leads(s, events + [e], t, n)
  {
    var all := events + [e];
    assert all[..|all| - 1] == events && all[|all| - 1] == e;
  }

  /** And it can always leave: at most three own steps after the fetch do, whatever has happened so far. */
  lemma SectionEnds(s: State, done: seq<Event>, p: State, t: Thread, k: Order, found: Option<Row>, before: nat)
    returns (events: seq<Event>, n: State)
    requires Leads(s, done, t, p) && Progress(p, t, k, found, before)
    ensures Leads(s, events, t, n) && n.Pc(t).Leaving? && |events| <= |done| + Rank(p.Pc(t))
    decreases Rank(p.Pc(t))
  {
    events, n := done, p;
    if !p.Pc(t).Leaving? {
      var a := OwnStepIsPossible(p, t, k, found, before);
      OwnStepAdvances(p, t, k, found, before, a);
      LeadsOn(s, done, t, p, Event(t, a), Next(p, t, a));
      events, n := SectionEnds(s, done + [Event(t, a)], Next(p, t, a), t, k, found, before);
    }
  }

  /** The administrator's completion is one transaction: it pays a pending order, of any provider, or
      changes nothing; expiring closes a pending order and credits nothing. */
  lemma TransactionsAreWhole(s: State, t: Thread, done: bool, k: Order)
    requires s.Pc(t).Holding?
    ensures var own := s.Pc(t).k;
            var acts := done && own in s.rows && s.rows[own].status == Pending;
            var paid, closed := Next(s, t, OnOrder(AdminComplete(done))), Next(s, t, OnOrder(Expire(done)));
            && paid.Pc(t).Leaving? && closed.Pc(t).Leaving?
            && paid.Credits(k) == s.Credits(k) + (if acts && k == own then 1 else 0)
            && RowOf(paid, k) == (if acts && k == own then Some(Row(s.rows[k].epay, Success)) else RowOf(s, k))
            && closed.Credits(k) == s.Credits(k)
            && RowOf(closed, k) == (if acts && k == own then Some(Row(s.rows[k].epay, Closed)) else RowOf(s, k))
  {
  }

  /** A new order waits for its payment and has no credit; nothing else changes. */
  lemma InsertedIsPending(start: seq<Event>, s: State, t: Thread, k: Order, epay: bool, j: Order)
    requires Run(start, s) && k !in s.rows
    ensures var n := Next(s, t, OnOrder(Insert(k, epay)));
            && n.pcs == s.pcs && n.Credits(j) == s.Credits(j)
            && RowOf(n, j) == (if j == k then Some(Row(epay, Pending)) else RowOf(s, j))
            && n.Credits(k) == 0
  {
    RunKeepsInvariants(start, s);
    assert OrderOk(s, k);
  }
}
