/** The per-order lock with reference counting and the crediting done under it
    (controller/topup.go), as a transition system: one transition for each operation on shared
    memory, taken by any thread at any time. */
module OrderLock {
  import opened Text

  type Thread = nat
  type Order = string
  type MutexId = nat

  datatype Status = Pending | Success | Closed

  /** A stored top-up order: whether it belongs to Epay, and its status. */
  datatype Row = Row(epay: bool, status: Status)

  /** `refCountedMutex`; bookkeeping adds the order it was created for and who locked `mu`. */
  datatype Cell = Cell(refs: int, holder: Option<Thread>, order: Order)

  /** Where a thread stands. `m` is the mutex a LockOrder call has found. */
  datatype Pc =
    | Idle
    // LockOrder; the first four hold createLock
    | Entered(k: Order)
    | Missing(k: Order)
    | Found(k: Order, m: MutexId)
    | Counted(k: Order, m: MutexId)
    | Waiting(k: Order, m: MutexId)
    // the critical section of EpayNotify or AdminCompleteTopUp
    | Holding(k: Order, m: MutexId)
    | Seen(k: Order, m: MutexId, row: Option<Row>)
    | Marking(k: Order, m: MutexId)
    | Crediting(k: Order, m: MutexId)
    | Leaving(k: Order, m: MutexId)
    // UnlockOrder; `loaded` is what it read from the map; the last three hold createLock
    | Unlocking(k: Order, m: MutexId, loaded: MutexId)
    | Released(k: Order, m: MutexId)
    | Unregistering(k: Order, m: MutexId)
    | Uncounted(k: Order, m: MutexId)
    | Exiting(k: Order)
  {
    predicate Critical() {
      Entered? || Missing? || Found? || Counted? || Unregistering? || Uncounted? || Exiting?
    }

    /** The thread keeps a reference to `m`. */
    predicate Refers() {
      Found? || Counts() || Uncounted?
    }

    /** Between `refCount++` and `refCount--`. */
    predicate Counts() {
      Counted? || Waiting? || Holds() || Released? || Unregistering?
    }

    /** Between `mu.Lock` and `mu.Unlock`. */
    predicate Holds() {
      Holding? || Seen? || Marking? || Crediting? || Leaving? || Unlocking?
    }
  }

  datatype State = State(
    createLock: Option<Thread>,
    locks: map<Order, MutexId>,
    cells: map<MutexId, Cell>,
    pcs: map<Thread, Pc>,
    rows: map<Order, Row>,
    credits: map<Order, nat>,
    faults: set<Order>)
  {
    function Pc(t: Thread): Pc { if t in pcs then pcs[t] else Idle }

    function Credits(k: Order): nat { if k in credits then credits[k] else 0 }

    function Users(m: MutexId): set<Thread> {
      set t | t in pcs && pcs[t].Counts() && pcs[t].m == m
    }

    function At(t: Thread, pc: Pc): State { this.(pcs := pcs[t := pc]) }
  }

  const INITIAL := State(None, map[], map[], map[], map[], map[], {})

  /** The operations of LockOrder. */
  datatype LockAction = Begin(k: Order) | Load | Store(id: MutexId) | Count | EndRegister | Lock

  /** The operations done under the lock, and the insertion of a new order by anyone. Database calls
      may report an error whether or not they took effect, which `ok` and `done` choose. */
  datatype OrderAction =
    | Insert(k: Order, epay: bool)
    | Fetch | Check | Mark(ok: bool, done: bool) | Credit(ok: bool, done: bool)
    | AdminComplete(done: bool) | Expire(done: bool)

  /** The operations of UnlockOrder. */
  datatype UnlockAction = UnlockLoad | Unlock | EnterUnregister | Uncount | Drop | EndUnregister

  datatype Action = OnLock(l: LockAction) | OnOrder(o: OrderAction) | OnUnlock(u: UnlockAction)

  predicate Enabled(s: State, t: Thread, a: Action) {
    match a
    case OnLock(l) => LockEnabled(s, s.Pc(t), l)
    case OnOrder(o) => OrderEnabled(s, s.Pc(t), o)
    case OnUnlock(u) => UnlockEnabled(s, s.Pc(t), u)
  }

  function Next(s: State, t: Thread, a: Action): State
    requires Enabled(s, t, a)
  {
    match a
    case OnLock(l) => LockNext(s, t, l)
    case OnOrder(o) => OrderNext(s, t, o)
    case OnUnlock(u) => UnlockNext(s, t, u)
  }

  predicate LockEnabled(s: State, pc: Pc, a: LockAction) {
    match a
    case Begin(_) => pc.Idle? && s.createLock.None?
    case Load => pc.Entered?
    case Store(id) => pc.Missing? && id !in s.cells
    case Count => pc.Found? && pc.m in s.cells
    case EndRegister => pc.Counted?
    case Lock => pc.Waiting? && pc.m in s.cells && s.cells[pc.m].holder.None?
  }

  function LockNext(s: State, t: Thread, a: LockAction): State
    requires LockEnabled(s, s.Pc(t), a)
  {
    var pc := s.Pc(t);
    match a
    case Begin(k) => s.(createLock := Some(t)).At(t, Entered(k))
    case Load => s.At(t, if pc.k in s.locks then Found(pc.k, s.locks[pc.k]) else Missing(pc.k))
    case Store(id) =>
      s.(locks := s.locks[pc.k := id], cells := s.cells[id := Cell(0, None, pc.k)]).At(t, Found(pc.k, id))
    case Count =>
      var c := s.cells[pc.m];
      s.(cells := s.cells[pc.m := c.(refs := c.refs + 1)]).At(t, Counted(pc.k, pc.m))
    case EndRegister => s.(createLock := None).At(t, Waiting(pc.k, pc.m))
    case Lock =>
      s.(cells := s.cells[pc.m := s.cells[pc.m].(holder := Some(t))]).At(t, Holding(pc.k, pc.m))
  }

  predicate OrderEnabled(s: State, pc: Pc, a: OrderAction) {
    match a
    case Insert(k, _) => k !in s.rows
    case Fetch => pc.Holding?
    case Check => pc.Seen?
    case Mark(ok, done) => pc.Marking? && (ok ==> done)
    case Credit(ok, done) => pc.Crediting? && (ok ==> done)
    case AdminComplete(_) => pc.Holding?
    case Expire(_) => pc.Holding?
  }

  function OrderNext(s: State, t: Thread, a: OrderAction): State
    requires OrderEnabled(s, s.Pc(t), a)
  {
    var pc := s.Pc(t);
    match a
    case Insert(k, epay) => s.(rows := s.rows[k := Row(epay, Pending)])
    case Fetch => s.At(t, Seen(pc.k, pc.m, if pc.k in s.rows then Some(s.rows[pc.k]) else None))
    case Check =>
      s.At(t, if pc.row == Some(Row(true, Pending)) then Marking(pc.k, pc.m) else Leaving(pc.k, pc.m))
    case Mark(ok, done) =>
      s.(rows := if done then s.rows[pc.k := Row(true, Success)] else s.rows,
         faults := if ok then s.faults else s.faults + {pc.k})
       .At(t, if ok then Crediting(pc.k, pc.m) else Leaving(pc.k, pc.m))
    case Credit(ok, done) =>
      s.(credits := if done then s.credits[pc.k := s.Credits(pc.k) + 1] else s.credits,
         faults := if ok then s.faults else s.faults + {pc.k})
       .At(t, Leaving(pc.k, pc.m))
    case AdminComplete(done) =>
      // one database transaction: it marks and credits together, or does neither
      (if done && pc.k in s.rows && s.rows[pc.k].status == Pending then
         s.(rows := s.rows[pc.k := s.rows[pc.k].(status := Success)],
            credits := s.credits[pc.k := s.Credits(pc.k) + 1])
       else s).At(t, Leaving(pc.k, pc.m))
    case Expire(done) =>
      (if done && pc.k in s.rows && s.rows[pc.k].status == Pending then
         s.(rows := s.rows[pc.k := s.rows[pc.k].(status := Closed)])
       else s).At(t, Leaving(pc.k, pc.m))
  }

  predicate UnlockEnabled(s: State, pc: Pc, a: UnlockAction) {
    match a
    case UnlockLoad => pc.Leaving?
    case Unlock => pc.Unlocking? && pc.loaded in s.cells
    case EnterUnregister => pc.Released? && s.createLock.None?
    case Uncount => pc.Unregistering? && pc.m in s.cells
    case Drop => pc.Uncounted? && pc.m in s.cells
    case EndUnregister => pc.Exiting?
  }

  function UnlockNext(s: State, t: Thread, a: UnlockAction): State
    requires UnlockEnabled(s, s.Pc(t), a)
  {
    var pc := s.Pc(t);
    match a
    case UnlockLoad => s.At(t, if pc.k in s.locks then Unlocking(pc.k, pc.m, s.locks[pc.k]) else Idle)
    case Unlock =>
      s.(cells := s.cells[pc.loaded := s.cells[pc.loaded].(holder := None)]).At(t, Released(pc.k, pc.loaded))
    case EnterUnregister => s.(createLock := Some(t)).At(t, Unregistering(pc.k, pc.m))
    case Uncount =>
      var c := s.cells[pc.m];
      s.(cells := s.cells[pc.m := c.(refs := c.refs - 1)]).At(t, Uncounted(pc.k, pc.m))
    case Drop =>
      s.(locks := if s.cells[pc.m].refs == 0 then s.locks - {pc.k} else s.locks).At(t, Exiting(pc.k))
    case EndUnregister => s.(createLock := None).At(t, Idle)
  }

  // ---------------------------------------------------------------------------
  // Invariant of the lock

  ghost predicate ThreadOk(s: State, t: Thread) {
    var pc := s.Pc(t);
    && (pc.Critical() <==> s.createLock == Some(t))
    && (pc.Refers() ==> pc.k in s.locks && s.locks[pc.k] == pc.m && pc.m in s.cells)
    && (pc.Missing? ==> pc.k !in s.locks)
    && (pc.Unlocking? ==> pc.loaded == pc.m)
    && (pc.Holds() ==> s.cells[pc.m].holder == Some(t))
  }

  ghost predicate CountOk(s: State, m: MutexId)
    requires m in s.cells
  {
    s.cells[m].refs == |s.Users(m)|
  }

  ghost predicate HolderOk(s: State, m: MutexId)
    requires m in s.cells
  {
    var holder := s.cells[m].holder;
    holder.Some? ==> s.Pc(holder.value).Holds() && s.Pc(holder.value).m == m
  }

  /** Its creator, before counting itself, or its last user, before deleting it. */
  predicate Transient(s: State, k: Order) {
    && s.createLock.Some?
    && var pc := s.Pc(s.createLock.value);
       (pc.Found? || pc.Uncounted?) && pc.k == k
  }

  ghost predicate EntryOk(s: State, k: Order)
    requires k in s.locks
  {
    && s.locks[k] in s.cells
    && s.cells[s.locks[k]].order == k
    && (s.cells[s.locks[k]].refs > 0 || Transient(s, k))
  }

  ghost predicate LockInv(s: State) {
    && (forall t: Thread :: ThreadOk(s, t))
    && (forall m :: m in s.cells ==> CountOk(s, m))
    && (forall m :: m in s.cells ==> HolderOk(s, m))
    && (forall k :: k in s.locks ==> EntryOk(s, k))
  }

  function Uses(pc: Pc, m: MutexId): nat { if pc.Counts() && pc.m == m then 1 else 0 }

  /** A step changes the users of a mutex by at most the thread that takes it. */
  lemma UsersStep(s: State, n: State, t: Thread, m: MutexId)
    requires n.pcs == s.pcs[t := n.Pc(t)]
    ensures |n.Users(m)| == |s.Users(m)| - Uses(s.Pc(t), m) + Uses(n.Pc(t), m)
  {
    var others := s.Users(m) - {t};
    assert s.Users(m) == if Uses(s.Pc(t), m) == 1 then others + {t} else others;
    assert n.Users(m) == if Uses(n.Pc(t), m) == 1 then others + {t} else others;
  }

  /** No reference from another thread survives the deletion of an entry. */
  lemma LastUser(s: State, t: Thread, u: Thread)
    requires ThreadOk(s, t) && ThreadOk(s, u) && s.Pc(t).Uncounted? && u != t
    requires CountOk(s, s.Pc(t).m) && s.cells[s.Pc(t).m].refs == 0
    ensures s.Pc(u).Refers() ==> s.Pc(u).k != s.Pc(t).k
  {
    assert s.Pc(u).Counts() ==> u in s.Users(s.Pc(u).m);
  }

  lemma NoUsers(s: State, m: MutexId)
    requires forall t: Thread :: ThreadOk(s, t)
    requires m !in s.cells
    ensures |s.Users(m)| == 0
  {
    assert forall t :: t in s.Users(m) ==> ThreadOk(s, t);
    assert s.Users(m) == {};
  }

  // LockOrder

  lemma LockKeepsOwnThread(s: State, t: Thread, a: LockAction)
    requires ThreadOk(s, t) && LockEnabled(s, s.Pc(t), a)
    requires s.Pc(t).Entered? && s.Pc(t).k in s.locks ==> EntryOk(s, s.Pc(t).k)
    ensures ThreadOk(LockNext(s, t, a), t)
  {
  }

  lemma LockKeepsOtherThread(s: State, t: Thread, a: LockAction, u: Thread)
    requires ThreadOk(s, t) && ThreadOk(s, u) && u != t && LockEnabled(s, s.Pc(t), a)
    ensures ThreadOk(LockNext(s, t, a), u)
  {
    assert LockNext(s, t, a).Pc(u) == s.Pc(u);
  }

  lemma LockKeepsCounts(s: State, t: Thread, a: LockAction, m: MutexId)
    requires ThreadOk(s, t) && LockEnabled(s, s.Pc(t), a) && m in LockNext(s, t, a).cells
    requires if m in s.cells then CountOk(s, m) else |s.Users(m)| == 0
    ensures CountOk(LockNext(s, t, a), m)
  {
    UsersStep(s, LockNext(s, t, a), t, m);
  }

  lemma LockKeepsHolders(s: State, t: Thread, a: LockAction, m: MutexId)
    requires ThreadOk(s, t) && LockEnabled(s, s.Pc(t), a) && m in LockNext(s, t, a).cells
    requires m in s.cells ==> HolderOk(s, m)
    ensures HolderOk(LockNext(s, t, a), m)
  {
  }

  lemma LockKeepsEntries(s: State, t: Thread, a: LockAction, k: Order)
    requires ThreadOk(s, t) && LockEnabled(s, s.Pc(t), a) && k in LockNext(s, t, a).locks
    requires k in s.locks ==> EntryOk(s, k)
    requires s.createLock.Some? ==> ThreadOk(s, s.createLock.value)
    requires s.Pc(t).Refers() ==> CountOk(s, s.Pc(t).m)
    ensures EntryOk(LockNext(s, t, a), k)
  {
  }

  // UnlockOrder

  lemma UnlockKeepsOwnThread(s: State, t: Thread, a: UnlockAction)
    requires ThreadOk(s, t) && UnlockEnabled(s, s.Pc(t), a)
    ensures ThreadOk(UnlockNext(s, t, a), t)
  {
  }

  lemma UnlockKeepsOtherThread(s: State, t: Thread, a: UnlockAction, u: Thread)
    requires ThreadOk(s, t) && ThreadOk(s, u) && u != t && UnlockEnabled(s, s.Pc(t), a)
    requires a.Drop? ==> CountOk(s, s.Pc(t).m)
    ensures ThreadOk(UnlockNext(s, t, a), u)
  {
    assert UnlockNext(s, t, a).Pc(u) == s.Pc(u);
    if a.Drop? && s.cells[s.Pc(t).m].refs == 0 {
      LastUser(s, t, u);
    }
  }

  lemma UnlockKeepsCounts(s: State, t: Thread, a: UnlockAction, m: MutexId)
    requires ThreadOk(s, t) && UnlockEnabled(s, s.Pc(t), a) && m in s.cells && CountOk(s, m)
    ensures CountOk(UnlockNext(s, t, a), m)
  {
    UsersStep(s, UnlockNext(s, t, a), t, m);
  }

  lemma UnlockKeepsHolders(s: State, t: Thread, a: UnlockAction, m: MutexId)
    requires ThreadOk(s, t) && UnlockEnabled(s, s.Pc(t), a) && m in s.cells && HolderOk(s, m)
    ensures HolderOk(UnlockNext(s, t, a), m)
  {
  }

  lemma UnlockKeepsEntries(s: State, t: Thread, a: UnlockAction, k: Order)
    requires ThreadOk(s, t) && UnlockEnabled(s, s.Pc(t), a) && k in UnlockNext(s, t, a).locks
    requires EntryOk(s, k) && (s.Pc(t).Refers() ==> CountOk(s, s.Pc(t).m) && EntryOk(s, s.Pc(t).k))
    ensures EntryOk(UnlockNext(s, t, a), k)
  {
  }

  // The critical section

  /** What a step under the lock leaves alone. */
  lemma OrderEffect(s: State, t: Thread, a: OrderAction)
    requires OrderEnabled(s, s.Pc(t), a)
    ensures var n := OrderNext(s, t, a);
            && n.createLock == s.createLock && n.locks == s.locks && n.cells == s.cells
            && if a.Insert? then n.pcs == s.pcs else
                 && n.pcs == s.pcs[t := n.Pc(t)]
                 && s.Pc(t).Holds() && !s.Pc(t).Unlocking?
                 && n.Pc(t).Holds() && !n.Pc(t).Unlocking?
                 && n.Pc(t).k == s.Pc(t).k && n.Pc(t).m == s.Pc(t).m
  {
  }

  /** The lock state and everybody's role in it are the same. */
  ghost predicate SameRoles(s: State, n: State) {
    && n.createLock == s.createLock && n.locks == s.locks && n.cells == s.cells
    && forall t: Thread ::
         var p, q := s.Pc(t), n.Pc(t);
         p == q || (p.Holds() && q.Holds() && !q.Unlocking? && q.k == p.k && q.m == p.m)
  }

  lemma SameRolesKeepLock(s: State, n: State)
    requires LockInv(s) && SameRoles(s, n)
    ensures LockInv(n)
  {
    forall u: Thread ensures ThreadOk(n, u) { assert ThreadOk(s, u); }
    forall m | m in n.cells ensures CountOk(n, m) && HolderOk(n, m) {
      assert CountOk(s, m) && HolderOk(s, m);
      SameUsers(s, n, m);
    }
    forall k | k in n.locks ensures EntryOk(n, k) { assert EntryOk(s, k); }
  }

  lemma SameUsers(s: State, n: State, m: MutexId)
    requires SameRoles(s, n)
    ensures s.Users(m) == n.Users(m)
  {
    forall t: Thread ensures t in s.Users(m) <==> t in n.Users(m) {
      var p, q := s.Pc(t), n.Pc(t);
    }
  }

  /** Every step of every thread keeps the lock's invariant. */
  lemma LockStep(s: State, t: Thread, a: Action)
    requires LockInv(s) && Enabled(s, t, a)
    ensures LockInv(Next(s, t, a))
  {
    match a
    case OnLock(l) => OnLockStep(s, t, l);
    case OnUnlock(u) => OnUnlockStep(s, t, u);
    case OnOrder(o) =>
      OrderEffect(s, t, o);
      SameRolesKeepLock(s, Next(s, t, a));
  }

  lemma OnLockStep(s: State, t: Thread, a: LockAction)
    requires LockInv(s) && LockEnabled(s, s.Pc(t), a)
    ensures LockInv(LockNext(s, t, a))
  {
    var n := LockNext(s, t, a);
    assert ThreadOk(s, t);
    forall u: Thread ensures ThreadOk(n, u) {
      assert ThreadOk(s, u);
      if u == t { LockKeepsOwnThread(s, t, a); } else { LockKeepsOtherThread(s, t, a, u); }
    }
    forall m | m in n.cells ensures CountOk(n, m) && HolderOk(n, m) {
      if m !in s.cells { NoUsers(s, m); }
      LockKeepsCounts(s, t, a, m);
      LockKeepsHolders(s, t, a, m);
    }
    forall k | k in n.locks ensures EntryOk(n, k) { LockKeepsEntries(s, t, a, k); }
  }

  lemma OnUnlockStep(s: State, t: Thread, a: UnlockAction)
    requires LockInv(s) && UnlockEnabled(s, s.Pc(t), a)
    ensures LockInv(UnlockNext(s, t, a))
  {
    var n := UnlockNext(s, t, a);
    assert ThreadOk(s, t);
    forall u: Thread ensures ThreadOk(n, u) {
      assert ThreadOk(s, u);
      if u == t { UnlockKeepsOwnThread(s, t, a); } else { UnlockKeepsOtherThread(s, t, a, u); }
    }
    forall m | m in n.cells ensures CountOk(n, m) && HolderOk(n, m) {
      UnlockKeepsCounts(s, t, a, m);
      UnlockKeepsHolders(s, t, a, m);
    }
    forall k | k in n.locks ensures EntryOk(n, k) { UnlockKeepsEntries(s, t, a, k); }
  }

  // ---------------------------------------------------------------------------
  // Invariant of the orders

  ghost predicate OrderOk(s: State, k: Order) {
    && s.Credits(k) <= 1
    && (s.Credits(k) == 1 ==> k in s.rows && s.rows[k].status == Success)
  }

  /** What a thread inside the section knows of its order. */
  ghost predicate SectionOk(s: State, t: Thread) {
    var pc := s.Pc(t);
    && (pc.Seen? && pc.row.Some? ==> pc.k in s.rows && s.rows[pc.k] == pc.row.value)
    && (pc.Marking? ==> pc.k in s.rows && s.rows[pc.k] == Row(true, Pending))
    && (pc.Crediting? ==> pc.k in s.rows && s.rows[pc.k].status == Success && s.Credits(pc.k) == 0)
  }

  /** A completed order was credited, unless a database call failed or the crediting is under way. */
  ghost predicate Accounted(s: State, k: Order) {
    k in s.rows && s.rows[k].status == Success && s.Credits(k) == 0 ==>
      k in s.faults || exists t: Thread :: s.Pc(t).Crediting? && s.Pc(t).k == k
  }

  ghost predicate OrderInv(s: State) {
    && (forall k :: OrderOk(s, k))
    && (forall t: Thread :: SectionOk(s, t))
    && (forall k :: Accounted(s, k))
  }

  lemma HoldersDiffer(s: State, t: Thread, u: Thread)
    requires LockInv(s) && t != u && s.Pc(t).Holds() && s.Pc(u).Holds()
    ensures s.Pc(t).k != s.Pc(u).k && s.Pc(t).m != s.Pc(u).m
  {
    assert ThreadOk(s, t) && ThreadOk(s, u);
  }

  lemma OrderKeepsOrder(s: State, t: Thread, a: OrderAction, k: Order)
    requires OrderEnabled(s, s.Pc(t), a) && SectionOk(s, t) && OrderOk(s, k)
    requires s.Pc(t).Holds() ==> OrderOk(s, s.Pc(t).k)
    ensures OrderOk(OrderNext(s, t, a), k)
  {
  }

  lemma OrderKeepsOwnSection(s: State, t: Thread, a: OrderAction)
    requires OrderEnabled(s, s.Pc(t), a) && SectionOk(s, t)
    requires s.Pc(t).Holds() ==> OrderOk(s, s.Pc(t).k)
    requires a.Insert? ==> OrderOk(s, a.k)
    ensures SectionOk(OrderNext(s, t, a), t)
  {
  }

  lemma OrderKeepsOtherSection(s: State, t: Thread, a: OrderAction, u: Thread)
    requires OrderEnabled(s, s.Pc(t), a) && SectionOk(s, u) && u != t
    requires s.Pc(t).Holds() && s.Pc(u).Holds() ==> s.Pc(t).k != s.Pc(u).k
    ensures SectionOk(OrderNext(s, t, a), u)
  {
    assert OrderNext(s, t, a).Pc(u) == s.Pc(u);
  }

  lemma OrderKeepsAccount(s: State, t: Thread, a: OrderAction, k: Order)
    requires OrderEnabled(s, s.Pc(t), a) && Accounted(s, k)
    ensures Accounted(OrderNext(s, t, a), k)
  {
    var n := OrderNext(s, t, a);
    if u: Thread :| s.Pc(u).Crediting? && s.Pc(u).k == k && u != t {
      assert n.Pc(u) == s.Pc(u);
    }
    assert a.Mark? && a.ok ==> n.Pc(t).Crediting? && n.Pc(t).k == s.Pc(t).k;
    assert a.Insert? ==> n.Pc(t) == s.Pc(t);
  }

  /** Steps outside the section touch no order, and do not enter or leave a section's middle. */
  ghost predicate SameOrders(s: State, n: State) {
    && n.rows == s.rows && n.credits == s.credits && n.faults == s.faults
    && forall t: Thread ::
         var p, q := s.Pc(t), n.Pc(t);
         p == q || (!p.Seen? && !p.Marking? && !p.Crediting? && !q.Seen? && !q.Marking? && !q.Crediting?)
  }

  lemma SameOrdersKeep(s: State, n: State)
    requires OrderInv(s) && SameOrders(s, n)
    ensures OrderInv(n)
  {
    forall k ensures OrderOk(n, k) { assert OrderOk(s, k); }
    forall t: Thread ensures SectionOk(n, t) { assert SectionOk(s, t); }
    forall k ensures Accounted(n, k) {
      assert Accounted(s, k);
      if u: Thread :| s.Pc(u).Crediting? && s.Pc(u).k == k {
        assert n.Pc(u) == s.Pc(u);
      }
    }
  }

  lemma LockTouchesNoOrder(s: State, t: Thread, a: LockAction)
    requires LockEnabled(s, s.Pc(t), a)
    ensures SameOrders(s, LockNext(s, t, a))
  {
  }

  lemma UnlockTouchesNoOrder(s: State, t: Thread, a: UnlockAction)
    requires UnlockEnabled(s, s.Pc(t), a)
    ensures SameOrders(s, UnlockNext(s, t, a))
  {
  }

  lemma OnOrderStep(s: State, t: Thread, a: OrderAction)
    requires LockInv(s) && OrderInv(s) && OrderEnabled(s, s.Pc(t), a)
    ensures OrderInv(OrderNext(s, t, a))
  {
    var n := OrderNext(s, t, a);
    assert SectionOk(s, t);
    forall k ensures OrderOk(n, k) && Accounted(n, k) {
      assert OrderOk(s, k) && Accounted(s, k);
      OrderKeepsOrder(s, t, a, k);
      OrderKeepsAccount(s, t, a, k);
    }
    forall u: Thread ensures SectionOk(n, u) {
      assert SectionOk(s, u);
      if u == t {
        OrderKeepsOwnSection(s, t, a);
      } else {
        if s.Pc(t).Holds() && s.Pc(u).Holds() { HoldersDiffer(s, t, u); }
        OrderKeepsOtherSection(s, t, a, u);
      }
    }
  }

  /** Every step of every thread keeps the orders' invariant. */
  lemma OrderStep(s: State, t: Thread, a: Action)
    requires LockInv(s) && OrderInv(s) && Enabled(s, t, a)
    ensures OrderInv(Next(s, t, a))
  {
    match a
    case OnLock(l) =>
      LockTouchesNoOrder(s, t, l);
      SameOrdersKeep(s, LockNext(s, t, l));
    case OnUnlock(u) =>
      UnlockTouchesNoOrder(s, t, u);
      SameOrdersKeep(s, UnlockNext(s, t, u));
    case OnOrder(o) => OnOrderStep(s, t, o);
  }

  // ---------------------------------------------------------------------------
  // Main results, over every run

  datatype Event = Event(thread: Thread, action: Action)

  /** The states a run passes through, when every event is enabled where it happens. */
  ghost predicate Run(events: seq<Event>, s: State)
    decreases |events|
  {
    if events == [] then s == INITIAL
    else
      var last := events[|events| - 1];
      exists p :: Run(events[..|events| - 1], p) && Enabled(p, last.thread, last.action)
                  && s == Next(p, last.thread, last.action)
  }

  lemma {:induction false} RunKeepsInvariants(events: seq<Event>, s: State)
    requires Run(events, s)
    ensures LockInv(s) && OrderInv(s)
    decreases |events|
  {
    if events != [] {
      var init, last := events[..|events| - 1], events[|events| - 1];
      var p :| Run(init, p) && Enabled(p, last.thread, last.action) && s == Next(p, last.thread, last.action);
      RunKeepsInvariants(init, p);
      LockStep(p, last.thread, last.action);
      OrderStep(p, last.thread, last.action);
    }
  }

  /** At most one thread is inside the section of an order. */
  lemma MutualExclusion(events: seq<Event>, s: State, t: Thread, u: Thread)
    requires Run(events, s)
    requires s.Pc(t).Holds() && s.Pc(u).Holds() && s.Pc(t).k == s.Pc(u).k
    ensures t == u
  {
    RunKeepsInvariants(events, s);
    if t != u { HoldersDiffer(s, t, u); }
  }

  /** UnlockOrder always finds in the map the mutex that its LockOrder locked, still locked by it. */
  lemma UnlockFindsItsMutex(events: seq<Event>, s: State, t: Thread)
    requires Run(events, s) && s.Pc(t).Holds()
    ensures var pc := s.Pc(t);
            && pc.k in s.locks && s.locks[pc.k] == pc.m
            && pc.m in s.cells && s.cells[pc.m].holder == Some(t)
            && (pc.Unlocking? ==> pc.loaded == pc.m)
  {
    RunKeepsInvariants(events, s);
    assert ThreadOk(s, t);
  }

  /** While nobody holds createLock, an order has an entry exactly when some thread is between
      registering and unregistering for it, and the entry counts those threads. */
  lemma EntriesAreCounted(events: seq<Event>, s: State, k: Order)
    requires Run(events, s) && s.createLock.None?
    ensures k in s.locks <==> exists t: Thread :: s.Pc(t).Counts() && s.Pc(t).k == k
    ensures k in s.locks ==>
              && s.locks[k] in s.cells
              && s.cells[s.locks[k]].refs == |set t | t in s.pcs && s.pcs[t].Counts() && s.pcs[t].k == k| > 0
  {
    RunKeepsInvariants(events, s);
    forall t: Thread | s.Pc(t).Counts() ensures s.Pc(t).k in s.locks {
      assert ThreadOk(s, t);
    }
    if k in s.locks {
      assert EntryOk(s, k);
      var m := s.locks[k];
      assert CountOk(s, m);
      UsersOfEntry(s, k);
      var t :| t in s.Users(m);
      assert ThreadOk(s, t);
    }
  }

  lemma UsersOfEntry(s: State, k: Order)
    requires LockInv(s) && k in s.locks
    ensures s.Users(s.locks[k]) == set t | t in s.pcs && s.pcs[t].Counts() && s.pcs[t].k == k
  {
    forall t | t in s.pcs && s.pcs[t].Counts()
      ensures s.pcs[t].m == s.locks[k] <==> s.pcs[t].k == k
    {
      assert ThreadOk(s, t) && EntryOk(s, k) && EntryOk(s, s.pcs[t].k);
    }
  }

  /** Nothing leaks: when every thread is idle the map is empty. */
  lemma QuiescentMapIsEmpty(events: seq<Event>, s: State)
    requires Run(events, s) && forall t: Thread :: s.Pc(t).Idle?
    ensures s.locks == map[] && s.createLock.None?
  {
    RunKeepsInvariants(events, s);
    assert s.createLock.Some? ==> ThreadOk(s, s.createLock.value);
    forall k ensures k !in s.locks { EntriesAreCounted(events, s, k); }
  }

  /** An order is credited at most once, and only an order in state success is credited. */
  lemma CreditedAtMostOnce(events: seq<Event>, s: State, k: Order)
    requires Run(events, s)
    ensures s.Credits(k) <= 1
    ensures s.Credits(k) == 1 ==> k in s.rows && s.rows[k].status == Success
  {
    RunKeepsInvariants(events, s);
    assert OrderOk(s, k);
  }

  /** Without database errors on it, an order in state success has been credited exactly once as soon
      as no thread is crediting it. */
  lemma SuccessIsCredited(events: seq<Event>, s: State, k: Order)
    requires Run(events, s) && k in s.rows && s.rows[k].status == Success && k !in s.faults
    requires forall t: Thread :: !s.Pc(t).Crediting?
    ensures s.Credits(k) == 1
  {
    RunKeepsInvariants(events, s);
    assert OrderOk(s, k) && Accounted(s, k);
  }

  /** The operation a thread would do next. */
  function Intent(s: State, t: Thread): Action {
    match s.Pc(t)
    case Idle => OnLock(Begin(""))
    case Entered(_) => OnLock(Load)
    case Missing(_) => OnLock(Store(Fresh(s)))
    case Found(_, _) => OnLock(Count)
    case Counted(_, _) => OnLock(EndRegister)
    case Waiting(_, _) => OnLock(Lock)
    case Holding(_, _) => OnOrder(Fetch)
    case Seen(_, _, _) => OnOrder(Check)
    case Marking(_, _) => OnOrder(Mark(true, true))
    case Crediting(_, _) => OnOrder(Credit(true, true))
    case Leaving(_, _) => OnUnlock(UnlockLoad)
    case Unlocking(_, _, _) => OnUnlock(Unlock)
    case Released(_, _) => OnUnlock(EnterUnregister)
    case Unregistering(_, _) => OnUnlock(Uncount)
    case Uncounted(_, _) => OnUnlock(Drop)
    case Exiting(_) => OnUnlock(EndUnregister)
  }

  function Fresh(s: State): MutexId {
    Above(s.cells.Keys)
  }

  function Above(ms: set<MutexId>): (b: MutexId)
    ensures forall m :: m in ms ==> m < b
  {
    if ms == {} then 0 else
      assert exists m :: m in ms && forall o :: o in ms ==> o <= m by { Greatest(ms); }
      var m :| m in ms && forall o :: o in ms ==> o <= m;
      m + 1
  }

  lemma Greatest(ms: set<MutexId>)
    requires ms != {}
    ensures exists m :: m in ms && forall o :: o in ms ==> o <= m
  {
    var x :| x in ms;
    if ms != {x} {
      Greatest(ms - {x});
      var y :| y in ms - {x} && forall o :: o in ms - {x} ==> o <= y;
      assert forall o :: o in ms ==> o == x || o in ms - {x};
      assert (if x <= y then y else x) in ms;
    }
  }

  /** No deadlock: whenever a thread is busy, some busy thread can take its next step. */
  lemma NoDeadlock(events: seq<Event>, s: State, t: Thread) returns (u: Thread)
    requires Run(events, s) && !s.Pc(t).Idle?
    ensures !s.Pc(u).Idle? && Enabled(s, u, Intent(s, u))
  {
    RunKeepsInvariants(events, s);
    u := if s.createLock.Some? then s.createLock.value else t;
    assert ThreadOk(s, u);
    if s.Pc(u).Waiting? && s.cells[s.Pc(u).m].holder.Some? {
      assert HolderOk(s, s.Pc(u).m);
      u := s.cells[s.Pc(u).m].holder.value;
      assert ThreadOk(s, u);
    }
  }
}
