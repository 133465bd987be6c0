/** The counters of body storages (common/disk_cache_config.go, lines 108-134; common/body_storage.go,
    lines 38-46, 66-73, 101-168 and 188-198), as a transition system: every atomic addition is a step of its
    own, and the steps of different storages interleave in any order. */
module CacheCounters {

  datatype Kind = Memory | Disk

  /** How far the life of a storage has come: its count, then its size is added; then it is in use;
      then its closed flag is set, and its count and its size are taken back. */
  datatype Phase = Created | Counted | Open | Closing | Uncounted | Closed {
    /** The count, or the size, is included in the counters. */
    predicate HasCount() { Counted? || Open? || Closing? }

    predicate HasSize() { Open? || Closing? || Uncounted? }

    /** `Close` has been called. */
    predicate Shut() { Closing? || Uncounted? || Closed? }
  }

  datatype Storage = Storage(kind: Kind, size: nat, phase: Phase)

  /** `clamped` records whether a decrement ever found its counter below zero. */
  datatype State = State(
    storages: seq<Storage>, files: int, diskBytes: int, buffers: int, memoryBytes: int, clamped: bool)

  datatype Event =
    | Create(kind: Kind, size: nat)
    | AddCount(i: nat)
    | AddSize(i: nat)
    | Close(i: nat)
    | SubtractCount(i: nat)
    | SubtractSize(i: nat)

  predicate At(s: State, i: nat, phase: Phase) { i < |s.storages| && s.storages[i].phase == phase }

  predicate Enabled(s: State, e: Event) {
    match e
    case Create(_, _) => true
    case AddCount(i) => At(s, i, Created)
    case AddSize(i) => At(s, i, Counted)
    case Close(i) => i < |s.storages| && (s.storages[i].phase.Open? || s.storages[i].phase.Shut())
    case SubtractCount(i) => At(s, i, Closing)
    case SubtractSize(i) => At(s, i, Uncounted)
  }

  function MoveTo(s: State, i: nat, phase: Phase): State
    requires i < |s.storages|
  {
    s.(storages := s.storages[i := s.storages[i].(phase := phase)])
  }

  function Clamp(n: int): int { if n < 0 then 0 else n }

  function Next(s: State, e: Event): State
    requires Enabled(s, e)
  {
    match e
    case Create(kind, size) => s.(storages := s.storages + [Storage(kind, size, Created)])
    case AddCount(i) =>
      var t := MoveTo(s, i, Counted);
      if s.storages[i].kind.Disk? then t.(files := s.files + 1) else t.(buffers := s.buffers + 1)
    case AddSize(i) =>
      var t, size := MoveTo(s, i, Open), s.storages[i].size;
      if s.storages[i].kind.Disk? then t.(diskBytes := s.diskBytes + size) else t.(memoryBytes := s.memoryBytes + size)
    case Close(i) => if s.storages[i].phase.Open? then MoveTo(s, i, Closing) else s
    case SubtractCount(i) =>
      var t := MoveTo(s, i, Uncounted);
      if s.storages[i].kind.Disk? then t.(files := Clamp(s.files - 1), clamped := s.clamped || s.files - 1 < 0)
      else t.(buffers := s.buffers - 1)
    case SubtractSize(i) =>
      var t, size := MoveTo(s, i, Closed), s.storages[i].size;
      if s.storages[i].kind.Disk? then
        t.(diskBytes := Clamp(s.diskBytes - size), clamped := s.clamped || s.diskBytes - size < 0)
      else t.(memoryBytes := s.memoryBytes - size)
  }

  // ---------------------------------------------------------------------------
  // Totals over the storages

  function Total(storages: seq<Storage>, weight: Storage -> nat): nat {
    if storages == [] then 0
    else Total(storages[..|storages| - 1], weight) + weight(storages[|storages| - 1])
  }

  lemma {:induction false} TotalUpdate(storages: seq<Storage>, i: nat, st: Storage, weight: Storage -> nat)
    requires i < |storages|
    ensures Total(storages[i := st], weight) == Total(storages, weight) - weight(storages[i]) + weight(st)
  {
    var last := |storages| - 1;
    if i == last {
      assert storages[i := st][..last] == storages[..last];
    } else {
      assert storages[i := st][..last] == storages[..last][i := st];
      TotalUpdate(storages[..last], i, st, weight);
    }
  }

  lemma TotalSnoc(storages: seq<Storage>, st: Storage, weight: Storage -> nat)
    ensures Total(storages + [st], weight) == Total(storages, weight) + weight(st)
  {
    assert (storages + [st])[..|storages|] == storages;
  }

  lemma {:induction false} TotalSame(storages: seq<Storage>, v: Storage -> nat, w: Storage -> nat)
    requires forall st :: st in storages ==> v(st) == w(st)
    ensures Total(storages, v) == Total(storages, w)
  {
    if storages != [] {
      assert storages[|storages| - 1] in storages && forall st :: st in storages[..|storages| - 1] ==> st in storages;
      TotalSame(storages[..|storages| - 1], v, w);
    }
  }

  /** The storages of a kind whose count is included, and the sizes that are. */
  function CountOf(kind: Kind): Storage -> nat {
    (st: Storage) => if st.kind == kind && st.phase.HasCount() then 1 else 0
  }

  function SizeOf(kind: Kind): Storage -> nat {
    (st: Storage) => if st.kind == kind && st.phase.HasSize() then st.size else 0
  }

  /** The storages of a kind in use. */
  function OpenCount(kind: Kind): Storage -> nat {
    (st: Storage) => if st.kind == kind && st.phase.Open? then 1 else 0
  }

  function OpenSize(kind: Kind): Storage -> nat {
    (st: Storage) => if st.kind == kind && st.phase.Open? then st.size else 0
  }

  // ---------------------------------------------------------------------------
  // Conservation

  ghost predicate Conserved(s: State) {
    && !s.clamped
    && s.files == Total(s.storages, CountOf(Disk)) && s.diskBytes == Total(s.storages, SizeOf(Disk))
    && s.buffers == Total(s.storages, CountOf(Memory)) && s.memoryBytes == Total(s.storages, SizeOf(Memory))
  }

  lemma Moves(s: State, i: nat, phase: Phase, kind: Kind)
    requires i < |s.storages|
    ensures var n, st := MoveTo(s, i, phase).storages, s.storages[i];
            && Total(n, CountOf(kind)) == Total(s.storages, CountOf(kind))
                                          - (if st.kind == kind && st.phase.HasCount() then 1 else 0)
                                          + (if st.kind == kind && phase.HasCount() then 1 else 0)
            && Total(n, SizeOf(kind)) == Total(s.storages, SizeOf(kind))
                                         - (if st.kind == kind && st.phase.HasSize() then st.size else 0)
                                         + (if st.kind == kind && phase.HasSize() then st.size else 0)
  {
    var st := s.storages[i].(phase := phase);
    TotalUpdate(s.storages, i, st, CountOf(kind));
    TotalUpdate(s.storages, i, st, SizeOf(kind));
  }

  lemma CreatedIsFree(storages: seq<Storage>, st: Storage, kind: Kind)
    requires st.phase == Created
    ensures Total(storages + [st], CountOf(kind)) == Total(storages, CountOf(kind))
    ensures Total(storages + [st], SizeOf(kind)) == Total(storages, SizeOf(kind))
  {
    TotalSnoc(storages, st, CountOf(kind));
    TotalSnoc(storages, st, SizeOf(kind));
  }

  lemma CreateConserves(s: State, kind: Kind, size: nat)
    requires Conserved(s)
    ensures Conserved(Next(s, Create(kind, size)))
  {
    CreatedIsFree(s.storages, Storage(kind, size, Created), Disk);
    CreatedIsFree(s.storages, Storage(kind, size, Created), Memory);
  }

  lemma AddConserves(s: State, i: nat)
    requires Conserved(s)
    ensures At(s, i, Created) ==> Conserved(Next(s, AddCount(i)))
    ensures At(s, i, Counted) ==> Conserved(Next(s, AddSize(i)))
  {
    if i < |s.storages| {
      Moves(s, i, Counted, Disk);
      Moves(s, i, Counted, Memory);
      Moves(s, i, Open, Disk);
      Moves(s, i, Open, Memory);
    }
  }

  lemma SubtractConserves(s: State, i: nat)
    requires Conserved(s)
    ensures At(s, i, Closing) ==> Conserved(Next(s, SubtractCount(i)))
    ensures At(s, i, Uncounted) ==> Conserved(Next(s, SubtractSize(i)))
  {
    if i < |s.storages| {
      Moves(s, i, Uncounted, Disk);
      Moves(s, i, Uncounted, Memory);
      Moves(s, i, Closed, Disk);
      Moves(s, i, Closed, Memory);
    }
  }

  lemma CloseConserves(s: State, i: nat)
    requires Conserved(s) && Enabled(s, Close(i))
    ensures Conserved(Next(s, Close(i)))
  {
    Moves(s, i, Closing, Disk);
    Moves(s, i, Closing, Memory);
  }

  lemma StepConserves(s: State, e: Event)
    requires Conserved(s) && Enabled(s, e)
    ensures Conserved(Next(s, e))
  {
    match e
    case Create(kind, size) => CreateConserves(s, kind, size);
    case AddCount(i) => AddConserves(s, i);
    case AddSize(i) => AddConserves(s, i);
    case Close(i) => CloseConserves(s, i);
    case SubtractCount(i) => SubtractConserves(s, i);
    case SubtractSize(i) => SubtractConserves(s, i);
  }

  ghost predicate Step(q: State, e: Event, s: State) { Enabled(q, e) && s == Next(q, e) }

  ghost predicate Reaches(events: seq<Event>, s: State) {
    if events == [] then s == State([], 0, 0, 0, 0, false)
    else
      var init, e := events[..|events| - 1], events[|events| - 1];
      exists q :: Reaches(init, q) && Step(q, e, s)
  }

  /** Over every run each counter is the total over the storages it includes, and no decrement ever finds
      its counter below zero. */
  lemma {:induction false} CountersAreConserved(events: seq<Event>, s: State)
    requires Reaches(events, s)
    ensures Conserved(s)
  {
    if events != [] {
      var init, e := events[..|events| - 1], events[|events| - 1];
      var q :| Reaches(init, q) && Step(q, e, s);
      CountersAreConserved(init, q);
      StepConserves(q, e);
    }
  }

  /** Between operations the counters are the number and the total size of the open storages. */
  lemma CountersAtRest(events: seq<Event>, s: State)
    requires Reaches(events, s) && forall st :: st in s.storages ==> st.phase == Open || st.phase == Closed
    ensures s.files == Total(s.storages, OpenCount(Disk)) && s.diskBytes == Total(s.storages, OpenSize(Disk))
    ensures s.buffers == Total(s.storages, OpenCount(Memory)) && s.memoryBytes == Total(s.storages, OpenSize(Memory))
  {
    CountersAreConserved(events, s);
    TotalSame(s.storages, CountOf(Disk), OpenCount(Disk));
    TotalSame(s.storages, SizeOf(Disk), OpenSize(Disk));
    TotalSame(s.storages, CountOf(Memory), OpenCount(Memory));
    TotalSame(s.storages, SizeOf(Memory), OpenSize(Memory));
  }

  /** What one storage of a kind adds to the counters. */
  ghost predicate Counts(s: State, t: State, kind: Kind, count: int, size: int) {
    && t.files == s.files + (if kind.Disk? then count else 0)
    && t.diskBytes == s.diskBytes + (if kind.Disk? then size else 0)
    && t.buffers == s.buffers + (if kind.Memory? then count else 0)
    && t.memoryBytes == s.memoryBytes + (if kind.Memory? then size else 0)
  }

  /** Creating a storage and finishing that opens it, and adds one to its count and its size to its bytes. */
  lemma OpeningCounts(s: State, kind: Kind, size: nat)
    ensures var i, a := |s.storages|, Next(s, Create(kind, size));
            && Enabled(a, AddCount(i))
            && var b := Next(a, AddCount(i));
               && Enabled(b, AddSize(i))
               && var t := Next(b, AddSize(i));
                  t.storages == s.storages + [Storage(kind, size, Open)] && Counts(s, t, kind, 1, size)
  {
    var i, a := |s.storages|, Next(s, Create(kind, size));
    var t := Next(Next(a, AddCount(i)), AddSize(i));
    assert t.storages == s.storages + [Storage(kind, size, Open)];
  }

  /** At any point of a run, closing an open storage and finishing that takes one off its count and its size off
      its bytes. */
  lemma ClosingCounts(events: seq<Event>, s: State, i: nat)
    requires Reaches(events, s) && At(s, i, Open)
    ensures var a := Next(s, Close(i));
            && Enabled(a, SubtractCount(i))
            && var b := Next(a, SubtractCount(i));
               && Enabled(b, SubtractSize(i))
               && var t := Next(b, SubtractSize(i));
                  && t.storages == s.storages[i := s.storages[i].(phase := Closed)]
                  && Counts(s, t, s.storages[i].kind, -1, 0 - s.storages[i].size)
  {
    CountersAreConserved(events, s);
    var a := Next(s, Close(i));
    var b := Next(a, SubtractCount(i));
    var t := Next(b, SubtractSize(i));
    StepConserves(s, Close(i));
    StepConserves(a, SubtractCount(i));
    StepConserves(b, SubtractSize(i));
    assert t.storages == s.storages[i := s.storages[i].(phase := Closed)];
  }

  predicate ShutAt(s: State, i: nat) { i < |s.storages| && s.storages[i].phase.Shut() }

  lemma ShutStep(s: State, e: Event, i: nat)
    requires Enabled(s, e) && ShutAt(s, i)
    ensures ShutAt(Next(s, e), i)
  {
  }

  /** A storage that has been closed stays closed: whatever happens meanwhile, closing it once more
      changes nothing. */
  lemma {:induction false} DoubleCloseIsIdle(s: State, events: seq<Event>, t: State, i: nat)
    requires Follows(s, events, t) && ShutAt(s, i)
    ensures ShutAt(t, i) && Next(t, Close(i)) == t
  {
    if events != [] {
      var init, e := events[..|events| - 1], events[|events| - 1];
      var q :| Follows(s, init, q) && Step(q, e, t);
      DoubleCloseIsIdle(s, init, q, i);
      ShutStep(q, e, i);
    }
  }

  ghost predicate Follows(s: State, events: seq<Event>, t: State) {
    if events == [] then t == s
    else
      var init, e := events[..|events| - 1], events[|events| - 1];
      exists q :: Follows(s, init, q) && Step(q, e, t)
  }
}
