/** Finishing asynchronous tasks by compare-and-set (controller/relay_meshy.go, lines 201-261; model/task.go,
    lines 419-432), as a transition system: any number of workers hold snapshots of task rows, and each
    read, each guarded update and each refund is one step that any worker can take at any time. */
module TaskCas {

  type Worker = nat
  type Id = string

  const QUEUED := "QUEUED"
  const IN_PROGRESS := "IN_PROGRESS"
  const FAILURE := "FAILURE"
  const SUCCESS := "SUCCESS"
  const MESHY := "meshy"

  datatype Task = Task(platform: string, status: string, progress: string, start: int, finish: int,
                       resultURL: string, failReason: string, data: string, quota: int)

  /** What a webhook delivery says about a task. */
  datatype Info = Info(status: string, url: string, reason: string, progress: string)

  predicate Terminal(status: string) { status == SUCCESS || status == FAILURE }

  // ---------------------------------------------------------------------------
  // Merging a delivery into a snapshot

  function NewStatus(t: Task, info: Info): string { if info.status != "" then info.status else t.status }

  function Merged(t: Task, info: Info, payload: string, now: int): Task {
    var status := NewStatus(t, info);
    Task(t.platform, status,
         if info.progress != "" then info.progress
         else if status == QUEUED then "20%"
         else if status == IN_PROGRESS then "30%"
         else if Terminal(status) then "100%" else t.progress,
         if status == IN_PROGRESS && t.start == 0 then now else t.start,
         if Terminal(status) && t.finish == 0 then now else t.finish,
         if status == SUCCESS && info.url != "" then info.url else t.resultURL,
         if status == FAILURE then info.reason else t.failReason,
         payload, t.quota)
  }

  /** The assignments of `applyMeshyTaskUpdate`. */
  method Merge(snapshot: Task, info: Info, payload: string, now: int) returns (task: Task)
    ensures task == Merged(snapshot, info, payload, now)
  {
    task := snapshot;
    if info.status != "" { task := task.(status := info.status); }
    task := task.(data := payload);
    if task.status == QUEUED {
      task := task.(progress := "20%");
    } else if task.status == IN_PROGRESS {
      task := task.(progress := "30%");
      if task.start == 0 { task := task.(start := now); }
    } else if task.status == SUCCESS {
      task := task.(progress := "100%");
      if task.finish == 0 { task := task.(finish := now); }
      if info.url != "" { task := task.(resultURL := info.url); }
    } else if task.status == FAILURE {
      task := task.(progress := "100%");
      if task.finish == 0 { task := task.(finish := now); }
      task := task.(failReason := info.reason);
    }
    if info.progress != "" { task := task.(progress := info.progress); }
  }

  /** `t` is the row `was` after a delivery. */
  ghost predicate Reflects(was: Task, info: Info, payload: string, now: int, t: Task) {
    && t.platform == was.platform && t.quota == was.quota && t.data == payload
    // the status that was delivered, if one was
    && (info.status == "" ==> t.status == was.status)
    && (info.status != "" ==> t.status == info.status)
    // the times are set once
    && (was.start != 0 || t.status != "IN_PROGRESS" ==> t.start == was.start)
    && (was.start == 0 && t.status == "IN_PROGRESS" ==> t.start == now)
    && (was.finish != 0 || t.status !in {"SUCCESS", "FAILURE"} ==> t.finish == was.finish)
    && (was.finish == 0 && t.status in {"SUCCESS", "FAILURE"} ==> t.finish == now)
    // the result comes with success, the reason with failure
    && (t.status == "SUCCESS" && info.url != "" ==> t.resultURL == info.url)
    && (t.status != "SUCCESS" || info.url == "" ==> t.resultURL == was.resultURL)
    && (t.status == "FAILURE" ==> t.failReason == info.reason)
    && (t.status != "FAILURE" ==> t.failReason == was.failReason)
    // the progress that was delivered, or that of the status
    && (info.progress != "" ==> t.progress == info.progress)
    && (info.progress == "" ==>
          && (t.status == "QUEUED" ==> t.progress == "20%")
          && (t.status == "IN_PROGRESS" ==> t.progress == "30%")
          && (t.status in {"SUCCESS", "FAILURE"} ==> t.progress == "100%")
          && (t.status !in {"QUEUED", "IN_PROGRESS", "SUCCESS", "FAILURE"} ==> t.progress == was.progress))
  }

  /** A merged snapshot reflects the delivery, and is the only one that does. */
  lemma MergedExactly(was: Task, info: Info, payload: string, now: int, t: Task)
    ensures Reflects(was, info, payload, now, t) <==> t == Merged(was, info, payload, now)
  {
  }

  // ---------------------------------------------------------------------------
  // The transition system

  /** Where a worker stands: it is about to write `task` where the status is `from`, or it has written a
      failure and owes the refund. `pays` says whether it refunds a failure that it writes. */
  datatype Pc =
    | Idle
    | Pending(id: Id, from: string, task: Task, pays: bool)
    | Refunding(id: Id, task: Task)

  datatype Refund = Refund(id: Id, amount: int)

  datatype State = State(rows: map<Id, Task>, pcs: map<Worker, Pc>, refunds: seq<Refund>) {
    function Pc(w: Worker): Pc { if w in pcs then pcs[w] else Idle }

    function At(w: Worker, pc: Pc): State { this.(pcs := pcs[w := pc]) }

    predicate Open(id: Id) { id in rows && !Terminal(rows[id].status) }
  }

  /** `Deliver` is a webhook call up to its update, `Load` any other writer that follows the same
      discipline, such as the poller. The last three are what can go wrong: an update that reports an
      error, applied or not; a refund that fails; a worker that stops. */
  datatype Event =
    | Deliver(w: Worker, id: Id, info: Info, payload: string, now: int)
    | Load(w: Worker, id: Id, task: Task, pays: bool)
    | Cas(w: Worker)
    | Pay(w: Worker)
    | CasError(w: Worker, applied: bool)
    | PayError(w: Worker)
    | Stop(w: Worker)

  predicate Enabled(s: State, e: Event) {
    match e
    case Deliver(w, _, _, _, _) => s.Pc(w).Idle?
    case Load(w, id, _, _) => s.Pc(w).Idle? && s.Open(id)
    case Cas(w) => s.Pc(w).Pending?
    case CasError(w, _) => s.Pc(w).Pending?
    case Pay(w) => s.Pc(w).Refunding?
    case PayError(w) => s.Pc(w).Refunding?
    case Stop(w) => true
  }

  /** `UpdateWithStatus` finds the row still in the status it was read with. */
  predicate Wins(s: State, p: Pc)
    requires p.Pending?
  {
    p.id in s.rows && s.rows[p.id].status == p.from
  }

  function Next(s: State, e: Event): State
    requires Enabled(s, e)
  {
    match e
    case Deliver(w, id, info, payload, now) =>
      if s.Open(id) && s.rows[id].platform == MESHY then
        s.At(w, Pending(id, s.rows[id].status, Merged(s.rows[id], info, payload, now), true))
      else s
    case Load(w, id, task, pays) => s.At(w, Pending(id, s.rows[id].status, task, pays))
    case Cas(w) =>
      var p := s.Pc(w);
      if !Wins(s, p) then s.At(w, Idle)
      else
        var owes := p.pays && p.task.status == FAILURE && p.task.quota != 0;
        s.(rows := s.rows[p.id := p.task]).At(w, if owes then Refunding(p.id, p.task) else Idle)
    case CasError(w, applied) =>
      var p := s.Pc(w);
      (if applied && Wins(s, p) then s.(rows := s.rows[p.id := p.task]) else s).At(w, Idle)
    case Pay(w) =>
      var p := s.Pc(w);
      s.(refunds := s.refunds + [Refund(p.id, p.task.quota)]).At(w, Idle)
    case PayError(w) => s.At(w, Idle)
    case Stop(w) => s.At(w, Idle)
  }

  /** How often a task was refunded. */
  function Count(refunds: seq<Refund>, id: Id): nat {
    if refunds == [] then 0
    else Count(refunds[..|refunds| - 1], id) + if refunds[|refunds| - 1].id == id then 1 else 0
  }

  // ---------------------------------------------------------------------------
  // The invariant

  ghost predicate WorkerOk(s: State, w: Worker) {
    match s.Pc(w)
    case Idle => true
    case Pending(id, from, _, _) => id in s.rows && !Terminal(from)
    case Refunding(id, task) =>
      && id in s.rows && s.rows[id] == task && task.status == FAILURE && task.quota != 0
      && Count(s.refunds, id) == 0
  }

  ghost predicate Apart(s: State, v: Worker, w: Worker) {
    v != w && s.Pc(v).Refunding? && s.Pc(w).Refunding? ==> s.Pc(v).id != s.Pc(w).id
  }

  /** A refunded task is a failed one, refunded once and in full. */
  ghost predicate RefundOk(s: State, r: Refund) {
    && r.id in s.rows && s.rows[r.id].status == FAILURE
    && r.amount == s.rows[r.id].quota && r.amount != 0 && Count(s.refunds, r.id) == 1
  }

  ghost predicate Inv(s: State) {
    && (forall w :: WorkerOk(s, w))
    && (forall v, w :: Apart(s, v, w))
    && (forall r :: r in s.refunds ==> RefundOk(s, r))
  }

  lemma {:induction false} CountMember(refunds: seq<Refund>, id: Id)
    ensures Count(refunds, id) > 0 <==> exists r :: r in refunds && r.id == id
  {
    if refunds != [] {
      var init, last := refunds[..|refunds| - 1], refunds[|refunds| - 1];
      CountMember(init, id);
      assert refunds == init + [last];
    }
  }

  lemma CountSnoc(refunds: seq<Refund>, r: Refund, id: Id)
    ensures Count(refunds + [r], id) == Count(refunds, id) + if r.id == id then 1 else 0
  {
    assert (refunds + [r])[..|refunds|] == refunds;
  }

  /** No step touches a row in a final state. */
  lemma TerminalRowIsFrozen(s: State, e: Event, id: Id)
    requires Enabled(s, e) && WorkerOk(s, e.w) && id in s.rows && Terminal(s.rows[id].status)
    ensures id in Next(s, e).rows && Next(s, e).rows[id] == s.rows[id]
  {
  }

  lemma FrozenRefund(s: State, e: Event, r: Refund)
    requires Enabled(s, e) && WorkerOk(s, e.w) && r in s.refunds && RefundOk(s, r)
    ensures RefundOk(Next(s, e), r)
  {
    TerminalRowIsFrozen(s, e, r.id);
    if e.Pay? {
      CountMember(s.refunds, r.id);
      CountSnoc(s.refunds, Refund(s.Pc(e.w).id, s.Pc(e.w).task.quota), r.id);
    }
  }

  /** A worker that owes a refund keeps its claim while others move. */
  lemma FrozenWorker(s: State, e: Event, v: Worker)
    requires Enabled(s, e) && WorkerOk(s, e.w) && WorkerOk(s, v) && v != e.w && Apart(s, v, e.w)
    ensures WorkerOk(Next(s, e), v) && Next(s, e).Pc(v) == s.Pc(v)
  {
    if s.Pc(v).Refunding? {
      TerminalRowIsFrozen(s, e, s.Pc(v).id);
      if e.Pay? { CountSnoc(s.refunds, Refund(s.Pc(e.w).id, s.Pc(e.w).task.quota), s.Pc(v).id); }
    }
  }

  ghost predicate Unrefunded(s: State, id: Id) { Count(s.refunds, id) == 0 }

  lemma OpenIsUnrefunded(s: State, id: Id)
    requires s.Open(id) && forall r :: r in s.refunds ==> RefundOk(s, r)
    ensures Unrefunded(s, id)
  {
    CountMember(s.refunds, id);
  }

  lemma MoverOk(s: State, e: Event)
    requires Enabled(s, e) && WorkerOk(s, e.w)
    requires s.Pc(e.w).Pending? && s.Open(s.Pc(e.w).id) ==> Unrefunded(s, s.Pc(e.w).id)
    ensures WorkerOk(Next(s, e), e.w)
  {
  }

  /** A worker starts to owe a refund only for a row that was open, so nobody else owes it. */
  lemma MoverApart(s: State, e: Event, v: Worker)
    requires Enabled(s, e) && WorkerOk(s, e.w) && WorkerOk(s, v) && v != e.w
    ensures Apart(Next(s, e), v, e.w) && Apart(Next(s, e), e.w, v)
  {
  }

  lemma StepKeepsInv(s: State, e: Event)
    requires Inv(s) && Enabled(s, e)
    ensures Inv(Next(s, e))
  {
    var n := Next(s, e);
    assert WorkerOk(s, e.w);
    if s.Pc(e.w).Pending? && s.Open(s.Pc(e.w).id) { OpenIsUnrefunded(s, s.Pc(e.w).id); }
    MoverOk(s, e);
    forall w ensures WorkerOk(n, w) {
      if w != e.w {
        assert Apart(s, w, e.w);
        FrozenWorker(s, e, w);
      }
    }
    forall v, w ensures Apart(n, v, w) {
      assert WorkerOk(s, v) && WorkerOk(s, w) && Apart(s, v, w);
      assert Apart(s, v, e.w) && Apart(s, w, e.w);
      if v != e.w { FrozenWorker(s, e, v); MoverApart(s, e, v); }
      if w != e.w { FrozenWorker(s, e, w); MoverApart(s, e, w); }
    }
    forall r | r in n.refunds ensures RefundOk(n, r) {
      if r in s.refunds { FrozenRefund(s, e, r); } else { PaidIsOk(s, e, r); }
    }
  }

  lemma PaidIsOk(s: State, e: Event, r: Refund)
    requires Enabled(s, e) && WorkerOk(s, e.w) && r in Next(s, e).refunds && r !in s.refunds
    ensures RefundOk(Next(s, e), r)
  {
    var p := s.Pc(e.w);
    CountSnoc(s.refunds, Refund(p.id, p.task.quota), p.id);
  }

  // ---------------------------------------------------------------------------
  // Runs

  ghost predicate Step(s: State, e: Event, n: State) { Enabled(s, e) && n == Next(s, e) }

  /** The states of a run from given rows, nobody at work and nothing refunded. */
  ghost predicate IsRun(states: seq<State>, events: seq<Event>) {
    && |states| == |events| + 1
    && states[0].pcs == map[] && states[0].refunds == []
    && forall i: nat :: i < |events| ==> StepAt(states, events, i)
  }

  ghost predicate StepAt(states: seq<State>, events: seq<Event>, i: nat) {
    i < |events| && i + 1 < |states| && Step(states[i], events[i], states[i + 1])
  }

  lemma {:induction false} RunKeepsInv(states: seq<State>, events: seq<Event>, i: nat)
    requires IsRun(states, events) && i < |states|
    ensures Inv(states[i])
  {
    if i > 0 {
      RunKeepsInv(states, events, i - 1);
      assert StepAt(states, events, i - 1);
      StepKeepsInv(states[i - 1], events[i - 1]);
    }
  }

  /** Success and failure are absorbing: the row never changes again, in any field. */
  lemma {:induction false} TerminalIsFinal(states: seq<State>, events: seq<Event>, i: nat, j: nat, id: Id)
    requires IsRun(states, events) && i <= j < |states|
    requires id in states[i].rows && Terminal(states[i].rows[id].status)
    ensures id in states[j].rows && states[j].rows[id] == states[i].rows[id]
  {
    if i < j {
      TerminalIsFinal(states, events, i, j - 1, id);
      RunKeepsInv(states, events, j - 1);
      assert StepAt(states, events, j - 1);
      assert WorkerOk(states[j - 1], events[j - 1].w);
      TerminalRowIsFrozen(states[j - 1], events[j - 1], id);
    }
  }

  lemma StepCount(s: State, e: Event, id: Id)
    requires Enabled(s, e)
    ensures Count(s.refunds, id) <= Count(Next(s, e).refunds, id)
  {
    if e.Pay? { CountSnoc(s.refunds, Refund(s.Pc(e.w).id, s.Pc(e.w).task.quota), id); }
  }

  lemma {:induction false} CountGrows(states: seq<State>, events: seq<Event>, i: nat, j: nat, id: Id)
    requires IsRun(states, events) && i <= j < |states|
    ensures Count(states[i].refunds, id) <= Count(states[j].refunds, id)
  {
    if i < j {
      CountGrows(states, events, i, j - 1, id);
      assert StepAt(states, events, j - 1);
      StepCount(states[j - 1], events[j - 1], id);
    }
  }

  /** A task is refunded at most once, only once it has failed, and with the quota on its row. */
  lemma RefundedAtMostOnce(states: seq<State>, events: seq<Event>, i: nat, id: Id)
    requires IsRun(states, events) && i < |states|
    ensures Count(states[i].refunds, id) <= 1
    ensures Count(states[i].refunds, id) == 1 ==>
              && id in states[i].rows && states[i].rows[id].status == FAILURE
              && Refund(id, states[i].rows[id].quota) in states[i].refunds
  {
    RunKeepsInv(states, events, i);
    CountMember(states[i].refunds, id);
    if Count(states[i].refunds, id) > 0 {
      var r :| r in states[i].refunds && r.id == id;
      assert RefundOk(states[i], r);
    }
  }

  /** A task that succeeds at any point of a run is not refunded at any point of it, before or after. */
  lemma SuccessIsNeverRefunded(states: seq<State>, events: seq<Event>, i: nat, j: nat, id: Id)
    requires IsRun(states, events) && i < |states| && j < |states|
    requires id in states[i].rows && states[i].rows[id].status == SUCCESS
    ensures Count(states[j].refunds, id) == 0
  {
    var last := |states| - 1;
    TerminalIsFinal(states, events, i, last, id);
    RefundedAtMostOnce(states, events, last, id);
    CountGrows(states, events, j, last, id);
  }

  // ---------------------------------------------------------------------------
  // Runs in which nothing goes wrong

  /** No error, no stop, and every writer refunds the failures it writes. */
  predicate Smooth(e: Event) {
    !e.CasError? && !e.PayError? && !e.Stop? && (e.Load? ==> e.pays)
  }

  /** A task owed a refund: failed during the run with a quota to give back. */
  ghost predicate Owed(start: State, s: State, id: Id) {
    && id in s.rows && s.rows[id].status == FAILURE && s.rows[id].quota != 0
    && id in start.rows && start.rows[id].status != FAILURE
  }

  ghost predicate Claimed(s: State, id: Id) { exists w :: ClaimedBy(s, id, w) }

  ghost predicate ClaimedBy(s: State, id: Id, w: Worker) { s.Pc(w).Refunding? && s.Pc(w).id == id }

  /** The refund of a task that is owed one has been paid or is in hand. */
  ghost predicate Settled(start: State, s: State, id: Id) {
    Owed(start, s, id) ==> Count(s.refunds, id) > 0 || Claimed(s, id)
  }

  ghost predicate PaysAll(s: State, w: Worker) { s.Pc(w).Pending? ==> s.Pc(w).pays }

  lemma PaidCounts(s: State, e: Event)
    requires e.Pay? && Enabled(s, e)
    ensures Count(Next(s, e).refunds, s.Pc(e.w).id) > 0
  {
    CountSnoc(s.refunds, Refund(s.Pc(e.w).id, s.Pc(e.w).task.quota), s.Pc(e.w).id);
  }

  /** A claim is kept until it is paid. */
  lemma ClaimStep(s: State, e: Event, id: Id, v: Worker)
    requires Enabled(s, e) && Smooth(e) && ClaimedBy(s, id, v)
    ensures Count(Next(s, e).refunds, id) > 0 || ClaimedBy(Next(s, e), id, v)
  {
    if e.Pay? && v == e.w { PaidCounts(s, e); }
  }

  /** Whoever writes a failure claims the refund. */
  lemma FailureIsClaimed(s: State, e: Event, id: Id)
    requires Enabled(s, e) && Smooth(e) && PaysAll(s, e.w)
    requires id in s.rows && s.rows[id].status != FAILURE
    requires id in Next(s, e).rows && Next(s, e).rows[id].status == FAILURE && Next(s, e).rows[id].quota != 0
    ensures ClaimedBy(Next(s, e), id, e.w)
  {
  }

  lemma RowsStay(s: State, e: Event, id: Id)
    requires Enabled(s, e) && WorkerOk(s, e.w)
    ensures id in s.rows <==> id in Next(s, e).rows
  {
  }

  lemma SmoothStep(start: State, s: State, e: Event, id: Id)
    requires Enabled(s, e) && Smooth(e) && WorkerOk(s, e.w) && PaysAll(s, e.w)
    requires Settled(start, s, id)
    ensures Settled(start, Next(s, e), id)
  {
    StepCount(s, e, id);
    RowsStay(s, e, id);
    if id in s.rows && s.rows[id].status == FAILURE {
      TerminalRowIsFrozen(s, e, id);
      if Claimed(s, id) {
        var v :| ClaimedBy(s, id, v);
        ClaimStep(s, e, id, v);
      }
    } else if Owed(start, Next(s, e), id) {
      FailureIsClaimed(s, e, id);
    }
  }

  lemma {:induction false} SmoothRun(states: seq<State>, events: seq<Event>, i: nat, id: Id)
    requires IsRun(states, events) && i < |states| && forall e :: e in events ==> Smooth(e)
    ensures (forall w :: PaysAll(states[i], w)) && Settled(states[0], states[i], id)
  {
    if i > 0 {
      SmoothRun(states, events, i - 1, id);
      RunKeepsInv(states, events, i - 1);
      var s, e := states[i - 1], events[i - 1];
      assert StepAt(states, events, i - 1) && e in events;
      assert WorkerOk(s, e.w) && PaysAll(s, e.w);
      SmoothStep(states[0], s, e, id);
      forall w ensures PaysAll(states[i], w) { assert PaysAll(s, w); }
    }
  }

  /** When nothing goes wrong and all workers are done, a task that was not failed to begin with has been
      refunded, exactly once, if and only if it has failed with a quota to give back. */
  lemma RefundedExactlyOnce(states: seq<State>, events: seq<Event>, id: Id)
    requires IsRun(states, events) && forall e :: e in events ==> Smooth(e)
    requires id in states[0].rows && states[0].rows[id].status != FAILURE
    requires forall w :: states[|events|].Pc(w).Idle?
    ensures var s := states[|events|];
            Count(s.refunds, id) == if Owed(states[0], s, id) then 1 else 0
  {
    var s := states[|events|];
    SmoothRun(states, events, |events|, id);
    RefundedAtMostOnce(states, events, |events|, id);
    RunKeepsInv(states, events, |events|);
    if Count(s.refunds, id) == 1 {
      var r := Refund(id, s.rows[id].quota);
      assert RefundOk(s, r);
    }
  }

  // ---------------------------------------------------------------------------
  // Deliveries

  /** Worker `w` stands still from state `i` to state `j`. */
  ghost predicate StandsStill(events: seq<Event>, w: Worker, i: nat, j: nat) {
    forall k :: i <= k < j && k < |events| ==> events[k].w != w
  }

  lemma {:induction false} WaitingIsKept(states: seq<State>, events: seq<Event>, w: Worker, i: nat, j: nat)
    requires IsRun(states, events) && i <= j < |states| && StandsStill(events, w, i, j)
    ensures states[j].Pc(w) == states[i].Pc(w)
  {
    if i < j {
      WaitingIsKept(states, events, w, i, j - 1);
      assert StepAt(states, events, j - 1);
      assert events[j - 1].w != w;
    }
  }

  /** A delivery to an open Meshy job, whatever happens before its update: if the row still has the status it
      was read with, it then reflects the delivery, and a failure with a quota is owed a refund of that quota;
      otherwise the row stays as it is and nothing is owed. */
  lemma DeliveryLands(states: seq<State>, events: seq<Event>, i: nat, j: nat)
    requires IsRun(states, events) && i < j < |events|
    requires events[i].Deliver? && events[j] == Cas(events[i].w) && StandsStill(events, events[i].w, i + 1, j)
    requires var id := events[i].id;
             states[i].Open(id) && states[i].rows[id].platform == "meshy"
    ensures var e, id := events[i], events[i].id;
            var was, next := states[i].rows[id], states[j + 1];
            && id in states[j].rows && id in next.rows
            && (states[j].rows[id].status == was.status ==>
                  && Reflects(was, e.info, e.payload, e.now, next.rows[id])
                  && (next.rows[id].status == "FAILURE" && was.quota != 0 ==>
                        next.Pc(e.w) == Refunding(id, next.rows[id]) && next.Pc(e.w).task.quota == was.quota)
                  && (next.rows[id].status != "FAILURE" || was.quota == 0 ==> next.Pc(e.w).Idle?))
            && (states[j].rows[id].status != was.status ==> next.rows == states[j].rows && next.Pc(e.w).Idle?)
  {
    var e, id := events[i], events[i].id;
    assert StepAt(states, events, i);
    var t := Merged(states[i].rows[id], e.info, e.payload, e.now);
    MergedExactly(states[i].rows[id], e.info, e.payload, e.now, t);
    assert states[i + 1].Pc(e.w) == Pending(id, states[i].rows[id].status, t, true);
    WaitingIsKept(states, events, e.w, i + 1, j);
    RunKeepsInv(states, events, j);
    assert WorkerOk(states[j], e.w);
    assert StepAt(states, events, j);
  }

  /** A delivery to a job that is missing, finished or of another platform does nothing. */
  lemma DeliveryIsIgnored(s: State, e: Event)
    requires Enabled(s, e) && e.Deliver?
    requires e.id !in s.rows || s.rows[e.id].platform != "meshy" || s.rows[e.id].status in {"SUCCESS", "FAILURE"}
    ensures Next(s, e) == s
  {
  }

  /** Paying adds one refund, of the quota that was read. */
  lemma PayingRefunds(s: State, w: Worker)
    requires s.Pc(w).Refunding?
    ensures Next(s, Pay(w)).refunds == s.refunds + [Refund(s.Pc(w).id, s.Pc(w).task.quota)]
    ensures Next(s, Pay(w)).Pc(w).Idle? && Next(s, Pay(w)).rows == s.rows
  {
  }

  // ---------------------------------------------------------------------------
  // Runs in which rows change by deliveries only

  predicate ByDelivery(e: Event) { e.Deliver? || e.Cas? || e.Pay? }

  /** Row `id` and the snapshots of it still have the quota they started with. */
  ghost predicate QuotaKept(s: State, id: Id, quota: int) {
    && id in s.rows && s.rows[id].quota == quota
    && forall w :: SnapshotKept(s, w, id, quota)
  }

  ghost predicate SnapshotKept(s: State, w: Worker, id: Id, quota: int) {
    s.Pc(w).Pending? && s.Pc(w).id == id ==> s.Pc(w).task.quota == quota
  }

  lemma QuotaStep(s: State, e: Event, id: Id, quota: int)
    requires Enabled(s, e) && ByDelivery(e) && QuotaKept(s, id, quota)
    ensures QuotaKept(Next(s, e), id, quota)
  {
    var n := Next(s, e);
    assert SnapshotKept(s, e.w, id, quota);
    forall w ensures SnapshotKept(n, w, id, quota) { assert SnapshotKept(s, w, id, quota); }
  }

  lemma {:induction false} QuotaIsKept(states: seq<State>, events: seq<Event>, i: nat, id: Id)
    requires IsRun(states, events) && i < |states| && id in states[0].rows
    requires forall e :: e in events ==> ByDelivery(e)
    ensures QuotaKept(states[i], id, states[0].rows[id].quota)
  {
    if i > 0 {
      QuotaIsKept(states, events, i - 1, id);
      assert StepAt(states, events, i - 1) && events[i - 1] in events;
      QuotaStep(states[i - 1], events[i - 1], id, states[0].rows[id].quota);
    }
  }

  /** When only deliveries change rows and nothing goes wrong, then once all workers are done a job that was not
      failed to begin with has been refunded exactly once, by the quota it started with, if it has failed and
      that quota is not zero, and not at all otherwise. */
  lemma DeliveriesRefundOnce(states: seq<State>, events: seq<Event>, id: Id)
    requires IsRun(states, events) && forall e :: e in events ==> ByDelivery(e)
    requires id in states[0].rows && states[0].rows[id].status != "FAILURE"
    requires forall w :: states[|events|].Pc(w).Idle?
    ensures var s, quota := states[|events|], states[0].rows[id].quota;
            && id in s.rows
            && if s.rows[id].status == "FAILURE" && quota != 0 then
                 Count(s.refunds, id) == 1 && Refund(id, quota) in s.refunds
               else Count(s.refunds, id) == 0
  {
    QuotaIsKept(states, events, |events|, id);
    RefundedExactlyOnce(states, events, id);
    RefundedAtMostOnce(states, events, |events|, id);
  }
}
