/** The batched scan over the enabled channels, by increasing id, while other requests insert, enable
    and disable rows between batches (controller/channel_upstream_update.go, lines 550-636, 848-923). */
module ChannelScan {
  import opened Text

  const BATCH_SIZE := 100

  /** The ids of the enabled channels each query of the scan would see; `None` is a failed query. */
  type Database = nat -> Option<set<int>>

  predicate Increasing(s: seq<int>) { forall i, j :: 0 <= i < j < |s| ==> s[i] < s[j] }

  lemma Member<T>(s: set<T>) returns (x: T)
    requires s != {}
    ensures x in s
  {
    x :| x in s;
  }

  predicate IsLeast(ids: set<int>, m: int) { m in ids && forall i :: i in ids ==> m <= i }

  lemma LeastOfMore(ids: set<int>, x: int, y: int)
    requires x in ids && IsLeast(ids - {x}, y)
    ensures IsLeast(ids, if x <= y then x else y)
  {
    forall i | i in ids ensures (if x <= y then x else y) <= i {
      if i != x { assert i in ids - {x}; }
    }
  }

  lemma {:induction false} LeastExists(ids: set<int>)
    requires ids != {}
    ensures exists m :: IsLeast(ids, m)
  {
    var x := Member(ids);
    if ids - {x} == {} {
      assert ids == {x};
      assert IsLeast(ids, x);
    } else {
      LeastExists(ids - {x});
      var y :| IsLeast(ids - {x}, y);
      LeastOfMore(ids, x, y);
    }
  }

  function Least(ids: set<int>): (m: int)
    requires ids != {}
    ensures m in ids && forall i :: i in ids ==> m <= i
  {
    LeastExists(ids);
    var m :| IsLeast(ids, m);
    m
  }

  /** `order by id limit n` */
  function Ascending(ids: set<int>, limit: nat): seq<int> {
    if limit == 0 || ids == {} then []
    else var m := Least(ids); [m] + Ascending(ids - {m}, limit - 1)
  }

  /** The query of one batch; the first batch has no lower bound. */
  function Page(enabled: set<int>, lastID: int, limit: nat): seq<int> {
    Ascending(Eligible(enabled, lastID), limit)
  }

  function Eligible(enabled: set<int>, lastID: int): set<int> {
    set i | i in enabled && (lastID > 0 ==> i > lastID)
  }

  lemma {:induction false} AscendingFacts(ids: set<int>, limit: nat)
    ensures var p := Ascending(ids, limit);
            && |p| <= limit && Increasing(p)
            && (forall i :: i in p ==> i in ids)
            && (forall i :: i in ids && i !in p ==> |p| == limit && forall j :: j in p ==> j < i)
    decreases limit
  {
    if limit > 0 && ids != {} {
      var m := Least(ids);
      AscendingFacts(ids - {m}, limit - 1);
      var rest := Ascending(ids - {m}, limit - 1);
      forall i, j | 0 <= i < j < |[m] + rest| ensures ([m] + rest)[i] < ([m] + rest)[j] {
        assert rest[j - 1] in rest;
      }
    }
  }

  /** A page holds the first enabled ids above `lastID`; when it is not full it holds them all. */
  lemma PageFacts(enabled: set<int>, lastID: int, limit: nat)
    requires 0 <= lastID && forall i :: i in enabled ==> 0 < i
    ensures var p := Page(enabled, lastID, limit);
            && |p| <= limit && Increasing(p)
            && (forall i :: i in p ==> i in enabled && lastID < i)
            && (forall i :: i in enabled && lastID < i && i !in p ==> |p| == limit && forall j :: j in p ==> j < i)
  {
    AscendingFacts(Eligible(enabled, lastID), limit);
  }

  lemma IncreasingConcat(a: seq<int>, b: seq<int>, last: int)
    requires Increasing(a) && Increasing(b)
    requires (forall x :: x in a ==> x <= last) && (forall x :: x in b ==> last < x)
    ensures Increasing(a + b)
  {
    var s := a + b;
    forall i, j | 0 <= i < j < |s| ensures s[i] < s[j] {
      if i < |a| <= j {
        assert s[i] in a && s[j] in b;
      }
    }
  }

  /** The visited ids are all those of `id` up to `last` that every query so far has seen. */
  ghost predicate Covered(db: Database, queries: nat, visited: seq<int>, last: int) {
    forall id :: id <= last && SeenBy(db, queries, id) ==> id in visited
  }

  ghost predicate SeenBy(db: Database, queries: nat, id: int) {
    forall k :: 0 <= k < queries ==> db(k).Some? && id in db(k).value
  }

  lemma CoveredStep(db: Database, k: nat, visited: seq<int>, last: int, limit: nat)
    requires db(k).Some? && 0 <= last && forall i :: i in db(k).value ==> 0 < i
    requires k > 0 ==> Covered(db, k, visited, last)
    requires k == 0 ==> last == 0
    ensures var p := Page(db(k).value, last, limit);
            && (|p| < limit ==> forall id :: SeenBy(db, k + 1, id) ==> id in visited + p)
            && (|p| > 0 ==> Covered(db, k + 1, visited + p, p[|p| - 1]))
  {
    var p := Page(db(k).value, last, limit);
    PageFacts(db(k).value, last, limit);
    forall id | SeenBy(db, k + 1, id) ensures id in visited + p || (|p| == limit && forall j :: j in p ==> j < id) {
      assert id in db(k).value;
      if id <= last {
        assert SeenBy(db, k, id);
      }
    }
    if |p| > 0 { assert p[|p| - 1] in p; }
  }

  /** The scan loop. `stopAt(k, 0)` is whether the context is cancelled before batch `k`,
      and `stopAt(k, i + 1)` whether it is before item `i` of that batch.
      Channel ids are positive, and `bound` limits them. */
  method Scan(db: Database, stopAt: (nat, nat) -> bool, ghost bound: int)
    returns (visited: seq<int>, complete: bool, queries: nat)
    requires forall k: nat, id :: db(k).Some? && id in db(k).value ==> 0 < id <= bound
    ensures Increasing(visited)
    ensures forall id :: id in visited ==> exists k :: 0 <= k < queries && db(k).Some? && id in db(k).value
    ensures complete ==> queries > 0 && forall id :: SeenBy(db, queries, id) ==> id in visited
    ensures complete || (exists k: nat :: k < queries && db(k).None?) || exists k: nat, i: nat :: stopAt(k, i)
  {
    visited, complete, queries := [], false, 0;
    var lastID := 0;
    while true
      invariant Increasing(visited) && 0 <= lastID
      invariant forall id :: id in visited ==> id <= lastID
      invariant forall id :: id in visited ==> exists k :: 0 <= k < queries && db(k).Some? && id in db(k).value
      invariant queries > 0 ==> lastID <= bound && Covered(db, queries, visited, lastID)
      invariant queries == 0 ==> lastID == 0
      decreases if queries == 0 then 1 else 0, bound - lastID
    {
      if stopAt(queries, 0) { return; }
      var k := queries;
      queries := queries + 1;
      if db(k).None? { return; }
      var page := Page(db(k).value, lastID, BATCH_SIZE);
      PageFacts(db(k).value, lastID, BATCH_SIZE);
      CoveredStep(db, k, visited, lastID, BATCH_SIZE);
      if |page| == 0 {
        assert visited + page == visited;
        complete := true;
        return;
      }
      ghost var before := visited;
      var stopped: bool;
      visited, stopped := VisitPage(visited, page, k, stopAt, lastID);
      if stopped { return; }
      assert page[|page| - 1] in page;
      lastID := page[|page| - 1];
      if |page| < BATCH_SIZE {
        complete := true;
        return;
      }
    }
  }

  /** One batch: its channels in order, unless the context is cancelled on the way. */
  method VisitPage(before: seq<int>, page: seq<int>, k: nat, stopAt: (nat, nat) -> bool, ghost last: int)
    returns (visited: seq<int>, stopped: bool)
    requires Increasing(before) && Increasing(page)
    requires (forall x :: x in before ==> x <= last) && (forall x :: x in page ==> last < x)
    ensures Increasing(visited) && forall x :: x in visited ==> x in before || x in page
    ensures !stopped ==> visited == before + page
    ensures stopped <==> exists i: nat :: 1 <= i <= |page| && stopAt(k, i)
  {
    visited, stopped := before, false;
    IncreasingConcat(before, page, last);
    for i := 0 to |page|
      invariant visited == before + page[..i]
      invariant forall j: nat :: 1 <= j <= i ==> !stopAt(k, j)
    {
      assert visited == (before + page)[..|before| + i];
      if stopAt(k, i + 1) {
        stopped := true;
        return;
      }
      visited := visited + [page[i]];
    }
  }
}
