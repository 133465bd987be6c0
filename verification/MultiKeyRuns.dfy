/** Runs of multi-key actions (controller/channel.go, lines 958-1034 and 1464-1885; model/channel.go, lines 525-573):
    when the size stays the number of keys and the side maps stay within it. */
module MultiKeyRuns {
  import opened Text
  import opened MultiKey
  import ModelNames

  /** What an action has to meet so that sizes and indices agree afterwards. It is seen from the stored
      channel and the request, before the action. */
  predicate Fits(json: JsonArrays, s: Store, a: Action)
    requires Accepted(json, s, a)
  {
    match a
    case DeleteKey(i) => FitsShrunk(json, s, AllBut(i.value), s.times, s.reasons)
    case DeleteDisabled => FitsShrunk(json, s, NotAuto(s), OfDisabled(s.times, s), OfDisabled(s.reasons, s))
    case Append(text, newKeys) => FitsAppended(json, s, text, newKeys)
    case Mark(_, _, _, _) => true
    case _ => Countable(json, s.key)
  }

  lemma EditKeepsValidExactly(json: JsonArrays, s: Store, a: Action)
    requires Valid(json, s) && Accepted(json, s, a) && KeepsKeys(a)
    ensures Valid(json, Do(json, s, a)) <==> Fits(json, s, a)
  {
    EditedInRange(json, s, a);
    SavedValidExactly(json, Edited(GetKeys(json, s.key), s, a), s.key);
  }

  /** An action keeps sizes and indices in agreement if and only if it fits. */
  lemma ActionKeepsValidExactly(json: JsonArrays, s: Store, a: Action)
    requires Valid(json, s) && Accepted(json, s, a)
    ensures Valid(json, Do(json, s, a)) <==> Fits(json, s, a)
  {
    match a
    case DeleteKey(i) => ShrunkValidExactly(json, s, AllBut(i.value), s.times, s.reasons);
    case DeleteDisabled => ShrunkValidExactly(json, s, NotAuto(s), OfDisabled(s.times, s), OfDisabled(s.reasons, s));
    case Append(text, newKeys) => AppendedValidExactly(json, s, text, newKeys);
    case _ => EditKeepsValidExactly(json, s, a);
  }

  // ---------------------------------------------------------------------------
  // Runs

  function Perform(json: JsonArrays, s: Store, a: Action): Store {
    if Accepted(json, s, a) then Do(json, s, a) else s
  }

  /** Actions one after another; a refused one changes nothing. */
  function Run(json: JsonArrays, s: Store, actions: seq<Action>): Store {
    if actions == [] then s else Perform(json, Run(json, s, actions[..|actions| - 1]), actions[|actions| - 1])
  }

  /** Every action that is accepted along the way fits. */
  predicate AllFit(json: JsonArrays, s: Store, actions: seq<Action>) {
    actions != [] ==>
      var init, a := actions[..|actions| - 1], actions[|actions| - 1];
      AllFit(json, s, init) && (Accepted(json, Run(json, s, init), a) ==> Fits(json, Run(json, s, init), a))
  }

  /** Sizes and indices agree all the way. */
  predicate AlwaysValid(json: JsonArrays, s: Store, actions: seq<Action>) {
    Valid(json, Run(json, s, actions)) && (actions != [] ==> AlwaysValid(json, s, actions[..|actions| - 1]))
  }

  lemma {:induction false} AlwaysMeansEachPoint(json: JsonArrays, s: Store, actions: seq<Action>, i: nat)
    requires AlwaysValid(json, s, actions) && i <= |actions|
    ensures Valid(json, Run(json, s, actions[..i]))
  {
    if i == |actions| {
      assert actions[..i] == actions;
    } else {
      AlwaysMeansEachPoint(json, s, actions[..|actions| - 1], i);
      assert actions[..|actions| - 1][..i] == actions[..i];
    }
  }

  /** Over every run the size is the number of keys and the side maps stay within it, all the way, if and
      only if every action on the way fits. */
  lemma {:induction false} RunKeepsValid(json: JsonArrays, s: Store, actions: seq<Action>)
    requires Valid(json, s)
    ensures AlwaysValid(json, s, actions) <==> AllFit(json, s, actions)
  {
    if actions != [] {
      var init, a := actions[..|actions| - 1], actions[|actions| - 1];
      RunKeepsValid(json, s, init);
      var was := Run(json, s, init);
      if AlwaysValid(json, s, init) && Accepted(json, was, a) {
        AlwaysIsNow(json, s, init);
        ActionKeepsValidExactly(json, was, a);
      }
    }
  }

  lemma AlwaysIsNow(json: JsonArrays, s: Store, actions: seq<Action>)
    requires AlwaysValid(json, s, actions)
    ensures Valid(json, Run(json, s, actions))
  {
  }

  /** At any point of such a run a deletion removes exactly its rows, if and only if the remaining keys
      read back. */
  lemma DeletionsInRuns(json: JsonArrays, start: Store, actions: seq<Action>, k: int)
    requires Valid(json, start) && AllFit(json, start, actions)
    ensures var s := Run(json, start, actions);
            var v := View(json, s);
            && (Accepted(json, s, DeleteKey(Some(k))) ==>
                  && 0 <= k < |v|
                  && (View(json, Do(json, s, DeleteKey(Some(k)))) == v[..k] + v[k + 1..]
                      <==> ReadsBack(json, Remaining(json, s, AllBut(k)))))
            && (Accepted(json, s, DeleteDisabled) ==>
                  (View(json, Do(json, s, DeleteDisabled)) == NotAutoDisabled(v)
                   <==> ReadsBack(json, Remaining(json, s, NotAuto(s)))))
  {
    var s := Run(json, start, actions);
    RunKeepsValid(json, start, actions);
    AlwaysIsNow(json, start, actions);
    if Accepted(json, s, DeleteKey(Some(k))) { DeleteKeyExact(json, s, k); }
    if Accepted(json, s, DeleteDisabled) { DeleteDisabledExact(json, s); }
  }

  // ---------------------------------------------------------------------------
  // What the key text decides

  /** The action keeps sizes and indices in agreement, if it is not refused. */
  predicate KeepsValid(json: JsonArrays, s: Store, a: Action) {
    Accepted(json, s, a) ==> Valid(json, Do(json, s, a))
  }

  /** The shorter list, once written, reads as no fewer keys. */
  predicate RoomFor(json: JsonArrays, stored: string, left: seq<string>) {
    var now := Now(stored, Join(left, '\n'));
    Countable(json, now) && |GetKeys(json, now)| >= |left|
  }

  function Without(keys: seq<string>, k: int): seq<string> { Pick(keys, Kept(|keys|, AllBut(k)), "") }

  lemma RoomForIsEnough(json: JsonArrays, s: Store, k: int)
    requires Valid(json, s) && RoomFor(json, s.key, Without(GetKeys(json, s.key), k))
    ensures KeepsValid(json, s, DeleteKey(Some(k)))
  {
    ShrunkValidExactly(json, s, AllBut(k), s.times, s.reasons);
  }

  lemma TimeBeyond(m: map<int, int>, at: seq<int>, n: nat)
    requires n < |at| && at[|at| - 1] in m
    ensures !NothingBeyond(m, at, n)
  {
    var j := |at| - 1;
    assert n <= j < |at| && at[j] in m;
  }

  lemma RoomForIsNeeded(json: JsonArrays, text: string, k: int) returns (s: Store)
    requires 0 <= k < |GetKeys(json, text)| && |GetKeys(json, text)| >= 2
    requires !RoomFor(json, text, Without(GetKeys(json, text), k))
    ensures Valid(json, s) && s.key == text && !FitsShrunk(json, s, AllBut(k), s.times, s.reasons)
  {
    var n := |GetKeys(json, text)|;
    var at := Kept(n, AllBut(k));
    KeptAllBut(n, k);
    s := Store(text, n, map[], map[at[|at| - 1] := 0], map[]);
    var now := Now(text, Join(Without(GetKeys(json, text), k), '\n'));
    if Countable(json, now) { TimeBeyond(s.times, at, |GetKeys(json, now)|); }
  }

  /** Whatever the side maps hold, deleting key `k` of a text keeps them within the new size, if and only
      if the remaining keys still read as that many. */
  lemma DeleteKeyKeepsAllExactly(json: JsonArrays, text: string, k: int)
    requires 0 <= k < |GetKeys(json, text)| && |GetKeys(json, text)| >= 2
    ensures (forall s :: Valid(json, s) && s.key == text ==> KeepsValid(json, s, DeleteKey(Some(k))))
       <==> RoomFor(json, text, Without(GetKeys(json, text), k))
  {
    if RoomFor(json, text, Without(GetKeys(json, text), k)) {
      forall s | Valid(json, s) && s.key == text ensures KeepsValid(json, s, DeleteKey(Some(k))) {
        RoomForIsEnough(json, s, k);
      }
    } else {
      var s := RoomForIsNeeded(json, text, k);
      NotKept(json, s, k);
    }
  }

  lemma NotKept(json: JsonArrays, s: Store, k: int)
    requires Valid(json, s) && 0 <= k < s.size && s.size >= 2
    requires !FitsShrunk(json, s, AllBut(k), s.times, s.reasons)
    ensures !KeepsValid(json, s, DeleteKey(Some(k)))
  {
    KeptAllBut(s.size, k);
    ShrunkValidExactly(json, s, AllBut(k), s.times, s.reasons);
  }

  predicate RoomAfter(json: JsonArrays, stored: string, text: string, newKeys: seq<string>) {
    var now := Now(stored, Appended(json, stored, text, newKeys));
    Countable(json, now) && |GetKeys(json, now)| >= |GetKeys(json, stored)|
  }

  lemma RoomAfterIsEnough(json: JsonArrays, s: Store, text: string, newKeys: seq<string>)
    requires Valid(json, s) && RoomAfter(json, s.key, text, newKeys)
    ensures KeepsValid(json, s, Append(text, newKeys))
  {
    AppendedValidExactly(json, s, text, newKeys);
  }

  /** A channel whose last key has a recorded time, if there is a key. */
  function LastTimed(json: JsonArrays, stored: string): Store {
    var n := |GetKeys(json, stored)|;
    Store(stored, n, map[], if n > 0 then map[n - 1 := 0] else map[], map[])
  }

  lemma TimeOverflows(json: JsonArrays, now: string, s: Store, n: nat)
    requires n > 0 ==> n - 1 in s.times
    requires !(Countable(json, now) && |GetKeys(json, now)| >= n)
    ensures !FitsText(json, now, s)
  {
  }

  lemma LastTimedIsValid(json: JsonArrays, stored: string)
    ensures Valid(json, LastTimed(json, stored)) && LastTimed(json, stored).key == stored
  {
  }

  lemma RoomAfterIsNeeded(json: JsonArrays, stored: string, text: string, newKeys: seq<string>)
    requires !RoomAfter(json, stored, text, newKeys)
    ensures !KeepsValid(json, LastTimed(json, stored), Append(text, newKeys))
  {
    var s := LastTimed(json, stored);
    LastTimedIsValid(json, stored);
    TimeOverflows(json, Now(stored, Appended(json, stored, text, newKeys)), s, |GetKeys(json, stored)|);
    AppendedValidExactly(json, s, text, newKeys);
  }

  /** The same for an append: the longer list reads as no fewer keys than there were. */
  lemma AppendKeepsAllExactly(json: JsonArrays, stored: string, text: string, newKeys: seq<string>)
    ensures (forall s :: Valid(json, s) && s.key == stored ==> KeepsValid(json, s, Append(text, newKeys)))
       <==> RoomAfter(json, stored, text, newKeys)
  {
    if RoomAfter(json, stored, text, newKeys) {
      forall s | Valid(json, s) && s.key == stored ensures KeepsValid(json, s, Append(text, newKeys)) {
        RoomAfterIsEnough(json, s, text, newKeys);
      }
    } else {
      RoomAfterIsNeeded(json, stored, text, newKeys);
      LastTimedIsValid(json, stored);
    }
  }

  /** And for the bulk deletion, which carries over the times and reasons of disabled keys only: those
      must still have a key. */
  predicate RoomForDisabled(json: JsonArrays, s: Store) {
    var now, at := Now(s.key, Join(Remaining(json, s, NotAuto(s)), '\n')), Kept(|GetKeys(json, s.key)|, NotAuto(s));
    && Countable(json, now)
    && forall j :: |GetKeys(json, now)| <= j < |at| ==> StatusAt(s, at[j]) == ENABLED
  }

  lemma {:induction false} KeptSame(n: nat, p: int -> bool, q: int -> bool)
    requires forall i :: p(i) == q(i)
    ensures Kept(n, p) == Kept(n, q)
  {
    if n > 0 { KeptSame(n - 1, p, q); }
  }

  ghost predicate SameKeysAndStatus(json: JsonArrays, s: Store, t: Store) {
    Valid(json, s) && s.key == t.key && s.status == t.status
  }

  lemma RoomIsEnough(json: JsonArrays, s: Store, t: Store)
    requires SameKeysAndStatus(json, s, t) && RoomForDisabled(json, t)
    ensures KeepsValid(json, s, DeleteDisabled)
  {
    KeptSame(|GetKeys(json, s.key)|, NotAuto(s), NotAuto(t));
    ShrunkValidExactly(json, s, NotAuto(s), OfDisabled(s.times, s), OfDisabled(s.reasons, s));
  }

  lemma DisabledOverflows(s: Store, at: seq<int>, n: nat, j: nat)
    requires n <= j < |at| && StatusAt(s, at[j]) != ENABLED && at[j] in s.times
    ensures !NothingBeyond(OfDisabled(s.times, s), at, n)
  {
    assert at[j] in OfDisabled(s.times, s);
  }

  lemma FitsShrunkSame(json: JsonArrays, s: Store, t: Store)
    requires SameKeysAndStatus(json, s, t)
    ensures Kept(|GetKeys(json, s.key)|, NotAuto(s)) == Kept(|GetKeys(json, t.key)|, NotAuto(t))
    ensures Remaining(json, s, NotAuto(s)) == Remaining(json, t, NotAuto(t))
  {
    KeptSame(|GetKeys(json, s.key)|, NotAuto(s), NotAuto(t));
  }

  lemma LostTimeDoesNotFit(json: JsonArrays, s: Store, at: seq<int>, j: nat)
    requires at == Kept(|GetKeys(json, s.key)|, NotAuto(s))
    requires |GetKeys(json, Now(s.key, Join(Remaining(json, s, NotAuto(s)), '\n')))| <= j < |at|
    requires StatusAt(s, at[j]) != ENABLED && at[j] in s.times
    ensures !FitsShrunk(json, s, NotAuto(s), OfDisabled(s.times, s), OfDisabled(s.reasons, s))
  {
    DisabledOverflows(s, at, |GetKeys(json, Now(s.key, Join(Remaining(json, s, NotAuto(s)), '\n')))|, j);
  }

  /** Side maps that do not fit: one time, recorded for a disabled key that is lost. */
  lemma RoomIsNeeded(json: JsonArrays, t: Store) returns (s: Store)
    requires Valid(json, t) && !RoomForDisabled(json, t)
    ensures SameKeysAndStatus(json, s, t)
    ensures !FitsShrunk(json, s, NotAuto(s), OfDisabled(s.times, s), OfDisabled(s.reasons, s))
  {
    var n := |GetKeys(json, t.key)|;
    var now, at := Now(t.key, Join(Remaining(json, t, NotAuto(t)), '\n')), Kept(n, NotAuto(t));
    if !Countable(json, now) { return t; }
    var j: nat :| |GetKeys(json, now)| <= j < |at| && StatusAt(t, at[j]) != ENABLED;
    KeptFacts(n, NotAuto(t));
    s := t.(times := map[at[j] := 0]);
    FitsShrunkSame(json, s, t);
    LostTimeDoesNotFit(json, s, at, j);
  }

  lemma DeleteDisabledKeepsAllExactly(json: JsonArrays, t: Store)
    requires Valid(json, t) && Accepted(json, t, DeleteDisabled)
    ensures (forall s :: SameKeysAndStatus(json, s, t) ==> KeepsValid(json, s, DeleteDisabled))
       <==> RoomForDisabled(json, t)
  {
    if RoomForDisabled(json, t) {
      forall s | SameKeysAndStatus(json, s, t) ensures KeepsValid(json, s, DeleteDisabled) { RoomIsEnough(json, s, t); }
    } else {
      var s := RoomIsNeeded(json, t);
      KeptSame(|GetKeys(json, t.key)|, NotAuto(s), NotAuto(t));
      ShrunkValidExactly(json, s, NotAuto(s), OfDisabled(s.times, s), OfDisabled(s.reasons, s));
    }
  }

  // ---------------------------------------------------------------------------
  // Plain keys

  /** A key on one line, not blank, that does not open a bracket. */
  predicate Tame(k: string) {
    '\n' !in k && Trim(k, GoSpace) != "" && Trim(k, GoSpace)[0] != '['
  }

  predicate AllTame(keys: seq<string>) { forall k :: k in keys ==> Tame(k) }

  predicate Sound(json: JsonArrays, text: string) {
    var keys := GetKeys(json, text);
    text == "" || (keys != [] && AllTame(keys) && Existing(json, text) == keys)
  }

  predicate Brings(json: JsonArrays, a: Action) {
    a.Append? ==> Sound(json, a.text) && AllTame(ModelNames.Normalize(a.newKeys))
  }

  lemma {:induction false} TrimLeftPrefix(a: string, b: string)
    requires TrimLeft(a, GoSpace) != ""
    ensures TrimLeft(a + b, GoSpace) == TrimLeft(a, GoSpace) + b
  {
    assert (a + b)[0] == a[0];
    if GoSpace(a[0]) {
      assert (a + b)[1..] == a[1..] + b;
      TrimLeftPrefix(a[1..], b);
    }
  }

  lemma TrimHead(a: string)
    requires TrimLeft(a, GoSpace) != ""
    ensures Trim(a, GoSpace) != "" && Trim(a, GoSpace)[0] == TrimLeft(a, GoSpace)[0]
  {
    TrimLeftEnds(a, GoSpace);
    TrimRightKeeps(TrimLeft(a, GoSpace), GoSpace);
    TrimRightEnds(TrimLeft(a, GoSpace), GoSpace);
  }

  lemma TameHead(a: string, b: string)
    requires Tame(a)
    ensures a != "" && !Bracketed(a + b)
  {
    TrimHead(a);
    TrimLeftPrefix(a, b);
    TrimHead(a + b);
  }

  lemma TameReadsBack(json: JsonArrays, keys: seq<string>)
    requires keys != [] && AllTame(keys)
    ensures ReadsBack(json, keys) && Sound(json, Join(keys, '\n')) && GetKeys(json, Join(keys, '\n')) == keys
  {
    var text := Join(keys, '\n');
    assert keys[0] in keys && keys[|keys| - 1] in keys;
    TameHead(keys[|keys| - 1], "");
    TameHead(keys[0], text[|keys[0]|..]);
    JoinFirst(keys);
    assert keys[0] + text[|keys[0]|..] == text;
    JoinReadsBack(json, keys);
  }

  lemma PickTame(keys: seq<string>, at: seq<int>)
    requires AllTame(keys) && forall j :: 0 <= j < |at| ==> 0 <= at[j] < |keys|
    ensures AllTame(Pick(keys, at, ""))
  {
    var p := Pick(keys, at, "");
    forall k | k in p ensures Tame(k) {
      var j :| 0 <= j < |p| && p[j] == k;
      assert keys[at[j]] in keys;
    }
  }

  lemma RemainingTame(json: JsonArrays, s: Store, keep: int -> bool)
    requires Sound(json, s.key)
    ensures AllTame(Remaining(json, s, keep))
    ensures var left := Remaining(json, s, keep);
            left != [] ==> ReadsBack(json, left) && Sound(json, Join(left, '\n'))
  {
    KeptFacts(|GetKeys(json, s.key)|, keep);
    PickTame(GetKeys(json, s.key), Kept(|GetKeys(json, s.key)|, keep));
    if Remaining(json, s, keep) != [] { TameReadsBack(json, Remaining(json, s, keep)); }
  }

  lemma DeletionKeepsSound(
    json: JsonArrays, s: Store, keep: int -> bool, times: map<int, int>, reasons: map<int, string>)
    requires Sound(json, s.key)
    requires SameWhereDisabled(s, times, s.times) && SameWhereDisabled(s, reasons, s.reasons)
    requires |Remaining(json, s, keep)| < |GetKeys(json, s.key)|
    ensures var n := Saved(json, Shrunk(json, s, keep, times, reasons), s.key); Valid(json, n) && Sound(json, n.key)
  {
    RemainingTame(json, s, keep);
    DeletionExact(json, s, keep, times, reasons);
    var left, t := Remaining(json, s, keep), Shrunk(json, s, keep, times, reasons);
    if left == [] {
      CountedSame(json, s.key);
      assert t.status == map[] && t.times == map[] && t.reasons == map[];
    } else if t.key == "" {
      ReadBackIsText(json, left);
    }
  }

  lemma LongerTame(json: JsonArrays, keys: seq<string>, newKeys: seq<string>)
    requires keys != [] && AllTame(keys) && AllTame(ModelNames.Normalize(newKeys))
    ensures var all := keys + Added(keys, newKeys);
            ReadsBack(json, all) && Sound(json, Join(all, '\n')) && Join(all, '\n') != ""
  {
    ModelNames.SubtractFacts(newKeys, keys);
    var all := keys + Added(keys, newKeys);
    assert AllTame(all);
    TameReadsBack(json, all);
    ReadBackIsText(json, all);
  }

  lemma AppendKeepsSound(json: JsonArrays, s: Store, text: string, newKeys: seq<string>)
    requires s.key != "" && Valid(json, s) && Sound(json, s.key) && AllTame(ModelNames.Normalize(newKeys))
    ensures var n := Do(json, s, Append(text, newKeys)); Valid(json, n) && Sound(json, n.key)
  {
    var keys := GetKeys(json, s.key);
    assert keys != [] && AllTame(keys) && Existing(json, s.key) == keys;
    LongerTame(json, keys, newKeys);
    LongerText(json, s, keys + Added(keys, newKeys));
  }

  lemma FirstKeysAreSound(json: JsonArrays, s: Store, text: string, newKeys: seq<string>)
    requires s.key == "" && Valid(json, s) && Sound(json, text)
    ensures var n := Do(json, s, Append(text, newKeys)); Valid(json, n) && Sound(json, n.key)
  {
    CountedSame(json, text);
  }

  lemma ActionKeepsSound(json: JsonArrays, s: Store, a: Action)
    requires Valid(json, s) && Sound(json, s.key) && Accepted(json, s, a) && Brings(json, a)
    ensures var n := Do(json, s, a); Valid(json, n) && Sound(json, n.key)
  {
    match a
    case DeleteKey(k) =>
      KeptAllBut(s.size, k.value);
      DeletionKeepsSound(json, s, AllBut(k.value), s.times, s.reasons);
    case DeleteDisabled =>
      DeletionKeepsSound(json, s, NotAuto(s), OfDisabled(s.times, s), OfDisabled(s.reasons, s));
    case Append(text, newKeys) =>
      if s.key == "" {
        FirstKeysAreSound(json, s, text, newKeys);
      } else {
        AppendKeepsSound(json, s, text, newKeys);
      }
    case _ => RowsAfter(json, s, a);
  }

  lemma {:induction false} TameRunsStaySound(json: JsonArrays, s: Store, actions: seq<Action>)
    requires Valid(json, s) && Sound(json, s.key) && forall a :: a in actions ==> Brings(json, a)
    ensures var n := Run(json, s, actions); Valid(json, n) && Sound(json, n.key)
    ensures AllFit(json, s, actions)
  {
    if actions != [] {
      var init, a := actions[..|actions| - 1], actions[|actions| - 1];
      TameRunsStaySound(json, s, init);
      var was := Run(json, s, init);
      if Accepted(json, was, a) {
        ActionKeepsSound(json, was, a);
        ActionKeepsValidExactly(json, was, a);
      }
    }
  }

  /** With plain keys every run fits. At any point of it, deleting a key removes its row and no other;
      deleting the automatically disabled keys removes exactly their rows, unless those are all the rows. */
  lemma TameRunsFit(json: JsonArrays, start: Store, actions: seq<Action>, k: int)
    requires Valid(json, start) && Sound(json, start.key) && forall a :: a in actions ==> Brings(json, a)
    ensures AllFit(json, start, actions) && AlwaysValid(json, start, actions)
    ensures var s := Run(json, start, actions);
            var v := View(json, s);
            && (Accepted(json, s, DeleteKey(Some(k))) ==>
                  0 <= k < |v| && View(json, Do(json, s, DeleteKey(Some(k)))) == v[..k] + v[k + 1..])
            && (Accepted(json, s, DeleteDisabled) ==>
                  (View(json, Do(json, s, DeleteDisabled)) == NotAutoDisabled(v)
                   <==> exists i :: 0 <= i < |v| && v[i].status != AUTO_DISABLED))
  {
    TameRunsStaySound(json, start, actions);
    RunKeepsValid(json, start, actions);
    DeletionsWhenSound(json, Run(json, start, actions), k);
  }

  lemma DeletionsWhenSound(json: JsonArrays, s: Store, k: int)
    requires Valid(json, s) && Sound(json, s.key)
    ensures Accepted(json, s, DeleteKey(Some(k))) ==>
              View(json, Do(json, s, DeleteKey(Some(k)))) == View(json, s)[..k] + View(json, s)[k + 1..]
    ensures Accepted(json, s, DeleteDisabled) ==>
              (View(json, Do(json, s, DeleteDisabled)) == NotAutoDisabled(View(json, s))
               <==> exists i :: 0 <= i < |View(json, s)| && View(json, s)[i].status != AUTO_DISABLED)
  {
    if Accepted(json, s, DeleteKey(Some(k))) {
      RemainingTame(json, s, AllBut(k));
      DeleteKeyExact(json, s, k);
    }
    if Accepted(json, s, DeleteDisabled) {
      RemainingTame(json, s, NotAuto(s));
      DeleteDisabledExact(json, s);
      SomeRemain(json, s);
    }
  }

  lemma SomeRemain(json: JsonArrays, s: Store)
    ensures Remaining(json, s, NotAuto(s)) != []
       <==> exists i :: 0 <= i < |View(json, s)| && View(json, s)[i].status != AUTO_DISABLED
    ensures Remaining(json, s, NotAuto(s)) == [] ==> !ReadsBack(json, Remaining(json, s, NotAuto(s)))
  {
    var n := |GetKeys(json, s.key)|;
    KeptFacts(n, NotAuto(s));
    var at := Kept(n, NotAuto(s));
    assert forall i :: 0 <= i < n ==> (NotAuto(s)(i) <==> View(json, s)[i].status != AUTO_DISABLED);
    if at != [] {
      assert View(json, s)[at[0]].status != AUTO_DISABLED;
    } else {
      ReadBackIsText(json, []);
    }
  }

  // ---------------------------------------------------------------------------
  // A blank line among the keys

  lemma NewlineHead(b: string)
    requires Tame(b)
    ensures !Bracketed("\n" + b)
  {
    TrimHead(b);
    assert ("\n" + b)[1..] == b;
    TrimHead("\n" + b);
  }

  lemma TwoLines(json: JsonArrays, b: string)
    requires Tame(b)
    ensures Join(["", b], '\n') == "\n" + b && GetKeys(json, "\n" + b) == [b]
  {
    assert ["", b][1..] == [b];
    NewlineHead(b);
    TameHead(b, "");
    assert b[0] in b && b[|b| - 1] in b;
    TrimPadded("\n", b, "", IsNewline);
    assert "\n" + b + "" == "\n" + b;
    SplitJoin([b], '\n');
  }

  lemma ThreeLines(json: JsonArrays, a: string, b: string)
    requires Tame(a) && Tame(b)
    ensures GetKeys(json, Join([a, "", b], '\n')) == [a, "", b]
  {
    var keys := [a, "", b];
    var text := Join(keys, '\n');
    TameHead(b, "");
    TameHead(a, text[|a|..]);
    JoinFirst(keys);
    assert a + text[|a|..] == text;
    JoinReadsBack(json, keys);
  }

  /** Deleting the first of two keys with a blank line in between. */
  lemma FirstOfTwo(json: JsonArrays, s: Store, a: string, b: string)
    requires Tame(b) && GetKeys(json, s.key) == [a, "", b] && s.size == 3
    ensures Accepted(json, s, DeleteKey(Some(0))) && Kept(3, AllBut(0)) == [1, 2]
    ensures Remaining(json, s, AllBut(0)) == ["", b]
    ensures Now(s.key, Join(Remaining(json, s, AllBut(0)), '\n')) == "\n" + b
  {
    KeptAllBut(3, 0);
    assert Kept(3, AllBut(0)) == [1, 2];
    assert Remaining(json, s, AllBut(0)) == ["", b];
    TwoLines(json, b);
  }

  /** The deletion makes the second key take over the status of the blank line. */
  lemma BlankLineShifts(json: JsonArrays, a: string, b: string)
    requires Tame(a) && Tame(b)
    ensures var s := Store(Join([a, "", b], '\n'), 3, map[1 := MANUALLY_DISABLED], map[], map[]);
            && Valid(json, s) && Accepted(json, s, DeleteKey(Some(0)))
            && View(json, s) == [Plain(a), Row("", MANUALLY_DISABLED, 0, ""), Plain(b)]
            && View(json, Do(json, s, DeleteKey(Some(0)))) == [Row(b, MANUALLY_DISABLED, 0, "")]
  {
    var s := Store(Join([a, "", b], '\n'), 3, map[1 := MANUALLY_DISABLED], map[], map[]);
    ThreeLines(json, a, b);
    BlankLineRows(json, s, a, b);
    BlankLineDeleted(json, s, a, b);
  }

  predicate BlankLineDisabled(json: JsonArrays, s: Store, a: string, b: string) {
    && GetKeys(json, s.key) == [a, "", b] && s.size == 3
    && s.status == map[1 := MANUALLY_DISABLED] && s.times == map[] && s.reasons == map[]
  }

  lemma BlankLineRows(json: JsonArrays, s: Store, a: string, b: string)
    requires BlankLineDisabled(json, s, a, b)
    ensures Valid(json, s) && View(json, s) == [Plain(a), Row("", MANUALLY_DISABLED, 0, ""), Plain(b)]
  {
    assert StatusAt(s, 0) == ENABLED && StatusAt(s, 1) == MANUALLY_DISABLED && StatusAt(s, 2) == ENABLED;
  }

  lemma BlankLineDeleted(json: JsonArrays, s: Store, a: string, b: string)
    requires Tame(b) && BlankLineDisabled(json, s, a, b)
    ensures Accepted(json, s, DeleteKey(Some(0)))
    ensures View(json, Do(json, s, DeleteKey(Some(0)))) == [Row(b, MANUALLY_DISABLED, 0, "")]
  {
    FirstOfTwo(json, s, a, b);
    TwoLines(json, b);
    StatusMoves(json, s, b);
  }

  lemma StatusMoves(json: JsonArrays, s: Store, b: string)
    requires s.status == map[1 := MANUALLY_DISABLED] && s.times == map[] && s.reasons == map[]
    requires |GetKeys(json, s.key)| == 3 && Kept(3, AllBut(0)) == [1, 2]
    requires Join(Remaining(json, s, AllBut(0)), '\n') == "\n" + b && GetKeys(json, "\n" + b) == [b]
    ensures var n := Saved(json, Shrunk(json, s, AllBut(0), s.times, s.reasons), s.key);
            View(json, n) == [Row(b, MANUALLY_DISABLED, 0, "")]
  {
    var t := Shrunk(json, s, AllBut(0), s.times, s.reasons);
    ReindexedGet(OfDisabled(s.status, s), [1, 2], 0, ENABLED);
    assert StatusAt(t, 0) == MANUALLY_DISABLED;
    CountedSame(json, "\n" + b);
    assert StatusAt(Saved(json, t, s.key), 0) == MANUALLY_DISABLED;
  }

  /** And a time that was recorded for the second key is left beyond the only key there is. */
  lemma TimeIsLeftBehind(json: JsonArrays, a: string, b: string, time: int)
    requires Tame(a) && Tame(b)
    ensures var s := Store(Join([a, "", b], '\n'), 3, map[2 := AUTO_DISABLED], map[2 := time], map[]);
            && Valid(json, s) && Accepted(json, s, DeleteKey(Some(0)))
            && !Fits(json, s, DeleteKey(Some(0))) && !Valid(json, Do(json, s, DeleteKey(Some(0))))
  {
    var s := Store(Join([a, "", b], '\n'), 3, map[2 := AUTO_DISABLED], map[2 := time], map[]);
    ThreeLines(json, a, b);
    FirstOfTwo(json, s, a, b);
    TwoLines(json, b);
    TimeBeyond(s.times, [1, 2], 1);
    ActionKeepsValidExactly(json, s, DeleteKey(Some(0)));
  }

  /** For instance with the keys `a` and `b`. */
  lemma LettersAreTame()
    ensures Tame("a") && Tame("b") && Join(["a", "", "b"], '\n') == "a\n\nb"
  {
    TrimPadded("", "a", "", GoSpace);
    TrimPadded("", "b", "", GoSpace);
    assert "" + "a" + "" == "a" && "" + "b" + "" == "b";
    assert ["a", "", "b"][1..] == ["", "b"] && ["", "b"][1..] == ["b"];
  }
}
