/** Channels that hold several keys (controller/channel.go, lines 958-1034 and 1464-1885; model/channel.go,
    lines 176-198, 525-573 and 640-690). The keys are one stored text, and three side maps are keyed by position. */
module MultiKey {
  import opened Text
  import ModelNames

  /** Decodes a JSON array into its elements as raw text. */
  type JsonArrays = string -> Option<seq<string>>

  const ENABLED := 1
  const MANUALLY_DISABLED := 2
  const AUTO_DISABLED := 3

  // ---------------------------------------------------------------------------
  // Reading keys out of the stored text

  predicate IsNewline(c: char) { c == '\n' }

  function Lines(text: string): seq<string> { Split(Trim(text, IsNewline), '\n') }

  predicate Bracketed(text: string) { "[" <= Trim(text, GoSpace) }

  function Decoded(json: JsonArrays, text: string): Option<seq<string>> {
    if Bracketed(text) then json(Trim(text, GoSpace)) else None
  }

  /** `GetKeys` */
  function GetKeys(json: JsonArrays, text: string): seq<string> {
    if text == "" then []
    else if Decoded(json, text).Some? then Decoded(json, text).value
    else Lines(text)
  }

  /** How many keys `Update` counts; it reads an empty array as one line. */
  function Counted(json: JsonArrays, text: string): nat {
    if text == "" then 0
    else if Decoded(json, text).Some? && Decoded(json, text).value != [] then |Decoded(json, text).value|
    else |Lines(text)|
  }

  /** A text that starts with `[`, spaces aside, and decodes to an array gives the elements of the array; any other
      gives its lines, newlines at the ends aside. An append reads the stored text the same way, but for a text
      that starts with `[` and does not decode. */
  lemma KeysExactly(json: JsonArrays, text: string)
    requires text != ""
    ensures var t := Trim(text, GoSpace);
            var decoded := if t != "" && t[0] == '[' then json(t) else None;
            && GetKeys(json, text) == (if decoded.Some? then decoded.value else Split(Trim(text, IsNewline), '\n'))
            && (decoded.Some? ==> Existing(json, text) == GetKeys(json, text))
            && (t == "" || t[0] != '[' ==> Existing(json, text) == GetKeys(json, text))
            && (t != "" && t[0] == '[' && decoded.None? ==> Existing(json, text) == [])
  {
  }

  // ---------------------------------------------------------------------------
  // What is stored and what is shown

  datatype Store = Store(key: string, size: nat, status: map<int, int>, times: map<int, int>, reasons: map<int, string>)

  datatype Row = Row(key: string, status: int, time: int, reason: string)

  function Get<V>(m: map<int, V>, i: int, default: V): V { if i in m then m[i] else default }

  function StatusAt(s: Store, i: int): int { Get(s.status, i, ENABLED) }

  function RowAt(key: string, s: Store, i: int): Row {
    if StatusAt(s, i) == ENABLED then Row(key, ENABLED, 0, "")
    else Row(key, StatusAt(s, i), Get(s.times, i, 0), Get(s.reasons, i, ""))
  }

  function Rows(keys: seq<string>, s: Store): seq<Row> {
    seq(|keys|, i requires 0 <= i < |keys| => RowAt(keys[i], s, i))
  }

  /** The rows of `get_key_status`. */
  function View(json: JsonArrays, s: Store): seq<Row> { Rows(GetKeys(json, s.key), s) }

  predicate InRange<V>(m: map<int, V>, n: int) { forall i :: i in m ==> 0 <= i < n }

  predicate Valid(json: JsonArrays, s: Store) {
    && s.size == |GetKeys(json, s.key)|
    && InRange(s.status, s.size) && InRange(s.times, s.size) && InRange(s.reasons, s.size)
  }

  // ---------------------------------------------------------------------------
  // The actions, on what is stored

  function Below<V>(m: map<int, V>, n: int): map<int, V> { map i | i in m && i < n :: m[i] }

  /** `Update`: an empty key leaves the stored one in place. */
  function Saved(json: JsonArrays, s: Store, stored: string): Store {
    var text := if s.key != "" then s.key else stored;
    var n := Counted(json, text);
    s.(key := text, size := n, status := Below(s.status, n))
  }

  /** The positions below `n` that are kept, in order. */
  function Kept(n: nat, keep: int -> bool): seq<int> {
    if n == 0 then [] else if keep(n - 1) then Kept(n - 1, keep) + [n - 1] else Kept(n - 1, keep)
  }

  function Pick<T>(s: seq<T>, at: seq<int>, default: T): seq<T> {
    seq(|at|, j requires 0 <= j < |at| => if 0 <= at[j] < |s| then s[at[j]] else default)
  }

  function Reindexed<V>(m: map<int, V>, at: seq<int>): map<int, V> {
    map j | 0 <= j < |at| && at[j] in m :: m[at[j]]
  }

  /** The entries of keys that are not enabled. */
  function OfDisabled<V>(m: map<int, V>, s: Store): map<int, V> { map i | i in m && StatusAt(s, i) != ENABLED :: m[i] }

  function AllBut(k: int): int -> bool { i => i != k }

  function NotAuto(s: Store): int -> bool { i => StatusAt(s, i) != AUTO_DISABLED }

  function Remaining(json: JsonArrays, s: Store, keep: int -> bool): seq<string> {
    var keys := GetKeys(json, s.key);
    Pick(keys, Kept(|keys|, keep), "")
  }

  /** The store that a deletion hands to `Update`; `times` and `reasons` are the entries it carries over. */
  function Shrunk(
    json: JsonArrays, s: Store, keep: int -> bool, times: map<int, int>, reasons: map<int, string>): Store
  {
    var keys := GetKeys(json, s.key);
    var at := Kept(|keys|, keep);
    Store(Join(Pick(keys, at, ""), '\n'), |at|,
          Reindexed(OfDisabled(s.status, s), at), Reindexed(times, at), Reindexed(reasons, at))
  }

  function DisabledAll(s: Store): map<int, int> {
    s.status + map i | 0 <= i < s.size && StatusAt(s, i) == ENABLED :: MANUALLY_DISABLED
  }

  /** The keys an append starts from; a text in brackets that does not decode counts as none. */
  function Existing(json: JsonArrays, text: string): seq<string> {
    if Bracketed(text) then if Decoded(json, text).Some? then Decoded(json, text).value else [] else Lines(text)
  }

  /** The new keys, trimmed, that are neither blank nor there already. */
  function Added(existing: seq<string>, newKeys: seq<string>): seq<string> { ModelNames.Subtract(newKeys, existing) }

  function FirstIndex(keys: seq<string>, key: string): nat {
    if keys == [] || keys[0] == key then 0 else 1 + FirstIndex(keys[1..], key)
  }

  /** What can happen to a channel. `Append` carries the text of the request and the keys it supplies;
      `Mark` is the relay reporting on the key it used. */
  datatype Action =
    | DisableKey(index: Option<int>)
    | EnableKey(index: Option<int>)
    | EnableAll
    | DisableAll
    | DeleteKey(index: Option<int>)
    | DeleteDisabled
    | Append(text: string, newKeys: seq<string>)
    | Mark(key: string, status: int, reason: string, now: int)

  predicate Accepted(json: JsonArrays, s: Store, a: Action) {
    match a
    case DisableKey(i) => i.Some? && 0 <= i.value < s.size
    case EnableKey(i) => i.Some? && 0 <= i.value < s.size
    case DisableAll => exists i :: 0 <= i < s.size && StatusAt(s, i) == ENABLED
    case DeleteKey(i) => i.Some? && 0 <= i.value < s.size && Remaining(json, s, AllBut(i.value)) != []
    case DeleteDisabled => |Remaining(json, s, NotAuto(s))| < |GetKeys(json, s.key)|
    case Mark(key, _, _, _) => key in GetKeys(json, s.key)
    case _ => true
  }

  function Marked(s: Store, i: int, status: int, reason: string, now: int): Store {
    if status == ENABLED then s.(status := s.status - {i})
    else s.(status := s.status[i := status], times := s.times[i := now], reasons := s.reasons[i := reason])
  }

  predicate KeepsKeys(a: Action) { !a.DeleteKey? && !a.DeleteDisabled? && !a.Append? }

  /** What an action on the side maps makes of them. */
  function Edited(keys: seq<string>, s: Store, a: Action): Store
    requires KeepsKeys(a)
  {
    match a
    case DisableKey(i) => if i.Some? then s.(status := s.status[i.value := MANUALLY_DISABLED]) else s
    case EnableKey(i) =>
      if i.Some? then
        s.(status := s.status - {i.value}, times := s.times - {i.value}, reasons := s.reasons - {i.value})
      else s
    case EnableAll => s.(status := map[], times := map[], reasons := map[])
    case DisableAll => s.(status := DisabledAll(s))
    case Mark(key, status, reason, now) => Marked(s, FirstIndex(keys, key), status, reason, now)
  }

  function Do(json: JsonArrays, s: Store, a: Action): Store
    requires Accepted(json, s, a)
  {
    match a
    case DeleteKey(i) => Saved(json, Shrunk(json, s, AllBut(i.value), s.times, s.reasons), s.key)
    case DeleteDisabled =>
      Saved(json, Shrunk(json, s, NotAuto(s), OfDisabled(s.times, s), OfDisabled(s.reasons, s)), s.key)
    case Append(text, newKeys) => Saved(json, s.(key := Appended(json, s.key, text, newKeys)), s.key)
    case Mark(_, _, _, _) => Edited(GetKeys(json, s.key), s, a)
    case _ => Saved(json, Edited(GetKeys(json, s.key), s, a), s.key)
  }

  function Appended(json: JsonArrays, stored: string, text: string, newKeys: seq<string>): string {
    if stored == "" then text
    else
      var existing := Existing(json, stored);
      Join(existing + Added(existing, newKeys), '\n')
  }

  // ---------------------------------------------------------------------------
  // When a joined list of keys reads back

  /** Each key sits on a line of its own, or the text happens to decode to the same keys. */
  predicate ReadsBack(json: JsonArrays, keys: seq<string>) {
    var text := Join(keys, '\n');
    if Decoded(json, text).Some? then Decoded(json, text).value == keys
    else keys != [] && keys[0] != "" && keys[|keys| - 1] != "" && forall k :: k in keys ==> '\n' !in k
  }

  lemma TrimNothing(t: string)
    requires t != "" && t[0] != '\n' && t[|t| - 1] != '\n'
    ensures Trim(t, IsNewline) == t
  {
    TrimPadded("", t, "", IsNewline);
    assert "" + t + "" == t;
  }

  lemma {:induction false} JoinLast(keys: seq<string>)
    requires keys != [] && keys[|keys| - 1] != ""
    ensures var t := Join(keys, '\n'); t != "" && t[|t| - 1] == keys[|keys| - 1][|keys[|keys| - 1]| - 1]
  {
    if |keys| > 1 { JoinLast(keys[1..]); }
  }

  lemma JoinFirst(keys: seq<string>)
    requires keys != [] && keys[0] != ""
    ensures keys[0] <= Join(keys, '\n') && Join(keys, '\n')[0] == keys[0][0]
  {
  }

  /** The first and last lines of a text trimmed of newlines. */
  lemma LinesEnds(text: string)
    ensures var l := Lines(text); |l| >= 1 && ((l[0] != "" && l[|l| - 1] != "") || l == [""])
  {
    var t := Trim(text, IsNewline);
    TrimLeftEnds(text, IsNewline);
    TrimRightEnds(TrimLeft(text, IsNewline), IsNewline);
    if t != "" { SplitEnds(t); }
  }

  lemma {:induction false} SplitEnds(t: string)
    requires t != "" && t[|t| - 1] != '\n'
    ensures var l := Split(t, '\n'); (t[0] != '\n' ==> l[0] != "") && l[|l| - 1] != ""
  {
    if |t| > 1 { SplitEnds(t[1..]); }
  }

  /** A joined list of keys reads back exactly when each key sits on its own line. */
  lemma JoinReadsBack(json: JsonArrays, keys: seq<string>)
    requires Join(keys, '\n') != ""
    ensures GetKeys(json, Join(keys, '\n')) == keys <==> ReadsBack(json, keys)
  {
    var text := Join(keys, '\n');
    if Decoded(json, text).None? {
      if ReadsBack(json, keys) {
        JoinFirst(keys);
        JoinLast(keys);
        assert keys[0][0] in keys[0];
        var last := keys[|keys| - 1];
        assert last in keys && last[|last| - 1] in last;
        TrimNothing(text);
        SplitJoin(keys, '\n');
      } else if GetKeys(json, text) == keys {
        LinesEnds(text);
      }
    }
  }

  // ---------------------------------------------------------------------------
  // Deleting keys

  const NO_ROW := Row("", 0, 0, "")

  lemma {:induction false} KeptFacts(n: nat, keep: int -> bool)
    ensures var at := Kept(n, keep);
            && |at| <= n
            && (forall j :: 0 <= j < |at| ==> 0 <= at[j] < n && keep(at[j]))
            && (forall i :: 0 <= i < n && keep(i) ==> i in at)
            && (forall i, j :: 0 <= i < j < |at| ==> at[i] < at[j])
            && ((exists i :: 0 <= i < n && !keep(i)) ==> |at| < n)
  {
    if n > 0 { KeptFacts(n - 1, keep); }
  }

  lemma ReindexedGet<V>(m: map<int, V>, at: seq<int>, j: int, default: V)
    requires 0 <= j < |at|
    ensures Get(Reindexed(m, at), j, default) == Get(m, at[j], default)
  {
  }

  ghost predicate SameAt<V>(a: map<int, V>, b: map<int, V>, i: int) {
    (i in a <==> i in b) && (i in a ==> a[i] == b[i])
  }

  ghost predicate SameWhereDisabled<V>(s: Store, a: map<int, V>, b: map<int, V>) {
    forall i :: StatusAt(s, i) != ENABLED ==> SameAt(a, b, i)
  }

  lemma ShrunkRow(
    s: Store, n: Store, at: seq<int>, times: map<int, int>, reasons: map<int, string>, key: string, j: int)
    requires 0 <= j < |at|
    requires n.status == Reindexed(OfDisabled(s.status, s), at)
    requires n.times == Reindexed(times, at) && n.reasons == Reindexed(reasons, at)
    requires StatusAt(s, at[j]) != ENABLED ==> SameAt(times, s.times, at[j]) && SameAt(reasons, s.reasons, at[j])
    ensures RowAt(key, n, j) == RowAt(key, s, at[j])
  {
    ReindexedGet(OfDisabled(s.status, s), at, j, ENABLED);
    ReindexedGet(times, at, j, 0);
    ReindexedGet(reasons, at, j, "");
    assert Get(OfDisabled(s.status, s), at[j], ENABLED) == StatusAt(s, at[j]);
  }

  lemma ShrunkRows(json: JsonArrays, s: Store, keep: int -> bool, times: map<int, int>, reasons: map<int, string>)
    requires SameWhereDisabled(s, times, s.times) && SameWhereDisabled(s, reasons, s.reasons)
    ensures Rows(Remaining(json, s, keep), Shrunk(json, s, keep, times, reasons))
         == Pick(View(json, s), Kept(|GetKeys(json, s.key)|, keep), NO_ROW)
  {
    var keys := GetKeys(json, s.key);
    KeptFacts(|keys|, keep);
    PickedRows(keys, s, Shrunk(json, s, keep, times, reasons), Kept(|keys|, keep), times, reasons);
  }

  lemma PickedRows(keys: seq<string>, s: Store, n: Store, at: seq<int>, times: map<int, int>, reasons: map<int, string>)
    requires forall j :: 0 <= j < |at| ==> 0 <= at[j] < |keys|
    requires n.status == Reindexed(OfDisabled(s.status, s), at)
    requires n.times == Reindexed(times, at) && n.reasons == Reindexed(reasons, at)
    requires SameWhereDisabled(s, times, s.times) && SameWhereDisabled(s, reasons, s.reasons)
    ensures Rows(Pick(keys, at, ""), n) == Pick(Rows(keys, s), at, NO_ROW)
  {
    forall j | 0 <= j < |at| ensures Rows(Pick(keys, at, ""), n)[j] == Pick(Rows(keys, s), at, NO_ROW)[j] {
      ShrunkRow(s, n, at, times, reasons, keys[at[j]], j);
    }
  }

  lemma ReindexedInRange<V>(m: map<int, V>, at: seq<int>)
    ensures InRange(Reindexed(m, at), |at|)
  {
  }

  lemma BelowSame<V>(m: map<int, V>, n: int)
    requires InRange(m, n)
    ensures Below(m, n) == m
  {
  }

  /** `Update` counts as many keys as there are: all but a text that decodes to an empty array. */
  predicate Countable(json: JsonArrays, text: string) { text == "" || GetKeys(json, text) != [] }

  /** The text that is stored after writing `text` over `stored`. */
  function Now(stored: string, text: string): string { if text != "" then text else stored }

  /** Nothing is recorded at the kept positions from the `n`-th on. */
  predicate NothingBeyond<V>(m: map<int, V>, at: seq<int>, n: nat) {
    forall j :: n <= j < |at| ==> at[j] !in m
  }

  /** The keys that the shrunken text reads as are counted right, and what no longer has a key among
      them carries no time and no reason. */
  predicate FitsShrunk(json: JsonArrays, s: Store, keep: int -> bool, times: map<int, int>, reasons: map<int, string>) {
    var now, at := Now(s.key, Join(Remaining(json, s, keep), '\n')), Kept(|GetKeys(json, s.key)|, keep);
    var n := |GetKeys(json, now)|;
    Countable(json, now) && NothingBeyond(times, at, n) && NothingBeyond(reasons, at, n)
  }

  /** The same for a text that was appended to. */
  predicate FitsAppended(json: JsonArrays, s: Store, text: string, newKeys: seq<string>) {
    FitsText(json, Now(s.key, Appended(json, s.key, text, newKeys)), s)
  }

  predicate FitsText(json: JsonArrays, now: string, s: Store) {
    var n := |GetKeys(json, now)|;
    Countable(json, now) && InRange(s.times, n) && InRange(s.reasons, n)
  }

  lemma ReindexedInRangeExactly<V>(m: map<int, V>, at: seq<int>, n: nat)
    ensures InRange(Reindexed(m, at), n) <==> NothingBeyond(m, at, n)
  {
    forall j | 0 <= j < |at| ensures j in Reindexed(m, at) <==> at[j] in m {}
  }

  predicate NonNegative<V>(m: map<int, V>) { forall i :: i in m ==> 0 <= i }

  /** `Update` cuts the statuses to the new size, and neither the times nor the reasons. */
  lemma SavedValidExactly(json: JsonArrays, t: Store, stored: string)
    requires NonNegative(t.status)
    ensures var now := Now(stored, t.key);
            Valid(json, Saved(json, t, stored))
            <==>
            Countable(json, now) && InRange(t.times, |GetKeys(json, now)|) && InRange(t.reasons, |GetKeys(json, now)|)
  {
    CountedSame(json, Now(stored, t.key));
  }

  lemma ShrunkValidExactly(
    json: JsonArrays, s: Store, keep: int -> bool, times: map<int, int>, reasons: map<int, string>)
    ensures Valid(json, Saved(json, Shrunk(json, s, keep, times, reasons), s.key))
       <==> FitsShrunk(json, s, keep, times, reasons)
  {
    var t, at := Shrunk(json, s, keep, times, reasons), Kept(|GetKeys(json, s.key)|, keep);
    var n := |GetKeys(json, Now(s.key, t.key))|;
    ReindexedInRange(OfDisabled(s.status, s), at);
    SavedValidExactly(json, t, s.key);
    ReindexedInRangeExactly(times, at, n);
    ReindexedInRangeExactly(reasons, at, n);
  }

  lemma WrittenValidExactly(json: JsonArrays, s: Store, text: string)
    requires Valid(json, s)
    ensures Valid(json, Saved(json, s.(key := text), s.key)) <==> FitsText(json, Now(s.key, text), s)
  {
    SavedValidExactly(json, s.(key := text), s.key);
  }

  lemma AppendedValidExactly(json: JsonArrays, s: Store, text: string, newKeys: seq<string>)
    requires Valid(json, s)
    ensures Valid(json, Do(json, s, Append(text, newKeys))) <==> FitsAppended(json, s, text, newKeys)
  {
    WrittenValidExactly(json, s, Appended(json, s.key, text, newKeys));
  }

  /** `Update` counts the keys that are there, but for a text that decodes to an empty array. */
  lemma CountedSame(json: JsonArrays, text: string)
    ensures Counted(json, text) == |GetKeys(json, text)| <==> Countable(json, text)
  {
  }

  lemma RowsDetermineKeys(a: seq<string>, s: Store, b: seq<string>, t: Store)
    requires Rows(a, s) == Rows(b, t)
    ensures a == b
  {
    assert |Rows(a, s)| == |a| && |Rows(b, t)| == |b|;
    forall i | 0 <= i < |a| ensures a[i] == b[i] {
      assert Rows(a, s)[i].key == a[i] && Rows(b, t)[i].key == b[i];
    }
  }

  lemma ReadBackIsText(json: JsonArrays, keys: seq<string>)
    ensures ReadsBack(json, keys) ==> Join(keys, '\n') != ""
  {
    if Decoded(json, Join(keys, '\n')).None? && ReadsBack(json, keys) { JoinFirst(keys); }
  }

  /** A deletion removes exactly its rows, renumbering the others in order, if and only if the remaining
      keys read back. It leaves sizes and indices in agreement then, and exactly when they fit. */
  lemma DeletionExact(json: JsonArrays, s: Store, keep: int -> bool, times: map<int, int>, reasons: map<int, string>)
    requires SameWhereDisabled(s, times, s.times) && SameWhereDisabled(s, reasons, s.reasons)
    requires |Remaining(json, s, keep)| < |GetKeys(json, s.key)|
    ensures var n := Saved(json, Shrunk(json, s, keep, times, reasons), s.key);
            && (View(json, n) == Pick(View(json, s), Kept(|GetKeys(json, s.key)|, keep), NO_ROW)
                <==> ReadsBack(json, Remaining(json, s, keep)))
            && (ReadsBack(json, Remaining(json, s, keep)) ==> Valid(json, n))
            && (Valid(json, n) <==> FitsShrunk(json, s, keep, times, reasons))
  {
    ShrunkValidExactly(json, s, keep, times, reasons);
    var left, t := Remaining(json, s, keep), Shrunk(json, s, keep, times, reasons);
    var n, at := Saved(json, t, s.key), Kept(|GetKeys(json, s.key)|, keep);
    ShrunkRows(json, s, keep, times, reasons);
    if Join(left, '\n') == "" {
      ReadBackIsText(json, left);
    } else {
      JoinReadsBack(json, left);
      if ReadsBack(json, left) {
        CountedSame(json, t.key);
        ReindexedInRange(OfDisabled(s.status, s), at);
        ReindexedInRange(times, at);
        ReindexedInRange(reasons, at);
        BelowSame(t.status, |at|);
        assert n == t;
      } else if View(json, n) == Rows(left, t) {
        RowsDetermineKeys(GetKeys(json, n.key), n, left, t);
      }
    }
  }

  lemma {:induction false} KeptAllBut(n: nat, k: int)
    requires 0 <= k < n
    ensures var at := Kept(n, AllBut(k));
            |at| == n - 1 && forall j :: 0 <= j < n - 1 ==> at[j] == if j < k then j else j + 1
  {
    if k < n - 1 {
      KeptAllBut(n - 1, k);
    } else {
      KeptPrefix(n - 1, k);
    }
  }

  lemma {:induction false} KeptPrefix(n: nat, k: int)
    requires n <= k
    ensures var at := Kept(n, AllBut(k)); |at| == n && forall j :: 0 <= j < n ==> at[j] == j
  {
    if n > 0 { KeptPrefix(n - 1, k); }
  }

  /** `delete_key` removes row `k` and nothing else, if and only if the remaining keys read back. */
  lemma DeleteKeyExact(json: JsonArrays, s: Store, k: int)
    requires Valid(json, s) && Accepted(json, s, DeleteKey(Some(k)))
    ensures var n := Do(json, s, DeleteKey(Some(k)));
            && (View(json, n) == View(json, s)[..k] + View(json, s)[k + 1..]
                <==> ReadsBack(json, Remaining(json, s, AllBut(k))))
            && (ReadsBack(json, Remaining(json, s, AllBut(k))) ==> Valid(json, n))
            && (Valid(json, n) <==> FitsShrunk(json, s, AllBut(k), s.times, s.reasons))
  {
    var v := View(json, s);
    KeptAllBut(|v|, k);
    assert Pick(v, Kept(|v|, AllBut(k)), NO_ROW) == v[..k] + v[k + 1..];
    DeletionExact(json, s, AllBut(k), s.times, s.reasons);
  }

  /** The rows that `delete_disabled_keys` is to leave. */
  function NotAutoDisabled(rows: seq<Row>): seq<Row> {
    if rows == [] then []
    else
      var init, last := rows[..|rows| - 1], rows[|rows| - 1];
      if last.status == AUTO_DISABLED then NotAutoDisabled(init) else NotAutoDisabled(init) + [last]
  }

  lemma {:induction false} PickNotAuto(rows: seq<Row>, s: Store, n: nat)
    requires n <= |rows| && forall i :: 0 <= i < n ==> rows[i].status == StatusAt(s, i)
    ensures Pick(rows, Kept(n, NotAuto(s)), NO_ROW) == NotAutoDisabled(rows[..n])
  {
    if n > 0 {
      PickNotAuto(rows, s, n - 1);
      assert rows[..n][..n - 1] == rows[..n - 1];
      var at := Kept(n - 1, NotAuto(s));
      assert Pick(rows, at + [n - 1], NO_ROW) == Pick(rows, at, NO_ROW) + [rows[n - 1]];
    }
  }

  /** `delete_disabled_keys` removes the rows of status 3 and nothing else, if and only if the remaining
      keys read back. */
  lemma DeleteDisabledExact(json: JsonArrays, s: Store)
    requires Accepted(json, s, DeleteDisabled)
    ensures var n := Do(json, s, DeleteDisabled);
            && (View(json, n) == NotAutoDisabled(View(json, s)) <==> ReadsBack(json, Remaining(json, s, NotAuto(s))))
            && (ReadsBack(json, Remaining(json, s, NotAuto(s))) ==> Valid(json, n))
            && (Valid(json, n) <==> FitsShrunk(json, s, NotAuto(s), OfDisabled(s.times, s), OfDisabled(s.reasons, s)))
  {
    var v := View(json, s);
    PickNotAuto(v, s, |v|);
    assert v[..|v|] == v;
    DeletionExact(json, s, NotAuto(s), OfDisabled(s.times, s), OfDisabled(s.reasons, s));
  }

  lemma {:induction false} KeptNone(n: nat, keep: int -> bool)
    requires forall i :: 0 <= i < n ==> !keep(i)
    ensures Kept(n, keep) == []
  {
    if n > 0 { KeptNone(n - 1, keep); }
  }

  /** When every key is disabled automatically, the deletion is reported as done, but the stored keys
      stay and all of them are enabled again. */
  lemma AllAutoDisabledComeBack(json: JsonArrays, s: Store)
    requires GetKeys(json, s.key) != []
    requires forall i :: 0 <= i < |GetKeys(json, s.key)| ==> StatusAt(s, i) == AUTO_DISABLED
    ensures Accepted(json, s, DeleteDisabled) && !ReadsBack(json, Remaining(json, s, NotAuto(s)))
    ensures var n := Do(json, s, DeleteDisabled);
            && n.key == s.key && n.status == map[]
            && forall i :: 0 <= i < |View(json, n)| ==> View(json, n)[i].status == ENABLED
  {
    KeptNone(|GetKeys(json, s.key)|, NotAuto(s));
    assert Remaining(json, s, NotAuto(s)) == [];
  }

  // ---------------------------------------------------------------------------
  // Appending keys

  function NewRows(keys: seq<string>): seq<Row> {
    seq(|keys|, i requires 0 <= i < |keys| => Row(keys[i], ENABLED, 0, ""))
  }

  lemma LongerRows(keys: seq<string>, more: seq<string>, s: Store)
    requires InRange(s.status, |keys|)
    ensures Rows(keys + more, s) == Rows(keys, s) + NewRows(more)
  {
  }

  /** An append keeps every row and adds the new keys, enabled, if and only if the longer list reads back
      or there was nothing to write. */
  lemma AppendExact(json: JsonArrays, s: Store, text: string, newKeys: seq<string>)
    requires Valid(json, s) && s.key != "" && Existing(json, s.key) == GetKeys(json, s.key)
    ensures var n, keys := Do(json, s, Append(text, newKeys)), GetKeys(json, s.key);
            var more := Added(keys, newKeys);
            && (View(json, n) == View(json, s) + NewRows(more)
                <==> ReadsBack(json, keys + more) || Join(keys + more, '\n') == "")
            && (ReadsBack(json, keys + more) ==> Valid(json, n))
            && (Valid(json, n) <==> FitsAppended(json, s, text, newKeys))
  {
    AppendedValidExactly(json, s, text, newKeys);
    var keys := GetKeys(json, s.key);
    var more := Added(keys, newKeys);
    LongerRows(keys, more, s);
    if Join(keys + more, '\n') == "" {
      NothingToWrite(keys, newKeys);
      ReadBackIsText(json, keys + more);
      SameText(json, s);
      assert NewRows(more) == [] && View(json, s) + NewRows(more) == View(json, s);
    } else {
      LongerText(json, s, keys + more);
    }
  }

  /** Writing nothing keeps every row. */
  lemma SameText(json: JsonArrays, s: Store)
    requires Valid(json, s)
    ensures View(json, Saved(json, s.(key := ""), s.key)) == View(json, s)
  {
    var keys, n := GetKeys(json, s.key), Saved(json, s.(key := ""), s.key);
    assert keys != [] ==> Counted(json, s.key) == |keys|;
    assert forall i :: 0 <= i < |keys| ==> StatusAt(n, i) == StatusAt(s, i);
  }

  lemma LongerTextKeeps(json: JsonArrays, s: Store, all: seq<string>, n: Store)
    requires Valid(json, s) && |all| >= s.size && n.key != "" && GetKeys(json, n.key) == all && all != []
    requires n == Saved(json, s.(key := n.key), s.key)
    ensures View(json, n) == Rows(all, s) && Valid(json, n)
  {
    CountedSame(json, n.key);
    BelowSame(s.status, |all|);
    assert Rows(all, n) == Rows(all, s);
  }

  /** Writing more keys shows them all exactly when they read back. */
  lemma LongerText(json: JsonArrays, s: Store, all: seq<string>)
    requires Valid(json, s) && Join(all, '\n') != "" && |all| >= s.size
    ensures var n := Saved(json, s.(key := Join(all, '\n')), s.key);
            && (View(json, n) == Rows(all, s) <==> ReadsBack(json, all))
            && (ReadsBack(json, all) ==> Valid(json, n))
  {
    var n := Saved(json, s.(key := Join(all, '\n')), s.key);
    JoinReadsBack(json, all);
    if GetKeys(json, n.key) == all {
      LongerTextKeeps(json, s, all, n);
    } else if View(json, n) == Rows(all, s) {
      RowsDetermineKeys(GetKeys(json, n.key), n, all, s);
    }
  }

  /** Whatever is written, it shows the old rows and those of `more` keys, enabled, if and only if it reads as
      the old keys and then those. */
  lemma WrittenRowsExactly(json: JsonArrays, s: Store, text: string, more: seq<string>)
    requires Valid(json, s)
    ensures var keys := GetKeys(json, s.key);
            View(json, Saved(json, s.(key := text), s.key)) == View(json, s) + NewRows(more)
            <==> GetKeys(json, Now(s.key, text)) == keys + more
  {
    var all, n := GetKeys(json, s.key) + more, Saved(json, s.(key := text), s.key);
    LongerRows(GetKeys(json, s.key), more, s);
    if View(json, n) == Rows(all, s) {
      RowsDetermineKeys(GetKeys(json, n.key), n, all, s);
    } else if GetKeys(json, n.key) == all {
      ReadRowsAre(json, s, n, all);
    }
  }

  lemma ReadRowsAre(json: JsonArrays, s: Store, n: Store, all: seq<string>)
    requires Valid(json, s) && |all| >= s.size && GetKeys(json, n.key) == all
    requires n.status == Below(s.status, Counted(json, n.key)) && n.times == s.times && n.reasons == s.reasons
    ensures View(json, n) == Rows(all, s)
  {
    assert Counted(json, n.key) >= |all|;
    BelowSame(s.status, Counted(json, n.key));
  }

  /** An append keeps every row and adds the new keys, enabled, if and only if the text it writes reads as the old
      keys and then the new ones, whatever the stored text was. */
  lemma AppendRowsExactly(json: JsonArrays, s: Store, text: string, newKeys: seq<string>)
    requires Valid(json, s)
    ensures var keys := GetKeys(json, s.key);
            var more := Added(keys, newKeys);
            View(json, Do(json, s, Append(text, newKeys))) == View(json, s) + NewRows(more)
            <==> GetKeys(json, Now(s.key, Appended(json, s.key, text, newKeys))) == keys + more
  {
    WrittenRowsExactly(json, s, Appended(json, s.key, text, newKeys), Added(GetKeys(json, s.key), newKeys));
  }

  lemma NothingToWrite(keys: seq<string>, newKeys: seq<string>)
    ensures Added(keys, newKeys) != [] ==> Join(keys + Added(keys, newKeys), '\n') != ""
  {
    ModelNames.SubtractFacts(newKeys, keys);
    var more := Added(keys, newKeys);
    if more != [] {
      var all := keys + more;
      assert all[|all| - 1] == more[|more| - 1] && more[|more| - 1] in more;
      JoinLast(all);
    }
  }

  lemma AddedToNothing(newKeys: seq<string>)
    ensures Added([], newKeys) == ModelNames.Normalize(newKeys)
    ensures Added([], newKeys) != [] ==> Join(Added([], newKeys), '\n') != ""
  {
    ModelNames.FilterAll(ModelNames.Normalize(newKeys), ModelNames.Outside(ModelNames.Normalize([])));
    ModelNames.NormalizeFacts(newKeys);
    var more := Added([], newKeys);
    if more != [] {
      assert more[0] in more;
      JoinFirst(more);
    }
  }

  /** A stored text in brackets that does not decode is lost: an append leaves the new keys only. */
  lemma UndecodableAppendForgets(json: JsonArrays, stored: string, text: string, newKeys: seq<string>)
    requires stored != "" && Bracketed(stored) && Decoded(json, stored) == None
    ensures Existing(json, stored) != GetKeys(json, stored)
    ensures Appended(json, stored, text, newKeys) == Join(ModelNames.Normalize(newKeys), '\n')
  {
    assert Existing(json, stored) == [];
    assert GetKeys(json, stored) == Lines(stored);
    AddedToNothing(newKeys);
    assert [] + Added([], newKeys) == Added([], newKeys);
  }

  // ---------------------------------------------------------------------------
  // The actions that keep the keys

  function Plain(key: string): Row { Row(key, ENABLED, 0, "") }

  /** The row with status 2 and what was last recorded about the key. */
  function Disabled(key: string, s: Store, i: int): Row {
    Row(key, MANUALLY_DISABLED, Get(s.times, i, 0), Get(s.reasons, i, ""))
  }

  /** What an action makes of row `i`. */
  function RowAfter(keys: seq<string>, s: Store, a: Action, i: nat): Row
    requires i < |keys| && KeepsKeys(a)
  {
    var was := RowAt(keys[i], s, i);
    match a
    case DisableKey(k) => if k == Some(i) then Disabled(keys[i], s, i) else was
    case EnableKey(k) => if k == Some(i) then Plain(keys[i]) else was
    case EnableAll => Plain(keys[i])
    case DisableAll => if was.status == ENABLED then Disabled(keys[i], s, i) else was
    case Mark(key, status, reason, now) =>
      if i != FirstIndex(keys, key) then was
      else if status == ENABLED then Plain(keys[i])
      else Row(keys[i], status, now, reason)
  }

  /** When an action is accepted, said of the rows that are shown. */
  lemma AcceptedExactly(json: JsonArrays, s: Store, a: Action)
    requires Valid(json, s)
    ensures var v := View(json, s);
            match a
            case DisableKey(i) => Accepted(json, s, a) <==> i.Some? && 0 <= i.value < |v|
            case EnableKey(i) => Accepted(json, s, a) <==> i.Some? && 0 <= i.value < |v|
            case EnableAll => Accepted(json, s, a)
            case DisableAll => Accepted(json, s, a) <==> exists i :: 0 <= i < |v| && v[i].status == 1
            case DeleteKey(i) => Accepted(json, s, a) <==> i.Some? && 0 <= i.value < |v| && |v| >= 2
            case DeleteDisabled => Accepted(json, s, a) <==> exists i :: 0 <= i < |v| && v[i].status == 3
            case Append(_, _) => Accepted(json, s, a)
            case Mark(key, _, _, _) => Accepted(json, s, a) <==> exists i :: 0 <= i < |v| && v[i].key == key
  {
    var v, n := View(json, s), |GetKeys(json, s.key)|;
    assert forall i :: 0 <= i < |v| ==> v[i].status == StatusAt(s, i) && v[i].key == GetKeys(json, s.key)[i];
    match a
    case DeleteKey(i) => if i.Some? && 0 <= i.value < |v| { KeptAllBut(n, i.value); }
    case DeleteDisabled => SomeAuto(json, s);
    case DisableAll =>
      if i :| 0 <= i < s.size && StatusAt(s, i) == ENABLED { assert v[i].status == 1; }
      if i :| 0 <= i < |v| && v[i].status == 1 { assert StatusAt(s, i) == ENABLED; }
    case Mark(key, _, _, _) =>
      if key in GetKeys(json, s.key) {
        var i :| 0 <= i < n && GetKeys(json, s.key)[i] == key;
        assert v[i].key == key;
      }
    case _ =>
  }

  lemma SomeAuto(json: JsonArrays, s: Store)
    ensures |Remaining(json, s, NotAuto(s))| < |GetKeys(json, s.key)|
       <==> exists i :: 0 <= i < |View(json, s)| && View(json, s)[i].status == 3
  {
    var v, n := View(json, s), |GetKeys(json, s.key)|;
    KeptFacts(n, NotAuto(s));
    if i :| 0 <= i < |v| && v[i].status == 3 {
      assert !NotAuto(s)(i);
    } else {
      forall i | 0 <= i < n ensures NotAuto(s)(i) { assert v[i].status == StatusAt(s, i); }
      KeptEvery(n, NotAuto(s));
    }
  }

  lemma {:induction false} KeptEvery(n: nat, keep: int -> bool)
    requires forall i :: 0 <= i < n ==> keep(i)
    ensures |Kept(n, keep)| == n
  {
    if n > 0 { KeptEvery(n - 1, keep); }
  }

  /** The keys an append adds: each differs from the others, is some new key trimmed, is not blank, and is no
      existing key trimmed; every such key is added. */
  lemma AddedExactly(existing: seq<string>, newKeys: seq<string>, x: string)
    ensures x in Added(existing, newKeys)
       <==> && x != "" && (exists y :: y in newKeys && Trim(y, GoSpace) == x)
            && !(exists y :: y in existing && Trim(y, GoSpace) == x)
    ensures ModelNames.Distinct(Added(existing, newKeys))
  {
    ModelNames.SubtractFacts(newKeys, existing);
    ModelNames.NormalizedExactly(newKeys, x);
    ModelNames.NormalizedExactly(existing, x);
  }

  lemma {:induction false} FirstIndexFacts(keys: seq<string>, key: string)
    requires key in keys
    ensures var i := FirstIndex(keys, key); i < |keys| && keys[i] == key && key !in keys[..i]
  {
    if keys[0] != key {
      FirstIndexFacts(keys[1..], key);
      var i := FirstIndex(keys, key);
      assert keys[..i] == [keys[0]] + keys[1..][..i - 1];
    }
  }

  lemma SavedKeepsRows(json: JsonArrays, t: Store)
    requires Countable(json, t.key)
    ensures var n := Saved(json, t, t.key);
            && n.key == t.key && n.size == |GetKeys(json, t.key)|
            && n.times == t.times && n.reasons == t.reasons && View(json, n) == View(json, t)
  {
    CountedSame(json, t.key);
    var n := Saved(json, t, t.key);
    var keys := GetKeys(json, t.key);
    assert forall i :: 0 <= i < |keys| ==> StatusAt(n, i) == StatusAt(t, i);
  }

  lemma EditedRow(keys: seq<string>, s: Store, a: Action, i: nat)
    requires i < |keys| && |keys| == s.size && KeepsKeys(a)
    ensures RowAt(keys[i], Edited(keys, s, a), i) == RowAfter(keys, s, a, i)
  {
  }

  lemma EditedInRange(json: JsonArrays, s: Store, a: Action)
    requires Valid(json, s) && KeepsKeys(a) && Accepted(json, s, a)
    ensures Valid(json, Edited(GetKeys(json, s.key), s, a)) && Edited(GetKeys(json, s.key), s, a).key == s.key
  {
    if a.Mark? { FirstIndexFacts(GetKeys(json, s.key), a.key); }
  }

  /** Each of these actions leaves the keys alone and changes exactly the rows it is about. */
  lemma RowsAfter(json: JsonArrays, s: Store, a: Action)
    requires Valid(json, s) && Countable(json, s.key) && KeepsKeys(a) && Accepted(json, s, a)
    ensures var n, keys := Do(json, s, a), GetKeys(json, s.key);
            && n.key == s.key && Valid(json, n)
            && forall i :: 0 <= i < |keys| ==> View(json, n)[i] == RowAfter(keys, s, a, i)
  {
    var keys := GetKeys(json, s.key);
    var t := Edited(keys, s, a);
    EditedInRange(json, s, a);
    SavedKeepsRows(json, t);
    forall i | 0 <= i < |keys| ensures View(json, t)[i] == RowAfter(keys, s, a, i) { EditedRow(keys, s, a, i); }
  }

  /** Enabling a key forgets when and why it was disabled: disabling it again shows neither. */
  lemma EnablingForgets(json: JsonArrays, s: Store, a: Action, i: int)
    requires Valid(json, s) && Countable(json, s.key) && 0 <= i < s.size
    requires a == EnableKey(Some(i)) || a == EnableAll
    ensures Accepted(json, s, a) && Accepted(json, Do(json, s, a), DisableKey(Some(i)))
    ensures var v := View(json, Do(json, Do(json, s, a), DisableKey(Some(i))));
            i < |v| && v[i] == Row(GetKeys(json, s.key)[i], 2, 0, "")
  {
    var n := Do(json, s, a);
    RowsAfter(json, s, a);
    SavedKeepsRows(json, Edited(GetKeys(json, s.key), s, a));
    assert i !in n.times && i !in n.reasons;
    RowsAfter(json, n, DisableKey(Some(i)));
  }
}
