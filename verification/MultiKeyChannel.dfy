/** The multi-key actions as the program runs them, on the stored channel (controller/channel.go, lines
    958-1034 and 1464-1885; model/channel.go, lines 525-573 and 640-690). */
module MultiKeyChannel {
  import opened Text
  import opened MultiKey
  import ModelNames

  class Channel {
    const json: JsonArrays
    var key: string
    var size: nat
    var status: map<int, int>
    var times: map<int, int>
    var reasons: map<int, string>
    var channelStatus: int

    function Stored(): Store
      reads this
    {
      Store(key, size, status, times, reasons)
    }

    constructor (json: JsonArrays, s: Store, channelStatus: int)
      ensures this.json == json && Stored() == s && this.channelStatus == channelStatus
    {
      this.json, this.channelStatus := json, channelStatus;
      key, size, status, times, reasons := s.key, s.size, s.status, s.times, s.reasons;
    }

    /** `Update` */
    method Save(text: string, newStatus: map<int, int>, newTimes: map<int, int>, newReasons: map<int, string>)
      modifies this`key, this`size, this`status, this`times, this`reasons
      ensures Stored() == Saved(json, Store(text, 0, newStatus, newTimes, newReasons), old(key))
    {
      if text != "" { key := text; }
      size := Counted(json, key);
      status := DropFrom(newStatus, size);
      times, reasons := newTimes, newReasons;
    }

    /** The rows of `get_key_status`, before filtering and paging, with the three totals. */
    method KeyStatus() returns (rows: seq<Row>, enabled: nat, manual: nat, auto: nat)
      ensures rows == View(json, Stored())
      ensures enabled == CountOf(rows, ENABLED) && manual == CountOf(rows, MANUALLY_DISABLED)
      ensures auto == CountOf(rows, AUTO_DISABLED)
    {
      var keys, s := GetKeys(json, key), Stored();
      rows, enabled, manual, auto := [], 0, 0, 0;
      for i := 0 to |keys|
        invariant rows == Rows(keys, s)[..i] && Totals(rows, enabled, manual, auto)
      {
        var row := ReadRow(keys[i], s, i);
        enabled, manual, auto := Tally(rows, row, enabled, manual, auto);
        rows := rows + [row];
      }
    }

    /** The whole of `get_key_status`: one page of the rows that pass the filter. */
    method GetKeyStatus(filter: Option<int>, pageIn: int, pageSizeIn: int)
      returns (shown: seq<Shown>, total: nat, page: int, pageSize: int, totalPages: int)
      ensures var all := Filtered(View(json, Stored()), filter);
              && total == |all| && pageSize == (if pageSizeIn <= 0 then 50 else pageSizeIn)
              && totalPages == PageCount(|all|, pageSize) && 1 <= page <= totalPages
              && (1 <= pageIn <= totalPages ==> page == pageIn)
              && shown == PageOf(all, page, pageSize)
    {
      var rows, _, _, _ := KeyStatus();
      page, pageSize := pageIn, pageSizeIn;
      if page <= 0 { page := 1; }
      if pageSize <= 0 { pageSize := 50; }
      var all := FilterRows(rows, filter);
      total := |all|;
      totalPages := PageCount(total, pageSize);
      if page > totalPages { page := totalPages; }
      shown := PageOf(all, page, pageSize);
    }

    method DisableKey(index: Option<int>) returns (ok: bool)
      modifies this`key, this`size, this`status, this`times, this`reasons
      ensures ok == Accepted(json, old(Stored()), Action.DisableKey(index))
      ensures Stored() == if ok then Do(json, old(Stored()), Action.DisableKey(index)) else old(Stored())
    {
      if index.None? || index.value < 0 || index.value >= size { return false; }
      Save(key, status[index.value := MANUALLY_DISABLED], times, reasons);
      return true;
    }

    method EnableKey(index: Option<int>) returns (ok: bool)
      modifies this`key, this`size, this`status, this`times, this`reasons
      ensures ok == Accepted(json, old(Stored()), Action.EnableKey(index))
      ensures Stored() == if ok then Do(json, old(Stored()), Action.EnableKey(index)) else old(Stored())
    {
      if index.None? || index.value < 0 || index.value >= size { return false; }
      Save(key, status - {index.value}, times - {index.value}, reasons - {index.value});
      return true;
    }

    method EnableAllKeys()
      modifies this`key, this`size, this`status, this`times, this`reasons
      ensures Stored() == Do(json, old(Stored()), EnableAll)
    {
      Save(key, map[], map[], map[]);
    }

    method DisableAllKeys() returns (ok: bool)
      modifies this`key, this`size, this`status, this`times, this`reasons
      ensures ok == Accepted(json, old(Stored()), DisableAll)
      ensures Stored() == if ok then Do(json, old(Stored()), DisableAll) else old(Stored())
    {
      var newStatus, disabledCount := status, 0;
      for i := 0 to size
        invariant newStatus == status + map j | 0 <= j < i && StatusAt(Stored(), j) == ENABLED :: MANUALLY_DISABLED
        invariant disabledCount >= 0
        invariant disabledCount > 0 <==> exists j :: 0 <= j < i && StatusAt(Stored(), j) == ENABLED
      {
        var s := if i in newStatus then newStatus[i] else 1;
        assert s == StatusAt(Stored(), i);
        if s == 1 {
          newStatus := newStatus[i := 2];
          disabledCount := disabledCount + 1;
        }
      }
      if disabledCount == 0 { return false; }
      Save(key, newStatus, times, reasons);
      return true;
    }

    method DeleteKey(index: Option<int>) returns (ok: bool)
      modifies this`key, this`size, this`status, this`times, this`reasons
      ensures ok == Accepted(json, old(Stored()), Action.DeleteKey(index))
      ensures Stored() == if ok then Do(json, old(Stored()), Action.DeleteKey(index)) else old(Stored())
    {
      if index.None? || index.value < 0 || index.value >= size { return false; }
      var s := Stored();
      var left, newStatus, newTimes, newReasons := WithoutKey(GetKeys(json, key), s, index.value);
      Assembled(json, s, AllBut(index.value), s.times, s.reasons, left, newStatus, newTimes, newReasons);
      if |left| == 0 { return false; }
      Save(Join(left, '\n'), newStatus, newTimes, newReasons);
      return true;
    }

    method DeleteDisabledKeys() returns (ok: bool, deletedCount: int)
      modifies this`key, this`size, this`status, this`times, this`reasons
      ensures ok == Accepted(json, old(Stored()), DeleteDisabled)
      ensures Stored() == if ok then Do(json, old(Stored()), DeleteDisabled) else old(Stored())
      ensures ok ==>
        deletedCount == |GetKeys(json, old(key))| - |Remaining(json, old(Stored()), NotAuto(old(Stored())))|
    {
      var s := Stored();
      var left, newStatus, newTimes, newReasons;
      left, newStatus, newTimes, newReasons, deletedCount := WithoutDisabled(GetKeys(json, key), s);
      Assembled(json, s, NotAuto(s), OfDisabled(s.times, s), OfDisabled(s.reasons, s),
                left, newStatus, newTimes, newReasons);
      if deletedCount == 0 { return false, 0; }
      Save(Join(left, '\n'), newStatus, newTimes, newReasons);
      ok := true;
    }

    /** The `append` mode of a channel update. */
    method AppendKeys(text: string, newKeys: seq<string>)
      modifies this`key, this`size, this`status, this`times, this`reasons
      ensures Stored() == Do(json, old(Stored()), Append(text, newKeys))
    {
      var joined := text;
      if key != "" {
        var existing := [];
        if Bracketed(key) {
          if Decoded(json, key).Some? { existing := Decoded(json, key).value; }
        } else {
          existing := Lines(key);
        }
        var added := Deduplicate(existing, newKeys);
        joined := Join(existing + added, '\n');
      }
      Save(joined, status, times, reasons);
    }

    /** `handlerMultiKeyUpdate`: marks the key that was used, and the channel itself when no key is left
        enabled, or when there is no key to mark. */
    method MarkKey(usingKey: string, newStatus: int, reason: string, now: int) returns (ok: bool)
      modifies this`status, this`times, this`reasons, this`channelStatus
      ensures ok == Accepted(json, old(Stored()), Mark(usingKey, newStatus, reason, now))
      ensures Stored() == if ok then Do(json, old(Stored()), Mark(usingKey, newStatus, reason, now)) else old(Stored())
      ensures channelStatus ==
              if !ok then if GetKeys(json, key) == [] || usingKey == "" then newStatus else old(channelStatus)
              else if !AnyEnabled(View(json, Stored())) then AUTO_DISABLED
              else if newStatus == ENABLED then ENABLED
              else old(channelStatus)
    {
      var keys := GetKeys(json, key);
      var keyIndex := IndexOf(keys, usingKey);
      if keyIndex < 0 {
        if |keys| == 0 || usingKey == "" { channelStatus := newStatus; }
        return false;
      }
      if newStatus == ENABLED {
        status := status - {keyIndex};
      } else {
        status := status[keyIndex := newStatus];
        reasons := reasons[keyIndex := reason];
        times := times[keyIndex := now];
      }
      var left := HasEnabled(keys, Stored());
      if !left {
        channelStatus := AUTO_DISABLED;
      } else if newStatus == ENABLED {
        channelStatus := ENABLED;
      }
      return true;
    }
  }

  predicate AnyEnabled(rows: seq<Row>) { exists i :: 0 <= i < |rows| && rows[i].status == ENABLED }

  // ---------------------------------------------------------------------------
  // Pages of rows

  /** A row with its position among all keys. */
  datatype Shown = Shown(index: nat, row: Row)

  function Filtered(rows: seq<Row>, filter: Option<int>): seq<Shown> {
    if rows == [] then []
    else
      var n := |rows| - 1;
      if filter == None || filter == Some(rows[n].status) then Filtered(rows[..n], filter) + [Shown(n, rows[n])]
      else Filtered(rows[..n], filter)
  }

  /** The filter keeps exactly the rows with the wanted status, or all, each with its position, in order. */
  lemma {:induction false} FilteredExactly(rows: seq<Row>, filter: Option<int>)
    ensures var f := Filtered(rows, filter);
            && (forall x :: x in f <==>
                  && x.index < |rows| && x.row == rows[x.index]
                  && (filter.Some? ==> x.row.status == filter.value))
            && (forall i, j :: 0 <= i < j < |f| ==> f[i].index < f[j].index)
  {
    if rows != [] {
      var n := |rows| - 1;
      FilteredExactly(rows[..n], filter);
      var f, init := Filtered(rows, filter), Filtered(rows[..n], filter);
      forall i | 0 <= i < |init| ensures init[i].index < n { assert init[i] in init; }
    }
  }

  function PageCount(total: nat, pageSize: int): int
    requires pageSize > 0
  {
    var n := (total + pageSize - 1) / pageSize;
    if n == 0 then 1 else n
  }

  function Cap(n: int, total: nat): nat { if n < 0 then 0 else if n > total then total else n }

  /** Page `p`, counted from 1. */
  function PageOf(all: seq<Shown>, p: int, pageSize: int): seq<Shown>
    requires p >= 1 && pageSize > 0
  {
    assert (p - 1) * pageSize <= p * pageSize;
    all[Cap((p - 1) * pageSize, |all|)..Cap(p * pageSize, |all|)]
  }

  function FirstPages(all: seq<Shown>, p: nat, pageSize: int): seq<Shown>
    requires pageSize > 0
  {
    if p == 0 then [] else FirstPages(all, p - 1, pageSize) + PageOf(all, p, pageSize)
  }

  lemma NextTimes(p: int, size: int)
    requires p >= 1 && size > 0
    ensures p * size == (p - 1) * size + size
  {
  }

  lemma Times(a: int, b: int, size: int)
    requires a <= b && size > 0
    ensures a * size <= b * size
  {
  }

  lemma Adjoin(all: seq<Shown>, a: int, b: int)
    requires 0 <= a <= b
    ensures all[..Cap(a, |all|)] + all[Cap(a, |all|)..Cap(b, |all|)] == all[..Cap(b, |all|)]
  {
  }

  lemma {:induction false} FirstPagesAre(all: seq<Shown>, p: nat, pageSize: int)
    requires pageSize > 0
    ensures 0 <= p * pageSize && FirstPages(all, p, pageSize) == all[..Cap(p * pageSize, |all|)]
  {
    if p > 0 {
      FirstPagesAre(all, p - 1, pageSize);
      NextTimes(p, pageSize);
      Adjoin(all, (p - 1) * pageSize, p * pageSize);
    }
  }

  lemma PageCountReaches(total: nat, pageSize: int)
    requires pageSize > 0
    ensures PageCount(total, pageSize) >= 1 && PageCount(total, pageSize) * pageSize >= total
  {
    var n := (total + pageSize - 1) / pageSize;
    assert total + pageSize - 1 == n * pageSize + (total + pageSize - 1) % pageSize;
  }

  lemma Quotient(a: nat, size: int)
    requires size > 0
    ensures a - size < (a / size) * size <= a
  {
    assert a == size * (a / size) + a % size;
  }

  /** Page `p` of `n` starts before the end, and ends after it only if it is the last. */
  lemma PageBounds(total: nat, n: int, p: int, size: int)
    requires size > 0 && n == (total + size - 1) / size && 1 <= p <= n
    ensures 0 <= (p - 1) * size < total && p * size == (p - 1) * size + size
    ensures p < n ==> p * size <= total
  {
    Quotient(total + size - 1, size);
    NextTimes(n, size);
    NextTimes(p, size);
    Times(p - 1, n - 1, size);
    Times(0, p - 1, size);
    if p < n { Times(p, n - 1, size); }
  }

  /** There is no page too many: every page shows something, unless there is nothing to show. */
  lemma PagesAreNotEmpty(all: seq<Shown>, p: int, pageSize: int)
    requires pageSize > 0 && 1 <= p <= PageCount(|all|, pageSize) && all != []
    ensures 1 <= |PageOf(all, p, pageSize)| <= pageSize
    ensures p < PageCount(|all|, pageSize) ==> |PageOf(all, p, pageSize)| == pageSize
  {
    PageCountReaches(|all|, pageSize);
    var n := (|all| + pageSize - 1) / pageSize;
    assert n >= 1;
    PageBounds(|all|, n, p, pageSize);
  }

  /** The pages, one after another, are all the rows that pass the filter, each of them once. */
  lemma PagesCoverAll(all: seq<Shown>, pageSize: int)
    requires pageSize > 0
    ensures FirstPages(all, PageCount(|all|, pageSize), pageSize) == all
  {
    PageCountReaches(|all|, pageSize);
    FirstPagesAre(all, PageCount(|all|, pageSize), pageSize);
  }

  // ---------------------------------------------------------------------------
  // The loops

  method ReadRow(key: string, s: Store, i: int) returns (row: Row)
    ensures row == RowAt(key, s, i)
  {
    var status := if i in s.status then s.status[i] else 1;
    var time, reason := 0, "";
    if status != 1 {
      time := Get(s.times, i, 0);
      reason := Get(s.reasons, i, "");
    }
    row := Row(key, status, time, reason);
  }

  ghost predicate Totals(rows: seq<Row>, enabled: int, manual: int, auto: int) {
    && enabled == CountOf(rows, ENABLED) && manual == CountOf(rows, MANUALLY_DISABLED)
    && auto == CountOf(rows, AUTO_DISABLED)
  }

  method Tally(ghost rows: seq<Row>, row: Row, enabled: nat, manual: nat, auto: nat) returns (e: nat, m: nat, a: nat)
    requires Totals(rows, enabled, manual, auto)
    ensures Totals(rows + [row], e, m, a)
  {
    e, m, a := enabled, manual, auto;
    assert (rows + [row])[..|rows|] == rows;
    if row.status == 1 {
      e := e + 1;
    } else if row.status == 2 {
      m := m + 1;
    } else if row.status == 3 {
      a := a + 1;
    }
  }

  method FilterRows(rows: seq<Row>, filter: Option<int>) returns (all: seq<Shown>)
    ensures all == Filtered(rows, filter)
  {
    all := [];
    for i := 0 to |rows|
      invariant all == Filtered(rows[..i], filter)
    {
      assert rows[..i + 1][..i] == rows[..i];
      if filter.None? || rows[i].status == filter.value { all := all + [Shown(i, rows[i])]; }
    }
    assert rows[..|rows|] == rows;
  }

  /** `hasEnabledMultiKey` */
  method HasEnabled(keys: seq<string>, s: Store) returns (any: bool)
    ensures any == AnyEnabled(Rows(keys, s))
  {
    for i := 0 to |keys|
      invariant forall j :: 0 <= j < i ==> Rows(keys, s)[j].status != ENABLED
    {
      if i !in s.status || s.status[i] == ENABLED {
        assert Rows(keys, s)[i].status == ENABLED;
        return true;
      }
    }
    any := false;
  }

  /** The loop of `Update` that drops what lies beyond the last key. */
  method DropFrom(status: map<int, int>, size: nat) returns (r: map<int, int>)
    ensures r == Below(status, size)
  {
    r := status;
    var left := status.Keys;
    while left != {}
      invariant left <= status.Keys
      invariant r == map i | i in status && (i in left || i < size) :: status[i]
      decreases left
    {
      var idx := Member(left);
      if idx >= size { r := r - {idx}; }
      left := left - {idx};
    }
  }

  method IndexOf(keys: seq<string>, key: string) returns (at: int)
    ensures at == if key in keys then FirstIndex(keys, key) else -1
  {
    for i := 0 to |keys|
      invariant key !in keys[..i]
      invariant FirstIndex(keys, key) == i + FirstIndex(keys[i..], key)
    {
      if keys[i] == key { return i; }
      assert keys[i..][1..] == keys[i + 1..];
    }
    at := -1;
  }

  /** An entry, if there is one, moves to its new position. */
  method Carry<V>(m: map<int, V>, newIndex: int, from: map<int, V>, i: int) returns (r: map<int, V>)
    ensures r == Extended(m, newIndex, from, i)
  {
    r := m;
    if i in from { r := r[newIndex := from[i]]; }
  }

  /** A status moves along unless it is the default. */
  method CarryStatus(m: map<int, int>, newIndex: int, s: Store, i: int) returns (r: map<int, int>)
    ensures r == Extended(m, newIndex, OfDisabled(s.status, s), i)
  {
    r := m;
    if i in s.status && s.status[i] != 1 { r := r[newIndex := s.status[i]]; }
  }

  /** The loop of `delete_key`. */
  method WithoutKey(keys: seq<string>, s: Store, keyIndex: int)
    returns (left: seq<string>, newStatus: map<int, int>, newTimes: map<int, int>, newReasons: map<int, string>)
    ensures ShrunkSoFar(keys, s, AllBut(keyIndex), s.times, s.reasons, |keys|, left, newStatus, newTimes, newReasons)
  {
    left, newStatus, newTimes, newReasons := [], map[], map[], map[];
    var newIndex := 0;
    for i := 0 to |keys|
      invariant ShrunkSoFar(keys, s, AllBut(keyIndex), s.times, s.reasons, i, left, newStatus, newTimes, newReasons)
      invariant newIndex == |left|
    {
      StepAt(keys, s, AllBut(keyIndex), s.times, s.reasons, i, left, newStatus, newTimes, newReasons);
      if i != keyIndex {
        left := left + [keys[i]];
        newStatus := CarryStatus(newStatus, newIndex, s, i);
        newTimes := Carry(newTimes, newIndex, s.times, i);
        newReasons := Carry(newReasons, newIndex, s.reasons, i);
        newIndex := newIndex + 1;
      }
    }
  }

  /** A time or a reason moves along with a key that is not enabled. */
  method CarryIfDisabled<V>(m: map<int, V>, newIndex: int, from: map<int, V>, s: Store, i: int) returns (r: map<int, V>)
    ensures r == Extended(m, newIndex, OfDisabled(from, s), i)
  {
    r := m;
    var status := if i in s.status then s.status[i] else 1;
    if status != 1 && i in from { r := r[newIndex := from[i]]; }
  }

  /** The loop of `delete_disabled_keys`. */
  method WithoutDisabled(keys: seq<string>, s: Store)
    returns (left: seq<string>, newStatus: map<int, int>, newTimes: map<int, int>, newReasons: map<int, string>,
             deletedCount: int)
    ensures ShrunkSoFar(keys, s, NotAuto(s), OfDisabled(s.times, s), OfDisabled(s.reasons, s), |keys|,
                        left, newStatus, newTimes, newReasons)
    ensures deletedCount == |keys| - |left|
  {
    left, newStatus, newTimes, newReasons, deletedCount := [], map[], map[], map[], 0;
    var newIndex := 0;
    for i := 0 to |keys|
      invariant ShrunkSoFar(keys, s, NotAuto(s), OfDisabled(s.times, s), OfDisabled(s.reasons, s), i,
                            left, newStatus, newTimes, newReasons)
      invariant newIndex == |left| && deletedCount == i - |left|
    {
      StepAt(keys, s, NotAuto(s), OfDisabled(s.times, s), OfDisabled(s.reasons, s), i,
             left, newStatus, newTimes, newReasons);
      var status := if i in s.status then s.status[i] else 1;
      if status == 3 {
        deletedCount := deletedCount + 1;
      } else {
        left := left + [keys[i]];
        newStatus := CarryStatus(newStatus, newIndex, s, i);
        newTimes := CarryIfDisabled(newTimes, newIndex, s.times, s, i);
        newReasons := CarryIfDisabled(newReasons, newIndex, s.reasons, s, i);
        newIndex := newIndex + 1;
      }
    }
  }

  /** The first loop of the `append` mode: the keys there are, trimmed, blank ones aside. */
  method TrimmedSet(existing: seq<string>) returns (seen: set<string>)
    ensures forall x :: x in seen <==> x in ModelNames.Normalize(existing)
  {
    seen := {};
    for i := 0 to |existing|
      invariant forall x :: x in seen <==> x in ModelNames.TrimNames(existing[..i])
    {
      assert existing[..i + 1][..i] == existing[..i];
      var normalized := Trim(existing[i], GoSpace);
      if normalized != "" { seen := seen + {normalized}; }
    }
    assert existing[..|existing|] == existing;
    ModelNames.NormalizeFacts(existing);
  }

  /** The loop of the `append` mode that drops blank keys, keys that are there already and repetitions. */
  method Deduplicate(existing: seq<string>, newKeys: seq<string>) returns (added: seq<string>)
    ensures added == Added(existing, newKeys)
  {
    var seen := TrimmedSet(existing);
    ghost var names := ModelNames.Normalize(existing);
    ghost var outside := ModelNames.Outside(names);
    added := [];
    for i := 0 to |newKeys|
      invariant added == ModelNames.Filter(ModelNames.Normalize(newKeys[..i]), outside)
      invariant forall x :: x in seen <==> x in names || x in added
    {
      NormalizeSnoc(newKeys[..i], newKeys[i], outside);
      assert newKeys[..i + 1] == newKeys[..i] + [newKeys[i]];
      var normalized := Trim(newKeys[i], GoSpace);
      if normalized != "" && normalized !in seen {
        seen := seen + {normalized};
        added := added + [normalized];
      }
    }
    assert newKeys[..|newKeys|] == newKeys;
  }

  /** One more name joins a filtered list when it is not blank, passes, and is not in the list yet. */
  lemma NormalizeSnoc(names: seq<string>, x: string, p: string -> bool)
    ensures var t, was := Trim(x, GoSpace), ModelNames.Filter(ModelNames.Normalize(names), p);
            ModelNames.Filter(ModelNames.Normalize(names + [x]), p)
            == if t != "" && p(t) && t !in was then was + [t] else was
  {
    var t := Trim(x, GoSpace);
    var trimmed, longer := ModelNames.TrimNames(names), ModelNames.TrimNames(names + [x]);
    assert (names + [x])[..|names|] == names;
    assert longer == if t == "" then trimmed else trimmed + [t];
    ModelNames.FilterMembers(ModelNames.Normalize(names), p);
    if t != "" {
      assert (trimmed + [t])[..|trimmed|] == trimmed;
      var u := ModelNames.Uniq(trimmed);
      if t !in u { assert (u + [t])[..|u|] == u; }
    }
  }

  ghost predicate ShrunkSoFar(
    keys: seq<string>, s: Store, keep: int -> bool, times: map<int, int>, reasons: map<int, string>, i: int,
    left: seq<string>, newStatus: map<int, int>, newTimes: map<int, int>, newReasons: map<int, string>)
  {
    && 0 <= i
    && var at := Kept(i, keep);
       && left == Pick(keys, at, "") && newStatus == Reindexed(OfDisabled(s.status, s), at)
       && newTimes == Reindexed(times, at) && newReasons == Reindexed(reasons, at)
  }

  /** What the loop leaves is what `Shrunk` describes; saving counts the keys afresh. */
  lemma Assembled(json: JsonArrays, s: Store, keep: int -> bool, times: map<int, int>, reasons: map<int, string>,
                  left: seq<string>, newStatus: map<int, int>, newTimes: map<int, int>, newReasons: map<int, string>)
    requires ShrunkSoFar(GetKeys(json, s.key), s, keep, times, reasons, |GetKeys(json, s.key)|,
                         left, newStatus, newTimes, newReasons)
    ensures left == Remaining(json, s, keep)
    ensures Saved(json, Store(Join(left, '\n'), 0, newStatus, newTimes, newReasons), s.key)
         == Saved(json, Shrunk(json, s, keep, times, reasons), s.key)
    ensures |left| <= |GetKeys(json, s.key)|
  {
    KeptFacts(|GetKeys(json, s.key)|, keep);
  }

  function Extended<V>(m: map<int, V>, at: int, from: map<int, V>, i: int): map<int, V> {
    if i in from then m[at := from[i]] else m
  }

  lemma ReindexedSnoc<V>(m: map<int, V>, at: seq<int>, i: int)
    ensures Reindexed(m, at + [i]) == Extended(Reindexed(m, at), |at|, m, i)
  {
  }

  lemma StepAt(keys: seq<string>, s: Store, keep: int -> bool, times: map<int, int>, reasons: map<int, string>, i: int,
               left: seq<string>, newStatus: map<int, int>, newTimes: map<int, int>, newReasons: map<int, string>)
    requires ShrunkSoFar(keys, s, keep, times, reasons, i, left, newStatus, newTimes, newReasons) && i < |keys|
    ensures !keep(i) ==> ShrunkSoFar(keys, s, keep, times, reasons, i + 1, left, newStatus, newTimes, newReasons)
    ensures keep(i) ==>
      ShrunkSoFar(keys, s, keep, times, reasons, i + 1, left + [keys[i]],
                  Extended(newStatus, |left|, OfDisabled(s.status, s), i),
                  Extended(newTimes, |left|, times, i), Extended(newReasons, |left|, reasons, i))
  {
    var at := Kept(i, keep);
    ReindexedSnoc(OfDisabled(s.status, s), at, i);
    ReindexedSnoc(times, at, i);
    ReindexedSnoc(reasons, at, i);
    assert Pick(keys, at + [i], "") == Pick(keys, at, "") + [keys[i]];
  }

  function CountOf(rows: seq<Row>, status: int): nat {
    if rows == [] then 0
    else CountOf(rows[..|rows| - 1], status) + if rows[|rows| - 1].status == status then 1 else 0
  }

  method Member<T(==)>(s: set<T>) returns (x: T)
    requires s != {}
    ensures x in s
  {
    x :| x in s;
  }
}
