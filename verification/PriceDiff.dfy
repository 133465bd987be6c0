/** The price difference engine (controller/ratio_sync.go, lines 48-62, 107-132 and 536-696): local prices
    against those of several upstream channels, in two phases. */
module PriceDiff {
  import opened Text

  /** A JSON value of a price table. */
  datatype Value = Null | Num(r: real) | Str(s: string)

  /** `pricingSyncFields`; no other field of the data is read. */
  datatype Field =
    | ModelRatio | CompletionRatio | CacheRatio | CreateCacheRatio | ImageRatio
    | AudioRatio | AudioCompletionRatio | ModelPrice | BillingMode | BillingExpr

  /** Field to model to value. */
  type Data = map<Field, map<string, Value>>

  datatype Channel = Channel(name: string, data: Data)

  datatype Item = Item(current: Value, upstreams: map<string, Value>, confidence: map<string, bool>)

  /** Channel name to model to whether the price is trusted. */
  type Trust = map<string, map<string, bool>>

  /** Model to field to cell. */
  type Differences = map<string, map<Field, Item>>

  const SAME := Str("same")
  const EPSILON := 0.000000001

  const FIELDS := [
    ModelRatio, CompletionRatio, CacheRatio, CreateCacheRatio, ImageRatio,
    AudioRatio, AudioCompletionRatio, ModelPrice, BillingMode, BillingExpr]

  lemma AllFields()
    ensures forall f: Field :: f in FIELDS
  {
    forall f: Field ensures f in FIELDS {
      match f
      case ModelRatio => assert FIELDS[0] == f;
      case CompletionRatio => assert FIELDS[1] == f;
      case CacheRatio => assert FIELDS[2] == f;
      case CreateCacheRatio => assert FIELDS[3] == f;
      case ImageRatio => assert FIELDS[4] == f;
      case AudioRatio => assert FIELDS[5] == f;
      case AudioCompletionRatio => assert FIELDS[6] == f;
      case ModelPrice => assert FIELDS[7] == f;
      case BillingMode => assert FIELDS[8] == f;
      case BillingExpr => assert FIELDS[9] == f;
    }
  }

  /** `nearlyEqual` */
  predicate Near(a: real, b: real) { if a > b then a - b < EPSILON else b - a < EPSILON }

  /** `valuesEqual` */
  predicate Equal(a: Value, b: Value) { if a.Num? && b.Num? then Near(a.r, b.r) else a == b }

  function Lookup(data: Data, field: Field, model: string): Option<Value> {
    if field in data && model in data[field] then Some(data[field][model]) else None
  }

  function Local(data: Data, field: Field, model: string): Value {
    var v := Lookup(data, field, model);
    if v.Some? then v.value else Null
  }

  // ---------------------------------------------------------------------------
  // First phase: every cell with something to show

  /** What the cell shows for a channel. */
  function Shown(local: Value, up: Option<Value>): Value {
    if up.None? then if local.Null? then SAME else Null
    else if Equal(local, up.value) then SAME else up.value
  }

  /** The channel sets `hasDifference`. */
  predicate Flags(local: Value, up: Option<Value>) {
    up.Some? && !Equal(local, up.value) && (local.Null? ==> up.value != SAME)
  }

  function ModelsOf(data: Data, field: Field): set<string> { if field in data then data[field].Keys else {} }

  ghost predicate Named(data: Data, model: string) { exists f :: model in ModelsOf(data, f) }

  /** A placeholder price: a pricing endpoint that reports 37.5 with completion ratio 1. */
  predicate Trusted(data: Data, model: string) {
    var a, b := Lookup(data, ModelRatio, model), Lookup(data, CompletionRatio, model);
    !(a.Some? && b.Some? && a.value.Num? && b.value.Num? && Near(a.value.r, 37.5) && Near(b.value.r, 1.0))
  }

  /** The local prices, those of the channels, and the trust in them. */
  datatype Input = Input(local: Data, channels: seq<Channel>, trust: Trust) {
    function Mine(f: Field, m: string): Value { Local(local, f, m) }
  }

  function TrustBit(trust: Trust, name: string, m: string): bool {
    name in trust && m in trust[name] && trust[name][m]
  }

  /** What a pass over some channels has found about a cell. */
  datatype Tally = Tally(upstreams: map<string, Value>, confidence: map<string, bool>, supplied: bool, differs: bool)

  function Absorb(t: Tally, local: Value, name: string, up: Option<Value>, ok: bool): Tally {
    Tally(t.upstreams[name := Shown(local, up)], t.confidence[name := ok],
          t.supplied || up.Some?, t.differs || Flags(local, up))
  }

  function Fold(local: Value, channels: seq<Channel>, trust: Trust, f: Field, m: string): Tally {
    if channels == [] then Tally(map[], map[], false, false)
    else
      var init, last := channels[..|channels| - 1], channels[|channels| - 1];
      Absorb(Fold(local, init, trust, f, m), local, last.name, Lookup(last.data, f, m), TrustBit(trust, last.name, m))
  }

  function Listed(t: Tally, local: Value): Option<Item> {
    if (if local.Null? then t.supplied else t.differs) then Some(Item(local, t.upstreams, t.confidence)) else None
  }

  function Cell(x: Input, f: Field, m: string): Option<Item> {
    Listed(Fold(x.Mine(f, m), x.channels, x.trust, f, m), x.Mine(f, m))
  }

  // ---------------------------------------------------------------------------
  // Second phase: channels that differ nowhere are dropped, then cells with nothing left to show

  predicate Marks(v: Value) { v != Null && v != SAME }

  function PrunedItem(item: Item, kept: set<string>): Item {
    Item(item.current, map n | n in item.upstreams && n in kept :: item.upstreams[n],
         map n | n in item.confidence && n in kept :: item.confidence[n])
  }

  predicate Speaks(item: Item) { exists n :: n in item.upstreams && item.upstreams[n] != SAME }

  function Pruned(cell: Option<Item>, kept: set<string>): Option<Item> {
    if cell.Some? && Speaks(PrunedItem(cell.value, kept)) then Some(PrunedItem(cell.value, kept)) else None
  }

  function MarkedNames(item: Item): set<string> { set n | n in item.upstreams && Marks(item.upstreams[n]) }

  /** The channel differs from the local prices in some cell. */
  ghost predicate Stays(x: Input, name: string) { exists m, f :: StaysFor(x, name, m, f) }

  ghost predicate StaysFor(x: Input, name: string, m: string, f: Field) {
    Cell(x, f, m).Some? && name in MarkedNames(Cell(x, f, m).value)
  }

  function Names(channels: seq<Channel>): set<string> { set c | c in channels :: c.name }

  ghost function Staying(x: Input): set<string> { set n | n in Names(x.channels) && Stays(x, n) }

  /** What both phases make of a cell. */
  ghost function Final(x: Input, f: Field, m: string): Option<Item> { Pruned(Cell(x, f, m), Staying(x)) }

  predicate Has(d: Differences, m: string, f: Field) { m in d && f in d[m] }

  /** The cell of `d`, if there is one. */
  function At(d: Differences, m: string, f: Field): Option<Item> { if Has(d, m, f) then Some(d[m][f]) else None }

  predicate NoEmpty(d: Differences) { forall m :: m in d ==> d[m] != map[] }

  // ---------------------------------------------------------------------------
  // The first phase as the program runs it

  /** The body of the loop over channels. */
  method Compare(local: Value, up: Option<Value>) returns (value: Value, supplied: bool, differs: bool)
    ensures value == Shown(local, up) && supplied == up.Some? && differs == Flags(local, up)
  {
    value, supplied, differs := Null, false, false;
    if up.Some? {
      value, supplied := up.value, true;
      if local != Null && !Equal(local, value) {
        differs := true;
      } else if Equal(local, value) {
        value := SAME;
      }
    }
    if value == Null && local == Null { value := SAME; }
    if local == Null && value != Null && value != SAME { differs := true; }
  }

  lemma FoldSnoc(local: Value, channels: seq<Channel>, i: nat, trust: Trust, f: Field, m: string)
    requires i < |channels|
    ensures Fold(local, channels[..i + 1], trust, f, m)
         == Absorb(Fold(local, channels[..i], trust, f, m), local, channels[i].name,
                   Lookup(channels[i].data, f, m), TrustBit(trust, channels[i].name, m))
  {
    assert channels[..i + 1][..i] == channels[..i];
  }

  /** One cell. */
  method BuildCell(x: Input, f: Field, m: string) returns (cell: Option<Item>)
    ensures cell == Cell(x, f, m)
  {
    var local, channels := x.Mine(f, m), x.channels;
    var upstreams, confidence, hasUpstreamValue, hasDifference := map[], map[], false, false;
    for i := 0 to |channels|
      invariant Tally(upstreams, confidence, hasUpstreamValue, hasDifference)
             == Fold(local, channels[..i], x.trust, f, m)
    {
      FoldSnoc(local, channels, i, x.trust, f, m);
      var value, supplied, differs := Compare(local, Lookup(channels[i].data, f, m));
      hasUpstreamValue, hasDifference := hasUpstreamValue || supplied, hasDifference || differs;
      upstreams := upstreams[channels[i].name := value];
      confidence := confidence[channels[i].name := TrustBit(x.trust, channels[i].name, m)];
    }
    assert channels[..|channels|] == channels;
    var listed := if local != Null then hasDifference else hasUpstreamValue;
    cell := if listed then Some(Item(local, upstreams, confidence)) else None;
  }

  /** The cells of one model in some of the fields. */
  ghost predicate RowOf(x: Input, m: string, fields: seq<Field>, cells: map<Field, Item>) {
    forall f :: CellIs(x, m, f in fields, f, cells)
  }

  ghost predicate CellIs(x: Input, m: string, present: bool, f: Field, cells: map<Field, Item>) {
    (if f in cells then Some(cells[f]) else None) == if present then Cell(x, f, m) else None
  }

  lemma RowStep(x: Input, m: string, fields: seq<Field>, f: Field, cells: map<Field, Item>)
    requires RowOf(x, m, fields, cells) && f !in fields
    ensures RowOf(x, m, fields + [f], if Cell(x, f, m).Some? then cells[f := Cell(x, f, m).value] else cells)
  {
    var more, n := fields + [f], if Cell(x, f, m).Some? then cells[f := Cell(x, f, m).value] else cells;
    forall g ensures CellIs(x, m, g in more, g, n) { assert CellIs(x, m, g in fields, g, cells); }
  }

  method BuildRow(x: Input, m: string) returns (cells: map<Field, Item>)
    ensures RowOf(x, m, FIELDS, cells)
  {
    cells := map[];
    var fields := FIELDS;
    for j := 0 to |fields|
      invariant RowOf(x, m, fields[..j], cells)
    {
      assert fields[..j + 1] == fields[..j] + [fields[j]];
      RowStep(x, m, fields[..j], fields[j], cells);
      var cell := BuildCell(x, fields[j], m);
      if cell.Some? { cells := cells[fields[j] := cell.value]; }
    }
    assert fields[..|fields|] == fields;
  }

  /** `d` holds the complete rows of the models in `done`, and nothing else. */
  ghost predicate RowsDone(x: Input, d: Differences, done: set<string>) {
    NoEmpty(d) && forall m :: RowIs(x, d, m, m in done)
  }

  ghost predicate RowIs(x: Input, d: Differences, m: string, done: bool) {
    if done then RowOf(x, m, FIELDS, if m in d then d[m] else map[]) else m !in d
  }

  lemma RowAdded(x: Input, d: Differences, done: set<string>, m: string, cells: map<Field, Item>)
    requires RowsDone(x, d, done) && m !in done && RowOf(x, m, FIELDS, cells)
    ensures RowsDone(x, if cells != map[] then d[m := cells] else d, done + {m})
  {
    var n, more := if cells != map[] then d[m := cells] else d, done + {m};
    assert RowIs(x, d, m, false);
    forall k ensures RowIs(x, n, k, k in more) { assert RowIs(x, d, k, k in done); }
  }

  /** The first phase; the models come in any order. */
  method FirstPhase(x: Input, models: set<string>) returns (d: Differences)
    ensures RowsDone(x, d, models)
  {
    d := map[];
    var todo := models;
    while todo != {}
      invariant todo <= models && RowsDone(x, d, models - todo)
      decreases todo
    {
      var m :| m in todo;
      var cells := BuildRow(x, m);
      RowAdded(x, d, models - todo, m, cells);
      assert models - todo + {m} == models - (todo - {m});
      if cells != map[] { d := d[m := cells]; }
      todo := todo - {m};
    }
    assert models - todo == models;
  }

  /** The models of one set of prices. */
  method ModelsNamed(data: Data) returns (models: set<string>)
    ensures forall m :: m in models <==> Named(data, m)
  {
    models := {};
    var fields := FIELDS;
    for j := 0 to |fields|
      invariant forall m :: m in models <==> exists f :: f in fields[..j] && m in ModelsOf(data, f)
    {
      assert fields[..j + 1] == fields[..j] + [fields[j]];
      models := models + ModelsOf(data, fields[j]);
    }
    assert fields[..|fields|] == fields;
    AllFields();
  }

  ghost predicate NamedBy(channels: seq<Channel>, m: string) { exists c :: c in channels && Named(c.data, m) }

  method AllModels(local: Data, channels: seq<Channel>) returns (models: set<string>)
    ensures forall m :: m in models <==> Named(local, m) || NamedBy(channels, m)
  {
    models := ModelsNamed(local);
    for i := 0 to |channels|
      invariant forall m :: m in models <==> Named(local, m) || NamedBy(channels[..i], m)
    {
      assert channels[..i + 1] == channels[..i] + [channels[i]];
      var more := ModelsNamed(channels[i].data);
      models := models + more;
    }
    assert channels[..|channels|] == channels;
  }

  /** Whether a channel is trusted with each model. */
  method TrustOf(data: Data, models: set<string>) returns (trust: map<string, bool>)
    ensures trust.Keys == models && forall m :: m in models ==> trust[m] == Trusted(data, m)
  {
    trust := map[];
    var modelRatios := if ModelRatio in data then data[ModelRatio] else map[];
    var completionRatios := if CompletionRatio in data then data[CompletionRatio] else map[];
    var todo := models;
    while todo != {}
      invariant todo <= models && trust.Keys == models - todo
      invariant forall m :: m in trust ==> trust[m] == Trusted(data, m)
      decreases todo
    {
      var m :| m in todo;
      todo := todo - {m};
      var ok := true;
      if |modelRatios| > 0 && |completionRatios| > 0 && m in modelRatios && m in completionRatios {
        var a, b := modelRatios[m], completionRatios[m];
        if a.Num? && b.Num? && Near(a.r, 37.5) && Near(b.r, 1.0) { ok := false; }
      }
      trust := trust[m := ok];
    }
  }

  /** No later channel has the name of this one. */
  predicate LastOfName(channels: seq<Channel>, i: nat)
    requires i < |channels|
  {
    forall j :: i < j < |channels| ==> channels[j].name != channels[i].name
  }

  /** The trust in a name is the trust in the last channel of that name. */
  ghost predicate TrustFor(channels: seq<Channel>, models: set<string>, trust: Trust) {
    forall i: nat :: i < |channels| && LastOfName(channels, i) ==> TrustIn(channels[i], models, trust)
  }

  ghost predicate TrustIn(c: Channel, models: set<string>, trust: Trust) {
    forall m :: m in models ==> TrustBit(trust, c.name, m) == Trusted(c.data, m)
  }

  /** The first loop over channels. */
  method TrustAll(channels: seq<Channel>, models: set<string>) returns (trust: Trust)
    ensures TrustFor(channels, models, trust)
  {
    trust := map[];
    for i := 0 to |channels|
      invariant TrustFor(channels[..i], models, trust)
    {
      ghost var was := trust;
      var t := TrustOf(channels[i].data, models);
      trust := trust[channels[i].name := t];
      TrustStep(channels, i, models, was, t);
    }
    assert channels[..|channels|] == channels;
  }

  lemma TrustStep(channels: seq<Channel>, i: nat, models: set<string>, trust: Trust, t: map<string, bool>)
    requires i < |channels| && TrustFor(channels[..i], models, trust)
    requires t.Keys == models && forall m :: m in models ==> t[m] == Trusted(channels[i].data, m)
    ensures TrustFor(channels[..i + 1], models, trust[channels[i].name := t])
  {
    var before, now, n := channels[..i], channels[..i + 1], trust[channels[i].name := t];
    forall j: nat | j < |now| && LastOfName(now, j) ensures TrustIn(now[j], models, n) {
      if j < i {
        assert now[i].name != now[j].name;
        assert LastOfName(before, j) by {
          forall k | j < k < |before| ensures before[k].name != before[j].name { assert now[k].name != now[j].name; }
        }
        assert TrustIn(before[j], models, trust);
      }
    }
  }

  // ---------------------------------------------------------------------------
  // The second phase as the program runs it

  ghost predicate MarkedIn(cells: map<Field, Item>, n: string) { exists f :: f in cells && n in MarkedNames(cells[f]) }

  method MarkedInRow(cells: map<Field, Item>) returns (names: set<string>)
    ensures forall n :: n in names <==> MarkedIn(cells, n)
  {
    names := {};
    var todo := cells.Keys;
    while todo != {}
      invariant todo <= cells.Keys
      invariant forall n :: n in names <==> exists f :: f in cells && f !in todo && n in MarkedNames(cells[f])
      decreases todo
    {
      var f :| f in todo;
      todo := todo - {f};
      names := names + MarkedNames(cells[f]);
    }
  }

  /** `channelHasDiff` */
  method ChannelsWithDiff(d: Differences) returns (names: set<string>)
    ensures forall n :: n in names <==> exists m :: m in d && MarkedIn(d[m], n)
  {
    names := {};
    var todo := d.Keys;
    while todo != {}
      invariant todo <= d.Keys
      invariant forall n :: n in names <==> exists m :: m in d && m !in todo && MarkedIn(d[m], n)
      decreases todo
    {
      var m :| m in todo;
      todo := todo - {m};
      var more := MarkedInRow(d[m]);
      names := names + more;
    }
  }

  function PrunedRow(cells: map<Field, Item>, kept: set<string>): map<Field, Item> {
    map f | f in cells && Speaks(PrunedItem(cells[f], kept)) :: PrunedItem(cells[f], kept)
  }

  method PruneRow(cells: map<Field, Item>, kept: set<string>) returns (r: map<Field, Item>)
    ensures r == PrunedRow(cells, kept)
  {
    r := cells;
    var todo := cells.Keys;
    while todo != {}
      invariant todo <= cells.Keys
      invariant forall f :: f in r <==> f in cells && (f in todo || Speaks(PrunedItem(cells[f], kept)))
      invariant forall f :: f in r ==> r[f] == if f in todo then cells[f] else PrunedItem(cells[f], kept)
      decreases todo
    {
      var f :| f in todo;
      todo := todo - {f};
      var item := PrunedItem(cells[f], kept);
      if Speaks(item) {
        r := r[f := item];
      } else {
        r := r - {f};
      }
    }
  }

  /** The rows outside `todo` have been pruned. */
  ghost predicate IsPruned(d: Differences, kept: set<string>, todo: set<string>, r: Differences) {
    forall m :: RowIsPruned(d, kept, todo, r, m)
  }

  ghost predicate RowIsPruned(d: Differences, kept: set<string>, todo: set<string>, r: Differences, m: string) {
    if m !in d then m !in r
    else if m in todo then m in r && r[m] == d[m]
    else if PrunedRow(d[m], kept) == map[] then m !in r
    else m in r && r[m] == PrunedRow(d[m], kept)
  }

  lemma PruneStep(
    d: Differences, kept: set<string>, todo: set<string>, r: Differences, m: string, row: map<Field, Item>)
    requires IsPruned(d, kept, todo, r) && m in d && row == PrunedRow(d[m], kept)
    ensures IsPruned(d, kept, todo - {m}, if |row| == 0 then r - {m} else r[m := row])
  {
    var n, left := if |row| == 0 then r - {m} else r[m := row], todo - {m};
    forall k ensures RowIsPruned(d, kept, left, n, k) { assert RowIsPruned(d, kept, todo, r, k); }
  }

  method SecondPhase(d: Differences, kept: set<string>) returns (r: Differences)
    ensures IsPruned(d, kept, {}, r)
  {
    r := d;
    var todo := d.Keys;
    while todo != {}
      invariant todo <= d.Keys && IsPruned(d, kept, todo, r)
      decreases todo
    {
      var m :| m in todo;
      var row := PruneRow(d[m], kept);
      PruneStep(d, kept, todo, r, m, row);
      r := if |row| == 0 then r - {m} else r[m := row];
      todo := todo - {m};
    }
  }

  // ---------------------------------------------------------------------------
  // Both phases together

  /** `d` holds exactly the cells that both phases leave. */
  ghost predicate Exactly(x: Input, d: Differences) {
    NoEmpty(d) && forall m, f :: At(d, m, f) == Final(x, f, m)
  }

  /** What the first phase hands over. */
  ghost predicate Cells(x: Input, d: Differences) { forall m, f :: At(d, m, f) == Cell(x, f, m) }

  lemma {:induction false} FoldFlags(local: Value, channels: seq<Channel>, trust: Trust, f: Field, m: string)
    ensures var t := Fold(local, channels, trust, f, m);
            && (t.supplied <==> exists c :: c in channels && Lookup(c.data, f, m).Some?)
            && (t.differs <==> exists c :: c in channels && Flags(local, Lookup(c.data, f, m)))
  {
    if channels != [] {
      var init, last := channels[..|channels| - 1], channels[|channels| - 1];
      FoldFlags(local, init, trust, f, m);
      assert channels == init + [last];
    }
  }

  /** A listed cell has a channel that supplies it, with a difference if there is a local value. */
  lemma Prompted(x: Input, f: Field, m: string) returns (c: Channel)
    requires Cell(x, f, m).Some?
    ensures c in x.channels && Lookup(c.data, f, m).Some?
    ensures !x.Mine(f, m).Null? ==> Flags(x.Mine(f, m), Lookup(c.data, f, m))
  {
    var v := x.Mine(f, m);
    FoldFlags(v, x.channels, x.trust, f, m);
    if v.Null? {
      c :| c in x.channels && Lookup(c.data, f, m).Some?;
    } else {
      c :| c in x.channels && Flags(v, Lookup(c.data, f, m));
    }
  }

  lemma CellIsNamed(x: Input, f: Field, m: string)
    requires Cell(x, f, m).Some?
    ensures NamedBy(x.channels, m)
  {
    var c := Prompted(x, f, m);
    assert m in ModelsOf(c.data, f);
  }

  lemma RowsAreCells(x: Input, models: set<string>, d: Differences)
    requires forall m :: m in models <==> Named(x.local, m) || NamedBy(x.channels, m)
    requires RowsDone(x, d, models)
    ensures Cells(x, d)
  {
    AllFields();
    forall m, f ensures At(d, m, f) == Cell(x, f, m) {
      if Cell(x, f, m).Some? { CellIsNamed(x, f, m); }
      assert RowIs(x, d, m, m in models);
      if m in models { assert CellIs(x, m, f in FIELDS, f, if m in d then d[m] else map[]); }
    }
  }

  lemma {:induction false} FoldNames(local: Value, channels: seq<Channel>, trust: Trust, f: Field, m: string)
    ensures var t := Fold(local, channels, trust, f, m);
            t.upstreams.Keys == Names(channels) && t.confidence.Keys == Names(channels)
  {
    if channels != [] {
      var init, last := channels[..|channels| - 1], channels[|channels| - 1];
      FoldNames(local, init, trust, f, m);
      assert channels == init + [last];
      assert Names(channels) == Names(init) + {last.name};
    }
  }

  lemma KeptAreStaying(x: Input, d: Differences, kept: set<string>)
    requires Cells(x, d)
    requires forall n :: n in kept <==> exists m :: m in d && MarkedIn(d[m], n)
    ensures kept == Staying(x)
  {
    forall n | n in kept ensures n in Staying(x) {
      var m :| m in d && MarkedIn(d[m], n);
      var f :| f in d[m] && n in MarkedNames(d[m][f]);
      assert At(d, m, f) == Cell(x, f, m);
      assert StaysFor(x, n, m, f);
      FoldNames(x.Mine(f, m), x.channels, x.trust, f, m);
    }
    forall n | n in Staying(x) ensures n in kept {
      var m, f :| StaysFor(x, n, m, f);
      assert At(d, m, f) == Cell(x, f, m);
      assert MarkedIn(d[m], n);
    }
  }

  lemma PrunedAt(d: Differences, r: Differences, kept: set<string>, m: string, f: Field)
    requires IsPruned(d, kept, {}, r)
    ensures At(r, m, f) == Pruned(At(d, m, f), kept)
  {
    assert RowIsPruned(d, kept, {}, r, m);
    if m in d { assert f in PrunedRow(d[m], kept) <==> f in d[m] && Speaks(PrunedItem(d[m][f], kept)); }
  }

  lemma PrunedAreFinal(x: Input, d: Differences, r: Differences)
    requires Cells(x, d) && IsPruned(d, Staying(x), {}, r)
    ensures Exactly(x, r)
  {
    var kept := Staying(x);
    forall m, f ensures At(r, m, f) == Final(x, f, m) {
      PrunedAt(d, r, kept, m, f);
      assert At(d, m, f) == Cell(x, f, m);
    }
    forall m | m in r ensures r[m] != map[] { assert RowIsPruned(d, kept, {}, r, m); }
  }

  /** `buildDifferences`, with the models it looks at and the trust it puts in each channel's prices. */
  method BuildDifferences(local: Data, channels: seq<Channel>)
    returns (r: Differences, models: set<string>, trust: Trust)
    ensures forall m :: m in models <==> Named(local, m) || NamedBy(channels, m)
    ensures TrustFor(channels, models, trust) && Exactly(Input(local, channels, trust), r)
  {
    models := AllModels(local, channels);
    trust := TrustAll(channels, models);
    var x := Input(local, channels, trust);
    var d := FirstPhase(x, models);
    RowsAreCells(x, models, d);
    var kept := ChannelsWithDiff(d);
    KeptAreStaying(x, d, kept);
    r := SecondPhase(d, kept);
    PrunedAreFinal(x, d, r);
  }

  lemma {:induction false} LastExists(channels: seq<Channel>, i: nat) returns (k: nat)
    requires i < |channels|
    ensures k < |channels| && channels[k].name == channels[i].name && LastOfName(channels, k)
    decreases |channels| - i
  {
    k := i;
    if !LastOfName(channels, i) {
      var j :| i < j < |channels| && channels[j].name == channels[i].name;
      k := LastExists(channels, j);
    }
  }

  /** What is trusted is determined by the channels. */
  lemma SameTrust(channels: seq<Channel>, models: set<string>, a: Trust, b: Trust, i: nat, m: string)
    requires TrustFor(channels, models, a) && TrustFor(channels, models, b) && i < |channels| && m in models
    ensures TrustBit(a, channels[i].name, m) == TrustBit(b, channels[i].name, m)
  {
    var k := LastExists(channels, i);
    assert TrustIn(channels[k], models, a) && TrustIn(channels[k], models, b);
  }

  lemma {:induction false} FoldSame(local: Value, channels: seq<Channel>, a: Trust, b: Trust, f: Field, m: string)
    requires forall i :: 0 <= i < |channels| ==> TrustBit(a, channels[i].name, m) == TrustBit(b, channels[i].name, m)
    ensures Fold(local, channels, a, f, m) == Fold(local, channels, b, f, m)
  {
    if channels != [] { FoldSame(local, channels[..|channels| - 1], a, b, f, m); }
  }

  /** The trust tables of two runs on the same prices. */
  ghost predicate SameRun(x: Input, y: Input, models: set<string>) {
    && x.local == y.local && x.channels == y.channels
    && TrustFor(x.channels, models, x.trust) && TrustFor(x.channels, models, y.trust)
    && forall m :: NamedBy(x.channels, m) ==> m in models
  }

  lemma SameCell(x: Input, y: Input, models: set<string>, f: Field, m: string)
    requires SameRun(x, y, models)
    ensures Cell(x, f, m) == Cell(y, f, m)
  {
    if m in models {
      forall i | 0 <= i < |x.channels|
        ensures TrustBit(x.trust, x.channels[i].name, m) == TrustBit(y.trust, x.channels[i].name, m)
      {
        SameTrust(x.channels, models, x.trust, y.trust, i, m);
      }
      FoldSame(x.Mine(f, m), x.channels, x.trust, y.trust, f, m);
    } else {
      if Cell(x, f, m).Some? { CellIsNamed(x, f, m); }
      if Cell(y, f, m).Some? { CellIsNamed(y, f, m); }
    }
  }

  lemma SameStay(x: Input, y: Input, models: set<string>, n: string)
    requires SameRun(x, y, models) && Stays(x, n)
    ensures Stays(y, n)
  {
    var m, f :| StaysFor(x, n, m, f);
    SameCell(x, y, models, f, m);
    assert StaysFor(y, n, m, f);
  }

  lemma SameStaying(x: Input, y: Input, models: set<string>)
    requires SameRun(x, y, models)
    ensures Staying(x) == Staying(y)
  {
    forall n | n in Names(x.channels) ensures Stays(x, n) <==> Stays(y, n) {
      if Stays(x, n) { SameStay(x, y, models, n); }
      if Stays(y, n) { SameStay(y, x, models, n); }
    }
  }

  lemma SameFinal(x: Input, y: Input, models: set<string>, f: Field, m: string)
    requires SameRun(x, y, models)
    ensures Final(x, f, m) == Final(y, f, m)
  {
    SameCell(x, y, models, f, m);
    SameStaying(x, y, models);
  }

  /** The result is determined by the prices: the order in which maps are traversed does not matter. */
  lemma OrderIsIrrelevant(x: Input, y: Input, models: set<string>, a: Differences, b: Differences)
    requires SameRun(x, y, models) && Exactly(x, a) && Exactly(y, b)
    ensures a == b
  {
    forall m, f ensures At(a, m, f) == At(b, m, f) {
      SameFinal(x, y, models, f, m);
      assert At(a, m, f) == Final(x, f, m) && At(b, m, f) == Final(y, f, m);
    }
    SameRows(a, b);
    SameRows(b, a);
  }

  lemma SameRows(a: Differences, b: Differences)
    requires NoEmpty(a) && forall m, f :: At(a, m, f) == At(b, m, f)
    ensures forall m :: m in a ==> m in b && a[m] == b[m]
  {
    forall m | m in a ensures m in b && a[m] == b[m] {
      var f :| f in a[m];
      assert At(a, m, f).Some?;
      forall g ensures g in a[m] <==> g in b[m] { assert At(a, m, g) == At(b, m, g); }
      forall g | g in a[m] ensures a[m][g] == b[m][g] { assert At(a, m, g) == At(b, m, g); }
    }
  }

  // ---------------------------------------------------------------------------
  // What the result means

  predicate DistinctNames(channels: seq<Channel>) {
    forall i, j :: 0 <= i < j < |channels| ==> channels[i].name != channels[j].name
  }

  /** The channel supplies a value of its own that is not the local one. */
  predicate Differs(x: Input, c: Channel, f: Field, m: string) {
    var up := Lookup(c.data, f, m);
    up.Some? && Marks(up.value) && !Equal(x.Mine(f, m), up.value)
  }

  lemma {:induction false} OwnValues(local: Value, channels: seq<Channel>, trust: Trust, k: nat, f: Field, m: string)
    requires DistinctNames(channels) && k < |channels|
    ensures var c, t := channels[k], Fold(local, channels, trust, f, m);
            && c.name in t.upstreams && t.upstreams[c.name] == Shown(local, Lookup(c.data, f, m))
            && c.name in t.confidence && t.confidence[c.name] == TrustBit(trust, c.name, m)
  {
    if k < |channels| - 1 { OwnValues(local, channels[..|channels| - 1], trust, k, f, m); }
  }

  /** What a listed cell shows for a channel. */
  lemma CellShows(x: Input, c: Channel, f: Field, m: string)
    requires DistinctNames(x.channels) && c in x.channels && Cell(x, f, m).Some?
    ensures var item := Cell(x, f, m).value;
            && c.name in item.upstreams && item.upstreams[c.name] == Shown(x.Mine(f, m), Lookup(c.data, f, m))
            && c.name in item.confidence && item.confidence[c.name] == TrustBit(x.trust, c.name, m)
  {
    var k :| 0 <= k < |x.channels| && x.channels[k] == c;
    OwnValues(x.Mine(f, m), x.channels, x.trust, k, f, m);
  }

  lemma DifferingCell(x: Input, c: Channel, f: Field, m: string)
    requires DistinctNames(x.channels) && c in x.channels && Differs(x, c, f, m)
    ensures Cell(x, f, m).Some? && StaysFor(x, c.name, m, f)
  {
    FoldFlags(x.Mine(f, m), x.channels, x.trust, f, m);
    CellShows(x, c, f, m);
  }

  /** A channel is reported if and only if it differs in some cell. */
  lemma StaysExactly(x: Input, c: Channel)
    requires DistinctNames(x.channels) && c in x.channels
    ensures c.name in Staying(x) <==> exists m, f :: Differs(x, c, f, m)
  {
    if Stays(x, c.name) {
      var m, f :| StaysFor(x, c.name, m, f);
      CellShows(x, c, f, m);
      assert Differs(x, c, f, m);
    }
    if m, f :| Differs(x, c, f, m) { DifferingCell(x, c, f, m); }
  }

  /** A cell without a difference that is reported all the same: some channel supplies null or the text
      `same` where there is a local value, and a reported channel has nothing to say here. */
  ghost predicate Leftover(x: Input, reported: set<string>, f: Field, m: string) {
    var v := x.Mine(f, m);
    && !v.Null? && (exists c :: c in x.channels && Flags(v, Lookup(c.data, f, m)))
    && exists c :: c in x.channels && c.name in reported && Shown(v, Lookup(c.data, f, m)).Null?
  }

  lemma SpeaksWith(item: Item, kept: set<string>, n: string)
    requires n in kept && n in item.upstreams && item.upstreams[n] != SAME
    ensures Pruned(Some(item), kept).Some?
  {
    var p := PrunedItem(item, kept);
    assert n in p.upstreams && p.upstreams[n] != SAME;
  }

  lemma Speaker(item: Item, kept: set<string>) returns (n: string)
    requires Pruned(Some(item), kept).Some?
    ensures n in kept && n in item.upstreams && item.upstreams[n] != SAME
  {
    var p := PrunedItem(item, kept);
    n :| n in p.upstreams && p.upstreams[n] != SAME;
  }

  /** The channel that keeps a cell alive. */
  lemma Witness(x: Input, kept: set<string>, f: Field, m: string) returns (c: Channel)
    requires DistinctNames(x.channels) && Pruned(Cell(x, f, m), kept).Some?
    ensures c in x.channels && c.name in kept && Shown(x.Mine(f, m), Lookup(c.data, f, m)) != SAME
  {
    var n := Speaker(Cell(x, f, m).value, kept);
    FoldNames(x.Mine(f, m), x.channels, x.trust, f, m);
    c :| c in x.channels && c.name == n;
    CellShows(x, c, f, m);
  }

  lemma ReportedFor(x: Input, kept: set<string>, f: Field, m: string)
    requires DistinctNames(x.channels) && Pruned(Cell(x, f, m), kept).Some?
    ensures (exists c :: c in x.channels && Differs(x, c, f, m)) || Leftover(x, kept, f, m)
  {
    var c := Witness(x, kept, f, m);
    var a := Prompted(x, f, m);
    if Shown(x.Mine(f, m), Lookup(c.data, f, m)) != Null { assert Differs(x, c, f, m); }
  }

  lemma KeptAlive(x: Input, kept: set<string>, f: Field, m: string, c: Channel)
    requires DistinctNames(x.channels) && c in x.channels && c.name in kept && Cell(x, f, m).Some?
    requires Shown(x.Mine(f, m), Lookup(c.data, f, m)) != SAME
    ensures Pruned(Cell(x, f, m), kept).Some?
  {
    CellShows(x, c, f, m);
    SpeaksWith(Cell(x, f, m).value, kept, c.name);
  }

  lemma LeftoverIsKept(x: Input, kept: set<string>, f: Field, m: string)
    requires DistinctNames(x.channels) && Leftover(x, kept, f, m)
    ensures Pruned(Cell(x, f, m), kept).Some?
  {
    FoldFlags(x.Mine(f, m), x.channels, x.trust, f, m);
    var c :| c in x.channels && c.name in kept && Shown(x.Mine(f, m), Lookup(c.data, f, m)).Null?;
    KeptAlive(x, kept, f, m, c);
  }

  /** A cell is reported if and only if some channel differs in it, or it is a leftover. */
  lemma CellExactly(x: Input, f: Field, m: string)
    requires DistinctNames(x.channels)
    ensures Final(x, f, m).Some?
       <==> (exists c :: c in x.channels && Differs(x, c, f, m)) || Leftover(x, Staying(x), f, m)
  {
    var kept := Staying(x);
    if c :| c in x.channels && Differs(x, c, f, m) {
      StaysExactly(x, c);
      DifferingCell(x, c, f, m);
      KeptAlive(x, kept, f, m, c);
    } else if Leftover(x, kept, f, m) {
      LeftoverIsKept(x, kept, f, m);
    }
    if Final(x, f, m).Some? { ReportedFor(x, kept, f, m); }
  }

  // ---------------------------------------------------------------------------
  // Proper prices

  /** Every value is a number or a text, and no text is the marker. */
  predicate Proper(data: Data) {
    forall f, m :: f in data && m in data[f] ==> Marks(data[f][m])
  }

  predicate NoNulls(data: Data) {
    forall f, m :: f in data && m in data[f] ==> !data[f][m].Null?
  }

  predicate ProperInput(x: Input) {
    DistinctNames(x.channels) && NoNulls(x.local) && forall c :: c in x.channels ==> Proper(c.data)
  }

  /** The channel supplies a value where there is none, or one unequal to the local one. */
  predicate Supplies(x: Input, c: Channel, f: Field, m: string) {
    var mine, up := Lookup(x.local, f, m), Lookup(c.data, f, m);
    up.Some? && (mine.None? || !Equal(mine.value, up.value))
  }

  lemma SuppliesDiffers(x: Input, c: Channel, f: Field, m: string)
    requires NoNulls(x.local) && Proper(c.data)
    ensures Supplies(x, c, f, m) <==> Differs(x, c, f, m)
    ensures Flags(x.Mine(f, m), Lookup(c.data, f, m)) ==> Differs(x, c, f, m)
  {
  }

  lemma NoLeftovers(x: Input, reported: set<string>, f: Field, m: string)
    requires ProperInput(x)
    ensures Leftover(x, reported, f, m) ==> exists c :: c in x.channels && Differs(x, c, f, m)
  {
    if c :| c in x.channels && Flags(x.Mine(f, m), Lookup(c.data, f, m)) { SuppliesDiffers(x, c, f, m); }
  }

  /** On proper prices a cell is reported if and only if some channel supplies a value that is absent
      locally or unequal to the local one. */
  lemma ProperCells(x: Input, f: Field, m: string)
    requires ProperInput(x)
    ensures Final(x, f, m).Some? <==> exists c :: c in x.channels && Supplies(x, c, f, m)
  {
    CellExactly(x, f, m);
    NoLeftovers(x, Staying(x), f, m);
    forall c | c in x.channels ensures Supplies(x, c, f, m) <==> Differs(x, c, f, m) { SuppliesDiffers(x, c, f, m); }
  }

  lemma SomewhereSupplies(x: Input, c: Channel)
    requires NoNulls(x.local) && Proper(c.data)
    ensures (exists m, f :: Differs(x, c, f, m)) <==> exists g, k :: Supplies(x, c, g, k)
  {
    if g, k :| Supplies(x, c, g, k) { SuppliesDiffers(x, c, g, k); }
    if k, g :| Differs(x, c, g, k) { SuppliesDiffers(x, c, g, k); }
  }

  lemma PrunedShows(item: Item, kept: set<string>, n: string)
    requires n in item.upstreams && n in item.confidence
    ensures var p := PrunedItem(item, kept);
            && p.current == item.current && (n in p.upstreams <==> n in kept) && (n in p.confidence <==> n in kept)
            && (n in kept ==> p.upstreams[n] == item.upstreams[n] && p.confidence[n] == item.confidence[n])
  {
  }

  /** The channels a reported cell lists are exactly those that differ somewhere, each with its own value
      and trust. */
  lemma ReportedChannels(x: Input, models: set<string>, f: Field, m: string, c: Channel)
    requires ProperInput(x) && TrustFor(x.channels, models, x.trust) && m in models
    requires Final(x, f, m).Some? && c in x.channels
    ensures var item := Final(x, f, m).value;
            && item.current == x.Mine(f, m)
            && (c.name in item.upstreams <==> exists g, k :: Supplies(x, c, g, k))
            && (c.name in item.upstreams ==>
                  && item.upstreams[c.name] == Shown(x.Mine(f, m), Lookup(c.data, f, m))
                  && c.name in item.confidence && item.confidence[c.name] == Trusted(c.data, m))
  {
    StaysExactly(x, c);
    SomewhereSupplies(x, c);
    CellShows(x, c, f, m);
    PrunedShows(Cell(x, f, m).value, Staying(x), c.name);
    var k :| 0 <= k < |x.channels| && x.channels[k] == c;
    assert LastOfName(x.channels, k);
    assert TrustIn(c, models, x.trust);
  }

  // ---------------------------------------------------------------------------
  // The same, with the comparison of values written out

  /** Two numbers at least a billionth apart, two different texts, or values of different kinds. */
  predicate Unequal(a: Value, b: Value) {
    match (a, b)
    case (Num(p), Num(q)) => p - q >= 0.000000001 || q - p >= 0.000000001
    case (Str(p), Str(q)) => p != q
    case (Null, Null) => false
    case _ => true
  }

  lemma EqualExactly(a: Value, b: Value)
    ensures Equal(a, b) <==> !Unequal(a, b)
  {
  }

  /** The channel supplies a value, and there is no local one or it is unequal to that. */
  predicate NewsIn(x: Input, c: Channel, f: Field, m: string) {
    && f in c.data && m in c.data[f]
    && (f in x.local && m in x.local[f] ==> Unequal(x.local[f][m], c.data[f][m]))
  }

  lemma SuppliesIsNews(x: Input, c: Channel, f: Field, m: string)
    ensures Supplies(x, c, f, m) <==> NewsIn(x, c, f, m)
  {
    if f in c.data && m in c.data[f] && f in x.local && m in x.local[f] {
      EqualExactly(x.local[f][m], c.data[f][m]);
    }
  }

  /** On proper prices a cell is reported if and only if some channel supplies a value that is missing locally
      or unequal to the local one. */
  lemma ReportedExactly(x: Input, f: Field, m: string)
    requires ProperInput(x)
    ensures Final(x, f, m).Some? <==> exists c :: c in x.channels && NewsIn(x, c, f, m)
  {
    ProperCells(x, f, m);
    forall c | c in x.channels ensures Supplies(x, c, f, m) <==> NewsIn(x, c, f, m) { SuppliesIsNews(x, c, f, m); }
  }

  lemma NewsSomewhere(x: Input, c: Channel)
    ensures (exists g, k :: Supplies(x, c, g, k)) <==> exists g, k :: NewsIn(x, c, g, k)
  {
    if g, k :| Supplies(x, c, g, k) { SuppliesIsNews(x, c, g, k); }
    if g, k :| NewsIn(x, c, g, k) { SuppliesIsNews(x, c, g, k); }
  }

  /** What is shown for a channel: the text `same` for a value that is not unequal to the local one and where
      neither side has a value, nothing where only the channel has none, and its own value otherwise. */
  predicate IsShown(x: Input, c: Channel, f: Field, m: string, v: Value) {
    var here, there := f in x.local && m in x.local[f], f in c.data && m in c.data[f];
    if there then
      if here && !Unequal(x.local[f][m], c.data[f][m]) then v == Str("same") else v == c.data[f][m]
    else if here then v == Null
    else v == Str("same")
  }

  lemma ShownExactly(x: Input, c: Channel, f: Field, m: string)
    requires NoNulls(x.local) && Proper(c.data)
    ensures IsShown(x, c, f, m, Shown(x.Mine(f, m), Lookup(c.data, f, m)))
  {
    EqualExactly(x.Mine(f, m), if Lookup(c.data, f, m).Some? then Lookup(c.data, f, m).value else Null);
  }

  /** The price 37.5 with completion ratio 1, up to a billionth, is a placeholder and not trusted. */
  predicate IsPlaceholder(data: Data, m: string) {
    && ModelRatio in data && m in data[ModelRatio] && CompletionRatio in data && m in data[CompletionRatio]
    && data[ModelRatio][m].Num? && data[CompletionRatio][m].Num?
    && 37.5 - 0.000000001 < data[ModelRatio][m].r < 37.5 + 0.000000001
    && 1.0 - 0.000000001 < data[CompletionRatio][m].r < 1.0 + 0.000000001
  }

  lemma TrustedExactly(data: Data, m: string)
    ensures Trusted(data, m) <==> !IsPlaceholder(data, m)
  {
  }

  /** A reported cell shows the local value, and lists exactly the channels that have news somewhere, each with
      what it shows here and whether it is trusted. */
  lemma ReportedCell(x: Input, models: set<string>, f: Field, m: string, c: Channel)
    requires ProperInput(x) && TrustFor(x.channels, models, x.trust) && m in models
    requires Final(x, f, m).Some? && c in x.channels
    ensures var item := Final(x, f, m).value;
            && item.current == (if f in x.local && m in x.local[f] then x.local[f][m] else Null)
            && (c.name in item.upstreams <==> exists g, k :: NewsIn(x, c, g, k))
            && (c.name in item.upstreams ==>
                  && IsShown(x, c, f, m, item.upstreams[c.name])
                  && c.name in item.confidence && item.confidence[c.name] == !IsPlaceholder(c.data, m))
  {
    ReportedChannels(x, models, f, m, c);
    NewsSomewhere(x, c);
    ShownExactly(x, c, f, m);
    TrustedExactly(c.data, m);
  }

  /** A channel that differs in no cell is not reported in any, whatever it supplies. */
  lemma NothingToReport(x: Input, c: Channel, f: Field, m: string)
    requires x.channels == [c] && forall g, k :: !Differs(x, c, g, k)
    ensures Final(x, f, m).None?
  {
    CellExactly(x, f, m);
    StaysExactly(x, c);
  }

  /** Without these conditions a difference can go unreported: a null against a local price. */
  lemma NullIsLost(name: string, model: string, trust: Trust)
    ensures var c := Channel(name, map[ModelPrice := map[model := Null]]);
            var x := Input(map[ModelPrice := map[model := Num(1.0)]], [c], trust);
            Supplies(x, c, ModelPrice, model) && Final(x, ModelPrice, model).None?
  {
    var c := Channel(name, map[ModelPrice := map[model := Null]]);
    NothingToReport(Input(map[ModelPrice := map[model := Num(1.0)]], [c], trust), c, ModelPrice, model);
  }

  /** And so can the text `same` where there is no local value. */
  lemma MarkerIsLost(name: string, model: string, trust: Trust)
    ensures var c := Channel(name, map[BillingMode := map[model := SAME]]);
            var x := Input(map[], [c], trust);
            Supplies(x, c, BillingMode, model) && Final(x, BillingMode, model).None?
  {
    var c := Channel(name, map[BillingMode := map[model := SAME]]);
    NothingToReport(Input(map[], [c], trust), c, BillingMode, model);
  }

  /** Nor is every reported cell a difference: next to a null, a channel that differs in another cell keeps
      this one alive. */
  lemma LeftoverIsReported(name: string, m1: string, m2: string, trust: Trust)
    requires m1 != m2
    ensures var c := Channel(name, map[ModelPrice := map[m1 := Null, m2 := Num(2.0)]]);
            var x := Input(map[ModelPrice := map[m1 := Num(1.0)]], [c], trust);
            !Differs(x, c, ModelPrice, m1) && Leftover(x, Staying(x), ModelPrice, m1) && Final(x, ModelPrice, m1).Some?
  {
    var c := Channel(name, map[ModelPrice := map[m1 := Null, m2 := Num(2.0)]]);
    var x := Input(map[ModelPrice := map[m1 := Num(1.0)]], [c], trust);
    NullBesideDifference(x, c, m1, m2);
  }

  lemma NullBesideDifference(x: Input, c: Channel, m1: string, m2: string)
    requires x.channels == [c] && Lookup(c.data, ModelPrice, m1) == Some(Null) && x.Mine(ModelPrice, m1) == Num(1.0)
    requires Lookup(c.data, ModelPrice, m2) == Some(Num(2.0)) && x.Mine(ModelPrice, m2) == Null
    ensures !Differs(x, c, ModelPrice, m1) && Leftover(x, Staying(x), ModelPrice, m1) && Final(x, ModelPrice, m1).Some?
  {
    assert Differs(x, c, ModelPrice, m2);
    StaysExactly(x, c);
    assert Flags(x.Mine(ModelPrice, m1), Lookup(c.data, ModelPrice, m1));
    assert Leftover(x, Staying(x), ModelPrice, m1);
    CellExactly(x, ModelPrice, m1);
  }
}
