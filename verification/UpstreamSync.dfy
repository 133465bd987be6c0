/** Detecting, staging and applying the models an upstream offers
    (controller/channel_upstream_update.go). A channel stores its models as one comma-joined text. */
module UpstreamSync {
  import opened Text
  import opened ModelNames

  /** `regexp.MatchString(pattern, name)`, false for a pattern that does not compile. */
  type Matcher = (string, string) -> bool

  const REGEX_PREFIX := "regex:"

  predicate IsRegexRule(rule: string) { REGEX_PREFIX <= rule }

  predicate Ignores(rule: string, name: string, m: Matcher) {
    if IsRegexRule(rule) then m(Trim(rule[|REGEX_PREFIX|..], GoSpace), name) else rule == name
  }

  predicate Hidden(rules: seq<string>, name: string, m: Matcher) {
    exists r :: r in rules && Ignores(r, name, m)
  }

  predicate IsComma(c: char) { c == ',' }

  /** `Channel.GetModels` */
  function ModelList(text: string): seq<string> {
    if text == "" then [] else Split(Trim(text, IsComma), ',')
  }

  function Local(text: string): seq<string> { Normalize(ModelList(text)) }

  /** The part of a stored channel that these operations read and write. */
  datatype Record = Record(
    models: string,
    ignored: seq<string>,
    detected: seq<string>,
    removed: seq<string>,
    lastCheck: int)

  /** What the upstream offers and how this channel renames it. */
  datatype Upstream = Upstream(models: seq<string>, mapping: map<string, string>, matcher: Matcher)

  /** An upstream name nothing local covers and no ignore rule hides. */
  predicate Wanted(local: seq<string>, rules: seq<string>, up: Upstream, x: string) {
    x !in local && x !in up.mapping.Values && !Hidden(rules, x, up.matcher)
  }

  predicate Stale(up: Upstream, x: string) {
    x !in up.mapping.Keys && x !in Normalize(up.models)
  }

  function WantedIn(local: seq<string>, rules: seq<string>, up: Upstream): string -> bool {
    x => Wanted(local, rules, up, x)
  }

  function StaleIn(up: Upstream): string -> bool { x => Stale(up, x) }

  /** `collectPendingUpstreamModelChangesFromModels`: the names to add ... */
  function PendingAdd(models: seq<string>, ignored: seq<string>, up: Upstream): seq<string> {
    Normalize(Filter(Normalize(up.models), WantedIn(Normalize(models), Normalize(ignored), up)))
  }

  /** ... and the names to remove. */
  function PendingRemove(models: seq<string>, up: Upstream): seq<string> {
    Normalize(Filter(Normalize(models), StaleIn(up)))
  }

  lemma PendingAddFacts(models: seq<string>, ignored: seq<string>, up: Upstream)
    ensures var r := PendingAdd(models, ignored, up);
            Normal(r)
            && forall x :: x in r <==> x in Normalize(up.models)
                                       && Wanted(Normalize(models), Normalize(ignored), up, x)
  {
    var p := WantedIn(Normalize(models), Normalize(ignored), up);
    NormalizeFacts(up.models);
    FilterNormal(Normalize(up.models), p);
    NormalizeNormal(Filter(Normalize(up.models), p));
  }

  lemma PendingRemoveFacts(models: seq<string>, up: Upstream)
    ensures var r := PendingRemove(models, up);
            Normal(r) && forall x :: x in r <==> x in Normalize(models) && Stale(up, x)
  {
    NormalizeFacts(models);
    FilterNormal(Normalize(models), StaleIn(up));
    NormalizeNormal(Filter(Normalize(models), StaleIn(up)));
  }

  /** A name is staged for addition if and only if the upstream offers it, it is not local, nothing is renamed
      to it, it is not itself on the ignore list, and no pattern on the ignore list matches it. */
  lemma PendingAddExactly(models: seq<string>, ignored: seq<string>, up: Upstream, x: string)
    ensures x in PendingAdd(models, ignored, up)
       <==> && x in Normalize(up.models) && x !in Normalize(models) && x !in up.mapping.Values
            && (x in Normalize(ignored) ==> "regex:" <= x)
            && (forall p :: "regex:" + p in Normalize(ignored) ==> !up.matcher(Trim(p, GoSpace), x))
  {
    PendingAddFacts(models, ignored, up);
    HiddenExactly(Normalize(ignored), x, up.matcher);
  }

  lemma HiddenExactly(rules: seq<string>, x: string, m: Matcher)
    ensures Hidden(rules, x, m)
       <==> (x in rules && !("regex:" <= x)) || exists p :: "regex:" + p in rules && m(Trim(p, GoSpace), x)
  {
    if Hidden(rules, x, m) {
      var r :| r in rules && Ignores(r, x, m);
      if "regex:" <= r {
        var p := r[6..];
        assert r == "regex:" + p;
      }
    }
    if p :| "regex:" + p in rules && m(Trim(p, GoSpace), x) {
      var r := "regex:" + p;
      assert r[6..] == p;
      assert Ignores(r, x, m);
    }
    if x in rules && !("regex:" <= x) { assert Ignores(x, x, m); }
  }

  /** A name is staged for removal if and only if it is local, is not renamed to another and is not offered. */
  lemma PendingRemoveExactly(models: seq<string>, up: Upstream, x: string)
    ensures x in PendingRemove(models, up)
       <==> x in Normalize(models) && x !in up.mapping.Keys && x !in Normalize(up.models)
  {
    PendingRemoveFacts(models, up);
  }

  /** What one check stores. */
  datatype CheckMode = CheckMode(force: bool, allowAutoApply: bool, autoSync: bool, minInterval: int)

  function Checked(c: Record, mode: CheckMode, fetched: Option<seq<string>>,
                   mapping: map<string, string>, matcher: Matcher, now: int): Record
  {
    if !mode.force && c.lastCheck > 0 && now - c.lastCheck < mode.minInterval then c
    else match fetched
      case None => c.(lastCheck := now)
      case Some(models) =>
        var up := Upstream(models, mapping, matcher);
        var add := PendingAdd(ModelList(c.models), c.ignored, up);
        var remove := PendingRemove(ModelList(c.models), up);
        if mode.allowAutoApply && mode.autoSync && |add| > 0 then
          var merged := AutoMerged(c, up);
          c.(models := if |merged| > |Local(c.models)| then Join(merged, ',') else c.models,
             detected := [], removed := remove, lastCheck := now)
        else
          c.(detected := add, removed := remove, lastCheck := now)
  }

  function AutoMerged(c: Record, up: Upstream): seq<string> {
    Merge(Local(c.models), PendingAdd(ModelList(c.models), c.ignored, up))
  }

  /** What a check stores, case by case: nothing within the interval, unless forced; only the time when the
      upstream did not answer; otherwise the names to remove, and the names to add either staged or, with
      automatic sync, appended to the models. */
  lemma CheckedExactly(c: Record, mode: CheckMode, fetched: Option<seq<string>>,
                       mapping: map<string, string>, matcher: Matcher, now: int)
    ensures var n := Checked(c, mode, fetched, mapping, matcher, now);
            && n.ignored == c.ignored
            && (!mode.force && 0 < c.lastCheck && now < c.lastCheck + mode.minInterval ==> n == c)
            && (mode.force || c.lastCheck <= 0 || now >= c.lastCheck + mode.minInterval ==>
                  && n.lastCheck == now
                  && (fetched.None? ==> n.models == c.models && n.detected == c.detected && n.removed == c.removed)
                  && (fetched.Some? ==>
                        var up := Upstream(fetched.value, mapping, matcher);
                        var add := PendingAdd(ModelList(c.models), c.ignored, up);
                        && n.removed == PendingRemove(ModelList(c.models), up)
                        && (if mode.allowAutoApply && mode.autoSync && add != [] then
                              n.detected == [] && n.models == Join(Local(c.models) + add, ',')
                            else n.detected == add && n.models == c.models)))
  {
    if fetched.Some? {
      var up := Upstream(fetched.value, mapping, matcher);
      var l, add := Local(c.models), PendingAdd(ModelList(c.models), c.ignored, up);
      PendingAddFacts(ModelList(c.models), c.ignored, up);
      NormalizeFacts(ModelList(c.models));
      NormalizeNormal(l);
      NormalizeNormal(add);
      FilterAll(add, Outside(l));
      assert AutoMerged(c, up) == l + add;
    }
  }

  /** A forced check without auto-apply, as "detect" runs it. */
  function Detected(c: Record, up: Upstream, now: int): Record {
    Checked(c, CheckMode(true, false, false, 0), Some(up.models), up.mapping, up.matcher, now)
  }

  /** What an apply request selects out of the staged changes. */
  datatype Selection = Selection(add: seq<string>, ignore: seq<string>, remove: seq<string>)

  function Select(detected: seq<string>, removed: seq<string>,
                  addIn: seq<string>, ignoreIn: seq<string>, removeIn: seq<string>): Selection
  {
    var add := Intersect(addIn, Normalize(detected));
    Selection(add,
              Intersect(ignoreIn, Normalize(detected)),
              Subtract(Intersect(removeIn, Normalize(removed)), add))
  }

  function NextModels(models: string, sel: Selection): seq<string> {
    ApplySelected(Local(models), sel.add, sel.remove)
  }

  function NextText(models: string, sel: Selection): string {
    if Local(models) != NextModels(models, sel) then Join(NextModels(models, sel), ',') else models
  }

  function NextIgnored(ignored: seq<string>, sel: Selection): seq<string> {
    var merged := Merge(ignored, sel.ignore);
    if |sel.add| > 0 then Subtract(merged, sel.add) else merged
  }

  function StillToAdd(detected: seq<string>, sel: Selection): seq<string> {
    Subtract(Normalize(detected), sel.add + sel.ignore)
  }

  function StillToRemove(removed: seq<string>, sel: Selection): seq<string> {
    Subtract(Normalize(removed), sel.remove)
  }

  /** `applyChannelUpstreamModelUpdates` */
  function Applied(c: Record, sel: Selection, now: int): Record {
    Record(NextText(c.models, sel), NextIgnored(c.ignored, sel),
           StillToAdd(c.detected, sel), StillToRemove(c.removed, sel), now)
  }

  /** The "apply all" pass over one channel. */
  function ApplyAll(c: Record, now: int): Record {
    var add, remove := Normalize(c.detected), Normalize(c.removed);
    if |add| == 0 && |remove| == 0 then c else Applied(c, Select(c.detected, c.removed, add, [], remove), now)
  }

  /** A stored channel as the program updates it in place. */
  class Channel {
    var models: string
    var ignored: seq<string>
    var detected: seq<string>
    var removed: seq<string>
    var lastCheck: int
    var autoSync: bool
    const mapping: map<string, string>

    constructor (models: string, mapping: map<string, string>, autoSync: bool)
      ensures this.models == models && this.mapping == mapping && this.autoSync == autoSync
      ensures ignored == [] && detected == [] && removed == [] && lastCheck == 0
    {
      this.models, this.mapping, this.autoSync := models, mapping, autoSync;
      ignored, detected, removed, lastCheck := [], [], [], 0;
    }

    function Stored(): Record
      reads this
    {
      Record(models, ignored, detected, removed, lastCheck)
    }

    /** The check is skipped when the last one is too recent. */
    predicate Recent(force: bool, minInterval: int, now: int)
      reads this
    {
      !force && lastCheck > 0 && now - lastCheck < minInterval
    }

    /** `checkAndPersistChannelUpstreamModelUpdates`; `saves` says whether the database takes the update. */
    method Check(force: bool, allowAutoApply: bool, minInterval: int,
                 fetched: Option<seq<string>>, matcher: Matcher, now: int, saves: bool)
      returns (modelsChanged: bool, autoAdded: int, failed: bool)
      modifies this
      ensures failed <==> !old(Recent(force, minInterval, now)) && (!saves || fetched.None?)
      ensures saves ==> Stored() == Checked(old(Stored()), CheckMode(force, allowAutoApply, autoSync, minInterval),
                                            fetched, mapping, matcher, now)
      ensures !saves ==> Stored() == old(Stored()) && !modelsChanged
      ensures autoSync == old(autoSync)
      ensures modelsChanged ==>
                && fetched.Some?
                && var merged := AutoMerged(old(Stored()), Upstream(fetched.value, mapping, matcher));
                   models == Join(merged, ',') && autoAdded == |merged| - |Local(old(models))| > 0
      ensures !modelsChanged ==> models == old(models) && (saves ==> autoAdded == 0)
    {
      modelsChanged, autoAdded, failed := false, 0, false;
      if !force && lastCheck > 0 && now - lastCheck < minInterval { return; }
      if fetched.None? {
        if saves { lastCheck := now; }
        return false, 0, true;
      }
      var up := Upstream(fetched.value, mapping, matcher);
      var list := ModelList(models);
      var add := PendingAdd(list, ignored, up);
      var remove := PendingRemove(list, up);
      var newModels, newDetected := models, add;
      if allowAutoApply && autoSync && |add| > 0 {
        var origin := Normalize(list);
        var merged := MergeModelNames(origin, add);
        if |merged| > |origin| {
          newModels := Join(merged, ',');
          autoAdded := |merged| - |origin|;
          modelsChanged := true;
        }
        newDetected := [];
      }
      if !saves { return false, autoAdded, true; }
      models, detected, removed, lastCheck := newModels, newDetected, remove, now;
    }

    /** `applyChannelUpstreamModelUpdates`; a save that fails leaves what is stored as it was. */
    method Apply(addIn: seq<string>, ignoreIn: seq<string>, removeIn: seq<string>, now: int, saves: bool)
      returns (sel: Selection, modelsChanged: bool, failed: bool)
      modifies this
      ensures failed == !saves && autoSync == old(autoSync)
      ensures sel == Select(old(detected), old(removed), addIn, ignoreIn, removeIn)
      ensures failed ==> Stored() == old(Stored()) && !modelsChanged
      ensures !failed ==> models == NextText(old(models), sel) && ignored == NextIgnored(old(ignored), sel)
      ensures !failed ==> detected == StillToAdd(old(detected), sel) && removed == StillToRemove(old(removed), sel)
      ensures !failed ==> lastCheck == now && (!modelsChanged ==> models == old(models))
    {
      sel := Choose(addIn, ignoreIn, removeIn);
      modelsChanged, failed := false, !saves;
      if failed { return; }
      modelsChanged := Carry(sel, now);
    }

    /** Carries out a selection. */
    method Carry(sel: Selection, now: int) returns (modelsChanged: bool)
      modifies this`models, this`ignored, this`detected, this`removed, this`lastCheck
      ensures models == NextText(old(models), sel) && ignored == NextIgnored(old(ignored), sel)
      ensures detected == StillToAdd(old(detected), sel) && removed == StillToRemove(old(removed), sel)
      ensures lastCheck == now && (!modelsChanged ==> models == old(models))
    {
      modelsChanged := UpdateModels(sel);
      UpdateIgnored(sel);
      UpdatePending(sel);
      lastCheck := now;
    }

    method UpdateModels(sel: Selection) returns (changed: bool)
      modifies this`models
      ensures models == NextText(old(models), sel)
      ensures !changed ==> models == old(models)
    {
      var origin := Normalize(ModelList(models));
      var next := ApplySelected(origin, sel.add, sel.remove);
      changed := origin != next;
      if changed {
        models := Join(next, ',');
      }
    }

    method UpdatePending(sel: Selection)
      modifies this`detected, this`removed
      ensures detected == StillToAdd(old(detected), sel)
      ensures removed == StillToRemove(old(removed), sel)
    {
      detected := Subtract(Normalize(detected), sel.add + sel.ignore);
      removed := Subtract(Normalize(removed), sel.remove);
    }

    /** What an apply selects: of what is staged, exactly what was asked for, a removal giving way to an
        addition of the same name. */
    method Choose(addIn: seq<string>, ignoreIn: seq<string>, removeIn: seq<string>) returns (sel: Selection)
      ensures sel == Select(detected, removed, addIn, ignoreIn, removeIn)
      ensures Normal(sel.add) && Normal(sel.ignore) && Normal(sel.remove)
      ensures forall x :: x in sel.add <==> x in Normalize(addIn) && x in Normalize(detected)
      ensures forall x :: x in sel.ignore <==> x in Normalize(ignoreIn) && x in Normalize(detected)
      ensures forall x :: x in sel.remove <==> x in Normalize(removeIn) && x in Normalize(removed) && x !in sel.add
    {
      var pendingAdd, pendingRemove := Normalize(detected), Normalize(removed);
      var add := Intersect(addIn, pendingAdd);
      var ignore := Intersect(ignoreIn, pendingAdd);
      var remove := Subtract(Intersect(removeIn, pendingRemove), add);
      sel := Selection(add, ignore, remove);
      SelectFacts(detected, removed, addIn, ignoreIn, removeIn);
    }

    method UpdateIgnored(sel: Selection)
      modifies this`ignored
      ensures ignored == NextIgnored(old(ignored), sel)
    {
      ignored := MergeModelNames(ignored, sel.ignore);
      if |sel.add| > 0 {
        ignored := Subtract(ignored, sel.add);
      }
    }
  }

  // ---------------------------------------------------------------------------
  // The stored text

  lemma LocalFacts(text: string)
    ensures Normal(Local(text)) && forall x :: x in Local(text) ==> ',' !in x
  {
    var list := ModelList(text);
    NormalizeFacts(list);
    forall x | x in Local(text) ensures ',' !in x {
      TrimNamesMembers(list, x);
      var y :| y in list && x == Trim(y, GoSpace);
      if ',' in x { TrimMembers(y, GoSpace, ','); }
    }
  }

  /** Names written to the text are read back, as long as none holds a comma. */
  lemma JoinReadsBack(names: seq<string>)
    requires Normal(names) && forall x :: x in names ==> ',' !in x
    ensures Local(Join(names, ',')) == names
  {
    NormalizeNormal(names);
    if names != [] {
      var t := Join(names, ',');
      JoinEnds(names, ',');
      TrimPadded("", t, "", IsComma);
      assert "" + t + "" == t;
      SplitJoin(names, ',');
    }
  }

  // ---------------------------------------------------------------------------
  // Staged apply

  /** A staged apply does what was staged and selected, and nothing else. */
  lemma ApplyIsConservative(c: Record, addIn: seq<string>, ignoreIn: seq<string>, removeIn: seq<string>)
    ensures var sel := Select(c.detected, c.removed, addIn, ignoreIn, removeIn);
            var origin, next := Local(c.models), NextModels(c.models, sel);
            && (forall x :: x in sel.add ==> x in Normalize(c.detected) && x in Normalize(addIn))
            && (forall x :: x in sel.remove ==> x in Normalize(c.removed) && x !in sel.add)
            && next == Filter(origin, Outside(sel.remove)) + Filter(sel.add, Outside(origin))
  {
    var sel := Select(c.detected, c.removed, addIn, ignoreIn, removeIn);
    SelectFacts(c.detected, c.removed, addIn, ignoreIn, removeIn);
    LocalFacts(c.models);
    SelectedChanges(Local(c.models), sel.add, sel.remove);
    FilterSame(Local(c.models), KeptBy(sel.add, sel.remove), Outside(sel.remove));
  }

  lemma SelectFacts(detected: seq<string>, removed: seq<string>,
                    addIn: seq<string>, ignoreIn: seq<string>, removeIn: seq<string>)
    ensures var sel := Select(detected, removed, addIn, ignoreIn, removeIn);
            && Normal(sel.add) && Normal(sel.ignore) && Normal(sel.remove)
            && (forall x :: x in sel.add <==> x in Normalize(addIn) && x in Normalize(detected))
            && (forall x :: x in sel.ignore <==> x in Normalize(ignoreIn) && x in Normalize(detected))
            && (forall x :: x in sel.remove <==> x in Normalize(removeIn) && x in Normalize(removed) && x !in sel.add)
  {
    var sel := Select(detected, removed, addIn, ignoreIn, removeIn);
    NormalizeFacts(detected);
    NormalizeFacts(removed);
    NormalizeNormal(Normalize(detected));
    NormalizeNormal(Normalize(removed));
    IntersectFacts(addIn, Normalize(detected));
    IntersectFacts(ignoreIn, Normalize(detected));
    IntersectFacts(removeIn, Normalize(removed));
    NormalizeNormal(sel.add);
    NormalizeNormal(Intersect(removeIn, Normalize(removed)));
    SubtractFacts(Intersect(removeIn, Normalize(removed)), sel.add);
  }

  /** Nothing staged is lost: a staged addition is added, ignored or still staged, and the last
      excludes the other two; an added name does not stay on the ignore list. */
  lemma ApplyAccountsForAll(c: Record, addIn: seq<string>, ignoreIn: seq<string>, removeIn: seq<string>, x: string)
    ensures var sel := Select(c.detected, c.removed, addIn, ignoreIn, removeIn);
            && (x in Normalize(c.detected) <==> x in sel.add || x in sel.ignore || x in StillToAdd(c.detected, sel))
            && (x in StillToAdd(c.detected, sel) ==> x !in sel.add && x !in sel.ignore)
            && (x in Normalize(c.removed) && x !in sel.add <==>
                  (x in sel.remove || x in StillToRemove(c.removed, sel)) && x !in sel.add)
            && (x in NextIgnored(c.ignored, sel) <==>
                  (x in Normalize(c.ignored) || x in sel.ignore) && x !in sel.add)
  {
    var sel := Select(c.detected, c.removed, addIn, ignoreIn, removeIn);
    SelectFacts(c.detected, c.removed, addIn, ignoreIn, removeIn);
    StillFacts(c.detected, sel.add + sel.ignore);
    StillFacts(c.removed, sel.remove);
    NormalizeConcat(sel.add, sel.ignore, x);
    NormalizeNormal(sel.remove);
    NextIgnoredFacts(c.ignored, sel);
  }

  lemma StillFacts(staged: seq<string>, done: seq<string>)
    ensures forall x :: x in Subtract(Normalize(staged), done) <==> x in Normalize(staged) && x !in Normalize(done)
  {
    NormalizeFacts(staged);
    NormalizeNormal(Normalize(staged));
    SubtractFacts(Normalize(staged), done);
  }

  lemma NormalizeConcat(a: seq<string>, b: seq<string>, x: string)
    requires Normal(a) && Normal(b)
    ensures x in Normalize(a + b) <==> x in a || x in b
  {
    NormalizeFacts(a + b);
    TrimNamesClean(a + b);
    assert forall y :: y in a + b ==> IsName(y);
  }

  lemma NextIgnoredFacts(ignored: seq<string>, sel: Selection)
    requires Normal(sel.add) && Normal(sel.ignore)
    ensures Normal(NextIgnored(ignored, sel))
    ensures forall x :: x in NextIgnored(ignored, sel)
              <==> (x in Normalize(ignored) || x in sel.ignore) && x !in sel.add
  {
    var merged := Merge(ignored, sel.ignore);
    MergeFacts(ignored, sel.ignore);
    NormalizeNormal(sel.ignore);
    NormalizeNormal(merged);
    NormalizeNormal(sel.add);
    SubtractFacts(merged, sel.add);
  }

  // ---------------------------------------------------------------------------
  // Convergence

  lemma {:induction false} SelectAll(a: seq<string>, r: seq<string>)
    requires Normal(a) && Normal(r) && forall x :: x in r ==> x !in a
    ensures Select(a, r, a, [], r) == Selection(a, [], r)
  {
    NormalizeNormal(a);
    NormalizeNormal(r);
    FilterAll(a, Inside(a));
    FilterAll(r, Inside(r));
    FilterAll(r, Outside(a));
  }

  /** Detecting, applying everything and detecting again. */
  function Redetected(c: Record, up: Upstream, t1: int, t2: int, t3: int): Record {
    Detected(ApplyAll(Detected(c, up, t1), t2), up, t3)
  }

  /** What the channel would stage now. */
  function ToAdd(c: Record, up: Upstream): seq<string> { PendingAdd(ModelList(c.models), c.ignored, up) }

  function ToRemove(c: Record, up: Upstream): seq<string> { PendingRemove(ModelList(c.models), up) }

  /** An offered name that an ignore rule hides now, and that nothing hides once the rules spelled
      like the names to add are gone. */
  ghost predicate Exposed(c: Record, up: Upstream, x: string) {
    && x in Normalize(up.models) && x !in Local(c.models) && x !in up.mapping.Values
    && Hidden(Normalize(c.ignored), x, up.matcher)
    && !Hidden(Subtract(c.ignored, ToAdd(c, up)), x, up.matcher)
  }

  ghost predicate CommaFree(names: seq<string>) { forall x :: x in names ==> ',' !in x }

  lemma AddAndRemoveDisjoint(c: Record, up: Upstream)
    ensures Normal(ToAdd(c, up)) && Normal(ToRemove(c, up))
    ensures forall x :: x in ToRemove(c, up) ==> x !in ToAdd(c, up)
  {
    PendingAddFacts(ModelList(c.models), c.ignored, up);
    PendingRemoveFacts(ModelList(c.models), up);
  }

  /** The channel after applying everything that is staged. */
  lemma ApplyAllOf(d: Record, t: int)
    requires Normal(d.detected) && Normal(d.removed) && forall x :: x in d.removed ==> x !in d.detected
    ensures var sel := Selection(d.detected, [], d.removed);
            d.detected != [] || d.removed != [] ==>
              ApplyAll(d, t).models == NextText(d.models, sel) && ApplyAll(d, t).ignored == NextIgnored(d.ignored, sel)
  {
    NormalizeNormal(d.detected);
    NormalizeNormal(d.removed);
    SelectAll(d.detected, d.removed);
  }

  lemma NothingToApply(d: Record, t: int)
    requires d.detected == [] && d.removed == []
    ensures var sel := Selection([], [], []);
            && ApplyAll(d, t) == d && d.models == NextText(d.models, sel)
            && NextIgnored(d.ignored, sel) == Normalize(d.ignored)
  {
    NormalizeNormal([]);
    LocalFacts(d.models);
    SelectedChanges(Local(d.models), [], []);
    FilterAll(Local(d.models), KeptBy([], []));
    assert NextModels(d.models, Selection([], [], [])) == Local(d.models);
    NothingToMerge(d.ignored);
  }

  lemma NothingToMerge(base: seq<string>)
    ensures Merge(base, []) == Normalize(base)
  {
    NormalizeNormal([]);
  }

  /** The channel after detecting and applying everything. */
  lemma AfterApplyAll(c: Record, up: Upstream, t1: int, t2: int)
    ensures var sel := Selection(ToAdd(c, up), [], ToRemove(c, up));
            var c2 := ApplyAll(Detected(c, up, t1), t2);
            && c2.models == NextText(c.models, sel)
            && Normal(NextIgnored(c.ignored, sel))
            && forall x :: x in Normalize(c2.ignored) <==> x in NextIgnored(c.ignored, sel)
  {
    var d, sel := Detected(c, up, t1), Selection(ToAdd(c, up), [], ToRemove(c, up));
    AddAndRemoveDisjoint(c, up);
    NextIgnoredFacts(c.ignored, sel);
    NormalizeNormal(NextIgnored(c.ignored, sel));
    if sel.add == [] && sel.remove == [] {
      NothingToApply(d, t2);
    } else {
      ApplyAllOf(d, t2);
    }
  }

  lemma LocalAfterApply(c: Record, up: Upstream)
    requires CommaFree(ToAdd(c, up))
    ensures var sel := Selection(ToAdd(c, up), [], ToRemove(c, up));
            forall x :: x in Local(NextText(c.models, sel))
                   <==> (x in Local(c.models) || x in ToAdd(c, up)) && x !in ToRemove(c, up)
  {
    var a, r := ToAdd(c, up), ToRemove(c, up);
    var sel, origin := Selection(a, [], r), Local(c.models);
    AddAndRemoveDisjoint(c, up);
    LocalFacts(c.models);
    SelectedChanges(origin, a, r);
    FilterMembers(origin, KeptBy(a, r));
    FilterMembers(a, Outside(origin));
    JoinReadsBack(NextModels(c.models, sel));
  }

  lemma NothingMoreToRemove(c: Record, up: Upstream, c2: Record, x: string)
    requires CommaFree(ToAdd(c, up))
    requires c2.models == NextText(c.models, Selection(ToAdd(c, up), [], ToRemove(c, up)))
    ensures x !in ToRemove(c2, up)
  {
    LocalAfterApply(c, up);
    PendingAddFacts(ModelList(c.models), c.ignored, up);
    PendingRemoveFacts(ModelList(c.models), up);
    PendingRemoveFacts(ModelList(c2.models), up);
  }

  lemma SameRulesHideTheSame(r1: seq<string>, r2: seq<string>, m: Matcher)
    requires forall x :: x in r1 <==> x in r2
    ensures forall x :: Hidden(r1, x, m) <==> Hidden(r2, x, m)
  {
  }

  lemma FewerRulesHideLess(r1: seq<string>, r2: seq<string>, m: Matcher)
    requires forall x :: x in r1 ==> x in r2
    ensures forall x :: Hidden(r1, x, m) ==> Hidden(r2, x, m)
  {
  }

  /** What is still wanted after applying everything: names lost to a comma, and names a lost rule hid. */
  lemma StillWanted(c: Record, up: Upstream, c2: Record, x: string)
    requires var sel := Selection(ToAdd(c, up), [], ToRemove(c, up));
             c2.models == NextText(c.models, sel)
             && forall y :: y in Normalize(c2.ignored) <==> y in NextIgnored(c.ignored, sel)
    ensures x in ToAdd(c, up) && ',' in x ==> x in ToAdd(c2, up)
    ensures CommaFree(ToAdd(c, up)) ==> (x in ToAdd(c2, up) <==> Exposed(c, up, x))
  {
    var a := ToAdd(c, up);
    var sel := Selection(a, [], ToRemove(c, up));
    AddAndRemoveDisjoint(c, up);
    PendingAddFacts(ModelList(c.models), c.ignored, up);
    PendingRemoveFacts(ModelList(c.models), up);
    PendingAddFacts(ModelList(c2.models), c2.ignored, up);
    NextIgnoredFacts(c.ignored, sel);
    NormalizeNormal(a);
    SubtractFacts(c.ignored, a);
    FewerRulesHideLess(Normalize(c2.ignored), Normalize(c.ignored), up.matcher);
    SameRulesHideTheSame(Normalize(c2.ignored), Subtract(c.ignored, a), up.matcher);
    LocalFacts(c2.models);
    if CommaFree(a) { LocalAfterApply(c, up); }
  }

  lemma RedetectedIsPending(c: Record, up: Upstream, t1: int, t2: int, t3: int)
    ensures var c2, c3 := ApplyAll(Detected(c, up, t1), t2), Redetected(c, up, t1, t2, t3);
            c3.detected == ToAdd(c2, up) && c3.removed == ToRemove(c2, up)
  {
  }

  lemma EmptyExactly(s: seq<string>)
    ensures s == [] <==> forall x :: x !in s
  {
    if s != [] { assert s[0] in s; }
  }

  /** Detect, apply all, detect: nothing is left to do exactly when no name to add holds a comma
      and no ignore rule that mattered was spelled like an added name. */
  lemma DetectApplyConverges(c: Record, up: Upstream, t1: int, t2: int, t3: int)
    ensures var c3 := Redetected(c, up, t1, t2, t3);
            (c3.detected == [] && c3.removed == [])
            <==> CommaFree(ToAdd(c, up)) && forall x :: !Exposed(c, up, x)
  {
    var c2 := ApplyAll(Detected(c, up, t1), t2);
    AfterApplyAll(c, up, t1, t2);
    RedetectedIsPending(c, up, t1, t2, t3);
    EmptyExactly(ToAdd(c2, up));
    EmptyExactly(ToRemove(c2, up));
    forall x
      ensures x in ToAdd(c, up) && ',' in x ==> x in ToAdd(c2, up)
      ensures CommaFree(ToAdd(c, up)) ==> (x in ToAdd(c2, up) <==> Exposed(c, up, x)) && x !in ToRemove(c2, up)
    {
      StillWanted(c, up, c2, x);
      if CommaFree(ToAdd(c, up)) { NothingMoreToRemove(c, up, c2, x); }
    }
  }

  /** In particular it converges when no offered name holds a comma or starts with `regex:`. */
  lemma PlainNamesConverge(c: Record, up: Upstream, t1: int, t2: int, t3: int)
    requires forall x :: x in Normalize(up.models) ==> ',' !in x && !IsRegexRule(x)
    ensures var c3 := Redetected(c, up, t1, t2, t3); c3.detected == [] && c3.removed == []
  {
    PendingAddFacts(ModelList(c.models), c.ignored, up);
    forall x ensures !Exposed(c, up, x) { PlainNamesStayHidden(c, up, x); }
    DetectApplyConverges(c, up, t1, t2, t3);
  }

  lemma PlainNamesStayHidden(c: Record, up: Upstream, x: string)
    requires forall y :: y in Normalize(up.models) ==> !IsRegexRule(y)
    ensures !Exposed(c, up, x)
  {
    var a := ToAdd(c, up);
    PendingAddFacts(ModelList(c.models), c.ignored, up);
    NormalizeNormal(a);
    SubtractFacts(c.ignored, a);
    if x in Normalize(up.models) && Hidden(Normalize(c.ignored), x, up.matcher) {
      var r :| r in Normalize(c.ignored) && Ignores(r, x, up.matcher);
      assert r !in a;
      assert r in Subtract(c.ignored, a);
    }
  }

  lemma CommaNameWanted(m: Matcher)
    ensures "a,b" in ToAdd(Record("", [], [], [], 0), Upstream(["a,b"], map[], m))
  {
    assert Normal(["a,b"]);
    NormalizeNormal(["a,b"]);
    NormalizeNormal([]);
    PendingAddFacts([], [], Upstream(["a,b"], map[], m));
  }

  /** A comma does break it: the name `a,b` is stored as two and is detected again for ever. */
  lemma CommaNamesReturn(t1: int, t2: int, t3: int, m: Matcher)
    ensures Redetected(Record("", [], [], [], 0), Upstream(["a,b"], map[], m), t1, t2, t3).detected != []
  {
    var c, up := Record("", [], [], [], 0), Upstream(["a,b"], map[], m);
    CommaNameWanted(m);
    assert "a,b"[1] == ',';
    AfterApplyAll(c, up, t1, t2);
    RedetectedIsPending(c, up, t1, t2, t3);
    StillWanted(c, up, ApplyAll(Detected(c, up, t1), t2), "a,b");
  }

  /** The upstream offers `b` and a model named like the rule that hides `b`. */
  function RuleAsName(rule: string, m: Matcher): Upstream { Upstream([rule, "b"], map[], m) }

  lemma RuleIsAdded(rule: string, m: Matcher)
    requires Normal([rule, "b"]) && !Ignores(rule, rule, m)
    ensures var c, up := Record("", [rule], [], [], 0), RuleAsName(rule, m);
            rule in ToAdd(c, up) && Normalize([rule]) == [rule] && Normalize(up.models) == up.models
  {
    assert Normal([rule]) by { assert [rule, "b"][0] in [rule, "b"]; }
    NormalizeNormal([rule, "b"]);
    NormalizeNormal([rule]);
    NormalizeNormal([]);
    PendingAddFacts([], [rule], RuleAsName(rule, m));
  }

  /** And so does an ignore rule that is spelled like an added name, here `regex:^b$`: the apply drops the
      rule, and what it hid is detected. */
  lemma LostRuleExposes(m: Matcher, t1: int, t2: int, t3: int)
    requires Ignores("regex:^b$", "b", m) && !Ignores("regex:^b$", "regex:^b$", m)
    ensures var c, up := Record("", ["regex:^b$"], [], [], 0), RuleAsName("regex:^b$", m);
            Exposed(c, up, "b") && Redetected(c, up, t1, t2, t3).detected != []
  {
    assert "regex:^b$"[0] == 'r' && "b"[0] == 'b';
    assert Normal(["regex:^b$", "b"]);
    LostRule("regex:^b$", m, t1, t2, t3);
  }

  lemma RuleExposes(rule: string, m: Matcher)
    requires Normal([rule, "b"]) && Ignores(rule, "b", m) && !Ignores(rule, rule, m)
    ensures Exposed(Record("", [rule], [], [], 0), RuleAsName(rule, m), "b")
  {
    var c, up := Record("", [rule], [], [], 0), RuleAsName(rule, m);
    RuleIsAdded(rule, m);
    AddAndRemoveDisjoint(c, up);
    NormalizeNormal(ToAdd(c, up));
    NormalizeNormal([]);
    SubtractFacts(c.ignored, ToAdd(c, up));
    assert rule in Normalize(c.ignored) && "b" in up.models;
  }

  lemma LostRule(rule: string, m: Matcher, t1: int, t2: int, t3: int)
    requires Normal([rule, "b"]) && Ignores(rule, "b", m) && !Ignores(rule, rule, m) && ',' !in rule
    ensures var c, up := Record("", [rule], [], [], 0), RuleAsName(rule, m);
            Exposed(c, up, "b") && Redetected(c, up, t1, t2, t3).detected != []
  {
    var c, up := Record("", [rule], [], [], 0), RuleAsName(rule, m);
    RuleExposes(rule, m);
    RuleIsAdded(rule, m);
    PendingAddFacts([], [rule], up);
    assert CommaFree(ToAdd(c, up));
    AfterApplyAll(c, up, t1, t2);
    RedetectedIsPending(c, up, t1, t2, t3);
    StillWanted(c, up, ApplyAll(Detected(c, up, t1), t2), "b");
  }

  function AutoSynced(c: Record, up: Upstream, now: int): Record {
    Checked(c, CheckMode(true, true, true, 0), Some(up.models), up.mapping, up.matcher, now)
  }

  lemma AutoSyncedIs(c: Record, up: Upstream, now: int)
    ensures var a, c1 := ToAdd(c, up), AutoSynced(c, up, now);
            && c1.ignored == c.ignored
            && (a == [] ==> c1.models == c.models)
            && (a != [] && |Merge(Local(c.models), a)| > |Local(c.models)| ==>
                  c1.models == Join(Merge(Local(c.models), a), ','))
  {
  }

  lemma MergeGrows(l: seq<string>, a: seq<string>)
    requires Normal(l) && Normal(a) && a != [] && forall x :: x in a ==> x !in l
    ensures |Merge(l, a)| > |l|
  {
    NormalizeNormal(l);
    NormalizeNormal(a);
    FilterAll(a, Outside(l));
  }

  lemma LocalAfterAutoSync(c: Record, up: Upstream, now: int)
    requires CommaFree(ToAdd(c, up))
    ensures var c1 := AutoSynced(c, up, now);
            c1.ignored == c.ignored
            && forall x :: x in Local(c1.models) <==> x in Local(c.models) || x in ToAdd(c, up)
  {
    var a, l := ToAdd(c, up), Local(c.models);
    AutoSyncedIs(c, up, now);
    PendingAddFacts(ModelList(c.models), c.ignored, up);
    LocalFacts(c.models);
    if a != [] {
      MergeGrows(l, a);
      MergeFacts(l, a);
      NormalizeNormal(l);
      NormalizeNormal(a);
      JoinReadsBack(Merge(l, a));
    }
  }

  /** An automatic sync settles too: the next check finds nothing to add and the same to remove. */
  lemma AutoSyncSettles(c: Record, up: Upstream, t1: int, t2: int)
    requires CommaFree(ToAdd(c, up))
    ensures var c2 := Detected(AutoSynced(c, up, t1), up, t2);
            c2.detected == [] && forall x :: x in c2.removed <==> x in ToRemove(c, up)
  {
    var c1 := AutoSynced(c, up, t1);
    LocalAfterAutoSync(c, up, t1);
    PendingAddFacts(ModelList(c.models), c.ignored, up);
    PendingRemoveFacts(ModelList(c.models), up);
    PendingAddFacts(ModelList(c1.models), c1.ignored, up);
    PendingRemoveFacts(ModelList(c1.models), up);
    EmptyExactly(ToAdd(c1, up));
  }

  lemma CommaNameStays(c: Record, up: Upstream, t: int, x: string)
    requires x in ToAdd(c, up) && ',' in x
    ensures x in ToAdd(AutoSynced(c, up, t), up)
  {
    var c1 := AutoSynced(c, up, t);
    LocalFacts(c1.models);
    PendingAddFacts(ModelList(c.models), c.ignored, up);
    PendingAddFacts(ModelList(c1.models), c1.ignored, up);
  }

  /** And it does only then: a name with a comma is wanted again after every sync. */
  lemma AutoSyncExactly(c: Record, up: Upstream, t1: int, t2: int)
    ensures Detected(AutoSynced(c, up, t1), up, t2).detected == [] <==> CommaFree(ToAdd(c, up))
  {
    if CommaFree(ToAdd(c, up)) {
      AutoSyncSettles(c, up, t1, t2);
    } else {
      var x :| x in ToAdd(c, up) && ',' in x;
      CommaNameStays(c, up, t1, x);
    }
  }
}
