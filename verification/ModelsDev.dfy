/** Choosing one price for each model out of the models.dev catalogue (controller/ratio_sync.go,
    lines 838-985): a fold over the providers in order, with a comparison that is not transitive. */
module ModelsDev {
  import opened Text
  import PriceDiff

  datatype Float = Finite(r: real) | NotFinite

  datatype Cost = Cost(input: Option<Float>, output: Option<Float>, cacheRead: Option<Float>)

  datatype Candidate = Candidate(provider: string, input: real, output: Option<real>, cacheRead: Option<real>)

  /** Provider to model to cost. */
  type Catalogue = map<string, map<string, Cost>>

  /** `isValidNonNegativeCost` */
  predicate IsValid(v: Float) { v.Finite? && v.r >= 0.0 }

  /** `buildModelsDevCandidate` */
  function Build(provider: string, cost: Cost): Option<Candidate> {
    if cost.input.None? || !IsValid(cost.input.value) then None
    else if cost.output.Some? && !IsValid(cost.output.value) then None
    else if cost.input.value.r == 0.0 && cost.output.Some? && cost.output.value.r > 0.0 then None
    else
      Some(Candidate(
             provider, cost.input.value.r,
             if cost.output.Some? then Some(cost.output.value.r) else None,
             if cost.cacheRead.Some? && IsValid(cost.cacheRead.value) then Some(cost.cacheRead.value.r) else None))
  }

  /** Strings in the order of `sort.Strings`; bytes of UTF-8 compare like code points. */
  predicate Less(a: string, b: string) {
    b != "" && (a == "" || a[0] < b[0] || (a[0] == b[0] && Less(a[1..], b[1..])))
  }

  /** `shouldReplaceModelsDevCandidate` */
  predicate Replaces(current: Candidate, next: Candidate) {
    if (current.input > 0.0) != (next.input > 0.0) then next.input > 0.0
    else if next.input > 0.0 && !PriceDiff.Near(next.input, current.input) then next.input < current.input
    else Less(next.provider, current.provider)
  }

  // ---------------------------------------------------------------------------
  // The order of names

  lemma {:induction false} LessTrans(a: string, b: string, c: string)
    requires Less(a, b) && Less(b, c)
    ensures Less(a, c)
  {
    if a != "" && a[0] == b[0] && b[0] == c[0] { LessTrans(a[1..], b[1..], c[1..]); }
  }

  lemma {:induction false} LessAsym(a: string, b: string)
    requires Less(a, b)
    ensures !Less(b, a) && a != b
  {
    if a != "" && a[0] == b[0] {
      LessAsym(a[1..], b[1..]);
      assert a[1..] != b[1..];
    }
  }

  lemma {:induction false} LessTotal(a: string, b: string)
    ensures a == b || Less(a, b) || Less(b, a)
  {
    if a != "" && b != "" && a[0] == b[0] {
      LessTotal(a[1..], b[1..]);
      if a[1..] == b[1..] { assert a == [a[0]] + a[1..] && b == [b[0]] + b[1..]; }
    }
  }

  predicate Ascending(s: seq<string>) { forall i, j :: 0 <= i < j < |s| ==> Less(s[i], s[j]) }

  /** The place of a new name in an ascending list. */
  function Place(s: seq<string>, x: string): nat {
    if s == [] || Less(x, s[0]) then 0 else 1 + Place(s[1..], x)
  }

  lemma {:induction false} PlaceFacts(s: seq<string>, x: string)
    requires Ascending(s) && x !in s
    ensures var k := Place(s, x);
            && k <= |s| && (forall i :: 0 <= i < k ==> Less(s[i], x)) && (forall i :: k <= i < |s| ==> Less(x, s[i]))
  {
    if s != [] {
      LessTotal(x, s[0]);
      if Less(x, s[0]) {
        forall i | 0 < i < |s| ensures Less(x, s[i]) { LessTrans(x, s[0], s[i]); }
      } else {
        PlaceFacts(s[1..], x);
        var k := Place(s, x);
        forall i | 0 <= i < k ensures Less(s[i], x) { if i > 0 { assert s[i] == s[1..][i - 1]; } }
        forall i | k <= i < |s| ensures Less(x, s[i]) { assert s[i] == s[1..][i - 1]; }
      }
    }
  }

  /** Collects the names of a set and sorts them. */
  method Sorted(names: set<string>) returns (s: seq<string>)
    ensures Ascending(s) && forall x :: x in s <==> x in names
  {
    s := [];
    var todo := names;
    while todo != {}
      invariant todo <= names && Ascending(s) && forall x :: x in s <==> x in names && x !in todo
      decreases todo
    {
      var x :| x in todo;
      todo := todo - {x};
      var k := Place(s, x);
      PlaceFacts(s, x);
      s := s[..k] + [x] + s[k..];
    }
  }

  // ---------------------------------------------------------------------------
  // The fold

  function CandidateOf(data: Catalogue, provider: string, m: string): Option<Candidate> {
    if provider in data && m in data[provider] then Build(provider, data[provider][m]) else None
  }

  function Better(current: Option<Candidate>, next: Option<Candidate>): Option<Candidate> {
    if next.None? then current
    else if current.None? || Replaces(current.value, next.value) then next
    else current
  }

  /** What the providers of a list leave selected for a model. */
  function Choice(data: Catalogue, providers: seq<string>, m: string): Option<Candidate> {
    if providers == [] then None
    else
      Better(Choice(data, providers[..|providers| - 1], m), CandidateOf(data, providers[|providers| - 1], m))
  }

  ghost predicate Selected(data: Catalogue, providers: seq<string>, selected: map<string, Candidate>, m: string) {
    (if m in selected then Some(selected[m]) else None) == Choice(data, providers, m)
  }

  /** One provider after those of a list: the models in `todo` are still to come. */
  ghost predicate Halfway(data: Catalogue, providers: seq<string>, provider: string, todo: seq<string>,
                          selected: map<string, Candidate>, m: string) {
    Selected(data, if m in todo then providers else providers + [provider], selected, m)
  }

  lemma ChoiceSnoc(data: Catalogue, providers: seq<string>, provider: string, m: string)
    ensures Choice(data, providers + [provider], m)
         == Better(Choice(data, providers, m), CandidateOf(data, provider, m))
  {
    assert (providers + [provider])[..|providers|] == providers;
  }

  /** The inner loop. */
  method SelectFrom(data: Catalogue, ghost providers: seq<string>, provider: string, selected: map<string, Candidate>)
    returns (r: map<string, Candidate>)
    requires provider in data && forall m :: Selected(data, providers, selected, m)
    ensures forall m :: Selected(data, providers + [provider], r, m)
  {
    r := selected;
    var names := Sorted(data[provider].Keys);
    forall m ensures Halfway(data, providers, provider, names, r, m) {
      assert Selected(data, providers, selected, m);
      ChoiceSnoc(data, providers, provider, m);
    }
    for i := 0 to |names|
      invariant forall m :: Halfway(data, providers, provider, names[i..], r, m)
    {
      ghost var was, left := r, names[i + 1..];
      var m := names[i];
      assert m in names;
      var candidate := Build(provider, data[provider][m]);
      if candidate.Some? && (m !in r || Replaces(r[m], candidate.value)) { r := r[m := candidate.value]; }
      ChoiceSnoc(data, providers, provider, m);
      assert names[i..] == [m] + names[i + 1..];
      NoRepeat(names, i);
      forall k ensures Halfway(data, providers, provider, left, r, k) {
        assert Halfway(data, providers, provider, names[i..], was, k);
      }
    }
    forall m ensures Selected(data, providers + [provider], r, m) {
      assert Halfway(data, providers, provider, names[|names|..], r, m);
    }
  }

  lemma NoRepeat(names: seq<string>, i: nat)
    requires Ascending(names) && i < |names|
    ensures names[i] !in names[i + 1..]
  {
    forall j | i < j < |names| ensures names[j] != names[i] { LessAsym(names[i], names[j]); }
  }

  /** The selection loop of `convertModelsDevToRatioData`. */
  method Select(data: Catalogue) returns (selected: map<string, Candidate>, providers: seq<string>)
    ensures Ascending(providers) && forall p :: p in providers <==> p in data
    ensures forall m :: Selected(data, providers, selected, m)
  {
    selected := map[];
    providers := Sorted(data.Keys);
    for i := 0 to |providers|
      invariant forall m :: Selected(data, providers[..i], selected, m)
    {
      assert providers[i] in providers;
      selected := SelectFrom(data, providers[..i], providers[i], selected);
      assert providers[..i] + [providers[i]] == providers[..i + 1];
    }
    assert providers[..|providers|] == providers;
  }

  // ---------------------------------------------------------------------------
  // What is chosen

  /** The candidate is as good as `x`: strictly cheaper if `x` comes from an earlier provider, and never
      dearer by the tolerance or more. A price of zero counts only against other zero prices. */
  predicate AsGoodAs(c: Candidate, x: Candidate) {
    x.input > 0.0 ==>
      && 0.0 < c.input < x.input + PriceDiff.EPSILON
      && (Less(x.provider, c.provider) ==> c.input < x.input)
  }

  predicate Offers(data: Catalogue, provider: string, m: string, x: Candidate) {
    CandidateOf(data, provider, m) == Some(x)
  }

  lemma BuildFacts(provider: string, cost: Cost)
    ensures var c := Build(provider, cost);
            c.Some? ==>
              && c.value.provider == provider && c.value.input >= 0.0
              && cost.input == Some(Finite(c.value.input))
              && (c.value.input == 0.0 ==> c.value.output.None? || c.value.output == Some(0.0))
              && (c.value.output.Some? ==> c.value.output.value >= 0.0)
              && (c.value.cacheRead.Some? ==> c.value.cacheRead.value >= 0.0)
  {
  }

  predicate NonNegative(v: Option<Float>) { v.Some? && v.value.Finite? && v.value.r >= 0.0 }

  /** A cost makes a candidate if and only if its input price is finite and not negative, so is its output price
      if it has one, and nothing is charged for output when input is free; the candidate has those prices, and
      the price of cached input if that is finite and not negative. */
  lemma BuildExactly(provider: string, cost: Cost, c: Candidate)
    ensures Build(provider, cost) == Some(c)
       <==> && NonNegative(cost.input) && (cost.output.None? || NonNegative(cost.output))
            && !(cost.input == Some(Finite(0.0)) && cost.output.Some? && cost.output != Some(Finite(0.0)))
            && c.provider == provider && cost.input == Some(Finite(c.input))
            && (cost.output.None? ==> c.output == None)
            && (cost.output.Some? ==> c.output.Some? && cost.output == Some(Finite(c.output.value)))
            && (NonNegative(cost.cacheRead) ==> c.cacheRead.Some? && cost.cacheRead == Some(Finite(c.cacheRead.value)))
            && (!NonNegative(cost.cacheRead) ==> c.cacheRead == None)
  {
  }

  /** One step keeps the choice as good as everything seen, when the new provider comes last. */
  lemma BetterKeeps(current: Candidate, next: Candidate, x: Candidate)
    requires AsGoodAs(current, x) && Less(current.provider, next.provider) && Less(x.provider, next.provider)
    requires current.input >= 0.0 && next.input >= 0.0
    ensures AsGoodAs(Better(Some(current), Some(next)).value, x)
  {
    LessAsym(current.provider, next.provider);
    LessAsym(x.provider, next.provider);
  }

  lemma BetterKeepsNext(current: Candidate, next: Candidate)
    requires Less(current.provider, next.provider) && current.input >= 0.0 && next.input >= 0.0
    ensures AsGoodAs(Better(Some(current), Some(next)).value, next)
  {
    LessAsym(current.provider, next.provider);
    NotLess(next.provider);
  }

  lemma NotLess(a: string)
    ensures !Less(a, a)
  {
    if Less(a, a) { LessAsym(a, a); }
  }

  /** Something is chosen for a model exactly when some provider offers it; what is chosen is on offer. */
  lemma {:induction false} ChoiceIsOffered(data: Catalogue, providers: seq<string>, m: string)
    ensures Choice(data, providers, m).None? <==> forall p :: p in providers ==> CandidateOf(data, p, m).None?
    ensures var c := Choice(data, providers, m);
            c.Some? ==>
              c.value.provider in providers && Offers(data, c.value.provider, m, c.value) && c.value.input >= 0.0
  {
    if providers != [] {
      var init, last := providers[..|providers| - 1], providers[|providers| - 1];
      ChoiceIsOffered(data, init, m);
      assert providers == init + [last];
    }
  }

  /** The choice over providers in order is as good as every offer. */
  lemma {:induction false} ChoiceIsCheapest(data: Catalogue, providers: seq<string>, m: string, p: string, x: Candidate)
    requires Ascending(providers) && p in providers && Offers(data, p, m, x)
    ensures Choice(data, providers, m).Some? && AsGoodAs(Choice(data, providers, m).value, x)
  {
    var init, last := providers[..|providers| - 1], providers[|providers| - 1];
    assert providers == init + [last];
    ChoiceIsOffered(data, init, m);
    var current, next := Choice(data, init, m), CandidateOf(data, last, m);
    if p in init {
      ChoiceIsCheapest(data, init, m, p, x);
      LastIsGreatest(providers, p);
      LastIsGreatest(providers, current.value.provider);
      if next.Some? { BetterKeeps(current.value, next.value, x); }
    } else if current.Some? {
      LastIsGreatest(providers, current.value.provider);
      BetterKeepsNext(current.value, x);
    } else {
      NotLess(last);
    }
  }

  lemma LastIsGreatest(providers: seq<string>, p: string)
    requires providers != [] && Ascending(providers) && p in providers[..|providers| - 1]
    ensures Less(p, providers[|providers| - 1])
  {
  }

  /** A price of zero is chosen only if every valid offer is zero, and the price chosen is less than the
      tolerance above the lowest non-zero price. */
  lemma CheapestNonZero(data: Catalogue, providers: seq<string>, m: string, p: string, x: Candidate)
    requires Ascending(providers) && p in providers && Offers(data, p, m, x)
    ensures var c := Choice(data, providers, m);
            && c.Some? && (c.value.input == 0.0 ==> x.input == 0.0)
            && (x.input > 0.0 ==> 0.0 < c.value.input < x.input + PriceDiff.EPSILON)
  {
    ChoiceIsCheapest(data, providers, m, p, x);
    BuildFacts(p, data[p][m]);
  }

  /** When the prices on offer are equal or further apart than the tolerance, the choice is the lowest non-zero
      price, from the first provider that has it. */
  lemma SeparatePricesGiveTheMinimum(data: Catalogue, providers: seq<string>, m: string, p: string, x: Candidate)
    requires Ascending(providers) && p in providers && Offers(data, p, m, x) && x.input > 0.0
    requires forall q, r, a, b ::
               Offers(data, q, m, a) && Offers(data, r, m, b) && PriceDiff.Near(a.input, b.input) ==> a.input == b.input
    ensures var c := Choice(data, providers, m);
            c.Some? && c.value.input <= x.input && (c.value.input == x.input ==> !Less(p, c.value.provider))
  {
    ChoiceIsCheapest(data, providers, m, p, x);
    ChoiceIsOffered(data, providers, m);
    var c := Choice(data, providers, m).value;
    assert Offers(data, c.provider, m, c);
    BuildFacts(p, data[p][m]);
  }

  /** Out of order, the tie-break can climb from provider to provider: the bound needs the sorting. */
  lemma UnsortedOrderDrifts(m: string)
    ensures var price := (r: real) => map[m := Cost(Some(Finite(r)), None, None)];
            var data := map["c" := price(1.0), "b" := price(1.0000000006), "a" := price(1.0000000012)];
            var c := Choice(data, ["c", "b", "a"], m);
            && !Ascending(["c", "b", "a"])
            && c.Some? && c.value.input >= 1.0 + PriceDiff.EPSILON
            && Offers(data, "c", m, Candidate("c", 1.0, None, None))
  {
    var price := (r: real) => map[m := Cost(Some(Finite(r)), None, None)];
    var data := map["c" := price(1.0), "b" := price(1.0000000006), "a" := price(1.0000000012)];
    assert ["c", "b", "a"][..2] == ["c", "b"] && ["c", "b"][..1] == ["c"] && ["c"][..0] == [];
    var one, two := Candidate("c", 1.0, None, None), Candidate("b", 1.0000000006, None, None);
    assert Choice(data, ["c"], m) == Some(one);
    assert Less("b", "c") && Less("a", "b");
    assert Choice(data, ["c", "b"], m) == Some(two);
    LessAsym("b", "c");
    assert ["c", "b", "a"][0] == "c" && ["c", "b", "a"][1] == "b";
  }

  // ---------------------------------------------------------------------------
  // Ratios

  /** `roundRatioValue` on what is not negative. */
  function Rounded(v: real): real { (v * 1000000.0 + 0.5).Floor as real / 1000000.0 }

  lemma RoundedIsNear(v: real)
    ensures -0.0000005 <= Rounded(v) - v <= 0.0000005
  {
    var n := (v * 1000000.0 + 0.5).Floor;
    assert n as real <= v * 1000000.0 + 0.5 < n as real + 1.0;
  }

  datatype Ratios = Ratios(model: map<string, real>, completion: map<string, real>, cache: map<string, real>)

  function Quotient(a: Option<real>, b: real): Option<real>
    requires b != 0.0
  {
    if a.Some? then Some(Rounded(a.value / b)) else None
  }

  function RatioOf(c: Candidate): real { if c.input == 0.0 then 0.0 else Rounded(c.input * 500.0 / 1000.0) }

  function Entry(table: map<string, real>, m: string): Option<real> { if m in table then Some(table[m]) else None }

  /** What the conversion makes of one model. */
  ghost predicate Converted(c: Option<Candidate>, r: Ratios, m: string) {
    if c.None? then Entry(r.model, m).None? && Entry(r.completion, m).None? && Entry(r.cache, m).None?
    else
      var input := c.value.input;
      && Entry(r.model, m) == Some(RatioOf(c.value))
      && Entry(r.completion, m) == (if input == 0.0 then None else Quotient(c.value.output, input))
      && Entry(r.cache, m) == (if input == 0.0 then None else Quotient(c.value.cacheRead, input))
  }

  /** The models outside `todo` have been converted. */
  ghost predicate ConvertedBut(selected: map<string, Candidate>, todo: set<string>, r: Ratios, m: string) {
    Converted(if m in selected && m !in todo then Some(selected[m]) else None, r, m)
  }

  /** The last loop of `convertModelsDevToRatioData`. */
  method Convert(selected: map<string, Candidate>) returns (r: Ratios)
    ensures forall m :: ConvertedBut(selected, {}, r, m)
  {
    r := Ratios(map[], map[], map[]);
    var todo := selected.Keys;
    while todo != {}
      invariant todo <= selected.Keys && forall m :: ConvertedBut(selected, todo, r, m)
      decreases todo
    {
      var m :| m in todo;
      assert ConvertedBut(selected, todo, r, m);
      ghost var was, left := r, todo - {m};
      r := ConvertOne(r, m, selected[m]);
      forall k ensures ConvertedBut(selected, left, r, k) { assert ConvertedBut(selected, todo, was, k); }
      todo := todo - {m};
    }
  }

  method ConvertOne(was: Ratios, m: string, c: Candidate) returns (r: Ratios)
    requires m !in was.model && m !in was.completion && m !in was.cache
    ensures Converted(Some(c), r, m)
    ensures forall k :: k != m ==> Entry(r.model, k) == Entry(was.model, k)
    ensures forall k :: k != m ==> Entry(r.completion, k) == Entry(was.completion, k)
    ensures forall k :: k != m ==> Entry(r.cache, k) == Entry(was.cache, k)
  {
    r := was;
    if c.input == 0.0 {
      return r.(model := r.model[m := 0.0]);
    }
    r := r.(model := r.model[m := Rounded(c.input * 500.0 / 1000.0)]);
    if c.output.Some? { r := r.(completion := r.completion[m := Rounded(c.output.value / c.input)]); }
    if c.cacheRead.Some? { r := r.(cache := r.cache[m := Rounded(c.cacheRead.value / c.input)]); }
  }

  /** `convertModelsDevToRatioData`; it fails when there is nothing valid. */
  method ConvertModelsDev(data: Catalogue)
    returns (r: Option<Ratios>, selected: map<string, Candidate>, providers: seq<string>)
    ensures Ascending(providers) && forall p :: p in providers <==> p in data
    ensures forall m :: Selected(data, providers, selected, m)
    ensures r.Some? <==> selected != map[]
    ensures r.Some? ==> forall m :: ConvertedBut(selected, {}, r.value, m)
  {
    selected, providers := Select(data);
    if |data| == 0 {
      NothingSelected(data, providers, selected);
      return None, selected, providers;
    }
    if |selected| == 0 { return None, selected, providers; }
    var ratios := Convert(selected);
    r := Some(ratios);
  }

  lemma NothingSelected(data: Catalogue, providers: seq<string>, selected: map<string, Candidate>)
    requires |data| == 0 && forall p :: p in providers <==> p in data
    requires forall m :: Selected(data, providers, selected, m)
    ensures selected == map[]
  {
    forall m ensures m !in selected {
      ChoiceIsOffered(data, providers, m);
      assert Selected(data, providers, selected, m);
    }
  }

  predicate Within(a: real, b: real) { -0.0000005 <= a - b <= 0.0000005 }

  /** The ratios of a model, up to half a millionth: the model ratio is half the input price, and unless the
      model is free the others are the output and the cached price over the input price. */
  lemma RatiosMean(selected: map<string, Candidate>, r: Ratios, m: string)
    requires ConvertedBut(selected, {}, r, m) && m in selected
    ensures var c := selected[m];
            && m in r.model && Within(r.model[m], c.input / 2.0) && (c.input == 0.0 ==> r.model[m] == 0.0)
            && (m in r.completion <==> c.input != 0.0 && c.output.Some?)
            && (m in r.completion ==> Within(r.completion[m], c.output.value / c.input))
            && (m in r.cache <==> c.input != 0.0 && c.cacheRead.Some?)
            && (m in r.cache ==> Within(r.cache[m], c.cacheRead.value / c.input))
  {
    var c := selected[m];
    if c.input != 0.0 {
      assert c.input * 500.0 / 1000.0 == c.input / 2.0;
      RoundedIsNear(c.input / 2.0);
      if c.output.Some? { RoundedIsNear(c.output.value / c.input); }
      if c.cacheRead.Some? { RoundedIsNear(c.cacheRead.value / c.input); }
    }
    assert Entry(r.model, m).Some?;
  }
}
