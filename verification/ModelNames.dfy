/** The ordered-set operations on model names (controller/channel_upstream_update.go, lines 93-143). */
module ModelNames {
  import opened Text

  function Filter(s: seq<string>, p: string -> bool): seq<string> {
    if s == [] then []
    else
      var init, last := s[..|s| - 1], s[|s| - 1];
      if p(last) then Filter(init, p) + [last] else Filter(init, p)
  }

  predicate Distinct(s: seq<string>) {
    forall i, j :: 0 <= i < j < |s| ==> s[i] != s[j]
  }

  /** `lo.Uniq`: the first occurrence of each element. */
  function Uniq(s: seq<string>): seq<string> {
    if s == [] then []
    else
      var r, last := Uniq(s[..|s| - 1]), s[|s| - 1];
      if last in r then r else r + [last]
  }

  /** A name is not blank and has no space at its ends. */
  predicate IsName(x: string) { x != "" && !GoSpace(x[0]) && !GoSpace(x[|x| - 1]) }

  predicate Normal(s: seq<string>) { Distinct(s) && forall x :: x in s ==> IsName(x) }

  /** The trimmed names, blank ones dropped. */
  function TrimNames(s: seq<string>): seq<string> {
    if s == [] then []
    else
      var r, t := TrimNames(s[..|s| - 1]), Trim(s[|s| - 1], GoSpace);
      if t == "" then r else r + [t]
  }

  /** `normalizeModelNames` */
  function Normalize(s: seq<string>): seq<string> { Uniq(TrimNames(s)) }

  function Outside(names: seq<string>): string -> bool { x => x !in names }

  function Inside(names: seq<string>): string -> bool { x => x in names }

  /** `mergeModelNames` */
  function Merge(base: seq<string>, appended: seq<string>): seq<string> {
    Normalize(base) + Filter(Normalize(appended), Outside(Normalize(base)))
  }

  /** `subtractModelNames` */
  function Subtract(base: seq<string>, removed: seq<string>): seq<string> {
    Filter(Normalize(base), Outside(Normalize(removed)))
  }

  /** `intersectModelNames` */
  function Intersect(base: seq<string>, allowed: seq<string>): seq<string> {
    Filter(Normalize(base), Inside(Normalize(allowed)))
  }

  /** `applySelectedModelChanges` */
  function ApplySelected(origin: seq<string>, add: seq<string>, remove: seq<string>): seq<string> {
    var a := Normalize(add);
    Subtract(Merge(origin, a), Subtract(Normalize(remove), a))
  }

  // ---------------------------------------------------------------------------
  // Lists

  lemma {:induction false} FilterMembers(s: seq<string>, p: string -> bool)
    ensures forall x :: x in Filter(s, p) <==> x in s && p(x)
  {
    if s != [] {
      var init, last := s[..|s| - 1], s[|s| - 1];
      assert s == init + [last];
      FilterMembers(init, p);
    }
  }

  lemma {:induction false} FilterDistinct(s: seq<string>, p: string -> bool)
    requires Distinct(s)
    ensures Distinct(Filter(s, p))
  {
    if s != [] {
      var init := s[..|s| - 1];
      FilterDistinct(init, p);
      FilterMembers(init, p);
      assert s[|s| - 1] !in init;
    }
  }

  lemma {:induction false} FilterConcat(a: seq<string>, b: seq<string>, p: string -> bool)
    ensures Filter(a + b, p) == Filter(a, p) + Filter(b, p)
  {
    if b == [] {
      assert a + b == a;
    } else {
      assert (a + b)[..|a + b| - 1] == a + b[..|b| - 1];
      FilterConcat(a, b[..|b| - 1], p);
    }
  }

  lemma {:induction false} FilterSame(s: seq<string>, p: string -> bool, q: string -> bool)
    requires forall x :: x in s ==> p(x) == q(x)
    ensures Filter(s, p) == Filter(s, q)
  {
    if s != [] {
      assert s[|s| - 1] in s && forall x :: x in s[..|s| - 1] ==> x in s;
      FilterSame(s[..|s| - 1], p, q);
    }
  }

  lemma {:induction false} FilterAll(s: seq<string>, p: string -> bool)
    requires forall x :: x in s ==> p(x)
    ensures Filter(s, p) == s
  {
    if s != [] {
      assert s[|s| - 1] in s && forall x :: x in s[..|s| - 1] ==> x in s;
      FilterAll(s[..|s| - 1], p);
    }
  }

  lemma FilterSnoc(s: seq<string>, i: nat, p: string -> bool)
    requires i < |s|
    ensures Filter(s[..i + 1], p) == Filter(s[..i], p) + (if p(s[i]) then [s[i]] else [])
  {
    assert s[..i + 1][..i] == s[..i];
  }

  lemma {:induction false} UniqFacts(s: seq<string>)
    ensures Distinct(Uniq(s)) && forall x :: x in Uniq(s) <==> x in s
  {
    if s != [] {
      assert s == s[..|s| - 1] + [s[|s| - 1]];
      UniqFacts(s[..|s| - 1]);
    }
  }

  lemma {:induction false} UniqDistinct(s: seq<string>)
    requires Distinct(s)
    ensures Uniq(s) == s
  {
    if s != [] {
      UniqDistinct(s[..|s| - 1]);
      assert s[|s| - 1] !in s[..|s| - 1];
    }
  }

  lemma DistinctConcat(a: seq<string>, b: seq<string>)
    requires Distinct(a) && Distinct(b) && forall x :: x in b ==> x !in a
    ensures Distinct(a + b)
  {
    var s := a + b;
    forall i, j | 0 <= i < j < |s| ensures s[i] != s[j] {
      if i < |a| <= j {
        assert s[j] in b && s[i] in a;
      }
    }
  }

  // ---------------------------------------------------------------------------
  // Names

  lemma TrimGivesName(y: string)
    ensures Trim(y, GoSpace) != "" ==> IsName(Trim(y, GoSpace))
    ensures IsName(y) ==> Trim(y, GoSpace) == y
  {
    TrimLeftEnds(y, GoSpace);
    TrimRightEnds(TrimLeft(y, GoSpace), GoSpace);
    if IsName(y) {
      TrimPadded("", y, "", GoSpace);
      assert "" + y + "" == y;
    }
  }

  lemma {:induction false} TrimNamesMembers(s: seq<string>, x: string)
    ensures x in TrimNames(s) <==> x != "" && exists y :: y in s && x == Trim(y, GoSpace)
  {
    if s != [] {
      var init, last := s[..|s| - 1], s[|s| - 1];
      TrimNamesMembers(init, x);
      assert forall y :: y in s <==> y in init || y == last;
    }
  }

  lemma {:induction false} TrimNamesClean(s: seq<string>)
    ensures forall x :: x in TrimNames(s) ==> IsName(x)
    ensures (forall x :: x in s ==> IsName(x)) ==> TrimNames(s) == s
  {
    if s != [] {
      var init, last := s[..|s| - 1], s[|s| - 1];
      assert s == init + [last];
      TrimNamesClean(init);
      TrimGivesName(last);
      assert last in s && forall x :: x in init ==> x in s;
    }
  }

  /** Normalizing gives distinct, trimmed, non-blank names, and exactly those that occur. */
  lemma NormalizeFacts(s: seq<string>)
    ensures Normal(Normalize(s))
    ensures forall x :: x in Normalize(s) <==> x in TrimNames(s)
  {
    UniqFacts(TrimNames(s));
    TrimNamesClean(s);
  }

  /** Normal lists are left as they are, so normalizing twice is normalizing once. */
  lemma NormalizeNormal(s: seq<string>)
    requires Normal(s)
    ensures Normalize(s) == s
  {
    TrimNamesClean(s);
    UniqDistinct(s);
  }

  /** A name is in the normalized list if and only if it is not blank and something in the list trims to it. */
  lemma NormalizedExactly(s: seq<string>, x: string)
    ensures x in Normalize(s) <==> x != "" && exists y :: y in s && Trim(y, GoSpace) == x
  {
    NormalizeFacts(s);
    TrimNamesMembers(s, x);
  }

  lemma {:induction false} TrimNamesPrefix(s: seq<string>, k: nat)
    requires k <= |s|
    ensures TrimNames(s[..k]) <= TrimNames(s)
  {
    if k == |s| {
      assert s[..k] == s;
    } else {
      TrimNamesPrefix(s[..|s| - 1], k);
      assert s[..|s| - 1][..k] == s[..k];
    }
  }

  lemma {:induction false} UniqPrefix(s: seq<string>, k: nat)
    requires k <= |s|
    ensures Uniq(s[..k]) <= Uniq(s)
  {
    if k == |s| {
      assert s[..k] == s;
    } else {
      UniqPrefix(s[..|s| - 1], k);
      assert s[..|s| - 1][..k] == s[..k];
    }
  }

  /** Names keep the order in which they first occur: what comes from the front of a list comes first. */
  lemma NormalizeKeepsOrder(s: seq<string>, k: nat)
    requires k <= |s|
    ensures Normalize(s[..k]) <= Normalize(s)
  {
    TrimNamesPrefix(s, k);
    var t, n := TrimNames(s), |TrimNames(s[..k])|;
    assert t[..n] == TrimNames(s[..k]);
    UniqPrefix(t, n);
  }

  lemma FilterNormal(s: seq<string>, p: string -> bool)
    requires Normal(s)
    ensures Normal(Filter(s, p)) && forall x :: x in Filter(s, p) <==> x in s && p(x)
  {
    FilterDistinct(s, p);
    FilterMembers(s, p);
  }

  lemma MergeFacts(base: seq<string>, appended: seq<string>)
    ensures Normal(Merge(base, appended))
    ensures forall x :: x in Merge(base, appended) <==> x in Normalize(base) || x in Normalize(appended)
  {
    NormalizeFacts(base);
    NormalizeFacts(appended);
    FilterNormal(Normalize(appended), Outside(Normalize(base)));
    DistinctConcat(Normalize(base), Filter(Normalize(appended), Outside(Normalize(base))));
  }

  lemma SubtractFacts(base: seq<string>, removed: seq<string>)
    ensures Normal(Subtract(base, removed))
    ensures forall x :: x in Subtract(base, removed) <==> x in Normalize(base) && x !in Normalize(removed)
  {
    NormalizeFacts(base);
    FilterNormal(Normalize(base), Outside(Normalize(removed)));
  }

  lemma IntersectFacts(base: seq<string>, allowed: seq<string>)
    ensures Normal(Intersect(base, allowed))
    ensures forall x :: x in Intersect(base, allowed) <==> x in Normalize(base) && x in Normalize(allowed)
  {
    NormalizeFacts(base);
    FilterNormal(Normalize(base), Inside(Normalize(allowed)));
  }

  function KeptBy(add: seq<string>, remove: seq<string>): string -> bool {
    x => x !in remove || x in add
  }

  /** Selected changes: what is not removed keeps its order, additions follow, and an addition wins
      over a removal of the same name. */
  lemma SelectedChanges(origin: seq<string>, add: seq<string>, remove: seq<string>)
    requires Normal(origin) && Normal(add) && Normal(remove)
    ensures ApplySelected(origin, add, remove)
         == Filter(origin, KeptBy(add, remove)) + Filter(add, Outside(origin))
    ensures Normal(ApplySelected(origin, add, remove))
  {
    NormalizeNormal(origin);
    NormalizeNormal(add);
    NormalizeNormal(remove);
    var merged, out := Merge(origin, add), Subtract(remove, add);
    MergeFacts(origin, add);
    SubtractFacts(remove, add);
    SubtractFacts(merged, out);
    NormalizeNormal(merged);
    NormalizeNormal(out);
    var tail := Filter(add, Outside(origin));
    FilterMembers(add, Outside(origin));
    FilterConcat(origin, tail, Outside(out));
    FilterSame(origin, Outside(out), KeptBy(add, remove));
    FilterAll(tail, Outside(out));
  }

  // ---------------------------------------------------------------------------
  // The loop

  method MergeModelNames(base: seq<string>, appended: seq<string>) returns (merged: seq<string>)
    ensures merged == Merge(base, appended)
  {
    NormalizeFacts(appended);
    merged := AppendUnseen(Normalize(base), Normalize(appended));
  }

  /** The loop of `mergeModelNames`, with its list and its set of names seen. */
  method AppendUnseen(base: seq<string>, names: seq<string>) returns (merged: seq<string>)
    requires Distinct(names)
    ensures merged == base + Filter(names, Outside(base))
  {
    merged := base;
    var seen := set x | x in merged;
    for i := 0 to |names|
      invariant merged == base + Filter(names[..i], Outside(base))
      invariant forall x :: x in seen <==> x in base || x in names[..i]
    {
      FilterSnoc(names, i, Outside(base));
      assert names[..i + 1] == names[..i] + [names[i]];
      if names[i] !in seen {
        seen := seen + {names[i]};
        merged := merged + [names[i]];
      }
    }
    assert names[..|names|] == names;
  }
}
