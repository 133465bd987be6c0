/** Strings shared by the other modules: trimming, splitting and joining. */
module Text {

  datatype Option<+T> = None | Some(value: T)

  /** Go's `unicode.IsSpace`. */
  predicate GoSpace(c: char) {
    || '\t' <= c <= '\r' || c == ' ' || c == '\U{0085}' || UnicodeSpace(c)
  }

  /** The characters `String.prototype.trim` removes. */
  predicate JsSpace(c: char) {
    || '\t' <= c <= '\r' || c == ' ' || c == '\U{FEFF}' || UnicodeSpace(c)
  }

  predicate UnicodeSpace(c: char) {
    || c == '\U{00A0}' || c == '\U{1680}' || '\U{2000}' <= c <= '\U{200A}'
    || c == '\U{2028}' || c == '\U{2029}' || c == '\U{202F}' || c == '\U{205F}' || c == '\U{3000}'
  }

  predicate All(s: string, p: char -> bool) {
    forall i :: 0 <= i < |s| ==> p(s[i])
  }

  function TrimLeft(s: string, drop: char -> bool): (r: string)
    ensures |r| <= |s|
  {
    if s != "" && drop(s[0]) then TrimLeft(s[1..], drop) else s
  }

  function TrimRight(s: string, drop: char -> bool): (r: string)
    ensures |r| <= |s|
  {
    if s != "" && drop(s[|s| - 1]) then TrimRight(s[..|s| - 1], drop) else s
  }

  function Trim(s: string, drop: char -> bool): (r: string)
    ensures |r| <= |s|
  {
    TrimRight(TrimLeft(s, drop), drop)
  }

  lemma {:induction false} TrimLeftPadded(left: string, t: string, drop: char -> bool)
    requires All(left, drop) && (t != "" ==> !drop(t[0]))
    ensures TrimLeft(left + t, drop) == t
  {
    if left == "" {
      assert left + t == t;
    } else {
      assert (left + t)[1..] == left[1..] + t;
      TrimLeftPadded(left[1..], t, drop);
    }
  }

  lemma {:induction false} TrimRightPadded(t: string, right: string, drop: char -> bool)
    requires All(right, drop) && (t != "" ==> !drop(t[|t| - 1]))
    ensures TrimRight(t + right, drop) == t
  {
    if right == "" {
      assert t + right == t;
    } else {
      var init := right[..|right| - 1];
      assert (t + right)[..|t + right| - 1] == t + init;
      TrimRightPadded(t, init, drop);
    }
  }

  /** A text whose ends are kept survives trimming, whatever padding surrounds it. */
  lemma TrimPadded(left: string, t: string, right: string, drop: char -> bool)
    requires All(left, drop) && All(right, drop)
    requires t != "" && !drop(t[0]) && !drop(t[|t| - 1])
    ensures Trim(left + t + right, drop) == t
  {
    assert left + t + right == left + (t + right);
    assert (t + right)[0] == t[0];
    TrimLeftPadded(left, t + right, drop);
    TrimRightPadded(t, right, drop);
  }

  /** What trimming leaves is all of the text but its padding. */
  lemma {:induction false} TrimLeftEnds(s: string, drop: char -> bool)
    ensures var r := TrimLeft(s, drop); r == s[|s| - |r|..] && All(s[..|s| - |r|], drop)
    ensures var r := TrimLeft(s, drop); r != "" ==> !drop(r[0])
  {
    if s != "" && drop(s[0]) {
      TrimLeftEnds(s[1..], drop);
      var n := |s| - |TrimLeft(s, drop)|;
      assert s[..n] == [s[0]] + s[1..][..n - 1];
    }
  }

  lemma {:induction false} TrimRightKeeps(s: string, drop: char -> bool)
    requires s != "" && !drop(s[0])
    ensures TrimRight(s, drop) != ""
  {
    if drop(s[|s| - 1]) {
      TrimRightKeeps(s[..|s| - 1], drop);
    }
  }

  lemma {:induction false} TrimRightEnds(s: string, drop: char -> bool)
    ensures TrimRight(s, drop) <= s
    ensures TrimRight(s, drop) != "" ==> !drop(TrimRight(s, drop)[|TrimRight(s, drop)| - 1])
  {
    if s != "" && drop(s[|s| - 1]) {
      TrimRightEnds(s[..|s| - 1], drop);
    }
  }

  /** Trimming only loses characters. */
  lemma TrimMembers(s: string, drop: char -> bool, c: char)
    requires c in Trim(s, drop)
    ensures c in s
  {
    TrimLeftEnds(s, drop);
    TrimRightEnds(TrimLeft(s, drop), drop);
  }

  /** A text trims to nothing exactly when nothing in it is kept. */
  lemma TrimBlank(s: string, drop: char -> bool)
    ensures Trim(s, drop) == "" <==> All(s, drop)
  {
    var u := TrimLeft(s, drop);
    TrimLeftEnds(s, drop);
    if u == "" {
      assert s[..|s|] == s;
    } else {
      assert u[0] == s[|s| - |u|];
      TrimRightKeeps(u, drop);
    }
  }

  /** `strings.Split` on a one-character separator. */
  function Split(s: string, sep: char): (parts: seq<string>)
    ensures |parts| >= 1
    ensures forall p :: p in parts ==> sep !in p
  {
    if s == "" then [""]
    else
      var rest := Split(s[1..], sep);
      if s[0] == sep then [""] + rest else [[s[0]] + rest[0]] + rest[1..]
  }

  /** `strings.Join`. */
  function Join(parts: seq<string>, sep: char): string {
    if |parts| == 0 then ""
    else if |parts| == 1 then parts[0]
    else parts[0] + [sep] + Join(parts[1..], sep)
  }

  lemma {:induction false} SplitPrefix(a: string, s: string, sep: char)
    requires sep !in a
    ensures Split(a + s, sep) == [a + Split(s, sep)[0]] + Split(s, sep)[1..]
  {
    if a == "" {
      assert a + s == s;
      assert a + Split(s, sep)[0] == Split(s, sep)[0];
    } else {
      assert (a + s)[1..] == a[1..] + s;
      SplitPrefix(a[1..], s, sep);
      assert [a[0]] + (a[1..] + Split(s, sep)[0]) == a + Split(s, sep)[0];
    }
  }

  lemma {:induction false} SplitJoin(parts: seq<string>, sep: char)
    requires |parts| >= 1
    requires forall p :: p in parts ==> sep !in p
    ensures Split(Join(parts, sep), sep) == parts
  {
    if |parts| == 1 {
      SplitPrefix(parts[0], "", sep);
      assert parts[0] + "" == parts[0];
    } else {
      var rest := [sep] + Join(parts[1..], sep);
      SplitJoin(parts[1..], sep);
      assert rest[1..] == Join(parts[1..], sep);
      SplitPrefix(parts[0], rest, sep);
      assert parts[0] + rest == Join(parts, sep);
      assert parts[0] + "" == parts[0];
      assert ([""] + parts[1..])[1..] == parts[1..];
    }
  }

  lemma {:induction false} JoinEnds(parts: seq<string>, sep: char)
    requires |parts| >= 1 && forall p :: p in parts ==> p != "" && sep !in p
    ensures var t := Join(parts, sep); t != "" && t[0] != sep && t[|t| - 1] != sep
  {
    assert parts[0] in parts;
    assert parts[0][0] in parts[0] && parts[0][|parts[0]| - 1] in parts[0];
    if |parts| > 1 {
      assert forall p :: p in parts[1..] ==> p in parts;
      JoinEnds(parts[1..], sep);
    }
  }
}
