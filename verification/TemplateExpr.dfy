/** The hole-expression evaluator of the template runtime (Design-system/support.js, lines 198-290).
    It has no syntax tree: it cuts the text at brackets and operators found by scanning, and
    evaluates the pieces. Property reads, number parsing, truthiness and the two equalities of the
    host language are functions supplied by `Host`. */
module TemplateExpr {
  import opened Text

  datatype Value = Undefined | Null | Boolean(flag: bool) | Chars(text: string) | Handle(id: int)

  datatype Op = StrictEq | StrictNe | LooseEq | LooseNe

  datatype Host = Host(
    get: (Value, Value) -> Value,
    number: string -> Value,
    truthy: Value -> bool,
    strictEqual: (Value, Value) -> bool,
    looseEqual: (Value, Value) -> bool)
  {
    /** `cur == null ? undefined : cur[key]` */
    function Read(cur: Value, key: Value): Value {
      if cur.Undefined? || cur.Null? then Undefined else get(cur, key)
    }

    function Compare(op: Op, l: Value, r: Value): Value {
      match op
      case StrictEq => Boolean(strictEqual(l, r))
      case StrictNe => Boolean(!strictEqual(l, r))
      case LooseEq => Boolean(looseEqual(l, r))
      case LooseNe => Boolean(!looseEqual(l, r))
    }
  }

  function OpText(op: Op): string {
    match op
    case StrictEq => "==="
    case StrictNe => "!=="
    case LooseEq => "=="
    case LooseNe => "!="
  }

  // ---------------------------------------------------------------------------
  // Lexical pieces

  predicate IdentStart(c: char) { 'a' <= c <= 'z' || 'A' <= c <= 'Z' || c == '_' || c == '$' }

  predicate Digit(c: char) { '0' <= c <= '9' }

  predicate IdentPart(c: char) { IdentStart(c) || Digit(c) }

  /** Length of the longest prefix made of characters satisfying `p`. */
  function Run(s: string, p: char -> bool): (n: nat)
    ensures n <= |s|
  {
    if s != "" && p(s[0]) then 1 + Run(s[1..], p) else 0
  }

  lemma {:induction false} RunIsLongest(s: string, p: char -> bool)
    ensures All(s[..Run(s, p)], p)
    ensures Run(s, p) < |s| ==> !p(s[Run(s, p)])
  {
    if s != "" && p(s[0]) {
      RunIsLongest(s[1..], p);
    }
  }

  /** Length matched by `IDENT_RE`; 0 when it does not match. */
  function IdentLength(s: string): (n: nat)
    ensures n <= |s|
  {
    if s != "" && IdentStart(s[0]) then Run(s, IdentPart) else 0
  }

  /** Length of a name after a dot: an identifier, or else digits. */
  function NameLength(s: string): (n: nat)
    ensures n <= |s|
  {
    if IdentLength(s) > 0 then IdentLength(s) else Run(s, Digit)
  }

  /** `NUMBER_RE` */
  predicate IsNumber(s: string) {
    var body := if s != "" && s[0] == '-' then s[1..] else s;
    var n := Run(body, Digit);
    && n > 0
    && (n == |body| || (body[n] == '.' && n + 1 < |body| && All(body[n + 1..], Digit)))
  }

  predicate IsQuote(c: char) { c == '"' || c == '\'' }

  // ---------------------------------------------------------------------------
  // Nesting and the two scans

  datatype Brackets = Round | Square | Both

  function Weight(k: Brackets, c: char): int {
    if c == '(' && k != Square then 1
    else if c == ')' && k != Square then -1
    else if c == '[' && k != Round then 1
    else if c == ']' && k != Round then -1
    else 0
  }

  /** Opening minus closing brackets of kind `k` in `s`. */
  function Nest(k: Brackets, s: string): int {
    if s == "" then 0 else Nest(k, s[..|s| - 1]) + Weight(k, s[|s| - 1])
  }

  /** The parenthesis at `i` brings the count of open parentheses back to zero. */
  predicate ClosesAt(e: string, i: nat) {
    i < |e| && e[i] == ')' && Nest(Round, e[..i + 1]) == 0
  }

  /** Nothing before the last character closes the first parenthesis. */
  predicate WrapsWhole(e: string) {
    forall i :: 0 <= i < |e| - 1 ==> !ClosesAt(e, i)
  }

  predicate OpChar(c: char) { c == '=' || c == '!' }

  /** An equality operator starts at `i`, outside every bracket, with something to its left. */
  predicate EqualityAt(e: string, i: nat) {
    && i + 1 < |e|
    && OpChar(e[i]) && e[i + 1] == '='
    && Nest(Both, e[..i]) == 0
    && (i == 0 || !OpChar(e[i - 1]))
    && !All(e[..i], JsSpace)
  }

  function OpAt(e: string, i: nat): (op: Op)
    requires i + 1 < |e| && OpChar(e[i]) && e[i + 1] == '='
    ensures i + |OpText(op)| <= |e| && OpText(op) == e[i..i + |OpText(op)|]
  {
    var strict := i + 2 < |e| && e[i + 2] == '=';
    if e[i] == '=' then (if strict then StrictEq else LooseEq)
    else (if strict then StrictNe else LooseNe)
  }

  datatype Equality = Equality(index: nat, op: Op)

  /** The least index from `k` on that satisfies `p`. */
  function First(n: nat, k: nat, p: nat -> bool): (r: Option<nat>)
    requires k <= n
    ensures r.Some? ==> k <= r.value < n && p(r.value) && forall j :: k <= j < r.value ==> !p(j)
    ensures r.None? ==> forall j :: k <= j < n ==> !p(j)
    decreases n - k
  {
    if k == n then None else if p(k) then Some(k) else First(n, k + 1, p)
  }

  function Equalities(e: string): nat -> bool {
    (i: nat) => EqualityAt(e, i)
  }

  lemma EqualityNotFirst(e: string)
    ensures !EqualityAt(e, 0)
  {
    assert e[..0] == "";
  }

  /** The leftmost top-level equality. */
  function FirstEquality(e: string): (r: Option<Equality>)
    ensures r.Some? ==> 0 < r.value.index && r.value.index + |OpText(r.value.op)| <= |e|
  {
    match First(|e|, 0, Equalities(e))
    case None => None
    case Some(i) =>
      EqualityNotFirst(e);
      Some(Equality(i, OpAt(e, i)))
  }

  /** `s` starts inside `depth` square brackets; where the last of them closes. */
  function ClosingBracket(s: string, depth: nat): (r: Option<nat>)
    requires depth > 0
    ensures r.Some? ==> r.value < |s| && s[r.value] == ']'
  {
    if s == "" then None
    else if s[0] == ']' && depth == 1 then Some(0)
    else
      match ClosingBracket(s[1..], depth + Weight(Square, s[0]))
      case None => None
      case Some(j) => Some(j + 1)
  }

  lemma NestOne(k: Brackets, c: char)
    ensures Nest(k, [c]) == Weight(k, c)
  {
    assert [c][..0] == "";
  }

  lemma {:induction false} NestConcat(k: Brackets, a: string, b: string)
    ensures Nest(k, a + b) == Nest(k, a) + Nest(k, b)
  {
    if b == "" {
      assert a + b == a;
    } else {
      assert (a + b)[..|a + b| - 1] == a + b[..|b| - 1];
      NestConcat(k, a, b[..|b| - 1]);
    }
  }

  // ---------------------------------------------------------------------------
  // The evaluator, as a function of the text

  /** How `resolve` cuts a text before it evaluates the pieces. */
  datatype Cut =
    | Blank
    | Group(inner: string)
    | Compared(left: string, op: Op, right: string)
    | Negated(arg: string)
    | Constant(value: Value)
    | Numeral(digits: string)
    | Path(text: string)

  function CutText(src: string): (c: Cut)
    ensures c.Group? ==> |c.inner| < |src|
    ensures c.Compared? ==> |c.left| < |src| && |c.right| < |src|
    ensures c.Negated? ==> |c.arg| < |src|
    ensures c.Path? ==> |c.text| <= |src|
  {
    var e := Trim(src, JsSpace);
    if e == "" then Blank else CutTrimmed(e)
  }

  function CutTrimmed(e: string): (c: Cut)
    requires e != ""
    ensures c.Group? ==> |c.inner| < |e|
    ensures c.Compared? ==> |c.left| < |e| && |c.right| < |e|
    ensures c.Negated? ==> |c.arg| < |e|
    ensures c.Path? ==> c.text == e
  {
    if e[0] == '(' && e[|e| - 1] == ')' && WrapsWhole(e) then Group(e[1..|e| - 1])
    else
      match FirstEquality(e)
      case Some(eq) => Compared(e[..eq.index], eq.op, e[eq.index + |OpText(eq.op)|..])
      case None => if e[0] == '!' then Negated(e[1..]) else Atom(e)
  }

  /** Constants, numbers, quoted strings and paths. */
  function Atom(e: string): (c: Cut)
    requires e != ""
    ensures c.Constant? || c.Numeral? || c == Path(e)
  {
    if e == "true" then Constant(Boolean(true))
    else if e == "false" then Constant(Boolean(false))
    else if e == "null" then Constant(Null)
    else if e == "undefined" then Constant(Undefined)
    else if IsNumber(e) then Numeral(e)
    else if |e| >= 2 && IsQuote(e[0]) && e[|e| - 1] == e[0] then Constant(Chars(e[1..|e| - 1]))
    else Path(e)
  }

  /** `resolve`. Every nested evaluation receives strictly shorter text. */
  function Resolve(h: Host, vals: Value, src: string): Value
    decreases |src|, 1
  {
    match CutText(src)
    case Blank => Undefined
    case Group(inner) => Resolve(h, vals, inner)
    case Compared(l, op, r) => h.Compare(op, Resolve(h, vals, l), Resolve(h, vals, r))
    case Negated(arg) => Boolean(!h.truthy(Resolve(h, vals, arg)))
    case Constant(v) => v
    case Numeral(digits) => h.number(digits)
    case Path(text) => PathValue(h, vals, text)
  }

  /** `resolvePath` */
  function PathValue(h: Host, vals: Value, e: string): Value
    decreases |e|, 0
  {
    var n := IdentLength(e);
    if n == 0 then Undefined
    else PathTail(h, vals, h.Read(vals, Chars(e[..n])), e[n..])
  }

  /** The next step of a path. */
  datatype Segment =
    | Done
    | Dot(name: string, after: string)
    | Bracket(key: string, after: string)
    | Malformed

  function NextSegment(rest: string): (g: Segment)
    ensures g.Bracket? ==> |g.key| < |rest|
    ensures g.Dot? || g.Bracket? ==> |g.after| < |rest| && g.after == rest[|rest| - |g.after|..]
  {
    if rest == "" then Done
    else if rest[0] == '.' then
      var n := NameLength(rest[1..]);
      if n == 0 then Malformed else Dot(rest[1..n + 1], rest[n + 1..])
    else if rest[0] == '[' then
      match ClosingBracket(rest[1..], 1)
      case None => Malformed
      case Some(j) => Bracket(rest[1..j + 1], rest[j + 2..])
    else Malformed
  }

  /** What a path yields once `cur` has been read and `rest` remains. */
  function PathTail(h: Host, vals: Value, cur: Value, rest: string): Value
    decreases |rest|, 0
  {
    match NextSegment(rest)
    case Done => cur
    case Dot(name, after) => PathTail(h, vals, h.Read(cur, Chars(name)), after)
    case Bracket(key, after) => PathTail(h, vals, h.Read(cur, Resolve(h, vals, key)), after)
    case Malformed => Undefined
  }

  // ---------------------------------------------------------------------------
  // The evaluator as the runtime runs it, with its scanning loops

  method ParensWrapWhole(e: string) returns (whole: bool)
    ensures whole == WrapsWhole(e)
  {
    var depth := 0;
    var i := 0;
    while i < |e| - 1
      invariant 0 <= i && (e != "" ==> i <= |e| - 1) && (e == "" ==> i == 0)
      invariant depth == Nest(Round, e[..i])
      invariant forall j :: 0 <= j < i ==> !ClosesAt(e, j)
    {
      assert e[..i + 1][..i] == e[..i];
      if e[i] == '(' {
        depth := depth + 1;
      } else if e[i] == ')' {
        depth := depth - 1;
        if depth == 0 {
          assert ClosesAt(e, i);
          return false;
        }
      }
      i := i + 1;
    }
    return true;
  }

  method FindTopLevelEquality(e: string) returns (r: Option<Equality>)
    ensures r == FirstEquality(e)
  {
    var depth := 0;
    var i := 0;
    while i < |e|
      invariant 0 <= i <= |e|
      invariant depth == Nest(Both, e[..i])
      invariant First(|e|, 0, Equalities(e)) == First(|e|, i, Equalities(e))
    {
      var c := e[i];
      assert e[..i + 1][..i] == e[..i];
      if c == '[' || c == '(' {
        depth := depth + 1;
      } else if c == ']' || c == ')' {
        depth := depth - 1;
      } else if depth == 0 && (c == '=' || c == '!') && i + 1 < |e| && e[i + 1] == '=' {
        if i > 0 && (e[i - 1] == '=' || e[i - 1] == '!') {
        } else if Trim(e[..i], JsSpace) == "" {
          TrimBlank(e[..i], JsSpace);
        } else {
          TrimBlank(e[..i], JsSpace);
          return Some(Equality(i, OpAt(e, i)));
        }
      }
      i := i + 1;
    }
    return None;
  }

  /** One step of the search for a closing bracket. */
  lemma ClosingStep(s: string, j: nat, depth: nat)
    requires j < |s| && depth > 0
    ensures var w := depth + Weight(Square, s[j]);
            ClosesFrom(s, j, depth) == if s[j] == ']' && depth == 1 then Some(j) else ClosesFrom(s, j + 1, w)
  {
    assert s[j..][1..] == s[j + 1..];
  }

  /** Where the last of `depth` brackets closes, from `j` on. */
  function ClosesFrom(s: string, j: nat, depth: int): Option<nat>
    requires j <= |s|
  {
    if depth <= 0 then None
    else
      match ClosingBracket(s[j..], depth)
      case None => None
      case Some(k) => Some(j + k)
  }

  /** The inner loop of `resolvePath`: `s` is the text after an opening bracket. */
  method FindClosing(s: string) returns (r: Option<nat>)
    ensures r == ClosingBracket(s, 1)
  {
    assert s[0..] == s;
    ghost var found := ClosesFrom(s, 0, 1);
    var depth := 1;
    var j := 0;
    while j < |s| && depth > 0
      invariant 0 <= j <= |s| && depth >= 1
      invariant ClosesFrom(s, j, depth) == found
      decreases |s| - j
    {
      ClosingStep(s, j, depth);
      if s[j] == '[' {
        depth := depth + 1;
      } else if s[j] == ']' {
        depth := depth - 1;
        if depth == 0 { return Some(j); }
      }
      j := j + 1;
    }
    return None;
  }

  method Dissect(src: string) returns (c: Cut)
    ensures c == CutText(src)
  {
    var e := Trim(src, JsSpace);
    if e == "" { return Blank; }
    c := DissectTrimmed(e);
  }

  method DissectTrimmed(e: string) returns (c: Cut)
    requires e != ""
    ensures c == CutTrimmed(e)
  {
    if e[0] == '(' && e[|e| - 1] == ')' {
      var whole := ParensWrapWhole(e);
      if whole { return Group(e[1..|e| - 1]); }
    }
    var eq := FindTopLevelEquality(e);
    if eq.Some? {
      return Compared(e[..eq.value.index], eq.value.op, e[eq.value.index + |OpText(eq.value.op)|..]);
    }
    if e[0] == '!' { return Negated(e[1..]); }
    return Atom(e);
  }

  method Evaluate(h: Host, vals: Value, src: string) returns (v: Value)
    ensures v == Resolve(h, vals, src)
    decreases |src|, 2
  {
    var c := Dissect(src);
    match c
    case Blank => v := Undefined;
    case Group(inner) => v := Evaluate(h, vals, inner);
    case Compared(l, op, r) =>
      var lv := Evaluate(h, vals, l);
      var rv := Evaluate(h, vals, r);
      v := h.Compare(op, lv, rv);
    case Negated(arg) =>
      var av := Evaluate(h, vals, arg);
      v := Boolean(!h.truthy(av));
    case Constant(value) => v := value;
    case Numeral(digits) => v := h.number(digits);
    case Path(text) => v := EvaluatePath(h, vals, text);
  }

  method ReadSegment(rest: string) returns (g: Segment)
    ensures g == NextSegment(rest)
  {
    if rest == "" { return Done; }
    if rest[0] == '.' {
      var n := NameLength(rest[1..]);
      if n == 0 { return Malformed; }
      return Dot(rest[1..n + 1], rest[n + 1..]);
    }
    if rest[0] == '[' {
      var close := FindClosing(rest[1..]);
      if close.None? { return Malformed; }
      var j := close.value;
      return Bracket(rest[1..j + 1], rest[j + 2..]);
    }
    return Malformed;
  }

  /** The path loop, from the value of the head on. */
  method WalkPath(h: Host, vals: Value, head: Value, e: string, n: nat) returns (cur: Value)
    requires 0 < n <= |e|
    ensures cur == PathTail(h, vals, head, e[n..])
    decreases |e|, 0
  {
    cur := head;
    var i := n;
    ghost var all, rest := PathTail(h, vals, head, e[n..]), e[n..];
    while i < |e|
      invariant n <= i <= |e| && rest == e[i..]
      invariant all == PathTail(h, vals, cur, rest)
      decreases |e| - i
    {
      var g := ReadSegment(e[i..]);
      if g.Dot? {
        cur := h.Read(cur, Chars(g.name));
      } else if g.Bracket? {
        var key := Evaluate(h, vals, g.key);
        cur := h.Read(cur, key);
      } else {
        return Undefined;
      }
      i, rest := |e| - |g.after|, g.after;
    }
  }

  method EvaluatePath(h: Host, vals: Value, e: string) returns (v: Value)
    ensures v == PathValue(h, vals, e)
    decreases |e|, 1
  {
    var n := IdentLength(e);
    if n == 0 { return Undefined; }
    v := WalkPath(h, vals, h.Read(vals, Chars(e[..n])), e, n);
  }
}
