/** A grammar for hole expressions, with the meaning of its trees, and the proof that the
    text-cutting evaluator of `TemplateExpr` computes that meaning on every written form:
    any spacing, redundant parentheses included. */
module TemplateGrammar {
  import opened Text
  import opened TemplateExpr

  datatype Word = TrueWord | FalseWord | NullWord | UndefinedWord

  /** A written expression. Pads are the white space between tokens. */
  datatype Expr =
    | Keyword(word: Word)
    | Number(digits: string)
    | Quoted(quote: char, body: string)
    | Var(name: string)
    | Member(base: Expr, name: string)
    | Index(base: Expr, padL: string, key: Expr, padR: string)
    | Not(pad: string, arg: Expr)
    | Compare(left: Expr, padL: string, op: Op, padR: string, right: Expr)
    | Paren(padL: string, inner: Expr, padR: string)

  function WordText(w: Word): string {
    match w
    case TrueWord => "true"
    case FalseWord => "false"
    case NullWord => "null"
    case UndefinedWord => "undefined"
  }

  function WordValue(w: Word): Value {
    match w
    case TrueWord => Boolean(true)
    case FalseWord => Boolean(false)
    case NullWord => Null
    case UndefinedWord => Undefined
  }

  function Render(e: Expr): string {
    match e
    case Keyword(w) => WordText(w)
    case Number(digits) => digits
    case Quoted(q, body) => [q] + body + [q]
    case Var(name) => name
    case Member(base, name) => Render(base) + "." + name
    case Index(base, l, key, r) => Render(base) + "[" + (l + Render(key) + r) + "]"
    case Not(pad, arg) => "!" + pad + Render(arg)
    case Compare(left, l, op, r, right) => Render(left) + l + OpText(op) + (r + Render(right))
    case Paren(l, inner, r) => "(" + (l + Render(inner) + r) + ")"
  }

  /** The meaning of a tree. */
  function Eval(h: Host, vals: Value, e: Expr): Value {
    match e
    case Keyword(w) => WordValue(w)
    case Number(digits) => h.number(digits)
    case Quoted(_, body) => Chars(body)
    case Var(name) => h.Read(vals, Chars(name))
    case Member(base, name) => h.Read(Eval(h, vals, base), Chars(name))
    case Index(base, _, key, _) => h.Read(Eval(h, vals, base), Eval(h, vals, key))
    case Not(_, arg) => Boolean(!h.truthy(Eval(h, vals, arg)))
    case Compare(left, _, op, _, right) => h.Compare(op, Eval(h, vals, left), Eval(h, vals, right))
    case Paren(_, inner, _) => Eval(h, vals, inner)
  }

  predicate IsIdent(s: string) { s != "" && IdentStart(s[0]) && All(s, IdentPart) }

  predicate IsName(s: string) { IsIdent(s) || (s != "" && All(s, Digit)) }

  predicate IsBracket(c: char) { c == '(' || c == ')' || c == '[' || c == ']' }

  /** What a quoted string may hold: anything but brackets and the digraphs `==` and `!=`. */
  predicate SafeBody(s: string) {
    && (forall i :: 0 <= i < |s| ==> !IsBracket(s[i]))
    && (forall i :: 0 <= i < |s| - 1 ==> !(OpChar(s[i]) && s[i + 1] == '='))
  }

  predicate IsPath(e: Expr) { e.Var? || e.Member? || e.Index? }

  /** Trees that can be written: paths start at a name, and there is no bare comparison to the left
      of an operator or under `!`. */
  predicate WellFormed(e: Expr) {
    match e
    case Keyword(_) => true
    case Number(digits) => IsNumber(digits)
    case Quoted(q, body) => IsQuote(q) && SafeBody(body)
    case Var(name) => IsIdent(name)
    case Member(base, name) => IsPath(base) && WellFormed(base) && IsName(name)
    case Index(base, l, key, r) =>
      IsPath(base) && WellFormed(base) && All(l, JsSpace) && WellFormed(key) && Bare(key) && All(r, JsSpace)
    case Not(pad, arg) => All(pad, JsSpace) && WellFormed(arg) && Bare(arg) && !arg.Compare?
    case Compare(left, l, _, r, right) =>
      && WellFormed(left) && Bare(left) && !left.Compare? && All(l, JsSpace)
      && All(r, JsSpace) && WellFormed(right) && Bare(right)
    case Paren(l, inner, r) => All(l, JsSpace) && WellFormed(inner) && Bare(inner) && All(r, JsSpace)
  }

  /** A keyword standing alone is not a variable; as the base of a path it is an ordinary name. */
  predicate Bare(e: Expr) { e.Var? ==> !IsWord(e.name) }

  predicate IsWord(s: string) { s == "true" || s == "false" || s == "null" || s == "undefined" }

  // ---------------------------------------------------------------------------
  // Balanced and quiet texts

  ghost predicate Above(k: Brackets, s: string, i: nat) { i <= |s| ==> Nest(k, s[..i]) >= 0 }

  ghost predicate Balanced(k: Brackets, s: string) {
    Nest(k, s) == 0 && forall i: nat :: i <= |s| ==> Above(k, s, i)
  }

  predicate Digraph(s: string, i: nat) { i + 1 < |s| && OpChar(s[i]) && s[i + 1] == '=' }

  ghost predicate LoudAt(s: string, i: nat) { Digraph(s, i) && Nest(Both, s[..i]) == 0 }

  /** No operator digraph outside brackets. */
  ghost predicate Quiet(s: string) { forall i: nat :: i < |s| ==> !LoudAt(s, i) }

  predicate NoBrackets(s: string) { forall i :: 0 <= i < |s| ==> !IsBracket(s[i]) }

  lemma {:induction false} NestFlat(k: Brackets, s: string)
    requires NoBrackets(s)
    ensures Nest(k, s) == 0
  {
    if s != "" { NestFlat(k, s[..|s| - 1]); }
  }

  lemma BalancedFlat(k: Brackets, s: string)
    requires NoBrackets(s)
    ensures Balanced(k, s)
  {
    NestFlat(k, s);
    forall i: nat | i <= |s| ensures Above(k, s, i) {
      NestFlat(k, s[..i]);
    }
  }

  lemma BalancedConcat(k: Brackets, a: string, b: string)
    requires Balanced(k, a) && Balanced(k, b)
    ensures Balanced(k, a + b)
  {
    NestConcat(k, a, b);
    forall i: nat | i <= |a + b| ensures Above(k, a + b, i) {
      if i <= |a| {
        assert (a + b)[..i] == a[..i] && Above(k, a, i);
      } else {
        assert (a + b)[..i] == a + b[..i - |a|] && Above(k, b, i - |a|);
        NestConcat(k, a, b[..i - |a|]);
      }
    }
  }

  predicate Pair(open: char, close: char) { (open == '(' && close == ')') || (open == '[' && close == ']') }

  /** Nesting at each cut inside a wrapped text. */
  lemma NestWrapped(k: Brackets, open: char, t: string, close: char, i: nat)
    requires Pair(open, close) && i <= |t|
    ensures Nest(k, ([open] + t + [close])[..i + 1]) == Weight(k, open) + Nest(k, t[..i])
  {
    assert ([open] + t + [close])[..i + 1] == [open] + t[..i];
    NestConcat(k, [open], t[..i]);
    NestOne(k, open);
  }

  lemma BalancedWrapped(k: Brackets, open: char, t: string, close: char)
    requires Pair(open, close) && Balanced(k, t)
    ensures Balanced(k, [open] + t + [close])
  {
    var s := [open] + t + [close];
    NestWrapped(k, open, t, close, |t|);
    assert t[..|t|] == t && s[..|s| - 1] == s[..|t| + 1];
    forall i: nat | i <= |s| ensures Above(k, s, i) {
      if 0 < i < |s| {
        NestWrapped(k, open, t, close, i - 1);
        assert Above(k, t, i - 1);
      } else if i == |s| {
        assert s[..i] == s;
      }
    }
  }

  lemma QuietWrapped(open: char, t: string, close: char)
    requires Pair(open, close) && Balanced(Both, t)
    ensures Quiet([open] + t + [close])
  {
    var s := [open] + t + [close];
    forall i: nat | i < |s| ensures !LoudAt(s, i) {
      if 0 < i < |s| - 1 {
        NestWrapped(Both, open, t, close, i - 1);
        assert Above(Both, t, i - 1);
      }
    }
  }

  lemma QuietConcat(a: string, b: string)
    requires Quiet(a) && Quiet(b) && Nest(Both, a) == 0
    requires a == "" || b == "" || !OpChar(a[|a| - 1]) || b[0] != '='
    ensures Quiet(a + b)
  {
    forall i: nat | i < |a + b| ensures !LoudAt(a + b, i) {
      if i < |a| {
        if LoudAt(a + b, i) { LoudLeft(a, b, i); }
      } else {
        if LoudAt(a + b, i) { LoudRight(a, b, i); }
      }
    }
  }

  lemma LoudLeft(a: string, b: string, i: nat)
    requires i < |a| && LoudAt(a + b, i)
    requires b == "" || !OpChar(a[|a| - 1]) || b[0] != '='
    ensures LoudAt(a, i)
  {
    assert (a + b)[..i] == a[..i];
  }

  lemma LoudRight(a: string, b: string, i: nat)
    requires |a| <= i && LoudAt(a + b, i) && Nest(Both, a) == 0
    ensures LoudAt(b, i - |a|)
  {
    assert (a + b)[..i] == a + b[..i - |a|];
    NestConcat(Both, a, b[..i - |a|]);
  }

  // ---------------------------------------------------------------------------
  // Shapes of written forms

  predicate Plain(c: char) { IdentPart(c) || c == '-' || c == '.' }

  /** A number without its sign. */
  lemma UnsignedIsPlain(body: string, n: nat)
    requires n == Run(body, Digit) && n > 0
    requires n == |body| || (body[n] == '.' && n + 1 < |body| && All(body[n + 1..], Digit))
    ensures body != "" && Digit(body[0]) && All(body, Plain)
  {
    RunIsLongest(body, Digit);
    assert body[..n][0] == body[0];
    forall i | 0 <= i < |body| ensures Plain(body[i]) {
      if i < n {
        assert Digit(body[..n][i]);
      } else if i > n {
        assert Digit(body[n + 1..][i - n - 1]);
      }
    }
  }

  lemma NumberIsPlain(s: string)
    requires IsNumber(s)
    ensures s != "" && All(s, Plain) && (s[0] == '-' || Digit(s[0]))
  {
    if s != "" && s[0] == '-' {
      UnsignedIsPlain(s[1..], Run(s[1..], Digit));
      forall i | 0 < i < |s| ensures Plain(s[i]) { assert Plain(s[1..][i - 1]); }
    } else {
      UnsignedIsPlain(s, Run(s, Digit));
    }
  }

  /** Ends that are neither spaces nor operator characters. */
  predicate CleanEnds(s: string) {
    && s != "" && !JsSpace(s[0]) && s[0] != '='
    && !JsSpace(s[|s| - 1]) && !OpChar(s[|s| - 1])
  }

  ghost predicate Tidy(s: string) {
    CleanEnds(s) && Balanced(Round, s) && Balanced(Square, s) && Balanced(Both, s)
  }

  lemma FlatTidy(s: string)
    requires CleanEnds(s) && NoBrackets(s)
    ensures Tidy(s)
  {
    BalancedFlat(Round, s);
    BalancedFlat(Square, s);
    BalancedFlat(Both, s);
  }

  lemma SpacesBalanced(k: Brackets, s: string)
    requires All(s, JsSpace)
    ensures Balanced(k, s) && Quiet(s)
  {
    BalancedFlat(k, s);
  }

  lemma PaddedBalanced(k: Brackets, l: string, t: string, r: string)
    requires All(l, JsSpace) && All(r, JsSpace) && Balanced(k, t)
    ensures Balanced(k, l + t + r)
  {
    SpacesBalanced(k, l);
    SpacesBalanced(k, r);
    BalancedConcat(k, l, t);
    BalancedConcat(k, l + t, r);
  }

  lemma WrappedTidy(open: char, l: string, t: string, r: string, close: char)
    requires Pair(open, close) && All(l, JsSpace) && All(r, JsSpace)
    requires Balanced(Round, t) && Balanced(Square, t) && Balanced(Both, t)
    ensures Tidy([open] + (l + t + r) + [close]) && Quiet([open] + (l + t + r) + [close])
    ensures Balanced(Round, l + t + r) && Balanced(Square, l + t + r)
  {
    PaddedBalanced(Round, l, t, r);
    PaddedBalanced(Square, l, t, r);
    PaddedBalanced(Both, l, t, r);
    BalancedWrapped(Round, open, l + t + r, close);
    BalancedWrapped(Square, open, l + t + r, close);
    BalancedWrapped(Both, open, l + t + r, close);
    QuietWrapped(open, l + t + r, close);
  }

  lemma TidyConcat(a: string, b: string)
    requires Tidy(a) && Balanced(Round, b) && Balanced(Square, b) && Balanced(Both, b)
    requires b != "" && !JsSpace(b[|b| - 1]) && !OpChar(b[|b| - 1])
    ensures Tidy(a + b)
  {
    BalancedConcat(Round, a, b);
    BalancedConcat(Square, a, b);
    BalancedConcat(Both, a, b);
  }

  lemma PlainTidy(s: string)
    requires s != "" && All(s, Plain)
    ensures Tidy(s) && Quiet(s)
  {
    FlatTidy(s);
  }

  lemma QuotedTidy(q: char, body: string)
    requires IsQuote(q) && SafeBody(body)
    ensures Tidy([q] + body + [q]) && Quiet([q] + body + [q])
  {
    var s := [q] + body + [q];
    assert forall i :: 0 < i < |s| - 1 ==> s[i] == body[i - 1];
    FlatTidy(s);
    forall i: nat | i < |s| ensures !LoudAt(s, i) {
      if 0 < i < |s| - 2 {
        assert s[i] == body[i - 1] && s[i + 1] == body[i];
      }
    }
  }

  /** Written forms are balanced, and only a bare comparison shows an operator outside brackets. */
  lemma {:induction false} Shape(e: Expr)
    requires WellFormed(e)
    ensures Tidy(Render(e))
    ensures !e.Compare? ==> Quiet(Render(e))
  {
    match e
    case Keyword(w) =>
      PlainTidy(WordText(w));
    case Number(digits) =>
      NumberIsPlain(digits);
      PlainTidy(digits);
    case Quoted(q, body) =>
      QuotedTidy(q, body);
    case Var(name) =>
      PlainTidy(name);
    case Member(base, name) =>
      Shape(base);
      MemberTidy(Render(base), name);
    case Index(base, l, key, r) =>
      Shape(base);
      Shape(key);
      IndexTidy(Render(base), l, Render(key), r);
    case Not(pad, arg) =>
      Shape(arg);
      NotTidy(pad, Render(arg));
    case Compare(left, l, op, r, right) =>
      Shape(left);
      Shape(right);
      CompareTidy(Render(left), l, op, r, Render(right));
    case Paren(l, inner, r) =>
      Shape(inner);
      WrappedTidy('(', l, Render(inner), r, ')');
  }

  lemma MemberTidy(base: string, name: string)
    requires Tidy(base) && Quiet(base) && IsName(name)
    ensures Tidy(base + "." + name) && Quiet(base + "." + name)
  {
    var step := "." + name;
    PlainTidy(step);
    TidyConcat(base, step);
    QuietConcat(base, step);
    assert base + "." + name == base + step;
  }

  lemma IndexTidy(base: string, l: string, key: string, r: string)
    requires Tidy(base) && Quiet(base) && All(l, JsSpace) && Tidy(key) && All(r, JsSpace)
    ensures Tidy(base + "[" + (l + key + r) + "]") && Quiet(base + "[" + (l + key + r) + "]")
  {
    WrappedTidy('[', l, key, r, ']');
    var step := "[" + (l + key + r) + "]";
    TidyConcat(base, step);
    QuietConcat(base, step);
    assert base + "[" + (l + key + r) + "]" == base + step;
  }

  lemma NotTidy(pad: string, t: string)
    requires All(pad, JsSpace) && Tidy(t)
    ensures Tidy("!" + pad + t)
    ensures Quiet(t) ==> Quiet("!" + pad + t)
  {
    var front := "!" + pad;
    assert forall i :: 0 < i < |front| ==> front[i] == pad[i - 1];
    BalancedFlat(Round, front);
    BalancedFlat(Square, front);
    BalancedFlat(Both, front);
    BalancedConcat(Round, front, t);
    BalancedConcat(Square, front, t);
    BalancedConcat(Both, front, t);
    if Quiet(t) {
      QuietConcat(front, t);
    }
  }

  lemma CompareTidy(left: string, l: string, op: Op, r: string, right: string)
    requires Tidy(left) && All(l, JsSpace) && All(r, JsSpace) && Tidy(right)
    ensures Tidy(left + l + OpText(op) + (r + right))
  {
    var middle := l + OpText(op) + r;
    assert NoBrackets(middle);
    BalancedFlat(Round, middle);
    BalancedFlat(Square, middle);
    BalancedFlat(Both, middle);
    BalancedConcat(Round, middle, right);
    BalancedConcat(Square, middle, right);
    BalancedConcat(Both, middle, right);
    TidyConcat(left, middle + right);
    assert left + l + OpText(op) + (r + right) == left + (middle + right);
  }

  /** What the first character of a written form tells. */
  lemma {:induction false} FirstChar(e: Expr)
    requires WellFormed(e)
    ensures Render(e) != ""
    ensures IsPath(e) || e.Keyword? ==> IdentStart(Render(e)[0])
    ensures e.Number? ==> Digit(Render(e)[0]) || Render(e)[0] == '-'
    ensures Render(e)[0] == '!' ==> e.Not? || e.Compare?
    ensures Render(e)[0] == '(' ==> e.Paren? || e.Compare?
  {
    match e
    case Keyword(w) =>
    case Number(digits) => NumberIsPlain(digits);
    case Quoted(q, body) =>
    case Var(name) =>
    case Member(base, name) => FirstChar(base);
    case Index(base, l, key, r) => FirstChar(base);
    case Not(pad, arg) =>
    case Compare(left, l, op, r, right) => FirstChar(left);
    case Paren(l, inner, r) =>
  }

  // ---------------------------------------------------------------------------
  // How written forms are cut

  lemma CutPadded(l: string, t: string, r: string)
    requires All(l, JsSpace) && All(r, JsSpace) && CleanEnds(t)
    ensures CutText(l + t + r) == CutTrimmed(t)
  {
    TrimPadded(l, t, r, JsSpace);
  }

  lemma CutGroup(t: string)
    requires Balanced(Round, t)
    ensures CutTrimmed("(" + t + ")") == Group(t)
  {
    var s := "(" + t + ")";
    forall i | 0 <= i < |s| - 1 ensures !ClosesAt(s, i) {
      NestWrapped(Round, '(', t, ')', i);
      assert Above(Round, t, i);
    }
    assert s[1..|s| - 1] == t;
  }

  lemma QuietHasNoEquality(t: string)
    requires Quiet(t)
    ensures FirstEquality(t) == None
  {
    if FirstEquality(t).Some? {
      assert LoudAt(t, First(|t|, 0, Equalities(t)).value);
    }
  }

  lemma OpAtText(front: string, op: Op, after: string)
    requires after != "" && after[0] != '='
    ensures var s := front + OpText(op) + after;
            |front| + 1 < |s| && OpChar(s[|front|]) && s[|front| + 1] == '=' && OpAt(s, |front|) == op
  {
    match op
    case StrictEq =>
    case StrictNe =>
    case LooseEq =>
    case LooseNe =>
  }

  lemma EqualityHere(front: string, op: Op, after: string)
    requires front != "" && !OpChar(front[|front| - 1])
    requires Nest(Both, front) == 0 && !All(front, JsSpace)
    requires after != "" && after[0] != '='
    ensures EqualityAt(front + OpText(op) + after, |front|)
  {
    OpAtText(front, op, after);
    var s := front + OpText(op) + after;
    assert s[..|front|] == front;
    assert s[|front| - 1] == front[|front| - 1];
  }

  lemma NoEqualityBefore(front: string, op: Op, after: string)
    requires front != "" && Quiet(front) && !OpChar(front[|front| - 1])
    ensures forall j :: 0 <= j < |front| ==> !EqualityAt(front + OpText(op) + after, j)
  {
    var s := front + OpText(op) + after;
    forall j | 0 <= j < |front| ensures !EqualityAt(s, j) {
      assert s[..j] == front[..j] && !LoudAt(front, j);
    }
  }

  lemma FirstEqualityAt(s: string, n: nat)
    requires EqualityAt(s, n)
    requires forall j :: 0 <= j < n ==> !EqualityAt(s, j)
    ensures FirstEquality(s) == Some(Equality(n, OpAt(s, n)))
  {
    FirstIs(|s|, 0, n, Equalities(s));
  }

  lemma FirstEqualityOf(front: string, op: Op, after: string)
    requires front != "" && !OpChar(front[|front| - 1]) && Quiet(front)
    requires Nest(Both, front) == 0 && !All(front, JsSpace)
    requires after != "" && after[0] != '='
    ensures FirstEquality(front + OpText(op) + after) == Some(Equality(|front|, op))
  {
    OpAtText(front, op, after);
    EqualityHere(front, op, after);
    NoEqualityBefore(front, op, after);
    FirstEqualityAt(front + OpText(op) + after, |front|);
  }

  lemma FrontOfCompare(left: string, l: string)
    requires Tidy(left) && Quiet(left) && All(l, JsSpace)
    ensures Quiet(left + l) && Nest(Both, left + l) == 0
    ensures !OpChar((left + l)[|left + l| - 1]) && !All(left + l, JsSpace)
  {
    SpacesBalanced(Both, l);
    BalancedConcat(Both, left, l);
    QuietConcat(left, l);
    assert (left + l)[0] == left[0];
  }

  lemma CutAtEquality(front: string, op: Op, after: string)
    requires front != ""
    requires FirstEquality(front + OpText(op) + after) == Some(Equality(|front|, op))
    requires front[0] == '(' ==> !WrapsWhole(front + OpText(op) + after)
    ensures CutTrimmed(front + OpText(op) + after) == Compared(front, op, after)
  {
    var s := front + OpText(op) + after;
    assert s[..|front|] == front;
    assert s[|front| + |OpText(op)|..] == after;
  }

  lemma AfterCompare(r: string, right: string)
    requires All(r, JsSpace) && CleanEnds(right)
    ensures r + right != "" && (r + right)[0] != '='
  {
  }

  lemma NotWrapped(left: string, l: string, op: Op, after: string)
    requires left != "" && Balanced(Round, left)
    requires left[0] == '(' ==> left[|left| - 1] == ')'
    ensures left[0] == '(' ==> !WrapsWhole(left + l + OpText(op) + after)
  {
    var s := left + l + OpText(op) + after;
    if left[0] == '(' {
      assert s[..|left|] == left;
      assert ClosesAt(s, |left| - 1);
    }
  }

  /** A comparison is cut at its own operator, whatever its right operand holds. */
  lemma CutCompare(left: string, l: string, op: Op, r: string, right: string)
    requires Tidy(left) && Quiet(left) && All(l, JsSpace) && All(r, JsSpace) && CleanEnds(right)
    requires left[0] == '(' ==> left[|left| - 1] == ')'
    ensures CutTrimmed(left + l + OpText(op) + (r + right)) == Compared(left + l, op, r + right)
  {
    var front, after := left + l, r + right;
    assert FirstEquality(front + OpText(op) + after) == Some(Equality(|front|, op)) by {
      FrontOfCompare(left, l);
      AfterCompare(r, right);
      FirstEqualityOf(front, op, after);
    }
    assert front[0] == '(' ==> !WrapsWhole(front + OpText(op) + after) by {
      NotWrapped(left, l, op, after);
    }
    CutAtEquality(front, op, after);
  }

  lemma FirstIs(n: nat, k: nat, i: nat, p: nat -> bool)
    requires k <= i < n && p(i) && forall j :: k <= j < i ==> !p(j)
    ensures First(n, k, p) == Some(i)
  {
  }

  lemma {:induction false} RunExact(s: string, rest: string, p: char -> bool)
    requires All(s, p) && (rest == "" || !p(rest[0]))
    ensures Run(s + rest, p) == |s|
  {
    if s == "" {
      assert s + rest == rest;
    } else {
      assert (s + rest)[1..] == s[1..] + rest;
      RunExact(s[1..], rest, p);
    }
  }

  predicate StepStart(rest: string) { rest == "" || rest[0] == '.' || rest[0] == '[' }

  lemma IdentExact(name: string, rest: string)
    requires IsIdent(name) && StepStart(rest)
    ensures IdentLength(name + rest) == |name|
  {
    RunExact(name, rest, IdentPart);
    assert (name + rest)[0] == name[0];
  }

  lemma DotStep(name: string, rest: string)
    requires IsName(name) && StepStart(rest)
    ensures NextSegment("." + name + rest) == Dot(name, rest)
  {
    var s := "." + name + rest;
    assert s[1..] == name + rest;
    if IsIdent(name) {
      IdentExact(name, rest);
    } else {
      RunExact(name, rest, Digit);
      assert (name + rest)[0] == name[0];
    }
    assert s[1..|name| + 1] == name && s[|name| + 1..] == rest;
  }

  lemma {:induction false} ClosingExact(t: string, rest: string, depth: nat)
    requires depth > 0 && Nest(Square, t) + depth == 1
    requires forall i :: 0 <= i <= |t| ==> Nest(Square, t[..i]) + depth >= 1
    ensures ClosingBracket(t + "]" + rest, depth) == Some(|t|)
  {
    var s := t + "]" + rest;
    if t != "" {
      var w := Weight(Square, t[0]);
      assert s[1..] == t[1..] + "]" + rest;
      forall i | 0 <= i <= |t| - 1
        ensures Nest(Square, t[..i + 1]) == w + Nest(Square, t[1..][..i])
      {
        assert t[..i + 1] == [t[0]] + t[1..][..i];
        NestConcat(Square, [t[0]], t[1..][..i]);
        NestOne(Square, t[0]);
      }
      assert t[..|t|] == t && t[1..][..|t| - 1] == t[1..];
      assert Nest(Square, t[..0 + 1]) + depth >= 1 && t[1..][..0] == "";
      assert s[0] == t[0];
      ClosingExact(t[1..], rest, depth + w);
    }
  }

  lemma BracketStep(t: string, rest: string)
    requires Balanced(Square, t)
    ensures NextSegment("[" + t + "]" + rest) == Bracket(t, rest)
  {
    var s := "[" + t + "]" + rest;
    assert s[1..] == t + "]" + rest;
    forall i | 0 <= i <= |t| ensures Nest(Square, t[..i]) + 1 >= 1 {
      assert Above(Square, t, i);
    }
    ClosingExact(t, rest, 1);
    assert s[1..|t| + 1] == t && s[|t| + 2..] == rest;
  }

  lemma CutNot(pad: string, t: string)
    requires Quiet("!" + pad + t)
    ensures CutTrimmed("!" + pad + t) == Negated(pad + t)
  {
    QuietHasNoEquality("!" + pad + t);
    assert ("!" + pad + t)[1..] == pad + t;
  }

  /** Texts that are neither grouped, compared nor negated are atoms. */
  lemma CutAtom(t: string)
    requires t != "" && Quiet(t) && t[0] != '(' && t[0] != '!'
    ensures CutTrimmed(t) == Atom(t)
  {
    QuietHasNoEquality(t);
  }

  lemma NotNumber(s: string)
    requires s != "" && !Digit(s[0]) && s[0] != '-'
    ensures !IsNumber(s)
  {
  }

  lemma WordAtom(w: Word)
    ensures Atom(WordText(w)) == Constant(WordValue(w))
  {
  }

  lemma NumberAtom(s: string)
    requires IsNumber(s)
    ensures s != "" && Atom(s) == Numeral(s)
  {
    NumberIsPlain(s);
  }

  lemma PathAtom(s: string)
    requires s != "" && IdentStart(s[0]) && !IsWord(s)
    ensures Atom(s) == Path(s)
  {
    NotNumber(s);
  }

  lemma AtomOf(e: Expr)
    requires WellFormed(e) && Bare(e)
    ensures e.Keyword? || e.Number? || e.Quoted? || IsPath(e) ==> Render(e) != ""
    ensures e.Keyword? ==> Atom(Render(e)) == Constant(WordValue(e.word))
    ensures e.Number? ==> Atom(Render(e)) == Numeral(e.digits)
    ensures e.Quoted? ==> Atom(Render(e)) == Constant(Chars(e.body))
    ensures IsPath(e) ==> Atom(Render(e)) == Path(Render(e))
  {
    if e.Keyword? {
      WordAtom(e.word);
    } else if e.Number? {
      NumberAtom(e.digits);
    } else if e.Quoted? {
      QuotedAtom(e.quote, e.body);
    } else if IsPath(e) {
      FirstChar(e);
      NotWord(e);
      PathAtom(Render(e));
    }
  }

  lemma NotWord(e: Expr)
    requires WellFormed(e) && Bare(e) && IsPath(e)
    ensures !IsWord(Render(e))
  {
    if e.Member? {
      assert Render(e)[|Render(e.base)|] == '.';
    } else if e.Index? {
      assert Render(e)[|Render(e)| - 1] == ']';
    }
  }

  // ---------------------------------------------------------------------------
  // Main results

  /** How the text of an expression is cut, as a function of its tree. */
  function CutOf(e: Expr): Cut {
    match e
    case Keyword(w) => Constant(WordValue(w))
    case Number(digits) => Numeral(digits)
    case Quoted(_, body) => Constant(Chars(body))
    case Not(pad, arg) => Negated(pad + Render(arg))
    case Compare(left, l, op, r, right) => Compared(Render(left) + l, op, r + Render(right))
    case Paren(l, inner, r) => Group(l + Render(inner) + r)
    case _ => Path(Render(e))
  }

  /** The scans find exactly the outermost operator of the tree. */
  lemma CutMeaning(e: Expr, padL: string, padR: string)
    requires WellFormed(e) && Bare(e) && All(padL, JsSpace) && All(padR, JsSpace)
    ensures CutText(padL + Render(e) + padR) == CutOf(e)
  {
    Shape(e);
    CutPadded(padL, Render(e), padR);
    CutTrimmedMeaning(e);
  }

  lemma CutTrimmedMeaning(e: Expr)
    requires WellFormed(e) && Bare(e)
    ensures Render(e) != "" && CutTrimmed(Render(e)) == CutOf(e)
  {
    FirstChar(e);
    if e.Compare? {
      CutCompareMeaning(e);
    } else {
      Shape(e);
      if e.Not? {
        CutNot(e.pad, Render(e.arg));
      } else if e.Paren? {
        CutParenMeaning(e);
      } else {
        CutAtom(Render(e));
        AtomOf(e);
      }
    }
  }

  lemma CutParenMeaning(e: Expr)
    requires WellFormed(e) && e.Paren?
    ensures Render(e) != "" && CutTrimmed(Render(e)) == CutOf(e)
  {
    Shape(e.inner);
    PaddedBalanced(Round, e.padL, Render(e.inner), e.padR);
    CutGroup(e.padL + Render(e.inner) + e.padR);
  }

  lemma CutCompareMeaning(e: Expr)
    requires WellFormed(e) && e.Compare?
    ensures Render(e) != "" && CutTrimmed(Render(e)) == CutOf(e)
  {
    var left, right := Render(e.left), Render(e.right);
    assert Tidy(left) && Quiet(left) by { Shape(e.left); }
    assert CleanEnds(right) by { Shape(e.right); }
    assert left[0] == '(' ==> left[|left| - 1] == ')' by { FirstChar(e.left); }
    CutCompare(left, e.padL, e.op, e.padR, right);
  }

  lemma NoPad(a: string, b: string)
    ensures "" + a + b == a + b == a + b + ""
    ensures "" + b == b == b + ""
  {
  }

  lemma ResolveNegated(h: Host, vals: Value, src: string, arg: string)
    requires CutText(src) == Negated(arg)
    ensures Resolve(h, vals, src) == Boolean(!h.truthy(Resolve(h, vals, arg)))
  {
  }

  lemma ResolveCompared(h: Host, vals: Value, src: string, l: string, op: Op, r: string)
    requires CutText(src) == Compared(l, op, r)
    ensures Resolve(h, vals, src) == h.Compare(op, Resolve(h, vals, l), Resolve(h, vals, r))
  {
  }

  lemma ResolveGroup(h: Host, vals: Value, src: string, inner: string)
    requires CutText(src) == Group(inner)
    ensures Resolve(h, vals, src) == Resolve(h, vals, inner)
  {
  }

  lemma ResolvePath(h: Host, vals: Value, src: string, text: string)
    requires CutText(src) == Path(text)
    ensures Resolve(h, vals, src) == PathValue(h, vals, text)
  {
  }

  lemma ResolveAtom(h: Host, vals: Value, src: string, e: Expr)
    requires e.Keyword? || e.Number? || e.Quoted?
    requires CutText(src) == CutOf(e)
    ensures Resolve(h, vals, src) == Eval(h, vals, e)
  {
  }

  lemma NotMeaning(h: Host, vals: Value, e: Expr, padL: string, padR: string)
    requires WellFormed(e) && e.Not? && All(padL, JsSpace) && All(padR, JsSpace)
    ensures Resolve(h, vals, padL + Render(e) + padR)
         == Boolean(!h.truthy(Resolve(h, vals, e.pad + Render(e.arg) + "")))
  {
    CutMeaning(e, padL, padR);
    ResolveNegated(h, vals, padL + Render(e) + padR, e.pad + Render(e.arg));
    NoPad(e.pad, Render(e.arg));
  }

  lemma CompareMeaning(h: Host, vals: Value, e: Expr, padL: string, padR: string)
    requires WellFormed(e) && e.Compare? && All(padL, JsSpace) && All(padR, JsSpace)
    ensures Resolve(h, vals, padL + Render(e) + padR)
         == h.Compare(e.op, Resolve(h, vals, "" + Render(e.left) + e.padL),
                      Resolve(h, vals, e.padR + Render(e.right) + ""))
  {
    CutMeaning(e, padL, padR);
    ResolveCompared(h, vals, padL + Render(e) + padR, Render(e.left) + e.padL, e.op, e.padR + Render(e.right));
    NoPad(Render(e.left), e.padL);
    NoPad(e.padR, Render(e.right));
  }

  lemma ParenMeaning(h: Host, vals: Value, e: Expr, padL: string, padR: string)
    requires WellFormed(e) && e.Paren? && All(padL, JsSpace) && All(padR, JsSpace)
    ensures Resolve(h, vals, padL + Render(e) + padR) == Resolve(h, vals, e.padL + Render(e.inner) + e.padR)
  {
    CutMeaning(e, padL, padR);
    ResolveGroup(h, vals, padL + Render(e) + padR, e.padL + Render(e.inner) + e.padR);
  }

  lemma PathTextMeaning(h: Host, vals: Value, e: Expr, padL: string, padR: string)
    requires WellFormed(e) && Bare(e) && IsPath(e) && All(padL, JsSpace) && All(padR, JsSpace)
    ensures Resolve(h, vals, padL + Render(e) + padR) == PathValue(h, vals, Render(e) + "")
  {
    CutMeaning(e, padL, padR);
    ResolvePath(h, vals, padL + Render(e) + padR, Render(e));
    NoPad("", Render(e));
  }

  /** Evaluating the text of a well-formed expression, however it is spaced and parenthesised,
      gives the meaning of its tree. */
  lemma {:induction false} ResolveMeaning(h: Host, vals: Value, e: Expr, padL: string, padR: string)
    requires WellFormed(e) && Bare(e) && All(padL, JsSpace) && All(padR, JsSpace)
    ensures Resolve(h, vals, padL + Render(e) + padR) == Eval(h, vals, e)
    decreases e, 1
  {
    if e.Not? {
      ResolveMeaning(h, vals, e.arg, e.pad, "");
      NotMeaning(h, vals, e, padL, padR);
    } else if e.Compare? {
      ResolveMeaning(h, vals, e.left, "", e.padL);
      ResolveMeaning(h, vals, e.right, e.padR, "");
      CompareMeaning(h, vals, e, padL, padR);
    } else if e.Paren? {
      ResolveMeaning(h, vals, e.inner, e.padL, e.padR);
      ParenMeaning(h, vals, e, padL, padR);
    } else if IsPath(e) {
      PathMeaning(h, vals, e, "");
      PathTextMeaning(h, vals, e, padL, padR);
    } else {
      CutMeaning(e, padL, padR);
      ResolveAtom(h, vals, padL + Render(e) + padR, e);
    }
  }

  lemma PathTailDot(h: Host, vals: Value, cur: Value, rest: string, name: string, after: string)
    requires NextSegment(rest) == Dot(name, after)
    ensures PathTail(h, vals, cur, rest) == PathTail(h, vals, h.Read(cur, Chars(name)), after)
  {
  }

  lemma PathTailBracket(h: Host, vals: Value, cur: Value, rest: string, key: string, after: string)
    requires NextSegment(rest) == Bracket(key, after)
    ensures PathTail(h, vals, cur, rest) == PathTail(h, vals, h.Read(cur, Resolve(h, vals, key)), after)
  {
  }

  lemma PathHead(h: Host, vals: Value, name: string, rest: string)
    requires IsIdent(name) && StepStart(rest)
    ensures PathValue(h, vals, name + rest) == PathTail(h, vals, h.Read(vals, Chars(name)), rest)
  {
    var t := name + rest;
    IdentExact(name, rest);
    assert t[..|name|] == name && t[|name|..] == rest;
  }

  lemma DotMeaning(h: Host, vals: Value, cur: Value, name: string, rest: string)
    requires IsName(name) && StepStart(rest)
    ensures PathTail(h, vals, cur, "." + name + rest) == PathTail(h, vals, h.Read(cur, Chars(name)), rest)
  {
    DotStep(name, rest);
    PathTailDot(h, vals, cur, "." + name + rest, name, rest);
  }

  lemma BracketMeaning(h: Host, vals: Value, cur: Value, inner: string, rest: string)
    requires Balanced(Square, inner)
    ensures PathTail(h, vals, cur, "[" + inner + "]" + rest)
         == PathTail(h, vals, h.Read(cur, Resolve(h, vals, inner)), rest)
  {
    BracketStep(inner, rest);
    PathTailBracket(h, vals, cur, "[" + inner + "]" + rest, inner, rest);
  }

  lemma Regroup(a: string, b: string, c: string, d: string)
    ensures a + b + c + d == a + (b + c + d)
  {
  }

  lemma Regroup5(a: string, b: string, c: string, d: string, e: string)
    ensures a + b + c + d + e == a + (b + c + d + e)
  {
  }

  /** A path prefix is read step by step, whatever steps follow. */
  lemma {:induction false} PathMeaning(h: Host, vals: Value, e: Expr, rest: string)
    requires WellFormed(e) && IsPath(e) && StepStart(rest)
    ensures PathValue(h, vals, Render(e) + rest) == PathTail(h, vals, Eval(h, vals, e), rest)
    decreases e, 0
  {
    match e
    case Var(name) =>
      PathHead(h, vals, name, rest);
    case Member(base, name) =>
      PathMeaning(h, vals, base, "." + name + rest);
      DotMeaning(h, vals, Eval(h, vals, base), name, rest);
      Regroup(Render(base), ".", name, rest);
    case Index(base, l, key, r) =>
      var inner := l + Render(key) + r;
      PathMeaning(h, vals, base, "[" + inner + "]" + rest);
      ResolveMeaning(h, vals, key, l, r);
      KeyBalanced(l, key, r);
      BracketMeaning(h, vals, Eval(h, vals, base), inner, rest);
      Regroup5(Render(base), "[", inner, "]", rest);
  }

  lemma KeyBalanced(l: string, key: Expr, r: string)
    requires All(l, JsSpace) && WellFormed(key) && All(r, JsSpace)
    ensures Balanced(Square, l + Render(key) + r)
  {
    Shape(key);
    PaddedBalanced(Square, l, Render(key), r);
  }

  // ---------------------------------------------------------------------------
  // Consequences

  /** Trees of any shape, comparisons nested anywhere. */
  predicate Writable(e: Expr) {
    match e
    case Keyword(_) => true
    case Number(digits) => IsNumber(digits)
    case Quoted(q, body) => IsQuote(q) && SafeBody(body)
    case Var(name) => IsIdent(name)
    case Member(base, name) => IsPath(base) && Writable(base) && IsName(name)
    case Index(base, l, key, r) =>
      IsPath(base) && Writable(base) && All(l, JsSpace) && Writable(key) && Bare(key) && All(r, JsSpace)
    case Not(pad, arg) => All(pad, JsSpace) && Writable(arg) && Bare(arg)
    case Compare(left, l, _, r, right) =>
      && Writable(left) && Bare(left) && All(l, JsSpace)
      && All(r, JsSpace) && Writable(right) && Bare(right)
    case Paren(l, inner, r) => All(l, JsSpace) && Writable(inner) && Bare(inner) && All(r, JsSpace)
  }

  function Guard(e: Expr): Expr { if e.Compare? then Paren("", e, "") else e }

  /** Adds the parentheses that are needed: around a comparison under `!` or left of an operator. */
  function Parenthesize(e: Expr): Expr {
    match e
    case Member(base, name) => Member(Parenthesize(base), name)
    case Index(base, l, key, r) => Index(Parenthesize(base), l, Parenthesize(key), r)
    case Not(pad, arg) => Not(pad, Guard(Parenthesize(arg)))
    case Compare(left, l, op, r, right) => Compare(Guard(Parenthesize(left)), l, op, r, Parenthesize(right))
    case Paren(l, inner, r) => Paren(l, Parenthesize(inner), r)
    case _ => e
  }

  lemma {:induction false} ParenthesizeShape(e: Expr)
    requires Writable(e)
    ensures var p := Parenthesize(e);
            WellFormed(p) && IsPath(p) == IsPath(e) && p.Var? == e.Var? && (e.Var? ==> p == e)
  {
    match e
    case Member(base, name) => ParenthesizeShape(base);
    case Index(base, l, key, r) => ParenthesizeShape(base); ParenthesizeShape(key);
    case Not(pad, arg) => ParenthesizeShape(arg);
    case Compare(left, l, op, r, right) => ParenthesizeShape(left); ParenthesizeShape(right);
    case Paren(l, inner, r) => ParenthesizeShape(inner);
    case _ =>
  }

  /** No parentheses are added to a tree that can be written without. */
  lemma {:induction false} ParenthesizeMinimal(e: Expr)
    requires WellFormed(e)
    ensures Parenthesize(e) == e
  {
    match e
    case Member(base, _) => ParenthesizeMinimal(base);
    case Index(base, _, key, _) =>
      ParenthesizeMinimal(base);
      ParenthesizeMinimal(key);
    case Not(_, arg) => ParenthesizeMinimal(arg);
    case Compare(left, _, _, _, right) =>
      ParenthesizeMinimal(left);
      ParenthesizeMinimal(right);
    case Paren(_, inner, _) => ParenthesizeMinimal(inner);
    case _ =>
  }

  lemma {:induction false} ParenthesizeMeaning(h: Host, vals: Value, e: Expr)
    ensures Eval(h, vals, Parenthesize(e)) == Eval(h, vals, e)
  {
    match e
    case Member(base, name) => ParenthesizeMeaning(h, vals, base);
    case Index(base, l, key, r) => ParenthesizeMeaning(h, vals, base); ParenthesizeMeaning(h, vals, key);
    case Not(pad, arg) => ParenthesizeMeaning(h, vals, arg);
    case Compare(left, l, op, r, right) => ParenthesizeMeaning(h, vals, left); ParenthesizeMeaning(h, vals, right);
    case Paren(l, inner, r) => ParenthesizeMeaning(h, vals, inner);
    case _ =>
  }

  /** Every tree can be written so that the evaluator computes its meaning. */
  lemma TreeMeaning(h: Host, vals: Value, e: Expr)
    requires Writable(e) && Bare(e)
    ensures Resolve(h, vals, Render(Parenthesize(e))) == Eval(h, vals, e)
  {
    ParenthesizeShape(e);
    ParenthesizeMeaning(h, vals, e);
    ResolveMeaning(h, vals, Parenthesize(e), "", "");
    NoPad("", Render(Parenthesize(e)));
  }

  /** Without those parentheses the same text, however it is spaced, is another tree: comparisons group to
      the right ... */
  lemma ComparisonsGroupRight(h: Host, vals: Value, left: Expr, padL: string, op: Op, padR: string, right: Expr,
                              before: string, after: string)
    requires left.Compare? && All(before, JsSpace) && All(after, JsSpace) && All(padL, JsSpace) && All(padR, JsSpace)
    requires WellFormed(left) && WellFormed(left.right) && Bare(left.right) && !left.right.Compare?
    requires WellFormed(right) && Bare(right)
    ensures Resolve(h, vals, before + Render(Compare(left, padL, op, padR, right)) + after)
         == h.Compare(left.op, Eval(h, vals, left.left), h.Compare(op, Eval(h, vals, left.right), Eval(h, vals, right)))
  {
    var nested := left.(right := Compare(left.right, padL, op, padR, right));
    ResolveMeaning(h, vals, nested, before, after);
    Reassociate(Render(left.left), left.padL, OpText(left.op), left.padR, Render(left.right),
                padL, OpText(op), padR + Render(right));
  }

  lemma Reassociate(a: string, l: string, o1: string, r: string, b: string, padL: string, o2: string, c: string)
    ensures (a + l + o1 + (r + b)) + padL + o2 + c == a + l + o1 + (r + (b + padL + o2 + c))
  {
  }

  /** ... and `!` binds tighter than a comparison. */
  lemma NotBindsTighter(h: Host, vals: Value, pad: string, e: Expr, before: string, after: string)
    requires e.Compare? && WellFormed(e) && All(pad, JsSpace) && All(before, JsSpace) && All(after, JsSpace)
    ensures Resolve(h, vals, before + Render(Not(pad, e)) + after)
         == h.Compare(e.op, Boolean(!h.truthy(Eval(h, vals, e.left))), Eval(h, vals, e.right))
  {
    var loose := e.(left := Not(pad, e.left));
    ResolveMeaning(h, vals, loose, before, after);
    RegroupNot(pad, Render(e.left), e.padL, OpText(e.op), e.padR + Render(e.right));
  }

  lemma RegroupNot(pad: string, a: string, l: string, o: string, b: string)
    ensures "!" + pad + (a + l + o + b) == ("!" + pad + a) + l + o + b
  {
  }

  lemma NoEqualityExactly(t: string)
    ensures FirstEquality(t) == None <==> forall i: nat :: !EqualityAt(t, i)
  {
    var first := First(|t|, 0, Equalities(t));
    if first.Some? {
      assert EqualityAt(t, first.value);
    } else {
      forall i: nat ensures !EqualityAt(t, i) {
        if i < |t| { assert !Equalities(t)(i); }
      }
    }
  }

  lemma QuotedAtom(q: char, body: string)
    requires IsQuote(q)
    ensures Atom([q] + body + [q]) == Constant(Chars(body))
  {
    var t := [q] + body + [q];
    assert t[1..|t| - 1] == body;
    NotNumber(t);
  }

  lemma CutUnpadded(t: string)
    requires CleanEnds(t)
    ensures CutText(t) == CutTrimmed(t)
  {
    TrimPadded("", t, "", JsSpace);
    assert "" + t + "" == t;
  }

  lemma CutUngrouped(t: string)
    requires t != "" && t[0] != '(' && t[0] != '!'
    ensures FirstEquality(t).None? ==> CutTrimmed(t) == Atom(t)
    ensures FirstEquality(t).Some? ==> CutTrimmed(t).Compared?
  {
  }

  lemma ComparedIsBoolean(h: Host, vals: Value, src: string)
    requires CutText(src).Compared?
    ensures Resolve(h, vals, src).Boolean?
  {
  }

  lemma ConstantIsItself(h: Host, vals: Value, src: string, v: Value)
    requires CutText(src) == Constant(v)
    ensures Resolve(h, vals, src) == v
  {
  }

  /** A quoted text of any content is read back as written exactly when the scan for a top-level
      equality, which ignores quotes, finds nothing in it. */
  lemma QuotedExactly(h: Host, vals: Value, q: char, body: string)
    requires IsQuote(q)
    ensures Resolve(h, vals, [q] + body + [q]) == Chars(body)
       <==> forall i: nat :: !EqualityAt([q] + body + [q], i)
  {
    var t := [q] + body + [q];
    CutUnpadded(t);
    CutUngrouped(t);
    NoEqualityExactly(t);
    if FirstEquality(t).None? {
      QuotedAtom(q, body);
      ConstantIsItself(h, vals, t, Chars(body));
    } else {
      ComparedIsBoolean(h, vals, t);
    }
  }

  /** For instance the literal `'a==b'` is taken for a comparison. */
  lemma QuotedEqualityIsCut(h: Host, vals: Value)
    ensures Resolve(h, vals, "'" + "a==b" + "'") != Chars("a==b")
  {
    var t := "'" + "a==b" + "'";
    assert t[..2] == "'a" && "'a"[0] == '\'';
    NestFlat(Both, "'a");
    assert EqualityAt(t, 2);
    QuotedExactly(h, vals, '\'', "a==b");
    assert ['\''] + "a==b" + ['\''] == t;
  }
}
