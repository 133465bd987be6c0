/** What the template evaluator computes, law by law, on literal text (Design-system/support.js, lines 198-290).
    Each law gives the value of a text in terms of the values of its parts and of the host's own operations;
    together they fix the value of every written expression. */
module TemplateLaws {
  import opened Text
  import opened TemplateExpr
  import opened TemplateGrammar

  predicate Spaces(a: string, b: string) { All(a, JsSpace) && All(b, JsSpace) }

  /** An expression that can stand on either side of an operator without parentheses. */
  predicate Operand(e: Expr) { WellFormed(e) && Bare(e) && !e.Compare? }

  /** The value of the text of an expression. */
  function ValueOf(h: Host, vals: Value, e: Expr): Value { Resolve(h, vals, Render(e)) }

  lemma ValueIsMeaning(h: Host, vals: Value, e: Expr)
    requires WellFormed(e) && Bare(e)
    ensures ValueOf(h, vals, e) == Eval(h, vals, e)
  {
    ResolveMeaning(h, vals, e, "", "");
    NoPad("", Render(e));
  }

  /** Any spacing around an expression is without effect. */
  lemma SpacesAreFree(h: Host, vals: Value, e: Expr, before: string, after: string)
    requires WellFormed(e) && Bare(e) && Spaces(before, after)
    ensures Resolve(h, vals, before + Render(e) + after) == ValueOf(h, vals, e)
  {
    ResolveMeaning(h, vals, e, before, after);
    ValueIsMeaning(h, vals, e);
  }

  lemma CompareValue(h: Host, vals: Value, a: Expr, l: string, op: Op, r: string, b: Expr)
    requires Operand(a) && WellFormed(b) && Bare(b) && Spaces(l, r)
    ensures Resolve(h, vals, Render(a) + l + OpText(op) + (r + Render(b)))
         == h.Compare(op, ValueOf(h, vals, a), ValueOf(h, vals, b))
  {
    ValueIsMeaning(h, vals, a);
    ValueIsMeaning(h, vals, b);
    ValueIsMeaning(h, vals, Compare(a, l, op, r, b));
  }

  lemma CompareText(h: Host, vals: Value, a: Expr, l: string, o: string, op: Op, r: string, b: Expr)
    requires Operand(a) && WellFormed(b) && Bare(b) && Spaces(l, r) && o == OpText(op)
    ensures Resolve(h, vals, Render(a) + l + o + (r + Render(b)))
         == h.Compare(op, ValueOf(h, vals, a), ValueOf(h, vals, b))
  {
    CompareValue(h, vals, a, l, op, r, b);
  }

  /** The value of a comparison, by the text of its operator and the values of its sides. */
  predicate IsComparison(h: Host, o: string, va: Value, vb: Value, v: Value) {
    || (o == "===" && v == Boolean(h.strictEqual(va, vb)))
    || (o == "!==" && v == Boolean(!h.strictEqual(va, vb)))
    || (o == "==" && v == Boolean(h.looseEqual(va, vb)))
    || (o == "!=" && v == Boolean(!h.looseEqual(va, vb)))
  }

  lemma OperatorOf(h: Host, o: string, va: Value, vb: Value, v: Value) returns (op: Op)
    requires IsComparison(h, o, va, vb, v)
    ensures o == OpText(op) && h.Compare(op, va, vb) == v
  {
    op := if o == "===" then StrictEq else if o == "!==" then StrictNe else if o == "==" then LooseEq else LooseNe;
  }

  /** The four comparisons. */
  lemma ComparisonLaws(h: Host, vals: Value, a: Expr, l: string, o: string, r: string, b: Expr, v: Value)
    requires Operand(a) && WellFormed(b) && Bare(b) && Spaces(l, r)
    requires IsComparison(h, o, ValueOf(h, vals, a), ValueOf(h, vals, b), v)
    ensures Resolve(h, vals, Render(a) + l + o + (r + Render(b))) == v
  {
    var op := OperatorOf(h, o, ValueOf(h, vals, a), ValueOf(h, vals, b), v);
    CompareText(h, vals, a, l, o, op, r, b);
  }

  lemma NegationLaw(h: Host, vals: Value, pad: string, a: Expr)
    requires Operand(a) && Spaces(pad, "")
    ensures Resolve(h, vals, "!" + pad + Render(a)) == Boolean(!h.truthy(ValueOf(h, vals, a)))
  {
    ValueIsMeaning(h, vals, a);
    ValueIsMeaning(h, vals, Not(pad, a));
  }

  lemma GroupLaw(h: Host, vals: Value, l: string, a: Expr, r: string)
    requires WellFormed(a) && Bare(a) && Spaces(l, r)
    ensures Resolve(h, vals, "(" + (l + Render(a) + r) + ")") == ValueOf(h, vals, a)
  {
    ValueIsMeaning(h, vals, a);
    ValueIsMeaning(h, vals, Paren(l, a, r));
  }

  lemma KeywordValue(h: Host, vals: Value, w: Word)
    ensures Resolve(h, vals, WordText(w)) == WordValue(w)
  {
    ValueIsMeaning(h, vals, Keyword(w));
  }

  predicate IsKeyword(text: string, v: Value) {
    || (text == "true" && v == Boolean(true)) || (text == "false" && v == Boolean(false))
    || (text == "null" && v == Value.Null) || (text == "undefined" && v == Undefined)
  }

  lemma WordOf(text: string, v: Value) returns (w: Word)
    requires IsKeyword(text, v)
    ensures text == WordText(w) && v == WordValue(w)
  {
    w := if text == "true" then TrueWord else if text == "false" then FalseWord
         else if text == "null" then NullWord else UndefinedWord;
  }

  lemma KeywordLaws(h: Host, vals: Value, text: string, v: Value)
    requires IsKeyword(text, v)
    ensures Resolve(h, vals, text) == v
  {
    var w := WordOf(text, v);
    KeywordValue(h, vals, w);
  }

  lemma StringLaw(h: Host, vals: Value, body: string)
    requires SafeBody(body)
    ensures Resolve(h, vals, ['"'] + body + ['"']) == Chars(body)
    ensures Resolve(h, vals, ['\''] + body + ['\'']) == Chars(body)
  {
    ValueIsMeaning(h, vals, Quoted('"', body));
    ValueIsMeaning(h, vals, Quoted('\'', body));
  }

  predicate IsDigits(s: string) { s != "" && forall i :: 0 <= i < |s| ==> '0' <= s[i] <= '9' }

  lemma {:induction false} DigitRun(d: string, rest: string)
    requires (forall i :: 0 <= i < |d| ==> '0' <= d[i] <= '9') && (rest != "" ==> rest[0] == '.')
    ensures TemplateExpr.Run(d + rest, Digit) == |d|
  {
    if d == "" {
      assert d + rest == rest;
    } else {
      assert (d + rest)[1..] == d[1..] + rest;
      DigitRun(d[1..], rest);
    }
  }

  lemma PlainNumber(d: string, f: string)
    requires IsDigits(d) && IsDigits(f)
    ensures IsNumber(d) && IsNumber(d + "." + f)
  {
    DigitRun(d, "");
    assert d + "" == d;
    DigitRun(d, "." + f);
    var s := d + "." + f;
    assert s == d + ("." + f) && s[|d| + 1..] == f && s[|d|] == '.' && s[0] == d[0];
  }

  lemma SignedNumber(s: string)
    requires s != "" && s[0] != '-' && IsNumber(s)
    ensures IsNumber("-" + s)
  {
    assert ("-" + s)[1..] == s;
  }

  lemma NumberValue(h: Host, vals: Value, s: string)
    requires IsNumber(s)
    ensures Resolve(h, vals, s) == h.number(s)
  {
    ValueIsMeaning(h, vals, Number(s));
  }

  /** Digits, with a fraction or not, with a minus sign or not, are read as the host reads numbers. */
  lemma NumberLaws(h: Host, vals: Value, d: string, f: string)
    requires IsDigits(d) && IsDigits(f)
    ensures Resolve(h, vals, d) == h.number(d) && Resolve(h, vals, d + "." + f) == h.number(d + "." + f)
    ensures Resolve(h, vals, "-" + d) == h.number("-" + d)
    ensures Resolve(h, vals, "-" + (d + "." + f)) == h.number("-" + (d + "." + f))
  {
    PlainNumber(d, f);
    assert (d + "." + f)[0] == d[0];
    SignedNumber(d);
    SignedNumber(d + "." + f);
    NumberValue(h, vals, d);
    NumberValue(h, vals, d + "." + f);
    NumberValue(h, vals, "-" + d);
    NumberValue(h, vals, "-" + (d + "." + f));
  }

  predicate NameChar(c: char) { 'a' <= c <= 'z' || 'A' <= c <= 'Z' || '0' <= c <= '9' || c == '_' || c == '$' }

  /** A name: letters, digits, `_` and `$`, not starting with a digit. */
  predicate IsPlainName(s: string) {
    s != "" && !('0' <= s[0] <= '9') && forall i :: 0 <= i < |s| ==> NameChar(s[i])
  }

  lemma PlainNameIsIdent(s: string)
    requires IsPlainName(s)
    ensures IsIdent(s)
  {
  }

  /** A property of nothing is undefined; of anything else it is what the host says. */
  predicate IsProperty(h: Host, of: Value, key: Value, v: Value) {
    if of == Undefined || of == Value.Null then v == Undefined else v == h.get(of, key)
  }

  lemma NameLaw(h: Host, vals: Value, name: string)
    requires IsPlainName(name) && name != "true" && name != "false" && name != "null" && name != "undefined"
    ensures IsProperty(h, vals, Chars(name), Resolve(h, vals, name))
  {
    PlainNameIsIdent(name);
    ValueIsMeaning(h, vals, Var(name));
  }

  lemma MemberLaw(h: Host, vals: Value, p: Expr, name: string)
    requires IsPath(p) && WellFormed(p) && Bare(p) && (IsPlainName(name) || IsDigits(name))
    ensures IsProperty(h, ValueOf(h, vals, p), Chars(name), Resolve(h, vals, Render(p) + "." + name))
  {
    if IsPlainName(name) { PlainNameIsIdent(name); }
    ValueIsMeaning(h, vals, p);
    ValueIsMeaning(h, vals, Member(p, name));
  }

  lemma IndexLaw(h: Host, vals: Value, p: Expr, l: string, key: Expr, r: string)
    requires IsPath(p) && WellFormed(p) && Bare(p) && WellFormed(key) && Bare(key) && Spaces(l, r)
    ensures IsProperty(h, ValueOf(h, vals, p), ValueOf(h, vals, key),
                       Resolve(h, vals, Render(p) + "[" + (l + Render(key) + r) + "]"))
  {
    ValueIsMeaning(h, vals, p);
    ValueIsMeaning(h, vals, key);
    ValueIsMeaning(h, vals, Index(p, l, key, r));
  }
}
