/**
 The expression grammar of parser.go as functions from the remaining input to the parsed tree
 and the input left. Input bytes are characters.
 */
module SqlGrammar {
  import opened Basics

  datatype Op = Or | And | LE | GE | NE | EQ | LT | GT | Like | Add | Sub | Mul | Div | Mod

  datatype Expr =
    | Unknown
    | Ident(name: string)
    | Int(n: int)
    | Str(s: string)
    | Bin(op: Op, left: Expr, right: Expr)
    | Not(arg: Expr)
    | Func(fn: string, args: seq<Expr>)

  const MAX_INT: int := 0x7fff_ffff_ffff_ffff
  const MIN_INT: int := -0x8000_0000_0000_0000

  // ---------------------------------------------------------------------------------------
  // Characters and tokens.
  // ---------------------------------------------------------------------------------------

  predicate IsSpace(c: char) { c == ' ' || c == '\t' || c == '\n' || c == '\r' }

  predicate IsDigit(c: char) { '0' <= c <= '9' }

  predicate IsSym(c: char) {
    'a' <= c <= 'z' || 'A' <= c <= 'Z' || IsDigit(c) || c == '_' || c == '@'
  }

  function Lower(c: char): char {
    if 'A' <= c <= 'Z' then c + 32 as char else c
  }

  /** The length of the longest prefix of characters that satisfy `p`. */
  function SpanSpace(s: string): (n: nat)
    ensures n <= |s| && (n < |s| ==> !IsSpace(s[n]))
  {
    if s != "" && IsSpace(s[0]) then 1 + SpanSpace(s[1..]) else 0
  }

  function SpanDigits(s: string): (n: nat)
    ensures n <= |s| && (n < |s| ==> !IsDigit(s[n])) && forall i :: 0 <= i < n ==> IsDigit(s[i])
  {
    if s != "" && IsDigit(s[0]) then 1 + SpanDigits(s[1..]) else 0
  }

  function SpanSym(s: string): (n: nat)
    ensures n <= |s| && (n < |s| ==> !IsSym(s[n])) && forall i :: 0 <= i < n ==> IsSym(s[i])
  {
    if s != "" && IsSym(s[0]) then 1 + SpanSym(s[1..]) else 0
  }

  function SpanLine(s: string): (n: nat)
    ensures n <= |s| && (n < |s| ==> s[n] == '\n')
  {
    if s != "" && s[0] != '\n' then 1 + SpanLine(s[1..]) else 0
  }

  /** skipComments: blanks, and comments from two dashes to the end of the line. */
  function Skip(s: string): (r: string)
    ensures |r| <= |s|
    decreases |s|
  {
    var t := s[SpanSpace(s)..];
    if |t| >= 2 && t[0] == '-' && t[1] == '-' then
      assert SpanLine(t) >= 1;
      Skip(t[SpanLine(t)..])
    else t
  }

  predicate StartsWith(s: string, kw: string) {
    |kw| <= |s| && forall i :: 0 <= i < |kw| ==> Lower(s[i]) == kw[i]
  }

  /** pKeyword with one keyword: the input after it, or None and nothing consumed. */
  function Keyword(s: string, kw: string): (r: Option<string>)
    requires kw != ""
    ensures r.Some? ==> |r.value| < |s|
  {
    var t := Skip(s);
    if StartsWith(t, kw) then Some(t[|kw|..]) else None
  }

  /** pExpect as the expression parser uses it: a missing symbol is passed over in silence. */
  function Expect(s: string, kw: string): (r: string)
    requires kw != ""
    ensures |r| <= |s|
  {
    var k := Keyword(s, kw);
    if k.Some? then k.value else s
  }

  function DigitsValue(s: string): nat
    requires forall i :: 0 <= i < |s| ==> IsDigit(s[i])
  {
    if s == "" then 0
    else
      assert IsDigit(s[|s| - 1]);
      10 * DigitsValue(s[..|s| - 1]) + (s[|s| - 1] as int - '0' as int)
  }

  /** strconv.ParseInt, which stops at the ends of the 64-bit range. */
  function Clamp(n: int): int {
    if n > MAX_INT then MAX_INT else if n < MIN_INT then MIN_INT else n
  }

  /** pNum on input whose blanks are skipped. */
  function Number(t: string): (r: Option<(int, string)>)
    ensures r.Some? ==> |r.value.1| < |t|
  {
    var neg := t != "" && t[0] == '-';
    var u := if neg then t[1..] else t;
    var n := SpanDigits(u);
    if n == 0 then None
    else
      var v: int := DigitsValue(u[..n]);
      Some((Clamp(if neg then -v else v), u[n..]))
  }

  /** The rest of a quoted string; None when it does not end. */
  function Quoted(s: string, quote: char): (r: Option<(string, string)>)
    ensures r.Some? ==> |r.value.1| < |s|
  {
    if s == "" then None
    else if s[0] == quote then Some(("", s[1..]))
    else
      var skip := if s[0] == '\\' && |s| > 1 then 1 else 0;
      var r := Quoted(s[skip + 1..], quote);
      if r.None? then None else Some(([s[skip]] + r.value.0, r.value.1))
  }

  // ---------------------------------------------------------------------------------------
  // Operators by level: or, and, comparisons, sums, products.
  // ---------------------------------------------------------------------------------------

  const OR: nat := 0
  const AND: nat := 1
  const CMP: nat := 2
  const ADD: nat := 3
  const MUL: nat := 4
  const ATOM: nat := 5

  /** The keywords of a level in the order in which they are tried. */
  function Table(level: nat): seq<(string, Op)> {
    match level
    case 0 => [("or", Or)]
    case 1 => [("and", And)]
    case 2 => [("<=", LE), (">=", GE), ("!=", NE), ("<>", NE), ("=", EQ), ("==", EQ), ("<", LT), (">", GT),
               ("like", Like)]
    case 3 => [("+", Add), ("-", Sub)]
    case 4 => [("*", Mul), ("/", Div), ("%", Mod)]
    case _ => []
  }

  function FirstOf(table: seq<(string, Op)>, s: string): (r: Option<(Op, string)>)
    requires forall i :: 0 <= i < |table| ==> table[i].0 != ""
    ensures r.Some? ==> |r.value.1| < |s|
  {
    if table == [] then None
    else
      var k := Keyword(s, table[0].0);
      if k.Some? then Some((table[0].1, k.value)) else FirstOf(table[1..], s)
  }

  function Operator(level: nat, s: string): (r: Option<(Op, string)>)
    ensures r.Some? ==> |r.value.1| < |s|
  {
    FirstOf(Table(level), s)
  }

  // ---------------------------------------------------------------------------------------
  // Expressions.
  // ---------------------------------------------------------------------------------------

  /** pExprOr, pExprAnd, pExprCmp, pExprAdd, pExprMul and pExprAtom by level. */
  function Parse(level: nat, s: string): (r: (Expr, string))
    requires level <= ATOM
    ensures |r.1| <= |s|
    decreases |s|, 2 * (ATOM - level) + 3
  {
    if level == ATOM then ParseAtom(s)
    else
      var (left, rest) := Parse(level + 1, s);
      More(level, left, rest)
  }

  /** The loop of a level; comparisons do not chain. */
  function More(level: nat, left: Expr, s: string): (r: (Expr, string))
    requires level < ATOM
    ensures |r.1| <= |s|
    decreases |s|, 2 * (ATOM - level) + 2
  {
    var o := Operator(level, s);
    if o.None? then (left, s)
    else
      var (right, rest) := Parse(level + 1, o.value.1);
      if level == CMP then (Bin(o.value.0, left, right), rest)
      else More(level, Bin(o.value.0, left, right), rest)
  }

  function ParseAtom(s: string): (r: (Expr, string))
    ensures |r.1| <= |s|
    decreases |s|, 2
  {
    var not := Keyword(s, "not");
    var open := Keyword(s, "(");
    if not.Some? then
      var (e, rest) := ParseAtom(not.value);
      (Not(e), rest)
    else if open.Some? then
      var (e, rest) := Parse(OR, open.value);
      (e, Expect(rest, ")"))
    else ParseToken(Skip(s))
  }

  /** A number, a string, a call or a name, on input whose blanks are skipped. */
  function ParseToken(t: string): (r: (Expr, string))
    ensures |r.1| <= |t|
    decreases |t|, 1
  {
    var num := Number(t);
    if num.Some? then (Int(num.value.0), num.value.1)
    else if t != "" && (t[0] == '\'' || t[0] == '"') then
      var str := Quoted(t[1..], t[0]);
      if str.Some? then (Str(str.value.0), str.value.1) else (Unknown, "")
    else
      var n := SpanSym(t);
      if n == 0 then (Unknown, t) else ParseNamed(t[..n], t[n..])
  }

  /** What follows a name: a call's arguments, or nothing. */
  function ParseNamed(name: string, s: string): (r: (Expr, string))
    requires name != ""
    ensures |r.1| <= |s|
    decreases |s|, 20
  {
    var open := Keyword(s, "(");
    if open.None? then (Ident(name), s)
    else
      var close := Keyword(open.value, ")");
      if close.Some? then (Func(LowerAll(name), []), close.value)
      else
        var (args, rest) := ParseArgs(open.value);
        (Func(LowerAll(name), args), Expect(rest, ")"))
  }

  function ParseArgs(s: string): (r: (seq<Expr>, string))
    ensures |r.1| <= |s|
    decreases |s|, 15
  {
    var (e, rest) := Parse(OR, s);
    var comma := Keyword(rest, ",");
    if comma.None? then ([e], rest)
    else
      var (es, rest') := ParseArgs(comma.value);
      ([e] + es, rest')
  }

  function LowerAll(s: string): (r: string)
    ensures |r| == |s|
  {
    seq(|s|, i requires 0 <= i < |s| => Lower(s[i]))
  }
}
