/** Rendering of expressions with the parentheses they need, and their words in any mix of capitals. */
module SqlPrint {
  import opened SqlGrammar

  function LevelOf(op: Op): (k: nat)
    ensures k < ATOM
  {
    match op
    case Or => OR
    case And => AND
    case LE | GE | NE | EQ | LT | GT | Like => CMP
    case Add | Sub => ADD
    case Mul | Div | Mod => MUL
  }

  function Text(op: Op): string {
    match op
    case Or => "or"
    case And => "and"
    case LE => "<="
    case GE => ">="
    case NE => "!="
    case EQ => "="
    case LT => "<"
    case GT => ">"
    case Like => "like"
    case Add => "+"
    case Sub => "-"
    case Mul => "*"
    case Div => "/"
    case Mod => "%"
  }

  /** The same letters, each as it is or as its capital. */
  predicate Spells(w: string, kw: string) {
    && |w| == |kw|
    && forall i :: 0 <= i < |kw| ==> w[i] == kw[i] || ('a' <= kw[i] <= 'z' && w[i] as int == kw[i] as int - 32)
  }

  /** A spelling of an operator; "<>" is another one of "!=". */
  predicate SpellsOp(w: string, op: Op) {
    Spells(w, Text(op)) || (op == NE && w == "<>")
  }

  /** How the word of an expression is spelled: its operator, "not", or the name of its function. */
  type Style = Expr -> string

  function Prec(e: Expr): nat {
    if e.Bin? then LevelOf(e.op) else ATOM
  }

  function Decimal(n: nat): (s: string)
    ensures s != "" && forall i :: 0 <= i < |s| ==> IsDigit(s[i])
  {
    if n < 10 then [('0' as int + n) as char] else Decimal(n / 10) + [('0' as int + n % 10) as char]
  }

  function Escaped(s: string): string {
    if s == "" then ""
    else (if s[0] == '\'' || s[0] == '\\' then ['\\', s[0]] else [s[0]]) + Escaped(s[1..])
  }

  function Print(e: Expr, level: nat, style: Style): string
    decreases e, if Prec(e) < level then 1 else 0
  {
    if Prec(e) < level then "(" + Print(e, OR, style) + ")"
    else
      match e
      case Unknown => ""
      case Ident(name) => name
      case Int(n) => if n < 0 then "-" + Decimal(-n) else Decimal(n)
      case Str(s) => "'" + Escaped(s) + "'"
      case Not(arg) => style(e) + " " + Print(arg, ATOM, style)
      case Func(_, args) => style(e) + "(" + PrintArgs(args, style) + ")"
      case Bin(op, l, r) =>
        var k := LevelOf(op);
        Print(l, if k == CMP then ADD else k, style) + " " + style(e) + " " + Print(r, k + 1, style)
  }

  function PrintArgs(args: seq<Expr>, style: Style): string
    decreases args, 0
  {
    if args == [] then ""
    else if |args| == 1 then Print(args[0], OR, style)
    else Print(args[0], OR, style) + ", " + PrintArgs(args[1..], style)
  }

  /** Without capital letters. */
  predicate Plain(s: string) {
    forall i :: 0 <= i < |s| ==> !('A' <= s[i] <= 'Z')
  }

  /** A name that reads back as a name: no leading digit and no leading "not" in any case. */
  predicate GoodName(s: string) {
    && s != "" && (forall i :: 0 <= i < |s| ==> IsSym(s[i]))
    && !IsDigit(s[0]) && !(|s| >= 3 && Spells(s[..3], "not"))
  }

  predicate Printable(e: Expr, style: Style) {
    match e
    case Unknown => false
    case Ident(name) => GoodName(name)
    case Int(n) => -0x8000_0000_0000_0000 <= n <= 0x7fff_ffff_ffff_ffff
    case Str(_) => true
    case Not(arg) => Spells(style(e), "not") && Printable(arg, style)
    case Func(fn, args) =>
      && GoodName(fn) && Plain(fn) && Spells(style(e), fn)
      && forall i :: 0 <= i < |args| ==> Printable(args[i], style)
    case Bin(op, l, r) => SpellsOp(style(e), op) && Printable(l, style) && Printable(r, style)
  }
}
