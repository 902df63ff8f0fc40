/** Parsing what was rendered gives back the same expression. */
module SqlRoundTrip {
  import opened Basics
  import opened SqlGrammar
  import opened SqlPrint
  import SqlParser

  // ---------------------------------------------------------------------------------------
  // Blanks and keywords.
  // ---------------------------------------------------------------------------------------

  /** Nothing to skip: no blank and no comment at the front. */
  predicate Solid(s: string) {
    s == "" || (!IsSpace(s[0]) && !(|s| >= 2 && s[0] == '-' && s[1] == '-'))
  }

  lemma SkipSolid(s: string)
    requires Solid(s)
    ensures Skip(s) == s
  {
    assert SpanSpace(s) == 0;
  }

  lemma SkipSpace(c: char, s: string)
    requires c == ' ' || c == '\t' || c == '\n' || c == '\r'
    ensures Skip([c] + s) == Skip(s)
  {
    var t := [c] + s;
    assert t[1..] == s;
    assert SpanSpace(t) == 1 + SpanSpace(s);
    assert t[SpanSpace(t)..] == s[SpanSpace(s)..];
  }

  lemma SkipBlank(s: string)
    ensures Skip(" " + s) == Skip(s)
  {
    SkipSpace(' ', s);
  }

  lemma {:induction false} LineEnds(line: string, s: string)
    requires (forall i :: 0 <= i < |line| ==> line[i] != '\n') && (s == "" || s[0] == '\n')
    ensures SpanLine(line + s) == |line|
  {
    if line == "" {
      assert line + s == s;
    } else {
      LineEnds(line[1..], s);
      assert (line + s)[1..] == line[1..] + s;
    }
  }

  /**
   Before a token, blanks, tabs, line ends and comments up to the end of the line are passed over, and nothing
   else: what is left begins with neither.
   */
  lemma SkipIs(c: char, line: string, s: string)
    requires forall i :: 0 <= i < |line| ==> line[i] != '\n'
    ensures c == ' ' || c == '\t' || c == '\n' || c == '\r' ==> Skip([c] + s) == Skip(s)
    ensures Skip("--" + line) == "" && Skip("--" + line + "\n" + s) == Skip(s)
    ensures (s == "" || (s[0] !in " \t\n\r" && !(|s| >= 2 && s[0] == '-' && s[1] == '-'))) <==> Skip(s) == s
  {
    if c == ' ' || c == '\t' || c == '\n' || c == '\r' {
      SkipSpace(c, s);
    }
    CommentEnds(line, "");
    CommentEnds(line, "\n" + s);
    assert "--" + line + "" == "--" + line && "--" + line + "\n" + s == "--" + line + ("\n" + s);
    SkipSpace('\n', s);
    SkipMoves(s);
  }

  lemma CommentEnds(line: string, s: string)
    requires (forall i :: 0 <= i < |line| ==> line[i] != '\n') && (s == "" || s[0] == '\n')
    ensures Skip("--" + line + s) == Skip(s)
  {
    var t := "--" + line + s;
    assert t[0] == '-' && t[1] == '-';
    LineEnds("--" + line, s);
    assert t[|"--" + line|..] == s;
  }

  lemma SkipMoves(s: string)
    ensures (s == "" || (s[0] !in " \t\n\r" && !(|s| >= 2 && s[0] == '-' && s[1] == '-'))) <==> Skip(s) == s
  {
    assert s != "" ==> (IsSpace(s[0]) <==> s[0] in " \t\n\r");
    if Solid(s) {
      SkipSolid(s);
    } else if IsSpace(s[0]) {
      assert SpanSpace(s) > 0;
    } else {
      assert SpanLine(s) > 0;
    }
  }

  lemma KeywordBlank(s: string, kw: string)
    requires kw != ""
    ensures Keyword(" " + s, kw) == Keyword(s, kw)
  {
    SkipBlank(s);
  }

  lemma AtomBlank(s: string)
    ensures ParseAtom(" " + s) == ParseAtom(s)
  {
    KeywordBlank(s, "not");
    KeywordBlank(s, "(");
    SkipBlank(s);
  }

  lemma {:induction false} ParseBlank(level: nat, s: string)
    requires level <= ATOM
    ensures Parse(level, " " + s) == Parse(level, s)
    decreases ATOM - level
  {
    if level == ATOM {
      AtomBlank(s);
    } else {
      ParseBlank(level + 1, s);
    }
  }

  lemma KeywordMiss(s: string, kw: string)
    requires Solid(s) && kw != "" && (s == "" || Lower(s[0]) != kw[0])
    ensures Keyword(s, kw) == None
  {
    SkipSolid(s);
  }

  lemma SpellsLower(w: string, kw: string)
    requires Plain(kw)
    ensures Spells(w, kw) <==> |w| == |kw| && forall i :: 0 <= i < |kw| ==> Lower(w[i]) == kw[i]
  {
    if |w| == |kw| {
      forall i | 0 <= i < |kw|
        ensures Lower(w[i]) == kw[i] <==>
                  w[i] == kw[i] || ('a' <= kw[i] <= 'z' && w[i] as int == kw[i] as int - 32)
      {
        LowerIff(w[i], kw[i]);
      }
    }
  }

  lemma LowerIff(c: char, d: char)
    requires !('A' <= d <= 'Z')
    ensures Lower(c) == d <==> c == d || ('a' <= d <= 'z' && c as int == d as int - 32)
  {
  }

  /** A keyword is recognised in any spelling, with any of its letters as capitals, and in no other. */
  lemma KeywordIff(w: string, kw: string, s: string)
    requires kw != "" && Plain(kw) && |w| == |kw| && Solid(w + s)
    ensures Keyword(w + s, kw) == if Spells(w, kw) then Some(s) else None
  {
    SkipSolid(w + s);
    SpellsLower(w, kw);
    assert (w + s)[|kw|..] == s;
    assert forall i :: 0 <= i < |kw| ==> (w + s)[i] == w[i];
  }

  lemma KeywordHit(kw: string, s: string)
    requires kw != "" && Plain(kw) && Solid(kw + s)
    ensures Keyword(kw + s, kw) == Some(s)
  {
    KeywordIff(kw, kw, s);
  }

  // ---------------------------------------------------------------------------------------
  // Operators.
  // ---------------------------------------------------------------------------------------

  function OpThen(w: string, s: string): string {
    " " + (w + (" " + s))
  }

  /** What may come after an expression of this level: the end, a closing symbol, or a looser operator. */
  ghost predicate Follows(s: string, level: nat) {
    s == "" || s[0] == ')' || s[0] == ',' ||
    exists w, op, r :: LevelOf(op) < level && SpellsOp(w, op) && s == OpThen(w, r)
  }

  lemma FollowsMore(s: string, a: nat, b: nat)
    requires Follows(s, a) && a <= b
    ensures Follows(s, b)
  {
  }

  lemma FollowsOp(w: string, op: Op, s: string, level: nat)
    requires LevelOf(op) < level && SpellsOp(w, op)
    ensures Follows(OpThen(w, s), level)
  {
  }

  /** The level that the first character of an operator tells. */
  function CharLevel(c: char): nat {
    if c == 'o' then OR
    else if c == 'a' then AND
    else if c == '<' || c == '>' || c == '!' || c == '=' || c == 'l' then CMP
    else if c == '+' || c == '-' then ADD
    else if c == '*' || c == '/' || c == '%' then MUL
    else ATOM
  }

  /** The keyword that a spelling stands for. */
  function WordOf(w: string, op: Op): string {
    if op == NE && w == "<>" then "<>" else Text(op)
  }

  lemma WordFirst(w: string, op: Op)
    ensures var kw := WordOf(w, op);
            && kw != "" && Plain(kw) && CharLevel(kw[0]) == LevelOf(op)
            && !IsSpace(kw[0]) && |kw| <= 4 && (|kw| > 1 ==> kw[0] != '-')
  {
  }

  lemma OpFirst(w: string, op: Op)
    requires SpellsOp(w, op)
    ensures Spells(w, WordOf(w, op)) && Plain(WordOf(w, op)) && WordOf(w, op) != ""
    ensures w != "" && CharLevel(Lower(w[0])) == LevelOf(op) && Lower(w[0]) == WordOf(w, op)[0]
    ensures !IsSpace(w[0]) && |w| <= 4 && (|w| > 1 ==> w[0] != '-')
  {
    WordFirst(w, op);
    SpellsLower(w, WordOf(w, op));
  }

  lemma OpSolid(w: string, op: Op, s: string)
    requires SpellsOp(w, op)
    ensures Solid(w + (" " + s))
    ensures Skip(OpThen(w, s)) == w + (" " + s)
  {
    OpFirst(w, op);
    var t := w + (" " + s);
    assert t[0] == w[0];
    if |w| == 1 {
      assert t[1] == ' ';
    }
    SkipBlank(t);
    SkipSolid(t);
  }

  lemma {:induction false} FirstOfMiss(table: seq<(string, Op)>, s: string)
    requires forall i :: 0 <= i < |table| ==> table[i].0 != ""
    requires forall i :: 0 <= i < |table| ==> Keyword(s, table[i].0) == None
    ensures FirstOf(table, s) == None
  {
    if table != [] {
      FirstOfMiss(table[1..], s);
    }
  }

  lemma {:induction false} FirstOfAt(table: seq<(string, Op)>, s: string, k: nat, rest: string)
    requires forall i :: 0 <= i < |table| ==> table[i].0 != ""
    requires k < |table| && Keyword(s, table[k].0) == Some(rest)
    requires forall i :: 0 <= i < k ==> Keyword(s, table[i].0) == None
    ensures FirstOf(table, s) == Some((table[k].1, rest))
  {
    if k > 0 {
      FirstOfAt(table[1..], s, k - 1, rest);
    }
  }

  lemma TableFirst(level: nat)
    ensures forall i :: 0 <= i < |Table(level)| ==>
              Table(level)[i].0 != "" && level < ATOM && CharLevel(Table(level)[i].0[0]) == level
  {
    assert "or"[0] == 'o' && "and"[0] == 'a' && "like"[0] == 'l';
    assert "<="[0] == '<' && ">="[0] == '>' && "!="[0] == '!' && "<>"[0] == '<' && "="[0] == '=' && "=="[0] == '=';
    assert "<"[0] == '<' && ">"[0] == '>' && "+"[0] == '+' && "-"[0] == '-';
    assert "*"[0] == '*' && "/"[0] == '/' && "%"[0] == '%';
    if level == 2 {
      forall i | 0 <= i < 9 ensures Table(2)[i].0 != "" && CharLevel(Table(2)[i].0[0]) == 2 {
        assert i == 0 || i == 1 || i == 2 || i == 3 || i == 4 || i == 5 || i == 6 || i == 7 || i == 8;
      }
    }
  }

  /** No operator of this level or a tighter one comes next. */
  lemma NoOperator(level: nat, s: string)
    requires Follows(s, level)
    ensures Operator(level, s) == None
  {
    var table := Table(level);
    TableFirst(level);
    forall i | 0 <= i < |table| ensures Keyword(s, table[i].0) == None {
      if s == "" || s[0] == ')' || s[0] == ',' {
        KeywordMiss(s, table[i].0);
      } else {
        var w, op, r :| LevelOf(op) < level && SpellsOp(w, op) && s == OpThen(w, r);
        OpSolid(w, op, r);
        OpFirst(w, op);
        KeywordBlank(w + (" " + r), table[i].0);
        assert (w + (" " + r))[0] == w[0];
        KeywordMiss(w + (" " + r), table[i].0);
      }
    }
    FirstOfMiss(table, s);
  }

  /** The position of an operator's keyword in the table of its level. */
  function IndexOf(w: string, op: Op): nat {
    match op
    case Or | And | LE | Add | Mul => 0
    case GE | Sub | Div => 1
    case Mod => 2
    case NE => if w == "<>" then 3 else 2
    case EQ => 4
    case LT => 6
    case GT => 7
    case Like => 8
  }

  lemma TableEntry(w: string, op: Op)
    ensures IndexOf(w, op) < |Table(LevelOf(op))| && Table(LevelOf(op))[IndexOf(w, op)] == (WordOf(w, op), op)
  {
  }

  /** No keyword that is tried earlier begins like this one and the blank after it. */
  lemma EarlierDiffers(w: string, op: Op, i: nat)
    requires i < IndexOf(w, op)
    ensures var kw, table := WordOf(w, op), Table(LevelOf(op));
            && i < |table| && kw != "" && table[i].0 != ""
            && (kw[0] != table[i].0[0] || (|table[i].0| == 2 && (if |kw| == 1 then ' ' else kw[1]) != table[i].0[1]))
  {
    TableEntry(w, op);
  }

  lemma EarlierMiss(w: string, op: Op, i: nat, s: string)
    requires SpellsOp(w, op) && i < IndexOf(w, op)
    ensures i < |Table(LevelOf(op))|
    ensures !StartsWith(w + (" " + s), Table(LevelOf(op))[i].0)
  {
    EarlierDiffers(w, op, i);
    OpFirst(w, op);
    SpellsLower(w, WordOf(w, op));
    var t := w + (" " + s);
    assert t[0] == w[0];
    assert t[1] == if |w| == 1 then ' ' else w[1];
  }

  /** A rendered operator is recognised as itself, in any spelling. */
  lemma OperatorHit(w: string, op: Op, s: string)
    requires SpellsOp(w, op)
    ensures Operator(LevelOf(op), OpThen(w, s)) == Some((op, " " + s))
  {
    var table, k, t := Table(LevelOf(op)), IndexOf(w, op), w + (" " + s);
    TableEntry(w, op);
    TableFirst(LevelOf(op));
    OpFirst(w, op);
    OpSolid(w, op, s);
    KeywordBlank(t, WordOf(w, op));
    KeywordIff(w, WordOf(w, op), " " + s);
    forall i | 0 <= i < k ensures Keyword(OpThen(w, s), table[i].0) == None {
      EarlierMiss(w, op, i, s);
    }
    FirstOfAt(table, OpThen(w, s), k, " " + s);
  }

  /** The words of the operators, by level. */
  lemma OperatorWords(w: string, s: string)
    ensures w == "or" ==> Operator(0, OpThen(w, s)) == Some((Or, " " + s))
    ensures w == "and" ==> Operator(1, OpThen(w, s)) == Some((And, " " + s))
    ensures w == "<=" ==> Operator(2, OpThen(w, s)) == Some((LE, " " + s))
    ensures w == ">=" ==> Operator(2, OpThen(w, s)) == Some((GE, " " + s))
    ensures w == "!=" || w == "<>" ==> Operator(2, OpThen(w, s)) == Some((NE, " " + s))
    ensures w == "=" ==> Operator(2, OpThen(w, s)) == Some((EQ, " " + s))
    ensures w == "<" ==> Operator(2, OpThen(w, s)) == Some((LT, " " + s))
    ensures w == ">" ==> Operator(2, OpThen(w, s)) == Some((GT, " " + s))
    ensures w == "like" ==> Operator(2, OpThen(w, s)) == Some((Like, " " + s))
    ensures w == "+" ==> Operator(3, OpThen(w, s)) == Some((Add, " " + s))
    ensures w == "-" ==> Operator(3, OpThen(w, s)) == Some((Sub, " " + s))
    ensures w == "*" ==> Operator(4, OpThen(w, s)) == Some((Mul, " " + s))
    ensures w == "/" ==> Operator(4, OpThen(w, s)) == Some((Div, " " + s))
    ensures w == "%" ==> Operator(4, OpThen(w, s)) == Some((Mod, " " + s))
  {
    forall op | SpellsOp(w, op) ensures Operator(LevelOf(op), OpThen(w, s)) == Some((op, " " + s)) {
      OperatorHit(w, op, s);
    }
  }

  lemma OperatorAt(level: nat, t: string, k: nat)
    requires level < ATOM && k < |Table(level)| && Solid(t) && StartsWith(t, Table(level)[k].0)
    requires forall i :: 0 <= i < k ==> !StartsWith(t, Table(level)[i].0)
    ensures Operator(level, t) == Some((Table(level)[k].1, t[|Table(level)[k].0|..]))
  {
    TableFirst(level);
    SkipSolid(t);
    FirstOfAt(Table(level), t, k, t[|Table(level)[k].0|..]);
  }

  lemma OperatorMiss(level: nat, t: string)
    requires level < ATOM && t != "" && Solid(t) && CharLevel(Lower(t[0])) != level
    ensures Operator(level, t) == None
  {
    TableFirst(level);
    SkipSolid(t);
    FirstOfMiss(Table(level), t);
  }

  lemma UnequalHit(t: string)
    requires |t| >= 2 && t[0] == '<' && t[1] == '>'
    ensures Operator(CMP, t) == Some((NE, t[2..]))
  {
    var table := Table(CMP);
    assert table[3] == ("<>", NE);
    assert !StartsWith(t, table[0].0) && !StartsWith(t, table[1].0) && !StartsWith(t, table[2].0);
    OperatorAt(CMP, t, 3);
  }

  lemma EqualHit(t: string)
    requires t != "" && t[0] == '='
    ensures Operator(CMP, t) == Some((EQ, t[1..]))
  {
    var table := Table(CMP);
    assert table[4] == ("=", EQ);
    assert !StartsWith(t, table[0].0) && !StartsWith(t, table[1].0);
    assert !StartsWith(t, table[2].0) && !StartsWith(t, table[3].0);
    OperatorAt(CMP, t, 4);
  }

  lemma NoOperand(t: string)
    requires t != "" && t[0] == '='
    ensures Parse(ADD, t) == (Unknown, t)
  {
    KeywordMiss(t, "not");
    KeywordMiss(t, "(");
    SkipSolid(t);
    assert SpanSym(t) == 0 && SpanDigits(t) == 0;
    assert ParseAtom(t) == (Unknown, t);
    OperatorMiss(MUL, t);
    OperatorMiss(ADD, t);
    assert Parse(MUL, t) == (Unknown, t);
  }

  /**
   "<>" is one more way to write "!=". But "==" is never reached, since "=" is tried before it: the second sign
   is left in the input, where no operand begins with it.
   */
  lemma TwoCharacters(l: Expr, ne: string, eq: string, s: string)
    requires ne == "<>" && eq == "=="
    ensures Operator(CMP, ne + s) == Some((NE, s))
    ensures More(CMP, l, eq + s) == (Bin(EQ, l, Unknown), "=" + s)
  {
    UnequalHit(ne + s);
    assert (ne + s)[2..] == s;
    EqualHit(eq + s);
    assert (eq + s)[1..] == "=" + s;
    NoOperand("=" + s);
    SqlParser.MoreStep(CMP, l, eq + s, EQ, "=" + s, Unknown, "=" + s);
  }

  // ---------------------------------------------------------------------------------------
  // Tokens.
  // ---------------------------------------------------------------------------------------

  lemma {:induction false} DecimalValue(n: nat)
    ensures DigitsValue(Decimal(n)) == n
  {
    var s := Decimal(n);
    if n >= 10 {
      DecimalValue(n / 10);
      assert s[..|s| - 1] == Decimal(n / 10);
    } else {
      assert s[..0] == "";
    }
  }

  lemma {:induction false} SpanDigitsOf(d: string, s: string)
    requires (forall i :: 0 <= i < |d| ==> IsDigit(d[i])) && (s == "" || !IsDigit(s[0]))
    ensures SpanDigits(d + s) == |d|
  {
    if d == "" {
      assert d + s == s;
    } else {
      SpanDigitsOf(d[1..], s);
      assert (d + s)[1..] == d[1..] + s;
    }
  }

  lemma {:induction false} SpanSymOf(d: string, s: string)
    requires (forall i :: 0 <= i < |d| ==> IsSym(d[i])) && (s == "" || !IsSym(s[0]))
    ensures SpanSym(d + s) == |d|
  {
    if d == "" {
      assert d + s == s;
    } else {
      SpanSymOf(d[1..], s);
      assert (d + s)[1..] == d[1..] + s;
    }
  }

  function IntText(n: int): string {
    if n < 0 then "-" + Decimal(-n) else Decimal(n)
  }

  lemma DigitsBack(n: nat, s: string)
    requires s == "" || !IsDigit(s[0])
    ensures var t, d := Decimal(n) + s, Decimal(n);
            && SpanDigits(t) == |d| > 0 && t[..|d|] == d && t[|d|..] == s
            && DigitsValue(t[..|d|]) == n && IsDigit(t[0])
  {
    var d := Decimal(n);
    SpanDigitsOf(d, s);
    DecimalValue(n);
    assert (d + s)[..|d|] == d && (d + s)[|d|..] == s && (d + s)[0] == d[0];
  }

  lemma NumberFrom(t: string, neg: bool, u: string, v: nat, k: nat)
    requires t != "" && (neg <==> t[0] == '-') && u == (if neg then t[1..] else t)
    requires SpanDigits(u) == k > 0 && DigitsValue(u[..k]) == v
    ensures Number(t) == Some((Clamp(if neg then 0 - v else v), u[k..]))
  {
  }

  lemma NegativeText(m: nat, s: string)
    requires m > 0
    ensures var t := IntText(0 - m) + s; t != "" && t[0] == '-' && t[1..] == Decimal(m) + s
  {
  }

  /** A number is read as itself or, beyond 64 bits, as the nearest that fits. */
  lemma NumberBack(n: int, s: string)
    requires s == "" || !('0' <= s[0] <= '9')
    ensures Number(IntText(n) + s)
         == Some((if n > 0x7fff_ffff_ffff_ffff then 0x7fff_ffff_ffff_ffff
                  else if n < -0x8000_0000_0000_0000 then -0x8000_0000_0000_0000 else n, s))
  {
    if n < 0 {
      NegativeBack(-n, s);
    } else {
      DigitsBack(n, s);
      NumberFrom(Decimal(n) + s, false, Decimal(n) + s, n, |Decimal(n)|);
    }
  }

  lemma NegativeBack(m: nat, s: string)
    requires 0 < m && (s == "" || !IsDigit(s[0]))
    ensures Number(IntText(0 - m) + s) == Some((Clamp(0 - m), s))
  {
    NegativeText(m, s);
    DigitsBack(m, s);
    NumberFrom(IntText(0 - m) + s, true, Decimal(m) + s, m, |Decimal(m)|);
  }

  lemma QuotedPlain(c: char, u: string, x: string, s: string)
    requires c != '\'' && c != '\\' && Quoted(u, '\'') == Some((x, s))
    ensures Quoted([c] + u, '\'') == Some(([c] + x, s))
  {
    assert ([c] + u)[1..] == u;
  }

  lemma QuotedEscape(c: char, u: string, x: string, s: string)
    requires Quoted(u, '\'') == Some((x, s))
    ensures Quoted(['\\', c] + u, '\'') == Some(([c] + x, s))
  {
    var t := ['\\', c] + u;
    assert t[2..] == u && t[1] == c;
  }

  lemma {:induction false} QuotedBack(x: string, s: string)
    ensures Quoted(Escaped(x) + ("'" + s), '\'') == Some((x, s))
  {
    if x == "" {
      assert Escaped(x) + ("'" + s) == "'" + s && ("'" + s)[1..] == s;
    } else {
      QuotedBack(x[1..], s);
      var head := if x[0] == '\'' || x[0] == '\\' then ['\\', x[0]] else [x[0]];
      Assoc(head, Escaped(x[1..]), "'" + s);
      assert [x[0]] + x[1..] == x;
      if x[0] == '\'' || x[0] == '\\' {
        QuotedEscape(x[0], Escaped(x[1..]) + ("'" + s), x[1..], s);
      } else {
        QuotedPlain(x[0], Escaped(x[1..]) + ("'" + s), x[1..], s);
      }
    }
  }

  /** What follows an expression neither extends a name or number nor opens a call. */
  lemma FollowsStops(s: string, level: nat)
    requires Follows(s, level) && level <= ATOM
    ensures s == "" || (!IsSym(s[0]) && !IsDigit(s[0]) && Lower(s[0]) == s[0])
    ensures Keyword(s, "(") == None
  {
    if s == "" || s[0] == ')' || s[0] == ',' {
      KeywordMiss(s, "(");
    } else {
      var w, op, r :| LevelOf(op) < level && SpellsOp(w, op) && s == OpThen(w, r);
      OpOpensNoCall(w, op, r);
    }
  }

  lemma OpOpensNoCall(w: string, op: Op, r: string)
    requires SpellsOp(w, op)
    ensures OpThen(w, r)[0] == ' ' && Keyword(OpThen(w, r), "(") == None
  {
    var t := w + (" " + r);
    OpSolid(w, op, r);
    OpFirst(w, op);
    assert t[0] == w[0];
    KeywordBlank(t, "(");
    KeywordMiss(t, "(");
  }

  lemma StartsNot(s: string, kw: string)
    requires kw == "not"
    ensures StartsWith(s, kw) <==> |s| >= 3 && Spells(s[..3], kw)
  {
    if |s| >= 3 {
      SpellsLower(s[..3], kw);
    }
  }

  /** A good name is not taken for "not", whatever follows it. */
  lemma NameIsNotNot(name: string, s: string)
    requires GoodName(name) && (s == "" || (!IsSym(s[0]) && Lower(s[0]) == s[0]))
    ensures Solid(name + s) && Keyword(name + s, "not") == None && Keyword(name + s, "(") == None
  {
    var t := name + s;
    assert t[0] == name[0] && IsSym(name[0]);
    KeywordMiss(t, "(");
    SkipSolid(t);
    StartsNot(name, "not");
    if |name| >= 3 {
      var i :| 0 <= i < 3 && Lower(name[i]) != "not"[i];
      assert t[i] == name[i];
    } else if s != "" {
      assert t[|name|] == s[0];
      assert |name| == 1 || |name| == 2;
      assert IsSym("not"[|name|]);
    }
  }

  lemma NameToken(name: string, s: string)
    requires GoodName(name) && (s == "" || (!IsSym(s[0]) && Lower(s[0]) == s[0]))
    ensures ParseAtom(name + s) == ParseNamed(name, s)
  {
    var t := name + s;
    NameIsNotNot(name, s);
    SkipSolid(t);
    AtomIsToken(t);
    SpanSymOf(name, s);
    assert t[0] == name[0] && IsSym(name[0]);
    TokenIsName(t, |name|);
    assert t[..|name|] == name && t[|name|..] == s;
  }

  lemma AtomIsToken(t: string)
    requires Keyword(t, "not") == None && Keyword(t, "(") == None
    ensures ParseAtom(t) == ParseToken(Skip(t))
  {
  }

  lemma TokenIsName(t: string, n: nat)
    requires t != "" && IsSym(t[0]) && !IsDigit(t[0]) && n == SpanSym(t)
    ensures ParseToken(t) == ParseNamed(t[..n], t[n..])
  {
    assert SpanDigits(t) == 0;
  }

  // ---------------------------------------------------------------------------------------
  // Expressions.
  // ---------------------------------------------------------------------------------------

  /** How rendered text begins: not blank, not a closing symbol, and a dash only before a digit. */
  predicate GoodStart(t: string) {
    && t != "" && !IsSpace(t[0]) && t[0] != ')' && t[0] != ','
    && (t[0] == '-' ==> |t| >= 2 && IsDigit(t[1]))
  }

  lemma GoodStartThen(t: string, s: string)
    requires GoodStart(t)
    ensures GoodStart(t + s) && Solid(t + s) && Keyword(t + s, ")") == None
  {
    assert (t + s)[0] == t[0];
    assert |t| >= 2 ==> (t + s)[1] == t[1];
    KeywordMiss(t + s, ")");
  }

  lemma IntStart(n: int)
    ensures GoodStart(IntText(n))
  {
    assert IsDigit(Decimal(if n < 0 then -n else n)[0]);
  }

  lemma {:induction false} PrintStart(e: Expr, level: nat, style: Style)
    requires Printable(e, style)
    ensures GoodStart(Print(e, level, style))
    decreases e, if Prec(e) < level then 1 else 0
  {
    if Prec(e) >= level {
      if e.Bin? {
        var k := LevelOf(e.op);
        var kl := if k == CMP then ADD else k;
        PrintStart(e.left, kl, style);
        BinText(style(e), Print(e.left, kl, style), Print(e.right, k + 1, style), "");
        GoodStartThen(Print(e.left, kl, style), OpThen(style(e), Print(e.right, k + 1, style) + ""));
        assert Print(e, level, style) + "" == Print(e, level, style);
      } else if e.Int? {
        IntStart(e.n);
      } else {
        TokenStart(e, level, style);
      }
    }
  }

  lemma TokenStart(e: Expr, level: nat, style: Style)
    requires Printable(e, style) && !e.Bin? && !e.Int? && level <= ATOM
    ensures GoodStart(Print(e, level, style))
  {
    match e
    case Ident(name) => assert IsSym(name[0]);
    case Str(_) =>
    case Not(arg) => NotFirst(style(e));
    case Func(fn, args) =>
      SpelledName(style(e), fn);
      assert IsSym(style(e)[0]);
  }

  lemma NotFirst(w: string)
    requires Spells(w, "not")
    ensures |w| == 3 && (w[0] == 'n' || w[0] == 'N')
  {
    LowerIff(w[0], 'n');
  }

  /** A name is good in all its spellings, or in none. */
  lemma SpelledName(w: string, fn: string)
    requires GoodName(fn) && Plain(fn) && Spells(w, fn)
    ensures GoodName(w) && LowerAll(w) == fn
  {
    SpellsLower(w, fn);
    StartsNot(fn, "not");
    StartsNot(w, "not");
  }

  /** The part of a level's parser that is still to run when its first operand has been read. */
  function After(level: nat, e: Expr, s: string): (Expr, string)
    requires level <= ATOM
  {
    if level == CMP || level == ATOM then (e, s) else More(level, e, s)
  }

  ghost predicate FollowsLevel(s: string, level: nat) {
    Follows(s, if level == CMP || level == ATOM then level else level + 1)
  }

  lemma AfterNothing(level: nat, e: Expr, s: string)
    requires level <= ATOM && Follows(s, level)
    ensures After(level, e, s) == (e, s)
  {
    if level < ATOM {
      NoOperator(level, s);
    }
  }

  /** A parenthesised expression is an atom. */
  lemma ParenBack(text: string, inner: string, e: Expr, s: string)
    requires text == "(" + inner + ")" && Parse(OR, inner + (")" + s)) == (e, ")" + s)
    ensures ParseAtom(text + s) == (e, s)
  {
    ParenText(inner, s);
    ParenOpens(inner + (")" + s));
    KeywordHit(")", s);
    ParenStep("(" + (inner + (")" + s)), inner + (")" + s), ")" + s, e, s);
  }

  lemma ParenText(inner: string, s: string)
    ensures "(" + inner + ")" + s == "(" + (inner + (")" + s))
  {
  }

  lemma ParenOpens(x: string)
    ensures Keyword("(" + x, "not") == None && Keyword("(" + x, "(") == Some(x)
  {
    KeywordMiss("(" + x, "not");
    KeywordHit("(", x);
  }

  lemma ParenStep(t: string, rest: string, close: string, e: Expr, s: string)
    requires Keyword(t, "not") == None && Keyword(t, "(") == Some(rest)
    requires Parse(OR, rest) == (e, close) && Keyword(close, ")") == Some(s)
    ensures ParseAtom(t) == (e, s)
  {
  }

  lemma NotText(w: string, arg: string, s: string)
    ensures w + " " + arg + s == w + (" " + (arg + s))
  {
  }

  lemma NotHit(w: string, x: string)
    requires Spells(w, "not")
    ensures Keyword(w + x, "not") == Some(x)
  {
    NotFirst(w);
    assert (w + x)[0] == w[0];
    KeywordIff(w, "not", x);
  }

  lemma NotBack(w: string, text: string, arg: string, e: Expr, s: string)
    requires Spells(w, "not") && text == w + " " + arg && ParseAtom(arg + s) == (e, s)
    ensures ParseAtom(text + s) == (Not(e), s)
  {
    NotText(w, arg, s);
    NotHit(w, " " + (arg + s));
    AtomBlank(arg + s);
    NotStep(w + (" " + (arg + s)), " " + (arg + s), e, s);
  }

  lemma NotStep(t: string, rest: string, e: Expr, s: string)
    requires Keyword(t, "not") == Some(rest) && ParseAtom(rest) == (e, s)
    ensures ParseAtom(t) == (Not(e), s)
  {
  }

  lemma IntBack(n: int, s: string)
    requires -0x8000_0000_0000_0000 <= n <= 0x7fff_ffff_ffff_ffff && FollowsLevel(s, ATOM)
    ensures ParseAtom(IntText(n) + s) == (Int(n), s)
  {
    FollowsStops(s, ATOM);
    NumberBack(n, s);
    IntStart(n);
    var t := IntText(n) + s;
    GoodStartThen(IntText(n), s);
    assert t[0] == IntText(n)[0];
    assert t[0] == '-' || IsDigit(t[0]);
    KeywordMiss(t, "not");
    KeywordMiss(t, "(");
    SkipSolid(t);
  }

  lemma StrBack(x: string, s: string)
    ensures ParseAtom("'" + Escaped(x) + "'" + s) == (Str(x), s)
  {
    assert "'" + Escaped(x) + "'" + s == ['\''] + (Escaped(x) + ("'" + s));
    QuoteOpens('\'', Escaped(x) + ("'" + s));
    QuotedBack(x, s);
  }

  lemma {:induction false} QuotedUpTo(x: string, q: char, s: string)
    requires forall i :: 0 <= i < |x| ==> x[i] != q && x[i] != '\\'
    ensures Quoted(x, q) == None && Quoted(x + ([q] + s), q) == Some((x, s))
  {
    if x == "" {
      assert x + ([q] + s) == [q] + s;
    } else {
      QuotedUpTo(x[1..], q, s);
      assert (x + ([q] + s))[1..] == x[1..] + ([q] + s);
      assert [x[0]] + x[1..] == x;
    }
  }

  /**
   Strings stand between single or double quotes, and each kind may hold the other; a string that does not end
   uses up the input and gives nothing.
   */
  lemma StringTokens(q: char, x: string, s: string)
    requires (q == '\'' || q == '"') && forall i :: 0 <= i < |x| ==> x[i] != q && x[i] != '\\'
    ensures ParseAtom([q] + (x + ([q] + s))) == (Str(x), s) && ParseAtom([q] + x) == (Unknown, "")
  {
    QuotedUpTo(x, q, s);
    QuoteOpens(q, x + ([q] + s));
    QuoteOpens(q, x);
  }

  lemma QuoteOpens(q: char, t: string)
    requires q == '\'' || q == '"'
    ensures ParseAtom([q] + t)
         == var str := Quoted(t, q); if str.Some? then (Str(str.value.0), str.value.1) else (Unknown, "")
  {
    var u := [q] + t;
    assert u[1..] == t;
    KeywordMiss(u, "not");
    KeywordMiss(u, "(");
    SkipSolid(u);
    assert SpanDigits(u) == 0;
  }

  lemma IdentBack(name: string, s: string)
    requires GoodName(name) && FollowsLevel(s, ATOM)
    ensures ParseAtom(name + s) == (Ident(name), s)
  {
    FollowsStops(s, ATOM);
    NameToken(name, s);
  }

  lemma CallText(fn: string, text: string, s: string)
    ensures fn + "(" + text + ")" + s == fn + ("(" + (text + (")" + s)))
  {
  }

  /** A call, given that its arguments are read back. */
  lemma CallBack(w: string, text: string, fn: string, args: seq<Expr>, inner: string, s: string)
    requires text == w + "(" + inner + ")" && GoodName(w) && LowerAll(w) == fn
    requires args == [] ==> inner == ""
    requires args != [] ==> GoodStart(inner) && ParseArgs(inner + (")" + s)) == (args, ")" + s)
    ensures ParseAtom(text + s) == (Func(fn, args), s)
  {
    CallText(w, inner, s);
    NameToken(w, "(" + (inner + (")" + s)));
    KeywordHit("(", inner + (")" + s));
    KeywordHit(")", s);
    if args == [] {
      assert inner + (")" + s) == ")" + s;
      EmptyCall(w, fn, "(" + (")" + s), ")" + s, s);
    } else {
      GoodStartThen(inner, ")" + s);
      CallWith(w, fn, args, "(" + (inner + (")" + s)), inner + (")" + s), ")" + s, s);
    }
  }

  lemma EmptyCall(w: string, fn: string, t: string, rest: string, s: string)
    requires w != "" && LowerAll(w) == fn && Keyword(t, "(") == Some(rest) && Keyword(rest, ")") == Some(s)
    ensures ParseNamed(w, t) == (Func(fn, []), s)
  {
  }

  lemma CallWith(w: string, fn: string, args: seq<Expr>, t: string, rest: string, close: string, s: string)
    requires w != "" && LowerAll(w) == fn && Keyword(t, "(") == Some(rest) && Keyword(rest, ")") == None
    requires ParseArgs(rest) == (args, close) && Keyword(close, ")") == Some(s)
    ensures ParseNamed(w, t) == (Func(fn, args), s)
  {
  }

  lemma BinText(w: string, left: string, right: string, s: string)
    ensures left + " " + w + " " + right + s == left + OpThen(w, right + s)
  {
  }

  /** One more operator at a level: the loop takes it and goes on. */
  lemma MoreTakes(w: string, op: Op, k: nat, l: Expr, r: Expr, x: string, s: string)
    requires SpellsOp(w, op) && k == LevelOf(op) && Parse(k + 1, x) == (r, s)
    ensures More(k, l, OpThen(w, x)) == if k == CMP then (Bin(op, l, r), s) else More(k, Bin(op, l, r), s)
  {
    OperatorHit(w, op, x);
    BlankOperand(k + 1, x, r, s);
    SqlParser.MoreStep(k, l, OpThen(w, x), op, " " + x, r, s);
  }

  lemma BlankOperand(level: nat, x: string, r: Expr, s: string)
    requires level <= ATOM && Parse(level, x) == (r, s)
    ensures Parse(level, " " + x) == (r, s)
  {
    ParseBlank(level, x);
  }

  lemma FollowsUp(s: string, level: nat)
    requires level < ATOM && FollowsLevel(s, level)
    ensures FollowsLevel(s, level + 1) && Follows(s, level + 1)
  {
    if level == CMP {
      FollowsMore(s, CMP, ADD);
      FollowsMore(s, CMP, MUL);
    } else {
      FollowsMore(s, level + 1, level + 2);
    }
  }

  /** A level without an operator of its own passes its operand on. */
  lemma PassUp(level: nat, t: string, e: Expr, s: string)
    requires level < ATOM && FollowsLevel(s, level) && Parse(level + 1, t) == After(level + 1, e, s)
    ensures Parse(level, t) == After(level, e, s)
  {
    FollowsUp(s, level);
    AfterNothing(level + 1, e, s);
    if level == CMP {
      NoOperator(level, s);
    }
  }

  /** An operator between its two operands. */
  lemma BinBack(w: string, op: Op, k: nat, kl: nat, l: Expr, r: Expr, left: string, x: string, s: string)
    requires SpellsOp(w, op) && k == LevelOf(op) && kl == (if k == CMP then ADD else k) && FollowsLevel(s, k)
    requires Parse(kl, left + OpThen(w, x)) == After(kl, l, OpThen(w, x))
    requires Parse(k + 1, x) == After(k + 1, r, s)
    ensures Parse(k, left + OpThen(w, x)) == After(k, Bin(op, l, r), s)
  {
    FollowsUp(s, k);
    AfterNothing(k + 1, r, s);
    MoreTakes(w, op, k, l, r, x, s);
    FollowsOp(w, op, x, k + 1);
    OperandsBack(op, k, kl, l, r, left, OpThen(w, x), s);
  }

  lemma OperandsBack(op: Op, k: nat, kl: nat, l: Expr, r: Expr, left: string, s': string, s: string)
    requires k < ATOM && kl == (if k == CMP then ADD else k) && (k == CMP ==> Follows(s', ADD))
    requires Parse(kl, left + s') == After(kl, l, s')
    requires More(k, l, s') == if k == CMP then (Bin(op, l, r), s) else More(k, Bin(op, l, r), s)
    ensures Parse(k, left + s') == After(k, Bin(op, l, r), s)
  {
    if k == CMP {
      ComparisonBack(op, l, r, left, s', s);
    }
  }

  lemma ComparisonBack(op: Op, l: Expr, r: Expr, left: string, s': string, s: string)
    requires Follows(s', ADD) && Parse(ADD, left + s') == More(ADD, l, s')
    requires More(CMP, l, s') == (Bin(op, l, r), s)
    ensures Parse(CMP, left + s') == (Bin(op, l, r), s)
  {
    AfterNothing(ADD, l, s');
  }

  /** Rendering and parsing at any level, before any text that may follow. */
  lemma {:induction false} ParsePrint(e: Expr, level: nat, s: string, style: Style)
    requires Printable(e, style) && level <= ATOM && FollowsLevel(s, level)
    ensures Parse(level, Print(e, level, style) + s) == After(level, e, s)
    decreases e, if Prec(e) < level then 1 else 0, ATOM - level, 2
  {
    if level == ATOM {
      if Prec(e) < ATOM {
        ParenthesisedBack(e, s, style);
      } else {
        AtomBack(e, s, style);
      }
    } else if Prec(e) == level {
      BinaryBack(e, level, s, style);
    } else {
      OperandBack(e, level, s, style);
    }
  }

  /** An expression that is no operation of the level is read by the next one. */
  lemma {:induction false} OperandBack(e: Expr, level: nat, s: string, style: Style)
    requires Printable(e, style) && level < ATOM && Prec(e) != level && FollowsLevel(s, level)
    ensures Parse(level, Print(e, level, style) + s) == After(level, e, s)
    decreases e, if Prec(e) < level then 1 else 0, ATOM - level, 1
  {
    FollowsUp(s, level);
    ParsePrint(e, level + 1, s, style);
    SamePrint(e, level, style);
    PassUp(level, Print(e, level, style) + s, e, s);
  }

  lemma SamePrint(e: Expr, level: nat, style: Style)
    requires Prec(e) != level
    ensures Print(e, level, style) == Print(e, level + 1, style)
  {
  }

  lemma {:induction false} ParenthesisedBack(e: Expr, s: string, style: Style)
    requires Printable(e, style) && e.Bin?
    ensures ParseAtom(Print(e, ATOM, style) + s) == (e, s)
    decreases e, 1, 0, 1
  {
    ClosedBack(e, ")" + s, style);
    ParenPrinted(e, style);
    ParenBack(Print(e, ATOM, style), Print(e, OR, style), e, s);
  }

  lemma ParenPrinted(e: Expr, style: Style)
    requires e.Bin?
    ensures Print(e, ATOM, style) == "(" + Print(e, OR, style) + ")"
  {
  }

  /** An expression before a closing parenthesis or a comma. */
  lemma {:induction false} ClosedBack(e: Expr, s: string, style: Style)
    requires Printable(e, style) && s != "" && (s[0] == ')' || s[0] == ',')
    ensures Parse(OR, Print(e, OR, style) + s) == (e, s)
    decreases e, 0, ATOM, 3
  {
    ParsePrint(e, OR, s, style);
    AfterNothing(OR, e, s);
  }

  lemma {:induction false} BinaryBack(e: Expr, k: nat, s: string, style: Style)
    requires Printable(e, style) && e.Bin? && k == LevelOf(e.op) && FollowsLevel(s, k)
    ensures Parse(k, Print(e, k, style) + s) == After(k, e, s)
    decreases e, 0, 0, 1
  {
    var kl := if k == CMP then ADD else k;
    var left, right := Print(e.left, kl, style), Print(e.right, k + 1, style);
    LeftBack(e.left, style(e), e.op, kl, right + s, style);
    RightBack(e.right, k, s, style);
    BinBack(style(e), e.op, k, kl, e.left, e.right, left, right + s, s);
    BinText(style(e), left, right, s);
  }

  lemma {:induction false} LeftBack(l: Expr, w: string, op: Op, kl: nat, x: string, style: Style)
    requires Printable(l, style) && SpellsOp(w, op) && kl == (if LevelOf(op) == CMP then ADD else LevelOf(op))
    ensures Parse(kl, Print(l, kl, style) + OpThen(w, x)) == After(kl, l, OpThen(w, x))
    decreases l, 2, 0, 0
  {
    FollowsOp(w, op, x, kl + 1);
    ParsePrint(l, kl, OpThen(w, x), style);
  }

  lemma {:induction false} RightBack(r: Expr, k: nat, s: string, style: Style)
    requires Printable(r, style) && k < ATOM && FollowsLevel(s, k)
    ensures Parse(k + 1, Print(r, k + 1, style) + s) == After(k + 1, r, s)
    decreases r, 2, 0, 0
  {
    FollowsUp(s, k);
    ParsePrint(r, k + 1, s, style);
  }

  lemma {:induction false} AtomBack(e: Expr, s: string, style: Style)
    requires Printable(e, style) && !e.Bin? && FollowsLevel(s, ATOM)
    ensures ParseAtom(Print(e, ATOM, style) + s) == (e, s)
    decreases e, 0, 0, 0
  {
    if e.Not? {
      ParsePrint(e.arg, ATOM, s, style);
      NegationBack(e.arg, s, style);
    } else if e.Func? {
      if e.args != [] {
        ArgsBack(e.args, s, style);
      }
      FuncBack(e.fn, e.args, s, style);
    } else {
      TokenText(e, style);
      if e.Ident? {
        IdentBack(e.name, s);
      } else if e.Int? {
        IntBack(e.n, s);
      } else {
        StrBack(e.s, s);
      }
    }
  }

  lemma TokenText(e: Expr, style: Style)
    ensures e.Ident? ==> Print(e, ATOM, style) == e.name
    ensures e.Int? ==> Print(e, ATOM, style) == IntText(e.n)
    ensures e.Str? ==> Print(e, ATOM, style) == "'" + Escaped(e.s) + "'"
  {
  }

  lemma NegationBack(arg: Expr, s: string, style: Style)
    requires Spells(style(Not(arg)), "not") && ParseAtom(Print(arg, ATOM, style) + s) == (arg, s)
    ensures ParseAtom(Print(Not(arg), ATOM, style) + s) == (Not(arg), s)
  {
    NotPrinted(arg, style);
    NotBack(style(Not(arg)), Print(Not(arg), ATOM, style), Print(arg, ATOM, style), arg, s);
  }

  lemma NotPrinted(arg: Expr, style: Style)
    ensures Print(Not(arg), ATOM, style) == style(Not(arg)) + " " + Print(arg, ATOM, style)
  {
  }

  lemma FuncPrinted(fn: string, args: seq<Expr>, style: Style)
    ensures Print(Func(fn, args), ATOM, style) == style(Func(fn, args)) + "(" + PrintArgs(args, style) + ")"
  {
  }

  lemma FuncBack(fn: string, args: seq<Expr>, s: string, style: Style)
    requires Printable(Func(fn, args), style)
    requires args != [] ==> ParseArgs(PrintArgs(args, style) + (")" + s)) == (args, ")" + s)
    ensures ParseAtom(Print(Func(fn, args), ATOM, style) + s) == (Func(fn, args), s)
  {
    if args != [] {
      ArgsStart(args, style);
    }
    FuncPrinted(fn, args, style);
    SpelledName(style(Func(fn, args)), fn);
    CallBack(style(Func(fn, args)), Print(Func(fn, args), ATOM, style), fn, args, PrintArgs(args, style), s);
  }

  lemma CommaText(head: string, more: string, close: string)
    ensures head + ", " + more == head + (", " + more)
    ensures head + ", " + more + close == head + ("," + (" " + (more + close)))
  {
  }

  lemma ArgsStart(args: seq<Expr>, style: Style)
    requires args != [] && Printable(args[0], style)
    ensures GoodStart(PrintArgs(args, style))
  {
    PrintStart(args[0], OR, style);
    if |args| > 1 {
      GoodStartThen(Print(args[0], OR, style), ", " + PrintArgs(args[1..], style));
      CommaText(Print(args[0], OR, style), PrintArgs(args[1..], style), "");
    }
  }

  lemma {:induction false} ArgsBack(args: seq<Expr>, s: string, style: Style)
    requires args != [] && forall i :: 0 <= i < |args| ==> Printable(args[i], style)
    ensures ParseArgs(PrintArgs(args, style) + (")" + s)) == (args, ")" + s)
    decreases args, 1, 0, 0
  {
    if |args| == 1 {
      ClosedBack(args[0], ")" + s, style);
      ArgsOne(args[0], Print(args[0], OR, style) + (")" + s), s);
      assert args == [args[0]];
    } else {
      ArgsBack(args[1..], s, style);
      ClosedBack(args[0], "," + (" " + (PrintArgs(args[1..], style) + (")" + s))), style);
      ArgsPrinted(args, style);
      FirstAndRest(args);
      ArgsWhole(args, args[0], args[1..], PrintArgs(args, style), Print(args[0], OR, style),
                PrintArgs(args[1..], style), ")" + s);
    }
  }

  lemma ArgsWhole(args: seq<Expr>, e: Expr, es: seq<Expr>, text: string, head: string, more: string, close: string)
    requires args == [e] + es && text == head + ", " + more && ParseArgs(more + close) == (es, close)
    requires var rest := "," + (" " + (more + close)); Parse(OR, head + rest) == (e, rest)
    ensures ParseArgs(text + close) == (args, close)
  {
    CommaArgs(e, es, head, more, close);
  }

  lemma FirstAndRest<T>(s: seq<T>)
    requires s != []
    ensures [s[0]] + s[1..] == s && (|s| == 1 ==> s == [s[0]])
  {
  }

  lemma ArgsPrinted(args: seq<Expr>, style: Style)
    requires |args| > 1
    ensures PrintArgs(args, style) == Print(args[0], OR, style) + ", " + PrintArgs(args[1..], style)
  {
  }

  lemma CommaArgs(e: Expr, es: seq<Expr>, head: string, more: string, close: string)
    requires Parse(OR, head + ("," + (" " + (more + close)))) == (e, "," + (" " + (more + close)))
    requires ParseArgs(more + close) == (es, close)
    ensures ParseArgs(head + ", " + more + close) == ([e] + es, close)
  {
    CommaText(head, more, close);
    ArgsMore(e, es, head + ("," + (" " + (more + close))), more + close, close);
  }

  lemma ArgsOne(e: Expr, text: string, s: string)
    requires Parse(OR, text) == (e, ")" + s)
    ensures ParseArgs(text) == ([e], ")" + s)
  {
    KeywordMiss(")" + s, ",");
  }

  lemma ArgsMore(e: Expr, es: seq<Expr>, text: string, tail: string, rest: string)
    requires Parse(OR, text) == (e, "," + (" " + tail)) && ParseArgs(tail) == (es, rest)
    ensures ParseArgs(text) == ([e] + es, rest)
  {
    KeywordHit(",", " " + tail);
    ArgsBlank(tail);
  }

  lemma ArgsBlank(s: string)
    ensures ParseArgs(" " + s) == ParseArgs(s)
  {
    ParseBlank(OR, s);
  }

  /** Parse of print: every printable expression comes back whole. */
  lemma ParseOfPrint(e: Expr, style: Style)
    requires Printable(e, style)
    ensures Parse(OR, Print(e, OR, style)) == (e, "")
  {
    ParsePrint(e, OR, "", style);
    AfterNothing(OR, e, "");
    assert Print(e, OR, style) + "" == Print(e, OR, style);
  }

  // ---------------------------------------------------------------------------------------
  // Precedence.
  // ---------------------------------------------------------------------------------------

  predicate IsComparison(op: Op) {
    op == LE || op == GE || op == NE || op == EQ || op == LT || op == GT || op == Like
  }

  /** The second operator binds its operands more tightly than the first. */
  predicate Tighter(o: Op, p: Op) {
    || (o == Or && p != Or)
    || (o == And && p != Or && p != And)
    || (IsComparison(o) && (p == Add || p == Sub || p == Mul || p == Div || p == Mod))
    || ((o == Add || o == Sub) && (p == Mul || p == Div || p == Mod))
  }

  lemma TighterIff(o: Op, p: Op)
    ensures Tighter(o, p) <==> LevelOf(o) < LevelOf(p)
    ensures IsComparison(o) <==> LevelOf(o) == CMP
  {
  }

  /**
   Two operators without parentheses: the tighter one goes first, and of two alike the left one; but a second
   comparison is not taken at all, and stays in the input.
   */
  lemma Precedence(x: Expr, o: Op, y: Expr, p: Op, z: Expr, style: Style)
    requires Printable(x, style) && Printable(y, style) && Printable(z, style) && !x.Bin? && !y.Bin? && !z.Bin?
    requires SpellsOp(style(Bin(o, x, y)), o) && SpellsOp(style(Bin(p, y, z)), p)
    requires style(Bin(o, x, Bin(p, y, z))) == style(Bin(o, x, y))
    requires style(Bin(p, Bin(o, x, y), z)) == style(Bin(p, y, z))
    ensures var rest := OpThen(style(Bin(p, y, z)), Print(z, ATOM, style));
            Parse(OR, Print(x, ATOM, style) + OpThen(style(Bin(o, x, y)), Print(y, ATOM, style) + rest))
            == if Tighter(o, p) then (Bin(o, x, Bin(p, y, z)), "")
               else if IsComparison(o) && IsComparison(p) then (Bin(o, x, y), rest)
               else (Bin(p, Bin(o, x, y), z), "")
  {
    TighterIff(o, p);
    TighterIff(p, o);
    if Tighter(o, p) {
      ParseOfPrint(Bin(o, x, Bin(p, y, z)), style);
      RightHeavy(x, o, y, p, z, style);
    } else if IsComparison(o) && IsComparison(p) {
      SecondComparison(x, o, y, p, Print(z, ATOM, style), style(Bin(o, x, y)), style(Bin(p, y, z)), style);
    } else {
      ParseOfPrint(Bin(p, Bin(o, x, y), z), style);
      LeftHeavy(x, o, y, p, z, style);
    }
  }

  lemma AtomPrint(e: Expr, level: nat, style: Style)
    requires !e.Bin? && level <= ATOM
    ensures Print(e, level, style) == Print(e, ATOM, style)
  {
  }

  lemma BinPrint(op: Op, l: Expr, r: Expr, level: nat, style: Style)
    requires level <= LevelOf(op)
    ensures var k, e := LevelOf(op), Bin(op, l, r);
            Print(e, level, style)
            == Print(l, if k == CMP then ADD else k, style) + OpThen(style(e), Print(r, k + 1, style))
  {
    var k, e := LevelOf(op), Bin(op, l, r);
    var left, right := Print(l, if k == CMP then ADD else k, style), Print(r, k + 1, style);
    BinText(style(e), left, right, "");
    assert right + "" == right && left + " " + style(e) + " " + right + "" == left + " " + style(e) + " " + right;
  }

  lemma RightHeavy(x: Expr, o: Op, y: Expr, p: Op, z: Expr, style: Style)
    requires LevelOf(o) < LevelOf(p) && !x.Bin? && !y.Bin? && !z.Bin?
    ensures Print(Bin(o, x, Bin(p, y, z)), OR, style)
         == Print(x, ATOM, style) + OpThen(style(Bin(o, x, Bin(p, y, z))),
                                           Print(y, ATOM, style) + OpThen(style(Bin(p, y, z)), Print(z, ATOM, style)))
  {
    BinPrint(o, x, Bin(p, y, z), OR, style);
    BinPrint(p, y, z, LevelOf(o) + 1, style);
    AtomPrint(x, if LevelOf(o) == CMP then ADD else LevelOf(o), style);
    AtomPrint(y, if LevelOf(p) == CMP then ADD else LevelOf(p), style);
    AtomPrint(z, LevelOf(p) + 1, style);
  }

  lemma LeftHeavy(x: Expr, o: Op, y: Expr, p: Op, z: Expr, style: Style)
    requires LevelOf(o) >= LevelOf(p) && (LevelOf(p) == CMP ==> LevelOf(o) != CMP) && !x.Bin? && !y.Bin? && !z.Bin?
    ensures Print(Bin(p, Bin(o, x, y), z), OR, style)
         == Print(x, ATOM, style) + OpThen(style(Bin(o, x, y)),
              Print(y, ATOM, style) + OpThen(style(Bin(p, Bin(o, x, y), z)), Print(z, ATOM, style)))
  {
    var v := style(Bin(p, Bin(o, x, y), z));
    BinPrint(p, Bin(o, x, y), z, OR, style);
    BinPrint(o, x, y, if LevelOf(p) == CMP then ADD else LevelOf(p), style);
    AtomPrint(x, if LevelOf(o) == CMP then ADD else LevelOf(o), style);
    AtomPrint(y, LevelOf(o) + 1, style);
    AtomPrint(z, LevelOf(p) + 1, style);
    OpThenJoin(Print(x, ATOM, style), style(Bin(o, x, y)), Print(y, ATOM, style), OpThen(v, Print(z, ATOM, style)));
  }

  lemma OpThenJoin(a: string, w: string, b: string, c: string)
    ensures a + OpThen(w, b) + c == a + OpThen(w, b + c)
  {
  }

  lemma SecondComparison(x: Expr, o: Op, y: Expr, p: Op, c: string, w: string, v: string, style: Style)
    requires Printable(x, style) && Printable(y, style) && !x.Bin? && !y.Bin?
    requires LevelOf(o) == LevelOf(p) == CMP && SpellsOp(w, o) && SpellsOp(v, p)
    ensures Parse(OR, Print(x, ATOM, style) + OpThen(w, Print(y, ATOM, style) + OpThen(v, c)))
         == (Bin(o, x, y), OpThen(v, c))
  {
    var rest := OpThen(v, c);
    var t := Print(x, ATOM, style) + OpThen(w, Print(y, ATOM, style) + rest);
    OperandBefore(y, v, p, c, style);
    OperandBefore(x, w, o, Print(y, ATOM, style) + rest, style);
    MoreTakes(w, o, CMP, x, y, Print(y, ATOM, style) + rest, rest);
    assert Parse(CMP, t) == (Bin(o, x, y), rest);
    OpFirst(v, p);
    OpSolid(v, p, c);
    LooserMiss(AND, v, p, c);
    LooserMiss(OR, v, p, c);
    assert Parse(AND, t) == (Bin(o, x, y), rest);
  }

  lemma OperandBefore(e: Expr, w: string, op: Op, x: string, style: Style)
    requires Printable(e, style) && !e.Bin? && LevelOf(op) == CMP && SpellsOp(w, op)
    ensures Parse(ADD, Print(e, ATOM, style) + OpThen(w, x)) == (e, OpThen(w, x))
  {
    FollowsOp(w, op, x, ADD);
    FollowsMore(OpThen(w, x), ADD, MUL);
    ParsePrint(e, ADD, OpThen(w, x), style);
    AtomPrint(e, ADD, style);
    AfterNothing(ADD, e, OpThen(w, x));
  }

  lemma LooserMiss(level: nat, w: string, op: Op, s: string)
    requires level < LevelOf(op) && SpellsOp(w, op)
    ensures Operator(level, OpThen(w, s)) == None
  {
    var t := w + (" " + s);
    OpFirst(w, op);
    OpSolid(w, op, s);
    TableFirst(level);
    assert t[0] == w[0];
    forall i | 0 <= i < |Table(level)| ensures Keyword(OpThen(w, s), Table(level)[i].0) == None {
      KeywordBlank(t, Table(level)[i].0);
      KeywordMiss(t, Table(level)[i].0);
    }
    FirstOfMiss(Table(level), OpThen(w, s));
  }

  // ---------------------------------------------------------------------------------------
  // Names.
  // ---------------------------------------------------------------------------------------

  /** A name that is the whole of an expression is made of name characters of the input. */
  lemma {:induction false} NameWithin(level: nat, s: string)
    requires level <= ATOM
    ensures Parse(level, s).0.Ident? ==>
              |Parse(level, s).0.name| <= |s| && SpanSym(Parse(level, s).0.name) == |Parse(level, s).0.name|
    decreases |s|, ATOM - level
  {
    if level < ATOM {
      NameWithin(level + 1, s);
      NoNameFromMore(level, Parse(level + 1, s).0, Parse(level + 1, s).1);
    } else {
      var not, open := Keyword(s, "not"), Keyword(s, "(");
      if not.None? && open.Some? {
        NameWithin(OR, open.value);
      } else if not.None? {
        NameFromToken(Skip(s));
      }
    }
  }

  lemma {:induction false} NoNameFromMore(level: nat, left: Expr, s: string)
    requires level < ATOM
    ensures More(level, left, s).0.Ident? ==> More(level, left, s).0 == left
    decreases |s|
  {
    var o := Operator(level, s);
    if o.Some? {
      var (right, rest) := Parse(level + 1, o.value.1);
      if level != CMP {
        NoNameFromMore(level, Bin(o.value.0, left, right), rest);
      }
    }
  }

  lemma NameFromToken(t: string)
    ensures ParseToken(t).0.Ident? ==>
              |ParseToken(t).0.name| <= |t| && SpanSym(ParseToken(t).0.name) == |ParseToken(t).0.name|
  {
    var n := SpanSym(t);
    SpanSymOf(t[..n], "");
    assert t[..n] + "" == t[..n];
  }

  /**
   A text reads as a name, all of it, if and only if it consists of letters, digits, '_' and '@', and begins
   neither with a digit nor with the word "not" in any spelling.
   */
  lemma NameComesBackIff(name: string)
    ensures ParseAtom(name) == (Ident(name), "")
       <==> && name != ""
            && (forall i :: 0 <= i < |name| ==> var c := name[i];
                  'a' <= c <= 'z' || 'A' <= c <= 'Z' || '0' <= c <= '9' || c == '_' || c == '@')
            && !('0' <= name[0] <= '9') && !(|name| >= 3 && Spells(name[..3], "not"))
  {
    assert name + "" == name;
    if GoodName(name) {
      IdentBack(name, "");
    } else if name == "" {
    } else if forall i :: 0 <= i < |name| ==> IsSym(name[i]) {
      BadName(name);
    } else {
      NameWithin(ATOM, name);
      assert Parse(ATOM, name) == ParseAtom(name);
    }
  }

  lemma BadName(name: string)
    requires name != "" && (forall i :: 0 <= i < |name| ==> IsSym(name[i])) && !GoodName(name)
    ensures ParseAtom(name) != (Ident(name), "")
  {
    assert Solid(name) by { assert IsSym(name[0]); }
    SkipSolid(name);
    StartsNot(name, "not");
    if !StartsWith(name, "not") {
      assert IsDigit(name[0]);
      KeywordMiss(name, "(");
      assert SpanDigits(name) > 0;
    }
  }

  /** A name that begins with "not", and one that begins with a digit. */
  lemma NamesDoNotComeBack(a: string, b: string)
    requires a == "notes" && b == "2nd"
    ensures ParseAtom(a) != (Ident(a), "") && ParseAtom(b) != (Ident(b), "")
  {
    NameComesBackIff(a);
    NameComesBackIff(b);
    assert Spells(a[..3], "not") && '0' <= b[0] <= '9';
  }

  /** The parser itself, on the printed form of an expression, gives the expression and uses up the input. */
  method Reparse(e: Expr, style: Style) returns (back: Expr, left: nat)
    requires Printable(e, style)
    ensures back == e && left == 0
  {
    ParseOfPrint(e, style);
    var p := new SqlParser.Parser(Print(e, OR, style));
    back := p.Expression(OR);
    left := |p.input| - p.pos;
  }
}
