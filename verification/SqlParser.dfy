/**
 The expression parser as parser.go runs it: a cursor that each function advances or restores.
 Every method terminates on every input, never moves the cursor back or past the end, and
 computes what the grammar functions say.
 */
module SqlParser {
  import opened Basics
  import opened SqlGrammar

  lemma SpanStep(s: string, pos: nat)
    requires pos < |s|
    ensures s[pos..][1..] == s[pos + 1..] && s[pos..][0] == s[pos]
  {
  }

  /** After skipping there is no blank in front. */
  lemma {:induction false} SkipNoSpace(s: string)
    ensures SpanSpace(Skip(s)) == 0
    decreases |s|
  {
    var t := s[SpanSpace(s)..];
    if |t| >= 2 && t[0] == '-' && t[1] == '-' {
      assert SpanLine(t) >= 1;
      SkipNoSpace(t[SpanLine(t)..]);
    }
  }

  lemma {:induction false} SkipTwice(s: string)
    ensures Skip(Skip(s)) == Skip(s)
    decreases |s|
  {
    SkipNoSpace(s);
    var t := s[SpanSpace(s)..];
    if |t| >= 2 && t[0] == '-' && t[1] == '-' {
      assert SpanLine(t) >= 1;
      SkipTwice(t[SpanLine(t)..]);
    }
  }

  predicate Comment(t: string) {
    |t| >= 2 && t[0] == '-' && t[1] == '-'
  }

  lemma SkipFromBlank(s: string)
    ensures SpanSpace(s[SpanSpace(s)..]) == 0 && Skip(s[SpanSpace(s)..]) == Skip(s)
  {
    var t := s[SpanSpace(s)..];
    assert t[0..] == t;
  }

  lemma SkipComment(t: string)
    requires SpanSpace(t) == 0
    ensures !Comment(t) ==> Skip(t) == t
    ensures Comment(t) ==> SpanLine(t) >= 1 && Skip(t) == Skip(t[SpanLine(t)..])
  {
    assert t[0..] == t;
  }

  /** What a string loop still has to add. */
  function Prepend(out: string, q: Option<(string, string)>): Option<(string, string)> {
    if q.None? then None else Some((out + q.value.0, q.value.1))
  }

  lemma PrependNothing(q: Option<(string, string)>)
    ensures Prepend("", q) == q
  {
    if q.Some? {
      assert "" + q.value.0 == q.value.0;
    }
  }

  lemma QuotedStep(s: string, quote: char, out: string)
    requires s != "" && s[0] != quote
    ensures var k := if s[0] == '\\' && |s| > 1 then 1 else 0;
            Prepend(out, Quoted(s, quote)) == Prepend(out + [s[k]], Quoted(s[k + 1..], quote))
  {
    var k := if s[0] == '\\' && |s| > 1 then 1 else 0;
    var q := Quoted(s[k + 1..], quote);
    if q.Some? {
      assert out + ([s[k]] + q.value.0) == out + [s[k]] + q.value.0;
    }
  }

  /** The string loop at `pos` has collected `out` of `all`. */
  ghost predicate Quoting(input: string, pos: nat, quote: char, out: string, all: Option<(string, string)>) {
    pos <= |input| && Prepend(out, Quoted(input[pos..], quote)) == all
  }

  lemma QuotingStep(input: string, pos: nat, quote: char, out: string, all: Option<(string, string)>)
    requires Quoting(input, pos, quote, out, all) && pos < |input| && input[pos] != quote
    ensures var at := if input[pos] == '\\' && pos + 1 < |input| then pos + 1 else pos;
            Quoting(input, at + 1, quote, out + [input[at]], all)
  {
    var s := input[pos..];
    QuotedStep(s, quote, out);
    assert s[1..] == input[pos + 1..];
    assert |s| > 1 ==> s[2..] == input[pos + 2..];
  }

  lemma QuotingEnd(input: string, pos: nat, quote: char, out: string, all: Option<(string, string)>)
    requires Quoting(input, pos, quote, out, all)
    ensures pos == |input| ==> all == None
    ensures pos < |input| && input[pos] == quote ==> all == Some((out, input[pos + 1..]))
  {
    assert out + "" == out;
  }

  lemma FirstOfFrom(table: seq<(string, Op)>, i: nat, s: string)
    requires i < |table| && forall j :: 0 <= j < |table| ==> table[j].0 != ""
    ensures FirstOf(table[i..], s) == (var k := Keyword(s, table[i].0);
                                       if k.Some? then Some((table[i].1, k.value)) else FirstOf(table[i + 1..], s))
  {
    assert table[i..][1..] == table[i + 1..] && table[i..][0] == table[i];
  }

  lemma ParseStep(level: nat, s: string, left: Expr, rest: string)
    requires level < ATOM && Parse(level + 1, s) == (left, rest)
    ensures Parse(level, s) == More(level, left, rest)
  {
  }

  lemma MoreStep(level: nat, left: Expr, s: string, op: Op, mid: string, right: Expr, rest: string)
    requires level < ATOM && Operator(level, s) == Some((op, mid)) && Parse(level + 1, mid) == (right, rest)
    ensures More(level, left, s)
            == if level == CMP then (Bin(op, left, right), rest) else More(level, Bin(op, left, right), rest)
  {
  }

  lemma MoreStop(level: nat, left: Expr, s: string)
    requires level < ATOM && Operator(level, s) == None
    ensures More(level, left, s) == (left, s)
  {
  }

  lemma ArgsFront(args: seq<Expr>, s: string)
    requires args == []
    ensures ParseArgs(s) == (args + ParseArgs(s).0, ParseArgs(s).1)
  {
    assert [] + ParseArgs(s).0 == ParseArgs(s).0;
  }

  lemma ArgsStep(args: seq<Expr>, t: string, e: Expr, u: string)
    requires Parse(OR, t) == (e, u)
    ensures var comma := Keyword(u, ",");
            (args + ParseArgs(t).0, ParseArgs(t).1)
            == if comma.None? then (args + [e], u)
               else (args + [e] + ParseArgs(comma.value).0, ParseArgs(comma.value).1)
  {
    var comma := Keyword(u, ",");
    if comma.Some? {
      assert args + ([e] + ParseArgs(comma.value).0) == args + [e] + ParseArgs(comma.value).0;
    }
  }

  ghost function AfterBlanks(s: string): string {
    s[SpanSpace(s)..]
  }

  lemma NoBlank(s: string)
    requires s == "" || !IsSpace(s[0])
    ensures AfterBlanks(s) == s
  {
  }

  lemma BlankStep(input: string, pos: nat, t: string)
    requires pos < |input| && t == input[pos..] && IsSpace(input[pos])
    ensures AfterBlanks(t) == AfterBlanks(input[pos + 1..])
  {
    var u := input[pos + 1..];
    assert t[1..] == u;
    assert SpanSpace(t) == 1 + SpanSpace(u);
    assert t[1 + SpanSpace(u)..] == t[1..][SpanSpace(u)..];
  }

  class Parser {
    const input: string
    var pos: nat

    ghost predicate Valid()
      reads this
    {
      pos <= |input|
    }

    ghost function Rest(): string
      requires Valid()
      reads this
    {
      input[pos..]
    }

    constructor (s: string)
      ensures Valid() && Rest() == s
    {
      input, pos := s, 0;
    }

    method SkipWS()
      requires Valid()
      modifies this
      ensures Valid() && old(pos) <= pos
      ensures Rest() == old(Rest())[SpanSpace(old(Rest()))..]
    {
      var start := pos;
      while pos < |input| && IsSpace(input[pos])
        invariant start <= pos <= |input| && AfterBlanks(input[pos..]) == AfterBlanks(input[start..])
        decreases |input| - pos
      {
        BlankStep(input, pos, input[pos..]);
        pos := pos + 1;
      }
      NoBlank(input[pos..]);
    }

    method SkipLine()
      requires Valid()
      modifies this
      ensures Valid() && old(pos) <= pos
      ensures Rest() == old(Rest())[SpanLine(old(Rest()))..]
    {
      ghost var s := Rest();
      while pos < |input| && input[pos] != '\n'
        invariant Valid() && old(pos) <= pos
        invariant Rest()[SpanLine(Rest())..] == s[SpanLine(s)..]
        decreases |input| - pos
      {
        SpanStep(input, pos);
        ghost var t := Rest();
        assert t[SpanLine(t)..] == t[1..][SpanLine(t[1..])..];
        pos := pos + 1;
      }
    }

    method SkipComments()
      requires Valid()
      modifies this
      ensures Valid() && old(pos) <= pos && Rest() == Skip(old(Rest()))
    {
      ghost var s := Rest();
      SkipFromBlank(s);
      SkipWS();
      SkipComment(Rest());
      while pos + 1 < |input| && input[pos] == '-' && input[pos + 1] == '-'
        invariant Valid() && old(pos) <= pos
        invariant SpanSpace(Rest()) == 0 && Skip(Rest()) == Skip(s)
        decreases |input| - pos
      {
        SkipComment(Rest());
        SkipLine();
        SkipFromBlank(Rest());
        SkipWS();
      }
      SkipComment(Rest());
    }

    /** pKeyword with one keyword; a failed match restores the cursor. */
    method Accept(kw: string) returns (ok: bool)
      requires Valid() && kw != ""
      modifies this
      ensures Valid() && old(pos) <= pos
      ensures ok <==> Keyword(old(Rest()), kw).Some?
      ensures if ok then Keyword(old(Rest()), kw) == Some(Rest()) else pos == old(pos)
    {
      var saved := pos;
      SkipComments();
      SkipNoSpace(old(Rest()));
      SkipWS();
      ok := Match(kw);
      if !ok {
        pos := saved;
      }
    }

    /** The loop of pKeyword. */
    method Match(kw: string) returns (ok: bool)
      requires Valid()
      modifies this
      ensures Valid() && (ok <==> StartsWith(old(Rest()), kw))
      ensures ok ==> Rest() == old(Rest())[|kw|..] && pos == old(pos) + |kw|
    {
      ghost var t := Rest();
      var i := 0;
      while i < |kw|
        invariant i <= |kw| && Valid() && pos == old(pos) + i
        invariant forall j :: 0 <= j < i ==> Lower(t[j]) == kw[j]
      {
        assert pos < |input| ==> input[pos] == t[i];
        if pos >= |input| || Lower(input[pos]) != kw[i] {
          return false;
        }
        pos := pos + 1;
        i := i + 1;
      }
      return true;
    }

    method PassSym()
      requires Valid()
      modifies this
      ensures Valid() && pos == old(pos) + SpanSym(old(Rest()))
    {
      ghost var t := Rest();
      while pos < |input| && IsSym(input[pos])
        invariant old(pos) <= pos && Valid() && SpanSym(t) == pos - old(pos) + SpanSym(Rest())
        decreases |input| - pos
      {
        SpanStep(input, pos);
        pos := pos + 1;
      }
    }

    method PassDigits()
      requires Valid()
      modifies this
      ensures Valid() && pos == old(pos) + SpanDigits(old(Rest()))
    {
      ghost var t := Rest();
      while pos < |input| && IsDigit(input[pos])
        invariant old(pos) <= pos && Valid() && SpanDigits(t) == pos - old(pos) + SpanDigits(Rest())
        decreases |input| - pos
      {
        SpanStep(input, pos);
        pos := pos + 1;
      }
    }

    /** pMustSym: the longest run of name characters, possibly empty. */
    method Symbol() returns (name: string)
      requires Valid()
      modifies this
      ensures Valid() && old(pos) <= pos
      ensures var t := Skip(old(Rest())); name == t[..SpanSym(t)] && Rest() == t[SpanSym(t)..]
    {
      SkipComments();
      var start := pos;
      PassSym();
      name := input[start..pos];
    }

    /** pNum; without a number the cursor stays behind the blanks. */
    method Num() returns (r: Option<int>)
      requires Valid()
      modifies this
      ensures Valid() && old(pos) <= pos
      ensures var t := Skip(old(Rest()));
              var n := Number(t);
              if n.Some? then r == Some(n.value.0) && Rest() == n.value.1 else r == None && Rest() == t
    {
      SkipComments();
      r := SignedNum();
    }

    method SignedNum() returns (r: Option<int>)
      requires Valid()
      modifies this
      ensures Valid() && old(pos) <= pos
      ensures var n := Number(old(Rest()));
              if n.Some? then r == Some(n.value.0) && Rest() == n.value.1 else r == None && pos == old(pos)
    {
      var start := pos;
      var neg := PassMinus();
      var v := Digits();
      if v.None? {
        pos := start;
        return None;
      }
      var m: int := v.value;
      r := Some(Clamp(if neg then -m else m));
    }

    method PassMinus() returns (neg: bool)
      requires Valid()
      modifies this
      ensures Valid() && old(pos) <= pos && (neg <==> old(Rest()) != "" && old(Rest())[0] == '-')
      ensures Rest() == if neg then old(Rest())[1..] else old(Rest())
    {
      neg := pos < |input| && input[pos] == '-';
      if neg {
        SpanStep(input, pos);
        pos := pos + 1;
      }
    }

    method Digits() returns (v: Option<nat>)
      requires Valid()
      modifies this
      ensures Valid() && old(pos) <= pos
      ensures var u := old(Rest());
              var n := SpanDigits(u);
              if n == 0 then v == None && pos == old(pos) else v == Some(DigitsValue(u[..n])) && Rest() == u[n..]
    {
      var first := pos;
      PassDigits();
      if pos == first {
        return None;
      }
      assert input[first..pos] == old(Rest())[..pos - first];
      v := Some(DigitsValue(input[first..pos]));
    }

    /** pStr; an unterminated string leaves the cursor at the end. */
    method QuotedString() returns (r: Option<string>)
      requires Valid()
      modifies this
      ensures Valid() && old(pos) <= pos
      ensures var t := Skip(old(Rest()));
              if t != "" && (t[0] == '\'' || t[0] == '"') then
                var q := Quoted(t[1..], t[0]);
                if q.Some? then r == Some(q.value.0) && Rest() == q.value.1 else r == None && Rest() == ""
              else r == None && Rest() == t
    {
      SkipComments();
      var quote := PassQuote();
      if quote.None? {
        return None;
      }
      r := Characters(quote.value);
    }

    method PassQuote() returns (quote: Option<char>)
      requires Valid()
      modifies this
      ensures Valid() && old(pos) <= pos
      ensures var t := old(Rest());
              if t != "" && (t[0] == '\'' || t[0] == '"') then quote == Some(t[0]) && Rest() == t[1..]
              else quote == None && Rest() == t
    {
      if pos >= |input| || (input[pos] != '\'' && input[pos] != '"') {
        return None;
      }
      SpanStep(input, pos);
      quote := Some(input[pos]);
      pos := pos + 1;
    }

    /** The loop of pStr. */
    method Characters(quote: char) returns (r: Option<string>)
      requires Valid()
      modifies this
      ensures Valid() && old(pos) <= pos
      ensures var q := Quoted(old(Rest()), quote);
              if q.Some? then r == Some(q.value.0) && Rest() == q.value.1 else r == None && Rest() == ""
    {
      ghost var all := Quoted(Rest(), quote);
      var out := "";
      PrependNothing(all);
      while pos < |input| && input[pos] != quote
        invariant old(pos) <= pos && Quoting(input, pos, quote, out, all)
        decreases |input| - pos
      {
        QuotingStep(input, pos, quote, out, all);
        if input[pos] == '\\' && pos + 1 < |input| {
          pos := pos + 1;
        }
        out := out + [input[pos]];
        pos := pos + 1;
      }
      QuotingEnd(input, pos, quote, out, all);
      if pos >= |input| {
        return None;
      }
      pos := pos + 1;
      return Some(out);
    }

    /** The keyword cases of one level, tried in order. */
    method TryOperator(level: nat) returns (o: Option<Op>)
      requires Valid() && level < ATOM
      modifies this
      ensures Valid() && old(pos) <= pos
      ensures var r := Operator(level, old(Rest()));
              if r.Some? then o == Some(r.value.0) && Rest() == r.value.1 else o == None && pos == old(pos)
    {
      o := TryTable(Table(level));
    }

    method TryTable(table: seq<(string, Op)>) returns (o: Option<Op>)
      requires Valid() && forall i :: 0 <= i < |table| ==> table[i].0 != ""
      modifies this
      ensures Valid() && old(pos) <= pos
      ensures var r := FirstOf(table, old(Rest()));
              if r.Some? then o == Some(r.value.0) && Rest() == r.value.1 else o == None && pos == old(pos)
    {
      var i := 0;
      assert table[0..] == table;
      while i < |table|
        invariant i <= |table| && pos == old(pos)
        invariant FirstOf(table[i..], Rest()) == FirstOf(table, old(Rest()))
      {
        FirstOfFrom(table, i, Rest());
        var ok := Accept(table[i].0);
        if ok {
          return Some(table[i].1);
        }
        i := i + 1;
      }
      return None;
    }

    /** pExpect, whose error the expression parser drops. */
    method Pass(kw: string)
      requires Valid() && kw != ""
      modifies this
      ensures Valid() && old(pos) <= pos && Rest() == Expect(old(Rest()), kw)
    {
      var ok := Accept(kw);
    }

    /**
     pExprOr, pExprAnd, pExprCmp, pExprAdd and pExprMul: an operand of the next level, then as long as
     one of the level's operators follows, another; a comparison takes at most one.
     */
    method Expression(level: nat) returns (e: Expr)
      requires Valid() && level <= ATOM
      modifies this
      ensures Valid() && old(pos) <= pos && (e, Rest()) == Parse(level, old(Rest()))
      decreases |input| - pos, ATOM - level + 3
    {
      if level == ATOM {
        e := Atom();
        return;
      }
      ghost var s := Rest();
      e := Expression(level + 1);
      ParseStep(level, s, e, Rest());
      e := Operators(level, e);
    }

    method Operators(level: nat, first: Expr) returns (e: Expr)
      requires Valid() && level < ATOM
      modifies this
      ensures Valid() && old(pos) <= pos && (e, Rest()) == More(level, first, old(Rest()))
      decreases |input| - pos, 2
    {
      e := first;
      ghost var all := More(level, first, Rest());
      var go := true;
      while go
        invariant Valid() && old(pos) <= pos
        invariant if go then More(level, e, Rest()) == all else (e, Rest()) == all
        decreases |input| - pos, go
      {
        go, e := OneMore(level, e);
      }
    }

    /** One operator of the level with its right operand, if one follows. */
    method OneMore(level: nat, left: Expr) returns (go: bool, e: Expr)
      requires Valid() && level < ATOM
      modifies this
      ensures Valid() && old(pos) <= pos && (go ==> old(pos) < pos)
      ensures More(level, left, old(Rest())) == if go then More(level, e, Rest()) else (e, Rest())
      decreases |input| - pos, 1
    {
      ghost var s := Rest();
      var o := TryOperator(level);
      if o.None? {
        MoreStop(level, left, s);
        return false, left;
      }
      go, e := RightOperand(level, left, o.value, s);
    }

    method RightOperand(level: nat, left: Expr, op: Op, ghost s: string) returns (go: bool, e: Expr)
      requires Valid() && level < ATOM && Operator(level, s) == Some((op, Rest()))
      modifies this
      ensures Valid() && old(pos) <= pos
      ensures More(level, left, s) == if go then More(level, e, Rest()) else (e, Rest())
      decreases |input| - pos, 20
    {
      ghost var mid := Rest();
      var right := Expression(level + 1);
      MoreStep(level, left, s, op, mid, right, Rest());
      return level != CMP, Bin(op, left, right);
    }

    method Atom() returns (e: Expr)
      requires Valid()
      modifies this
      ensures Valid() && old(pos) <= pos && (e, Rest()) == ParseAtom(old(Rest()))
      decreases |input| - pos, 2
    {
      var not := Accept("not");
      if not {
        var arg := Atom();
        e := Not(arg);
        return;
      }
      var open := Accept("(");
      if open {
        e := Expression(OR);
        Pass(")");
        return;
      }
      e := Token();
    }

    method Token() returns (e: Expr)
      requires Valid()
      modifies this
      ensures Valid() && old(pos) <= pos && (e, Rest()) == ParseToken(Skip(old(Rest())))
      decreases |input| - pos, 1
    {
      SkipTwice(Rest());
      var num := Num();
      if num.Some? {
        return Int(num.value);
      }
      var str := QuotedString();
      if str.Some? {
        return Str(str.value);
      }
      e := NameOrCall();
    }

    method NameOrCall() returns (e: Expr)
      requires Valid()
      modifies this
      ensures Valid() && old(pos) <= pos
      ensures var t := Skip(old(Rest()));
              var n := SpanSym(t);
              (e, Rest()) == if n == 0 then (Unknown, t) else ParseNamed(t[..n], t[n..])
      decreases |input| - pos, 0
    {
      var name := Symbol();
      if name == "" {
        return Unknown;
      }
      var call := Accept("(");
      if !call {
        return Ident(name);
      }
      var args := [];
      var close := Accept(")");
      if !close {
        args := Arguments();
        Pass(")");
      }
      e := Func(LowerAll(name), args);
    }

    method Arguments() returns (args: seq<Expr>)
      requires Valid()
      modifies this
      ensures Valid() && old(pos) <= pos && (args, Rest()) == ParseArgs(old(Rest()))
      decreases |input| - pos, 12
    {
      ghost var s := Rest();
      args := [];
      ArgsFront([], s);
      while true
        invariant Valid() && old(pos) <= pos
        invariant ParseArgs(s) == (args + ParseArgs(Rest()).0, ParseArgs(Rest()).1)
        decreases |input| - pos
      {
        ghost var t := Rest();
        var e := Expression(OR);
        ghost var u := Rest();
        var comma := Accept(",");
        ArgsStep(args, t, e, u);
        args := args + [e];
        if !comma {
          return;
        }
      }
    }
  }
}
