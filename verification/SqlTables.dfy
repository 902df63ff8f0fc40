/**
 CREATE TABLE: the column list with its primary key clauses. The parser's nested loops end on
 every input and compute the grammar functions, and a printed statement is read as itself.
 */
module SqlTables {
  import opened Basics
  import opened SqlGrammar
  import opened SqlPrint
  import opened SqlRoundTrip
  import opened SqlParser

  datatype ColType = Untyped | IntCol | TextCol | BoolCol | FloatCol

  datatype Column = Column(name: string, typ: ColType)

  datatype TableDef = TableDef(name: string, cols: seq<Column>, keys: seq<string>)

  /** What one pass over the list collects, and the input left. */
  datatype Items = Items(cols: seq<Column>, keys: seq<string>, rest: string)

  // ---------------------------------------------------------------------------------------
  // The grammar.
  // ---------------------------------------------------------------------------------------

  /** pKeyword with two keywords; between them only blanks are skipped. */
  function Keyword2(s: string, a: string, b: string): (r: Option<string>)
    requires a != ""
    ensures r.Some? ==> |r.value| < |s|
  {
    var t := Skip(s);
    if !StartsWith(t, a) then None
    else
      var u := t[|a|..];
      var v := u[SpanSpace(u)..];
      if StartsWith(v, b) then Some(v[|b|..]) else None
  }

  function Sym(s: string): (r: (string, string))
    ensures |r.1| <= |s|
  {
    var t := Skip(s);
    (t[..SpanSym(t)], t[SpanSym(t)..])
  }

  /** The type names in the order in which they are tried. */
  function TypeTable(): (t: seq<(string, ColType)>)
    ensures Named(t) && |t| == 8
  {
    [("int64", IntCol), ("int", IntCol), ("bytes", TextCol), ("text", TextCol), ("string", TextCol),
     ("bool", BoolCol), ("float64", FloatCol), ("float", FloatCol)]
  }

  predicate Named(table: seq<(string, ColType)>) {
    forall i :: 0 <= i < |table| ==> table[i].0 != ""
  }

  function FirstType(table: seq<(string, ColType)>, s: string): (r: (ColType, string))
    requires Named(table)
    ensures |r.1| <= |s|
  {
    if table == [] then (Untyped, s)
    else
      var k := Keyword(s, table[0].0);
      if k.Some? then (table[0].1, k.value) else FirstType(table[1..], s)
  }

  /** pType. */
  function TypeAt(s: string): (r: (ColType, string))
    ensures |r.1| <= |s|
  {
    FirstType(TypeTable(), s)
  }

  /** Names separated by commas. */
  function Names(s: string): (r: (seq<string>, string))
    ensures |r.1| <= |s|
    decreases |s|
  {
    var (name, t) := Sym(s);
    var comma := Keyword(t, ",");
    if comma.None? then ([name], t)
    else
      var (more, rest) := Names(comma.value);
      ([name] + more, rest)
  }

  /** One entry of the list: a primary key clause or a column. */
  function Item(s: string): (r: Items)
    ensures |r.rest| <= |s|
  {
    var pk := Keyword2(s, "primary", "key");
    if pk.Some? then
      var (keys, t) := Names(Expect(pk.value, "("));
      Items([], keys, Expect(t, ")"))
    else
      var (name, t) := Sym(s);
      var (typ, u) := TypeAt(t);
      Items([Column(name, typ)], [], u)
  }

  function AllItems(s: string): (r: Items)
    ensures |r.rest| <= |s|
    decreases |s|
  {
    var one := Item(s);
    var comma := Keyword(one.rest, ",");
    if comma.None? then one else Join(one, AllItems(comma.value))
  }

  function Join(a: Items, b: Items): Items {
    Items(a.cols + b.cols, a.keys + b.keys, b.rest)
  }

  /** pCreateTable. */
  function ParseTable(s: string): (TableDef, string) {
    var (name, t) := Sym(s);
    var open := Keyword(t, "(");
    if open.None? then (TableDef(name, [], []), t)
    else
      var items := AllItems(open.value);
      (TableDef(name, items.cols, items.keys), Expect(items.rest, ")"))
  }

  // ---------------------------------------------------------------------------------------
  // The parser.
  // ---------------------------------------------------------------------------------------

  /** pKeyword with two keywords; a failed match restores the cursor. */
  method Accept2(p: Parser, a: string, b: string) returns (ok: bool)
    requires p.Valid() && a != ""
    modifies p
    ensures p.Valid() && old(p.pos) <= p.pos
    ensures ok <==> Keyword2(old(p.Rest()), a, b).Some?
    ensures if ok then Keyword2(old(p.Rest()), a, b) == Some(p.Rest()) else p.pos == old(p.pos)
  {
    var saved := p.pos;
    p.SkipComments();
    SkipNoSpace(old(p.Rest()));
    p.SkipWS();
    ok := p.Match(a);
    if ok {
      p.SkipWS();
      ok := p.Match(b);
    }
    if !ok {
      p.pos := saved;
    }
  }

  method Type(p: Parser) returns (typ: ColType)
    requires p.Valid()
    modifies p
    ensures p.Valid() && old(p.pos) <= p.pos && (typ, p.Rest()) == TypeAt(old(p.Rest()))
  {
    typ := TryTypes(p, TypeTable());
  }

  method TryTypes(p: Parser, table: seq<(string, ColType)>) returns (typ: ColType)
    requires p.Valid() && Named(table)
    modifies p
    ensures p.Valid() && old(p.pos) <= p.pos && (typ, p.Rest()) == FirstType(table, old(p.Rest()))
  {
    ghost var all := FirstType(table, p.Rest());
    var i := 0;
    assert table[0..] == table;
    while i < |table|
      invariant i <= |table| && p.Valid() && p.pos == old(p.pos)
      invariant FirstType(table[i..], p.Rest()) == all
    {
      FirstTypeFrom(table, i, p.Rest());
      var ok := p.Accept(table[i].0);
      if ok {
        return table[i].1;
      }
      i := i + 1;
    }
    return Untyped;
  }

  lemma FirstTypeFrom(table: seq<(string, ColType)>, i: nat, s: string)
    requires i < |table| && Named(table)
    ensures FirstType(table[i..], s) == (var k := Keyword(s, table[i].0);
                                         if k.Some? then (table[i].1, k.value) else FirstType(table[i + 1..], s))
  {
    assert table[i..][1..] == table[i + 1..] && table[i..][0] == table[i];
  }

  /** What is collected before a list and the list that follows. */
  function Before(names: seq<string>, r: (seq<string>, string)): (seq<string>, string) {
    (names + r.0, r.1)
  }

  lemma NamesStep(names: seq<string>, s: string)
    ensures var (name, t) := Sym(s);
            var comma := Keyword(t, ",");
            Before(names, Names(s))
            == if comma.None? then (names + [name], t) else Before(names + [name], Names(comma.value))
  {
    var (name, t) := Sym(s);
    var comma := Keyword(t, ",");
    if comma.Some? {
      Assoc(names, [name], Names(comma.value).0);
    }
  }

  /** The inner loop: the names of a key. */
  method NameList(p: Parser) returns (names: seq<string>)
    requires p.Valid()
    modifies p
    ensures p.Valid() && old(p.pos) <= p.pos && (names, p.Rest()) == Names(old(p.Rest()))
  {
    ghost var all := Names(p.Rest());
    names := [];
    assert [] + all.0 == all.0;
    var go := true;
    while go
      invariant p.Valid() && old(p.pos) <= p.pos
      invariant if go then Before(names, Names(p.Rest())) == all else (names, p.Rest()) == all
      decreases |p.input| - p.pos, go
    {
      NamesStep(names, p.Rest());
      var name := p.Symbol();
      names := names + [name];
      go := p.Accept(",");
    }
  }

  method OneItem(p: Parser) returns (cols: seq<Column>, keys: seq<string>)
    requires p.Valid()
    modifies p
    ensures p.Valid() && old(p.pos) <= p.pos && Items(cols, keys, p.Rest()) == Item(old(p.Rest()))
  {
    var pk := Accept2(p, "primary", "key");
    if pk {
      p.Pass("(");
      keys := NameList(p);
      p.Pass(")");
      cols := [];
    } else {
      var name := p.Symbol();
      var typ := Type(p);
      cols, keys := [Column(name, typ)], [];
    }
  }

  lemma JoinAssoc(a: Items, b: Items, c: Items)
    ensures Join(Join(a, b), c) == Join(a, Join(b, c))
  {
    assert a.cols + b.cols + c.cols == a.cols + (b.cols + c.cols);
    assert a.keys + b.keys + c.keys == a.keys + (b.keys + c.keys);
  }

  lemma ItemsStep(done: Items, s: string)
    ensures var one := Item(s);
            var comma := Keyword(one.rest, ",");
            Join(done, AllItems(s))
            == if comma.None? then Join(done, one) else Join(Join(done, one), AllItems(comma.value))
  {
    var one := Item(s);
    var comma := Keyword(one.rest, ",");
    if comma.Some? {
      JoinAssoc(done, one, AllItems(comma.value));
    }
  }

  /** The outer loop: columns and key clauses in any order. */
  method ItemList(p: Parser) returns (cols: seq<Column>, keys: seq<string>)
    requires p.Valid()
    modifies p
    ensures p.Valid() && old(p.pos) <= p.pos && Items(cols, keys, p.Rest()) == AllItems(old(p.Rest()))
  {
    ghost var all := AllItems(p.Rest());
    cols, keys := [], [];
    assert [] + all.cols == all.cols && [] + all.keys == all.keys;
    var go := true;
    while go
      invariant p.Valid() && old(p.pos) <= p.pos
      invariant if go then Join(Items(cols, keys, ""), AllItems(p.Rest())) == all
                else Items(cols, keys, p.Rest()) == all
      decreases |p.input| - p.pos, go
    {
      ItemsStep(Items(cols, keys, ""), p.Rest());
      var c, k := OneItem(p);
      cols, keys := cols + c, keys + k;
      go := p.Accept(",");
    }
  }

  /** pCreateTable ends on every input, never moves the cursor back, and computes the grammar's statement. */
  method CreateTable(p: Parser) returns (t: TableDef)
    requires p.Valid()
    modifies p
    ensures p.Valid() && old(p.pos) <= p.pos && (t, p.Rest()) == ParseTable(old(p.Rest()))
  {
    var name := p.Symbol();
    var open := p.Accept("(");
    if !open {
      return TableDef(name, [], []);
    }
    var cols, keys := ItemList(p);
    p.Pass(")");
    t := TableDef(name, cols, keys);
  }

  // ---------------------------------------------------------------------------------------
  // Printing and reading back.
  // ---------------------------------------------------------------------------------------

  /** A name of the type, in any spelling. */
  predicate NamesType(w: string, typ: ColType) {
    match typ
    case Untyped => w == ""
    case IntCol => Spells(w, "int64") || Spells(w, "int")
    case TextCol => Spells(w, "bytes") || Spells(w, "text") || Spells(w, "string")
    case BoolCol => Spells(w, "bool")
    case FloatCol => Spells(w, "float64") || Spells(w, "float")
  }

  /** How the words are written: "primary", "key", and the type of each column. */
  datatype Wording = Wording(primary: string, key: string, typ: Column -> string)

  predicate Spelled(w: Wording) {
    Spells(w.primary, "primary") && Spells(w.key, "key")
  }

  function TypeSuffix(w: string): string {
    if w == "" then "" else " " + w
  }

  /** The names with commas between them, and then `rest`. */
  function PrintNames(names: seq<string>, rest: string): string
    requires names != []
  {
    if |names| == 1 then names[0] + rest else names[0] + ("," + (" " + PrintNames(names[1..], rest)))
  }

  /** The columns, then one key clause if there are keys, and then `rest`. */
  function PrintItems(cols: seq<Column>, keys: seq<string>, rest: string, w: Wording): string
    requires cols != [] || keys != []
  {
    if cols == [] then w.primary + (" " + (w.key + (" (" + PrintNames(keys, ")" + rest))))
    else
      var tail := if |cols| == 1 && keys == [] then rest else "," + (" " + PrintItems(cols[1..], keys, rest, w));
      cols[0].name + (TypeSuffix(w.typ(cols[0])) + tail)
  }

  function PrintTable(t: TableDef, w: Wording): string
    requires t.cols != [] || t.keys != []
  {
    t.name + (" (" + PrintItems(t.cols, t.keys, ")", w))
  }

  predicate IsWord(s: string) {
    s != "" && forall i :: 0 <= i < |s| ==> IsSym(s[i])
  }

  /** A column's name must not be taken for a key clause. */
  predicate GoodColumn(name: string) {
    IsWord(name) && !(|name| >= 10 && Spells(name[..10], "primarykey"))
  }

  predicate GoodTable(t: TableDef, w: Wording) {
    && IsWord(t.name) && (t.cols != [] || t.keys != []) && Spelled(w)
    && (forall i :: 0 <= i < |t.cols| ==> GoodColumn(t.cols[i].name) && NamesType(w.typ(t.cols[i]), t.cols[i].typ))
    && (forall i :: 0 <= i < |t.keys| ==> IsWord(t.keys[i]))
  }

  /** What ends a name or a type in the list. */
  predicate Stops(s: string) {
    s != "" && (s[0] == ',' || s[0] == ')')
  }

  lemma WordSolid(name: string, s: string)
    requires IsWord(name)
    ensures Solid(name + s) && (name + s)[0] == name[0]
  {
    assert (name + s)[0] == name[0] && IsSym(name[0]);
  }

  lemma SymBack(name: string, s: string)
    requires IsWord(name) && (s == "" || !IsSym(s[0]))
    ensures Sym(name + s) == (name, s)
  {
    WordSolid(name, s);
    SkipSolid(name + s);
    SpanSymOf(name, s);
  }

  predicate Closed(s: string) {
    s != "" && s[0] == ')'
  }

  lemma {:induction false} NamesBack(names: seq<string>, rest: string)
    requires names != [] && Closed(rest) && forall i :: 0 <= i < |names| ==> IsWord(names[i])
    ensures Names(PrintNames(names, rest)) == (names, rest)
  {
    if |names| == 1 {
      OneName(names[0], rest);
      FirstAndRest(names);
    } else {
      NamesBack(names[1..], rest);
      NamesThen(names[0], PrintNames(names[1..], rest), names[1..], rest);
      FirstAndRest(names);
    }
  }

  lemma OneName(name: string, rest: string)
    requires IsWord(name) && Closed(rest)
    ensures Names(name + rest) == ([name], rest)
  {
    SymBack(name, rest);
    KeywordMiss(rest, ",");
  }

  lemma NamesThen(name: string, tail: string, names: seq<string>, rest: string)
    requires IsWord(name) && Names(tail) == (names, rest)
    ensures Names(name + ("," + (" " + tail))) == ([name] + names, rest)
  {
    SymBack(name, "," + (" " + tail));
    NamesMore(name, names, name + ("," + (" " + tail)), tail, rest);
  }

  lemma NamesMore(name: string, more: seq<string>, text: string, tail: string, rest: string)
    requires Sym(text) == (name, "," + (" " + tail)) && Names(tail) == (more, rest)
    ensures Names(text) == ([name] + more, rest)
  {
    KeywordHit(",", " " + tail);
    SkipBlank(tail);
  }

  lemma KeywordMissAt(s: string, kw: string, i: nat)
    requires Solid(s) && i < |kw| && (i < |s| ==> Lower(s[i]) != kw[i])
    ensures Keyword(s, kw) == None
  {
    SkipSolid(s);
  }

  lemma {:induction false} TypesMiss(table: seq<(string, ColType)>, s: string, i: nat, j: nat)
    requires i <= j <= |table| && Named(table) && forall k :: i <= k < j ==> Keyword(s, table[k].0) == None
    ensures FirstType(table[i..], s) == FirstType(table[j..], s)
    decreases j - i
  {
    if i < j {
      FirstTypeFrom(table, i, s);
      TypesMiss(table, s, i + 1, j);
    }
  }

  lemma NoType(s: string)
    requires Stops(s)
    ensures TypeAt(s) == (Untyped, s)
  {
    var table := TypeTable();
    forall k | 0 <= k < |table| ensures Keyword(s, table[k].0) == None {
      KeywordMiss(s, table[k].0);
    }
    TypesMiss(table, s, 0, |table|);
    assert table[0..] == table;
  }

  /** The place in the table of the name that a word spells. */
  function IndexOf(w: string, typ: ColType): (j: nat)
    ensures j < 8
  {
    match typ
    case IntCol => if Spells(w, "int64") then 0 else 1
    case TextCol => if Spells(w, "bytes") then 2 else if Spells(w, "text") then 3 else 4
    case BoolCol => 5
    case _ => if Spells(w, "float64") then 6 else 7
  }

  lemma TypeWord(w: string, typ: ColType)
    requires typ != Untyped && NamesType(w, typ)
    ensures var (kw, t) := TypeTable()[IndexOf(w, typ)];
            t == typ && Spells(w, kw)
  {
  }

  lemma TypeNames(j: nat)
    requires j < 8
    ensures var kw := TypeTable()[j].0;
            |kw| >= 3 && Plain(kw) && IsWord(kw) && kw[0] != 'k'
  {
    assert j == 0 || j == 1 || j == 2 || j == 3 || j == 4 || j == 5 || j == 6 || j == 7;
  }

  /** No name in the table begins with one that is tried before it. */
  lemma EarlierName(j: nat, k: nat) returns (i: nat)
    requires k < j < 8
    ensures i < |TypeTable()[k].0| && (i < |TypeTable()[j].0| ==> TypeTable()[j].0[i] != TypeTable()[k].0[i])
  {
    i := if j == 1 && k == 0 then 3 else if j == 7 && k == 6 then 5 else if j == 5 && k == 2 then 1 else 0;
    assert j == 1 || j == 2 || j == 3 || j == 4 || j == 5 || j == 6 || j == 7;
    assert k == 0 || k == 1 || k == 2 || k == 3 || k == 4 || k == 5 || k == 6;
  }

  lemma SpelledWord(w: string, kw: string, s: string)
    requires IsWord(kw) && Plain(kw) && Spells(w, kw)
    ensures IsWord(w) && Lower(w[0]) == kw[0] && Solid(w + s)
    ensures forall i :: 0 <= i < |w| ==> (w + s)[i] == w[i] && Lower(w[i]) == kw[i]
  {
    SpellsLower(w, kw);
    WordSolid(w, s);
  }

  /** The name of a type is not taken for one that is tried before it. */
  lemma EarlierType(w: string, j: nat, k: nat, s: string)
    requires k < j < 8 && Spells(w, TypeTable()[j].0) && (s == "" || !IsSym(s[0]))
    ensures Keyword(w + s, TypeTable()[k].0) == None
  {
    var i := EarlierName(j, k);
    TypeNames(j);
    TypeNames(k);
    SpelledWord(w, TypeTable()[j].0, s);
    if i >= |w| {
      assert IsSym(TypeTable()[k].0[|w|]);
      assert s != "" ==> (w + s)[|w|] == s[0];
      KeywordMissAt(w + s, TypeTable()[k].0, |w|);
    } else {
      KeywordMissAt(w + s, TypeTable()[k].0, i);
    }
  }

  /** Each of the eight names, in any spelling and before anything that ends it, is read as its type. */
  lemma SomeType(w: string, typ: ColType, s: string)
    requires typ != Untyped && NamesType(w, typ) && (s == "" || !IsSym(s[0]))
    ensures TypeAt(w + s) == (typ, s)
  {
    var table, j, t := TypeTable(), IndexOf(w, typ), w + s;
    TypeWord(w, typ);
    TypeNames(j);
    forall k | 0 <= k < j ensures Keyword(t, table[k].0) == None {
      EarlierType(w, j, k, s);
    }
    TypesMiss(table, t, 0, j);
    assert table[0..] == table;
    FirstTypeFrom(table, j, t);
    SpelledWord(w, table[j].0, s);
    KeywordIff(w, table[j].0, s);
  }

  /** The types by name: two names for integers, three for text, one for booleans, two for floats. */
  lemma TypeWords(w: string, s: string)
    requires s == "" || !IsSym(s[0])
    ensures Spells(w, "int64") || Spells(w, "int") ==> TypeAt(w + s) == (IntCol, s)
    ensures Spells(w, "bytes") || Spells(w, "text") || Spells(w, "string") ==> TypeAt(w + s) == (TextCol, s)
    ensures Spells(w, "bool") ==> TypeAt(w + s) == (BoolCol, s)
    ensures Spells(w, "float64") || Spells(w, "float") ==> TypeAt(w + s) == (FloatCol, s)
  {
    forall typ | typ != Untyped && NamesType(w, typ) ensures TypeAt(w + s) == (typ, s) {
      SomeType(w, typ, s);
    }
  }

  lemma TypeBack(w: string, typ: ColType, s: string)
    requires NamesType(w, typ) && Stops(s)
    ensures TypeAt(TypeSuffix(w) + s) == (typ, s)
  {
    if typ == Untyped {
      assert "" + s == s;
      NoType(s);
    } else {
      SomeType(w, typ, s);
      TypeAfterBlank(w, typ, s);
      TypeWord(w, typ);
      TypeNames(IndexOf(w, typ));
    }
  }

  lemma TypeAfterBlank(text: string, typ: ColType, s: string)
    requires typ != Untyped && TypeAt(text + s) == (typ, s)
    ensures TypeAt((" " + text) + s) == (typ, s)
  {
    TypeBlank(TypeTable(), text + s);
    Assoc(" ", text, s);
  }

  lemma {:induction false} TypeBlank(table: seq<(string, ColType)>, s: string)
    requires Named(table) && FirstType(table, s).0 != Untyped
    ensures FirstType(table, " " + s) == FirstType(table, s)
  {
    if table != [] {
      KeywordBlank(s, table[0].0);
      if Keyword(s, table[0].0).None? {
        TypeBlank(table[1..], s);
      }
    }
  }

  lemma WordPrefix(name: string, s: string, kw: string)
    requires (s == "" || !IsSym(s[0])) && IsLower(kw)
    ensures StartsWith(name + s, kw) <==> StartsWith(name, kw)
  {
    var t := name + s;
    assert forall i :: 0 <= i < |name| ==> t[i] == name[i];
    if |name| < |kw| && s != "" {
      assert t[|name|] == s[0];
    }
  }

  /** Two keywords in a row are found after a name in two ways: inside it, or the second after it. */
  lemma TwoKeywordsIff(name: string, s: string, a: string, b: string)
    requires IsWord(name) && IsLower(a) && IsLower(b) && a != "" && b != "" && (s == "" || !IsSym(s[0]))
    ensures Keyword2(name + s, a, b).Some?
       <==> StartsWith(name, a + b)
            || (|name| == |a| && StartsWith(name, a) && StartsWith(s[SpanSpace(s)..], b))
  {
    WordSolid(name, s);
    SkipSolid(name + s);
    Keyword2Is(name + s, a, b);
    WordPrefix(name, s, a);
    StartsTwice(name, a, b);
    if StartsWith(name, a) {
      SecondFollows(name, s, |a|, b);
    }
  }

  lemma SecondFollows(name: string, s: string, n: nat, b: string)
    requires n <= |name| && IsWord(name) && IsLower(b) && b != "" && (s == "" || !IsSym(s[0]))
    ensures var u := (name + s)[n..];
            StartsWith(u[SpanSpace(u)..], b)
            <==> StartsWith(name[n..], b) || (|name| == n && StartsWith(s[SpanSpace(s)..], b))
  {
    AfterFirst(name[n..], s, b);
    assert (name + s)[n..] == name[n..] + s;
  }

  predicate IsLower(kw: string) {
    forall i :: 0 <= i < |kw| ==> 'a' <= kw[i] <= 'z'
  }

  lemma Keyword2Is(t: string, a: string, b: string)
    requires a != "" && Skip(t) == t
    ensures Keyword2(t, a, b).Some? <==>
              StartsWith(t, a) && var u := t[|a|..]; StartsWith(u[SpanSpace(u)..], b)
  {
  }

  lemma StartsTwice(name: string, a: string, b: string)
    ensures StartsWith(name, a + b) <==> StartsWith(name, a) && StartsWith(name[|a|..], b)
  {
    var c := a + b;
    if StartsWith(name, c) {
      forall i | 0 <= i < |a| ensures Lower(name[i]) == a[i] {
        assert c[i] == a[i];
      }
      forall i | 0 <= i < |b| ensures Lower(name[|a|..][i]) == b[i] {
        assert c[|a| + i] == b[i];
      }
    } else if StartsWith(name, a) && StartsWith(name[|a|..], b) {
      forall i | 0 <= i < |c| ensures Lower(name[i]) == c[i] {
        assert i >= |a| ==> Lower(name[|a|..][i - |a|]) == b[i - |a|];
      }
    }
  }

  lemma AfterFirst(more: string, s: string, b: string)
    requires (forall i :: 0 <= i < |more| ==> IsSym(more[i])) && IsLower(b) && b != ""
    requires s == "" || !IsSym(s[0])
    ensures var u := more + s;
            StartsWith(u[SpanSpace(u)..], b)
            <==> if more == "" then StartsWith(s[SpanSpace(s)..], b) else StartsWith(more, b)
  {
    var u := more + s;
    WordPrefix(more, s, b);
    if more != "" {
      assert u[0] == more[0] && IsSym(more[0]);
      assert u[0..] == u;
    } else {
      assert u == s;
    }
  }

  lemma BeginsSpelled(s: string, kw: string)
    requires Plain(kw)
    ensures StartsWith(s, kw) <==> |s| >= |kw| && Spells(s[..|kw|], kw)
  {
    if |s| >= |kw| {
      SpellsLower(s[..|kw|], kw);
    }
  }

  /**
   An entry that begins with a name is taken for a key clause if and only if the name begins with
   "primarykey", or is "primary" and the word after the blanks begins with "key", each in any spelling.
   */
  lemma TakenForKeyIff(name: string, s: string)
    requires IsWord(name) && (s == "" || !IsSym(s[0]))
    ensures var u := s[SpanSpace(s)..];
            Keyword2(name + s, "primary", "key").Some?
            <==> (|name| >= 10 && Spells(name[..10], "primarykey"))
                 || (Spells(name, "primary") && |u| >= 3 && Spells(u[..3], "key"))
  {
    PrimaryKey("primary", "key");
    TwoKeywordsIff(name, s, "primary", "key");
    TenLetters("primarykey", name);
    BeginsSpelled(s[SpanSpace(s)..], "key");
    SevenLetters("primary", name);
  }

  lemma TenLetters(kw: string, name: string)
    requires kw == "primarykey"
    ensures StartsWith(name, kw) <==> |name| >= 10 && Spells(name[..10], kw)
  {
    BeginsSpelled(name, kw);
  }

  lemma SevenLetters(kw: string, name: string)
    requires kw == "primary"
    ensures |name| == 7 && StartsWith(name, kw) <==> Spells(name, kw)
  {
    BeginsSpelled(name, kw);
    if |name| == 7 {
      assert name[..7] == name;
    }
  }

  lemma PrimaryKey(a: string, b: string)
    requires a == "primary" && b == "key"
    ensures IsLower(a) && IsLower(b) && |a| == 7 && a != "" && b != "" && a + b == "primarykey"
  {
  }

  /** A column called "primarykeys", and one called "primary" before a word that begins with "key". */
  lemma ColumnsTakenForKeys(a: string, s: string, b: string, t: string)
    requires a == "primarykeys" && s == " int64)" && b == "primary" && t == " keyed)"
    ensures Keyword2(a + s, "primary", "key").Some? && Keyword2(b + t, "primary", "key").Some?
  {
    KeyColumns(a, s, b, t);
    TakenForKeyIff(a, s);
    TakenForKeyIff(b, t);
  }

  lemma KeyColumns(a: string, s: string, b: string, t: string)
    requires a == "primarykeys" && s == " int64)" && b == "primary" && t == " keyed)"
    ensures IsWord(a) && IsWord(b) && !IsSym(s[0]) && !IsSym(t[0]) && Spells(a[..10], "primarykey")
    ensures var v := t[SpanSpace(t)..]; Spells(b, "primary") && |v| >= 3 && Spells(v[..3], "key")
  {
    var u := "keyed)";
    assert t == " " + u;
    BlankThen(u);
  }

  lemma ColumnBack(c: Column, w: string, s: string)
    requires GoodColumn(c.name) && NamesType(w, c.typ) && Stops(s)
    ensures Item(c.name + (TypeSuffix(w) + s)) == Items([c], [], s)
  {
    var tail := TypeSuffix(w) + s;
    SuffixTail(w, c.typ, s);
    TakenForKeyIff(c.name, tail);
    SymBack(c.name, tail);
    TypeBack(w, c.typ, s);
  }

  /** What follows a column's name is no part of the name and no "key". */
  lemma SuffixTail(w: string, typ: ColType, s: string)
    requires NamesType(w, typ) && Stops(s)
    ensures var t := TypeSuffix(w) + s; var u := t[SpanSpace(t)..];
            !IsSym(t[0]) && !(|u| >= 3 && Spells(u[..3], "key"))
  {
    if typ == Untyped {
      assert TypeSuffix(w) + s == s && s[0..] == s;
      NoKey(s);
    } else {
      TypeWord(w, typ);
      var kw := TypeTable()[IndexOf(w, typ)].0;
      TypeNames(IndexOf(w, typ));
      SpelledWord(w, kw, s);
      BlankThen(w + s);
      Assoc(" ", w, s);
      NoKey(w + s);
    }
  }

  lemma NoKey(u: string)
    requires u != "" && Lower(u[0]) != 'k'
    ensures !(|u| >= 3 && Spells(u[..3], "key"))
  {
    BeginsSpelled(u, "key");
  }

  lemma BlankThen(u: string)
    requires u != "" && IsSym(u[0])
    ensures var t := " " + u; t[SpanSpace(t)..] == u
  {
    var t := " " + u;
    assert t[1..] == u;
    assert SpanSpace(u) == 0;
    assert SpanSpace(t) == 1;
  }

  lemma ClauseBack(w: Wording, names: string, keys: seq<string>, s: string)
    requires Spelled(w) && Names(names) == (keys, ")" + s)
    ensures Item(w.primary + (" " + (w.key + (" (" + names)))) == Items([], keys, s)
  {
    PrimaryKeyHit(w.primary, w.key, " (" + names);
    Opens(names);
    Closes(s);
    ItemIsKeys(w.primary + (" " + (w.key + (" (" + names))), " (" + names, keys, ")" + s);
  }

  lemma PrimaryKeyHit(v: string, w: string, s: string)
    requires Spells(v, "primary") && Spells(w, "key")
    ensures Keyword2(v + (" " + (w + s)), "primary", "key") == Some(s)
  {
    PrimaryKey("primary", "key");
    Keyword2Hit(v, w, "primary", "key", s);
  }

  lemma Closes(s: string)
    ensures Expect(")" + s, ")") == s
  {
    KeywordHit(")", s);
  }

  lemma Opens(s: string)
    ensures Keyword(" (" + s, "(") == Some(s) && Expect(" (" + s, "(") == s
  {
    assert " (" + s == " " + ("(" + s);
    KeywordBlank("(" + s, "(");
    KeywordHit("(", s);
  }

  lemma ItemIsKeys(text: string, t: string, keys: seq<string>, rest: string)
    requires Keyword2(text, "primary", "key") == Some(t) && Names(Expect(t, "(")) == (keys, rest)
    ensures Item(text) == Items([], keys, Expect(rest, ")"))
  {
  }

  lemma Keyword2Hit(v: string, w: string, a: string, b: string, s: string)
    requires a != "" && b != "" && IsLower(a) && IsLower(b) && Spells(v, a) && Spells(w, b)
    ensures Keyword2(v + (" " + (w + s)), a, b) == Some(s)
  {
    var t, u, x := v + (" " + (w + s)), " " + (w + s), w + s;
    SpelledWord(v, a, u);
    SpelledWord(w, b, s);
    SkipSolid(t);
    assert t[|a|..] == u && u[1..] == x && x[|b|..] == s;
    assert x[0] == w[0] && IsSym(w[0]);
    assert SpanSpace(x) == 0;
    assert SpanSpace(u) == 1;
  }

  lemma ItemsBlank(s: string)
    ensures AllItems(" " + s) == AllItems(s)
  {
    SkipBlank(s);
  }

  lemma LastItem(text: string, one: Items)
    requires Item(text) == one && Closed(one.rest)
    ensures AllItems(text) == one
  {
    KeywordMiss(one.rest, ",");
  }

  lemma MoreItems(text: string, c: Column, rest: string, tail: string, more: Items)
    requires Item(text) == Items([c], [], rest) && Keyword(rest, ",") == Some(tail) && AllItems(tail) == more
    ensures AllItems(text) == Items([c] + more.cols, more.keys, more.rest)
  {
    NextItems(text, Items([c], [], rest), tail);
    NothingBefore(more.keys);
  }

  lemma NothingBefore<T>(s: seq<T>)
    ensures [] + s == s
  {
  }

  lemma NextItems(text: string, one: Items, tail: string)
    requires Item(text) == one && Keyword(one.rest, ",") == Some(tail)
    ensures AllItems(text) == Join(one, AllItems(tail))
  {
  }

  lemma {:induction false} ItemsBack(cols: seq<Column>, keys: seq<string>, rest: string, w: Wording)
    requires (cols != [] || keys != []) && Closed(rest) && Spelled(w)
    requires forall i :: 0 <= i < |cols| ==> GoodColumn(cols[i].name) && NamesType(w.typ(cols[i]), cols[i].typ)
    requires forall i :: 0 <= i < |keys| ==> IsWord(keys[i])
    ensures AllItems(PrintItems(cols, keys, rest, w)) == Items(cols, keys, rest)
  {
    if cols == [] {
      KeysBack(keys, rest, w);
    } else if |cols| == 1 && keys == [] {
      OneColumn(cols[0], w.typ(cols[0]), rest);
      FirstAndRest(cols);
    } else {
      ItemsBack(cols[1..], keys, rest, w);
      ColumnNext(cols[0], w.typ(cols[0]), PrintItems(cols[1..], keys, rest, w), Items(cols[1..], keys, rest));
      FirstAndRest(cols);
    }
  }

  lemma KeysBack(keys: seq<string>, rest: string, w: Wording)
    requires Spelled(w) && keys != [] && Closed(rest) && forall i :: 0 <= i < |keys| ==> IsWord(keys[i])
    ensures AllItems(PrintItems([], keys, rest, w)) == Items([], keys, rest)
  {
    NamesBack(keys, ")" + rest);
    OnlyKeys(w, PrintNames(keys, ")" + rest), keys, rest);
  }

  lemma OnlyKeys(w: Wording, names: string, keys: seq<string>, rest: string)
    requires Spelled(w) && Names(names) == (keys, ")" + rest) && Closed(rest)
    ensures AllItems(w.primary + (" " + (w.key + (" (" + names)))) == Items([], keys, rest)
  {
    ClauseBack(w, names, keys, rest);
    LastItem(w.primary + (" " + (w.key + (" (" + names))), Items([], keys, rest));
  }

  lemma OneColumn(c: Column, w: string, rest: string)
    requires GoodColumn(c.name) && NamesType(w, c.typ) && Closed(rest)
    ensures AllItems(c.name + (TypeSuffix(w) + rest)) == Items([c], [], rest)
  {
    ColumnBack(c, w, rest);
    LastItem(c.name + (TypeSuffix(w) + rest), Items([c], [], rest));
  }

  lemma ColumnNext(c: Column, w: string, tail: string, items: Items)
    requires GoodColumn(c.name) && NamesType(w, c.typ) && AllItems(tail) == items
    ensures AllItems(c.name + (TypeSuffix(w) + ("," + (" " + tail))))
         == Items([c] + items.cols, items.keys, items.rest)
  {
    ColumnBack(c, w, "," + (" " + tail));
    KeywordHit(",", " " + tail);
    ItemsBlank(tail);
    MoreItems(c.name + (TypeSuffix(w) + ("," + (" " + tail))), c, "," + (" " + tail), " " + tail, items);
  }

  /** A printed CREATE TABLE is read as itself. */
  lemma TableBack(t: TableDef, w: Wording)
    requires GoodTable(t, w)
    ensures ParseTable(PrintTable(t, w)) == (t, "")
  {
    var items := PrintItems(t.cols, t.keys, ")", w);
    SymBack(t.name, " (" + items);
    Opens(items);
    ItemsBack(t.cols, t.keys, ")", w);
    Closes("");
    assert ")" + "" == ")";
    TableIs(PrintTable(t, w), t.name, " (" + items, items, Items(t.cols, t.keys, ")"));
  }

  lemma TableIs(text: string, name: string, t: string, u: string, items: Items)
    requires Sym(text) == (name, t) && Keyword(t, "(") == Some(u) && AllItems(u) == items
    ensures ParseTable(text) == (TableDef(name, items.cols, items.keys), Expect(items.rest, ")"))
  {
  }

  /** The parser on the printed statement gives the statement and uses up the input. */
  method Reread(t: TableDef, w: Wording) returns (back: TableDef, left: nat)
    requires GoodTable(t, w)
    ensures back == t && left == 0
  {
    TableBack(t, w);
    var p := new Parser(PrintTable(t, w));
    back := CreateTable(p);
    left := |p.input| - p.pos;
  }
}
