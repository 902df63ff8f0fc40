/** The order-preserving tuple encoding of encoding.go. */
module Encoding {
  import opened Basics
  import opened Bytes
  import opened Endian
  import opened Floats

  datatype Value = Int64(i: int) | Str(s: seq<byte>) | Bool(b: bool) | Float64(bits: nat)

  /** Within the ranges of the machine types. */
  predicate Ranged(v: Value) {
    match v
    case Int64(i) => 0 <= i + TOP < ALL
    case Float64(bits) => bits < ALL
    case _ => true
  }

  function Tag(v: Value): byte {
    match v
    case Int64(_) => 1
    case Str(_) => 2
    case Bool(_) => 3
    case Float64(_) => 4
  }

  /** Exclusive or with the top bit. */
  function FlipTop(u: nat): nat
    requires u < ALL
  {
    if u < TOP then u + TOP else u - TOP
  }

  function AsU64(i: int): nat
    requires 0 <= i + TOP < ALL
  {
    if i >= 0 then i else i + ALL
  }

  function AsI64(u: nat): int
    requires u < ALL
  {
    if u < TOP then u else u - ALL
  }

  /** The test `f >= 0` of the encoder, which minus zero passes and no NaN does. */
  predicate NonNegative(bits: nat) {
    !IsNaN(bits) && bits <= TOP
  }

  function EncodeFloat(bits: nat): (u: nat)
    requires bits < ALL
    ensures u < ALL
  {
    if NonNegative(bits) then FlipTop(bits) else ALL - 1 - bits
  }

  function DecodeFloat(u: nat): (bits: nat)
    requires u < ALL
    ensures bits < ALL
  {
    if u < TOP then ALL - 1 - u else FlipTop(u)
  }

  function EscapeByte(c: byte): seq<byte> {
    if c == 0 then [1, 1] else if c == 1 then [1, 2] else [c]
  }

  function Escape(s: seq<byte>): seq<byte> {
    if s == [] then [] else EscapeByte(s[0]) + Escape(s[1..])
  }

  function Payload(v: Value): seq<byte>
    requires Ranged(v)
  {
    match v
    case Int64(i) => ToBE(FlipTop(AsU64(i)), W64)
    case Str(s) => Escape(s) + [0]
    case Bool(b) => [if b then 1 else 0]
    case Float64(bits) => ToBE(EncodeFloat(bits), W64)
  }

  function Encode1(v: Value): seq<byte>
    requires Ranged(v)
  {
    [Tag(v)] + Payload(v)
  }

  predicate AllRanged(vs: seq<Value>) {
    forall i :: 0 <= i < |vs| ==> Ranged(vs[i])
  }

  function EncodeAll(vs: seq<Value>): seq<byte>
    requires AllRanged(vs)
  {
    if vs == [] then [] else Encode1(vs[0]) + EncodeAll(vs[1..])
  }

  function KeyOf(prefix: nat, vs: seq<Value>): seq<byte>
    requires AllRanged(vs)
  {
    ToBE(prefix, W32) + EncodeAll(vs)
  }

  // ---------------------------------------------------------------------------------------
  // The bytes.
  // ---------------------------------------------------------------------------------------

  lemma {:induction false} EscapeJoin(s: seq<byte>, t: seq<byte>)
    ensures Escape(s + t) == Escape(s) + Escape(t)
  {
    if s == [] {
      assert s + t == t;
    } else {
      EscapeJoin(s[1..], t);
      assert (s + t)[1..] == s[1..] + t;
      Assoc(EscapeByte(s[0]), Escape(s[1..]), Escape(t));
    }
  }

  /** Byte 0 becomes 1, 1 and byte 1 becomes 1, 2, wherever it stands; any other byte is itself. */
  lemma EscapedBytes(s: seq<byte>, c: byte, t: seq<byte>)
    ensures Escape([]) == []
    ensures Escape(s + [c] + t)
         == Escape(s) + (if c == 0 then [1, 1] else if c == 1 then [1, 2] else [c]) + Escape(t)
  {
    EscapeJoin(s + [c], t);
    EscapeJoin(s, [c]);
    assert Escape([c]) == EscapeByte(c);
  }

  lemma WordBack(tag: byte, n: nat)
    requires n < ALL
    ensures var s := [tag] + ToBE(n, W64); |s| == 9 && s[0] == tag && FromBE(s[1..]) == n
  {
    Widths();
    BERoundTrip(n, W64);
    assert ([tag] + ToBE(n, W64))[1..] == ToBE(n, W64);
  }

  /**
   A type byte, then a big-endian word that is the integer moved up by 2^63, the escaped string and a zero,
   a flag, or the float's word: complemented if it is negative or a NaN, else with its top bit turned.
   */
  lemma ValueBytes(v: Value)
    requires v.Int64? ==> -0x8000_0000_0000_0000 <= v.i <= 0x7fff_ffff_ffff_ffff
    requires v.Float64? ==> v.bits <= 0xffff_ffff_ffff_ffff
    ensures v.Int64? ==>
              |Encode1(v)| == 9 && Encode1(v)[0] == 1 && FromBE(Encode1(v)[1..]) == v.i + 0x8000_0000_0000_0000
    ensures v.Str? ==> Encode1(v) == [2] + Escape(v.s) + [0]
    ensures v.Bool? ==> Encode1(v) == [3, if v.b then 1 else 0]
    ensures v.Float64? ==>
              && |Encode1(v)| == 9 && Encode1(v)[0] == 4
              && FromBE(Encode1(v)[1..])
              == if v.bits == 0x8000_0000_0000_0000 then 0
                 else if v.bits <= 0x7ff0_0000_0000_0000 then v.bits + 0x8000_0000_0000_0000
                 else 0xffff_ffff_ffff_ffff - v.bits
  {
    match v
    case Int64(i) => WordBack(1, FlipTop(AsU64(i)));
    case Float64(bits) => WordBack(4, EncodeFloat(bits));
    case Str(s) => Assoc([2], Escape(s), [0]);
    case Bool(_) =>
  }

  /** A key is its prefix in four bytes, the highest first, and the values one after the other. */
  lemma KeyBytes(prefix: nat, vs: seq<Value>, ws: seq<Value>)
    requires prefix <= 0xffff_ffff && AllRanged(vs) && AllRanged(ws)
    ensures |KeyOf(prefix, [])| == 4 && FromBE(KeyOf(prefix, [])) == prefix
    ensures KeyOf(prefix, vs + ws) == KeyOf(prefix, vs) + EncodeAll(ws)
    ensures forall v :: ws == [v] ==> EncodeAll(ws) == Encode1(v)
  {
    Widths();
    BERoundTrip(prefix, W32);
    assert KeyOf(prefix, []) == ToBE(prefix, W32);
    EncodeJoin(vs, ws);
    Assoc(ToBE(prefix, W32), EncodeAll(vs), EncodeAll(ws));
  }

  lemma {:induction false} EncodeJoin(vs: seq<Value>, ws: seq<Value>)
    requires AllRanged(vs) && AllRanged(ws)
    ensures EncodeAll(vs + ws) == EncodeAll(vs) + EncodeAll(ws)
  {
    if vs == [] {
      assert vs + ws == ws;
    } else {
      EncodeJoin(vs[1..], ws);
      FirstOfBoth(vs, ws);
      Assoc(Encode1(vs[0]), EncodeAll(vs[1..]), EncodeAll(ws));
    }
  }

  lemma FirstOfBoth(vs: seq<Value>, ws: seq<Value>)
    requires AllRanged(vs) && AllRanged(ws) && vs != []
    ensures EncodeAll(vs + ws) == Encode1(vs[0]) + EncodeAll(vs[1..] + ws)
  {
    assert (vs + ws)[1..] == vs[1..] + ws;
  }

  // ---------------------------------------------------------------------------------------
  // The order that the keys should have.
  // ---------------------------------------------------------------------------------------

  /**
   The order of floats: numeric, except that minus zero comes first. NaNs with a sign, which `Scaled`
   puts beyond minus infinity, come after it and before minus infinity.
   */
  predicate FloatLess(a: nat, b: nat) {
    b != TOP && (a == TOP || Scaled(a) < Scaled(b))
  }

  /** Integers before strings before booleans before floats, and each type in its own order. */
  predicate ValueLess(a: Value, b: Value) {
    match (a, b)
    case (Int64(i), Int64(j)) => i < j
    case (Str(s), Str(t)) => Less(s, t)
    case (Bool(x), Bool(y)) => !x && y
    case (Float64(x), Float64(y)) => FloatLess(x, y)
    case (Int64(_), _) => true
    case (_, Int64(_)) => false
    case (Str(_), _) => true
    case (_, Str(_)) => false
    case (Bool(_), _) => true
    case (_, Bool(_)) => false
  }

  predicate TupleLess(a: seq<Value>, b: seq<Value>) {
    && b != []
    && (a == [] || ValueLess(a[0], b[0]) || (a[0] == b[0] && TupleLess(a[1..], b[1..])))
  }

  predicate KeyLess(p: nat, a: seq<Value>, q: nat, b: seq<Value>) {
    p < q || (p == q && TupleLess(a, b))
  }

  /** Go's `<` on floats: nothing is less or greater than a NaN. */
  predicate NumberLess(a: nat, b: nat) {
    !IsNaN(a) && !IsNaN(b) && Scaled(a) < Scaled(b)
  }

  /**
   The pattern whose place a pattern takes. A NaN without a sign stands for a small number that is not
   negative, and the last NaN for minus zero; any other pattern stands for itself.
   */
  function StandsFor(bits: nat): (r: nat)
    requires bits < ALL
    ensures r < ALL && (r == bits <==> Regular(bits)) && Regular(r)
  {
    if IsNaN(bits) && bits < TOP then TOP - 1 - bits else if bits == ALL - 1 then TOP else bits
  }

  predicate Regular(bits: nat) {
    !(IsNaN(bits) && bits < TOP) && bits != ALL - 1
  }

  function Stand(v: Value): Value
    requires Ranged(v)
  {
    if v.Float64? then Float64(StandsFor(v.bits)) else v
  }

  function StandAll(vs: seq<Value>): (r: seq<Value>)
    requires AllRanged(vs)
    ensures |r| == |vs|
  {
    seq(|vs|, i requires 0 <= i < |vs| => Stand(vs[i]))
  }

  /** A value that stands for itself: every integer, string, boolean and number, and most NaNs with a sign. */
  predicate Plain(v: Value) {
    Ranged(v) && (v.Float64? ==> Regular(v.bits))
  }

  ghost predicate AllPlain(vs: seq<Value>) {
    forall i :: 0 <= i < |vs| ==> Plain(vs[i])
  }

  // ---------------------------------------------------------------------------------------
  // Order embedding.
  // ---------------------------------------------------------------------------------------

  lemma U64Order(n: nat, m: nat, x: seq<byte>, y: seq<byte>)
    requires n < ALL && m < ALL && n != m
    ensures Less(ToBE(n, W64) + x, ToBE(m, W64) + y) <==> n < m
  {
    Widths();
    BEOrder(n, m, W64);
    LessFixed(ToBE(n, W64), ToBE(m, W64), x, y);
  }

  lemma RegularOrder(a: nat, b: nat)
    requires Plain(Float64(a)) && Plain(Float64(b))
    ensures EncodeFloat(a) < EncodeFloat(b) <==> FloatLess(a, b)
    ensures EncodeFloat(a) == EncodeFloat(b) <==> a == b
  {
    if a != TOP && b != TOP {
      ScaledOrder(a, b);
    }
  }

  lemma SamePlace(bits: nat)
    requires bits < ALL
    ensures EncodeFloat(StandsFor(bits)) == EncodeFloat(bits)
  {
  }

  /** All patterns are ordered by their encodings like the patterns that they stand for. */
  lemma FloatOrder(a: nat, b: nat)
    requires a < ALL && b < ALL
    ensures EncodeFloat(a) < EncodeFloat(b) <==> FloatLess(StandsFor(a), StandsFor(b))
    ensures EncodeFloat(a) == EncodeFloat(b) <==> StandsFor(a) == StandsFor(b)
  {
    SamePlace(a);
    SamePlace(b);
    RegularOrder(StandsFor(a), StandsFor(b));
  }

  /**
   Encoded order is Go's order of numbers, except that minus zero agrees only with itself, with positive
   numbers on its right and with numbers on its left that are not negative; and a NaN only where what it
   stands for is not less.
   */
  lemma FloatOrderIff(a: nat, b: nat)
    requires a < ALL && b < ALL
    ensures (EncodeFloat(a) < EncodeFloat(b) <==> NumberLess(a, b))
       <==> if IsNaN(a) || IsNaN(b) then !FloatLess(StandsFor(a), StandsFor(b))
            else if a == TOP then b == TOP || Scaled(b) > 0 else b == TOP ==> Scaled(a) >= 0
  {
    FloatOrder(a, b);
    assert Magnitude(0) == 0;
    assert Scaled(TOP) == 0;
  }

  /**
   The encoded order of numbers, told by their fields: exponent below 2047, or a fraction of zero. It is the
   numeric order, except for minus zero before a number that is not positive, and after a negative one.
   */
  lemma NumberOrder(a: nat, b: nat, x: seq<byte>, y: seq<byte>)
    requires a < ALL && (a / 0x10_0000_0000_0000 % 2048 < 2047 || a % 0x10_0000_0000_0000 == 0)
    requires b < ALL && (b / 0x10_0000_0000_0000 % 2048 < 2047 || b % 0x10_0000_0000_0000 == 0)
    requires a != b
    ensures (Less(Encode1(Float64(a)) + x, Encode1(Float64(b)) + y) <==> Scaled(a) < Scaled(b))
       <==> if a == TOP then Scaled(b) > 0 else b == TOP ==> Scaled(a) >= 0
  {
    NaNIff(a);
    NaNIff(b);
    FloatOrderIff(a, b);
    FloatOrder(a, b);
    U64Order(EncodeFloat(a), EncodeFloat(b), x, y);
    var s, t := Payload(Float64(a)) + x, Payload(Float64(b)) + y;
    assert Encode1(Float64(a)) + x == [4] + s && Encode1(Float64(b)) + y == [4] + t;
    LessAfterPrefix([4], s, t);
  }

  /** Two patterns share an encoding if and only if they are equal or one is the NaN that complements the other's. */
  lemma FloatCollisionIff(a: nat, b: nat)
    requires a < ALL && b < ALL
    ensures EncodeFloat(a) == EncodeFloat(b)
       <==> a == b || (IsNaN(b) && NonNegative(a) && b == ALL - 1 - FlipTop(a))
                   || (IsNaN(a) && NonNegative(b) && a == ALL - 1 - FlipTop(b))
  {
  }

  lemma EscapeFirst(c: byte, d: byte, x: seq<byte>, y: seq<byte>)
    requires c != d
    ensures Less(EscapeByte(c) + x, EscapeByte(d) + y) <==> c < d
  {
    var a, b := EscapeByte(c) + x, EscapeByte(d) + y;
    if a[0] == b[0] {
      assert a[1..][0] == EscapeByte(c)[1] && b[1..][0] == EscapeByte(d)[1];
    }
  }

  /** Escaped, zero-terminated strings compare like the strings, whatever follows. */
  lemma {:induction false} StrOrder(s: seq<byte>, t: seq<byte>, x: seq<byte>, y: seq<byte>)
    requires s != t
    ensures Less(Escape(s) + [0] + x, Escape(t) + [0] + y) <==> Less(s, t)
  {
    if s == [] || t == [] {
      var a, b := Escape(s) + [0] + x, Escape(t) + [0] + y;
      assert s == [] ==> a[0] == 0 && b[0] == EscapeByte(t[0])[0];
      assert t == [] ==> b[0] == 0 && a[0] == EscapeByte(s[0])[0];
    } else {
      var a, b := Escape(s[1..]) + [0] + x, Escape(t[1..]) + [0] + y;
      assert Escape(s) + [0] + x == EscapeByte(s[0]) + a;
      assert Escape(t) + [0] + y == EscapeByte(t[0]) + b;
      if s[0] == t[0] {
        assert s == [s[0]] + s[1..] && t == [t[0]] + t[1..];
        StrOrder(s[1..], t[1..], x, y);
        LessAfterPrefix(EscapeByte(s[0]), a, b);
      } else {
        EscapeFirst(s[0], t[0], a, b);
      }
    }
  }

  lemma PayloadOrder(a: Value, b: Value, x: seq<byte>, y: seq<byte>)
    requires Plain(a) && Plain(b) && a != b && SameType(a, b)
    ensures Less(Payload(a) + x, Payload(b) + y) <==> ValueLess(a, b)
  {
    match a
    case Int64(i) =>
      U64Order(FlipTop(AsU64(i)), FlipTop(AsU64(b.i)), x, y);
    case Str(s) =>
      StrOrder(s, b.s, x, y);
    case Bool(_) =>
    case Float64(bits) =>
      RegularOrder(bits, b.bits);
      U64Order(EncodeFloat(bits), EncodeFloat(b.bits), x, y);
  }

  /** Two different values decide the comparison of what they start. */
  lemma ValueOrder(a: Value, b: Value, x: seq<byte>, y: seq<byte>)
    requires Plain(a) && Plain(b) && a != b
    ensures Less(Encode1(a) + x, Encode1(b) + y) <==> ValueLess(a, b)
  {
    assert Encode1(a) + x == [Tag(a)] + (Payload(a) + x);
    assert Encode1(b) + y == [Tag(b)] + (Payload(b) + y);
    if SameType(a, b) {
      PayloadOrder(a, b, x, y);
      LessAfterPrefix([Tag(a)], Payload(a) + x, Payload(b) + y);
    }
  }

  lemma ValueLessIrreflexive(a: Value)
    ensures !ValueLess(a, a)
  {
    if a.Str? {
      LessTotal(a.s, a.s);
    }
  }

  lemma {:induction false} StandEncoded(vs: seq<Value>)
    requires AllRanged(vs)
    ensures AllPlain(StandAll(vs)) && EncodeAll(StandAll(vs)) == EncodeAll(vs)
  {
    if vs != [] {
      StandEncoded(vs[1..]);
      assert StandAll(vs)[1..] == StandAll(vs[1..]);
      SameEncoding(vs[0]);
    }
  }

  /** Encoded tuples compare like the tuples that they stand for. */
  lemma TupleOrder(a: seq<Value>, b: seq<Value>)
    requires AllRanged(a) && AllRanged(b)
    ensures Less(EncodeAll(a), EncodeAll(b)) <==> TupleLess(StandAll(a), StandAll(b))
  {
    StandEncoded(a);
    StandEncoded(b);
    PlainOrder(StandAll(a), StandAll(b));
  }

  lemma {:induction false} PlainOrder(a: seq<Value>, b: seq<Value>)
    requires AllPlain(a) && AllPlain(b)
    ensures Less(EncodeAll(a), EncodeAll(b)) <==> TupleLess(a, b)
  {
    if a != [] && b != [] {
      if a[0] == b[0] {
        PlainOrder(a[1..], b[1..]);
        LessAfterPrefix(Encode1(a[0]), EncodeAll(a[1..]), EncodeAll(b[1..]));
        ValueLessIrreflexive(a[0]);
      } else {
        ValueOrder(a[0], b[0], EncodeAll(a[1..]), EncodeAll(b[1..]));
      }
    }
  }

  /** Minus zero is encoded below every other number, minus infinity included, though it equals zero. */
  lemma MinusZeroSortsFirst(bits: nat, x: seq<byte>, y: seq<byte>)
    requires bits < ALL && !IsNaN(bits) && bits != TOP
    ensures Less(Encode1(Float64(TOP)) + x, Encode1(Float64(bits)) + y)
    ensures Scaled(TOP) == Scaled(0)
  {
    var a, b := Payload(Float64(TOP)), Payload(Float64(bits));
    U64Order(EncodeFloat(TOP), EncodeFloat(bits), x, y);
    assert Encode1(Float64(TOP)) + x == [4] + (a + x) && Encode1(Float64(bits)) + y == [4] + (b + y);
    LessAfterPrefix([4], a + x, b + y);
    assert Magnitude(0) == 0;
  }

  /** Encoded keys compare exactly like (prefix, tuple), each value by what it stands for. */
  lemma KeyOrder(p: nat, a: seq<Value>, q: nat, b: seq<Value>)
    requires p < MAX32 && q < MAX32 && AllRanged(a) && AllRanged(b)
    ensures Less(KeyOf(p, a), KeyOf(q, b)) <==> KeyLess(p, StandAll(a), q, StandAll(b))
  {
    Widths();
    BEOrder(p, q, W32);
    LessFixed(ToBE(p, W32), ToBE(q, W32), EncodeAll(a), EncodeAll(b));
    TupleOrder(a, b);
  }

  lemma ValueTotal(a: Value, b: Value)
    requires Plain(a) && Plain(b)
    ensures ValueLess(a, b) || a == b || ValueLess(b, a)
  {
    match a
    case Str(s) => if b.Str? { LessTotal(s, b.s); }
    case Float64(x) => if b.Float64? && x != TOP && b.bits != TOP { ScaledOrder(x, b.bits); }
    case _ =>
  }

  lemma {:induction false} TupleTotal(a: seq<Value>, b: seq<Value>)
    requires AllPlain(a) && AllPlain(b)
    ensures TupleLess(a, b) || a == b || TupleLess(b, a)
  {
    if a != [] && b != [] {
      ValueTotal(a[0], b[0]);
      TupleTotal(a[1..], b[1..]);
      assert a == [a[0]] + a[1..] && b == [b[0]] + b[1..];
    }
  }

  /** Different keys for different (prefix, tuple), up to values that stand for one another. */
  lemma KeyInjective(p: nat, a: seq<Value>, q: nat, b: seq<Value>)
    requires p < MAX32 && q < MAX32 && AllRanged(a) && AllRanged(b)
    ensures KeyOf(p, a) == KeyOf(q, b) <==> p == q && StandAll(a) == StandAll(b)
  {
    KeyOrder(p, a, q, b);
    KeyOrder(q, b, p, a);
    StandEncoded(a);
    StandEncoded(b);
    TupleTotal(StandAll(a), StandAll(b));
    LessTotal(KeyOf(p, a), KeyOf(q, b));
  }

  // ---------------------------------------------------------------------------------------
  // The fence of EncodeKeyPartial.
  // ---------------------------------------------------------------------------------------

  lemma FenceAfterEqual(e: seq<byte>, a: seq<byte>, b: seq<byte>)
    ensures Less(e + a, (e + b) + [0xff]) <==> Less(a, b + [0xff])
    ensures e + a == (e + b) + [0xff] <==> a == b + [0xff]
  {
    Assoc(e, b, [0xff]);
    LessAfterPrefix(e, a, b + [0xff]);
    assert (e + a)[|e|..] == a && (e + (b + [0xff]))[|e|..] == b + [0xff];
  }

  lemma PrefixRest<T>(s: seq<T>, t: seq<T>)
    requires s != [] && t != [] && s[0] == t[0]
    ensures s <= t <==> s[1..] <= t[1..]
  {
    assert s == [s[0]] + s[1..] && t == [t[0]] + t[1..];
  }

  lemma {:induction false} TupleFence(vs: seq<Value>, t: seq<Value>)
    requires AllPlain(vs) && AllPlain(t)
    ensures Less(EncodeAll(t), EncodeAll(vs) + [0xff]) <==> vs <= t || TupleLess(t, vs)
    ensures EncodeAll(t) != EncodeAll(vs) + [0xff]
  {
    if vs == [] {
      assert t != [] ==> EncodeAll(t)[0] == Tag(t[0]);
    } else if t == [] {
    } else if vs[0] == t[0] {
      TupleFence(vs[1..], t[1..]);
      FenceAfterEqual(Encode1(vs[0]), EncodeAll(t[1..]), EncodeAll(vs[1..]));
      ValueLessIrreflexive(t[0]);
      PrefixRest(vs, t);
    } else {
      FenceDecided(vs, t);
    }
  }

  lemma FenceDecided(vs: seq<Value>, t: seq<Value>)
    requires AllPlain(vs) && AllPlain(t) && vs != [] && t != [] && vs[0] != t[0]
    ensures Less(EncodeAll(t), EncodeAll(vs) + [0xff]) <==> ValueLess(t[0], vs[0])
    ensures EncodeAll(t) != EncodeAll(vs) + [0xff]
  {
    var x, y := EncodeAll(t[1..]), EncodeAll(vs[1..]) + [0xff];
    assert EncodeAll(vs) + [0xff] == Encode1(vs[0]) + y;
    ValueOrder(t[0], vs[0], x, y);
    ValueOrder(vs[0], t[0], y, x);
    ValueTotal(t[0], vs[0]);
    LessTotal(Encode1(t[0]) + x, Encode1(vs[0]) + y);
  }

  /**
   The 0xff fence: above every key whose tuple extends the given values or comes before them,
   below every other key, and itself no key.
   */
  lemma KeyFence(p: nat, vs: seq<Value>, q: nat, t: seq<Value>)
    requires p < MAX32 && q < MAX32 && AllRanged(vs) && AllRanged(t)
    ensures var fence, s, u := KeyOf(p, vs) + [0xff], StandAll(vs), StandAll(t);
            && (Less(KeyOf(q, t), fence) <==> q < p || (q == p && (s <= u || TupleLess(u, s))))
            && (Less(fence, KeyOf(q, t)) <==> p < q || (q == p && !(s <= u) && !TupleLess(u, s)))
  {
    StandEncoded(vs);
    StandEncoded(t);
    Widths();
    var fence := KeyOf(p, vs) + [0xff];
    assert fence == ToBE(p, W32) + (EncodeAll(vs) + [0xff]);
    BEOrder(p, q, W32);
    BEOrder(q, p, W32);
    LessFixed(ToBE(q, W32), ToBE(p, W32), EncodeAll(t), EncodeAll(vs) + [0xff]);
    LessFixed(ToBE(p, W32), ToBE(q, W32), EncodeAll(vs) + [0xff], EncodeAll(t));
    TupleFence(StandAll(vs), StandAll(t));
    LessTotal(EncodeAll(t), EncodeAll(vs) + [0xff]);
  }

  /** The comparisons for which EncodeKeyPartial adds the fence; -3 is none of the named ones. */
  predicate Fenced(cmp: int) {
    cmp == 1 || cmp == -3
  }

  function PartialKey(prefix: nat, vs: seq<Value>, cmp: int): seq<byte>
    requires AllRanged(vs)
  {
    if Fenced(cmp) then KeyOf(prefix, vs) + [0xff] else KeyOf(prefix, vs)
  }

  /**
   Which keys lie below the start of a range scan: smaller ones, and for CmpGE, which is 1, and for -3 also
   those that extend it.
   */
  lemma PartialKeyBounds(p: nat, vs: seq<Value>, cmp: int, q: nat, t: seq<Value>)
    requires p < MAX32 && q < MAX32 && AllRanged(vs) && AllRanged(t)
    ensures Less(KeyOf(q, t), PartialKey(p, vs, cmp))
       <==> || KeyLess(q, StandAll(t), p, StandAll(vs))
            || ((cmp == 1 || cmp == -3) && q == p && StandAll(vs) <= StandAll(t))
  {
    if Fenced(cmp) {
      KeyFence(p, vs, q, t);
    } else {
      KeyOrder(q, t, p, vs);
    }
  }

  /** The start skips the key of the given values for CmpGE and for -3, and for no other comparison. */
  lemma FenceSkipsEqual(p: nat, vs: seq<Value>, cmp: int)
    requires p < MAX32 && AllRanged(vs)
    ensures Less(KeyOf(p, vs), PartialKey(p, vs, cmp)) <==> cmp == 1 || cmp == -3
  {
    PartialKeyBounds(p, vs, cmp, p, vs);
    TupleOrder(vs, vs);
    LessTotal(EncodeAll(vs), EncodeAll(vs));
  }

  // ---------------------------------------------------------------------------------------
  // Agreement with the comparison of the query executor.
  // ---------------------------------------------------------------------------------------

  predicate SameType(a: Value, b: Value) {
    a.Int64? == b.Int64? && a.Str? == b.Str? && a.Bool? == b.Bool?
  }

  function ValCompare(a: Value, b: Value): int {
    if Tag(a) != Tag(b) then Tag(a) - Tag(b)
    else
      match a
      case Int64(i) => if i < b.i then -1 else if i > b.i then 1 else 0
      case Str(s) => if Less(s, b.s) then -1 else if Less(b.s, s) then 1 else 0
      case _ => 0
  }

  ghost predicate Agrees(a: Value, b: Value)
    requires Ranged(a) && Ranged(b)
  {
    && (ValCompare(a, b) < 0 <==> Less(Encode1(a), Encode1(b)))
    && (ValCompare(a, b) > 0 <==> Less(Encode1(b), Encode1(a)))
  }

  /** The two comparisons agree, except on different booleans and on floats that stand for different ones. */
  lemma ValCompareAgrees(a: Value, b: Value)
    requires Ranged(a) && Ranged(b)
    ensures Agrees(a, b) <==> Stand(a) == Stand(b) || !SameType(a, b) || a.Int64? || a.Str?
  {
    SameEncoding(a);
    SameEncoding(b);
    PlainAgrees(Stand(a), Stand(b));
  }

  lemma SameEncoding(v: Value)
    requires Ranged(v)
    ensures Plain(Stand(v)) && Encode1(Stand(v)) == Encode1(v) && SameType(Stand(v), v)
  {
    if v.Float64? {
      SamePlace(v.bits);
    }
  }

  /**
   Values of different types compare by the distance of their types, integer, string, boolean, float; two
   integers and two strings as one expects; and all booleans, and all floats, are alike.
   */
  lemma ValCompareResult(a: Value, b: Value)
    ensures !SameType(a, b) ==> (ValCompare(a, b) < 0 <==> ValueLess(a, b))
    ensures a.Int64? ==> b.Str? ==> ValCompare(a, b) == -1
    ensures a.Int64? ==> b.Bool? ==> ValCompare(a, b) == -2
    ensures a.Int64? ==> b.Float64? ==> ValCompare(a, b) == -3
    ensures a.Str? ==> b.Float64? ==> ValCompare(a, b) == -2
    ensures (a.Str? && b.Bool?) || (a.Bool? && b.Float64?) ==> ValCompare(a, b) == -1
    ensures ValCompare(b, a) == -ValCompare(a, b)
    ensures SameType(a, b) && (a.Bool? || a.Float64?) ==> ValCompare(a, b) == 0
    ensures a.Int64? && b.Int64? ==> ValCompare(a, b) == if a.i < b.i then -1 else if a.i > b.i then 1 else 0
    ensures a.Str? && b.Str? ==> -1 <= ValCompare(a, b) <= 1 && (ValCompare(a, b) < 0 <==> Less(a.s, b.s))
  {
    if a.Str? && b.Str? { LessTotal(a.s, b.s); }
  }

  /** Two booleans and two numbers on which they do not. */
  lemma ValCompareFails()
    ensures !Agrees(Bool(false), Bool(true)) && !Agrees(Float64(0), Float64(1))
  {
    ValCompareAgrees(Bool(false), Bool(true));
    ValCompareAgrees(Float64(0), Float64(1));
  }

  lemma PlainAgrees(a: Value, b: Value)
    requires Plain(a) && Plain(b)
    ensures Agrees(a, b) <==> a == b || !SameType(a, b) || a.Int64? || a.Str?
  {
    assert Encode1(a) + [] == Encode1(a) && Encode1(b) + [] == Encode1(b);
    if a != b {
      ValueOrder(a, b, [], []);
      ValueOrder(b, a, [], []);
      ValueTotal(a, b);
      if a.Str? && b.Str? { LessTotal(a.s, b.s); }
    } else {
      LessTotal(Encode1(a), Encode1(a));
      if a.Str? { LessTotal(a.s, a.s); }
    }
  }
}
