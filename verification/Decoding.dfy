/** The loops of encoding.go that build and take apart encoded tuples, and the round trip. */
module Decoding {
  import opened Basics
  import opened Bytes
  import opened Endian
  import opened Floats
  import opened Encoding

  /** The decoder's outcome; it panics on bytes that no encoder produces. */
  datatype Decoded = Values(vals: seq<Value>) | Panic

  datatype Step = One(v: Value, rest: seq<byte>) | Stuck

  lemma {:induction false} FromBEBound(s: seq<byte>)
    ensures FromBE(s) < Pow256(|s|)
  {
    if s != [] {
      FromBEBound(s[..|s| - 1]);
    }
  }

  function U64(s: seq<byte>): (u: nat)
    requires |s| >= W64
    ensures u < ALL
  {
    FromBEBound(s[..W64]);
    Widths();
    FromBE(s[..W64])
  }

  /** bytes.IndexByte(s, 0), or the length when there is no zero byte. */
  function ZeroAt(s: seq<byte>): (i: nat)
    ensures i <= |s| && (i < |s| ==> s[i] == 0)
    ensures forall j :: 0 <= j < i ==> s[j] != 0
  {
    if s == [] || s[0] == 0 then 0 else 1 + ZeroAt(s[1..])
  }

  function Unescape(s: seq<byte>): seq<byte> {
    if s == [] then []
    else if s[0] == 1 && |s| > 1 && s[1] == 1 then [0] + Unescape(s[2..])
    else if s[0] == 1 && |s| > 1 && s[1] == 2 then [1] + Unescape(s[2..])
    else [s[0]] + Unescape(s[1..])
  }

  /** One turn of the loop of DecodeValues. */
  function Decode1(s: seq<byte>): (r: Step)
    requires s != []
    ensures r.One? ==> |r.rest| < |s|
  {
    DecodePayload(s[0], s[1..])
  }

  function DecodePayload(tag: byte, t: seq<byte>): (r: Step)
    ensures r.One? ==> |r.rest| <= |t|
  {
    if tag == 1 then
      if |t| < W64 then Stuck else One(Int64(AsI64(FlipTop(U64(t)))), t[W64..])
    else if tag == 2 then
      var i := ZeroAt(t);
      if i == |t| then Stuck else One(Str(Unescape(t[..i])), t[i + 1..])
    else if tag == 3 then
      if t == [] then Stuck else One(Bool(t[0] != 0), t[1..])
    else if tag == 4 then
      if |t| < W64 then Stuck else One(Float64(DecodeFloat(U64(t))), t[W64..])
    else Stuck
  }

  function DecodeAll(s: seq<byte>): Decoded {
    if s == [] then Values([])
    else
      match Decode1(s)
      case Stuck => Panic
      case One(v, rest) => Prepend([v], DecodeAll(rest))
  }

  function Prepend(vs: seq<Value>, d: Decoded): Decoded {
    match d
    case Panic => Panic
    case Values(ws) => Values(vs + ws)
  }

  /**
   The decoder on any bytes. It panics on a type byte other than 1 to 4, on a word or flag that is cut short and
   on a string without a zero; and any other flag than zero is true.
   */
  lemma DecodeBytes(s: seq<byte>)
    requires s != []
    ensures Decode1(s).Stuck?
       <==> || s[0] == 0 || s[0] > 4 || (s[0] == 2 && 0 !in s[1..]) || (s[0] == 3 && |s| < 2)
            || ((s[0] == 1 || s[0] == 4) && |s| < 9)
    ensures |s| >= 9 && s[0] == 1 ==> Decode1(s) == One(Int64(FromBE(s[1..9]) - 0x8000_0000_0000_0000), s[9..])
    ensures forall i :: 1 <= i < |s| && s[0] == 2 && s[i] == 0 && 0 !in s[1..i] ==>
              Decode1(s) == One(Str(Unescape(s[1..i])), s[i + 1..])
    ensures |s| >= 2 && s[0] == 3 ==> Decode1(s) == One(Bool(s[1] != 0), s[2..])
    ensures |s| >= 9 && s[0] == 4 ==>
              var u := FromBE(s[1..9]);
              Decode1(s).One? && Decode1(s).rest == s[9..] && Decode1(s).v.Float64?
              && Decode1(s).v.bits == if u < 0x8000_0000_0000_0000 then 0xffff_ffff_ffff_ffff - u
                                      else u - 0x8000_0000_0000_0000
  {
    var t := s[1..];
    if |s| >= 9 {
      assert t[..8] == s[1..9] && t[8..] == s[9..];
    }
    if s[0] == 2 {
      StringBytes(s, t);
    }
  }

  lemma StringBytes(s: seq<byte>, t: seq<byte>)
    requires s != [] && t == s[1..] && s[0] == 2
    ensures Decode1(s).Stuck? <==> 0 !in t
    ensures forall i :: 1 <= i < |s| && s[i] == 0 && 0 !in s[1..i] ==>
              Decode1(s) == One(Str(Unescape(s[1..i])), s[i + 1..])
  {
    var z := ZeroAt(t);
    assert z < |t| ==> t[z] == 0;
    assert forall j :: 0 <= j < z ==> t[j] != 0;
    forall i | 1 <= i < |s| && s[i] == 0 && 0 !in s[1..i]
      ensures Decode1(s) == One(Str(Unescape(s[1..i])), s[i + 1..])
    {
      assert t[i - 1] == 0;
      assert forall j :: 0 <= j < i - 1 ==> t[j] == s[1..i][j];
      assert t[..i - 1] == s[1..i] && t[i..] == s[i + 1..];
    }
  }

  // ---------------------------------------------------------------------------------------
  // Round trip.
  // ---------------------------------------------------------------------------------------

  lemma {:induction false} UnescapeEscape(s: seq<byte>)
    ensures Unescape(Escape(s)) == s
    ensures forall j :: 0 <= j < |Escape(s)| ==> Escape(s)[j] != 0
  {
    if s != [] {
      UnescapeEscape(s[1..]);
      var e, r := EscapeByte(s[0]), Escape(s[1..]);
      assert (e + r)[|e|..] == r;
      assert s == [s[0]] + s[1..];
    }
  }

  lemma {:induction false} ZeroAtEnd(s: seq<byte>, x: seq<byte>)
    requires forall j :: 0 <= j < |s| ==> s[j] != 0
    ensures ZeroAt(s + [0] + x) == |s|
  {
    var t := s + [0] + x;
    assert t[|s|] == 0;
    assert forall j :: 0 <= j < |s| ==> t[j] == s[j];
    var i := ZeroAt(t);
  }

  /** What a value becomes; only some floats change. */
  function Canon(v: Value): Value
    requires Ranged(v)
  {
    if v.Float64? then Float64(DecodeFloat(EncodeFloat(v.bits))) else v
  }

  /** Minus zero and the NaNs without a sign are the values that do not come back. */
  predicate ComesBack(v: Value) {
    v.Float64? ==> v.bits != TOP && !(IsNaN(v.bits) && v.bits < TOP)
  }

  lemma CanonIff(v: Value)
    requires Ranged(v)
    ensures Canon(v) == v <==> ComesBack(v)
  {
  }

  lemma U64Back(n: nat, x: seq<byte>)
    requires n < ALL
    ensures U64(ToBE(n, W64) + x) == n && (ToBE(n, W64) + x)[W64..] == x
  {
    Widths();
    BERoundTrip(n, W64);
    assert (ToBE(n, W64) + x)[..W64] == ToBE(n, W64);
  }

  lemma StrBack(t: seq<byte>, x: seq<byte>)
    ensures DecodePayload(2, Escape(t) + [0] + x) == One(Str(t), x)
  {
    UnescapeEscape(t);
    ZeroAtEnd(Escape(t), x);
    assert (Escape(t) + [0] + x)[..|Escape(t)|] == Escape(t);
    assert (Escape(t) + [0] + x)[|Escape(t)| + 1..] == x;
  }

  lemma PayloadBack(v: Value, x: seq<byte>)
    requires Ranged(v)
    ensures DecodePayload(Tag(v), Payload(v) + x) == One(Canon(v), x)
  {
    match v
    case Int64(i) => U64Back(FlipTop(AsU64(i)), x);
    case Str(t) => StrBack(t, x);
    case Bool(_) =>
    case Float64(bits) => U64Back(EncodeFloat(bits), x);
  }

  lemma Decode1Encode1(v: Value, x: seq<byte>)
    requires Ranged(v)
    ensures Decode1(Encode1(v) + x) == One(Canon(v), x)
  {
    PayloadBack(v, x);
    assert (Encode1(v) + x)[1..] == Payload(v) + x;
  }

  function CanonAll(vs: seq<Value>): (r: seq<Value>)
    requires AllRanged(vs)
    ensures |r| == |vs|
  {
    seq(|vs|, i requires 0 <= i < |vs| => Canon(vs[i]))
  }

  lemma {:induction false} DecodeEncode(vs: seq<Value>)
    requires AllRanged(vs)
    ensures DecodeAll(EncodeAll(vs)) == Values(CanonAll(vs))
  {
    if vs == [] {
      assert CanonAll(vs) == [];
    } else {
      DecodeEncode(vs[1..]);
      DecodeFirst(vs[0], EncodeAll(vs[1..]), CanonAll(vs[1..]));
      CanonFirst(vs);
    }
  }

  lemma CanonFirst(vs: seq<Value>)
    requires AllRanged(vs) && vs != []
    ensures CanonAll(vs) == [Canon(vs[0])] + CanonAll(vs[1..])
  {
  }

  lemma DecodeFirst(v: Value, x: seq<byte>, ws: seq<Value>)
    requires Ranged(v) && DecodeAll(x) == Values(ws)
    ensures DecodeAll(Encode1(v) + x) == Values([Canon(v)] + ws)
  {
    Decode1Encode1(v, x);
  }

  /** DecodeValues inverts EncodeValues exactly on the tuples without such floats. */
  lemma RoundTripIff(vs: seq<Value>)
    requires AllRanged(vs)
    ensures DecodeAll(EncodeAll(vs)) == Values(vs) <==> forall i :: 0 <= i < |vs| ==> ComesBack(vs[i])
  {
    DecodeEncode(vs);
    var r := CanonAll(vs);
    forall i | 0 <= i < |vs| ensures r[i] == vs[i] <==> ComesBack(vs[i]) {
      CanonIff(vs[i]);
    }
  }

  /** Minus zero comes back as a NaN. */
  lemma MinusZeroIsLost()
    ensures DecodeAll(EncodeAll([Float64(TOP)])) == Values([Float64(ALL - 1)]) && IsNaN(ALL - 1)
  {
    DecodeEncode([Float64(TOP)]);
    assert CanonAll([Float64(TOP)]) == [Float64(ALL - 1)];
  }

  // ---------------------------------------------------------------------------------------
  // The loops.
  // ---------------------------------------------------------------------------------------

  method EscapeBytes(input: seq<byte>) returns (out: seq<byte>)
    ensures out == Escape(input)
  {
    out := [];
    var i := 0;
    while i < |input|
      invariant i <= |input| && out == Escape(input[..i])
    {
      EscapedBytes(input[..i], input[i], []);
      assert input[..i + 1] == input[..i] + [input[i]] + [];
      out := out + (if input[i] == 0 then [1, 1] else if input[i] == 1 then [1, 2] else [input[i]]);
      i := i + 1;
    }
    assert input[..i] == input;
  }

  lemma UnescapeFrom(s: seq<byte>, i: nat)
    requires i < |s|
    ensures Unescape(s[i..]) ==
              if s[i] == 1 && i + 1 < |s| && s[i + 1] == 1 then [0] + Unescape(s[i + 2..])
              else if s[i] == 1 && i + 1 < |s| && s[i + 1] == 2 then [1] + Unescape(s[i + 2..])
              else [s[i]] + Unescape(s[i + 1..])
  {
    var t := s[i..];
    assert t[0] == s[i] && t[1..] == s[i + 1..];
    assert |t| > 1 ==> t[1] == s[i + 1] && t[2..] == s[i + 2..];
  }

  lemma UnescapeStep(s: seq<byte>, i: nat, out: seq<byte>, x: byte, next: nat)
    requires i < next <= |s| && Unescape(s[i..]) == [x] + Unescape(s[next..])
    ensures out + Unescape(s[i..]) == out + [x] + Unescape(s[next..])
  {
    Assoc(out, [x], Unescape(s[next..]));
  }

  method UnescapeBytes(input: seq<byte>) returns (out: seq<byte>)
    ensures out == Unescape(input)
  {
    out := [];
    var i := 0;
    ghost var all := Unescape(input);
    assert input[0..] == input && [] + all == all;
    while i < |input|
      invariant i <= |input| && out + Unescape(input[i..]) == all
    {
      UnescapeFrom(input, i);
      var x, next := input[i], i + 1;
      if input[i] == 1 && i + 1 < |input| && input[i + 1] == 1 {
        x, next := 0, i + 2;
      } else if input[i] == 1 && i + 1 < |input| && input[i + 1] == 2 {
        x, next := 1, i + 2;
      }
      UnescapeStep(input, i, out, x, next);
      out, i := out + [x], next;
    }
    assert out + [] == out;
  }

  lemma TakeMore<T>(s: seq<T>, k: nat)
    requires k < |s|
    ensures s[..k + 1] == s[..k] + [s[k]]
  {
  }

  lemma EncodePrefix(out: seq<byte>, vals: seq<Value>, k: nat)
    requires AllRanged(vals) && k < |vals|
    ensures out + EncodeAll(vals[..k + 1]) == out + EncodeAll(vals[..k]) + Encode1(vals[k])
  {
    EncodeJoin(vals[..k], [vals[k]]);
    assert EncodeAll([vals[k]]) == Encode1(vals[k]);
    TakeMore(vals, k);
    Assoc(out, EncodeAll(vals[..k]), Encode1(vals[k]));
  }

  /** The body of the loop of EncodeValues. */
  method EncodeValue(out: seq<byte>, v: Value) returns (r: seq<byte>)
    requires Ranged(v)
    ensures r == out + Encode1(v)
  {
    r := out + [Tag(v)];
    ghost var head := r;
    match v {
      case Int64(i) => r := r + ToBE(FlipTop(AsU64(i)), W64);
      case Str(s) =>
        var e := EscapeBytes(s);
        r := r + e;
        r := r + [0];
        Assoc(head, e, [0]);
      case Bool(b) => if b { r := r + [1]; } else { r := r + [0]; }
      case Float64(bits) => r := r + ToBE(EncodeFloat(bits), W64);
    }
    assert r == head + Payload(v);
    Assoc(out, [Tag(v)], Payload(v));
  }

  /** EncodeValues appends the encoded tuple to what is there. */
  method EncodeValues(out: seq<byte>, vals: seq<Value>) returns (r: seq<byte>)
    requires AllRanged(vals)
    ensures r == out + EncodeAll(vals)
  {
    r := out;
    var k := 0;
    while k < |vals|
      invariant k <= |vals| && r == out + EncodeAll(vals[..k])
    {
      EncodePrefix(out, vals, k);
      r := EncodeValue(r, vals[k]);
      k := k + 1;
    }
    assert vals[..k] == vals;
  }

  method EncodeKey(out: seq<byte>, prefix: nat, vals: seq<Value>) returns (r: seq<byte>)
    requires prefix < MAX32 && AllRanged(vals)
    ensures r == out + KeyOf(prefix, vals)
  {
    r := EncodeValues(out + ToBE(prefix, W32), vals);
  }

  method EncodeKeyPartial(out: seq<byte>, prefix: nat, vals: seq<Value>, cmp: int) returns (r: seq<byte>)
    requires prefix < MAX32 && AllRanged(vals)
    ensures r == out + PartialKey(prefix, vals, cmp)
  {
    r := EncodeKey(out, prefix, vals);
    if cmp == 1 || cmp == -3 {
      r := r + [0xff];
    }
  }

  lemma PrependAssoc(a: seq<Value>, b: seq<Value>, d: Decoded)
    ensures Prepend(a + b, d) == Prepend(a, Prepend(b, d))
  {
    if d.Values? {
      assert a + b + d.vals == a + (b + d.vals);
    }
  }

  /** DecodeValues appends to what is there, or panics. */
  method DecodeValues(input: seq<byte>, out: seq<Value>) returns (r: Decoded)
    ensures r == Prepend(out, DecodeAll(input))
  {
    var rest, vals := input, out;
    while |rest| > 0
      invariant Prepend(vals, DecodeAll(rest)) == Prepend(out, DecodeAll(input))
      decreases |rest|
    {
      match Decode1(rest) {
        case Stuck => return Panic;
        case One(v, next) =>
          PrependAssoc(vals, [v], DecodeAll(next));
          vals := vals + [v];
          rest := next;
      }
    }
    r := Values(vals);
  }
}
