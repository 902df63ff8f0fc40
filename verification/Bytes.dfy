/** Byte strings and the order in which the store keeps its keys. */
module Bytes {

  type byte = x: nat | x < 256

  /** Lexicographic order; a proper prefix comes first. */
  predicate Less(a: seq<byte>, b: seq<byte>) {
    && b != []
    && (a == [] || a[0] < b[0] || (a[0] == b[0] && Less(a[1..], b[1..])))
  }

  lemma {:induction false} LessTrans(a: seq<byte>, b: seq<byte>, c: seq<byte>)
    requires Less(a, b) && Less(b, c)
    ensures Less(a, c)
  {
    if a != [] && a[0] == b[0] == c[0] {
      LessTrans(a[1..], b[1..], c[1..]);
    }
  }

  /** Exactly one of "before", "equal" and "after" holds. */
  lemma {:induction false} LessTotal(a: seq<byte>, b: seq<byte>)
    ensures Less(a, b) || a == b || Less(b, a)
    ensures !(Less(a, b) && Less(b, a))
    ensures Less(a, b) || Less(b, a) ==> a != b
  {
    if a != [] && b != [] && a[0] == b[0] {
      LessTotal(a[1..], b[1..]);
      assert a == [a[0]] + a[1..] && b == [b[0]] + b[1..];
    }
  }

  /** A common prefix does not matter. */
  lemma {:induction false} LessAfterPrefix(p: seq<byte>, a: seq<byte>, b: seq<byte>)
    ensures Less(p + a, p + b) <==> Less(a, b)
  {
    if p == [] {
      assert p + a == a && p + b == b;
    } else {
      LessAfterPrefix(p[1..], a, b);
      assert (p + a)[1..] == p[1..] + a && (p + b)[1..] == p[1..] + b;
    }
  }

  /** The comparison of node.go: -1, 0 or 1, by the first byte that differs and then by length. */
  method Compare(a: seq<byte>, b: seq<byte>) returns (r: int)
    ensures r == -1 || r == 0 || r == 1
    ensures r < 0 <==> Less(a, b)
    ensures r == 0 <==> a == b
    ensures r > 0 <==> Less(b, a)
  {
    LessTotal(a, b);
    var minLen := |a|;
    if |b| < minLen {
      minLen := |b|;
    }
    var i := 0;
    while i < minLen
      invariant 0 <= i <= minLen
      invariant a[..i] == b[..i]
    {
      if a[i] != b[i] {
        DecidedAt(a, b, i);
        DecidedAt(b, a, i);
        return if a[i] < b[i] then -1 else 1;
      }
      i := i + 1;
    }
    if |a| < |b| {
      PrefixIsLess(a, b);
      return -1;
    }
    if |a| > |b| {
      PrefixIsLess(b, a);
      return 1;
    }
    assert a == a[..i] && b == b[..i];
    return 0;
  }

  lemma {:induction false} DecidedAt(a: seq<byte>, b: seq<byte>, i: nat)
    requires i < |a| && i < |b| && a[..i] == b[..i]
    requires a[i] != b[i]
    ensures Less(a, b) <==> a[i] < b[i]
  {
    if i > 0 {
      assert a[0] == a[..i][0] && b[0] == b[..i][0];
      assert a[1..][..i - 1] == a[..i][1..] && b[1..][..i - 1] == b[..i][1..];
      DecidedAt(a[1..], b[1..], i - 1);
    }
  }

  lemma {:induction false} PrefixIsLess(a: seq<byte>, b: seq<byte>)
    requires |a| < |b| && b[..|a|] == a
    ensures Less(a, b)
  {
    if a != [] {
      assert a[0] == b[..|a|][0];
      assert b[1..][..|a| - 1] == a[1..];
      PrefixIsLess(a[1..], b[1..]);
    }
  }
}
