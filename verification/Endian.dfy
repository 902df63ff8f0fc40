/** Fixed-width integers as bytes, little- and big-endian, and patches of byte strings. */
module Endian {
  import opened Bytes

  function Pow256(k: nat): (p: nat)
    ensures p > 0
  {
    if k == 0 then 1 else 256 * Pow256(k - 1)
  }

  /** Widths of the fixed-size integers, in bytes. */
  const W16: nat := 2
  const W32: nat := 4
  const W64: nat := 8

  const MAX16: nat := 0x1_0000
  const MAX32: nat := 0x1_0000_0000
  const MAX64: nat := 0x1_0000_0000_0000_0000

  lemma Widths()
    ensures Pow256(W16) == MAX16 && Pow256(W32) == MAX32 && Pow256(W64) == MAX64
  {
    assert Pow256(4) == 256 * Pow256(3) && Pow256(3) == 256 * Pow256(2) && Pow256(2) == 256 * Pow256(1);
    assert Pow256(8) == 256 * Pow256(7) && Pow256(7) == 256 * Pow256(6) && Pow256(6) == 256 * Pow256(5);
    assert Pow256(5) == 256 * Pow256(4);
  }

  /** Base-256 digit `i` of `n`, counted from the least significant. */
  function Digit(n: nat, i: nat): byte
    decreases i
  {
    if i == 0 then n % 256 else Digit(n / 256, i - 1)
  }

  /** The low `k` bytes of `n`, least significant first. */
  function ToLE(n: nat, k: nat): (r: seq<byte>)
    ensures |r| == k
  {
    seq(k, i requires 0 <= i < k => Digit(n, i))
  }

  function FromLE(s: seq<byte>): nat {
    if s == [] then 0 else s[0] + 256 * FromLE(s[1..])
  }

  lemma {:induction false} LERoundTrip(n: nat, k: nat)
    requires n < Pow256(k)
    ensures FromLE(ToLE(n, k)) == n
    decreases k
  {
    if k > 0 {
      assert n / 256 < Pow256(k - 1);
      LERoundTrip(n / 256, k - 1);
      assert ToLE(n, k)[1..] == ToLE(n / 256, k - 1);
    }
  }

  lemma LE16RoundTrip(n: nat)
    requires n < MAX16
    ensures FromLE(ToLE(n, W16)) == n
  {
    Widths();
    LERoundTrip(n, W16);
  }

  lemma LE64RoundTrip(n: nat)
    requires n < MAX64
    ensures FromLE(ToLE(n, W64)) == n
  {
    Widths();
    LERoundTrip(n, W64);
  }

  // ---------------------------------------------------------------------------------------
  // Little-endian words, byte by byte.
  // ---------------------------------------------------------------------------------------

  /** The two bytes at a position, the lower one first. */
  function At16(b: seq<byte>, p: nat): nat
    requires p + 2 <= |b|
  {
    b[p] as int + 256 * b[p + 1] as int
  }

  /** The four bytes at a position, the lowest one first. */
  function At32(b: seq<byte>, p: nat): nat
    requires p + 4 <= |b|
  {
    At16(b, p) + 0x1_0000 * At16(b, p + 2)
  }

  /** The eight bytes at a position, the lowest one first. */
  function At64(b: seq<byte>, p: nat): nat
    requires p + 8 <= |b|
  {
    At32(b, p) + 0x1_0000_0000 * At32(b, p + 4)
  }

  lemma Split16(s: seq<byte>)
    requires |s| >= 2
    ensures FromLE(s) == s[0] as int + 256 * s[1] as int + 0x1_0000 * FromLE(s[2..])
  {
    assert s[1..][1..] == s[2..];
    assert FromLE(s[1..]) == s[1] as int + 256 * FromLE(s[2..]);
  }

  lemma Read16(b: seq<byte>, p: nat)
    requires p + 2 <= |b|
    ensures FromLE(b[p..p + 2]) == At16(b, p)
  {
    Split16(b[p..p + 2]);
  }

  lemma {:induction false} ReadFrom(b: seq<byte>, p: nat, end: nat)
    requires p + 2 <= end <= |b|
    ensures FromLE(b[p..end]) == At16(b, p) + 0x1_0000 * FromLE(b[p + 2..end])
  {
    var s := b[p..end];
    Split16(s);
    assert s[2..] == b[p + 2..end];
  }

  lemma Read32(b: seq<byte>, p: nat)
    requires p + 4 <= |b|
    ensures FromLE(b[p..p + 4]) == At32(b, p)
  {
    ReadFrom(b, p, p + 4);
    Read16(b, p + 2);
  }

  lemma Read64(b: seq<byte>, p: nat)
    requires p + 8 <= |b|
    ensures FromLE(b[p..p + 8]) == At64(b, p)
  {
    ReadFrom(b, p, p + 8);
    ReadFrom(b, p + 2, p + 8);
    Read32(b, p + 4);
  }

  /** The low `k` bytes of `n`, most significant first. */
  function ToBE(n: nat, k: nat): (r: seq<byte>)
    ensures |r| == k
  {
    seq(k, i requires 0 <= i < k => Digit(n, k - 1 - i))
  }

  function FromBE(s: seq<byte>): nat {
    if s == [] then 0 else 256 * FromBE(s[..|s| - 1]) + s[|s| - 1]
  }

  lemma {:induction false} BERoundTrip(n: nat, k: nat)
    requires n < Pow256(k)
    ensures FromBE(ToBE(n, k)) == n
    decreases k
  {
    if k > 0 {
      assert n / 256 < Pow256(k - 1);
      BERoundTrip(n / 256, k - 1);
      ToBELast(n, k);
      assert ToBE(n, k)[..k - 1] == ToBE(n / 256, k - 1);
    }
  }

  /** Equally long strings decide the comparison before what follows them. */
  lemma {:induction false} LessFixed(s: seq<byte>, t: seq<byte>, x: seq<byte>, y: seq<byte>)
    requires |s| == |t|
    ensures Less(s + x, t + y) <==> Less(s, t) || (s == t && Less(x, y))
  {
    if s == [] {
      assert s + x == x && t + y == y;
    } else {
      LessFixed(s[1..], t[1..], x, y);
      assert (s + x)[1..] == s[1..] + x && (t + y)[1..] == t[1..] + y;
      assert s == [s[0]] + s[1..] && t == [t[0]] + t[1..];
      LessTotal(s, s);
    }
  }

  lemma ToBELast(n: nat, k: nat)
    requires k > 0
    ensures ToBE(n, k) == ToBE(n / 256, k - 1) + [n % 256]
  {
    var r, q := ToBE(n, k), ToBE(n / 256, k - 1);
    forall i | 0 <= i < k - 1 ensures r[i] == q[i] {
      assert r[i] == Digit(n, k - 1 - i) && q[i] == Digit(n / 256, k - 2 - i);
    }
    assert r[k - 1] == Digit(n, 0);
  }

  /** Big-endian images are ordered like the numbers. */
  lemma {:induction false} BEOrder(n: nat, m: nat, k: nat)
    requires n < Pow256(k) && m < Pow256(k)
    ensures Less(ToBE(n, k), ToBE(m, k)) <==> n < m
    ensures ToBE(n, k) == ToBE(m, k) <==> n == m
    decreases k
  {
    if k > 0 {
      assert n / 256 < Pow256(k - 1) && m / 256 < Pow256(k - 1);
      BEOrder(n / 256, m / 256, k - 1);
      ToBELast(n, k);
      ToBELast(m, k);
      LessFixed(ToBE(n / 256, k - 1), ToBE(m / 256, k - 1), [n % 256], [m % 256]);
      BERoundTrip(n, k);
      BERoundTrip(m, k);
    }
  }

  /** `b` with the bytes from `pos` on overwritten by `s`. */
  function Patch(b: seq<byte>, pos: nat, s: seq<byte>): (r: seq<byte>)
    requires pos + |s| <= |b|
    ensures |r| == |b|
    ensures forall j :: 0 <= j < |b| ==> r[j] == if pos <= j < pos + |s| then s[j - pos] else b[j]
  {
    b[..pos] + s + b[pos + |s|..]
  }

  lemma PatchTwice(b: seq<byte>, pos: nat, s: seq<byte>, t: seq<byte>)
    requires pos + |s| + |t| <= |b|
    ensures Patch(Patch(b, pos, s), pos + |s|, t) == Patch(b, pos, s + t)
  {
  }

  lemma PatchHit(b: seq<byte>, pos: nat, s: seq<byte>)
    requires pos + |s| <= |b|
    ensures Patch(b, pos, s)[pos..pos + |s|] == s
  {
  }

  lemma PatchMiss(b: seq<byte>, pos: nat, s: seq<byte>, lo: nat, hi: nat)
    requires pos + |s| <= |b| && lo <= hi <= |b|
    requires hi <= pos || pos + |s| <= lo
    ensures Patch(b, pos, s)[lo..hi] == b[lo..hi]
  {
  }

  lemma SubSlice(b: seq<byte>, lo: nat, hi: nat, x: nat, y: nat)
    requires lo <= hi <= |b| && x <= y <= hi - lo
    ensures b[lo..hi][x..y] == b[lo + x..lo + y]
  {
    var s := b[lo..hi];
    assert forall i :: x <= i < y ==> s[i] == b[lo + i];
    assert forall i :: 0 <= i < y - x ==> s[x..y][i] == b[lo + x..lo + y][i];
  }

  /** The store operation of binary.PutUint and of copy. */
  method Put(a: array<byte>, pos: nat, s: seq<byte>)
    requires pos + |s| <= a.Length
    modifies a
    ensures a[..] == Patch(old(a[..]), pos, s)
  {
    forall i | 0 <= i < |s| {
      a[pos + i] := s[i];
    }
  }
}
