/** Byte sizes of nodes and the choice of the split point, over the sizes of the packed entries. */
module NodeSize {

  const HEADER: nat := 4
  const PAGE_SIZE: nat := 4096

  function Sum(s: seq<nat>): nat {
    if s == [] then 0 else Sum(s[..|s| - 1]) + s[|s| - 1]
  }

  /** Header, one 8-byte pointer and one 2-byte offset per entry, and the packed entries. */
  function Total(s: seq<nat>): nat {
    HEADER + 10 * |s| + Sum(s)
  }

  /** The loop of nodeSplit2: entries go left until the left half would exceed `half`. */
  function SplitFrom(s: seq<nat>, half: nat, i: nat, accum: nat): nat
    requires i <= |s|
    decreases |s| - i
  {
    if i == |s| then i
    else if accum + s[i] > half && i > 0 then i
    else SplitFrom(s, half, i + 1, accum + s[i])
  }

  function SplitIdx(s: seq<nat>): nat {
    SplitFrom(s, Total(s) / 2, 0, 0)
  }

  lemma {:induction false} SumConcat(a: seq<nat>, b: seq<nat>)
    ensures Sum(a + b) == Sum(a) + Sum(b)
  {
    if b == [] {
      assert a + b == a;
    } else {
      SumConcat(a, b[..|b| - 1]);
      assert (a + b)[..|a + b| - 1] == a + b[..|b| - 1];
    }
  }

  lemma SumOne(x: nat)
    ensures Sum([x]) == x
  {
    assert [x][..0] == [];
  }

  lemma Sum2(a: nat, b: nat)
    ensures Sum([a, b]) == a + b
  {
    SumConcat([a], [b]);
    SumOne(a);
    SumOne(b);
    assert [a] + [b] == [a, b];
  }

  lemma SumSplit(s: seq<nat>, i: nat)
    requires i <= |s|
    ensures Sum(s) == Sum(s[..i]) + Sum(s[i..])
  {
    SumConcat(s[..i], s[i..]);
    assert s == s[..i] + s[i..];
  }

  lemma SumStep(s: seq<nat>, i: nat)
    requires i < |s|
    ensures Sum(s[..i + 1]) == Sum(s[..i]) + s[i]
  {
    assert s[..i + 1][..i] == s[..i];
  }

  lemma {:induction false} SplitFromPoint(s: seq<nat>, half: nat, i: nat, accum: nat)
    requires i <= |s| && accum == Sum(s[..i])
    requires i <= 1 || accum <= half
    ensures var r := SplitFrom(s, half, i, accum);
            && i <= r <= |s|
            && (s != [] ==> r >= 1)
            && (r <= 1 || Sum(s[..r]) <= half)
            && (r < |s| ==> Sum(s[..r + 1]) > half)
    decreases |s| - i
  {
    if i < |s| {
      SumStep(s, i);
      if !(accum + s[i] > half && i > 0) {
        SplitFromPoint(s, half, i + 1, accum + s[i]);
      }
    }
  }

  /** Where the split falls: the longest non-empty prefix whose packed entries take at most half of all bytes. */
  lemma SplitPoint(s: seq<nat>)
    requires s != []
    ensures 1 <= SplitIdx(s) <= |s|
    ensures SplitIdx(s) == 1 || Sum(s[..SplitIdx(s)]) <= Total(s) / 2
    ensures SplitIdx(s) < |s| ==> Sum(s[..SplitIdx(s) + 1]) > Total(s) / 2
  {
    SplitFromPoint(s, Total(s) / 2, 0, 0);
  }

  /** Entries so small that the per-entry overhead alone is half of the node. */
  predicate AllOverhead(s: seq<nat>) {
    |s| <= 1 || Sum(s) <= HEADER + 10 * |s|
  }

  /** The right half of a split is empty exactly when the entries are mostly overhead. */
  lemma RightHalfEmptyIff(s: seq<nat>)
    requires s != []
    ensures SplitIdx(s) == |s| <==> AllOverhead(s)
  {
    SplitPoint(s);
    assert s[..|s|] == s;
    if SplitIdx(s) < |s| {
      SumSplit(s, SplitIdx(s) + 1);
    }
  }

  lemma {:induction false} SumBounds(s: seq<nat>, lo: nat, hi: nat)
    requires forall i :: 0 <= i < |s| ==> lo <= s[i] <= hi
    ensures lo * |s| <= Sum(s) <= hi * |s|
  {
    if s != [] {
      var n := |s| - 1;
      SumBounds(s[..n], lo, hi);
      assert lo * |s| == lo * n + lo && hi * |s| == hi * n + hi;
    }
  }
}
