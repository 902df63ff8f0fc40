/**
 What the iterator's stack of nodes and positions stands for, and what one step of Next makes
 of it. Next appends to the stack where it should overwrite, so on trees with more than two
 levels nodes that are already done stay between the live ones. The entry that the iterator
 shows is nevertheless right until it moves to a sibling leaf that is not the last on the stack;
 then it shows the same entry again. `YieldsIff` says exactly when that happens.
 */
module IterFrames {
  import opened Basics
  import opened Bytes
  import opened NodeSize
  import opened Trees

  /** A node of height `h` on the stack with its position. */
  datatype Frame = Frame(t: Tree, h: nat, pos: nat)

  predicate More(f: Frame) {
    f.pos + 1 < Count(f.t)
  }

  ghost predicate Sane(f: Frame) {
    Uniform(f.t, f.h) && Full(f.t) && f.pos < Count(f.t)
  }

  ghost predicate AllSane(fs: seq<Frame>) {
    forall i :: 0 <= i < |fs| ==> Sane(fs[i])
  }

  /** The top of the stack is at an entry of a leaf. */
  ghost predicate OnEntry(fs: seq<Frame>) {
    fs != [] && var f := fs[|fs| - 1]; f.t.Leaf? && f.pos < |f.t.kvs|
  }

  ghost predicate WellFormed(fs: seq<Frame>) {
    OnEntry(fs) && fs[|fs| - 1].h == 0 && AllSane(fs)
  }

  /** The entry that the iterator shows. */
  ghost function Here(fs: seq<Frame>): KV
    requires OnEntry(fs)
  {
    var f := fs[|fs| - 1];
    f.t.kvs[f.pos]
  }

  /** What a node holds beyond its position. */
  ghost function Left(f: Frame): seq<KV> {
    if !More(f) then [] else if f.t.Leaf? then f.t.kvs[f.pos + 1..] else FlatAll(f.t.kids[f.pos + 1..])
  }

  /** What the stack holds beyond the entry shown, the deepest node first. */
  ghost function Pending(fs: seq<Frame>): seq<KV> {
    if fs == [] then [] else Pending(fs[1..]) + Left(fs[0])
  }

  ghost function Remaining(fs: seq<Frame>): seq<KV>
    requires OnEntry(fs)
  {
    [Here(fs)] + Pending(fs)
  }

  /** The nodes below `t` on the way to its first leaf. */
  ghost function Chain(t: Tree, h: nat): seq<Frame> {
    if h == 0 || Count(t) == 0 || t.Leaf? then [] else [Frame(t.kids[0], h - 1, 0)] + Chain(t.kids[0], h - 1)
  }

  /** The deepest of the first `n` nodes that has more, or -1. */
  ghost function Deepest(fs: seq<Frame>, n: nat): (l: int)
    requires n <= |fs|
    ensures -1 <= l < n && (l >= 0 ==> More(fs[l])) && forall i :: l < i < n ==> !More(fs[i])
  {
    if n == 0 then -1 else if More(fs[n - 1]) then n - 1 else Deepest(fs, n - 1)
  }

  ghost function NextKid(f: Frame): Frame
    requires f.t.Inner? && f.h > 0 && More(f)
  {
    Frame(f.t.kids[f.pos + 1], f.h - 1, 0)
  }

  /** The step to the next child of node `l`: it replaces the node below, its first descendants go on top. */
  ghost function Cross(fs: seq<Frame>, l: nat): seq<Frame>
    requires l + 1 < |fs| && fs[l].t.Inner? && fs[l].h > 0 && More(fs[l])
  {
    var kid := NextKid(fs[l]);
    fs[..l] + [fs[l].(pos := fs[l].pos + 1), kid] + fs[l + 2..] + Chain(kid.t, kid.h)
  }

  /** Next: the stack after it, empty at the end; None when a leaf's entry would be followed as a child. */
  ghost function Advance(fs: seq<Frame>): (r: Option<seq<Frame>>)
    requires WellFormed(fs)
    ensures r.Some? && r.value != [] ==> WellFormed(r.value)
  {
    var last := |fs| - 1;
    var l := Deepest(fs, |fs|);
    if l < 0 then Some([])
    else if l == last then Some(fs[last := fs[last].(pos := fs[last].pos + 1)])
    else if fs[l].h == 0 then None
    else
      CrossWellFormed(fs, l);
      Some(Cross(fs, l))
  }

  /** The iterator shows exactly these entries, one per step, and then becomes invalid. */
  ghost predicate Yields(fs: seq<Frame>, out: seq<KV>)
    requires fs != [] ==> WellFormed(fs)
    decreases |out|
  {
    if fs == [] then out == []
    else
      && out != [] && Here(fs) == out[0]
      && Advance(fs).Some? && Yields(Advance(fs).value, out[1..])
  }

  lemma HeadAndTail<T>(s: seq<T>, i: nat)
    requires i < |s|
    ensures s[i..] != [] && s[i..][0] == s[i] && s[i..][1..] == s[i + 1..]
  {
  }

  lemma {:induction false} ChainSane(t: Tree, h: nat)
    requires Uniform(t, h) && Full(t)
    ensures AllSane(Chain(t, h)) && |Chain(t, h)| == h
    ensures h > 0 ==> Chain(t, h)[h - 1].h == 0
    ensures forall i :: 0 <= i < h ==> Chain(t, h)[i].h == h - 1 - i
  {
    if h > 0 {
      ChainSane(t.kids[0], h - 1);
    }
  }

  lemma CrossWellFormed(fs: seq<Frame>, l: nat)
    requires WellFormed(fs) && l + 1 < |fs| && fs[l].h > 0 && More(fs[l])
    ensures WellFormed(Cross(fs, l))
  {
    var kid := NextKid(fs[l]);
    ChainSane(kid.t, kid.h);
  }

  lemma {:induction false} PendingConcat(a: seq<Frame>, b: seq<Frame>)
    ensures Pending(a + b) == Pending(b) + Pending(a)
  {
    if a == [] {
      assert a + b == b;
    } else {
      TailOfConcat(a, b);
      calc {
        Pending(a + b);
        Pending(a[1..] + b) + Left(a[0]);
        { PendingConcat(a[1..], b); }
        Pending(b) + Pending(a[1..]) + Left(a[0]);
        { Assoc(Pending(b), Pending(a[1..]), Left(a[0])); }
        Pending(b) + Pending(a);
      }
    }
  }

  lemma {:induction false} PendingDone(fs: seq<Frame>)
    requires forall i :: 0 <= i < |fs| ==> !More(fs[i])
    ensures Pending(fs) == []
  {
    if fs != [] {
      PendingDone(fs[1..]);
    }
  }

  lemma PendingOne(f: Frame)
    ensures Pending([f]) == Left(f)
  {
    assert [f][1..] == [];
  }

  /** A node entered at its first leaf has all its entries in front of it. */
  lemma {:induction false} ChainFlat(t: Tree, h: nat)
    requires Uniform(t, h) && Full(t)
    ensures var fs := [Frame(t, h, 0)] + Chain(t, h);
            WellFormed(fs) && Remaining(fs) == Flat(t)
  {
    var fs := [Frame(t, h, 0)] + Chain(t, h);
    ChainSane(t, h);
    assert fs[1..] == Chain(t, h);
    if h > 0 {
      ChainFlat(t.kids[0], h - 1);
      assert Here(fs) == Here(Chain(t, h));
      Assoc([Here(fs)], Pending(Chain(t, h)), Left(fs[0]));
      assert Left(fs[0]) == FlatAll(t.kids[1..]);
    } else {
      PendingOne(fs[0]);
    }
  }

  /** The parts of the stack around the node that has more. */
  lemma PendingAt(fs: seq<Frame>, l: nat)
    requires l < |fs| && forall i :: l < i < |fs| ==> !More(fs[i])
    ensures Pending(fs) == Left(fs[l]) + Pending(fs[..l])
  {
    Around(fs, l);
    PendingConcat(fs[..l] + [fs[l]], fs[l + 1..]);
    PendingConcat(fs[..l], [fs[l]]);
    PendingOne(fs[l]);
    PendingDone(fs[l + 1..]);
  }

  /** Moving one on within a node. */
  lemma LeftStep(f: Frame)
    requires More(f)
    ensures f.t.Leaf? ==> Left(f) == [f.t.kvs[f.pos + 1]] + Left(f.(pos := f.pos + 1))
    ensures f.t.Inner? ==> Left(f) == Flat(f.t.kids[f.pos + 1]) + Left(f.(pos := f.pos + 1))
  {
    if f.t.Inner? {
      HeadAndTail(f.t.kids, f.pos + 1);
      assert Left(f.(pos := f.pos + 1)) == FlatAll(f.t.kids[f.pos + 2..]);
    }
  }

  lemma StepInLeaf(fs: seq<Frame>)
    requires OnEntry(fs) && More(fs[|fs| - 1])
    ensures var last := |fs| - 1;
            var r := fs[last := fs[last].(pos := fs[last].pos + 1)];
            OnEntry(r) && Remaining(r) == Pending(fs)
  {
    var last := |fs| - 1;
    var r := fs[last := fs[last].(pos := fs[last].pos + 1)];
    assert r[..last] == fs[..last];
    calc {
      Remaining(r);
      { PendingAt(r, last); }
      [Here(r)] + (Left(r[last]) + Pending(fs[..last]));
      { Assoc([Here(r)], Left(r[last]), Pending(fs[..last])); LeftStep(fs[last]); }
      Left(fs[last]) + Pending(fs[..last]);
      { PendingAt(fs, last); }
      Pending(fs);
    }
  }

  /** What lies beyond the next child of node `l`. */
  ghost function Beyond(fs: seq<Frame>, l: nat): seq<KV>
    requires l < |fs|
  {
    Left(fs[l].(pos := fs[l].pos + 1)) + Pending(fs[..l])
  }

  lemma PendingBeyond(fs: seq<Frame>, l: nat)
    requires l < |fs| && fs[l].t.Inner? && More(fs[l]) && forall i :: l < i < |fs| ==> !More(fs[i])
    ensures Pending(fs) == Flat(fs[l].t.kids[fs[l].pos + 1]) + Beyond(fs, l)
  {
    var f := fs[l];
    PendingAt(fs, l);
    LeftStep(f);
    Assoc(Flat(f.t.kids[f.pos + 1]), Left(f.(pos := f.pos + 1)), Pending(fs[..l]));
  }

  /** What the stack holds after a step to the next child. */
  lemma CrossPending(fs: seq<Frame>, l: nat)
    requires l + 1 < |fs| && fs[l].t.Inner? && fs[l].h > 0 && More(fs[l])
    requires forall i :: l < i < |fs| ==> !More(fs[i])
    ensures var kid := NextKid(fs[l]);
            Pending(Cross(fs, l)) == Pending([kid] + Chain(kid.t, kid.h)) + Beyond(fs, l)
  {
    var f := fs[l].(pos := fs[l].pos + 1);
    var kid := NextKid(fs[l]);
    var c, s, a := Chain(kid.t, kid.h), fs[l + 2..], fs[..l];
    assert Cross(fs, l) == a + ([f] + ([kid] + (s + c)));
    PendingDone(s);
    PendingMid(kid, s, c);
    PendingFront(a, f, [kid] + (s + c));
  }

  lemma PendingMid(kid: Frame, s: seq<Frame>, c: seq<Frame>)
    requires Pending(s) == []
    ensures Pending([kid] + (s + c)) == Pending([kid] + c)
  {
    PendingConcat([kid], s + c);
    PendingConcat(s, c);
    PendingConcat([kid], c);
  }

  lemma PendingFront(a: seq<Frame>, f: Frame, b: seq<Frame>)
    ensures Pending(a + ([f] + b)) == Pending(b) + (Left(f) + Pending(a))
  {
    PendingConcat(a, [f] + b);
    PendingConcat([f], b);
    PendingOne(f);
    Assoc(Pending(b), Left(f), Pending(a));
  }

  /** A step to another child is right unless a leaf is put below the top of the stack. */
  lemma StepAcross(fs: seq<Frame>, l: nat)
    requires OnEntry(fs) && l + 1 < |fs| && fs[l].t.Inner? && fs[l].h > 0 && More(fs[l])
    requires Sane(NextKid(fs[l])) && forall i :: l < i < |fs| ==> !More(fs[i])
    requires fs[l].h > 1 || l + 2 == |fs|
    ensures OnEntry(Cross(fs, l)) && Remaining(Cross(fs, l)) == Pending(fs)
  {
    CrossHere(fs, l);
    CrossSum(fs, l, Here(Cross(fs, l)));
  }

  lemma CrossSum(fs: seq<Frame>, l: nat, x: KV)
    requires l + 1 < |fs| && fs[l].t.Inner? && fs[l].h > 0 && More(fs[l])
    requires forall i :: l < i < |fs| ==> !More(fs[i])
    requires var kid := NextKid(fs[l]);
             [x] + Pending([kid] + Chain(kid.t, kid.h)) == Flat(kid.t)
    ensures [x] + Pending(Cross(fs, l)) == Pending(fs)
  {
    var kid := NextKid(fs[l]);
    CrossPending(fs, l);
    PendingBeyond(fs, l);
    Assoc([x], Pending([kid] + Chain(kid.t, kid.h)), Beyond(fs, l));
  }

  lemma CrossHere(fs: seq<Frame>, l: nat)
    requires OnEntry(fs) && l + 1 < |fs| && fs[l].t.Inner? && fs[l].h > 0 && More(fs[l])
    requires Sane(NextKid(fs[l])) && (fs[l].h > 1 || l + 2 == |fs|)
    ensures var kid := NextKid(fs[l]);
            var c := [kid] + Chain(kid.t, kid.h);
            OnEntry(Cross(fs, l)) && OnEntry(c) && Here(Cross(fs, l)) == Here(c) && Remaining(c) == Flat(kid.t)
  {
    var kid := NextKid(fs[l]);
    ChainFlat(kid.t, kid.h);
    ChainSane(kid.t, kid.h);
    var c := Chain(kid.t, kid.h);
    assert c == [] ==> Cross(fs, l)[l + 1] == kid;
  }

  /** A leaf put below the top of the stack leaves the entry shown as it was. */
  lemma StepStuck(fs: seq<Frame>, l: nat)
    requires WellFormed(fs) && l + 2 < |fs| && fs[l].h == 1 && More(fs[l])
    ensures WellFormed(Cross(fs, l)) && Here(Cross(fs, l)) == Here(fs)
  {
    CrossWellFormed(fs, l);
  }

  // ---------------------------------------------------------------------------------------
  // When no leaf is ever put below the top.
  // ---------------------------------------------------------------------------------------

  /** Done leaves may lie below the top; a node of height h has h nodes above it. */
  ghost predicate FrameOrder(f: Frame, i: nat, last: nat) {
    Sane(f) && i + f.h <= last && (f.h == 0 && i < last ==> !More(f))
  }

  ghost predicate AllOrder(fs: seq<Frame>, off: nat, last: nat) {
    forall i :: 0 <= i < |fs| ==> FrameOrder(fs[i], off + i, last)
  }

  ghost predicate Orderly(fs: seq<Frame>) {
    WellFormed(fs) && AllOrder(fs, 0, |fs| - 1)
  }

  /** In every node of height two, all children but the first have a single leaf. */
  ghost predicate Tame(t: Tree, h: nat) {
    t.Inner? && h >= 2 ==>
      forall j :: 0 <= j < |t.kids| ==> Tame(t.kids[j], h - 1) && (h == 2 && j > 0 ==> Count(t.kids[j]) == 1)
  }

  /** The children that the iterator has yet to enter through this node leave it right. */
  ghost predicate FrameTidy(f: Frame, i: nat, last: nat)
    requires Sane(f)
  {
    if f.h == 0 then true
    else if f.h == 1 then i + 1 == last || !More(f)
    else forall j :: f.pos < j < |f.t.kids| ==> Tame(f.t.kids[j], f.h - 1) && (f.h == 2 ==> Count(f.t.kids[j]) == 1)
  }

  ghost predicate AllTidy(fs: seq<Frame>, off: nat, last: nat)
    requires AllSane(fs)
  {
    forall i :: 0 <= i < |fs| ==> FrameTidy(fs[i], off + i, last)
  }

  ghost predicate Tidy(fs: seq<Frame>)
    requires WellFormed(fs)
  {
    AllTidy(fs, 0, |fs| - 1)
  }

  lemma OrderConcat(a: seq<Frame>, b: seq<Frame>, off: nat, last: nat)
    ensures AllOrder(a + b, off, last) <==> AllOrder(a, off, last) && AllOrder(b, off + |a|, last)
  {
    var c := a + b;
    if AllOrder(c, off, last) {
      forall i | 0 <= i < |a| ensures FrameOrder(a[i], off + i, last) { assert c[i] == a[i]; }
      forall i | 0 <= i < |b| ensures FrameOrder(b[i], off + |a| + i, last) { assert c[|a| + i] == b[i]; }
    }
  }

  lemma TidyConcat(a: seq<Frame>, b: seq<Frame>, off: nat, last: nat)
    requires AllSane(a) && AllSane(b)
    ensures AllSane(a + b)
    ensures AllTidy(a + b, off, last) <==> AllTidy(a, off, last) && AllTidy(b, off + |a|, last)
  {
    var c := a + b;
    if AllTidy(c, off, last) {
      forall i | 0 <= i < |a| ensures FrameTidy(a[i], off + i, last) { assert c[i] == a[i]; }
      forall i | 0 <= i < |b| ensures FrameTidy(b[i], off + |a| + i, last) { assert c[|a| + i] == b[i]; }
    }
  }

  // Single steps in terms of order and tidiness.

  lemma DoneTidy(fs: seq<Frame>, off: nat, last: nat)
    requires AllSane(fs) && forall i :: 0 <= i < |fs| ==> !More(fs[i])
    ensures AllTidy(fs, off, last)
  {
  }

  /** A node entered along its first children is tidy exactly when it is tame. */
  lemma {:induction false} ChainTidy(t: Tree, h: nat, off: nat, last: nat)
    requires Uniform(t, h) && Full(t) && h >= 2 && off + h == last
    ensures AllSane([Frame(t, h, 0)] + Chain(t, h))
    ensures AllTidy([Frame(t, h, 0)] + Chain(t, h), off, last) <==> Tame(t, h)
  {
    var f, c := Frame(t, h, 0), Chain(t, h);
    ChainSane(t, h);
    TidyConcat([f], c, off, last);
    FirstTidy(t, h, off, last);
    if h > 2 {
      ChainTidy(t.kids[0], h - 1, off + 1, last);
    } else {
      assert c[0] == Frame(t.kids[0], 1, 0);
      assert c[1].h == 0;
    }
  }

  lemma FirstTidy(t: Tree, h: nat, off: nat, last: nat)
    requires Uniform(t, h) && Full(t) && h >= 2
    ensures Sane(Frame(t, h, 0))
    ensures Tame(t, h) <==> AllTidy([Frame(t, h, 0)], off, last) && Tame(t.kids[0], h - 1)
  {
    var f := Frame(t, h, 0);
    assert AllTidy([f], off, last) <==> FrameTidy([f][0], off, last);
  }

  /** Where the next child would be entered. */
  ghost predicate CrossesAt(fs: seq<Frame>, l: nat) {
    && Orderly(fs) && l + 1 < |fs| && fs[l].h > 0 && More(fs[l])
    && forall i :: l < i < |fs| ==> !More(fs[i])
  }

  lemma CrossKid(fs: seq<Frame>, l: nat)
    requires CrossesAt(fs, l)
    ensures fs[l].t.Inner? && Sane(NextKid(fs[l])) && l + fs[l].h + 1 <= |fs|
    ensures var kid := NextKid(fs[l]);
            |Chain(kid.t, kid.h)| == kid.h && |Cross(fs, l)| == |fs| + kid.h
  {
    assert FrameOrder(fs[l], 0 + l, |fs| - 1);
    var kid := NextKid(fs[l]);
    assert Uniform(kid.t, kid.h) && Full(kid.t);
    ChainSane(kid.t, kid.h);
  }

  lemma ChainOrder(t: Tree, h: nat, off: nat, last: nat)
    requires Uniform(t, h) && Full(t) && off + h == last + 1
    ensures AllOrder(Chain(t, h), off, last)
  {
    ChainSane(t, h);
  }

  lemma LaterOrder(fs: seq<Frame>, off: nat, last: nat, last': nat)
    requires AllOrder(fs, off, last) && off + |fs| <= last <= last'
    ensures AllOrder(fs, off, last')
  {
    forall i | 0 <= i < |fs| ensures FrameOrder(fs[i], off + i, last') {
      assert FrameOrder(fs[i], off + i, last);
    }
  }

  lemma DoneOrder(fs: seq<Frame>, off: nat, last: nat, last': nat)
    requires AllOrder(fs, off, last) && last <= last' && forall i :: 0 <= i < |fs| ==> !More(fs[i])
    ensures AllOrder(fs, off, last')
  {
    forall i | 0 <= i < |fs| ensures FrameOrder(fs[i], off + i, last') {
      assert FrameOrder(fs[i], off + i, last);
    }
  }

  /** The stack in five parts: below, the node, its new child, what is done, the child's first descendants. */
  lemma CrossParts(fs: seq<Frame>, l: nat)
    requires CrossesAt(fs, l)
    ensures fs[l].t.Inner? && AllOrder(fs[..l], 0, |fs| - 1) && AllOrder(fs[l + 2..], l + 2, |fs| - 1)
    ensures var kid := NextKid(fs[l]);
            Cross(fs, l) == fs[..l] + ([fs[l].(pos := fs[l].pos + 1)] + ([kid] + (fs[l + 2..] + Chain(kid.t, kid.h))))
  {
    CrossKid(fs, l);
    OrderParts(fs, l, |fs| - 1);
    OrderParts(fs, l + 2, |fs| - 1);
  }

  lemma OrderParts(fs: seq<Frame>, i: nat, last: nat)
    requires i <= |fs| && AllOrder(fs, 0, last)
    ensures AllOrder(fs[..i], 0, last) && AllOrder(fs[i..], i, last)
  {
    OrderConcat(fs[..i], fs[i..], 0, last);
    assert fs[..i] + fs[i..] == fs;
  }

  lemma CrossOrder(fs: seq<Frame>, l: nat)
    requires CrossesAt(fs, l) && (fs[l].h > 1 || l + 2 == |fs|)
    ensures fs[l].t.Inner? && Orderly(Cross(fs, l))
  {
    CrossKid(fs, l);
    CrossParts(fs, l);
    var kid, f := NextKid(fs[l]), fs[l].(pos := fs[l].pos + 1);
    var a, s, c := fs[..l], fs[l + 2..], Chain(kid.t, kid.h);
    var last := |fs| - 1;
    var last' := last + kid.h;
    CrossWellFormed(fs, l);
    LaterOrder(a, 0, last, last');
    DoneOrder(s, l + 2, last, last');
    ChainOrder(kid.t, kid.h, last + 1, last');
    OrderConcat(s, c, l + 2, last');
    OrderConcat([kid], s + c, l + 1, last');
    OrderConcat([f], [kid] + (s + c), l, last');
    OrderConcat(a, [f] + ([kid] + (s + c)), 0, last');
    assert FrameOrder(fs[l], 0 + l, last);
  }

  /** A child about to be entered leaves the iterator right. */
  ghost predicate Enters(t: Tree, h: nat) {
    Tame(t, h) && (h == 1 ==> Count(t) == 1)
  }

  lemma KidTidy(f: Frame, i: nat, last: nat, last': nat)
    requires Sane(f) && f.h > 1 && More(f)
    ensures Sane(f.(pos := f.pos + 1))
    ensures FrameTidy(f, i, last) <==> FrameTidy(f.(pos := f.pos + 1), i, last') && Enters(NextKid(f).t, f.h - 1)
  {
  }

  lemma EntersTidy(kid: Frame, i: nat, last: nat)
    requires Sane(kid) && kid.pos == 0 && kid.h > 0 && i + kid.h <= last
    ensures AllSane(Chain(kid.t, kid.h))
    ensures Enters(kid.t, kid.h)
       <==> AllTidy([kid], i, last + kid.h) && AllTidy(Chain(kid.t, kid.h), last + 1, last + kid.h)
  {
    var c := Chain(kid.t, kid.h);
    ChainSane(kid.t, kid.h);
    assert AllTidy([kid], i, last + kid.h) <==> FrameTidy([kid][0], i, last + kid.h);
    if kid.h > 1 {
      ChainTidy(kid.t, kid.h, last, last + kid.h);
      TidyConcat([kid], c, last, last + kid.h);
      assert AllTidy([kid], last, last + kid.h) <==> FrameTidy([kid][0], last, last + kid.h);
    } else {
      assert c[0].h == 0;
    }
  }

  lemma LowerTidy(fs: seq<Frame>, last: nat, last': nat)
    requires AllSane(fs) && |fs| < last <= last'
    ensures AllTidy(fs, 0, last) <==> AllTidy(fs, 0, last')
  {
    forall i | 0 <= i < |fs| ensures FrameTidy(fs[i], 0 + i, last) <==> FrameTidy(fs[i], 0 + i, last') {
    }
  }

  /** Only the nodes up to the deepest one with more matter. */
  lemma TidyUpTo(fs: seq<Frame>, l: nat)
    requires CrossesAt(fs, l)
    ensures AllSane(fs[..l])
    ensures Tidy(fs) <==> AllTidy(fs[..l], 0, |fs| - 1) && FrameTidy(fs[l], l, |fs| - 1)
  {
    var last := |fs| - 1;
    DoneTidy(fs[l + 1..], l + 1, last);
    Around(fs, l);
    TidyConcat(fs[..l] + [fs[l]], fs[l + 1..], 0, last);
    TidyConcat(fs[..l], [fs[l]], 0, last);
    assert AllTidy([fs[l]], l, last) <==> FrameTidy([fs[l]][0], l, last);
  }

  lemma CrossTidyParts(fs: seq<Frame>, l: nat)
    requires CrossesAt(fs, l)
    ensures fs[l].t.Inner? && WellFormed(Cross(fs, l))
    ensures var kid, f := NextKid(fs[l]), fs[l].(pos := fs[l].pos + 1);
            var last' := |fs| - 1 + kid.h;
            && Sane(kid) && Sane(f) && AllSane(fs[..l]) && AllSane(Chain(kid.t, kid.h))
            && (Tidy(Cross(fs, l))
                <==> && AllTidy(fs[..l], 0, last') && FrameTidy(f, l, last')
                     && AllTidy([kid], l + 1, last') && AllTidy(Chain(kid.t, kid.h), |fs|, last'))
  {
    CrossKid(fs, l);
    CrossParts(fs, l);
    CrossWellFormed(fs, l);
    var kid, f := NextKid(fs[l]), fs[l].(pos := fs[l].pos + 1);
    var a, s, c := fs[..l], fs[l + 2..], Chain(kid.t, kid.h);
    var last' := |fs| - 1 + kid.h;
    ChainSane(kid.t, kid.h);
    FiveTidy(a, f, kid, s, c, last');
  }

  lemma FiveTidy(a: seq<Frame>, f: Frame, kid: Frame, s: seq<Frame>, c: seq<Frame>, last: nat)
    requires AllSane(a) && Sane(f) && Sane(kid) && AllSane(s) && AllSane(c)
    requires forall i :: 0 <= i < |s| ==> !More(s[i])
    ensures var fs := a + ([f] + ([kid] + (s + c)));
            && AllSane(fs)
            && (AllTidy(fs, 0, last)
                <==> && AllTidy(a, 0, last) && FrameTidy(f, |a|, last)
                     && AllTidy([kid], |a| + 1, last) && AllTidy(c, |a| + 2 + |s|, last))
  {
    var l := |a|;
    DoneTidy(s, l + 2, last);
    TidyConcat(s, c, l + 2, last);
    TidyConcat([kid], s + c, l + 1, last);
    TidyConcat([f], [kid] + (s + c), l, last);
    TidyConcat(a, [f] + ([kid] + (s + c)), 0, last);
    assert AllTidy([f], l, last) <==> FrameTidy([f][0], l, last);
  }

  /** A right step keeps tidiness and does not create it. */
  lemma CrossTidy(fs: seq<Frame>, l: nat)
    requires CrossesAt(fs, l) && (fs[l].h > 1 || l + 2 == |fs|)
    ensures fs[l].t.Inner? && WellFormed(Cross(fs, l)) && (Tidy(Cross(fs, l)) <==> Tidy(fs))
  {
    CrossKid(fs, l);
    CrossTidyParts(fs, l);
    TidyUpTo(fs, l);
    var kid := NextKid(fs[l]);
    LowerTidy(fs[..l], |fs| - 1, |fs| - 1 + kid.h);
    if fs[l].h > 1 {
      KidTidy(fs[l], l, |fs| - 1, |fs| - 1 + kid.h);
      EntersTidy(kid, l + 1, |fs| - 1);
    } else {
      DoneTidy(Chain(kid.t, kid.h), |fs|, |fs| - 1 + kid.h);
    }
  }

  lemma LeafStepOrder(fs: seq<Frame>)
    requires Orderly(fs) && More(fs[|fs| - 1])
    ensures var last := |fs| - 1;
            var r := fs[last := fs[last].(pos := fs[last].pos + 1)];
            Orderly(r) && (Tidy(r) <==> Tidy(fs))
  {
    var last := |fs| - 1;
    var r := fs[last := fs[last].(pos := fs[last].pos + 1)];
    forall i | 0 <= i < |fs| ensures FrameOrder(r[i], 0 + i, last) {
      assert FrameOrder(fs[i], 0 + i, last);
    }
    forall i | 0 <= i < |fs| ensures FrameTidy(r[i], 0 + i, last) <==> FrameTidy(fs[i], 0 + i, last) {
      assert i < last ==> r[i] == fs[i];
    }
  }

  /** One step of an orderly iterator: it goes on right, or it shows the same entry again. */
  lemma StepRight(fs: seq<Frame>, l: int)
    requires Orderly(fs) && l == Deepest(fs, |fs|) >= 0
    requires l == |fs| - 1 || fs[l].h > 1 || l + 2 == |fs|
    ensures var r := Advance(fs);
            r.Some? && r.value != [] && Orderly(r.value) && Remaining(r.value) == Pending(fs)
            && (Tidy(r.value) <==> Tidy(fs))
  {
    if l == |fs| - 1 {
      StepInLeaf(fs);
      LeafStepOrder(fs);
    } else {
      assert FrameOrder(fs[l], 0 + l, |fs| - 1);
      assert CrossesAt(fs, l);
      CrossKid(fs, l);
      StepAcross(fs, l);
      CrossOrder(fs, l);
      CrossTidy(fs, l);
    }
  }

  lemma StepWrong(fs: seq<Frame>, l: int)
    requires Orderly(fs) && 0 <= l == Deepest(fs, |fs|) < |fs| - 2 && fs[l].h <= 1
    ensures var r := Advance(fs);
            r.Some? && r.value != [] && Here(r.value) == Here(fs) && !Tidy(fs)
  {
    assert FrameOrder(fs[l], 0 + l, |fs| - 1);
    StepStuck(fs, l);
    assert !FrameTidy(fs[l], 0 + l, |fs| - 1);
  }

  lemma AtEnd(fs: seq<Frame>)
    requires Orderly(fs) && Deepest(fs, |fs|) < 0
    ensures Pending(fs) == [] && Tidy(fs) && Advance(fs) == Some([])
  {
    PendingDone(fs);
    DoneTidy(fs, 0, |fs| - 1);
  }

  /** Exactly the tidy iterators show the remaining entries, in order and each once. */
  lemma {:induction false} YieldsIff(fs: seq<Frame>)
    requires Orderly(fs) && Sorted(Remaining(fs))
    ensures Yields(fs, Remaining(fs)) <==> Tidy(fs)
    decreases |Pending(fs)|
  {
    var l := Deepest(fs, |fs|);
    var out := Remaining(fs);
    assert out[1..] == Pending(fs);
    if l < 0 {
      AtEnd(fs);
    } else if l == |fs| - 1 || fs[l].h > 1 || l + 2 == |fs| {
      StepRight(fs, l);
      SortedParts([Here(fs)], Pending(fs));
      YieldsIff(Advance(fs).value);
    } else {
      StepWrong(fs, l);
      WrongEntry(fs, Advance(fs).value, l);
    }
  }

  /** The entry shown again is not the one that comes next. */
  lemma WrongEntry(fs: seq<Frame>, r: seq<Frame>, l: nat)
    requires WellFormed(fs) && WellFormed(r) && l < |fs| && Sane(fs[l]) && More(fs[l])
    requires forall i :: l < i < |fs| ==> !More(fs[i])
    requires Here(r) == Here(fs) && Sorted(Remaining(fs))
    ensures !Yields(r, Pending(fs))
  {
    var out := Remaining(fs);
    if Pending(fs) != [] {
      LessTotal(out[0].key, out[1].key);
    }
  }

  // ---------------------------------------------------------------------------------------
  // SeekLE.
  // ---------------------------------------------------------------------------------------

  ghost function SeekFrames(t: Tree, h: nat, key: seq<byte>): seq<Frame>
    requires Uniform(t, h) && Full(t)
  {
    var idx := LookupLE(KeysOf(t), key);
    [Frame(t, h, idx)] + if h == 0 then [] else SeekFrames(t.kids[idx], h - 1, key)
  }

  function FlatKeys(s: seq<KV>): seq<seq<byte>> {
    seq(|s|, i requires 0 <= i < |s| => s[i].key)
  }

  lemma {:induction false} SeekSane(t: Tree, h: nat, key: seq<byte>)
    requires Uniform(t, h) && Full(t)
    ensures var fs := SeekFrames(t, h, key);
            WellFormed(fs) && |fs| == h + 1 && forall i :: 0 <= i <= h ==> fs[i].h == h - i
  {
    var idx := LookupLE(KeysOf(t), key);
    if h > 0 {
      var sub := SeekFrames(t.kids[idx], h - 1, key);
      SeekSane(t.kids[idx], h - 1, key);
      PushSane(Frame(t, h, idx), sub);
    }
  }

  lemma PushSane(f: Frame, sub: seq<Frame>)
    requires Sane(f) && WellFormed(sub) && |sub| == f.h && forall i :: 0 <= i < f.h ==> sub[i].h == f.h - 1 - i
    ensures WellFormed([f] + sub) && forall i :: 0 <= i <= f.h ==> ([f] + sub)[i].h == f.h - i
  {
    var fs := [f] + sub;
    assert forall i :: 0 < i < |fs| ==> fs[i] == sub[i - 1];
  }

  lemma SeekOrder(t: Tree, h: nat, key: seq<byte>)
    requires Uniform(t, h) && Full(t)
    ensures Orderly(SeekFrames(t, h, key))
  {
    SeekSane(t, h, key);
  }

  /** The last key that is at most `key`, or the first key, is unique. */
  lemma LookupUnique(keys: seq<seq<byte>>, key: seq<byte>, i: nat)
    requires i < |keys|
    requires (i > 0 ==> !Less(key, keys[i])) && forall j :: i < j < |keys| ==> Less(key, keys[j])
    ensures LookupLE(keys, key) == i
  {
  }

  lemma LookupBetween(a: seq<KV>, b: seq<KV>, c: seq<KV>, key: seq<byte>)
    requires b != [] && Above(c, key) && (a != [] ==> !Less(key, b[0].key))
    ensures LookupLE(FlatKeys(a + b + c), key) == |a| + LookupLE(FlatKeys(b), key)
  {
    var s := a + b + c;
    var k := LookupLE(FlatKeys(b), key);
    assert forall j :: 0 <= j < |b| ==> FlatKeys(s)[|a| + j] == FlatKeys(b)[j];
    assert forall j :: |a| + |b| <= j < |s| ==> FlatKeys(s)[j] == c[j - |a| - |b|].key;
    assert FlatKeys(s)[|a| + k] == b[k].key;
    forall j | |a| + k < j < |s| ensures Less(key, FlatKeys(s)[j]) {
      if j < |a| + |b| {
        assert FlatKeys(s)[j] == FlatKeys(b)[j - |a|];
      }
    }
    LookupUnique(FlatKeys(s), key, |a| + k);
  }

  /** What remains of `s` starts at the greatest key that is at most the target, or at the first key. */
  ghost predicate StartsAt(fs: seq<Frame>, s: seq<KV>, key: seq<byte>) {
    && s != [] && OnEntry(fs)
    && Remaining(fs) == s[LookupLE(FlatKeys(s), key)..]
  }

  /** SeekLE: what remains starts at the greatest key that is at most the target, or at the first key. */
  lemma {:induction false} SeekRemaining(t: Tree, h: nat, key: seq<byte>)
    requires Uniform(t, h) && Full(t) && Sorted(Flat(t))
    ensures StartsAt(SeekFrames(t, h, key), Flat(t), key)
  {
    var idx := LookupLE(KeysOf(t), key);
    if h == 0 {
      assert SeekFrames(t, h, key) == [Frame(t, 0, idx)];
      SeekLeaf(t, key, idx);
    } else {
      ChildRange(t.kids, idx, key);
      var sub := SeekFrames(t.kids[idx], h - 1, key);
      SeekRemaining(t.kids[idx], h - 1, key);
      SeekDown(t, h, key, idx, sub);
    }
  }

  lemma SeekDown(t: Tree, h: nat, key: seq<byte>, idx: nat, sub: seq<Frame>)
    requires t.Inner? && Full(t) && Sorted(Flat(t)) && idx == LookupLE(KeysOf(t), key)
    requires StartsAt(sub, Flat(t.kids[idx]), key)
    ensures StartsAt([Frame(t, h, idx)] + sub, Flat(t), key)
  {
    FoundKid(t, h, key, idx);
    SeekInner(Frame(t, h, idx), sub, FlatAll(t.kids[..idx]), Flat(t.kids[idx]), key);
  }

  lemma SeekInner(f: Frame, sub: seq<Frame>, a: seq<KV>, b: seq<KV>, key: seq<byte>)
    requires StartsAt(sub, b, key) && Above(Left(f), key) && (a != [] ==> !Less(key, b[0].key))
    ensures StartsAt([f] + sub, a + b + Left(f), key)
  {
    var k := LookupLE(FlatKeys(b), key);
    JoinRemaining(f, sub, b[k..]);
    LookupTail(a, b, Left(f), key);
  }

  lemma LookupTail(a: seq<KV>, b: seq<KV>, c: seq<KV>, key: seq<byte>)
    requires b != [] && Above(c, key) && (a != [] ==> !Less(key, b[0].key))
    ensures (a + b + c)[LookupLE(FlatKeys(a + b + c), key)..] == b[LookupLE(FlatKeys(b), key)..] + c
  {
    LookupBetween(a, b, c, key);
    TailJoin(a, b, c, LookupLE(FlatKeys(b), key));
  }

  lemma SeekLeaf(t: Tree, key: seq<byte>, idx: nat)
    requires t.Leaf? && t.kvs != [] && idx == LookupLE(KeysOf(t), key)
    ensures StartsAt([Frame(t, 0, idx)], t.kvs, key)
  {
    assert FlatKeys(t.kvs) == KeysOf(t);
    LeafRemaining(t, idx);
  }

  lemma LeafRemaining(t: Tree, idx: nat)
    requires t.Leaf? && idx < |t.kvs|
    ensures Remaining([Frame(t, 0, idx)]) == t.kvs[idx..]
  {
    var f := Frame(t, 0, idx);
    PendingOne(f);
    assert Left(f) == t.kvs[idx + 1..];
  }

  lemma JoinRemaining(f: Frame, sub: seq<Frame>, rest: seq<KV>)
    requires OnEntry(sub) && Remaining(sub) == rest
    ensures OnEntry([f] + sub) && Remaining([f] + sub) == rest + Left(f)
  {
    assert ([f] + sub)[1..] == sub;
    Assoc([Here(sub)], Pending(sub), Left(f));
  }

  lemma TailJoin(a: seq<KV>, b: seq<KV>, c: seq<KV>, k: nat)
    requires k <= |b|
    ensures (a + b + c)[|a| + k..] == b[k..] + c
  {
  }

  /** The first key of the child found is at most the target, unless it is the first child. */
  lemma FoundKid(t: Tree, h: nat, key: seq<byte>, idx: nat)
    requires t.Inner? && Full(t) && Sorted(Flat(t)) && idx == LookupLE(KeysOf(t), key)
    ensures var a, b, c := FlatAll(t.kids[..idx]), Flat(t.kids[idx]), FlatAll(t.kids[idx + 1..]);
            && Flat(t) == a + b + c && b != [] && Above(c, key) && Sorted(b)
            && (a != [] ==> !Less(key, b[0].key))
            && Left(Frame(t, h, idx)) == c
  {
    ChildRange(t.kids, idx, key);
    FlatAllAround(t.kids, idx);
    FullFirst(t.kids[idx]);
    assert idx == 0 ==> t.kids[..idx] == [];
  }

  /** On trees of at most two levels every iterator is right. */
  lemma ShallowSeekTidy(t: Tree, h: nat, key: seq<byte>)
    requires Uniform(t, h) && Full(t) && h <= 1
    ensures WellFormed(SeekFrames(t, h, key)) && Tidy(SeekFrames(t, h, key))
  {
    SeekSane(t, h, key);
  }

  /** From any key: SeekLE and repeated Next show the rest of the tree if and only if the stack is tidy. */
  lemma ScanIff(t: Tree, h: nat, key: seq<byte>)
    requires Good(t, h)
    ensures var fs := SeekFrames(t, h, key);
            var i := LookupLE(FlatKeys(Flat(t)), key);
            WellFormed(fs) && i < |Flat(t)| && (Yields(fs, Flat(t)[i..]) <==> Tidy(fs))
  {
    SeekOrder(t, h, key);
    SeekRemaining(t, h, key);
    SortedFrom(Flat(t), LookupLE(FlatKeys(Flat(t)), key));
    YieldsIff(SeekFrames(t, h, key));
  }

  lemma SortedFrom(s: seq<KV>, i: nat)
    requires Sorted(s) && i <= |s|
    ensures Sorted(s[i..])
  {
  }

  /** A stack of first positions is tidy exactly when the tree is tame. */
  lemma {:induction false} FirstFrames(t: Tree, h: nat, key: seq<byte>)
    requires Uniform(t, h) && Full(t) && Sorted(Flat(t)) && !Less(FirstKey(t), key)
    ensures SeekFrames(t, h, key) == [Frame(t, h, 0)] + Chain(t, h)
  {
    var idx := LookupLE(KeysOf(t), key);
    LookupFirst(t, key);
    if h > 0 {
      ChildRange(t.kids, idx, key);
      FirstFrames(t.kids[0], h - 1, key);
    }
  }

  lemma LookupFirst(t: Tree, key: seq<byte>)
    requires Full(t) && Sorted(Flat(t)) && !Less(FirstKey(t), key)
    ensures LookupLE(KeysOf(t), key) == 0
  {
    forall j | 0 < j < Count(t) ensures Less(key, KeysOf(t)[j]) {
      KeyAbove(t, j);
      LessTotal(key, FirstKey(t));
      if key != FirstKey(t) {
        LessTrans(key, FirstKey(t), KeysOf(t)[j]);
      }
    }
    LookupUnique(KeysOf(t), key, 0);
  }

  lemma KeyAbove(t: Tree, j: nat)
    requires Full(t) && Sorted(Flat(t)) && 0 < j < Count(t)
    ensures Less(FirstKey(t), KeysOf(t)[j])
  {
    if t.Inner? {
      FullFirst(t.kids[0]);
      FullFirst(t.kids[j]);
      FlatAllAround(t.kids, j);
      FlatAllAround(t.kids[..j], 0);
      assert t.kids[..j][0] == t.kids[0];
      SortedParts(FlatAll(t.kids[..j]) + Flat(t.kids[j]), FlatAll(t.kids[j + 1..]));
      SortedParts(FlatAll(t.kids[..j]), Flat(t.kids[j]));
      assert FlatAll(t.kids[..j])[0] == Flat(t.kids[0])[0];
    }
  }

  /**
   A scan of the whole tree shows every entry, in order and each once, if and only if in every
   node two levels above the leaves all children but the first have a single leaf.
   */
  lemma FullScanIff(t: Tree, h: nat, key: seq<byte>)
    requires Good(t, h) && !Less(FirstKey(t), key)
    ensures WellFormed(SeekFrames(t, h, key))
    ensures Yields(SeekFrames(t, h, key), Flat(t)) <==> Tame(t, h)
  {
    var fs := SeekFrames(t, h, key);
    FirstFrames(t, h, key);
    ChainFlat(t, h);
    SeekOrder(t, h, key);
    YieldsIff(fs);
    if h >= 2 {
      ChainTidy(t, h, 0, h);
      ChainSane(t, h);
    } else {
      ShallowSeekTidy(t, h, key);
    }
  }

  function Single(b: byte): Tree {
    Leaf([KV([b], [])])
  }

  /** Three leaves under two nodes under a root. */
  function ThreeLeaves(): Tree {
    Inner([Inner([Single(1)]), Inner([Single(2), Single(3)])])
  }

  lemma ThreeLeavesFlat()
    ensures Flat(ThreeLeaves()) == [KV([1], []), KV([2], []), KV([3], [])]
  {
    var a, b := Inner([Single(1)]), Inner([Single(2), Single(3)]);
    FlatAllConcat([Single(2)], [Single(3)]);
    FlatAllOne(Single(1));
    FlatAllOne(Single(2));
    FlatAllOne(Single(3));
    assert [Single(2), Single(3)] == [Single(2)] + [Single(3)];
    FlatAllConcat([a], [b]);
    FlatAllOne(a);
    FlatAllOne(b);
    assert [a, b] == [a] + [b];
  }

  lemma SmallNode(t: Tree)
    requires 1 <= Count(t) <= 2 && forall i :: 0 <= i < Count(t) ==> SizesOf(t)[i] == 5
    ensures NBytes(t) <= PAGE_SIZE
  {
    SumBounds(SizesOf(t), 5, 5);
  }

  ghost predicate Shaped(t: Tree, h: nat) {
    Uniform(t, h) && Full(t) && Fit(t)
  }

  lemma SingleShaped(b: byte)
    ensures Shaped(Single(b), 0) && FirstKey(Single(b)) == [b]
  {
    SmallNode(Single(b));
  }

  lemma NodeShaped(t: Tree, h: nat)
    requires t.Inner? && 1 <= |t.kids| <= 2
    requires forall i :: 0 <= i < |t.kids| ==> Shaped(t.kids[i], h) && |FirstKey(t.kids[i])| == 1
    ensures Shaped(t, h + 1) && |FirstKey(t)| == 1
  {
    SmallNode(t);
  }

  lemma ThreeLeavesGood()
    ensures Good(ThreeLeaves(), 2)
  {
    var t := ThreeLeaves();
    ThreeLeavesFlat();
    SingleShaped(1);
    SingleShaped(2);
    SingleShaped(3);
    NodeShaped(t.kids[0], 0);
    NodeShaped(t.kids[1], 0);
    NodeShaped(t, 1);
    ThreeSorted();
  }

  lemma ThreeSorted()
    ensures Sorted([KV([1], []), KV([2], []), KV([3], [])])
  {
  }

  /** The smallest tree whose scan goes wrong: after the second entry it shows the second entry again. */
  lemma ScanFails()
    ensures Good(ThreeLeaves(), 2) && WellFormed(SeekFrames(ThreeLeaves(), 2, [1]))
    ensures !Yields(SeekFrames(ThreeLeaves(), 2, [1]), Flat(ThreeLeaves()))
  {
    var t := ThreeLeaves();
    ThreeLeavesGood();
    LessTotal([1], [1]);
    FullScanIff(t, 2, [1]);
    assert Count(t.kids[1]) == 2;
    assert !Tame(t, 2);
  }
}
