/**
 The same trees in memory: nodes with pointers, some of them changed in place, and the nodes
 that are handed over to be freed once no reader can see them any more.
 */
module BonsaiHeap {
  import opened BonsaiTree
  import opened BonsaiBalance

  const NULL := -1

  datatype Rec<V> = Rec(key: int, value: V, size: int, l: int, r: int)

  /** A tree and where its nodes are. */
  datatype Placed<V> = Leaf | Branch(p: int, key: int, value: V, size: int, l: Placed<V>, r: Placed<V>) {
    function Ptr(): int { if Leaf? then NULL else p }

    ghost function Tree(): Tree<V> {
      if Leaf? then Nil else Node(key, value, size, l.Tree(), r.Tree())
    }

    ghost function Foot(): set<int> {
      if Leaf? then {} else {p} + l.Foot() + r.Foot()
    }

    /** The nodes are in memory, each in one place. */
    ghost predicate In(nodes: seq<Rec<V>>) {
      Branch? ==>
        && 0 <= p < |nodes| && nodes[p] == Rec(key, value, size, l.Ptr(), r.Ptr())
        && l.In(nodes) && r.In(nodes) && p !in l.Foot() && p !in r.Foot() && l.Foot() !! r.Foot()
    }

    lemma {:induction false} InHeap(nodes: seq<Rec<V>>)
      requires In(nodes)
      ensures forall q :: q in Foot() ==> 0 <= q < |nodes|
    {
      if Branch? {
        l.InHeap(nodes);
        r.InHeap(nodes);
      }
    }

    /** A tree stays what it is as long as its nodes do. */
    lemma {:induction false} Frame(nodes: seq<Rec<V>>, after: seq<Rec<V>>)
      requires In(nodes) && |nodes| <= |after|
      requires forall q :: q in Foot() && 0 <= q < |nodes| ==> after[q] == nodes[q]
      ensures In(after)
    {
      if Branch? {
        l.Frame(nodes, after);
        r.Frame(nodes, after);
      }
    }
  }

  /** A tree in memory of which nothing has been freed, with correct sizes. */
  ghost predicate Live<V>(nodes: seq<Rec<V>>, freed: set<int>, s: Placed<V>) {
    s.In(nodes) && s.Tree().Sized() && s.Foot() !! freed
  }

  /** What is known of the top of a tree. */
  lemma Sides<V>(nodes: seq<Rec<V>>, freed: set<int>, s: Placed<V>)
    requires Live(nodes, freed, s) && s.Branch?
    ensures 0 <= s.p < |nodes| && nodes[s.p] == Rec(s.key, s.value, s.size, s.l.Ptr(), s.r.Ptr()) && s.p !in freed
    ensures Live(nodes, freed, s.l) && Live(nodes, freed, s.r) && s.l.Foot() !! s.r.Foot() && s.p !in s.l.Foot() &&
            s.p !in s.r.Foot()
    ensures s.Foot() == {s.p} + s.l.Foot() + s.r.Foot() && s.Tree() == Node(s.key, s.value, s.size, s.l.Tree(), s.r.Tree())
  {
  }

  lemma Nothing<V>(nodes: seq<Rec<V>>, freed: set<int>)
    ensures Live(nodes, freed, Leaf) && Placed<V>.Leaf.Foot() == {}
  {
  }

  /** Nodes have been added, and no other has changed but perhaps n. */
  ghost predicate Grown<V>(nodes: seq<Rec<V>>, after: seq<Rec<V>>, n: int) {
    |nodes| <= |after| && forall q :: 0 <= q < |nodes| && q != n ==> after[q] == nodes[q]
  }

  /** A tree lives on when nodes are added and others are changed or freed. */
  lemma LivesOn<V>(nodes: seq<Rec<V>>, freed: set<int>, after: seq<Rec<V>>, freed': set<int>, n: int, s: Placed<V>)
    requires Live(nodes, freed, s) && Grown(nodes, after, n) && n !in s.Foot() && s.Foot() !! freed'
    ensures Live(after, freed', s)
  {
    s.Frame(nodes, after);
  }

  lemma StillLive<V>(nodes: seq<Rec<V>>, freed: set<int>, after: seq<Rec<V>>, s: Placed<V>)
    requires Live(nodes, freed, s) && Grown(nodes, after, NULL)
    ensures Live(after, freed, s)
  {
    s.InHeap(nodes);
    s.Frame(nodes, after);
  }

  lemma InMemory<V>(nodes: seq<Rec<V>>, freed: set<int>, s: Placed<V>, q: int)
    requires Live(nodes, freed, s) && (q < 0 || q >= |nodes|)
    ensures q !in s.Foot()
  {
    s.InHeap(nodes);
  }

  /** Every node that there was, and every new one, is in the tree or has been freed. */
  ghost predicate Conserved(was: set<int>, freed0: set<int>, a: int, now: set<int>, freed: set<int>, b: int) {
    forall q :: q in now || q in freed <==> q in was || q in freed0 || a <= q < b
  }

  lemma RotationConserved(a: int, freed: set<int>, x: set<int>, p: int, y: set<int>, z: set<int>)
    ensures Conserved(x + ({p} + y + z), freed, a, {a + 1} + ({a} + x + y) + z, freed + {p}, a + 2)
    ensures Conserved({p} + y + z + x, freed, a, {a + 1} + y + ({a} + z + x), freed + {p}, a + 2)
  {
  }

  /** A double rotation: node q comes to the top, and p is balanced over two of the trees. */
  lemma DoubleLeftConserved(a: int, freed0: set<int>, w: set<int>, q: int, x: set<int>, p: int, y: set<int>, z: set<int>,
                            now: set<int>, freed: set<int>, b: int)
    requires Conserved({p} + y + z, freed0, a + 1, now, freed, b) && b >= a + 1
    ensures Conserved(w + ({p} + ({q} + x + y) + z), freed0, a, {b} + ({a} + w + x) + now, freed + {q}, b + 1)
  {
  }

  lemma DoubleRightConserved(a: int, freed0: set<int>, w: set<int>, q: int, x: set<int>, p: int, y: set<int>, z: set<int>,
                             now: set<int>, freed: set<int>, b: int, c: int)
    requires Conserved({p} + y + z, freed0, a, now, freed, b) && b >= a && c == b + 1
    ensures Conserved(({p} + y + ({q} + z + x)) + w, freed0, a, {c} + now + ({b} + x + w), freed + {q}, c + 1)
  {
  }

  /** What is apart from all that goes into a step stays apart from what comes out. */
  lemma StaysApart(was: set<int>, freed0: set<int>, a: int, now: set<int>, freed: set<int>, b: int, other: set<int>)
    requires Conserved(was, freed0, a, now, freed, b) && other !! was && other !! freed0 && forall q :: q in other ==> q < a
    ensures other !! now && other !! freed
  {
    forall q | q in other ensures q !in now && q !in freed {
    }
  }

  /** Tree s has taken the place of s0: no other node has changed, and all are accounted for. */
  ghost predicate Changed<V>(nodes: seq<Rec<V>>, freed: set<int>, s0: Placed<V>, after: seq<Rec<V>>, freed': set<int>, s: Placed<V>) {
    && |nodes| <= |after| && (forall q :: 0 <= q < |nodes| && q !in s0.Foot() ==> after[q] == nodes[q])
    && Conserved(s0.Foot(), freed, |nodes|, s.Foot(), freed', |after|)
  }

  /** A change of one side leaves the node and its other side as they are. */
  lemma SideChanged<V>(nodes: seq<Rec<V>>, freed: set<int>, s0: Placed<V>, left: bool, after: seq<Rec<V>>, freed': set<int>, s: Placed<V>)
    requires Live(nodes, freed, s0) && s0.Branch? && Live(after, freed', s)
    requires Changed(nodes, freed, if left then s0.l else s0.r, after, freed', s)
    ensures 0 <= s0.p < |after| && after[s0.p] == nodes[s0.p] && s0.p !in s.Foot() && s0.p !in freed'
    ensures var other := if left then s0.r else s0.l; Live(after, freed', other) && other.Foot() !! s.Foot()
  {
    var side, other := if left then s0.l else s0.r, if left then s0.r else s0.l;
    s0.InHeap(nodes);
    StaysApart(side.Foot(), freed, |nodes|, s.Foot(), freed', |after|, {s0.p} + other.Foot());
    other.Frame(nodes, after);
  }

  /** A change of one side and then of the node is a change of the tree. */
  lemma NodeChanged<V>(nodes: seq<Rec<V>>, freed: set<int>, s0: Placed<V>, left: bool, mid: seq<Rec<V>>, freed1: set<int>, sq: Placed<V>,
                       after: seq<Rec<V>>, freed2: set<int>, s: Placed<V>)
    requires Live(nodes, freed, s0) && s0.Branch? && Changed(nodes, freed, if left then s0.l else s0.r, mid, freed1, sq)
    requires Grown(mid, after, s0.p) || Grown(mid, after, NULL)
    requires Conserved(if left then {s0.p} + sq.Foot() + s0.r.Foot() else {s0.p} + s0.l.Foot() + sq.Foot(), freed1, |mid|, s.Foot(), freed2, |after|)
    ensures Changed(nodes, freed, s0, after, freed2, s)
  {
    s0.InHeap(nodes);
  }

  lemma PtrNull<V>(nodes: seq<Rec<V>>, freed: set<int>, s: Placed<V>)
    requires Live(nodes, freed, s)
    ensures s.Ptr() == NULL <==> s.Leaf?
  {
  }

  /** The node with the least key. */
  ghost function First<V>(s: Placed<V>): int {
    if s.Leaf? then NULL else if s.l.Leaf? then s.p else First(s.l)
  }

  /** Tree s is s0 without its first node, which is neither in the tree nor freed; no node has changed. */
  ghost predicate Delmined<V>(nodes: seq<Rec<V>>, freed: set<int>, s0: Placed<V>, after: seq<Rec<V>>, freed': set<int>, s: Placed<V>) {
    && Grown(nodes, after, NULL) && First(s0) in s0.Foot() && First(s0) !in s.Foot() && First(s0) !in freed'
    && Conserved(s0.Foot() - {First(s0)}, freed, |nodes|, s.Foot(), freed', |after|)
  }

  lemma DelminedSide<V>(nodes: seq<Rec<V>>, freed: set<int>, s0: Placed<V>, after: seq<Rec<V>>, freed': set<int>, s: Placed<V>)
    requires Live(nodes, freed, s0) && s0.Branch? && Live(after, freed', s) && Delmined(nodes, freed, s0.l, after, freed', s)
    ensures 0 <= s0.p < |after| && after[s0.p] == nodes[s0.p] && s0.p !in s.Foot() && s0.p !in freed'
    ensures Live(after, freed', s0.r) && s0.r.Foot() !! s.Foot()
  {
    s0.InHeap(nodes);
    StaysApart(s0.l.Foot() - {First(s0.l)}, freed, |nodes|, s.Foot(), freed', |after|, {s0.p} + s0.r.Foot());
    s0.r.Frame(nodes, after);
  }

  lemma DelminedNode<V>(nodes: seq<Rec<V>>, freed: set<int>, s0: Placed<V>, mid: seq<Rec<V>>, freed1: set<int>, sq: Placed<V>,
                        after: seq<Rec<V>>, freed2: set<int>, s: Placed<V>)
    requires Live(nodes, freed, s0) && s0.Branch? && s0.l.Branch? && Delmined(nodes, freed, s0.l, mid, freed1, sq)
    requires Grown(mid, after, NULL) && Conserved({s0.p} + sq.Foot() + s0.r.Foot(), freed1, |mid|, s.Foot(), freed2, |after|)
    ensures Delmined(nodes, freed, s0, after, freed2, s)
  {
    s0.InHeap(nodes);
    var m := First(s0);
    assert m == First(s0.l) && m in s0.l.Foot() && m < |nodes|;
    assert m !in {s0.p} + sq.Foot() + s0.r.Foot() && m !in freed1;
    assert m !in s.Foot() && m !in freed2;
    assert s0.Foot() - {m} == {s0.p} + (s0.l.Foot() - {m}) + s0.r.Foot();
  }

  lemma JoinReady<V>(nodes: seq<Rec<V>>, freed: set<int>, sl: Placed<V>, sr: Placed<V>, after: seq<Rec<V>>, freed': set<int>, sq: Placed<V>)
    requires Live(nodes, freed, sl) && Live(nodes, freed, sr) && sl.Foot() !! sr.Foot() &&
             Delmined(nodes, freed, sr, after, freed', sq)
    ensures Live(after, freed', sl) && sl.Foot() !! sq.Foot() && First(sr) !in sl.Foot()
  {
    sl.InHeap(nodes);
    StaysApart(sr.Foot() - {First(sr)}, freed, |nodes|, sq.Foot(), freed', |after|, sl.Foot());
    sl.Frame(nodes, after);
  }

  lemma JoinConserved<V>(nodes: seq<Rec<V>>, freed: set<int>, sl: Placed<V>, sr: Placed<V>, mid: seq<Rec<V>>, freed1: set<int>, sq: Placed<V>,
                         after: seq<Rec<V>>, freed2: set<int>, s: Placed<V>)
    requires Delmined(nodes, freed, sr, mid, freed1, sq) && Grown(mid, after, NULL)
    requires Conserved({First(sr)} + sl.Foot() + sq.Foot(), freed1, |mid|, s.Foot(), freed2, |after|)
    ensures Conserved(sl.Foot() + sr.Foot(), freed, |nodes|, s.Foot(), freed2, |after|) && Grown(nodes, after, NULL)
  {
    hide Placed.Foot, Conserved;
    JoinSets(First(sr), sl.Foot(), sr.Foot(), freed, |nodes|, sq.Foot(), freed1, |mid|, s.Foot(), freed2, |after|);
  }

  lemma JoinSets(m: int, x: set<int>, y: set<int>, freed: set<int>, a: int, z: set<int>, freed1: set<int>, b: int,
                 now: set<int>, freed2: set<int>, c: int)
    requires m in y && a <= b <= c && Conserved(y - {m}, freed, a, z, freed1, b) &&
             Conserved({m} + x + z, freed1, b, now, freed2, c)
    ensures Conserved(x + y, freed, a, now, freed2, c)
  {
    assert forall q :: q in x + y <==> q in x || q == m || q in y - {m};
    assert forall q :: q in {m} + x + z <==> q == m || q in x || q in z;
  }

  lemma JoinChanged<V>(nodes: seq<Rec<V>>, freed: set<int>, s0: Placed<V>, after: seq<Rec<V>>, freed': set<int>, s: Placed<V>)
    requires s0.Branch? && Grown(nodes, after, NULL)
    requires Conserved({s0.p} + s0.l.Foot() + s0.r.Foot(), freed, |nodes|, s.Foot(), freed', |after|)
    ensures Changed(nodes, freed, s0, after, freed', s)
  {
  }

  /** No node on the way to the key gets out of balance when it is inserted. */
  ghost predicate Calm<V>(t: Tree<V>, key: int, value: V)
    requires t.Sized()
  {
    t.Nil? || key == t.key ||
    if key < t.key then Calm(t.l, key, value) && Within(Insert(t.l, key, value).Size(), t.r.Size())
    else Calm(t.r, key, value) && Within(t.l.Size(), Insert(t.r, key, value).Size())
  }

  /** The root neither holds the key nor gets out of balance when it is removed. */
  ghost predicate Keeps<V>(t: Tree<V>, key: int)
    requires t.Node? && t.Sized()
  {
    key != t.key &&
    if key < t.key then Within(Remove(t.l, key).Size(), t.r.Size()) else Within(t.l.Size(), Remove(t.r, key).Size())
  }

  class Heap<V> {
    var nodes: seq<Rec<V>>
    var freed: set<int>

    ghost predicate Valid()
      reads this
    {
      forall q :: q in freed ==> 0 <= q < |nodes|
    }

    constructor ()
      ensures Valid() && nodes == [] && freed == {}
    {
      nodes, freed := [], {};
    }

    /** Two trees, and a node apart from them. */
    ghost predicate Ready(n: int, sl: Placed<V>, sr: Placed<V>)
      reads this
    {
      && Valid() && Live(nodes, freed, sl) && Live(nodes, freed, sr) && sl.Foot() !! sr.Foot()
      && 0 <= n < |nodes| && n !in sl.Foot() && n !in sr.Foot() && n !in freed
    }

    function SizeOf(p: int): int
      requires p == NULL || 0 <= p < |nodes|
      reads this
    {
      if p == NULL then 0 else nodes[p].size
    }

    method AllocNode(key: int, value: V, l: int, r: int, ghost sl: Placed<V>, ghost sr: Placed<V>) returns (p: int, ghost s: Placed<V>)
      requires Valid() && Live(nodes, freed, sl) && Live(nodes, freed, sr) && sl.Foot() !! sr.Foot() &&
               l == sl.Ptr() && r == sr.Ptr()
      modifies this`nodes
      ensures p == |old(nodes)| && |nodes| == p + 1 && Grown(old(nodes), nodes, NULL) && p !in sl.Foot() && p !in sr.Foot()
      ensures Valid() && Live(nodes, freed, s) && s.Ptr() == p && s.Foot() == {p} + sl.Foot() + sr.Foot()
      ensures s.Tree() == New(key, value, sl.Tree(), sr.Tree())
    {
      sl.InHeap(nodes);
      sr.InHeap(nodes);
      p := |nodes|;
      var size := SizeOf(l) + SizeOf(r) + 1;
      s := Branch(p, key, value, size, sl, sr);
      nodes := nodes + [Rec(key, value, size, l, r)];
      sl.Frame(old(nodes), nodes);
      sr.Frame(old(nodes), nodes);
    }

    /** Hands a node over to be freed; none is handed over twice. */
    method Free(p: int, ghost s: Placed<V>)
      requires Valid() && 0 <= p < |nodes| && p !in freed && Live(nodes, freed, s) && p !in s.Foot()
      modifies this`freed
      ensures Valid() && freed == old(freed) + {p} && Live(nodes, freed, s)
    {
      freed := freed + {p};
    }

    method SingleLeft(n: int, l: int, r: int, ghost sl: Placed<V>, ghost sr: Placed<V>) returns (p: int, ghost s: Placed<V>)
      requires Ready(n, sl, sr) && l == sl.Ptr() && r == sr.Ptr() && sr.Branch?
      modifies this
      ensures Valid() && Live(nodes, freed, s) && s.Ptr() == p && Grown(old(nodes), nodes, NULL)
      ensures s.Tree() == BonsaiTree.SingleLeft(nodes[n].key, nodes[n].value, sl.Tree(), sr.Tree())
      ensures Conserved(sl.Foot() + sr.Foot(), old(freed), |old(nodes)|, s.Foot(), freed, |nodes|)
    {
      hide Live, Placed.Foot, Placed.Tree, Heap.Valid, Conserved;
      ghost var before := nodes;
      Sides(nodes, freed, sr);
      InMemory(nodes, freed, sr.r, |nodes|);
      var inner; ghost var si;
      inner, si := AllocNode(nodes[n].key, nodes[n].value, l, nodes[r].l, sl, sr.l);
      StillLive(before, freed, nodes, sr.r);
      p, s := AllocNode(nodes[r].key, nodes[r].value, inner, nodes[r].r, si, sr.r);
      Free(r, s);
      RotationConserved(|before|, old(freed), sl.Foot(), r, sr.l.Foot(), sr.r.Foot());
    }

    method SingleRight(n: int, l: int, r: int, ghost sl: Placed<V>, ghost sr: Placed<V>) returns (p: int, ghost s: Placed<V>)
      requires Ready(n, sl, sr) && l == sl.Ptr() && r == sr.Ptr() && sl.Branch?
      modifies this
      ensures Valid() && Live(nodes, freed, s) && s.Ptr() == p && Grown(old(nodes), nodes, NULL)
      ensures s.Tree() == BonsaiTree.SingleRight(nodes[n].key, nodes[n].value, sl.Tree(), sr.Tree())
      ensures Conserved(sl.Foot() + sr.Foot(), old(freed), |old(nodes)|, s.Foot(), freed, |nodes|)
    {
      hide Live, Placed.Foot, Placed.Tree, Heap.Valid, Conserved;
      ghost var before := nodes;
      Sides(nodes, freed, sl);
      InMemory(nodes, freed, sl.l, |nodes|);
      var inner; ghost var si;
      inner, si := AllocNode(nodes[n].key, nodes[n].value, nodes[l].r, r, sl.r, sr);
      StillLive(before, freed, nodes, sl.l);
      p, s := AllocNode(nodes[l].key, nodes[l].value, nodes[l].l, inner, sl.l, si);
      Free(l, s);
      RotationConserved(|before|, old(freed), sr.Foot(), l, sl.l.Foot(), sl.r.Foot());
    }

    /** A node over two trees: the given one, with the changed side in place, or a new one. */
    method TreeNode(n: int, l: int, r: int, leftReplace: bool, inPlace: bool, ghost sl: Placed<V>, ghost sr: Placed<V>)
      returns (p: int, ghost s: Placed<V>)
      requires Ready(n, sl, sr) && l == sl.Ptr() && r == sr.Ptr()
      requires inPlace ==> if leftReplace then nodes[n].r == r else nodes[n].l == l
      modifies this
      ensures Valid() && Live(nodes, freed, s) && s.Ptr() == p && Grown(old(nodes), nodes, if inPlace then n else NULL)
      ensures s.Tree() == New(old(nodes)[n].key, old(nodes)[n].value, sl.Tree(), sr.Tree())
      ensures Conserved({n} + sl.Foot() + sr.Foot(), old(freed), |old(nodes)|, s.Foot(), freed, |nodes|)
      ensures if inPlace then p == n && freed == old(freed) && |nodes| == |old(nodes)| else p == |old(nodes)| && freed == old(freed) + {n}
    {
      if inPlace {
        p, s := Reuse(n, l, r, leftReplace, sl, sr);
      } else {
        hide Live, Placed.Foot, Placed.Tree;
        InMemory(nodes, freed, sl, |nodes|);
        p, s := AllocNode(nodes[n].key, nodes[n].value, l, r, sl, sr);
        Free(n, s);
      }
    }

    method Reuse(n: int, l: int, r: int, leftReplace: bool, ghost sl: Placed<V>, ghost sr: Placed<V>) returns (p: int, ghost s: Placed<V>)
      requires Ready(n, sl, sr) && l == sl.Ptr() && r == sr.Ptr()
      requires if leftReplace then nodes[n].r == r else nodes[n].l == l
      modifies this`nodes
      ensures Valid() && Live(nodes, freed, s) && s.Ptr() == p == n && Grown(old(nodes), nodes, n) && |nodes| == |old(nodes)|
      ensures s.Tree() == New(old(nodes)[n].key, old(nodes)[n].value, sl.Tree(), sr.Tree())
      ensures s.Foot() == {n} + sl.Foot() + sr.Foot()
    {
      if leftReplace {
        nodes := nodes[n := nodes[n].(l := l)];
      } else {
        nodes := nodes[n := nodes[n].(r := r)];
      }
      nodes := nodes[n := nodes[n].(size := 1 + SizeOf(l) + SizeOf(r))];
      LivesOn(old(nodes), freed, nodes, freed, n, sl);
      LivesOn(old(nodes), freed, nodes, freed, n, sr);
      p, s := n, Branch(n, nodes[n].key, nodes[n].value, nodes[n].size, sl, sr);
    }

    method DoubleLeft(n: int, l: int, r: int, ghost sl: Placed<V>, ghost sr: Placed<V>) returns (p: int, ghost s: Placed<V>)
      requires Ready(n, sl, sr) && l == sl.Ptr() && r == sr.Ptr() && sr.Branch? && sr.l.Branch?
      requires sr.Tree().Size() >= 2 && sr.Tree().l.Size() >= sr.Tree().r.Size()
      modifies this
      ensures Valid() && Live(nodes, freed, s) && s.Ptr() == p && Grown(old(nodes), nodes, NULL)
      ensures s.Tree() == BonsaiTree.DoubleLeft(nodes[n].key, nodes[n].value, sl.Tree(), sr.Tree())
      ensures Conserved(sl.Foot() + sr.Foot(), old(freed), |old(nodes)|, s.Foot(), freed, |nodes|)
      decreases Load(sl.Tree(), sr.Tree()), 1
    {
      Sides(nodes, freed, sr);
      Sides(nodes, freed, sr.l);
      hide Live, Placed.Foot, Placed.Tree, Conserved, Load, Heap.Valid, BonsaiTree.Balance;
      ghost var a := |nodes|;
      var rl := nodes[r].l;
      var tl, tr; ghost var stl, str;
      tl, tr, stl, str := LeftHalves(n, l, r, sl, sr);
      ghost var f, b := freed, |nodes|;
      p, s := Replace(rl, tl, tr, stl, str);
      DoubleLeftConserved(a, old(freed), sl.Foot(), rl, sr.l.l.Foot(), r, sr.l.r.Foot(), sr.r.Foot(), str.Foot(), f, b);
    }

    /** The two trees that go under the node that comes to the top. */
    method LeftHalves(n: int, l: int, r: int, ghost sl: Placed<V>, ghost sr: Placed<V>)
      returns (tl: int, tr: int, ghost stl: Placed<V>, ghost str: Placed<V>)
      requires Ready(n, sl, sr) && l == sl.Ptr() && r == sr.Ptr() && sr.Branch? && sr.l.Branch?
      modifies this
      ensures Grown(old(nodes), nodes, NULL) && Ready(sr.l.p, stl, str) && tl == stl.Ptr() && tr == str.Ptr() &&
              |nodes| > |old(nodes)|
      ensures stl.Foot() == {|old(nodes)|} + sl.Foot() + sr.l.l.Foot()
      ensures stl.Tree() == New(nodes[n].key, nodes[n].value, sl.Tree(), sr.l.l.Tree())
      ensures sr.l.r.Tree().Sized() && sr.r.Tree().Sized() &&
              str.Tree() == BonsaiTree.Balance(sr.key, sr.value, sr.l.r.Tree(), sr.r.Tree())
      ensures Conserved({r} + sr.l.r.Foot() + sr.r.Foot(), old(freed), |old(nodes)| + 1, str.Foot(), freed, |nodes|)
      decreases Load(sl.Tree(), sr.Tree()), 0
    {
      Sides(nodes, freed, sr);
      Sides(nodes, freed, sr.l);
      LoadShrinks(sl.Tree(), sr.Tree());
      hide Live, Placed.Foot, Placed.Tree, Conserved, Load, Heap.Valid, BonsaiTree.Balance;
      var rl := nodes[r].l;
      tl, stl := AllocBeside(nodes[n].key, nodes[n].value, l, nodes[rl].l, r, sl, sr.l.l, sr.l.r, sr.r);
      Nothing(nodes, freed);
      tr, str := BalanceBeside(r, nodes[rl].r, nodes[r].r, sr.l.r, sr.r, rl, stl, Leaf);
    }

    method DoubleRight(n: int, l: int, r: int, ghost sl: Placed<V>, ghost sr: Placed<V>) returns (p: int, ghost s: Placed<V>)
      requires Ready(n, sl, sr) && l == sl.Ptr() && r == sr.Ptr() && sl.Branch? && sl.r.Branch?
      requires sl.Tree().Size() >= 2 && sl.Tree().r.Size() >= sl.Tree().l.Size()
      modifies this
      ensures Valid() && Live(nodes, freed, s) && s.Ptr() == p && Grown(old(nodes), nodes, NULL)
      ensures s.Tree() == BonsaiTree.DoubleRight(nodes[n].key, nodes[n].value, sl.Tree(), sr.Tree())
      ensures Conserved(sl.Foot() + sr.Foot(), old(freed), |old(nodes)|, s.Foot(), freed, |nodes|)
      decreases Load(sl.Tree(), sr.Tree()), 1
    {
      Sides(nodes, freed, sl);
      Sides(nodes, freed, sl.r);
      hide Live, Placed.Foot, Placed.Tree, Conserved, Load, Heap.Valid, BonsaiTree.Balance;
      ghost var a := |nodes|;
      var lr := nodes[l].r;
      var tl, tr; ghost var stl, str, f, b;
      tl, tr, stl, str, f, b := RightHalves(n, l, r, sl, sr);
      ghost var c := |nodes|;
      p, s := Replace(lr, tl, tr, stl, str);
      DoubleRightConserved(a, old(freed), sr.Foot(), lr, sl.r.r.Foot(), l, sl.l.Foot(), sl.r.l.Foot(), stl.Foot(), f, b, c);
    }

    method RightHalves(n: int, l: int, r: int, ghost sl: Placed<V>, ghost sr: Placed<V>)
      returns (tl: int, tr: int, ghost stl: Placed<V>, ghost str: Placed<V>, ghost f: set<int>, ghost b: int)
      requires Ready(n, sl, sr) && l == sl.Ptr() && r == sr.Ptr() && sl.Branch? && sl.r.Branch?
      modifies this
      ensures Grown(old(nodes), nodes, NULL) && Ready(sl.r.p, stl, str) && tl == stl.Ptr() && tr == str.Ptr()
      ensures f == freed && b == |nodes| - 1 >= |old(nodes)| && str.Foot() == {b} + sl.r.r.Foot() + sr.Foot()
      ensures str.Tree() == New(nodes[n].key, nodes[n].value, sl.r.r.Tree(), sr.Tree())
      ensures sl.l.Tree().Sized() && sl.r.l.Tree().Sized() &&
              stl.Tree() == BonsaiTree.Balance(sl.key, sl.value, sl.l.Tree(), sl.r.l.Tree())
      ensures Conserved({l} + sl.l.Foot() + sl.r.l.Foot(), old(freed), |old(nodes)|, stl.Foot(), f, b)
      decreases Load(sl.Tree(), sr.Tree()), 0
    {
      Sides(nodes, freed, sl);
      Sides(nodes, freed, sl.r);
      LoadShrinks(sl.Tree(), sr.Tree());
      hide Live, Placed.Foot, Placed.Tree, Conserved, Load, Heap.Valid, BonsaiTree.Balance;
      var lr := nodes[l].r;
      tl, stl := BalanceBeside(l, nodes[l].l, nodes[lr].l, sl.l, sl.r.l, lr, sl.r.r, sr);
      f, b := freed, |nodes|;
      Nothing(nodes, freed);
      tr, str := AllocBeside(nodes[n].key, nodes[n].value, nodes[lr].r, r, lr, sl.r.r, sr, stl, Leaf);
    }

    /** A new node over two trees takes the place of node q. */
    method Replace(q: int, l: int, r: int, ghost sl: Placed<V>, ghost sr: Placed<V>) returns (p: int, ghost s: Placed<V>)
      requires Ready(q, sl, sr) && l == sl.Ptr() && r == sr.Ptr()
      modifies this
      ensures p == |old(nodes)| && |nodes| == p + 1 && Grown(old(nodes), nodes, NULL) && freed == old(freed) + {q}
      ensures Valid() && Live(nodes, freed, s) && s.Ptr() == p && s.Foot() == {p} + sl.Foot() + sr.Foot()
      ensures s.Tree() == New(old(nodes)[q].key, old(nodes)[q].value, sl.Tree(), sr.Tree())
    {
      hide Live, Placed.Foot, Placed.Tree, Heap.Valid;
      p, s := AllocNode(nodes[q].key, nodes[q].value, l, r, sl, sr);
      Free(q, s);
    }

    /** A new node; node q and two other trees are still ready to be balanced. */
    method AllocBeside(key: int, value: V, l: int, r: int, q: int, ghost sl: Placed<V>, ghost sr: Placed<V>, ghost x: Placed<V>, ghost y: Placed<V>)
      returns (p: int, ghost s: Placed<V>)
      requires Ready(q, x, y) && Live(nodes, freed, sl) && Live(nodes, freed, sr) && sl.Foot() !! sr.Foot() &&
               l == sl.Ptr() && r == sr.Ptr()
      requires sl.Foot() + sr.Foot() !! {q} + x.Foot() + y.Foot()
      modifies this`nodes
      ensures p == |old(nodes)| && |nodes| == p + 1 && Grown(old(nodes), nodes, NULL) && Ready(q, x, y)
      ensures Live(nodes, freed, s) && s.Ptr() == p && s.Foot() == {p} + sl.Foot() + sr.Foot() &&
              s.Foot() !! {q} + x.Foot() + y.Foot()
      ensures s.Tree() == New(key, value, sl.Tree(), sr.Tree())
    {
      hide Live, Placed.Foot, Placed.Tree, Heap.Valid;
      ghost var before := nodes;
      InMemory(nodes, freed, x, |nodes|);
      InMemory(nodes, freed, y, |nodes|);
      p, s := AllocNode(key, value, l, r, sl, sr);
      StillLive(before, freed, nodes, x);
      StillLive(before, freed, nodes, y);
    }

    /** Balances two trees, while node q and two other trees are left alone. */
    method BalanceBeside(n: int, l: int, r: int, ghost sl: Placed<V>, ghost sr: Placed<V>, q: int, ghost x: Placed<V>, ghost y: Placed<V>)
      returns (p: int, ghost s: Placed<V>)
      requires Ready(n, sl, sr) && l == sl.Ptr() && r == sr.Ptr() && Ready(q, x, y)
      requires {q} + x.Foot() + y.Foot() !! {n} + sl.Foot() + sr.Foot()
      modifies this
      ensures Valid() && Live(nodes, freed, s) && s.Ptr() == p && Grown(old(nodes), nodes, NULL)
      ensures s.Tree() == BonsaiTree.Balance(old(nodes)[n].key, old(nodes)[n].value, sl.Tree(), sr.Tree())
      ensures Conserved({n} + sl.Foot() + sr.Foot(), old(freed), |old(nodes)|, s.Foot(), freed, |nodes|)
      ensures Ready(q, x, y) && {q} + x.Foot() + y.Foot() !! s.Foot()
      decreases Load(sl.Tree(), sr.Tree()), 4
    {
      hide Live, Placed.Foot, Placed.Tree, Conserved, Heap.Valid, BonsaiTree.Balance;
      ghost var before, f, was := nodes, freed, {n} + sl.Foot() + sr.Foot();
      p, s := TreeBalance(n, l, r, false, false, sl, sr);
      Bystander(before, f, nodes, freed, x, was, s.Foot());
      Bystander(before, f, nodes, freed, y, was, s.Foot());
      StaysApart(was, f, |before|, s.Foot(), freed, |nodes|, {q});
    }

    /** A balanced tree over l and r, with the key of n; only n may change in place, and every node is accounted for. */
    method TreeBalance(n: int, l: int, r: int, leftReplace: bool, inPlace: bool, ghost sl: Placed<V>, ghost sr: Placed<V>)
      returns (p: int, ghost s: Placed<V>)
      requires Ready(n, sl, sr) && l == sl.Ptr() && r == sr.Ptr()
      requires inPlace ==> if leftReplace then nodes[n].r == r else nodes[n].l == l
      modifies this
      ensures Valid() && Live(nodes, freed, s) && s.Ptr() == p && Grown(old(nodes), nodes, if inPlace then n else NULL)
      ensures s.Tree() == BonsaiTree.Balance(old(nodes)[n].key, old(nodes)[n].value, sl.Tree(), sr.Tree())
      ensures Conserved({n} + sl.Foot() + sr.Foot(), old(freed), |old(nodes)|, s.Foot(), freed, |nodes|)
      ensures inPlace && Within(sl.Tree().Size(), sr.Tree().Size()) ==> p == n && freed == old(freed) && |nodes| == |old(nodes)|
      decreases Load(sl.Tree(), sr.Tree()), 3
    {
      LivesHeavy(nodes, freed, sl);
      LivesHeavy(nodes, freed, sr);
      hide Live, Placed.Foot, Placed.Tree, Conserved, Load, Heap.Valid, BonsaiTree.New;
      hide BonsaiTree.SingleLeft, BonsaiTree.SingleRight, BonsaiTree.DoubleLeft, BonsaiTree.DoubleRight;
      var ln, rn := SizeOf(l), SizeOf(r);
      if ln + rn < 2 {
        p, s := TreeNode(n, l, r, leftReplace, inPlace, sl, sr);
      } else if rn > WEIGHT * ln {
        p, s := RotateLeft(n, l, r, sl, sr);
      } else if ln > WEIGHT * rn {
        p, s := RotateRight(n, l, r, sl, sr);
      } else {
        p, s := TreeNode(n, l, r, leftReplace, inPlace, sl, sr);
      }
    }

    method RotateLeft(n: int, l: int, r: int, ghost sl: Placed<V>, ghost sr: Placed<V>) returns (p: int, ghost s: Placed<V>)
      requires Ready(n, sl, sr) && l == sl.Ptr() && r == sr.Ptr() && sr.Tree().Size() >= 2
      modifies this
      ensures Valid() && Live(nodes, freed, s) && s.Ptr() == p && Grown(old(nodes), nodes, NULL)
      ensures var k, v, tl, tr := nodes[n].key, nodes[n].value, sl.Tree(), sr.Tree();
              tr.Node? && s.Tree() == if tr.l.Size() < tr.r.Size() then BonsaiTree.SingleLeft(k, v, tl, tr) else BonsaiTree.DoubleLeft(k, v, tl, tr)
      ensures Conserved({n} + sl.Foot() + sr.Foot(), old(freed), |old(nodes)|, s.Foot(), freed, |nodes|)
      decreases Load(sl.Tree(), sr.Tree()), 2
    {
      LivesHeavy(nodes, freed, sr);
      assert sr.Tree().Node?;
      hide Live, Placed.Foot, Placed.Tree, Conserved, Load, Heap.Valid, BonsaiTree.SingleLeft, BonsaiTree.DoubleLeft;
      if SizeOf(nodes[r].l) < SizeOf(nodes[r].r) {
        p, s := SingleLeft(n, l, r, sl, sr);
      } else {
        p, s := DoubleLeft(n, l, r, sl, sr);
      }
      Discard(n, s, sl.Foot(), sr.Foot(), old(freed), |old(nodes)|);
    }

    method RotateRight(n: int, l: int, r: int, ghost sl: Placed<V>, ghost sr: Placed<V>) returns (p: int, ghost s: Placed<V>)
      requires Ready(n, sl, sr) && l == sl.Ptr() && r == sr.Ptr() && sl.Tree().Size() >= 2
      modifies this
      ensures Valid() && Live(nodes, freed, s) && s.Ptr() == p && Grown(old(nodes), nodes, NULL)
      ensures var k, v, tl, tr := nodes[n].key, nodes[n].value, sl.Tree(), sr.Tree();
              tl.Node? && s.Tree() == if tl.r.Size() < tl.l.Size() then BonsaiTree.SingleRight(k, v, tl, tr) else BonsaiTree.DoubleRight(k, v, tl, tr)
      ensures Conserved({n} + sl.Foot() + sr.Foot(), old(freed), |old(nodes)|, s.Foot(), freed, |nodes|)
      decreases Load(sl.Tree(), sr.Tree()), 2
    {
      LivesHeavy(nodes, freed, sl);
      assert sl.Tree().Node?;
      hide Live, Placed.Foot, Placed.Tree, Conserved, Load, Heap.Valid, BonsaiTree.SingleRight, BonsaiTree.DoubleRight;
      if SizeOf(nodes[l].r) < SizeOf(nodes[l].l) {
        p, s := SingleRight(n, l, r, sl, sr);
      } else {
        p, s := DoubleRight(n, l, r, sl, sr);
      }
      Discard(n, s, sl.Foot(), sr.Foot(), old(freed), |old(nodes)|);
    }

    /** Balances a node after its left or right side has changed. */
    method Rebuild(n: int, q: int, left: bool, inPlace: bool, ghost s0: Placed<V>, ghost sq: Placed<V>, ghost before: seq<Rec<V>>, ghost f: set<int>)
      returns (p: int, ghost s: Placed<V>)
      requires Live(before, f, s0) && s0.Branch? && n == s0.p
      requires Valid() && Live(nodes, freed, sq) && q == sq.Ptr() && Changed(before, f, if left then s0.l else s0.r, nodes, freed, sq)
      modifies this
      ensures Valid() && Live(nodes, freed, s) && s.Ptr() == p && Changed(before, f, s0, nodes, freed, s)
      ensures s0.Tree().Sized() && sq.Tree().Sized()
      ensures s.Tree() == if left then BonsaiTree.Balance(s0.key, s0.value, sq.Tree(), s0.r.Tree())
                          else BonsaiTree.Balance(s0.key, s0.value, s0.l.Tree(), sq.Tree())
      ensures inPlace && (if left then Within(sq.Tree().Size(), s0.r.Tree().Size()) else Within(s0.l.Tree().Size(), sq.Tree().Size())) ==>
                p == n && freed == old(freed) && |nodes| == |old(nodes)|
    {
      Sides(before, f, s0);
      SideChanged(before, f, s0, left, nodes, freed, sq);
      ghost var mid, g := nodes, freed;
      hide Live, Placed.Foot, Placed.Tree, Conserved, Heap.Valid, BonsaiTree.Balance;
      if left {
        p, s := TreeBalance(n, q, nodes[n].r, true, inPlace, sq, s0.r);
        NodeChanged(before, f, s0, true, mid, g, sq, nodes, freed, s);
      } else {
        p, s := TreeBalance(n, nodes[n].l, q, false, inPlace, s0.l, sq);
        NodeChanged(before, f, s0, false, mid, g, sq, nodes, freed, s);
      }
    }

    /** Adds a key in memory, changing nodes in place where no rotation is needed. */
    method TreeInsert(n: int, key: int, value: V, ghost s0: Placed<V>) returns (p: int, ghost s: Placed<V>)
      requires Valid() && Live(nodes, freed, s0) && n == s0.Ptr()
      modifies this
      ensures Valid() && Live(nodes, freed, s) && s.Ptr() == p && Changed(old(nodes), old(freed), s0, nodes, freed, s)
      ensures s.Tree() == BonsaiTree.Insert(s0.Tree(), key, value)
      ensures Calm(s0.Tree(), key, value) ==> (s0.Branch? ==> p == n) && freed == old(freed) && |nodes| <= |old(nodes)| + 1
      decreases s0
    {
      ghost var before, f := nodes, freed;
      if n == NULL {
        PtrNull(nodes, freed, s0);
        Nothing(nodes, freed);
        p, s := AllocNode(key, value, NULL, NULL, Leaf, Leaf);
      } else if key == nodes[n].key {
        p, s := n, s0;
      } else {
        Sides(nodes, freed, s0);
        hide Live, Placed.Foot, Placed.Tree, Conserved, Heap.Valid, BonsaiTree.Balance, Changed;
        var q; ghost var sq;
        if key < nodes[n].key {
          q, sq := TreeInsert(nodes[n].l, key, value, s0.l);
          p, s := Rebuild(n, q, true, true, s0, sq, before, f);
        } else {
          q, sq := TreeInsert(nodes[n].r, key, value, s0.r);
          p, s := Rebuild(n, q, false, true, s0, sq, before, f);
        }
      }
    }

    method TreeMin(n: int, ghost s0: Placed<V>) returns (p: int)
      requires Live(nodes, freed, s0) && s0.Branch? && n == s0.p
      ensures p == First(s0) && 0 <= p < |nodes| && p in s0.Foot() && s0.Tree().Node?
      ensures nodes[p].key == Least(s0.Tree()).key && nodes[p].value == Least(s0.Tree()).value
      decreases s0
    {
      Sides(nodes, freed, s0);
      PtrNull(nodes, freed, s0.l);
      if nodes[n].l == NULL {
        p := n;
      } else {
        p := TreeMin(nodes[n].l, s0.l);
      }
    }

    /** The tree without its first node, built anew where it differs; the first node stays readable and is not freed. */
    method TreeDelmin(n: int, ghost s0: Placed<V>) returns (p: int, ghost s: Placed<V>)
      requires Valid() && Live(nodes, freed, s0) && s0.Branch? && n == s0.p
      modifies this
      ensures Valid() && Live(nodes, freed, s) && s.Ptr() == p && s0.Tree().Node? && s.Tree() == WithoutLeast(s0.Tree())
      ensures Delmined(old(nodes), old(freed), s0, nodes, freed, s)
      decreases s0
    {
      ghost var before, f := nodes, freed;
      Sides(nodes, freed, s0);
      PtrNull(nodes, freed, s0.l);
      if nodes[n].l == NULL {
        p, s := nodes[n].r, s0.r;
        assert Delmined(before, f, s0, nodes, freed, s);
      } else {
        hide Live, Placed.Foot, Placed.Tree, Conserved, Heap.Valid, BonsaiTree.Balance, Delmined;
        var q; ghost var sq;
        q, sq := TreeDelmin(nodes[n].l, s0.l);
        DelminedSide(before, f, s0, nodes, freed, sq);
        ghost var mid, g := nodes, freed;
        p, s := TreeBalance(n, q, nodes[n].r, true, false, sq, s0.r);
        DelminedNode(before, f, s0, mid, g, sq, nodes, freed, s);
      }
    }

    /** One tree of two, the first node of the second on top. */
    method TreeDelprime(l: int, r: int, ghost sl: Placed<V>, ghost sr: Placed<V>) returns (p: int, ghost s: Placed<V>)
      requires Valid() && Live(nodes, freed, sl) && Live(nodes, freed, sr) && sl.Foot() !! sr.Foot() &&
               l == sl.Ptr() && r == sr.Ptr()
      modifies this
      ensures Valid() && Live(nodes, freed, s) && s.Ptr() == p && s.Tree() == Join(sl.Tree(), sr.Tree())
      ensures Grown(old(nodes), nodes, NULL) &&
              Conserved(sl.Foot() + sr.Foot(), old(freed), |old(nodes)|, s.Foot(), freed, |nodes|)
    {
      PtrNull(nodes, freed, sl);
      PtrNull(nodes, freed, sr);
      if l == NULL {
        p, s := r, sr;
      } else if r == NULL {
        p, s := l, sl;
      } else {
        assert sl.Tree().Node? && sr.Tree().Node?;
        hide Live, Placed.Foot, Placed.Tree, Conserved, Heap.Valid, BonsaiTree.Balance, Delmined;
        ghost var before, f := nodes, freed;
        var min := TreeMin(r, sr);
        var q; ghost var sq;
        q, sq := TreeDelmin(r, sr);
        JoinReady(before, f, sl, sr, nodes, freed, sq);
        ghost var mid, g := nodes, freed;
        p, s := TreeBalance(min, l, q, false, false, sl, sq);
        JoinConserved(before, f, sl, sr, mid, g, sq, nodes, freed, s);
      }
    }

    /** Takes a key from a tree in memory; its node is freed. */
    method TreeRemove(n: int, key: int, ghost s0: Placed<V>) returns (p: int, ghost s: Placed<V>)
      requires Valid() && Live(nodes, freed, s0) && n == s0.Ptr()
      modifies this
      ensures Valid() && Live(nodes, freed, s) && s.Ptr() == p && Changed(old(nodes), old(freed), s0, nodes, freed, s)
      ensures s.Tree() == BonsaiTree.Remove(s0.Tree(), key)
      ensures s0.Branch? && Keeps(s0.Tree(), key) ==> p == n
      decreases s0
    {
      PtrNull(nodes, freed, s0);
      ghost var before, f := nodes, freed;
      if n == NULL {
        p, s := NULL, Leaf;
      } else {
        Sides(nodes, freed, s0);
        hide Live, Placed.Foot, Placed.Tree, Conserved, Heap.Valid, BonsaiTree.Balance, BonsaiTree.Join, Changed;
        var q; ghost var sq;
        if key < nodes[n].key {
          q, sq := TreeRemove(nodes[n].l, key, s0.l);
          p, s := Rebuild(n, q, true, true, s0, sq, before, f);
        } else if key > nodes[n].key {
          q, sq := TreeRemove(nodes[n].r, key, s0.r);
          p, s := Rebuild(n, q, false, true, s0, sq, before, f);
        } else {
          p, s := TreeDelprime(nodes[n].l, nodes[n].r, s0.l, s0.r);
          Discard(n, s, s0.l.Foot(), s0.r.Foot(), f, |before|);
          JoinChanged(before, f, s0, nodes, freed, s);
        }
      }
    }

    /** Frees a node that a rotation has left out. */
    method Discard(n: int, ghost s: Placed<V>, ghost x: set<int>, ghost y: set<int>, ghost freed0: set<int>, ghost a: int)
      requires Valid() && Live(nodes, freed, s) && Conserved(x + y, freed0, a, s.Foot(), freed, |nodes|)
      requires 0 <= n < a <= |nodes| && n !in x && n !in y && n !in freed0
      modifies this`freed
      ensures Valid() && Live(nodes, freed, s) && Conserved({n} + x + y, freed0, a, s.Foot(), freed, |nodes|)
    {
      Free(n, s);
    }
  }

  /** The stored sizes tell which nodes are there. */
  lemma LivesHeavy<V>(nodes: seq<Rec<V>>, freed: set<int>, s: Placed<V>)
    requires Live(nodes, freed, s)
    ensures s.Leaf? <==> s.Tree().Size() == 0
    ensures s.Branch? ==> 0 <= s.p < |nodes| && nodes[s.p].size == s.Tree().Size()
    ensures s.Branch? && s.Tree().Size() >= 2 && s.Tree().l.Size() >= s.Tree().r.Size() ==> s.l.Branch?
    ensures s.Branch? && s.Tree().Size() >= 2 && s.Tree().r.Size() >= s.Tree().l.Size() ==> s.r.Branch?
    ensures s.Branch? && s.l.Branch? ==> 0 <= s.l.p < |nodes| && nodes[s.p].l == s.l.p && nodes[s.l.p].size == s.Tree().l.Size()
    ensures s.Branch? && s.r.Branch? ==> 0 <= s.r.p < |nodes| && nodes[s.p].r == s.r.p && nodes[s.r.p].size == s.Tree().r.Size()
    ensures s.Branch? && s.l.Leaf? ==> nodes[s.p].l == NULL && s.Tree().l.Size() == 0
    ensures s.Branch? && s.r.Leaf? ==> nodes[s.p].r == NULL && s.Tree().r.Size() == 0
  {
    s.Tree().SizeIs();
    if s.Branch? && s.Tree().Size() >= 2 {
      Heavier(s.Tree());
    }
  }

  lemma LoadShrinks<V>(l: Tree<V>, r: Tree<V>)
    requires l.Sized() && r.Sized()
    ensures r.Node? && r.l.Node? ==> r.l.Sized() && Load(r.l.r, r.r) < Load(l, r)
    ensures l.Node? && l.r.Node? ==> l.r.Sized() && Load(l.l, l.r.l) < Load(l, r)
  {
    l.SizeIs();
    r.SizeIs();
    if r.Node? && r.l.Node? {
      r.l.l.SizeIs();
    }
    if l.Node? && l.r.Node? {
      l.r.r.SizeIs();
    }
  }

  /** A tree that takes no part in a step lives on. */
  lemma Bystander<V>(nodes: seq<Rec<V>>, freed: set<int>, after: seq<Rec<V>>, freed': set<int>, s: Placed<V>, was: set<int>, now: set<int>)
    requires Live(nodes, freed, s) && Grown(nodes, after, NULL) && s.Foot() !! was
    requires Conserved(was, freed, |nodes|, now, freed', |after|)
    ensures Live(after, freed', s) && s.Foot() !! now
  {
    s.InHeap(nodes);
    StaysApart(was, freed, |nodes|, now, freed', |after|, s.Foot());
    LivesOn(nodes, freed, after, freed', NULL, s);
  }
}
