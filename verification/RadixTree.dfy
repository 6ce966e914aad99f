/**
 The shape of a radix tree that stores runs of equal values once, high up in the tree.
 Keys are split into digits: one for the slot in a leaf, and one for each level above.
 */
module RadixTree {
  import opened Division
  import opened Options

  /** Slots of a leaf and of an upper node, and the number of elements. */
  datatype Radix = Radix(leaf: int, upper: int, n: int) {
    ghost predicate Valid() { 1 <= leaf && 2 <= upper && 2 <= n }

    /** Slots of a node on a level. */
    function Fan(level: nat): (f: int)
      requires Valid()
      ensures f >= 1
    {
      if level == 0 then leaf else upper
    }

    /** Keys that one slot on a level spans. */
    function Span(level: nat): (s: int)
      requires Valid()
      ensures s >= 1
    {
      if level == 0 then 1 else Span(level - 1) * Fan(level - 1)
    }

    /** The number of the slot on a level that covers key k, counted from the left edge of the array. */
    function Block(k: nat, level: nat): nat
      requires Valid()
    {
      if level == 0 then k else Block(k, level - 1) / Fan(level - 1)
    }

    /** The slot of key k in its node on a level. */
    function Subkey(k: nat, level: nat): (j: nat)
      requires Valid()
      ensures j < Fan(level)
    {
      Block(k, level) % Fan(level)
    }

    lemma SpanStep(level: nat)
      requires Valid()
      ensures Span(level + 1) == Span(level) * Fan(level)
    {
    }

    lemma SpanDoubles(level: nat)
      requires Valid() && level >= 1
      ensures Span(level + 1) >= 2 * Span(level)
    {
      SpanStep(level);
      hide Span;
      Monotone(2, upper, Span(level));
    }

    lemma {:induction false} SpanGrows(level: nat)
      requires Valid()
      ensures Span(level) >= level
      decreases level
    {
      if level >= 2 {
        SpanGrows(level - 1);
        SpanDoubles(level - 1);
      }
    }

    /** The first level, from the given one up, on which one slot spans the array. */
    function NumLevels(level: nat): (l: nat)
      requires Valid() && (level >= 1 ==> Span(level - 1) < n)
      ensures Span(l) >= n && l >= 1 && Span(l - 1) < n
      decreases n - level
    {
      SpanGrows(level);
      if Span(level) >= n then level else NumLevels(level + 1)
    }

    function Levels(): (l: nat)
      requires Valid()
      ensures Span(l) >= n && l >= 1 && Span(l - 1) < n
    {
      NumLevels(0)
    }

    /** The slot on level `top` that covers slot b of a lower level. */
    function Up(b: nat, level: nat, top: nat): nat
      requires Valid() && level <= top
      decreases top
    {
      if level == top then b else Up(b, level, top - 1) / Fan(top - 1)
    }

    lemma {:induction false} UpBlock(k: nat, level: nat, top: nat)
      requires Valid() && level <= top
      ensures Up(Block(k, level), level, top) == Block(k, top)
      decreases top
    {
      if level < top {
        UpBlock(k, level, top - 1);
      }
    }

    // Blocks and spans

    /** A slot covers an aligned range of keys. */
    lemma {:induction false} BlockRange(k: nat, level: nat)
      requires Valid()
      ensures Block(k, level) * Span(level) <= k < (Block(k, level) + 1) * Span(level)
      decreases level
    {
      if level > 0 {
        BlockRange(k, level - 1);
        SpanStep(level - 1);
        var b, f, s := Block(k, level - 1), Fan(level - 1), Span(level - 1);
        assert Block(k, level) == b / f;
        hide Span, Block, Fan;
        Split(b, f);
        Scale(b / f, f, s, b);
      }
    }

    /** The range determines the slot. */
    lemma BlockIs(k: nat, level: nat, b: nat)
      requires Valid() && b * Span(level) <= k < (b + 1) * Span(level)
      ensures Block(k, level) == b
    {
      hide Block, Span;
      BlockRange(k, level);
      var c := Block(k, level);
      if c < b {
        Factor(c, b, Span(level));
      } else if c > b {
        Factor(b, c, Span(level));
      }
    }

    /** Every key of the array is under the only slot of the root, and the end of the array is just beyond. */
    lemma RootHolds(k: nat)
      requires Valid() && k <= n
      ensures k < n ==> Block(k, Levels()) == 0
      ensures Block(k, Levels() + 1) == 0
    {
      hide Block, Levels;
      if k < n {
        FirstBlock(k, Levels());
      }
      SpanDoubles(Levels());
      FirstBlock(k, Levels() + 1);
    }

    /** From a key to the end of its slot. */
    lemma RestOfBlock(k: nat, level: nat, m: nat)
      requires Valid() && k <= m < k + Span(level) - k % Span(level)
      ensures Block(m, level) == Block(k, level)
    {
      hide Block, Span;
      BlockRange(k, level);
      var b, s := Block(k, level), Span(level);
      QuotientIs(k, s, b, k - b * s);
      Split(k, s);
      BlockIs(m, level, b);
    }

    lemma FirstBlock(k: nat, level: nat)
      requires Valid() && k < Span(level)
      ensures Block(k, level) == 0
    {
      hide Block, Span;
      BlockIs(k, level, 0);
    }

    /** Slots are filled from an external value up to here; it is all of them if a value spans the whole array. */
    function LevelFanout(level: nat): nat
      requires Valid() && level >= 1
    {
      if level == Levels() then n / Span(Levels() - 1) else upper
    }

    lemma FanoutWhole(level: nat)
      requires Valid() && 2 <= level <= Levels() && (level == Levels() ==> n == Span(Levels()))
      ensures LevelFanout(level) == upper
    {
      if level == Levels() {
        QuotientIs(n, Span(level - 1), upper, 0);
      }
    }
  }

  // Powers of two

  function Pow2(e: nat): (p: int)
    ensures p >= 1
  {
    if e == 0 then 1 else 2 * Pow2(e - 1)
  }

  lemma {:induction false} Pow2Add(a: nat, b: nat)
    ensures Pow2(a + b) == Pow2(a) * Pow2(b)
  {
    if b > 0 {
      Pow2Add(a, b - 1);
      assert Pow2(a + b) == 2 * Pow2(a + b - 1) && Pow2(b) == 2 * Pow2(b - 1);
    }
  }

  /** How far a key is shifted for a level, with leaves of 2^leafBits and nodes of 2^upperBits slots. */
  function KeyShift(leafBits: nat, upperBits: nat, level: nat): nat {
    if level == 0 then 0 else leafBits + (level - 1) * upperBits
  }

  /** With powers of two, spans are shifts, and slots are a shift and a mask of the key. */
  lemma {:induction false} ShiftAndMask(leafBits: nat, upperBits: nat, n: int, k: nat, level: nat)
    requires upperBits >= 1 && n >= 2
    ensures var r, shift := Radix(Pow2(leafBits), Pow2(upperBits), n), KeyShift(leafBits, upperBits, level);
            r.Valid() && r.Span(level) == Pow2(shift) && r.Block(k, level) == k / Pow2(shift)
  {
    var r := Radix(Pow2(leafBits), Pow2(upperBits), n);
    assert Pow2(upperBits) == 2 * Pow2(upperBits - 1);
    if level > 0 {
      ShiftAndMask(leafBits, upperBits, n, k, level - 1);
      Pow2Add(KeyShift(leafBits, upperBits, level - 1), if level == 1 then leafBits else upperBits);
      assert level >= 2 ==> (level - 1) * upperBits == (level - 2) * upperBits + upperBits;
    }
    r.BlockRange(k, level);
    QuotientIs(k, r.Span(level), r.Block(k, level), k - r.Block(k, level) * r.Span(level));
  }

  lemma Scale(q: nat, f: int, s: int, b: nat)
    requires f >= 1 && s >= 1 && q * f <= b < q * f + f
    ensures q * (s * f) <= b * s && (b + 1) * s <= (q + 1) * (s * f)
  {
    Associate(q, s, f);
    Associate(q + 1, s, f);
    Successor(q, f);
    Monotone(q * f, b, s);
    Monotone(b + 1, q * f + f, s);
  }

  // The tree

  /** A slot is empty, or has one value for all its keys, or leads to a node; slots of leaves never do. */
  datatype Ptr<V> = Null | External(value: V) | Child(node: int) {
    predicate Terminal() { !Child? }
    function Value(): Option<V> requires Terminal() { if Null? then None else Some(value) }
  }

  /**
   The nodes, of which the first is the root above the top level with its single slot.
   Each node has a level, a parent, and the number of its own slot in the level above.
   */
  datatype Tree<V> = Tree(r: Radix, nodes: seq<seq<Ptr<V>>>, lvl: seq<int>, pre: seq<int>, par: seq<int>) {
    ghost predicate Shaped() {
      && r.Valid() && |nodes| >= 1 && |lvl| == |nodes| && |pre| == |nodes| && |par| == |nodes|
      && (forall i :: 0 <= i < |nodes| ==> 0 <= lvl[i] <= r.Levels() && 0 <= pre[i])
    }

    /** Key k is one of those under node i. */
    ghost predicate Under(i: int, k: int)
      requires Shaped()
    {
      0 <= i < |nodes| && 0 <= k && r.Block(k, r.Levels()) == 0 && r.Block(k, lvl[i] + 1) == pre[i]
    }

    /** The slot of node i and key k in it has its place in the tree. */
    ghost predicate Rooted(i: int)
      requires Shaped() && 0 <= i < |nodes|
    {
      if i == 0 then lvl[0] == r.Levels() && pre[0] == 0 && |nodes[0]| == 1
      else && lvl[i] < r.Levels() && |nodes[i]| == r.Fan(lvl[i])
           && 0 <= par[i] < |nodes| && lvl[par[i]] == lvl[i] + 1 && pre[par[i]] == pre[i] / r.Fan(lvl[i] + 1)
           && pre[i] % r.Fan(lvl[i] + 1) < |nodes[par[i]]|
           && nodes[par[i]][pre[i] % r.Fan(lvl[i] + 1)] == Child(i)
    }

    /** Slot j of node i leads to a node that belongs there, if to any. */
    ghost predicate Leads(i: int, j: int)
      requires Shaped() && 0 <= i < |nodes| && 0 <= j < |nodes[i]|
    {
      nodes[i][j].Child? ==>
        var c := nodes[i][j].node;
        lvl[i] > 0 && 0 < c < |nodes| && lvl[c] == lvl[i] - 1 && pre[c] == pre[i] * r.Fan(lvl[i]) + j
    }

    ghost predicate Valid() {
      && Shaped()
      && (forall i :: 0 <= i < |nodes| ==> Rooted(i))
      && (forall i, j :: 0 <= i < |nodes| && 0 <= j < |nodes[i]| ==> Leads(i, j))
    }

    /** The slot of a key is there, and a child in it has the key under it. */
    lemma SlotOf(i: int, k: int)
      requires Valid() && Under(i, k)
      ensures r.Subkey(k, lvl[i]) < |nodes[i]|
      ensures var p := nodes[i][r.Subkey(k, lvl[i])]; p.Child? ==> lvl[i] > 0 && Under(p.node, k) && lvl[p.node] == lvl[i] - 1
    {
      assert Rooted(i);
      var l := lvl[i];
      Split(r.Block(k, l), r.Fan(l));
      assert r.Block(k, l + 1) == r.Block(k, l) / r.Fan(l);
      if i == 0 {
        assert r.Subkey(k, l) == 0;
      }
      assert Leads(i, r.Subkey(k, l));
    }

    lemma RootUnder(k: int)
      requires Valid() && 0 <= k < r.n
      ensures Under(0, k)
    {
      hide Radix.Block, Radix.Levels;
      assert Rooted(0);
      r.RootHolds(k);
    }

    /** What the tree has for a key under node i. */
    ghost function Get(i: int, k: int): Option<V>
      requires Valid() && Under(i, k)
      decreases lvl[i]
    {
      SlotOf(i, k);
      var p := nodes[i][r.Subkey(k, lvl[i])];
      if p.Child? then Get(p.node, k) else p.Value()
    }

    /** A search may start at any node that has the key under it. */
    lemma {:induction false} GetAnywhere(i: int, k: int)
      requires Valid() && Under(i, k)
      ensures Under(0, k) && Get(0, k) == Get(i, k)
      decreases r.Levels() - lvl[i]
    {
      assert Rooted(i);
      if i > 0 {
        var p, l := par[i], lvl[i] + 1;
        Split(r.Block(k, l), r.Fan(l));
        assert r.Block(k, l + 1) == r.Block(k, l) / r.Fan(l);
        assert Under(p, k);
        GetAnywhere(p, k);
      }
    }

    lemma ChildOf(i: int, j: int)
      requires Valid() && 0 <= i < |nodes| && 0 <= j < |nodes[i]| && nodes[i][j].Child?
      ensures var c := nodes[i][j].node;
              && lvl[i] > 0 && 0 < c < |nodes| && lvl[c] == lvl[i] - 1
              && pre[c] == pre[i] * r.Fan(lvl[i]) + j && |nodes[c]| == r.Fan(lvl[c])
    {
      assert Leads(i, j);
      assert Rooted(nodes[i][j].node);
    }

    /** The number on its level of the slot of node i for a key under it. */
    lemma SlotNumber(i: int, k: int)
      requires Shaped() && Under(i, k)
      ensures pre[i] * r.Fan(lvl[i]) + r.Subkey(k, lvl[i]) == r.Block(k, lvl[i])
    {
      Split(r.Block(k, lvl[i]), r.Fan(lvl[i]));
      assert r.Block(k, lvl[i] + 1) == r.Block(k, lvl[i]) / r.Fan(lvl[i]);
    }
  }

  // Changing the tree

  /** The same nodes in the same places. */
  ghost predicate SameShape<V>(t: Tree<V>, u: Tree<V>) {
    && u == t.(nodes := u.nodes) && |u.nodes| == |t.nodes|
    && forall i :: 0 <= i < |t.nodes| ==> |u.nodes[i]| == |t.nodes[i]|
  }

  /** Slot j of node i lies under the slots lo to hi of a level. */
  ghost predicate Within<V>(t: Tree<V>, i: int, j: int, level: nat, lo: int, hi: int)
    requires t.Shaped() && 0 <= i < |t.nodes| && 0 <= j
  {
    t.lvl[i] <= level && lo <= t.r.Up(t.pre[i] * t.r.Fan(t.lvl[i]) + j, t.lvl[i], level) < hi
  }

  /** Only slots under the slots lo to hi of a level have changed. */
  ghost predicate SameOutside<V>(t: Tree<V>, u: Tree<V>, level: nat, lo: int, hi: int) {
    && t.Shaped() && SameShape(t, u)
    && forall i, j :: 0 <= i < |t.nodes| && 0 <= j < |t.nodes[i]| && !Within(t, i, j, level, lo, hi) ==> u.nodes[i][j] == t.nodes[i][j]
  }

  /** Keys elsewhere keep their values. */
  lemma {:induction false} GetOutside<V>(t: Tree<V>, u: Tree<V>, level: nat, lo: int, hi: int, i: int, k: int)
    requires t.Valid() && u.Valid() && SameOutside(t, u, level, lo, hi) && t.Under(i, k)
    requires !(lo <= t.r.Block(k, level) < hi)
    ensures u.Under(i, k) && u.Get(i, k) == t.Get(i, k)
    decreases t.lvl[i]
  {
    var l := t.lvl[i];
    var j := t.r.Subkey(k, l);
    t.SlotOf(i, k);
    t.SlotNumber(i, k);
    if l <= level {
      t.r.UpBlock(k, l, level);
    }
    assert !Within(t, i, j, level, lo, hi);
    assert u.nodes[i][j] == t.nodes[i][j];
    u.SlotOf(i, k);
    if t.nodes[i][j].Child? {
      GetOutside(t, u, level, lo, hi, t.nodes[i][j].node, k);
    }
  }

  /** Two changes in a row, the second just to the right of the first. */
  lemma SameOutsideTwice<V>(t: Tree<V>, u: Tree<V>, w: Tree<V>, level: nat, lo: int, mid: int, hi: int)
    requires SameOutside(t, u, level, lo, mid) && SameOutside(u, w, level, mid, hi) && lo <= mid <= hi
    ensures SameOutside(t, w, level, lo, hi)
  {
    forall i, j | 0 <= i < |t.nodes| && 0 <= j < |t.nodes[i]| && !Within(t, i, j, level, lo, hi)
      ensures w.nodes[i][j] == t.nodes[i][j]
    {
      assert !Within(t, i, j, level, lo, mid);
      assert !Within(u, i, j, level, mid, hi);
    }
  }

  lemma WithinAbove<V>(t: Tree<V>, i: int, j: int, level: nat, q: nat, lo: int, hi: int)
    requires t.Shaped() && 0 <= i < |t.nodes| && 0 <= j && lo == q * t.r.Fan(level) && hi == lo + t.r.Fan(level)
    requires Within(t, i, j, level, lo, hi)
    ensures Within(t, i, j, level + 1, q, q + 1)
  {
    var b := t.pre[i] * t.r.Fan(t.lvl[i]) + j;
    QuotientIs(t.r.Up(b, t.lvl[i], level), t.r.Fan(level), q, t.r.Up(b, t.lvl[i], level) - lo);
    assert t.r.Up(b, t.lvl[i], level + 1) == t.r.Up(b, t.lvl[i], level) / t.r.Fan(level);
  }

  /** A change under all slots of a node is one under the slot that leads to it. */
  lemma SameOutsideAbove<V>(t: Tree<V>, u: Tree<V>, level: nat, q: nat, lo: int, hi: int)
    requires t.Shaped() && lo == q * t.r.Fan(level) && hi == lo + t.r.Fan(level) && SameOutside(t, u, level, lo, hi)
    ensures SameOutside(t, u, level + 1, q, q + 1)
  {
    hide Within;
    forall i, j | 0 <= i < |t.nodes| && 0 <= j < |t.nodes[i]| && !Within(t, i, j, level + 1, q, q + 1)
      ensures u.nodes[i][j] == t.nodes[i][j]
    {
      if Within(t, i, j, level, lo, hi) {
        WithinAbove(t, i, j, level, q, lo, hi);
        assert false;
      }
    }
  }

  /** Changing the value of a slot keeps the tree in order. */
  lemma SetSlot<V>(t: Tree<V>, u: Tree<V>, i: int, j: int, p: Ptr<V>)
    requires t.Valid() && 0 <= i < |t.nodes| && 0 <= j < |t.nodes[i]| && t.nodes[i][j].Terminal() && p.Terminal()
    requires u == t.(nodes := t.nodes[i := t.nodes[i][j := p]])
    ensures u.Valid() && SameOutside(t, u, t.lvl[i], t.pre[i] * t.r.Fan(t.lvl[i]) + j, t.pre[i] * t.r.Fan(t.lvl[i]) + j + 1)
  {
    forall c | 0 <= c < |u.nodes| ensures u.Rooted(c) {
      assert t.Rooted(c);
    }
    forall c, d | 0 <= c < |u.nodes| && 0 <= d < |u.nodes[c]| ensures u.Leads(c, d) {
      assert t.Leads(c, d);
    }
  }

  /** Replaces a value by a node that has it in all its slots. */
  ghost function Expanded<V>(t: Tree<V>, i: int, j: int, slots: seq<Ptr<V>>): Tree<V>
    requires t.Shaped() && 0 <= i < |t.nodes| && 0 <= j < |t.nodes[i]|
  {
    t.(nodes := t.nodes[i := t.nodes[i][j := Child(|t.nodes|)]] + [slots],
       lvl := t.lvl + [t.lvl[i] - 1], pre := t.pre + [t.pre[i] * t.r.Fan(t.lvl[i]) + j], par := t.par + [i])
  }

  ghost predicate Expandable<V>(t: Tree<V>, i: int, j: int, slots: seq<Ptr<V>>) {
    && t.Valid() && 0 <= i < |t.nodes| && t.lvl[i] > 0 && 0 <= j < |t.nodes[i]| && t.nodes[i][j].Terminal()
    && |slots| == t.r.Fan(t.lvl[i] - 1) && forall d :: 0 <= d < |slots| ==> slots[d] == t.nodes[i][j]
  }

  lemma ExpandValid<V>(t: Tree<V>, i: int, j: int, slots: seq<Ptr<V>>)
    requires Expandable(t, i, j, slots)
    ensures Expanded(t, i, j, slots).Valid()
  {
    hide Radix.Levels, Radix.Span, Radix.Block;
    var u, f := Expanded(t, i, j, slots), t.r.Fan(t.lvl[i]);
    assert t.Rooted(i);
    assert j < f;
    QuotientIs(t.pre[i] * f + j, f, t.pre[i], j);
    Product(t.pre[i], f);
    forall c | 0 <= c < |u.nodes| ensures u.Rooted(c) {
      if c < |t.nodes| {
        assert t.Rooted(c);
      }
    }
    forall c, d | 0 <= c < |u.nodes| && 0 <= d < |u.nodes[c]| ensures u.Leads(c, d) {
      if c < |t.nodes| {
        assert t.Leads(c, d);
      }
    }
  }

  /** It changes no value. */
  lemma {:induction false} ExpandGet<V>(t: Tree<V>, i: int, j: int, slots: seq<Ptr<V>>, c: int, k: int)
    requires Expandable(t, i, j, slots) && Expanded(t, i, j, slots).Valid() && t.Under(c, k)
    ensures Expanded(t, i, j, slots).Under(c, k) && Expanded(t, i, j, slots).Get(c, k) == t.Get(c, k)
    decreases t.lvl[c]
  {
    var u := Expanded(t, i, j, slots);
    t.SlotOf(c, k);
    u.SlotOf(c, k);
    var d := t.r.Subkey(k, t.lvl[c]);
    if c == i && d == j {
      u.SlotOf(|t.nodes|, k);
      assert u.Get(|t.nodes|, k) == t.nodes[i][j].Value();
    } else if t.nodes[c][d].Child? {
      ExpandGet(t, i, j, slots, t.nodes[c][d].node, k);
    }
  }
}
