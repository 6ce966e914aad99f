/**
 The radix array and its iterators.  A node is known by its number in the list of nodes, which
 only grows; a cell of a leaf is a slot that is empty or has a value.
 */
module RadixArrays {
  import opened Division
  import opened Options
  import opened RadixTree

  function Slot<V>(x: Option<V>): Ptr<V> {
    if x.None? then Null else External(x.value)
  }

  /** The keys under slots lo to hi of node i have value x. */
  ghost predicate AllSet<V>(t: Tree<V>, i: int, lo: int, hi: int, x: Option<V>)
    requires t.Valid() && 0 <= i < |t.nodes|
  {
    forall k :: t.Under(i, k) && lo <= t.r.Subkey(k, t.lvl[i]) < hi ==> t.Get(i, k) == x
  }

  /** Slot s of node i has value x, or leads to a node that has it everywhere. */
  ghost predicate SlotSet<V>(t: Tree<V>, i: int, s: int, x: Option<V>)
    requires t.Valid() && 0 <= i < |t.nodes| && 0 <= s < |t.nodes[i]|
  {
    assert t.Leads(i, s);
    if t.nodes[i][s].Child? then AllSet(t, t.nodes[i][s].node, 0, t.r.Fan(t.lvl[i] - 1), x) else t.nodes[i][s].Value() == x
  }

  lemma OneMoreSet<V>(t: Tree<V>, u: Tree<V>, i: int, lo: int, s: int, x: Option<V>, b: int)
    requires t.Valid() && u.Valid() && 0 <= i < |t.nodes| && 0 <= lo <= s < |t.nodes[i]| && b == t.pre[i] * t.r.Fan(t.lvl[i]) + s
    requires AllSet(t, i, lo, s, x) && SameOutside(t, u, t.lvl[i], b, b + 1) && SlotSet(u, i, s, x)
    ensures AllSet(u, i, lo, s + 1, x)
  {
    forall k | u.Under(i, k) && lo <= u.r.Subkey(k, u.lvl[i]) < s + 1 ensures u.Get(i, k) == x {
      u.SlotOf(i, k);
      if u.r.Subkey(k, u.lvl[i]) < s {
        t.SlotNumber(i, k);
        GetOutside(t, u, t.lvl[i], b, b + 1, i, k);
      }
    }
  }

  /** A change on lower levels keeps the slot that leads there. */
  lemma SlotKept<V>(t: Tree<V>, u: Tree<V>, i: int, s: int, level: nat, lo: int, hi: int)
    requires t.Shaped() && SameOutside(t, u, level, lo, hi) && 0 <= i < |t.nodes| && 0 <= s < |t.nodes[i]| && t.lvl[i] > level
    ensures |u.nodes| == |t.nodes| && |u.nodes[i]| == |t.nodes[i]| && u.nodes[i][s] == t.nodes[i][s] &&
            u.lvl == t.lvl && u.pre == t.pre
  {
    assert !Within(t, i, s, level, lo, hi);
  }

  /** The nodes from the given one on are on the way to key k, and none of them is below a level. */
  ghost predicate Along(r: Radix, lvl: seq<int>, pre: seq<int>, from: int, k: nat, level: nat)
    requires r.Valid()
  {
    |pre| == |lvl| && forall i :: 0 <= from <= i < |lvl| ==> lvl[i] >= level && pre[i] == r.Block(k, lvl[i] + 1)
  }

  lemma AlongMore(r: Radix, lvl: seq<int>, pre: seq<int>, from: int, k: nat, level: nat, next: nat)
    requires r.Valid() && Along(r, lvl, pre, from, k, level) && next >= level
    ensures Along(r, lvl + [next], pre + [r.Block(k, next + 1)], from, k, level)
  {
  }

  lemma AlongNone(r: Radix, lvl: seq<int>, pre: seq<int>, k: nat, level: nat)
    requires r.Valid() && |pre| == |lvl|
    ensures Along(r, lvl, pre, |lvl|, k, level)
  {
  }

  class RadixArray<V> {
    const r: Radix
    var nodes: seq<seq<Ptr<V>>>
    ghost var lvl: seq<int>
    ghost var pre: seq<int>
    ghost var par: seq<int>

    ghost function T(): Tree<V>
      reads this
    {
      Tree(r, nodes, lvl, pre, par)
    }

    ghost predicate Valid()
      reads this
    {
      T().Valid()
    }

    /** One value spans everything only if the array fills the tree. */
    ghost predicate Whole()
      reads this
    {
      |nodes| >= 1 && |nodes[0]| == 1 && (nodes[0][0].External? ==> r.Valid() && r.n == r.Span(r.Levels()))
    }

    ghost predicate Up()
      reads this
    {
      Valid() && Whole()
    }

    /** The value of a key, which is what a flat array would have. */
    ghost function At(k: int): Option<V>
      requires Valid() && 0 <= k < r.n
      reads this
    {
      T().RootUnder(k);
      T().Get(0, k)
    }

    constructor (r: Radix)
      requires r.Valid()
      ensures Up() && this.r == r && forall k :: 0 <= k < r.n ==> At(k) == None
    {
      this.r, nodes := r, [[Null]];
      lvl, pre, par := [r.Levels()], [0], [0];
      new;
      forall k | 0 <= k < r.n ensures At(k) == None {
        T().RootUnder(k);
      }
    }

    /** Gives every key under some slots of a node the value x, however deep the tree is there. */
    method SetRecursive(i: int, level: nat, idx: int, len: nat, x: Option<V>)
      requires Valid() && 0 <= i < |nodes| && lvl[i] == level && 0 <= idx <= idx + len <= |nodes[i]|
      modifies this`nodes
      ensures Valid() && SameShape(old(T()), T()) && AllSet(T(), i, idx, idx + len, x)
      ensures var b := pre[i] * r.Fan(level) + idx; SameOutside(old(T()), T(), level, b, b + len)
      decreases level, 1
    {
      assert AllSet(T(), i, idx, idx, x);
      ghost var t := T();
      ghost var b := pre[i] * r.Fan(level) + idx;
      assert SameOutside(t, t, level, b, b);
      hide AllSet, SameOutside, SlotSet, Radix.Fan, Tree.Rooted, Tree.Leads;
      for s := idx to idx + len
        invariant Valid() && SameShape(t, T()) && SameOutside(t, T(), level, b, b + (s - idx)) && AllSet(T(), i, idx, s, x)
      {
        ghost var before := T();
        SetSlots(i, level, s, x);
        OneMoreSet(before, T(), i, idx, s, x, b + (s - idx));
        SameOutsideTwice(t, before, T(), level, b, b + (s - idx), b + (s - idx) + 1);
      }
    }

    /** Does so for one slot: sets its value, or goes down into the node that it leads to. */
    method SetSlots(i: int, level: nat, s: int, x: Option<V>)
      requires Valid() && 0 <= i < |nodes| && lvl[i] == level && 0 <= s < |nodes[i]|
      modifies this`nodes
      ensures Valid() && SameShape(old(T()), T()) && SlotSet(T(), i, s, x)
      ensures var b := pre[i] * r.Fan(level) + s; SameOutside(old(T()), T(), level, b, b + 1)
      decreases level, 0
    {
      hide Tree.Rooted, Tree.Leads, Within, AllSet, Radix.Fan, SameOutside;
      ghost var t := T();
      var p := nodes[i][s];
      if p.Child? {
        t.ChildOf(i, s);
        SetRecursive(p.node, level - 1, 0, r.Fan(level - 1), x);
        ghost var first := t.pre[p.node] * r.Fan(level - 1);
        SlotKept(t, T(), i, s, level - 1, first, first + r.Fan(level - 1));
        SameOutsideAbove(t, T(), level - 1, t.pre[p.node], first, first + r.Fan(level - 1));
      } else {
        nodes := nodes[i := nodes[i][s := Slot(x)]];
        SetSlot(t, T(), i, s, Slot(x));
      }
    }

    /** The slots of a new node below a level, to replace a value. */
    method NewSlots(level: nat, p: Ptr<V>) returns (slots: seq<Ptr<V>>)
      requires r.Valid() && 1 <= level <= r.Levels() && p.Terminal() && (level == r.Levels() && p.External? ==> r.n == r.Span(r.Levels()))
      ensures |slots| == r.Fan(level - 1) && forall d :: 0 <= d < |slots| ==> slots[d] == p
    {
      hide Radix.Levels, Radix.Span;
      if p.External? && level > 1 {
        r.FanoutWhole(level);
      }
      slots := if level > 1 then seq(r.upper, d requires 0 <= d < r.upper => if d < r.LevelFanout(level) then p else Null)
               else seq(r.leaf, d requires 0 <= d < r.leaf => p);
    }

    /** Replaces the value in a slot by a node with that value in each of its slots. */
    method Expand(i: int, level: nat, j: int) returns (c: int)
      requires Up() && 0 <= i < |nodes| && lvl[i] == level && level > 0 && 0 <= j < |nodes[i]| && nodes[i][j].Terminal()
      modifies this
      ensures Up() && c == |old(nodes)| && 0 <= i < |nodes| == c + 1 && lvl[c] == level - 1 && pre[c] == pre[i] * r.Fan(level) + j
      ensures lvl[..c] == old(lvl) && pre[..c] == old(pre)
      ensures 0 <= j < |nodes[i]| && nodes[i][j] == Child(c)
      ensures forall k :: 0 <= k < r.n ==> At(k) == old(At(k))
    {
      hide Radix.Block, Radix.Levels, Radix.Span;
      ghost var t := T();
      assert t.Rooted(i) && t.Rooted(0);
      var slots := NewSlots(level, nodes[i][j]);
      c := |nodes|;
      ExpandValid(t, i, j, slots);
      nodes := nodes[i := nodes[i][j := Child(c)]] + [slots];
      lvl, pre, par := lvl + [level - 1], pre + [pre[i] * r.Fan(level) + j], par + [i];
      assert T() == Expanded(t, i, j, slots);
      forall k | 0 <= k < r.n ensures At(k) == old(At(k)) {
        t.RootUnder(k);
        ExpandGet(t, i, j, slots, 0, k);
      }
    }
  }

  // Keys of one slot

  /** Keys with the same slot on a level have the same slot on every higher level. */
  lemma SameBlockAbove(r: Radix, k: nat, m: nat, level: nat, top: nat)
    requires r.Valid() && level <= top && r.Block(k, level) == r.Block(m, level)
    ensures r.Block(k, top) == r.Block(m, top)
  {
    r.UpBlock(k, level, top);
    r.UpBlock(m, level, top);
  }

  /** After a slot has been set, a key has the new value if it is under the slot, and its old value otherwise. */
  lemma SetOneSlot<V>(t: Tree<V>, u: Tree<V>, i: int, s: int, x: Option<V>, k: int, m: int)
    requires t.Valid() && u.Valid() && t.Under(i, k) && s == t.r.Subkey(k, t.lvl[i]) && t.Under(0, m)
    requires var b := t.r.Block(k, t.lvl[i]); SameOutside(t, u, t.lvl[i], b, b + 1) && AllSet(u, i, s, s + 1, x)
    ensures u.Under(0, m)
    ensures u.Get(0, m) == if t.r.Block(m, t.lvl[i]) == t.r.Block(k, t.lvl[i]) then x else t.Get(0, m)
  {
    var l := t.lvl[i];
    if t.r.Block(m, l) == t.r.Block(k, l) {
      assert t.r.Block(m, l + 1) == t.r.Block(k, l + 1);
      assert u.Under(i, m);
      u.GetAnywhere(i, m);
    } else {
      GetOutside(t, u, l, t.r.Block(k, l), t.r.Block(k, l) + 1, 0, m);
    }
  }

  /** A slot with a value has it for all keys under it. */
  lemma TerminalValue<V>(t: Tree<V>, i: int, k: int, m: int)
    requires t.Valid() && t.Under(i, k) && t.Under(0, m) && t.r.Block(m, t.lvl[i]) == t.r.Block(k, t.lvl[i])
    requires t.r.Subkey(k, t.lvl[i]) < |t.nodes[i]| && t.nodes[i][t.r.Subkey(k, t.lvl[i])].Terminal()
    ensures t.Get(0, m) == t.nodes[i][t.r.Subkey(k, t.lvl[i])].Value()
  {
    var l := t.lvl[i];
    assert t.r.Block(m, l + 1) == t.r.Block(k, l + 1);
    t.GetAnywhere(i, m);
  }

  class Iterator<V> {
    const a: RadixArray<V>
    var k: int
    /** A node with the key under it, and its level. */
    var node: int
    var level: int

    /** The cached node has the key under it; the end of the array is under the root. */
    ghost predicate Valid()
      reads this, a
    {
      && a.Up() && 0 <= k <= a.r.n && 0 <= node < |a.nodes| && level == a.lvl[node]
      && a.r.Block(k, level + 1) == a.pre[node]
    }

    constructor (a: RadixArray<V>, k: int)
      requires a.Up() && 0 <= k <= a.r.n
      ensures Valid() && this.a == a && this.k == k
    {
      this.a, this.k := a, k;
      node, level := 0, a.r.Levels();
      new;
      assert a.T().Rooted(0);
      a.r.RootHolds(k);
    }

    constructor Copy(o: Iterator<V>)
      requires o.Valid()
      ensures Valid() && a == o.a && k == o.k
    {
      a, k, node, level := o.a, o.k, o.node, o.level;
    }

    method ResetNode()
      requires a.Up() && 0 <= k <= a.r.n
      modifies this`node, this`level
      ensures Valid() && level == a.r.Levels()
    {
      node, level := 0, a.r.Levels();
      assert a.T().Rooted(0);
      a.r.RootHolds(k);
    }

    lemma Has()
      requires Valid() && k < a.r.n
      ensures a.T().Under(node, k)
    {
      a.r.RootHolds(k);
    }

    /** Goes down to the node whose slot for the key has a value, but not below the limit. */
    method ForceTerminal(limit: nat) returns (p: Ptr<V>)
      requires Valid() && k < a.r.n
      modifies this`node, this`level
      ensures Valid() && level <= old(level) && (limit <= old(level) ==> limit <= level)
      ensures a.T().Under(node, k) && a.r.Subkey(k, level) < |a.nodes[node]|
      ensures level > 0 ==> p == a.nodes[node][a.r.Subkey(k, level)] && (p.Terminal() || level == limit)
      ensures level == 0 ==> a.nodes[node][a.r.Subkey(k, level)].Terminal()
    {
      hide Radix.Block, Radix.Levels, Radix.Span, Radix.Fan, Radix.Subkey, Tree.Rooted, Tree.Leads;
      Has();
      a.T().SlotOf(node, k);
      while level > 0
        invariant Valid() && level <= old(level) && (limit <= old(level) ==> limit <= level)
        invariant a.T().Under(node, k) && a.r.Subkey(k, level) < |a.nodes[node]|
        decreases level
      {
        var next := a.nodes[node][a.r.Subkey(k, level)];
        if next.Terminal() || level == limit {
          return next;
        }
        a.T().SlotOf(node, k);
        node, level := next.node, level - 1;
        a.T().SlotOf(node, k);
      }
      a.T().SlotOf(node, k);
      p := Null;
    }

    /** Gives all keys of the slot for k on a level the value x, and no other key. */
    method SetAtLevel(at: nat, x: Option<V>)
      requires Valid() && k < a.r.n && at <= a.r.Levels() && (at == a.r.Levels() ==> a.r.n == a.r.Span(at))
      modifies this`node, this`level, a
      ensures Valid() && old(a.lvl) <= a.lvl && old(a.pre) <= a.pre && Along(a.r, a.lvl, a.pre, |old(a.lvl)|, k, at)
      ensures forall m :: 0 <= m < a.r.n ==> a.At(m) == if a.r.Block(m, at) == a.r.Block(k, at) then x else old(a.At(m))
      ensures x.None? && old(a.At(k)).None? ==> a.lvl == old(a.lvl)
    {
      hide Radix.Block, Radix.Levels, Radix.Span, Radix.Fan, Radix.Subkey, Tree.Rooted, Tree.Leads, Along;
      AlongNone(a.r, a.lvl, a.pre, k, at);
      if level < at {
        ResetNode();
      }
      while level > at
        invariant Valid() && level >= at && old(a.lvl) <= a.lvl && old(a.pre) <= a.pre
        invariant Along(a.r, a.lvl, a.pre, |old(a.lvl)|, k, at)
        invariant forall m :: 0 <= m < a.r.n ==> a.At(m) == old(a.At(m))
        invariant x.None? && old(a.At(k)).None? ==> a.lvl == old(a.lvl)
        decreases level
      {
        var p := ForceTerminal(at);
        if level <= at {
          break;
        }
        StoresHere();
        if x.None? && p.Null? {
          AlreadyUnset(at);
          return;
        }
        AlongMore(a.r, a.lvl, a.pre, |old(a.lvl)|, k, at, level - 1);
        Descend();
      }
      SetHere(x);
    }

    /** A slot without a node under it has the value of the key. */
    lemma StoresHere()
      requires Valid() && k < a.r.n && a.T().Under(node, k) && a.r.Subkey(k, level) < |a.nodes[node]|
      requires a.nodes[node][a.r.Subkey(k, level)].Terminal()
      ensures a.At(k) == a.nodes[node][a.r.Subkey(k, level)].Value()
    {
      a.T().RootUnder(k);
      TerminalValue(a.T(), node, k, k);
    }

    /** The slot for the key is empty, on this level or above. */
    lemma AlreadyUnset(at: nat)
      requires Valid() && k < a.r.n && at <= level && a.T().Under(node, k) && a.r.Subkey(k, level) < |a.nodes[node]|
      requires a.nodes[node][a.r.Subkey(k, level)].Null?
      ensures forall m :: 0 <= m < a.r.n && a.r.Block(m, at) == a.r.Block(k, at) ==> a.At(m) == None
    {
      forall m | 0 <= m < a.r.n && a.r.Block(m, at) == a.r.Block(k, at) ensures a.At(m) == None {
        SameBlockAbove(a.r, m, k, at, level);
        a.T().RootUnder(m);
        TerminalValue(a.T(), node, k, m);
      }
    }

    /** Puts a node under a slot with a value, and goes there. */
    method Descend()
      requires Valid() && k < a.r.n && level > 0 && a.T().Under(node, k) && a.r.Subkey(k, level) < |a.nodes[node]|
      requires a.nodes[node][a.r.Subkey(k, level)].Terminal()
      modifies this`node, this`level, a
      ensures Valid() && level == old(level) - 1
      ensures a.lvl == old(a.lvl) + [level] && a.pre == old(a.pre) + [a.r.Block(k, level + 1)]
      ensures forall m :: 0 <= m < a.r.n ==> a.At(m) == old(a.At(m))
    {
      a.T().SlotNumber(node, k);
      hide Radix.Block, Radix.Levels, Radix.Span, Radix.Fan, Tree.Rooted, Tree.Leads;
      var c := a.Expand(node, level, a.r.Subkey(k, level));
      node, level := c, level - 1;
    }

    method SetHere(x: Option<V>)
      requires Valid() && k < a.r.n && (level == a.r.Levels() ==> a.r.n == a.r.Span(level))
      modifies a
      ensures Valid() && a.lvl == old(a.lvl) && a.pre == old(a.pre)
      ensures forall m :: 0 <= m < a.r.n ==> a.At(m) == if a.r.Block(m, level) == a.r.Block(k, level) then x else old(a.At(m))
    {
      Has();
      ghost var t := a.T();
      var s := a.r.Subkey(k, level);
      t.SlotOf(node, k);
      t.SlotNumber(node, k);
      assert t.Rooted(0);
      hide Radix.Block, Radix.Levels, Radix.Span, Radix.Fan, Radix.Subkey, Tree.Rooted, Tree.Leads, Within, AllSet, SameOutside;
      a.SetRecursive(node, level, s, 1, x);
      ghost var b := a.r.Block(k, level);
      if level < a.r.Levels() {
        SlotKept(t, a.T(), 0, 0, level, b, b + 1);
      }
      forall m | 0 <= m < a.r.n ensures a.At(m) == if a.r.Block(m, level) == a.r.Block(k, level) then x else old(a.At(m)) {
        t.RootUnder(m);
        SetOneSlot(t, a.T(), node, s, x, k, m);
      }
    }

    /** Moves the key; the cached node is kept exactly if the new key is under it as well. */
    method Advance(skip: int)
      requires Valid() && 0 <= k + skip <= a.r.n
      modifies this
      ensures Valid() && k == old(k) + skip
      ensures old(a.r.Block(k, level + 1)) == a.r.Block(k, old(level) + 1) ==> node == old(node) && level == old(level)
      ensures old(a.r.Block(k, level + 1)) != a.r.Block(k, old(level) + 1) ==> level == a.r.Levels()
    {
      hide Radix.Block, Radix.Levels, Radix.Span, Radix.Fan, Tree.Rooted, Tree.Leads;
      var same := a.r.Block(k, level + 1) == a.r.Block(k + skip, level + 1);
      k := k + skip;
      if !same {
        ResetNode();
      }
    }

    /** The value at the key, if it has one. */
    method Deref() returns (x: Option<V>)
      requires Valid() && k < a.r.n
      modifies this`node, this`level
      ensures Valid() && x == a.At(k)
    {
      hide Radix.Block, Radix.Levels, Radix.Span, Radix.Fan, Radix.Subkey, Tree.Rooted, Tree.Leads;
      var p := ForceTerminal(0);
      a.T().RootUnder(k);
      TerminalValue(a.T(), node, k, k);
      x := a.nodes[node][a.r.Subkey(k, level)].Value();
    }

    /** How many keys, from this one on, are known to have the same value: the rest of the slot that stores it. */
    method Span() returns (n: int)
      requires Valid() && k < a.r.n
      modifies this`node, this`level
      ensures Valid() && n >= 1 && a.r.Subkey(k, level) < |a.nodes[node]| && a.nodes[node][a.r.Subkey(k, level)].Terminal()
      ensures k + n == if level == a.r.Levels() then a.r.n else (a.r.Block(k, level) + 1) * a.r.Span(level)
      ensures forall m :: k <= m < k + n && m < a.r.n ==> a.At(m) == a.At(k)
    {
      hide Radix.Levels, Radix.Span, Radix.Fan, Radix.Subkey, Tree.Rooted, Tree.Leads;
      var p := ForceTerminal(0);
      ghost var l := level;
      if level == a.r.Levels() {
        n := a.r.n - k;
        forall m | k <= m < a.r.n ensures a.r.Block(m, l) == a.r.Block(k, l) {
          a.r.RootHolds(k);
          a.r.RootHolds(m);
        }
      } else {
        var ls := a.r.Span(level);
        n := ls - k % ls;
        SlotEnd(a.r, k, level);
        forall m | k <= m < k + n ensures a.r.Block(m, l) == a.r.Block(k, l) {
          a.r.RestOfBlock(k, l, m);
        }
      }
      a.T().RootUnder(k);
      TerminalValue(a.T(), node, k, k);
      forall m | k <= m < k + n && m < a.r.n ensures a.At(m) == a.At(k) {
        a.T().RootUnder(m);
        TerminalValue(a.T(), node, k, m);
      }
    }
  }

  /** Where a slot ends, from its span and a key in it. */
  lemma SlotEnd(r: Radix, k: nat, level: nat)
    requires r.Valid()
    ensures k + r.Span(level) - k % r.Span(level) == (r.Block(k, level) + 1) * r.Span(level)
  {
    hide Radix.Block, Radix.Span;
    var b, s := r.Block(k, level), r.Span(level);
    r.BlockRange(k, level);
    Successor(b, s);
    QuotientIs(k, s, b, k - b * s);
  }

  /** The key is the first of its slot on a level. */
  ghost predicate Aligned(r: Radix, k: nat, level: nat)
    requires r.Valid()
  {
    k == r.Block(k, level) * r.Span(level)
  }

  /** The keys of an aligned slot. */
  lemma AlignedRange(r: Radix, k: nat, level: nat, m: nat)
    requires r.Valid() && Aligned(r, k, level)
    ensures r.Block(m, level) == r.Block(k, level) <==> k <= m < k + r.Span(level)
  {
    hide Radix.Block, Radix.Span;
    var b, s := r.Block(k, level), r.Span(level);
    assert (b + 1) * s == b * s + s;
    if k <= m < k + s {
      r.BlockIs(m, level, b);
    }
    r.BlockRange(m, level);
  }

  lemma AlignedAbove(r: Radix, k: nat, level: nat)
    requires r.Valid() && Aligned(r, k, level) && r.Subkey(k, level) == 0
    ensures Aligned(r, k, level + 1)
  {
    var b, f, s := r.Block(k, level), r.Fan(level), r.Span(level);
    Split(b, f);
    assert b * s == (b / f) * (s * f) by {
      Scale(b / f, f, s, b);
      assert (b / f) * (s * f) == ((b / f) * f) * s;
    }
  }

  lemma AlignedNext(r: Radix, k: nat, level: nat)
    requires r.Valid() && Aligned(r, k, level)
    ensures Aligned(r, k + r.Span(level), level)
  {
    hide Radix.Block, Radix.Span;
    var b, s := r.Block(k, level), r.Span(level);
    assert (b + 1) * s == b * s + s;
    assert (b + 2) * s == b * s + s + s;
    r.BlockIs(k + s, level, b + 1);
  }

  lemma {:induction false} LevelBound(r: Radix, level: nat)
    requires r.Valid() && r.Span(level) <= r.n
    ensures level <= r.Levels() && (level == r.Levels() ==> r.n == r.Span(level))
  {
    hide Radix.Levels, Radix.Span;
    if level > r.Levels() {
      SpanMonotone(r, r.Levels() + 1, level);
      r.SpanDoubles(r.Levels());
      assert false;
    }
  }

  lemma {:induction false} SpanMonotone(r: Radix, low: nat, high: nat)
    requires r.Valid() && low <= high
    ensures r.Span(low) <= r.Span(high)
    decreases high
  {
    if low < high {
      SpanMonotone(r, low, high - 1);
      assert r.Span(high) == r.Span(high - 1) * r.Fan(high - 1) >= r.Span(high - 1) * 1;
    }
  }

  /** Gives the keys of a whole slot the value x and moves on to the next slot. */
  method FillSlot<V>(it: Iterator<V>, level: nat, span: int, x: Option<V>)
    requires it.Valid() && span == it.a.r.Span(level) && Aligned(it.a.r, it.k, level) && it.k + span <= it.a.r.n
    modifies it, it.a
    ensures it.Valid() && it.k == old(it.k) + span && Aligned(it.a.r, it.k, level)
    ensures old(it.a.lvl) <= it.a.lvl && old(it.a.pre) <= it.a.pre
    ensures Along(it.a.r, it.a.lvl, it.a.pre, |old(it.a.lvl)|, old(it.k), level)
    ensures forall m :: 0 <= m < it.a.r.n ==> it.a.At(m) == if old(it.k) <= m < it.k then x else old(it.a.At(m))
  {
    hide Radix.Block, Radix.Levels, Radix.Span, Radix.Fan, Radix.Subkey, Tree.Rooted, Tree.Leads, Aligned;
    var a := it.a;
    LevelBound(a.r, level);
    it.SetAtLevel(level, x);
    AlignedNext(a.r, it.k, level);
    forall m: nat ensures a.r.Block(m, level) == a.r.Block(it.k, level) <==> it.k <= m < it.k + span {
      AlignedRange(a.r, it.k, level, m);
    }
    it.Advance(span);
  }

  // Nothing is expanded that is filled as a whole

  /** Where the slot of key k on a level begins. */
  ghost function Start(r: Radix, k: nat, level: nat): nat
    requires r.Valid()
  {
    Product(r.Block(k, level), r.Span(level));
    r.Block(k, level) * r.Span(level)
  }

  /** A slot that lies between low and high, with the key in it, begins with the key. */
  ghost predicate Clean(r: Radix, k: nat, level: nat, low: int, high: int)
    requires r.Valid()
  {
    low <= Start(r, k, level) && Start(r, k, level) + r.Span(level) <= high ==> Start(r, k, level) == k
  }

  /** No higher slot begins with the key and ends by high. */
  ghost predicate Highest(r: Radix, k: nat, level: nat, high: int)
    requires r.Valid()
  {
    r.Subkey(k, level) != 0 || k + r.Span(level + 1) > high
  }

  lemma StartAt(r: Radix, k: nat, level: nat)
    requires r.Valid()
    ensures Start(r, k, level) <= k < Start(r, k, level) + r.Span(level)
    ensures Aligned(r, k, level) <==> Start(r, k, level) == k
  {
    hide Radix.Block, Radix.Span;
    r.BlockRange(k, level);
    Successor(r.Block(k, level), r.Span(level));
  }

  lemma AlignedSubkey(r: Radix, k: nat, level: nat)
    requires r.Valid() && Aligned(r, k, level + 1)
    ensures Aligned(r, k, level) && r.Subkey(k, level) == 0
  {
    r.SpanStep(level);
    r.BlockRange(k, level);
    var c, b, f, s := r.Block(k, level + 1), r.Block(k, level), r.Fan(level), r.Span(level);
    assert c == b / f;
    hide Radix.Block, Radix.Span, Radix.Fan;
    assert k == (c * f) * s by { Associate(c, f, s); }
    Product(c, f);
    Successor(c * f, s);
    r.BlockIs(k, level, c * f);
    QuotientIs(c * f, f, c, 0);
  }

  lemma {:induction false} AlignedBelow(r: Radix, k: nat, level: nat, top: nat)
    requires r.Valid() && Aligned(r, k, top) && level <= top
    ensures Aligned(r, k, level)
    decreases top
  {
    hide Aligned;
    if level < top {
      AlignedSubkey(r, k, top - 1);
      AlignedBelow(r, k, level, top - 1);
    }
  }

  /** A higher slot that begins with the key ends beyond high. */
  lemma NoneHigher(r: Radix, k: nat, level: nat, top: nat, high: int)
    requires r.Valid() && Highest(r, k, level, high) && Aligned(r, k, top) && level < top
    ensures k + r.Span(top) > high
  {
    hide Aligned, Radix.Span, Radix.Subkey;
    AlignedBelow(r, k, level + 1, top);
    AlignedSubkey(r, k, level);
    SpanMonotone(r, level + 1, top);
  }

  /** A node on the way to the slot that is filled sticks out of what is filled. */
  lemma SticksOut(r: Radix, k: nat, level: nat, top: nat, low: int, high: int)
    requires r.Valid() && Highest(r, k, level, high) && level < top && Clean(r, k, top, low, high)
    ensures !(low <= Start(r, k, top) && Start(r, k, top) + r.Span(top) <= high)
  {
    hide Aligned, Radix.Span, Start, Highest;
    StartAt(r, k, top);
    if Start(r, k, top) == k {
      NoneHigher(r, k, level, top, high);
    }
  }

  lemma CleanFirst(r: Radix, k: nat, level: nat, high: int)
    requires r.Valid()
    ensures Clean(r, k, level, k, high)
  {
    hide Start;
    StartAt(r, k, level);
  }

  lemma CleanNext(r: Radix, k: nat, level: nat, top: nat, low: int, high: int)
    requires r.Valid() && Aligned(r, k, level) && Highest(r, k, level, high) && Clean(r, k, top, low, high)
    ensures Clean(r, k + r.Span(level), top, low, high)
  {
    hide Aligned, Radix.Span, Radix.Block, Highest, Start;
    var m := k + r.Span(level);
    AlignedNext(r, k, level);
    StartAt(r, m, top);
    if top <= level {
      AlignedBelow(r, m, top, level);
    } else if Start(r, m, top) < m {
      SameStart(r, k, level, top);
      SticksOut(r, k, level, top, low, high);
    }
  }

  /** The key behind a slot is in the same higher slot, unless it begins one. */
  lemma SameStart(r: Radix, k: nat, level: nat, top: nat)
    requires r.Valid() && Aligned(r, k, level) && level < top && Start(r, k + r.Span(level), top) < k + r.Span(level)
    ensures Start(r, k + r.Span(level), top) == Start(r, k, top)
  {
    hide Aligned, Radix.Span, Radix.Block;
    var m := k + r.Span(level);
    r.BlockRange(m, top);
    r.BlockIs(m - 1, top, r.Block(m, top));
    AlignedRange(r, k, level, m - 1);
    SameBlockAbove(r, k, m - 1, level, top);
  }

  /** The keys of a node lie between low and high. */
  ghost predicate Inside(r: Radix, level: int, pre: int, low: int, high: int)
    requires r.Valid() && level >= 0
  {
    low <= pre * r.Span(level + 1) && pre * r.Span(level + 1) + r.Span(level + 1) <= high
  }

  /** None of the nodes from the given one on lies between low and high. */
  ghost predicate Outside(r: Radix, lvl: seq<int>, pre: seq<int>, from: int, low: int, high: int)
    requires r.Valid()
  {
    |pre| == |lvl| && forall i :: 0 <= from <= i < |lvl| ==> lvl[i] >= 0 && !Inside(r, lvl[i], pre[i], low, high)
  }

  lemma StaysOutside(r: Radix, lvl: seq<int>, pre: seq<int>, more: seq<int>, morePre: seq<int>, from: int, k: nat, level: nat, low: int, high: int)
    requires r.Valid() && 0 <= from <= |lvl| && Outside(r, lvl, pre, from, low, high)
    requires lvl <= more && pre <= morePre && Along(r, more, morePre, |lvl|, k, level)
    requires Highest(r, k, level, high) && forall top: nat :: Clean(r, k, top, low, high)
    ensures Outside(r, more, morePre, from, low, high)
  {
    hide Radix.Span, Radix.Block, Highest, Clean;
    forall i | from <= i < |more| ensures more[i] >= 0 && !Inside(r, more[i], morePre[i], low, high) {
      if i < |lvl| {
        assert lvl[i] == more[i] && pre[i] == morePre[i];
      } else {
        assert Clean(r, k, more[i] + 1, low, high);
        SticksOut(r, k, level, more[i] + 1, low, high);
      }
    }
  }

  /**
   Gives the keys from low to high the value x and leaves all others alone; other iterators stay valid.
   No node is made for keys that all get the value.
   */
  method Fill<V>(low: Iterator<V>, high: Iterator<V>, x: Option<V>)
    requires low.Valid() && high.Valid() && low.a == high.a
    modifies low.a
    ensures low.Valid() && high.Valid()
    ensures forall m :: 0 <= m < low.a.r.n ==> low.a.At(m) == if low.k <= m < high.k then x else old(low.a.At(m))
    ensures old(low.a.lvl) <= low.a.lvl && old(low.a.pre) <= low.a.pre
    ensures Outside(low.a.r, low.a.lvl, low.a.pre, |old(low.a.lvl)|, low.k, high.k)
  {
    hide Radix.Block, Radix.Levels, Radix.Span, Radix.Fan, Radix.Subkey, Tree.Rooted, Tree.Leads, Aligned, Clean, Along, Outside;
    var a, level, span := low.a, 0, 1;
    var it := new Iterator.Copy(low);
    AlignedZero(a.r, it.k);
    NoneYet(a.r, a.lvl, a.pre, low.k, high.k);
    while it.k < high.k
      invariant fresh(it) && it.a == a && it.Valid() && old(a.lvl) <= a.lvl && old(a.pre) <= a.pre
      invariant low.k <= it.k && (it.k <= high.k || it.k == low.k)
      invariant level >= 0 && span == a.r.Span(level) && Aligned(a.r, it.k, level)
      invariant forall top: nat :: Clean(a.r, it.k, top, low.k, high.k)
      invariant Outside(a.r, a.lvl, a.pre, |old(a.lvl)|, low.k, high.k)
      invariant forall m :: 0 <= m < a.r.n ==> a.At(m) == if low.k <= m < it.k then x else old(a.At(m))
    {
      if it.k + span > high.k || a.r.Subkey(it.k, level) == 0 {
        level, span := ChooseLevel(a.r, it.k, high.k);
      }
      ghost var k, lvl, pre := it.k, a.lvl, a.pre;
      FillSlot(it, level, span, x);
      StaysOutside(a.r, lvl, pre, a.lvl, a.pre, |old(a.lvl)|, k, level, low.k, high.k);
      forall top: nat ensures Clean(a.r, it.k, top, low.k, high.k) {
        CleanNext(a.r, k, level, top, low.k, high.k);
      }
    }
  }

  /**
   Where no node lies between low and high, a slot in between is stored as a whole: the slot that stores
   the value of its first key, on level `at`, reaches at least to its end.
   */
  lemma StoredAsOne(r: Radix, at: nat, k: nat, level: nat, low: int, high: int)
    requires r.Valid() && Aligned(r, k, level) && low <= k && k + r.Span(level) <= high
    requires !Inside(r, at, r.Block(k, at + 1), low, high)
    ensures at >= level && (r.Block(k, at) + 1) * r.Span(at) >= k + r.Span(level)
  {
    hide Aligned, Radix.Span, Radix.Block;
    if at < level {
      AlignedBelow(r, k, at + 1, level);
      StartAt(r, k, at + 1);
      SpanMonotone(r, at + 1, level);
    }
    var m := k + r.Span(level) - 1;
    AlignedRange(r, k, level, m);
    SameBlockAbove(r, k, m, level, at);
    r.BlockRange(m, at);
  }

  lemma NoneYet(r: Radix, lvl: seq<int>, pre: seq<int>, k: nat, high: int)
    requires r.Valid() && |pre| == |lvl|
    ensures Outside(r, lvl, pre, |lvl|, k, high) && forall top: nat :: Clean(r, k, top, k, high)
  {
    hide Clean;
    forall top: nat ensures Clean(r, k, top, k, high) {
      CleanFirst(r, k, top, high);
    }
  }

  lemma AlignedZero(r: Radix, k: nat)
    requires r.Valid()
    ensures r.Span(0) == 1 && Aligned(r, k, 0)
  {
  }

  /** The highest level on which the key starts a slot, and all slots below it, that ends no later than high. */
  method ChooseLevel(r: Radix, k: nat, high: nat) returns (level: nat, span: int)
    requires r.Valid() && k < high <= r.n
    ensures span == r.Span(level) && Aligned(r, k, level) && k + span <= high && Highest(r, k, level, high)
  {
    hide Radix.Block, Radix.Levels, Radix.Span, Radix.Fan, Radix.Subkey, Aligned;
    level, span := 0, 1;
    AlignedZero(r, k);
    while r.Subkey(k, level) == 0 && k + r.Span(level + 1) <= high
      invariant span == r.Span(level) && Aligned(r, k, level) && k + span <= high
      decreases r.Levels() + 1 - level
    {
      LevelBound(r, level + 1);
      AlignedAbove(r, k, level);
      level, span := level + 1, r.Span(level + 1);
    }
  }
}
