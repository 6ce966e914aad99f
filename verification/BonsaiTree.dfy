/** Balanced search trees with a size in every node, as values. */
module BonsaiTree {
  import opened Options

  const WEIGHT := 4

  datatype Tree<V> = Nil | Node(key: int, value: V, size: int, l: Tree<V>, r: Tree<V>) {
    /** The stored size. */
    function Size(): int { if Nil? then 0 else size }

    /** The keys and values in order. */
    function Items(): seq<(int, V)> {
      if Nil? then [] else l.Items() + [(key, value)] + r.Items()
    }

    /** Every stored size is the number of nodes. */
    ghost predicate Sized() {
      Node? ==> l.Sized() && r.Sized() && size == l.Size() + r.Size() + 1
    }

    lemma {:induction false} SizeIs()
      requires Sized()
      ensures Size() == |Items()|
    {
      if Node? {
        l.SizeIs();
        r.SizeIs();
      }
    }

    /** The keys are in order, so that a search finds them. */
    ghost predicate Ordered() { Increasing(Items()) }
  }

  ghost predicate Increasing<V>(s: seq<(int, V)>) {
    forall i, j :: 0 <= i < j < |s| ==> s[i].0 < s[j].0
  }

  function New<V>(key: int, value: V, l: Tree<V>, r: Tree<V>): Tree<V> {
    Node(key, value, l.Size() + r.Size() + 1, l, r)
  }

  // Rotations

  lemma Regroup<T>(a: seq<T>, x: T, b: seq<T>, y: T, c: seq<T>, z: T, d: seq<T>)
    ensures (a + [x] + b) + [y] + (c + [z] + d) == a + [x] + ((b + [y] + c) + [z] + d)
    ensures (a + [x] + b) + [y] + (c + [z] + d) == (a + [x] + (b + [y] + c)) + [z] + d
  {
  }

  function SingleLeft<V>(key: int, value: V, l: Tree<V>, r: Tree<V>): Tree<V>
    requires r.Node?
  {
    New(r.key, r.value, New(key, value, l, r.l), r.r)
  }

  function SingleRight<V>(key: int, value: V, l: Tree<V>, r: Tree<V>): Tree<V>
    requires l.Node?
  {
    New(l.key, l.value, l.l, New(key, value, l.r, r))
  }

  /** What the two sides of a node weigh in Balance. */
  ghost function Load<V>(l: Tree<V>, r: Tree<V>): nat
    requires l.Sized() && r.Sized()
  {
    l.SizeIs();
    r.SizeIs();
    l.Size() + r.Size()
  }

  /**
   A node over l and r, rotated if one of them is too heavy.  A heavy side that is rotated
   twice has the child that comes to the top.
   */
  function Balance<V>(key: int, value: V, l: Tree<V>, r: Tree<V>): (t: Tree<V>)
    requires l.Sized() && r.Sized()
    ensures t.Sized() && t.Items() == l.Items() + [(key, value)] + r.Items()
    decreases Load(l, r)
  {
    l.SizeIs();
    r.SizeIs();
    if l.Size() + r.Size() < 2 then New(key, value, l, r)
    else if r.Size() > WEIGHT * l.Size() then
      (if r.l.Size() < r.r.Size() then SingleLeft(key, value, l, r) else DoubleLeft(key, value, l, r))
    else if l.Size() > WEIGHT * r.Size() then
      (if l.r.Size() < l.l.Size() then SingleRight(key, value, l, r) else DoubleRight(key, value, l, r))
    else New(key, value, l, r)
  }

  /** The child that comes to the top is there. */
  lemma Heavier<V>(t: Tree<V>)
    requires t.Sized() && t.Node? && t.Size() >= 2
    ensures t.l.Sized() && t.r.Sized()
    ensures t.l.Size() >= t.r.Size() ==> t.l.Node?
    ensures t.r.Size() >= t.l.Size() ==> t.r.Node?
  {
    t.l.SizeIs();
    t.r.SizeIs();
  }

  function DoubleLeft<V>(key: int, value: V, l: Tree<V>, r: Tree<V>): (t: Tree<V>)
    requires l.Sized() && r.Sized() && r.Node? && r.Size() >= 2 && r.l.Size() >= r.r.Size()
    ensures t.Sized() && t.Items() == l.Items() + [(key, value)] + r.Items()
    decreases Load(l, r), 0
  {
    Heavier(r);
    l.SizeIs();
    r.l.l.SizeIs();
    Regroup(l.Items(), (key, value), r.l.l.Items(), (r.l.key, r.l.value), r.l.r.Items(), (r.key, r.value), r.r.Items());
    New(r.l.key, r.l.value, New(key, value, l, r.l.l), Balance(r.key, r.value, r.l.r, r.r))
  }

  function DoubleRight<V>(key: int, value: V, l: Tree<V>, r: Tree<V>): (t: Tree<V>)
    requires l.Sized() && r.Sized() && l.Node? && l.Size() >= 2 && l.r.Size() >= l.l.Size()
    ensures t.Sized() && t.Items() == l.Items() + [(key, value)] + r.Items()
    decreases Load(l, r), 0
  {
    Heavier(l);
    r.SizeIs();
    l.r.r.SizeIs();
    Regroup(l.l.Items(), (l.key, l.value), l.r.l.Items(), (l.r.key, l.r.value), l.r.r.Items(), (key, value), r.Items());
    New(l.r.key, l.r.value, Balance(l.key, l.value, l.l, l.r.l), New(key, value, l.r.r, r))
  }

  // Searching

  /** What an ordered list has for a key. */
  function Lookup<V>(s: seq<(int, V)>, k: int): Option<V> {
    if s == [] then None else if s[0].0 == k then Some(s[0].1) else Lookup(s[1..], k)
  }

  lemma {:induction false} LookupSplit<V>(a: seq<(int, V)>, b: seq<(int, V)>, k: int)
    ensures Lookup(a + b, k) == if Lookup(a, k).Some? then Lookup(a, k) else Lookup(b, k)
  {
    if a == [] {
      assert a + b == b;
    } else {
      LookupSplit(a[1..], b, k);
      assert (a + b)[1..] == a[1..] + b;
    }
  }

  /** What a node has for a key, from what its sides have. */
  lemma LookupNode<V>(a: seq<(int, V)>, x: (int, V), b: seq<(int, V)>, k: int)
    ensures Lookup(a + [x] + b, k) ==
            if Lookup(a, k).Some? then Lookup(a, k) else if x.0 == k then Some(x.1) else Lookup(b, k)
  {
    LookupSplit(a + [x], b, k);
    LookupSplit(a, [x], k);
  }

  ghost predicate Below<V>(s: seq<(int, V)>, k: int) { forall i :: 0 <= i < |s| ==> s[i].0 < k }
  ghost predicate Above<V>(s: seq<(int, V)>, k: int) { forall i :: 0 <= i < |s| ==> s[i].0 > k }

  lemma {:induction false} LookupHas<V>(s: seq<(int, V)>, i: int)
    requires 0 <= i < |s|
    ensures Lookup(s, s[i].0).Some?
  {
    if i > 0 {
      LookupHas(s[1..], i - 1);
    }
  }

  lemma {:induction false} LookupWhere<V>(s: seq<(int, V)>, k: int) returns (i: int)
    requires Lookup(s, k).Some?
    ensures 0 <= i < |s| && s[i] == (k, Lookup(s, k).value)
  {
    if s[0].0 == k {
      i := 0;
    } else {
      i := LookupWhere(s[1..], k);
      i := i + 1;
    }
  }

  lemma LookupOutside<V>(s: seq<(int, V)>, k: int)
    requires Below(s, k) || Above(s, k)
    ensures Lookup(s, k) == None
  {
    if Lookup(s, k).Some? {
      var i := LookupWhere(s, k);
    }
  }

  /** A node is ordered if its sides are, on their sides of its key. */
  lemma IncreasingNode<V>(a: seq<(int, V)>, x: (int, V), b: seq<(int, V)>)
    ensures Increasing(a + [x] + b) <==> Increasing(a) && Increasing(b) && Below(a, x.0) && Above(b, x.0)
  {
    var s := a + [x] + b;
    assert forall i :: 0 <= i < |a| ==> s[i] == a[i];
    assert s[|a|] == x;
    assert forall i :: 0 <= i < |b| ==> s[|a| + 1 + i] == b[i];
    assert forall i :: |a| < i < |s| ==> s[i] == b[i - |a| - 1];
  }

  function Find<V>(t: Tree<V>, k: int): Option<V> {
    if t.Nil? then None
    else if t.key == k then Some(t.value)
    else if k < t.key then Find(t.l, k) else Find(t.r, k)
  }

  lemma {:induction false} FindIs<V>(t: Tree<V>, k: int)
    requires t.Ordered()
    ensures Find(t, k) == Lookup(t.Items(), k)
  {
    if t.Node? {
      IncreasingNode(t.l.Items(), (t.key, t.value), t.r.Items());
      LookupNode(t.l.Items(), (t.key, t.value), t.r.Items(), k);
      FindIs(t.l, k);
      FindIs(t.r, k);
      if k <= t.key {
        LookupOutside(t.r.Items(), k);
      }
      if k >= t.key {
        LookupOutside(t.l.Items(), k);
      }
    }
  }

  function FindGt<V>(t: Tree<V>, k: int): Option<(int, V)> {
    if t.Nil? then None
    else if t.key > k then var r := FindGt(t.l, k); if r.None? then Some((t.key, t.value)) else r
    else FindGt(t.r, k)
  }

  /** The item with the least key above k, if there is any. */
  lemma {:induction false} FindGtIs<V>(t: Tree<V>, k: int)
    requires t.Ordered()
    ensures match FindGt(t, k)
            case None => forall m :: m > k ==> Lookup(t.Items(), m).None?
            case Some(x) => x.0 > k && Lookup(t.Items(), x.0) == Some(x.1) && forall m :: k < m < x.0 ==> Lookup(t.Items(), m).None?
  {
    if t.Node? {
      IncreasingNode(t.l.Items(), (t.key, t.value), t.r.Items());
      FindGtIs(t.l, k);
      FindGtIs(t.r, k);
      forall m
        ensures Lookup(t.Items(), m) == if m < t.key then Lookup(t.l.Items(), m)
                                        else if m == t.key then Some(t.value) else Lookup(t.r.Items(), m)
      {
        LookupNode(t.l.Items(), (t.key, t.value), t.r.Items(), m);
        if m <= t.key {
          LookupOutside(t.r.Items(), m);
        }
        if m >= t.key {
          LookupOutside(t.l.Items(), m);
        }
      }
      if FindGt(t.l, k).Some? {
        var i := LookupWhere(t.l.Items(), FindGt(t.l, k).value.0);
      }
      if FindGt(t.r, k).Some? {
        var i := LookupWhere(t.r.Items(), FindGt(t.r, k).value.0);
      }
    }
  }

  // Inserting and removing

  /** A key that is there keeps its value. */
  function Insert<V>(t: Tree<V>, key: int, value: V): (r: Tree<V>)
    requires t.Sized()
    ensures r.Sized()
  {
    if t.Nil? then New(key, value, Nil, Nil)
    else if key == t.key then t
    else if key < t.key then Balance(t.key, t.value, Insert(t.l, key, value), t.r)
    else Balance(t.key, t.value, t.l, Insert(t.r, key, value))
  }

  function Least<V>(t: Tree<V>): (m: Tree<V>)
    requires t.Node?
    ensures m.Node?
  {
    if t.l.Nil? then t else Least(t.l)
  }

  function WithoutLeast<V>(t: Tree<V>): (r: Tree<V>)
    requires t.Sized() && t.Node?
    ensures r.Sized()
  {
    if t.l.Nil? then t.r else Balance(t.key, t.value, WithoutLeast(t.l), t.r)
  }

  lemma {:induction false} LeastFirst<V>(t: Tree<V>)
    requires t.Sized() && t.Node?
    ensures t.Items() == [(Least(t).key, Least(t).value)] + WithoutLeast(t).Items()
  {
    if t.l.Node? {
      LeastFirst(t.l);
    }
  }

  function Join<V>(l: Tree<V>, r: Tree<V>): (t: Tree<V>)
    requires l.Sized() && r.Sized()
    ensures t.Sized() && t.Items() == l.Items() + r.Items()
  {
    if l.Nil? then r
    else if r.Nil? then l
    else
      LeastFirst(r);
      Balance(Least(r).key, Least(r).value, l, WithoutLeast(r))
  }

  function Remove<V>(t: Tree<V>, key: int): (r: Tree<V>)
    requires t.Sized()
    ensures r.Sized()
  {
    if t.Nil? then Nil
    else if key < t.key then Balance(t.key, t.value, Remove(t.l, key), t.r)
    else if key > t.key then Balance(t.key, t.value, t.l, Remove(t.r, key))
    else Join(t.l, t.r)
  }

  /** t has what s has, except that it has v for the key. */
  ghost predicate Updated<V>(s: seq<(int, V)>, t: seq<(int, V)>, key: int, v: Option<V>) {
    Increasing(t) && forall k :: Lookup(t, k) == if k == key then v else Lookup(s, k)
  }

  lemma UpdatedSide<V>(s: seq<(int, V)>, t: seq<(int, V)>, key: int, v: Option<V>, limit: int)
    requires Updated(s, t, key, v)
    ensures Below(s, limit) && key < limit ==> Below(t, limit)
    ensures Above(s, limit) && key > limit ==> Above(t, limit)
  {
    forall i | 0 <= i < |t| && t[i].0 != key ensures exists j :: 0 <= j < |s| && s[j].0 == t[i].0 {
      LookupHas(t, i);
      var j := LookupWhere(s, t[i].0);
    }
  }

  /** An update of one side of a node is an update of the node. */
  lemma UpdatedLeft<V>(a: seq<(int, V)>, x: (int, V), b: seq<(int, V)>, c: seq<(int, V)>, key: int, v: Option<V>)
    requires Increasing(a + [x] + b) && Updated(a, c, key, v) && key < x.0
    ensures Updated(a + [x] + b, c + [x] + b, key, v)
  {
    IncreasingNode(a, x, b);
    UpdatedSide(a, c, key, v, x.0);
    IncreasingNode(c, x, b);
    LookupOutside(b, key);
    forall k ensures Lookup(c + [x] + b, k) == if k == key then v else Lookup(a + [x] + b, k) {
      LookupNode(a, x, b, k);
      LookupNode(c, x, b, k);
    }
  }

  lemma UpdatedRight<V>(a: seq<(int, V)>, x: (int, V), b: seq<(int, V)>, c: seq<(int, V)>, key: int, v: Option<V>)
    requires Increasing(a + [x] + b) && Updated(b, c, key, v) && key > x.0
    ensures Updated(a + [x] + b, a + [x] + c, key, v)
  {
    IncreasingNode(a, x, b);
    UpdatedSide(b, c, key, v, x.0);
    IncreasingNode(a, x, c);
    LookupOutside(a, key);
    forall k ensures Lookup(a + [x] + c, k) == if k == key then v else Lookup(a + [x] + b, k) {
      LookupNode(a, x, b, k);
      LookupNode(a, x, c, k);
    }
  }

  /** Insertion adds the key to an ordered tree, unless it is there. */
  lemma {:induction false} InsertIs<V>(t: Tree<V>, key: int, value: V)
    requires t.Sized() && t.Ordered()
    ensures var v := Lookup(t.Items(), key);
            Updated(t.Items(), Insert(t, key, value).Items(), key, if v.Some? then v else Some(value))
  {
    if t.Node? {
      var a, x, b := t.l.Items(), (t.key, t.value), t.r.Items();
      IncreasingNode(a, x, b);
      LookupNode(a, x, b, key);
      if key < t.key {
        InsertIs(t.l, key, value);
        LookupOutside(b, key);
        UpdatedLeft(a, x, b, Insert(t.l, key, value).Items(), key, if Lookup(a, key).Some? then Lookup(a, key) else Some(value));
      } else if key > t.key {
        InsertIs(t.r, key, value);
        LookupOutside(a, key);
        UpdatedRight(a, x, b, Insert(t.r, key, value).Items(), key, if Lookup(b, key).Some? then Lookup(b, key) else Some(value));
      }
    }
  }

  /** Removal takes the key from an ordered tree, and nothing else. */
  lemma {:induction false} RemoveIs<V>(t: Tree<V>, key: int)
    requires t.Sized() && t.Ordered()
    ensures Updated(t.Items(), Remove(t, key).Items(), key, None)
  {
    if t.Node? {
      var a, x, b := t.l.Items(), (t.key, t.value), t.r.Items();
      IncreasingNode(a, x, b);
      if key < t.key {
        RemoveIs(t.l, key);
        UpdatedLeft(a, x, b, Remove(t.l, key).Items(), key, None);
      } else if key > t.key {
        RemoveIs(t.r, key);
        UpdatedRight(a, x, b, Remove(t.r, key).Items(), key, None);
      } else {
        LookupOutside(a, key);
        LookupOutside(b, key);
        forall k ensures Lookup(a + b, k) == if k == key then None else Lookup(a + [x] + b, k) {
          LookupSplit(a, b, k);
          LookupNode(a, x, b, k);
        }
      }
    }
  }
}
