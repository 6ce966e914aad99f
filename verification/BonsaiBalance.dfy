/** How well the trees are balanced: no side of a node has more than four times the nodes of the other. */
module BonsaiBalance {
  import opened BonsaiTree
  import Division

  /** The sides of a node with at least two nodes below may differ by a factor of four. */
  predicate Within(ln: int, rn: int) {
    ln + rn < 2 || (rn <= 4 * ln && ln <= 4 * rn)
  }

  /** All nodes of the tree keep to that. */
  ghost predicate Balanced<V>(t: Tree<V>) {
    t.Node? ==> Balanced(t.l) && Balanced(t.r) && Within(t.l.Size(), t.r.Size())
  }

  lemma BalanceSize<V>(key: int, value: V, l: Tree<V>, r: Tree<V>)
    requires l.Sized() && r.Sized()
    ensures Balance(key, value, l, r).Size() == l.Size() + r.Size() + 1 && l.Size() >= 0 && r.Size() >= 0
  {
    Balance(key, value, l, r).SizeIs();
    l.SizeIs();
    r.SizeIs();
  }

  /** The node stays as it is exactly if its sides are within the bound. */
  lemma RotatesIff<V>(key: int, value: V, l: Tree<V>, r: Tree<V>)
    requires l.Sized() && r.Sized()
    ensures Balance(key, value, l, r) == New(key, value, l, r) <==> Within(l.Size(), r.Size())
    ensures !Within(l.Size(), r.Size()) ==>
              var t := Balance(key, value, l, r);
              if l.Size() < r.Size() then t.l.Size() > l.Size() else t.r.Size() > r.Size()
  {
    hide Tree.Items;
    l.SizeIs();
    r.SizeIs();
    if r.Node? {
      Parts(r);
    }
    if l.Node? {
      Parts(l);
    }
  }

  lemma Parts<V>(t: Tree<V>)
    requires t.Sized() && t.Node?
    ensures t.l.Size() >= 0 && t.r.Size() >= 0 && t.Size() == t.l.Size() + t.r.Size() + 1
    ensures t.l.Node? <==> t.l.Size() >= 1
    ensures t.r.Node? <==> t.r.Size() >= 1
    ensures t.l.Node? ==> t.l.l.Size() >= 0 && t.l.r.Size() >= 0 && t.l.Size() == t.l.l.Size() + t.l.r.Size() + 1
    ensures t.r.Node? ==> t.r.l.Size() >= 0 && t.r.r.Size() >= 0 && t.r.Size() == t.r.l.Size() + t.r.r.Size() + 1
  {
    t.l.SizeIs();
    t.r.SizeIs();
    if t.l.Node? {
      t.l.l.SizeIs();
      t.l.r.SizeIs();
    }
    if t.r.Node? {
      t.r.l.SizeIs();
      t.r.r.SizeIs();
    }
  }

  function Max(a: int, b: int): int { if a < b then b else a }

  /** A rotation takes from the heavy side, if that side and its heavier child are within the bound themselves. */
  lemma Lighter<V>(key: int, value: V, l: Tree<V>, r: Tree<V>)
    requires l.Sized() && r.Sized() && !Within(l.Size(), r.Size())
    requires var h := if l.Size() < r.Size() then r else l;
             && (h.Node? ==> Within(h.l.Size(), h.r.Size()))
             && (h.Node? ==> forall c :: c in {h.l, h.r} && c.Node? && c.Size() == Max(h.l.Size(), h.r.Size()) ==> Within(c.l.Size(), c.r.Size()))
    ensures var t := Balance(key, value, l, r); t.Node? && Max(t.l.Size(), t.r.Size()) < Max(l.Size(), r.Size())
  {
    hide Tree.Items, Balance;
    l.SizeIs();
    r.SizeIs();
    if l.Size() < r.Size() {
      LighterRight(key, value, l, r);
    } else {
      LighterLeft(key, value, l, r);
    }
  }

  lemma LighterRight<V>(key: int, value: V, l: Tree<V>, r: Tree<V>)
    requires l.Sized() && r.Sized() && !Within(l.Size(), r.Size()) && l.Size() < r.Size() && r.Node?
    requires Within(r.l.Size(), r.r.Size()) && (r.l.Node? && r.l.Size() >= r.r.Size() ==> Within(r.l.l.Size(), r.l.r.Size()))
    ensures var t := Balance(key, value, l, r); t.Node? && t.l.Size() < r.Size() && t.r.Size() < r.Size()
  {
    hide Tree.Items, SingleRight, DoubleRight;
    l.SizeIs();
    Parts(r);
    if r.l.Size() >= r.r.Size() {
      BalanceSize(r.key, r.value, r.l.r, r.r);
    }
  }

  lemma LighterLeft<V>(key: int, value: V, l: Tree<V>, r: Tree<V>)
    requires l.Sized() && r.Sized() && !Within(l.Size(), r.Size()) && r.Size() <= l.Size() && l.Node?
    requires Within(l.l.Size(), l.r.Size()) && (l.r.Node? && l.r.Size() >= l.l.Size() ==> Within(l.r.l.Size(), l.r.r.Size()))
    ensures var t := Balance(key, value, l, r); t.Node? && t.l.Size() < l.Size() && t.r.Size() < l.Size()
  {
    hide Tree.Items, SingleLeft, DoubleLeft;
    r.SizeIs();
    Parts(l);
    if l.r.Size() >= l.l.Size() {
      BalanceSize(l.key, l.value, l.l, l.r.l);
    }
  }

  /** The sides are close enough for rotations to bring them within the bound. */
  predicate Near(ln: int, rn: int) {
    rn <= 5 * ln + 4 && ln <= 5 * rn + 4
  }

  /** A single rotation moves the smaller child of the heavy side to the light one. */
  lemma SingleWithin(light: nat, inner: nat, outer: nat)
    requires Within(inner, outer) && inner < outer && 4 * light < inner + outer + 1 <= 5 * light + 4
    ensures Within(light, inner) && Within(light + inner + 1, outer)
  {
  }

  /** A double rotation parts the inner child; what is left of the heavy side is near again. */
  lemma DoubleWithin(light: nat, first: nat, second: nat, outer: nat)
    requires Within(first, second) && Within(first + second + 1, outer) && first + second + 1 >= outer
    requires 4 * light < first + second + outer + 2 <= 5 * light + 4
    ensures Within(light, first) && Near(second, outer) && Within(light + first + 1, second + outer + 1)
  {
  }

  lemma NewBalanced<V>(key: int, value: V, l: Tree<V>, r: Tree<V>)
    requires Balanced(l) && Balanced(r) && Within(l.Size(), r.Size())
    ensures Balanced(New(key, value, l, r)) && New(key, value, l, r).Size() == l.Size() + r.Size() + 1
  {
  }

  /** Balancing trees that are near each other gives a balanced tree. */
  lemma {:induction false} BalanceKeeps<V>(key: int, value: V, l: Tree<V>, r: Tree<V>)
    requires l.Sized() && r.Sized() && Balanced(l) && Balanced(r) && Near(l.Size(), r.Size())
    ensures Balanced(Balance(key, value, l, r))
    decreases Load(l, r), 1
  {
    hide Tree.Items, SingleLeft, DoubleLeft, SingleRight, DoubleRight;
    l.SizeIs();
    r.SizeIs();
    if l.Size() + r.Size() >= 2 && r.Size() > WEIGHT * l.Size() {
      RightHeavyKeeps(key, value, l, r);
    } else if l.Size() + r.Size() >= 2 && l.Size() > WEIGHT * r.Size() {
      LeftHeavyKeeps(key, value, l, r);
    } else {
      NewBalanced(key, value, l, r);
    }
  }

  lemma {:induction false} RightHeavyKeeps<V>(key: int, value: V, l: Tree<V>, r: Tree<V>)
    requires l.Sized() && r.Sized() && Balanced(l) && Balanced(r) && Near(l.Size(), r.Size())
    requires l.Size() + r.Size() >= 2 && r.Size() > WEIGHT * l.Size()
    ensures Balanced(Balance(key, value, l, r))
    decreases Load(l, r), 0
  {
    hide Within, Near, Tree.Items, SingleRight, DoubleRight;
    l.SizeIs();
    Parts(r);
    if r.l.Size() < r.r.Size() {
      SingleWithin(l.Size(), r.l.Size(), r.r.Size()) by { NearRight(l.Size(), r.Size()); }
      NewBalanced(key, value, l, r.l);
      NewBalanced(r.key, r.value, New(key, value, l, r.l), r.r);
    } else {
      var c := r.l;
      DoubleWithin(l.Size(), c.l.Size(), c.r.Size(), r.r.Size()) by { NearRight(l.Size(), r.Size()); }
      BalanceSize(r.key, r.value, c.r, r.r);
      BalanceKeeps(r.key, r.value, c.r, r.r);
      NewBalanced(key, value, l, c.l);
      NewBalanced(c.key, c.value, New(key, value, l, c.l), Balance(r.key, r.value, c.r, r.r));
    }
  }

  lemma NearRight(ln: int, rn: int)
    requires Near(ln, rn)
    ensures rn <= 5 * ln + 4 && ln <= 5 * rn + 4
  {
  }

  lemma WithinMirrored(ln: int, rn: int)
    ensures Within(ln, rn) == Within(rn, ln) && Near(ln, rn) == Near(rn, ln)
  {
  }

  lemma {:induction false} LeftHeavyKeeps<V>(key: int, value: V, l: Tree<V>, r: Tree<V>)
    requires l.Sized() && r.Sized() && Balanced(l) && Balanced(r) && Near(l.Size(), r.Size())
    requires l.Size() + r.Size() >= 2 && l.Size() > WEIGHT * r.Size()
    ensures Balanced(Balance(key, value, l, r))
    decreases Load(l, r), 0
  {
    hide Within, Near, Tree.Items, SingleLeft, DoubleLeft;
    r.SizeIs();
    Parts(l);
    WithinMirrored(l.l.Size(), l.r.Size());
    if l.r.Size() < l.l.Size() {
      SingleWithin(r.Size(), l.r.Size(), l.l.Size()) by { NearRight(l.Size(), r.Size()); }
      WithinMirrored(r.Size(), l.r.Size());
      WithinMirrored(r.Size() + l.r.Size() + 1, l.l.Size());
      NewBalanced(key, value, l.r, r);
      NewBalanced(l.key, l.value, l.l, New(key, value, l.r, r));
    } else {
      var c := l.r;
      WithinMirrored(c.l.Size(), c.r.Size());
      DoubleWithin(r.Size(), c.r.Size(), c.l.Size(), l.l.Size()) by { NearRight(l.Size(), r.Size()); }
      WithinMirrored(r.Size(), c.r.Size());
      WithinMirrored(c.l.Size(), l.l.Size());
      WithinMirrored(r.Size() + c.r.Size() + 1, c.l.Size() + l.l.Size() + 1);
      BalanceSize(l.key, l.value, l.l, c.l);
      BalanceKeeps(l.key, l.value, l.l, c.l);
      NewBalanced(key, value, c.r, r);
      NewBalanced(c.key, c.value, Balance(l.key, l.value, l.l, c.l), New(key, value, c.r, r));
    }
  }

  lemma {:induction false} InsertSize<V>(t: Tree<V>, key: int, value: V)
    requires t.Sized()
    ensures t.Size() <= Insert(t, key, value).Size() <= t.Size() + 1
  {
    hide Balance, Tree.Items;
    if t.Node? {
      InsertSize(t.l, key, value);
      InsertSize(t.r, key, value);
      BalanceSize(t.key, t.value, Insert(t.l, key, value), t.r);
      BalanceSize(t.key, t.value, t.l, Insert(t.r, key, value));
    }
  }

  /** One node more or less on one side leaves the sides near. */
  lemma StillNear(ln: nat, rn: nat, ln': nat, rn': nat)
    requires Within(ln, rn) && ln - 1 <= ln' <= ln + 1 && rn - 1 <= rn' <= rn + 1 && (ln' == ln || rn' == rn)
    ensures Near(ln', rn')
  {
  }

  /** Balancing after one side has grown or shrunk by one. */
  lemma RebalanceKeeps<V>(t: Tree<V>, key: int, value: V, l: Tree<V>, r: Tree<V>)
    requires t.Sized() && t.Node? && Balanced(t) && l.Sized() && r.Sized() && Balanced(l) && Balanced(r)
    requires t.l.Size() - 1 <= l.Size() <= t.l.Size() + 1 && t.r.Size() - 1 <= r.Size() <= t.r.Size() + 1
    requires l.Size() == t.l.Size() || r.Size() == t.r.Size()
    ensures Balanced(Balance(key, value, l, r)) && Balance(key, value, l, r).Size() == l.Size() + r.Size() + 1
    ensures t.Size() == t.l.Size() + t.r.Size() + 1
  {
    hide Balance, Tree.Items, Near;
    Parts(t);
    BalanceSize(key, value, l, r);
    StillNear(t.l.Size(), t.r.Size(), l.Size(), r.Size());
    BalanceKeeps(key, value, l, r);
  }

  /** Insertion keeps a tree balanced. */
  lemma {:induction false} InsertBalanced<V>(t: Tree<V>, key: int, value: V)
    requires t.Sized() && Balanced(t)
    ensures Balanced(Insert(t, key, value))
  {
    hide Balance, Tree.Items, Within;
    if t.Node? {
      if key < t.key {
        InsertSize(t.l, key, value);
        InsertBalanced(t.l, key, value);
        RebalanceKeeps(t, t.key, t.value, Insert(t.l, key, value), t.r);
      } else if key > t.key {
        InsertSize(t.r, key, value);
        InsertBalanced(t.r, key, value);
        RebalanceKeeps(t, t.key, t.value, t.l, Insert(t.r, key, value));
      }
    } else {
      NewBalanced(key, value, Nil, Nil) by { assert Within(0, 0) by { Empty(); } }
    }
  }

  lemma Empty()
    ensures Within(0, 0)
  {
  }

  lemma {:induction false} WithoutLeastBalanced<V>(t: Tree<V>)
    requires t.Sized() && t.Node? && Balanced(t)
    ensures Balanced(WithoutLeast(t)) && WithoutLeast(t).Size() == t.Size() - 1
  {
    hide Balance, Tree.Items, Within;
    Parts(t);
    if t.l.Node? {
      WithoutLeastBalanced(t.l);
      RebalanceKeeps(t, t.key, t.value, WithoutLeast(t.l), t.r);
    }
  }

  lemma JoinBalanced<V>(t: Tree<V>)
    requires t.Sized() && t.Node? && Balanced(t)
    ensures Balanced(Join(t.l, t.r)) && Join(t.l, t.r).Size() == t.Size() - 1
  {
    hide Balance, Tree.Items, Within;
    Parts(t);
    if t.l.Node? && t.r.Node? {
      WithoutLeastBalanced(t.r);
      RebalanceKeeps(t, Least(t.r).key, Least(t.r).value, t.l, WithoutLeast(t.r));
    }
  }

  /** So does removal. */
  lemma {:induction false} RemoveBalanced<V>(t: Tree<V>, key: int)
    requires t.Sized() && Balanced(t)
    ensures Balanced(Remove(t, key)) && t.Size() - 1 <= Remove(t, key).Size() <= t.Size()
  {
    hide Balance, Tree.Items, Within, Join;
    if t.Node? {
      if key < t.key {
        RemoveBalanced(t.l, key);
        RebalanceKeeps(t, t.key, t.value, Remove(t.l, key), t.r);
      } else if key > t.key {
        RemoveBalanced(t.r, key);
        RebalanceKeeps(t, t.key, t.value, t.l, Remove(t.r, key));
      } else {
        JoinBalanced(t);
      }
    }
  }

  // All trees that can be built

  datatype Update<V> = Add(key: int, value: V) | Take(key: int)

  function Updated<V>(updates: seq<Update<V>>): (t: Tree<V>)
    ensures t.Sized()
  {
    if updates == [] then Nil
    else
      var t, u := Updated(updates[..|updates| - 1]), updates[|updates| - 1];
      match u
      case Add(key, value) => Insert(t, key, value)
      case Take(key) => Remove(t, key)
  }

  /** Whatever is inserted and removed, the tree is balanced. */
  lemma {:induction false} AlwaysBalanced<V>(updates: seq<Update<V>>)
    ensures Balanced(Updated(updates))
  {
    hide Insert, Remove;
    if updates != [] {
      var t, u := Updated(updates[..|updates| - 1]), updates[|updates| - 1];
      AlwaysBalanced(updates[..|updates| - 1]);
      match u {
        case Add(key, value) => InsertBalanced(t, key, value);
        case Take(key) => RemoveBalanced(t, key);
      }
    }
  }

  function Height<V>(t: Tree<V>): nat {
    if t.Nil? then 0 else Max(Height(t.l), Height(t.r)) + 1
  }

  function Power(b: nat, e: nat): nat {
    if e == 0 then 1 else b * Power(b, e - 1)
  }

  /** A balanced tree is no higher than the logarithm of its size to the base of five quarters, and one. */
  lemma {:induction false} Shallow<V>(t: Tree<V>)
    requires t.Sized() && Balanced(t) && t.Node?
    ensures Power(5, Height(t) - 1) <= Power(4, Height(t) - 1) * t.Size()
  {
    hide Tree.Items;
    Parts(t);
    var c := if Height(t.l) >= Height(t.r) then t.l else t.r;
    if c.Node? {
      var h := Height(t) - 1;
      Shallow(c);
      assert 5 * c.Size() <= 4 * t.Size();
      Climb(Power(5, h - 1), Power(4, h - 1), c.Size(), t.Size());
    }
  }

  lemma Climb(a: nat, b: nat, c: int, n: int)
    requires a <= b * c && 5 * c <= 4 * n
    ensures 5 * a <= (4 * b) * n
  {
    Division.Monotone(5 * c, 4 * n, b);
    assert 5 * a <= 5 * (b * c) == (5 * c) * b <= (4 * n) * b == (4 * b) * n;
  }
}
