/** The shape a correctly built tree keeps: every node below an internal
    node is owned through exactly one slot, points back at its owner, and the
    leaves hold residuals that fit their height. Nodes reachable from x are
    collected in Reach, and everything about a subtree depends only on the
    records in its Reach (the frame lemmas). */
module Shape {
  import opened Digits
  import opened Nodes
  import opened Insert
  import opened Lookup

  /** The records reachable from x at height h. */
  ghost function Reach<E>(a: Arena<E>, x: nat, h: nat): (s: set<nat>)
    requires Closed(a) && x < |a|
    ensures x in s && forall z | z in s :: z < |a|
    decreases h, 1
  {
    {x} + (if a[x].isLeaf then {} else set d, z | 0 <= d < SIZE && z in ChildReach(a, x, h, d) :: z)
  }

  /** The records reachable through slot d of x at height h. */
  ghost function ChildReach<E>(a: Arena<E>, x: nat, h: nat, d: nat): (s: set<nat>)
    requires Closed(a) && x < |a| && d < SIZE
    ensures forall z | z in s :: z < |a|
    decreases h, 0
  {
    assert NodeIn(a[x], |a|);
    var c := a[x].children[d];
    if c == Null then {} else if h == 0 then {c} else Reach(a, c, h - 1)
  }

  /** The subtree at x is well formed for height h. */
  ghost predicate Sub<E>(a: Arena<E>, x: nat, h: nat)
    requires Closed(a)
    decreases h, 1
  {
    x < |a| && h <= MAX_HEIGHT &&
    (a[x].isLeaf ==> a[x].rest < Unit(h + 1) && a[x].element.Some?) &&
    (!a[x].isLeaf ==>
      (forall d | 0 <= d < SIZE :: ChildSub(a, x, h, d)) &&
      (forall d, e | 0 <= d < e < SIZE :: ChildReach(a, x, h, d) !! ChildReach(a, x, h, e)) &&
      (forall d | 0 <= d < SIZE :: x !in ChildReach(a, x, h, d)))
  }

  /** Slot d of x at height h is empty or owns a child that points back at
      x: a well-formed subtree one level down, or at height 0 a leaf whose
      residual is used up. */
  ghost predicate ChildSub<E>(a: Arena<E>, x: nat, h: nat, d: nat)
    requires Closed(a) && x < |a| && d < SIZE
    decreases h, 0
  {
    assert NodeIn(a[x], |a|);
    var c := a[x].children[d];
    c != Null ==>
      a[c].parent == x &&
      if h == 0 then a[c].isLeaf && a[c].rest == 0 && a[c].element.Some?
      else Sub(a, c, h - 1)
  }

  /** A well-formed subtree is bounded along every key's path: the insert
      can descend into it without indexing past a node's slots. */
  lemma {:induction false} SubBounded<E>(a: Arena<E>, x: nat, entry: nat, h: nat)
    requires Closed(a) && Sub(a, x, h) && entry < Unit(h + 1)
    ensures PathBounded(a, x, entry, h)
    decreases h
  {
    if !a[x].isLeaf && h > 0 {
      DigitBound(entry, h);
      var d := Digit(entry, h);
      assert ChildSub(a, x, h, d);
      if a[x].children[d] != Null {
        SubBounded(a, a[x].children[d], Residual(entry, h), h - 1);
      }
    }
  }

  /** Two arenas hold the same records at the indices in s. */
  ghost predicate Agree<E>(a: Arena<E>, b: Arena<E>, s: set<nat>)
  {
    forall z | z in s :: z < |a| && z < |b| && b[z] == a[z]
  }

  /** Agreement on a set carries over to its subsets. */
  lemma AgreeSubset<E>(a: Arena<E>, b: Arena<E>, s: set<nat>, t: set<nat>)
    requires Agree(a, b, t) && s <= t
    ensures Agree(a, b, s)
  {
  }

  /** The records a non-null slot below height 0 reaches are those its child
      reaches one level down. */
  lemma SlotReach<E>(a: Arena<E>, x: nat, h: nat, d: nat)
    requires Closed(a) && x < |a| && d < SIZE && h > 0
    requires (assert NodeIn(a[x], |a|); a[x].children[d] != Null)
    ensures (assert NodeIn(a[x], |a|); ChildReach(a, x, h, d) == Reach(a, a[x].children[d], h - 1))
  {
  }

  lemma ChildReachIn<E>(a: Arena<E>, x: nat, h: nat, d: nat)
    requires Closed(a) && x < |a| && d < SIZE && !a[x].isLeaf
    ensures ChildReach(a, x, h, d) <= Reach(a, x, h)
  {
    forall z | z in ChildReach(a, x, h, d) ensures z in Reach(a, x, h) {
      assert 0 <= d < SIZE && z in ChildReach(a, x, h, d);
    }
  }

  /** Every record reachable from x other than x itself is reachable
      through one of its slots. */
  lemma ReachSlot<E>(a: Arena<E>, x: nat, h: nat, z: nat)
    requires Closed(a) && x < |a| && z in Reach(a, x, h) && z != x
    ensures !a[x].isLeaf && exists d | 0 <= d < SIZE :: z in ChildReach(a, x, h, d)
  {
  }

  lemma {:induction false} ReachFrame<E>(a: Arena<E>, b: Arena<E>, x: nat, h: nat)
    requires Closed(a) && Closed(b) && x < |a| && Agree(a, b, Reach(a, x, h))
    ensures x < |b| && b[x] == a[x]
    ensures Reach(b, x, h) == Reach(a, x, h)
    ensures !a[x].isLeaf ==> forall d | 0 <= d < SIZE :: ChildReach(b, x, h, d) == ChildReach(a, x, h, d)
    decreases h, 1
  {
    assert x in Reach(a, x, h);
    if !a[x].isLeaf {
      forall d | 0 <= d < SIZE ensures ChildReach(b, x, h, d) == ChildReach(a, x, h, d) {
        ChildReachFrame(a, b, x, h, d);
      }
      ReachOfSlots(a, b, x, h);
    }
  }

  lemma {:induction false} ChildReachFrame<E>(a: Arena<E>, b: Arena<E>, x: nat, h: nat, d: nat)
    requires Closed(a) && Closed(b) && x < |a| && !a[x].isLeaf && d < SIZE
    requires Agree(a, b, Reach(a, x, h))
    ensures x < |b| && ChildReach(b, x, h, d) == ChildReach(a, x, h, d)
    decreases h, 0
  {
    assert x in Reach(a, x, h);
    ChildReachIn(a, x, h, d);
    assert NodeIn(a[x], |a|);
    var c := a[x].children[d];
    if c != Null && h > 0 {
      SlotReach(a, x, h, d);
      AgreeSubset(a, b, Reach(a, c, h - 1), Reach(a, x, h));
      ReachFrame(a, b, c, h - 1);
    }
  }

  /** Internal nodes whose slots reach the same records reach the same
      records. */
  lemma ReachOfSlots<E>(a: Arena<E>, b: Arena<E>, x: nat, h: nat)
    requires Closed(a) && Closed(b) && x < |a| && x < |b| && !a[x].isLeaf && !b[x].isLeaf
    requires forall d | 0 <= d < SIZE :: ChildReach(b, x, h, d) == ChildReach(a, x, h, d)
    ensures Reach(b, x, h) == Reach(a, x, h)
  {
    forall z ensures z in Reach(b, x, h) <==> z in Reach(a, x, h) {
      if z in Reach(b, x, h) && z != x {
        ReachSlot(b, x, h, z);
        var d :| 0 <= d < SIZE && z in ChildReach(b, x, h, d);
        ChildReachIn(a, x, h, d);
      }
      if z in Reach(a, x, h) && z != x {
        ReachSlot(a, x, h, z);
        var d :| 0 <= d < SIZE && z in ChildReach(a, x, h, d);
        ChildReachIn(b, x, h, d);
      }
    }
  }

  lemma {:induction false} SubFrame<E>(a: Arena<E>, b: Arena<E>, x: nat, h: nat)
    requires Closed(a) && Closed(b) && Sub(a, x, h) && Agree(a, b, Reach(a, x, h))
    ensures Sub(b, x, h)
    decreases h, 1
  {
    ReachFrame(a, b, x, h);
    if !a[x].isLeaf {
      forall d | 0 <= d < SIZE ensures ChildSub(b, x, h, d) {
        ChildSubFrame(a, b, x, h, d);
      }
      assert forall d | 0 <= d < SIZE :: x !in ChildReach(b, x, h, d);
      assert forall d, e | 0 <= d < e < SIZE :: ChildReach(b, x, h, d) !! ChildReach(b, x, h, e);
    }
  }

  lemma {:induction false} ChildSubFrame<E>(a: Arena<E>, b: Arena<E>, x: nat, h: nat, d: nat)
    requires Closed(a) && Closed(b) && Sub(a, x, h) && !a[x].isLeaf && d < SIZE
    requires Agree(a, b, Reach(a, x, h))
    ensures x < |b| && ChildSub(b, x, h, d)
    decreases h, 0
  {
    assert ChildSub(a, x, h, d);
    ChildReachIn(a, x, h, d);
    assert x in Reach(a, x, h);
    assert NodeIn(a[x], |a|);
    var c := a[x].children[d];
    if c != Null {
      assert c in ChildReach(a, x, h, d);
      if h > 0 {
        SlotReach(a, x, h, d);
        AgreeSubset(a, b, Reach(a, c, h - 1), Reach(a, x, h));
        SubFrame(a, b, c, h - 1);
      }
    }
  }

  lemma {:induction false} FindFrame<E>(v: Variant, a: Arena<E>, b: Arena<E>, x: nat, k: nat, h: nat)
    requires Closed(a) && Closed(b) && x < |a| && k < Unit(h + 1) && h <= MAX_HEIGHT && Agree(a, b, Reach(a, x, h))
    ensures x < |b| && Find(v, b, x, k, h) == Find(v, a, x, k, h)
    decreases h, 1
  {
    assert x in Reach(a, x, h);
    if !a[x].isLeaf {
      DigitBound(k, h);
      AgreeChild(a, b, x, h, Digit(k, h));
      SlotFindSame(v, a, b, x, k, h);
      FindSameSlot(v, a, b, x, k, h);
    } else {
      FindSameNode(v, a, b, x, k, h);
    }
  }

  /** Agreement on the records x reaches covers those each slot reaches. */
  lemma AgreeChild<E>(a: Arena<E>, b: Arena<E>, x: nat, h: nat, d: nat)
    requires Closed(a) && Closed(b) && x < |a| && !a[x].isLeaf && d < SIZE && Agree(a, b, Reach(a, x, h))
    ensures x < |b| && SameSlot(a, b, x, d) && Agree(a, b, ChildReach(a, x, h, d))
  {
    assert x in Reach(a, x, h);
    assert NodeIn(a[x], |a|) && NodeIn(b[x], |b|);
    ChildReachIn(a, x, h, d);
  }

  /** A node that is the same record in both arenas, and whose slot on the
      key's path leads to the same lookup one level down, gives the same
      lookup. */
  lemma FindSameNode<E>(v: Variant, a: Arena<E>, b: Arena<E>, x: nat, k: nat, h: nat)
    requires Closed(a) && Closed(b) && x < |a| && x < |b| && k < Unit(h + 1) && h <= MAX_HEIGHT && b[x] == a[x]
    requires (DigitBound(k, h);
              assert NodeIn(a[x], |a|);
              var c := a[x].children[Digit(k, h)];
              !a[x].isLeaf && c != Null ==>
                c < |b| && (h == 0 ==> b[c] == a[c]) &&
                (h > 0 ==> Find(v, b, c, Residual(k, h), h - 1) == Find(v, a, c, Residual(k, h), h - 1)))
    ensures Find(v, b, x, k, h) == Find(v, a, x, k, h)
  {
    DigitBound(k, h);
  }

  /** Slot d of x holds the same pointer in a and b. */
  predicate SameSlot<E>(a: Arena<E>, b: Arena<E>, x: nat, d: nat)
  {
    x < |a| && x < |b| && d < SIZE && |a[x].children| == SIZE && |b[x].children| == SIZE &&
    a[x].children[d] == b[x].children[d]
  }

  /** Two slots of a well-formed internal node reach disjoint records. */
  lemma SlotsDisjoint<E>(a: Arena<E>, x: nat, h: nat, d: nat, e: nat)
    requires Closed(a) && Sub(a, x, h) && !a[x].isLeaf && d < SIZE && e < SIZE && d != e
    ensures ChildReach(a, x, h, d) !! ChildReach(a, x, h, e)
  {
    if d < e {
      assert ChildReach(a, x, h, d) !! ChildReach(a, x, h, e);
    } else {
      assert ChildReach(a, x, h, e) !! ChildReach(a, x, h, d);
    }
  }

  /** A slot whose pointer and records are unchanged reaches the same
      records and is as well formed as before. */
  lemma OtherSlot<E>(a: Arena<E>, b: Arena<E>, x: nat, h: nat, d: nat)
    requires Closed(a) && Closed(b) && SameSlot(a, b, x, d)
    requires ChildSub(a, x, h, d) && Agree(a, b, ChildReach(a, x, h, d))
    ensures ChildReach(b, x, h, d) == ChildReach(a, x, h, d) && ChildSub(b, x, h, d)
  {
    OtherSlotReach(a, b, x, h, d);
    OtherSlotSub(a, b, x, h, d);
  }

  lemma OtherSlotReach<E>(a: Arena<E>, b: Arena<E>, x: nat, h: nat, d: nat)
    requires Closed(a) && Closed(b) && SameSlot(a, b, x, d)
    requires Agree(a, b, ChildReach(a, x, h, d))
    ensures ChildReach(b, x, h, d) == ChildReach(a, x, h, d)
  {
    var c := a[x].children[d];
    assert b[x].children[d] == c;
    if c != Null && h > 0 {
      ChildAgree(a, b, x, h, d);
      ReachFrame(a, b, c, h - 1);
      SlotReach(a, x, h, d);
      SlotReach(b, x, h, d);
    }
  }

  lemma OtherSlotSub<E>(a: Arena<E>, b: Arena<E>, x: nat, h: nat, d: nat)
    requires Closed(a) && Closed(b) && SameSlot(a, b, x, d)
    requires ChildSub(a, x, h, d) && Agree(a, b, ChildReach(a, x, h, d))
    ensures ChildSub(b, x, h, d)
  {
    var c := a[x].children[d];
    if c != Null {
      assert c in ChildReach(a, x, h, d);
      assert b[c] == a[c];
      if h > 0 {
        ChildAgree(a, b, x, h, d);
        SubFrame(a, b, c, h - 1);
      }
    }
  }

  /** A lookup that goes through an unchanged slot finds the same. */
  lemma FindOtherSlot<E>(v: Variant, a: Arena<E>, b: Arena<E>, x: nat, k: nat, h: nat)
    requires Closed(a) && Closed(b) && k < Unit(h + 1) && h <= MAX_HEIGHT
    requires (DigitBound(k, h); SameSlot(a, b, x, Digit(k, h)) && Agree(a, b, ChildReach(a, x, h, Digit(k, h))))
    requires !a[x].isLeaf && !b[x].isLeaf
    ensures Find(v, b, x, k, h) == Find(v, a, x, k, h)
  {
    DigitBound(k, h);
    SlotFindSame(v, a, b, x, k, h);
    FindSameSlot(v, a, b, x, k, h);
  }

  /** The child behind an unchanged slot, with unchanged records below it,
      looks the same to the lookup. */
  lemma {:induction false} SlotFindSame<E>(v: Variant, a: Arena<E>, b: Arena<E>, x: nat, k: nat, h: nat)
    requires Closed(a) && Closed(b) && k < Unit(h + 1) && h <= MAX_HEIGHT
    requires (DigitBound(k, h); SameSlot(a, b, x, Digit(k, h)) && Agree(a, b, ChildReach(a, x, h, Digit(k, h))))
    decreases h, 0
    ensures (DigitBound(k, h);
             var c := a[x].children[Digit(k, h)];
             c != Null ==>
               c < |a| && c < |b| && (h == 0 ==> b[c] == a[c]) &&
               (h > 0 ==> Find(v, b, c, Residual(k, h), h - 1) == Find(v, a, c, Residual(k, h), h - 1)))
  {
    DigitBound(k, h);
    var d := Digit(k, h);
    assert NodeIn(a[x], |a|);
    var c := a[x].children[d];
    if c != Null && h > 0 {
      ChildAgree(a, b, x, h, d);
      FindFrame(v, a, b, c, Residual(k, h), h - 1);
    } else if c != Null {
      LastSlotSame(a, b, x, d);
    }
  }

  /** Agreement on what a non-null slot above height 0 reaches is agreement
      on what its child reaches. */
  lemma ChildAgree<E>(a: Arena<E>, b: Arena<E>, x: nat, h: nat, d: nat)
    requires Closed(a) && x < |a| && d < SIZE && h > 0 && Agree(a, b, ChildReach(a, x, h, d))
    requires (assert NodeIn(a[x], |a|); a[x].children[d] != Null)
    ensures (assert NodeIn(a[x], |a|); Agree(a, b, Reach(a, a[x].children[d], h - 1)))
  {
    SlotReach(a, x, h, d);
  }

  /** The leaf in an unchanged slot at height 0 is an unchanged record. */
  lemma LastSlotSame<E>(a: Arena<E>, b: Arena<E>, x: nat, d: nat)
    requires Closed(a) && Closed(b) && SameSlot(a, b, x, d) && Agree(a, b, ChildReach(a, x, 0, d))
    ensures a[x].children[d] != Null ==> a[x].children[d] < |b| && b[a[x].children[d]] == a[a[x].children[d]]
  {
    assert NodeIn(a[x], |a|);
    if a[x].children[d] != Null {
      assert ChildReach(a, x, 0, d) == {a[x].children[d]};
    }
  }

  /** Two internal nodes whose slot on the key's path holds the same child,
      which looks the same to the lookup, give the same lookup. */
  lemma FindSameSlot<E>(v: Variant, a: Arena<E>, b: Arena<E>, x: nat, k: nat, h: nat)
    requires Closed(a) && Closed(b) && k < Unit(h + 1) && h <= MAX_HEIGHT
    requires (DigitBound(k, h); SameSlot(a, b, x, Digit(k, h))) && !a[x].isLeaf && !b[x].isLeaf
    requires (DigitBound(k, h);
              var c := a[x].children[Digit(k, h)];
              c != Null ==>
                c < |a| && c < |b| && (h == 0 ==> b[c] == a[c]) &&
                (h > 0 ==> Find(v, b, c, Residual(k, h), h - 1) == Find(v, a, c, Residual(k, h), h - 1)))
    ensures Find(v, b, x, k, h) == Find(v, a, x, k, h)
  {
    DigitBound(k, h);
  }
}
