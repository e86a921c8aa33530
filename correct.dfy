/** The corrected insert and lookup together behave as a map from keys to
    payloads: an insert of an absent key makes exactly that key find its
    payload, an insert of a present key fails and changes no lookup, and the
    tree keeps its shape. The proofs follow the recursion of the insert: a
    split (lines 19-33), a leaf placed in an empty slot (lines 37-46), an
    occupied slot at height 0 (lines 49-52) and the descent (lines 53-55). */
module Correctness {
  import opened Digits
  import opened Nodes
  import opened Insert
  import opened Lookup
  import opened Shape

  /** The leaf x about to be split hangs from a parent other than itself. */
  predicate Hung<E>(a: Arena<E>, x: nat, parentIndex: int)
    requires x < |a|
  {
    a[x].isLeaf ==> 0 <= parentIndex < SIZE && 0 <= a[x].parent < |a| && a[x].parent != x
  }

  /** After an insert of entry with payload item into the subtree at x,
      the subtree now at y finds item for entry when the insert succeeded,
      and whatever x found before for every other key. */
  ghost predicate FindsAfter<E>(a: Arena<E>, x: nat, h: nat, entry: nat, item: E, b: Arena<E>, y: nat, status: int)
    requires Closed(a) && x < |a| && Closed(b) && y < |b| && h <= MAX_HEIGHT
  {
    forall k | 0 <= k < Unit(h + 1) ::
      Find(Corrected, b, y, k, h) == if status == 0 && k == entry then Some(item) else Find(Corrected, a, x, k, h)
  }

  /** What the corrected insert of entry into the subtree at x (height h)
      leaves behind in arena b, with y the node now standing where x stood
      and status the returned code: a well-formed subtree that reaches only
      old records of x's subtree and fresh ones; no record outside x's
      subtree changes except the parent slot that a split rewrites; the call
      fails exactly when entry was already found; and every lookup is as
      before except that entry now finds item when the call succeeded. */
  ghost predicate InsertPost<E>(a: Arena<E>, x: nat, h: nat, parentIndex: int, entry: nat, item: E,
                                b: Arena<E>, y: nat, status: int)
    requires Closed(a) && Sub(a, x, h) && entry < Unit(h + 1)
    requires a[x].isLeaf ==> 0 <= parentIndex < SIZE
  {
    Closed(b) && |a| <= |b| && y < |b| && Sub(b, y, h) && !b[y].isLeaf && b[y].parent == a[x].parent &&
    (forall z | z in Reach(b, y, h) :: z in Reach(a, x, h) || |a| <= z) &&
    (forall z | 0 <= z < |a| && z !in Reach(a, x, h) ::
       b[z] == if a[x].isLeaf && z == a[x].parent
               then (assert NodeIn(a[z], |a|); a[z].(children := a[z].children[parentIndex := y]))
               else a[z]) &&
    (status == 0 <==> Find(Corrected, a, x, entry, h) == None) &&
    FindsAfter(a, x, h, entry, item, b, y, status)
  }

  /** The corrected split (lines 19-33 with lines 24-29 and 31 corrected):
      the fresh internal node stands in the leaf's place, owns only the
      leaf, and finds exactly what the leaf found. */
  lemma SplitCorrect<E>(a: Arena<E>, x: nat, entry: nat, h: nat, parentIndex: int)
    requires Closed(a) && Sub(a, x, h) && a[x].isLeaf && Hung(a, x, parentIndex)
    ensures var b := Split(Corrected, a, x, entry, h, parentIndex);
            var n := |a|;
            Sub(b, n, h) && !b[n].isLeaf && b[n].parent == a[x].parent && Reach(b, n, h) == {n, x} &&
            (forall z | 0 <= z < |a| && z != x ::
               b[z] == if z == a[x].parent then a[z].(children := a[z].children[parentIndex := n]) else a[z]) &&
            (forall k | 0 <= k < Unit(h + 1) :: Find(Corrected, b, n, k, h) == Find(Corrected, a, x, k, h))
  {
    SplitEffect(Corrected, a, x, entry, h, parentIndex);
    DigitBound(a[x].rest, h);
    var b := Split(Corrected, a, x, entry, h, parentIndex);
    var n := |a|;
    var index := Digit(a[x].rest, h);
    assert b[x].rest == Residual(a[x].rest, h);
    if h > 0 {
      assert Sub(b, x, h - 1);
      assert Reach(b, x, h - 1) == {x};
    }
    forall d | 0 <= d < SIZE
      ensures ChildSub(b, n, h, d)
      ensures ChildReach(b, n, h, d) == if d == index then {x} else {}
    {
    }
    assert Sub(b, n, h);
    forall z ensures z in Reach(b, n, h) <==> z == n || z == x {
      if z == x {
        ChildReachIn(b, n, h, index);
      }
      if z in Reach(b, n, h) && z != n {
        ReachSlot(b, n, h, z);
      }
    }
    forall k | 0 <= k < Unit(h + 1)
      ensures Find(Corrected, b, n, k, h) == Find(Corrected, a, x, k, h)
    {
      DigitBound(k, h);
      DigitResidualDetermine(k, a[x].rest, h);
      if Digit(k, h) == index && h > 0 {
        assert Find(Corrected, b, n, k, h) == Find(Corrected, b, x, Residual(k, h), h - 1);
      }
    }
  }

  /** Re-pointing slot index of x at a well-formed subtree y of fresh or
      formerly owned records, with x's other slots and their records
      untouched, keeps x's subtree well formed; x then reaches only records
      it reached before or fresh ones, and its other slots are as they were. */
  lemma Rehang<E>(a: Arena<E>, b: Arena<E>, x: nat, h: nat, index: nat, y: int)
    requires Closed(a) && Closed(b) && Sub(a, x, h) && !a[x].isLeaf && index < SIZE && |a| <= |b|
    requires (assert NodeIn(a[x], |a|); b[x] == a[x].(children := a[x].children[index := y]))
    requires forall z | z in Reach(a, x, h) && z != x && z !in ChildReach(a, x, h, index) :: b[z] == a[z]
    requires ChildSub(b, x, h, index)
    requires forall z | z in ChildReach(b, x, h, index) :: z in ChildReach(a, x, h, index) || |a| <= z
    ensures Sub(b, x, h)
    ensures forall z | z in Reach(b, x, h) :: z in Reach(a, x, h) || |a| <= z
    ensures forall d | 0 <= d < SIZE && d != index :: SameSlot(a, b, x, d) && Agree(a, b, ChildReach(a, x, h, d))
  {
    assert NodeIn(a[x], |a|);
    assert x !in ChildReach(a, x, h, index);
    forall d | 0 <= d < SIZE && d != index
      ensures SameSlot(a, b, x, d) && Agree(a, b, ChildReach(a, x, h, d))
      ensures ChildReach(b, x, h, d) == ChildReach(a, x, h, d) && ChildSub(b, x, h, d)
    {
      SlotsDisjoint(a, x, h, d, index);
      ChildReachIn(a, x, h, d);
      assert x !in ChildReach(a, x, h, d);
      assert ChildSub(a, x, h, d);
      OtherSlot(a, b, x, h, d);
    }
    RehangDisjoint(a, b, x, h, index);
    assert Sub(b, x, h);
    forall z | z in Reach(b, x, h) ensures z in Reach(a, x, h) || |a| <= z {
      if z != x {
        ReachSlot(b, x, h, z);
        var d :| 0 <= d < SIZE && z in ChildReach(b, x, h, d);
        ChildReachIn(a, x, h, d);
      }
    }
  }

  /** The slots of x stay disjoint when one of them is re-pointed at old
      records of its own or fresh ones. */
  lemma RehangDisjoint<E>(a: Arena<E>, b: Arena<E>, x: nat, h: nat, index: nat)
    requires Closed(a) && Closed(b) && Sub(a, x, h) && !a[x].isLeaf && x < |b| && !b[x].isLeaf && index < SIZE
    requires forall d | 0 <= d < SIZE && d != index :: ChildReach(b, x, h, d) == ChildReach(a, x, h, d)
    requires forall z | z in ChildReach(b, x, h, index) :: z in ChildReach(a, x, h, index) || |a| <= z
    ensures forall d, e | 0 <= d < e < SIZE :: ChildReach(b, x, h, d) !! ChildReach(b, x, h, e)
  {
    forall d, e | 0 <= d < e < SIZE ensures ChildReach(b, x, h, d) !! ChildReach(b, x, h, e) {
      SlotsDisjoint(a, x, h, d, e);
    }
  }

  /** An empty slot (lines 37-46): the fresh leaf is owned by x through the
      key's slot and only the key starts to be found. */
  lemma PlaceCorrect<E>(a: Arena<E>, x: nat, entry: nat, item: E, h: nat, parentIndex: int)
    requires Closed(a) && Sub(a, x, h) && !a[x].isLeaf && entry < Unit(h + 1)
    requires (DigitBound(entry, h); a[x].children[Digit(entry, h)] == Null)
    ensures (DigitBound(entry, h);
             InsertPost(a, x, h, parentIndex, entry, item,
                        PlaceLeaf(a, x, Digit(entry, h), Residual(entry, h), item), x, 0))
  {
    DigitBound(entry, h);
    var index := Digit(entry, h);
    var b := PlaceLeaf(a, x, index, Residual(entry, h), item);
    var n := |a|;
    assert forall z | 0 <= z < |a| && z != x :: b[z] == a[z];
    if h > 0 {
      assert Sub(b, n, h - 1);
      assert Reach(b, n, h - 1) == {n};
    }
    assert ChildReach(b, x, h, index) == {n};
    Rehang(a, b, x, h, index, n);
    forall k | 0 <= k < Unit(h + 1)
      ensures Find(Corrected, b, x, k, h) == if k == entry then Some(item) else Find(Corrected, a, x, k, h)
    {
      DigitBound(k, h);
      DigitResidualDetermine(k, entry, h);
      if Digit(k, h) != index {
        FindOtherSlot(Corrected, a, b, x, k, h);
      }
    }
  }

  /** An occupied slot at height 0 (lines 49-52): the key is already there,
      and nothing changes. */
  lemma OccupiedCorrect<E>(a: Arena<E>, x: nat, entry: nat, item: E, parentIndex: int)
    requires Closed(a) && Sub(a, x, 0) && !a[x].isLeaf && entry < Unit(1)
    requires (DigitBound(entry, 0); a[x].children[Digit(entry, 0)] != Null)
    ensures InsertPost(a, x, 0, parentIndex, entry, item, a, x, -1)
  {
    DigitBound(entry, 0);
    assert ChildSub(a, x, 0, Digit(entry, 0));
    assert Find(Corrected, a, x, entry, 0).Some?;
  }

  /** What the recursive call of line 53 promises, as a requirement on x. */
  ghost predicate ChildDone<E>(a: Arena<E>, x: nat, entry: nat, item: E, h: nat, b: Arena<E>, status: int)
    requires Closed(a) && x < |a| && h > 0 && entry < Unit(h + 1)
  {
    DigitBound(entry, h);
    assert NodeIn(a[x], |a|);
    var c := a[x].children[Digit(entry, h)];
    c != Null && Sub(a, c, h - 1) &&
    InsertPost(a, c, h - 1, Digit(entry, h), Residual(entry, h), item,
               b, if a[c].isLeaf then |a| else c, status)
  }

  /** After the descent x points at the child's replacement and no record
      outside the child's subtree, other than x, changes. */
  lemma DescendRecords<E>(a: Arena<E>, x: nat, entry: nat, item: E, h: nat, b: Arena<E>, status: int)
    requires Closed(a) && Sub(a, x, h) && !a[x].isLeaf && h > 0 && entry < Unit(h + 1)
    requires ChildDone(a, x, entry, item, h, b, status)
    ensures (DigitBound(entry, h);
             var index := Digit(entry, h);
             var c := a[x].children[index];
             |a| <= |b| &&
             b[x] == a[x].(children := a[x].children[index := if a[c].isLeaf then |a| else c]) &&
             (forall z | 0 <= z < |a| && z != x && z !in ChildReach(a, x, h, index) :: b[z] == a[z]))
  {
    DigitBound(entry, h);
    var index := Digit(entry, h);
    var c := a[x].children[index];
    var y := if a[c].isLeaf then |a| else c;
    assert ChildSub(a, x, h, index);
    assert ChildReach(a, x, h, index) == Reach(a, c, h - 1);
    assert x !in Reach(a, c, h - 1);
    assert b[x] == a[x].(children := a[x].children[index := y]) by {
      if !a[c].isLeaf {
        assert a[x].children[index := c] == a[x].children;
      }
    }
    forall z | 0 <= z < |a| && z != x && z !in ChildReach(a, x, h, index) ensures b[z] == a[z] {
      PostFrame(a, c, h - 1, index, Residual(entry, h), item, b, y, status, z);
    }
  }

  /** A record outside the subtree an insert went into, other than the
      parent of a split leaf, is untouched. */
  lemma PostFrame<E>(a: Arena<E>, x: nat, h: nat, parentIndex: int, entry: nat, item: E,
                     b: Arena<E>, y: nat, status: int, z: nat)
    requires Closed(a) && Sub(a, x, h) && entry < Unit(h + 1) && (a[x].isLeaf ==> 0 <= parentIndex < SIZE)
    requires InsertPost(a, x, h, parentIndex, entry, item, b, y, status)
    requires z < |a| && z !in Reach(a, x, h) && !(a[x].isLeaf && z == a[x].parent)
    ensures z < |b| && b[z] == a[z]
  {
  }

  /** After the descent slot index of x leads to a well-formed subtree of
      old records of the child's subtree or fresh ones. */
  lemma DescendSlot<E>(a: Arena<E>, x: nat, entry: nat, item: E, h: nat, b: Arena<E>, status: int)
    requires Closed(a) && Sub(a, x, h) && !a[x].isLeaf && h > 0 && entry < Unit(h + 1)
    requires ChildDone(a, x, entry, item, h, b, status)
    requires (DigitBound(entry, h);
              var index := Digit(entry, h);
              var c := a[x].children[index];
              x < |b| && b[x] == a[x].(children := a[x].children[index := if a[c].isLeaf then |a| else c]))
    ensures (DigitBound(entry, h);
             var index := Digit(entry, h);
             ChildSub(b, x, h, index) &&
             (forall z | z in ChildReach(b, x, h, index) :: z in ChildReach(a, x, h, index) || |a| <= z))
  {
    DigitBound(entry, h);
    var index := Digit(entry, h);
    var c := a[x].children[index];
    var y := if a[c].isLeaf then |a| else c;
    assert ChildSub(a, x, h, index);
    assert ChildReach(a, x, h, index) == Reach(a, c, h - 1);
    assert ChildReach(b, x, h, index) == Reach(b, y, h - 1);
  }

  /** The descent (lines 53-55): what the recursive call promises for the
      child's subtree is what the call at x promises for x's. */
  lemma DescendCorrect<E>(a: Arena<E>, x: nat, entry: nat, item: E, h: nat, parentIndex: int,
                          b: Arena<E>, status: int)
    requires Closed(a) && Sub(a, x, h) && !a[x].isLeaf && h > 0 && entry < Unit(h + 1)
    requires ChildDone(a, x, entry, item, h, b, status)
    ensures InsertPost(a, x, h, parentIndex, entry, item, b, x, status)
  {
    DigitBound(entry, h);
    var index := Digit(entry, h);
    var c := a[x].children[index];
    var y := if a[c].isLeaf then |a| else c;
    DescendRecords(a, x, entry, item, h, b, status);
    DescendSlot(a, x, entry, item, h, b, status);
    Rehang(a, b, x, h, index, y);
    ChildPromise(a, x, entry, item, h, b, status);
    DescendFinds(a, x, entry, item, h, b, status);
  }

  /** The lookups after the descent: the call fails exactly when the child
      already found the key, and only the key's lookup changes. */
  lemma DescendFinds<E>(a: Arena<E>, x: nat, entry: nat, item: E, h: nat, b: Arena<E>, status: int)
    requires Closed(a) && x < |a| && !a[x].isLeaf && 0 < h <= MAX_HEIGHT && entry < Unit(h + 1)
    requires (DigitBound(entry, h);
              assert NodeIn(a[x], |a|);
              var index := Digit(entry, h);
              var c := a[x].children[index];
              c != Null &&
              var y := if a[c].isLeaf then |a| else c;
              x < |b| && y < |b| && Closed(b) &&
              b[x] == a[x].(children := a[x].children[index := y]) &&
              (forall d | 0 <= d < SIZE && d != index :: SameSlot(a, b, x, d) && Agree(a, b, ChildReach(a, x, h, d))) &&
              (status == 0 <==> Find(Corrected, a, c, Residual(entry, h), h - 1) == None) &&
              FindsAfter(a, c, h - 1, Residual(entry, h), item, b, y, status))
    ensures (status == 0 <==> Find(Corrected, a, x, entry, h) == None)
    ensures FindsAfter(a, x, h, entry, item, b, x, status)
  {
    DigitBound(entry, h);
    var c := a[x].children[Digit(entry, h)];
    assert Find(Corrected, a, x, entry, h) == Find(Corrected, a, c, Residual(entry, h), h - 1);
    forall k | 0 <= k < Unit(h + 1)
      ensures Find(Corrected, b, x, k, h) ==
              if status == 0 && k == entry then Some(item) else Find(Corrected, a, x, k, h)
    {
      DescendFind(a, x, entry, item, h, b, status, k);
    }
  }

  /** What the child's promise says about lookups in the child's subtree. */
  lemma ChildPromise<E>(a: Arena<E>, x: nat, entry: nat, item: E, h: nat, b: Arena<E>, status: int)
    requires Closed(a) && x < |a| && h > 0 && entry < Unit(h + 1)
    requires ChildDone(a, x, entry, item, h, b, status)
    ensures (DigitBound(entry, h);
             assert NodeIn(a[x], |a|);
             var c := a[x].children[Digit(entry, h)];
             var y := if a[c].isLeaf then |a| else c;
             h - 1 <= MAX_HEIGHT && Closed(b) && y < |b| &&
             (status == 0 <==> Find(Corrected, a, c, Residual(entry, h), h - 1) == None) &&
             FindsAfter(a, c, h - 1, Residual(entry, h), item, b, y, status))
  {
  }

  /** One lookup after the descent: through the key's slot it is what the
      child's promise says, through any other slot it is unchanged. */
  lemma DescendFind<E>(a: Arena<E>, x: nat, entry: nat, item: E, h: nat, b: Arena<E>, status: int, k: nat)
    requires Closed(a) && x < |a| && !a[x].isLeaf && 0 < h <= MAX_HEIGHT && entry < Unit(h + 1) && k < Unit(h + 1)
    requires (DigitBound(entry, h);
              assert NodeIn(a[x], |a|);
              var index := Digit(entry, h);
              var c := a[x].children[index];
              c != Null &&
              var y := if a[c].isLeaf then |a| else c;
              x < |b| && y < |b| && Closed(b) && !b[x].isLeaf &&
              b[x] == a[x].(children := a[x].children[index := y]) &&
              (forall d | 0 <= d < SIZE && d != index :: SameSlot(a, b, x, d) && Agree(a, b, ChildReach(a, x, h, d))) &&
              FindsAfter(a, c, h - 1, Residual(entry, h), item, b, y, status))
    ensures Find(Corrected, b, x, k, h) ==
            if status == 0 && k == entry then Some(item) else Find(Corrected, a, x, k, h)
  {
    DigitBound(entry, h);
    DigitBound(k, h);
    DigitResidualDetermine(k, entry, h);
    if Digit(k, h) != Digit(entry, h) {
      FindOtherSlot(Corrected, a, b, x, k, h);
    } else {
      DescendFindSame(a, x, entry, item, h, b, status, k);
    }
  }

  /** A lookup through the key's slot after the descent: x now leads to y,
      which finds what the child's promise says. */
  lemma DescendFindSame<E>(a: Arena<E>, x: nat, entry: nat, item: E, h: nat, b: Arena<E>, status: int, k: nat)
    requires Closed(a) && x < |a| && !a[x].isLeaf && 0 < h <= MAX_HEIGHT && k < Unit(h + 1) && entry < Unit(h + 1)
    requires (DigitBound(entry, h);
              DigitBound(k, h);
              assert NodeIn(a[x], |a|);
              var index := Digit(entry, h);
              var c := a[x].children[index];
              Digit(k, h) == index && c != Null &&
              var y := if a[c].isLeaf then |a| else c;
              x < |b| && y < |b| && Closed(b) && !b[x].isLeaf &&
              b[x] == a[x].(children := a[x].children[index := y]) &&
              Find(Corrected, b, y, Residual(k, h), h - 1) ==
                if status == 0 && k == entry then Some(item) else Find(Corrected, a, c, Residual(k, h), h - 1))
    ensures Find(Corrected, b, x, k, h) ==
            if status == 0 && k == entry then Some(item) else Find(Corrected, a, x, k, h)
  {
    DigitBound(k, h);
    assert NodeIn(a[x], |a|);
  }

  /** The corrected insert at any node of a well-formed subtree. */
  lemma {:induction false} InsertCorrect<E>(a: Arena<E>, x: nat, entry: nat, item: E, h: nat, parentIndex: int)
    requires Closed(a) && Sub(a, x, h) && entry < WORD && entry < Unit(h + 1) && Hung(a, x, parentIndex)
    ensures (SubBounded(a, x, entry, h);
             var (b, status) := InsertRec(Corrected, a, x, entry, item, h, parentIndex);
             InsertPost(a, x, h, parentIndex, entry, item, b, if a[x].isLeaf then |a| else x, status))
    decreases h, 1
  {
    SubBounded(a, x, entry, h);
    if a[x].isLeaf {
      SplitCorrect(a, x, entry, h, parentIndex);
      var b1 := Split(Corrected, a, x, entry, h, parentIndex);
      var n := |a|;
      SubBounded(b1, n, entry, h);
      assert InsertRec(Corrected, a, x, entry, item, h, parentIndex)
          == InsertRec(Corrected, b1, n, entry, item, h, parentIndex);
      InsertInternalCorrect(b1, n, entry, item, h, parentIndex);
      var (b, status) := InsertRec(Corrected, b1, n, entry, item, h, parentIndex);
      SplitCompose(a, x, entry, item, h, parentIndex, b, status);
    } else {
      InsertInternalCorrect(a, x, entry, item, h, parentIndex);
    }
  }

  /** A split followed by the insert at the fresh node: what the insert
      promises for the fresh node is what the call promises for the leaf. */
  lemma SplitCompose<E>(a: Arena<E>, x: nat, entry: nat, item: E, h: nat, parentIndex: int,
                        b: Arena<E>, status: int)
    requires Closed(a) && Sub(a, x, h) && a[x].isLeaf && Hung(a, x, parentIndex) && entry < Unit(h + 1)
    requires (SplitCorrect(a, x, entry, h, parentIndex);
              InsertPost(Split(Corrected, a, x, entry, h, parentIndex), |a|, h, parentIndex, entry, item, b, |a|, status))
    ensures InsertPost(a, x, h, parentIndex, entry, item, b, |a|, status)
  {
    SplitCorrect(a, x, entry, h, parentIndex);
    var b1 := Split(Corrected, a, x, entry, h, parentIndex);
    var n := |a|;
    assert Reach(a, x, h) == {x};
    forall z | 0 <= z < |a| && z != x
      ensures b[z] == if z == a[x].parent then a[z].(children := a[z].children[parentIndex := n]) else a[z]
    {
      assert z !in Reach(b1, n, h);
    }
  }

  lemma {:induction false} InsertInternalCorrect<E>(a: Arena<E>, x: nat, entry: nat, item: E, h: nat, parentIndex: int)
    requires Closed(a) && Sub(a, x, h) && !a[x].isLeaf && entry < WORD && entry < Unit(h + 1)
    ensures (SubBounded(a, x, entry, h);
             var (b, status) := InsertRec(Corrected, a, x, entry, item, h, parentIndex);
             InsertPost(a, x, h, parentIndex, entry, item, b, x, status))
    decreases h, 0
  {
    SubBounded(a, x, entry, h);
    DigitBound(entry, h);
    var index := Digit(entry, h);
    var c := a[x].children[index];
    assert SplitIfLeaf(Corrected, a, x, entry, h, parentIndex) == (a, x);
    if c == Null {
      PlaceCorrect(a, x, entry, item, h, parentIndex);
    } else if h == 0 {
      OccupiedCorrect(a, x, entry, item, parentIndex);
    } else {
      assert ChildSub(a, x, h, index);
      assert x !in ChildReach(a, x, h, index);
      SubBounded(a, c, Residual(entry, h), h - 1);
      InsertCorrect(a, c, Residual(entry, h), item, h - 1, index);
      var r := InsertRec(Corrected, a, c, Residual(entry, h), item, h - 1, index);
      assert InsertRec(Corrected, a, x, entry, item, h, parentIndex) == r;
      DescendCorrect(a, x, entry, item, h, parentIndex, r.0, r.1);
    }
  }

  /** A tree as the corrected insert keeps it: an internal root without a
      parent (so that the split of line 26 is never reached at the root)
      over a well-formed subtree of the tree's height, which fits the 64-bit
      shifts of lines 35 and 66. */
  ghost predicate TreeOk<E>(a: Arena<E>, root: nat, height: nat)
  {
    Closed(a) && root < |a| && !a[root].isLeaf && a[root].parent == Null &&
    height <= MAX_HEIGHT && Sub(a, root, height)
  }

  /** The tree of lines 179-183, a lone internal root with every slot null,
      is well formed and finds nothing. */
  lemma EmptyTree<E>(v: Variant, height: nat)
    requires height <= MAX_HEIGHT
    ensures TreeOk([Zeroed<E>()], 0, height)
    ensures forall k | 0 <= k < Unit(height + 1) :: Find(v, [Zeroed<E>()], 0, k, height) == None
  {
    var a := [Zeroed<E>()];
    assert NodeIn(a[0], 1);
    forall d | 0 <= d < SIZE ensures ChildSub(a, 0, height, d) && ChildReach(a, 0, height, d) == {} {
    }
  }

  /** radix_tree_insert (lines 58-62) followed by radix_tree_find (lines
      91-95), corrected: the insert succeeds exactly when the key was absent,
      the key then finds the payload, every other key finds what it found
      before, and the tree stays well formed. */
  lemma InsertLookup<E>(a: Arena<E>, root: nat, height: nat, key: nat, item: E)
    requires TreeOk(a, root, height) && key < WORD && key < Unit(height + 1)
    ensures (SubBounded(a, root, key, height);
            var (b, status) := InsertRec(Corrected, a, root, key, item, height, Null);
            TreeOk(b, root, height) &&
            (status == 0 <==> Find(Corrected, a, root, key, height) == None) &&
            (status == 0 ==> Find(Corrected, b, root, key, height) == Some(item)) &&
            (forall k | 0 <= k < Unit(height + 1) && k != key ::
               Find(Corrected, b, root, k, height) == Find(Corrected, a, root, k, height)) &&
            (status != 0 ==> Find(Corrected, b, root, key, height) == Find(Corrected, a, root, key, height)))
  {
    InsertInternalCorrect(a, root, key, item, height, Null);
  }

  /** Inserting two absent keys in either order leaves a tree that finds
      the same payload for every key. */
  lemma InsertOrderIrrelevant<E>(a: Arena<E>, root: nat, height: nat, k1: nat, e1: E, k2: nat, e2: E)
    requires TreeOk(a, root, height) && k1 < WORD && k2 < WORD && k1 != k2
    requires k1 < Unit(height + 1) && k2 < Unit(height + 1)
    requires Find(Corrected, a, root, k1, height) == None && Find(Corrected, a, root, k2, height) == None
    ensures (SubBounded(a, root, k1, height);
            SubBounded(a, root, k2, height);
            var b1 := InsertRec(Corrected, a, root, k1, e1, height, Null).0;
            var b2 := InsertRec(Corrected, a, root, k2, e2, height, Null).0;
            InsertLookupReady(b1, root, height, k2) && InsertLookupReady(b2, root, height, k1) &&
            forall k | 0 <= k < Unit(height + 1) ::
              Find(Corrected, InsertRec(Corrected, b1, root, k2, e2, height, Null).0, root, k, height) ==
              Find(Corrected, InsertRec(Corrected, b2, root, k1, e1, height, Null).0, root, k, height))
  {
    InsertLookup(a, root, height, k1, e1);
    InsertLookup(a, root, height, k2, e2);
    var b1 := InsertRec(Corrected, a, root, k1, e1, height, Null).0;
    var b2 := InsertRec(Corrected, a, root, k2, e2, height, Null).0;
    SubBounded(b1, root, k2, height);
    SubBounded(b2, root, k1, height);
    InsertLookup(b1, root, height, k2, e2);
    InsertLookup(b2, root, height, k1, e1);
    var b12 := InsertRec(Corrected, b1, root, k2, e2, height, Null).0;
    var b21 := InsertRec(Corrected, b2, root, k1, e1, height, Null).0;
    forall k | 0 <= k < Unit(height + 1)
      ensures Find(Corrected, b12, root, k, height) == Find(Corrected, b21, root, k, height)
    {
      if k == k1 {
        assert Find(Corrected, b12, root, k, height) == Some(e1);
      } else if k == k2 {
        assert Find(Corrected, b21, root, k, height) == Some(e2);
      }
    }
  }

  /** What a second insert needs of the tree the first one left. */
  ghost predicate InsertLookupReady<E>(a: Arena<E>, root: nat, height: nat, key: nat)
  {
    TreeOk(a, root, height) && key < WORD && key < Unit(height + 1) && PathBounded(a, root, key, height)
  }
}
