/** radix_tree_insert_internel (radix_tree.cpp:16-56) as functions on the
    arena. Each function takes the arena before the step and returns the
    arena after it; the class in tree.dfy performs the same steps in place. */
module Insert {
  import opened Digits
  import opened Nodes

  /** What the descent of entry below x at height h needs so that no slot
      index goes out of range: a leaf met on the key's path at height g holds
      a residual below Unit(g + 1) (lines 28-29), and a leaf met below an
      internal node has a parent (line 26). Leaves off the key's path are
      never read. */
  ghost predicate PathBounded<E>(a: Arena<E>, x: nat, entry: nat, h: nat)
    requires Closed(a) && entry < Unit(h + 1)
    decreases h
  {
    x < |a| &&
    (a[x].isLeaf ==> a[x].rest < Unit(h + 1)) &&
    (!a[x].isLeaf && h > 0 ==>
      (DigitBound(entry, h);
       assert NodeIn(a[x], |a|);
       var c := a[x].children[Digit(entry, h)];
       c != Null ==>
         PathBounded(a, c, Residual(entry, h), h - 1) && (a[c].isLeaf ==> 0 <= a[c].parent)))
  }

  /** What a split of leaf x at height h reads: a parent whose slot
      parentIndex holds x, and a residual whose digit indexes a slot. */
  predicate SplitReady<E>(a: Arena<E>, x: nat, h: nat, parentIndex: int)
  {
    x < |a| && a[x].isLeaf && 0 <= a[x].parent < |a| &&
    0 <= parentIndex < SIZE && a[x].rest < Unit(h + 1)
  }

  /** Lines 19-33: a fresh internal node takes the leaf's place in its
      parent's slot parentIndex and the leaf is re-hung under it, at the slot
      of its own digit. The statements are applied in the source's order. */
  function Split<E>(v: Variant, a: Arena<E>, x: nat, entry: nat, h: nat, parentIndex: int): (b: Arena<E>)
    requires Closed(a) && SplitReady(a, x, h, parentIndex)
    ensures Closed(b) && |b| == |a| + 1
  {
    DigitBound(a[x].rest, h);
    var n := |a|;
    var p := a[x].parent;
    // lines 20-24: malloc, memset, is_leaf = false, parent = node->parent
    var z: Node<E> := Zeroed();
    var a1 := a + [z.(parent := p)];
    AppendClosed(a, z.(parent := p));
    // line 26: node->parent->children[parent_index] = new_node
    var a2 := a1[p := a1[p].(children := a1[p].children[parentIndex := n])];
    // line 28: index = node->rest >> (height * SHIFT)
    var index := Digit(a[x].rest, h);
    // line 29: new_node->children[index] = node
    var a3 := a2[n := a2[n].(children := a2[n].children[index := x])];
    // line 31: as written the residual is taken from the new key; corrected,
    // from the leaf's own rest
    var rest := if v == Corrected then Residual(a3[x].rest, h)
                else Wrap64(entry - Shl(index, SHIFT * h));
    var a4 := a3[x := a3[x].(rest := rest)];
    // lines 24-29 never point the leaf at its new parent; corrected, they do
    var b := if v == Corrected then a4[x := a4[x].(parent := n)] else a4;
    assert forall i | 0 <= i < |b| :: NodeIn(b[i], |b|) by {
      forall i | 0 <= i < |b| ensures NodeIn(b[i], |b|) {
        if i < n { assert NodeIn(a[i], |a|); }
      }
    }
    b
  }

  /** Line 43 as written: the new leaf's rest is entry - (index << (height
      * MASK)) on uint64_t. The shift is defined only below 64 bits, that is
      at heights 0 and 1. */
  function LeafRestAsWritten(entry: nat, h: nat): (r: nat)
    requires entry < Unit(h + 1) && h * MASK < 64
    ensures r < WORD
    ensures h == 0 ==> r == Residual(entry, h)
    ensures h == 1 ==> r == if Digit(entry, 1) % 2 == 0 then entry else entry + 0x8000_0000_0000_0000
  {
    ShiftByMaskAtOne(entry, h);
    Wrap64(entry - Wrap64(Shl(Digit(entry, h), h * MASK)))
  }

  /** At height 1 the shift by MASK moves the lowest bit of the digit to
      the top of the word, and the subtraction then leaves the key as it is
      or wraps it around to 2^63 above it. */
  lemma ShiftByMaskAtOne(entry: nat, h: nat)
    requires entry < Unit(h + 1) && h * MASK < 64
    ensures h == 1 ==>
              Wrap64(entry - Wrap64(Shl(Digit(entry, h), h * MASK))) ==
              if Digit(entry, 1) % 2 == 0 then entry else entry + 0x8000_0000_0000_0000
  {
    if h == 1 {
      SmallUnits();
      ShiftBy63(Digit(entry, 1));
      if Digit(entry, 1) % 2 == 1 {
        WrapBelowZero(entry - 0x8000_0000_0000_0000);
      }
    }
  }

  /** The rest line 43 stores in the new leaf. Corrected, it is the key's
      residual. As written, it is LeafRestAsWritten at heights 0 and 1; from
      height 2 the shift by height * MASK is undefined and the residual is
      taken. */
  function LeafRest(v: Variant, entry: nat, h: nat): (r: nat)
    requires entry < Unit(h + 1)
    ensures v == Corrected || h != 1 ==> r == entry % Unit(h)
  {
    if v == AsWritten && h == 1 then LeafRestAsWritten(entry, h) else Residual(entry, h)
  }

  /** Lines 38-45: a fresh leaf holding the residual and the payload is hung
      in slot index of node y. */
  function PlaceLeaf<E>(a: Arena<E>, y: nat, index: nat, rest: nat, item: E): (b: Arena<E>)
    requires Closed(a) && y < |a| && index < SIZE
    ensures Closed(b) && |b| == |a| + 1
  {
    var n := |a|;
    var z: Node<E> := Zeroed();
    var leaf := z.(parent := y, isLeaf := true, rest := rest, element := Some(item));
    AppendClosed(a, leaf);
    var a1 := a + [leaf];
    var b := a1[y := a1[y].(children := a1[y].children[index := n])];
    assert forall i | 0 <= i < |b| :: NodeIn(b[i], |b|) by {
      forall i | 0 <= i < |b| ensures NodeIn(b[i], |b|) {
        assert NodeIn(a1[i], |a1|);
      }
    }
    b
  }

  /** What the recursive call of line 53 needs of the child it descends
      into. */
  ghost predicate DescendReady<E>(b: Arena<E>, node: nat, entry: nat, h: nat)
    requires Closed(b) && node < |b| && entry < Unit(h + 1)
  {
    DigitBound(entry, h);
    var c := b[node].children[Digit(entry, h)];
    h > 0 && c != Null ==>
      PathBounded(b, c, Residual(entry, h), h - 1) && (b[c].isLeaf ==> SplitReady(b, c, h - 1, Digit(entry, h)))
  }

  /** Lines 18-33 as a whole: the node the insert continues from, after the
      split if it landed on a leaf. */
  function SplitIfLeaf<E>(v: Variant, a: Arena<E>, x: nat, entry: nat, h: nat, parentIndex: int): (res: (Arena<E>, nat))
    requires Closed(a) && h <= MAX_HEIGHT && entry < WORD && entry < Unit(h + 1)
    requires PathBounded(a, x, entry, h)
    requires a[x].isLeaf ==> SplitReady(a, x, h, parentIndex)
    ensures Closed(res.0) && |a| <= |res.0| <= |a| + 1 && res.1 < |res.0| && !res.0[res.1].isLeaf
    ensures DescendReady(res.0, res.1, entry, h)
  {
    if a[x].isLeaf then
      SplitEffect(v, a, x, entry, h, parentIndex);
      DigitBound(entry, h);
      var b := Split(v, a, x, entry, h, parentIndex);
      var n := |a|;
      assert DescendReady(b, n, entry, h) by {
        var c := b[n].children[Digit(entry, h)];
        if h > 0 && c != Null {
          assert c == x && Digit(entry, h) == Digit(a[x].rest, h);
          assert b[x].rest < Unit(h);
        }
      }
      (b, n)
    else
      assert DescendReady(a, x, entry, h) by {
        DigitBound(entry, h);
        var c := a[x].children[Digit(entry, h)];
        if h > 0 && c != Null {
          assert PathBounded(a, c, Residual(entry, h), h - 1);
          assert NodeIn(a[c], |a|);
        }
      }
      (a, x)
  }

  /** Lines 16-56: the recursive insert. The result is the new arena and the
      status: 0 when a leaf was placed, -1 when the slot at height 0 was
      already taken. */
  function InsertRec<E>(v: Variant, a: Arena<E>, x: nat, entry: nat, item: E, h: nat, parentIndex: int): (res: (Arena<E>, int))
    requires Closed(a) && h <= MAX_HEIGHT && entry < WORD && entry < Unit(h + 1)
    requires PathBounded(a, x, entry, h)
    requires a[x].isLeaf ==> SplitReady(a, x, h, parentIndex)
    ensures Closed(res.0) && |a| <= |res.0|
    ensures res.1 == 0 || res.1 == -1
    ensures res.1 == 0 ==> |a| < |res.0|
    ensures |res.0| <= |a| + h + 2
    decreases h
  {
    var (b, node) := SplitIfLeaf(v, a, x, entry, h, parentIndex);
    DigitBound(entry, h);
    var index := Digit(entry, h);                              // line 35
    if b[node].children[index] == Null then                    // lines 37-47
      (PlaceLeaf(b, node, index, LeafRest(v, entry, h), item), 0)
    else if h == 0 then                                        // lines 49-52
      (b, -1)
    else                                                       // lines 53-55
      InsertRec(v, b, b[node].children[index], Residual(entry, h), item, h - 1, index)
  }

  /** The split: the parent's slot now holds a fresh internal node whose
      parent is the leaf's old parent; the leaf sits at the slot of its own
      digit and every other slot of the new node is empty; the leaf keeps
      its tag and payload; no other record changes. */
  lemma SplitEffect<E>(v: Variant, a: Arena<E>, x: nat, entry: nat, h: nat, parentIndex: int)
    requires Closed(a) && SplitReady(a, x, h, parentIndex)
    ensures Digit(a[x].rest, h) < SIZE
    ensures var b := Split(v, a, x, entry, h, parentIndex);
            var n := |a|;
            var p := a[x].parent;
            var index := Digit(a[x].rest, h);
            !b[n].isLeaf && b[n].parent == p && b[n].element == None &&
            b[n].children[index] == x &&
            (forall d | 0 <= d < SIZE && d != index :: b[n].children[d] == Null) &&
            b[p].children == a[p].children[parentIndex := n] &&
            (p != x ==> b[p] == a[p].(children := a[p].children[parentIndex := n])) &&
            b[x].isLeaf && b[x].element == a[x].element &&
            b[x].rest == (if v == Corrected then a[x].rest % Unit(h)
                          else Wrap64(entry - index * Unit(h))) &&
            b[x].parent == (if v == Corrected then n else p) &&
            (forall z | 0 <= z < |a| && z != x && z != p :: b[z] == a[z])
  {
    DigitBound(a[x].rest, h);
  }

  /** An empty slot: exactly one record is added, a leaf in slot index of
      the node with that node as parent, the payload and the rest of line
      43; the call returns 0 and no other slot or record changes. */
  lemma InsertEmptySlot<E>(v: Variant, a: Arena<E>, x: nat, entry: nat, item: E, h: nat, parentIndex: int)
    requires Closed(a) && h <= MAX_HEIGHT && entry < WORD && entry < Unit(h + 1)
    requires PathBounded(a, x, entry, h) && !a[x].isLeaf
    requires (DigitBound(entry, h); a[x].children[Digit(entry, h)] == Null)
    ensures var (b, status) := InsertRec(v, a, x, entry, item, h, parentIndex);
            var index := Digit(entry, h);
            status == 0 && |b| == |a| + 1 &&
            b[|a|].isLeaf && b[|a|].parent == x && b[|a|].element == Some(item) &&
            b[|a|].rest == LeafRest(v, entry, h) &&
            (v == Corrected || h != 1 ==> b[|a|].rest == entry % Unit(h)) &&
            b[x] == a[x].(children := a[x].children[index := |a|]) &&
            (forall z | 0 <= z < |a| && z != x :: b[z] == a[z])
  {
    DigitBound(entry, h);
  }

  /** An occupied slot at height 0: the call returns -1 and the arena is as
      it was after the split, if any. */
  lemma InsertOccupiedAtZero<E>(v: Variant, a: Arena<E>, x: nat, entry: nat, item: E, parentIndex: int)
    requires Closed(a) && entry < WORD && entry < Unit(1)
    requires PathBounded(a, x, entry, 0) && !a[x].isLeaf
    requires (DigitBound(entry, 0); a[x].children[Digit(entry, 0)] != Null)
    ensures InsertRec(v, a, x, entry, item, 0, parentIndex) == (a, -1)
  {
    DigitBound(entry, 0);
  }
}
