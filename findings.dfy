/** Inputs on which the code as written departs from what it evidently
    intends. Each lemma runs the as-written reading on a small tree and
    states what it does; the corrected reading, used everywhere else, is
    proved correct in module Correctness. */
module Findings {
  import opened Digits
  import opened Nodes
  import opened Insert
  import opened Lookup

  /** At height 1, key 64 (digit 1) gets rest 2^63 + 64 instead of its
      residual 0: the shift by 63 bits moves the digit to the top bit. */
  lemma LeafRestShiftByMask()
    ensures (SmallUnits(); LeafRestAsWritten(64, 1) == 0x8000_0000_0000_0040)
    ensures Residual(64, 1) == 0
  {
    SmallUnits();
    assert Digit(64, 1) == 1;
    TopBit();
    assert Shl(1, 63) == 0x8000_0000_0000_0000;
  }

  /** The tree of lines 179-183: a lone internal root with null slots. */
  function Empty<E>(): (a: Arena<E>)
    ensures Closed(a) && |a| == 1 && !a[0].isLeaf && a[0].parent == Null
    ensures forall d | 0 <= d < SIZE :: a[0].children[d] == Null
    ensures forall e: nat, h: nat | e < Unit(h + 1) :: PathBounded(a, 0, e, h)
  {
    EmptyPaths<E>();
    [Zeroed()]
  }

  /** Every key's path in the lone root ends at a null slot. */
  lemma EmptyPaths<E>()
    ensures Closed([Zeroed<E>()])
    ensures forall e: nat, h: nat | e < Unit(h + 1) :: PathBounded([Zeroed<E>()], 0, e, h)
  {
    var a := [Zeroed<E>()];
    assert NodeIn(a[0], 1);
    forall e: nat, h: nat | e < Unit(h + 1) ensures PathBounded(a, 0, e, h) {
      if h > 0 {
        DigitBound(e, h);
      }
    }
  }

  /** Line 69: in a height-1 tree holding key 5 alone, line 43 stored rest
      5 - (0 << 63) = 5 in a leaf at the root's slot 0. The lookup reaches
      that leaf with 5 and, as written, strips one more digit and compares 0
      with 5; corrected, it compares 5 with 5. */
  lemma FindStripsExtraDigit<E>(item: E)
    ensures (SmallUnits();
             var (b, status) := InsertRec(AsWritten, Empty<E>(), 0, 5, item, 1, Null);
             status == 0 && b[0].children[0] == 1 && b[1].isLeaf && b[1].rest == 5 &&
             Find(AsWritten, b, 0, 5, 1) == None && Find(Corrected, b, 0, 5, 1) == Some(item))
  {
    SmallUnits();
    var a := Empty<E>();
    assert Digit(5, 1) == 0 && Residual(5, 1) == 5;
    assert LeafRestAsWritten(5, 1) == 5;
    InsertEmptySlot(AsWritten, a, 0, 5, item, 1, Null);
    var b := InsertRec(AsWritten, a, 0, 5, item, 1, Null).0;
    assert Find(AsWritten, b, 0, 5, 1) == Find(AsWritten, b, 1, 5, 0);
    assert Find(Corrected, b, 0, 5, 1) == Find(Corrected, b, 1, 5, 0);
  }

  /** Lines 79-81: in a height-0 tree holding key 5, the lookup finds the
      root's slot 5 occupied and, as written, gives up; corrected, it checks
      the leaf there. */
  lemma FindGivesUpAtHeightZero<E>(item: E)
    ensures (SmallUnits();
             var (b, status) := InsertRec(AsWritten, Empty<E>(), 0, 5, item, 0, Null);
             status == 0 &&
             Find(AsWritten, b, 0, 5, 0) == None && Find(Corrected, b, 0, 5, 0) == Some(item))
  {
    SmallUnits();
    var a := Empty<E>();
    assert Digit(5, 0) == 5;
    InsertEmptySlot(AsWritten, a, 0, 5, item, 0, Null);
  }

  /** The tree one insert of key with payload item into the empty height-2
      tree leaves: the root's slot 0 holds a leaf with rest key. */
  ghost predicate FirstShape<E>(b: Arena<E>, key: nat, item: E)
  {
    Closed(b) && |b| == 2 && !b[0].isLeaf && b[0].parent == Null &&
    b[0].children[0] == 1 && (forall d | 1 <= d < SIZE :: b[0].children[d] == Null) &&
    b[1].isLeaf && b[1].parent == 0 && b[1].rest == key && b[1].element == Some(item)
  }

  /** One insert of a key below SIZE into the empty height-2 tree puts a
      leaf with the key's residual, the key itself, in the root's slot 0.
      Line 43 shifts the digit 0 by 126 bits at height 2, which is undefined;
      the as-written reading takes that shift to store the residual. */
  lemma FirstInsert<E>(key: nat, item: E)
    requires key < SIZE
    ensures (SmallUnits();
             var (b, status) := InsertRec(AsWritten, Empty<E>(), 0, key, item, 2, Null);
             status == 0 && FirstShape(b, key, item) &&
             (forall e | 0 <= e < Unit(3) :: PathBounded(b, 0, e, 2)) &&
             Find(AsWritten, b, 0, key, 2) == Some(item))
  {
    SmallUnits();
    var a := Empty<E>();
    assert Digit(key, 2) == 0;
    InsertEmptySlot(AsWritten, a, 0, key, item, 2, Null);
    var b := InsertRec(AsWritten, a, 0, key, item, 2, Null).0;
    assert b[1].rest == key;
    forall e | 0 <= e < Unit(3) ensures PathBounded(b, 0, e, 2) {
      DigitBound(e, 2);
      if Digit(e, 2) == 0 {
        assert PathBounded(b, 1, Residual(e, 2), 1);
      }
    }
    assert Find(AsWritten, b, 0, key, 2) == Find(AsWritten, b, 1, key, 1);
  }

  /** Line 31: key 0 and then key 64 go into an empty height-2 tree. Both
      have digit 0 at height 2, so the second insert splits the first key's
      leaf one level down; as written the leaf's rest becomes the new key's
      64 instead of its own residual 0, so key 0 is no longer found. The new
      key's leaf gets rest 2^63 + 64 from line 43, so key 64 is not found
      either. */
  lemma SplitRestFromNewKey<E>(i0: E, i1: E)
    ensures (SmallUnits();
             var b1 := InsertRec(AsWritten, Empty<E>(), 0, 0, i0, 2, Null).0;
             Find(AsWritten, b1, 0, 0, 2) == Some(i0) &&
             PathBounded(b1, 0, 64, 2) && !b1[0].isLeaf &&
             var (b2, status) := InsertRec(AsWritten, b1, 0, 64, i1, 2, Null);
             status == 0 &&
             Find(AsWritten, b2, 0, 0, 2) == None && Find(AsWritten, b2, 0, 64, 2) == None)
  {
    SmallUnits();
    FirstInsert<E>(0, i0);
    var b1 := InsertRec(AsWritten, Empty<E>(), 0, 0, i0, 2, Null).0;
    SecondInsertSplits(b1, i0, i1);
    var b2 := InsertRec(AsWritten, b1, 0, 64, i1, 2, Null).0;
    SplitRestFinds(b2, i1);
  }

  /** Line 31 without the shift of line 43: key 0 and then key 1 go into an
      empty height-1 tree. The second insert splits key 0's leaf at height 0
      and, as written, gives it the new key's residual 1 instead of its own
      0, so even a lookup that checks the leaf misses key 0, while key 1's
      fresh leaf is found. */
  lemma SplitRestHeightOne<E>(i0: E, i1: E)
    ensures (SmallUnits();
             var b1 := InsertRec(AsWritten, Empty<E>(), 0, 0, i0, 1, Null).0;
             PathBounded(b1, 0, 1, 1) && !b1[0].isLeaf &&
             var (b2, status) := InsertRec(AsWritten, b1, 0, 1, i1, 1, Null);
             status == 0 && |b2| == 4 && b2[0].children[0] == 2 && b2[2].children[0] == 1 &&
             b2[1].isLeaf && b2[1].rest == 1 &&
             Find(Corrected, b2, 0, 0, 1) == None && Find(Corrected, b2, 0, 1, 1) == Some(i1))
  {
    SmallUnits();
    var a := Empty<E>();
    assert Digit(0, 1) == 0 && Residual(0, 1) == 0;
    InsertEmptySlot(AsWritten, a, 0, 0, i0, 1, Null);
    var b1 := InsertRec(AsWritten, a, 0, 0, i0, 1, Null).0;
    assert b1[1].rest == 0;
    assert Digit(1, 1) == 0 && Residual(1, 1) == 1 && Digit(1, 0) == 1 && Digit(0, 0) == 0;
    assert PathBounded(b1, 0, 1, 1) by {
      assert PathBounded(b1, 1, 1, 0);
    }
    assert InsertRec(AsWritten, b1, 0, 1, i1, 1, Null) == InsertRec(AsWritten, b1, 1, 1, i1, 0, 0);
    SplitEffect(AsWritten, b1, 1, 1, 0, 0);
    var s := Split(AsWritten, b1, 1, 1, 0, 0);
    assert s[1].rest == 1 && s[2].children[0] == 1 && s[2].children[1] == Null && s[0].children[0] == 2;
    assert InsertRec(AsWritten, b1, 1, 1, i1, 0, 0) == (PlaceLeaf(s, 2, 1, 0, i1), 0);
    HeightOneFinds(PlaceLeaf(s, 2, 1, 0, i1), i1);
  }

  /** In that tree both keys reach node 2 at height 0: key 0 meets the leaf
      of rest 1 in slot 0, key 1 its own leaf of rest 0 in slot 1. */
  lemma HeightOneFinds<E>(b2: Arena<E>, i1: E)
    requires Closed(b2) && |b2| == 4 && !b2[0].isLeaf && b2[0].children[0] == 2
    requires !b2[2].isLeaf && b2[2].children[0] == 1 && b2[2].children[1] == 3
    requires b2[1].isLeaf && b2[1].rest == 1 && b2[3].isLeaf && b2[3].rest == 0 && b2[3].element == Some(i1)
    ensures (SmallUnits(); Find(Corrected, b2, 0, 0, 1) == None && Find(Corrected, b2, 0, 1, 1) == Some(i1))
  {
    SmallUnits();
    assert Digit(0, 1) == 0 && Residual(0, 1) == 0 && Digit(1, 1) == 0 && Residual(1, 1) == 1;
    assert Digit(0, 0) == 0 && Digit(1, 0) == 1 && Residual(1, 0) == 0;
    assert Find(Corrected, b2, 0, 0, 1) == Find(Corrected, b2, 2, 0, 0);
    assert Find(Corrected, b2, 0, 1, 1) == Find(Corrected, b2, 2, 1, 0);
  }

  /** Only the key's path has to be in range: as written, key 64 leaves a
      leaf of rest 2^63 + 64 in slot 1 of a height-1 tree's root (line 43),
      and key 0, whose path goes through the empty slot 0, is still placed
      there with rest 0 (lines 35-46). */
  lemma OtherPathAfterShiftByMask<E>(i0: E, i1: E)
    ensures (SmallUnits();
             var b1 := InsertRec(AsWritten, Empty<E>(), 0, 64, i1, 1, Null).0;
             b1[0].children[1] == 1 && b1[1].rest == 0x8000_0000_0000_0040 &&
             PathBounded(b1, 0, 0, 1) &&
             var (b2, status) := InsertRec(AsWritten, b1, 0, 0, i0, 1, Null);
             status == 0 && b2[0].children[0] == 2 && b2[0].children[1] == 1 &&
             b2[2].isLeaf && b2[2].rest == 0 && b2[2].element == Some(i0))
  {
    SmallUnits();
    LeafRestShiftByMask();
    var a := Empty<E>();
    assert Digit(64, 1) == 1 && Digit(0, 1) == 0 && Residual(0, 1) == 0;
    InsertEmptySlot(AsWritten, a, 0, 64, i1, 1, Null);
    var b1 := InsertRec(AsWritten, a, 0, 64, i1, 1, Null).0;
    assert PathBounded(b1, 0, 0, 1);
    InsertEmptySlot(AsWritten, b1, 0, 0, i0, 1, Null);
  }

  /** The second insert of key 64 splits key 0's leaf at height 1: node 2
      takes the leaf's place with the leaf, now of rest 64 (line 31), in
      slot 0 and the new leaf, of rest 2^63 + 64 (line 43), in slot 1. */
  lemma SecondInsertSplits<E>(b1: Arena<E>, i0: E, i1: E)
    requires FirstShape(b1, 0, i0) && (SmallUnits(); PathBounded(b1, 0, 64, 2))
    ensures (SmallUnits();
             var (b2, status) := InsertRec(AsWritten, b1, 0, 64, i1, 2, Null);
             status == 0 && Closed(b2) && |b2| == 4 &&
             !b2[0].isLeaf && b2[0].children[0] == 2 && !b2[2].isLeaf && b2[2].children[0] == 1 &&
             b2[2].children[1] == 3 && b2[1].isLeaf && b2[1].rest == 64 && b2[3].isLeaf &&
             b2[3].rest == 0x8000_0000_0000_0040 && b2[3].element == Some(i1))
  {
    SmallUnits();
    LeafRestShiftByMask();
    assert Digit(64, 2) == 0 && Residual(64, 2) == 64;
    assert SplitIfLeaf(AsWritten, b1, 0, 64, 2, Null) == (b1, 0);
    assert InsertRec(AsWritten, b1, 0, 64, i1, 2, Null) == InsertRec(AsWritten, b1, 1, 64, i1, 1, 0);
    SplitEffect(AsWritten, b1, 1, 64, 1, 0);
    var s := Split(AsWritten, b1, 1, 64, 1, 0);
    assert Digit(0, 1) == 0;
    assert s[1].rest == 64 && s[2].children[0] == 1 && s[2].children[1] == Null && s[0].children[0] == 2;
    assert Digit(64, 1) == 1;
    assert InsertRec(AsWritten, b1, 1, 64, i1, 1, 0) == (PlaceLeaf(s, 2, 1, 0x8000_0000_0000_0040, i1), 0);
  }

  /** In that tree key 0 reaches the leaf of rest 64 and key 64 the leaf of
      rest 2^63 + 64; neither matches the 0 the lookup compares with. */
  lemma SplitRestFinds<E>(b2: Arena<E>, i1: E)
    requires Closed(b2) && |b2| == 4
    requires !b2[0].isLeaf && b2[0].children[0] == 2 && !b2[2].isLeaf && b2[2].children[0] == 1
    requires b2[2].children[1] == 3 && b2[1].isLeaf && b2[1].rest == 64 && b2[3].isLeaf
    requires b2[3].rest == 0x8000_0000_0000_0040 && b2[3].element == Some(i1)
    ensures (SmallUnits(); Find(AsWritten, b2, 0, 0, 2) == None && Find(AsWritten, b2, 0, 64, 2) == None)
  {
    SmallUnits();
    assert Digit(64, 2) == 0 && Residual(64, 2) == 64;
    assert Digit(64, 1) == 1 && Residual(64, 1) == 0;
    assert Find(AsWritten, b2, 0, 0, 2) == Find(AsWritten, b2, 2, 0, 1);
    assert Find(AsWritten, b2, 2, 0, 1) == Find(AsWritten, b2, 1, 0, 0);
    assert Find(AsWritten, b2, 0, 64, 2) == Find(AsWritten, b2, 2, 64, 1);
    assert Find(AsWritten, b2, 2, 64, 1) == Find(AsWritten, b2, 3, 0, 0);
  }

  /** radix_tree_test (lines 184-191) as written, on its first two keys:
      key 0 with payload 1 and then key 1 with payload 2 into an empty
      height-2 tree. The second insert splits the leaf of key 0 twice. The
      first split, at height 1, leaves the leaf's parent pointing at the
      root (lines 24-29) and gives it rest 1 (line 31). The second split, at
      height 0, therefore writes its fresh node 3 into the root's slot 0
      rather than into slot 0 of node 2, which still holds the leaf but is
      no longer reachable; it then finds slot 1 of node 3 occupied by the
      re-hung leaf and fails. Afterwards neither key is found. */
  lemma TestAsWrittenFails()
    ensures (SmallUnits();
             var b1 := InsertRec(AsWritten, Empty<nat>(), 0, 0, 1, 2, Null).0;
             PathBounded(b1, 0, 1, 2) && !b1[0].isLeaf &&
             var (b2, status) := InsertRec(AsWritten, b1, 0, 1, 2, 2, Null);
             status == -1 &&
             b2[0].children[0] == 3 && b2[2].children[0] == 1 && b2[1].parent == 0 &&
             Find(AsWritten, b2, 0, 0, 2) == None && Find(AsWritten, b2, 0, 1, 2) == None)
  {
    SmallUnits();
    FirstInsert<nat>(0, 1);
    var b1 := InsertRec(AsWritten, Empty<nat>(), 0, 0, 1, 2, Null).0;
    assert Digit(1, 2) == 0 && Residual(1, 2) == 1;
    assert SplitIfLeaf(AsWritten, b1, 0, 1, 2, Null) == (b1, 0);
    assert InsertRec(AsWritten, b1, 0, 1, 2, 2, Null) == InsertRec(AsWritten, b1, 1, 1, 2, 1, 0);
    var s := TestFirstSplit(b1);
    var t := TestSecondSplit(s);
    assert InsertRec(AsWritten, b1, 1, 1, 2, 1, 0) == InsertRec(AsWritten, s, 1, 1, 2, 0, 0);
    TestFinds(t);
  }

  /** The split at height 1 in that test: node 2 takes slot 0 of the root
      and holds the leaf in its slot 0, while the leaf keeps the root as
      parent and takes rest 1. */
  lemma TestFirstSplit(b1: Arena<nat>) returns (s: Arena<nat>)
    requires FirstShape(b1, 0, 1)
    ensures s == Split(AsWritten, b1, 1, 1, 1, 0) && Closed(s) && |s| == 3
    ensures s[1].isLeaf && s[1].rest == 1 && s[1].parent == 0
    ensures !s[0].isLeaf && s[0].parent == Null && s[0].children[0] == 2
    ensures !s[2].isLeaf && s[2].children[0] == 1 && s[2].parent == 0
    ensures SplitIfLeaf(AsWritten, b1, 1, 1, 1, 0) == (s, 2)
  {
    SmallUnits();
    SplitEffect(AsWritten, b1, 1, 1, 1, 0);
    s := Split(AsWritten, b1, 1, 1, 1, 0);
    assert Digit(0, 1) == 0 && Digit(1, 1) == 0 && Residual(1, 1) == 1;
  }

  /** The split at height 0 in that test: following the stale parent it
      writes its fresh node 3 into the root's slot 0, hangs the leaf in
      slot 1 of node 3, and the insert then finds that slot occupied. */
  lemma TestSecondSplit(s: Arena<nat>) returns (t: Arena<nat>)
    requires Closed(s) && |s| == 3
    requires s[1].isLeaf && s[1].rest == 1 && s[1].parent == 0
    requires !s[0].isLeaf && s[0].parent == Null && s[0].children[0] == 2
    requires !s[2].isLeaf && s[2].children[0] == 1
    ensures InsertRec(AsWritten, s, 1, 1, 2, 0, 0) == (t, -1) && Closed(t) && |t| == 4
    ensures t[0].children[0] == 3 && !t[0].isLeaf && t[2].children[0] == 1 && t[1].parent == 0
    ensures !t[3].isLeaf && t[3].children[0] == Null && t[3].children[1] == 1
  {
    SmallUnits();
    SplitEffect(AsWritten, s, 1, 1, 0, 0);
    t := Split(AsWritten, s, 1, 1, 0, 0);
    assert Digit(1, 0) == 1;
    assert SplitIfLeaf(AsWritten, s, 1, 1, 0, 0) == (t, 3);
  }

  /** After those splits neither key 0 nor key 1 is found: both reach node
      3, whose slot 0 is empty and whose slot 1 holds a leaf that the
      lookup at height 0 does not examine. */
  lemma TestFinds(t: Arena<nat>)
    requires Closed(t) && |t| == 4 && !t[0].isLeaf && t[0].children[0] == 3
    requires !t[3].isLeaf && t[3].children[0] == Null && t[3].children[1] == 1
    ensures (SmallUnits(); Find(AsWritten, t, 0, 0, 2) == None && Find(AsWritten, t, 0, 1, 2) == None)
  {
    SmallUnits();
    assert Digit(1, 2) == 0 && Residual(1, 2) == 1 && Digit(1, 1) == 0 && Residual(1, 1) == 1;
    assert Find(AsWritten, t, 0, 0, 2) == Find(AsWritten, t, 3, 0, 1);
    assert Find(AsWritten, t, 0, 1, 2) == Find(AsWritten, t, 3, 1, 1);
  }
}
