/** struct radix_tree (radix_tree.h:38-41) and the operations on it, with
    the nodes in place: the insert performs the writes of
    radix_tree_insert_internel one by one on the arena field, and each
    method is proved to leave the state the functions of module Insert
    describe. */
module RadixTree {
  import opened Digits
  import opened Nodes
  import opened Insert
  import opened Lookup
  import opened Shape
  import opened Correctness

  class Tree<E> {
    var height: nat
    var root: nat
    var nodes: Arena<E>

    /** Lines 179-183 of radix_tree_test: a root record whose parent is null
        and whose slots are all null, under a tree of the given height. The
        root's leaf tag, left uninitialised there, is taken to be internal. */
    constructor (height: nat)
      requires height <= MAX_HEIGHT
      ensures this.height == height && root == 0 && nodes == [Zeroed()]
      ensures TreeOk(nodes, root, this.height)
      ensures forall k | 0 <= k < Unit(height + 1) :: Find(Corrected, nodes, root, k, this.height) == None
    {
      this.height := height;
      root := 0;
      nodes := [Zeroed()];
      new;
      EmptyTree<E>(Corrected, height);
    }

    /** Lines 19-33, in place: a fresh internal node takes the place of leaf
        x in its parent's slot parentIndex, and x is re-hung under it. The
        new node is returned, as line 32 makes it the current node. */
    method SplitLeaf(v: Variant, x: nat, entry: nat, h: nat, parentIndex: int) returns (newNode: nat)
      requires Closed(nodes) && SplitReady(nodes, x, h, parentIndex)
      modifies this
      ensures nodes == Split(v, old(nodes), x, entry, h, parentIndex) && newNode == |old(nodes)|
      ensures height == old(height) && root == old(root)
    {
      // lines 20-24
      newNode := |nodes|;
      var p := nodes[x].parent;
      var z: Node<E> := Zeroed();
      nodes := nodes + [z.(parent := p)];
      // line 26
      nodes := nodes[p := nodes[p].(children := nodes[p].children[parentIndex := newNode])];
      // lines 28-29
      DigitBound(nodes[x].rest, h);
      var index := Digit(nodes[x].rest, h);
      nodes := nodes[newNode := nodes[newNode].(children := nodes[newNode].children[index := x])];
      // line 31
      var rest := if v == Corrected then Residual(nodes[x].rest, h)
                  else Wrap64(entry - Shl(index, SHIFT * h));
      nodes := nodes[x := nodes[x].(rest := rest)];
      if v == Corrected {
        nodes := nodes[x := nodes[x].(parent := newNode)];
      }
    }

    /** radix_tree_insert_internel (lines 16-56), in place. */
    method InsertInternal(v: Variant, x: nat, entry: nat, item: E, h: nat, parentIndex: int) returns (status: int)
      requires Closed(nodes) && h <= MAX_HEIGHT && entry < WORD && entry < Unit(h + 1)
      requires PathBounded(nodes, x, entry, h)
      requires nodes[x].isLeaf ==> SplitReady(nodes, x, h, parentIndex)
      modifies this
      ensures (nodes, status) == InsertRec(v, old(nodes), x, entry, item, h, parentIndex)
      ensures height == old(height) && root == old(root)
      decreases h
    {
      var node := x;
      if nodes[node].isLeaf {
        // line 32
        node := SplitLeaf(v, x, entry, h, parentIndex);
      }
      assert (nodes, node) == SplitIfLeaf(v, old(nodes), x, entry, h, parentIndex);
      // lines 35-36
      DigitBound(entry, h);
      var index := Digit(entry, h);
      if nodes[node].children[index] == Null {
        // lines 38-46
        var leaf := |nodes|;
        var z: Node<E> := Zeroed();
        // line 43: the shift by height * MASK as written, by height * SHIFT corrected
        var rest := LeafRest(v, entry, h);
        nodes := nodes + [z.(parent := node, isLeaf := true, rest := rest, element := Some(item))];
        nodes := nodes[node := nodes[node].(children := nodes[node].children[index := leaf])];
        return 0;
      }
      if h == 0 {
        // lines 49-52
        return -1;
      }
      // lines 53-55
      status := InsertInternal(v, nodes[node].children[index], Residual(entry, h), item, h - 1, index);
    }

    /** radix_tree_insert (lines 58-62): the descent from the root with the
        null parent index. On a well-formed tree the corrected insert keeps
        the tree well formed, succeeds exactly when the key was absent, and
        changes the lookup of that key alone. */
    method Insert(v: Variant, entry: nat, item: E) returns (status: int)
      requires Closed(nodes) && root < |nodes| && !nodes[root].isLeaf && height <= MAX_HEIGHT
      requires entry < WORD && entry < Unit(height + 1) && PathBounded(nodes, root, entry, height)
      modifies this
      ensures height == old(height) && root == old(root)
      ensures (nodes, status) == InsertRec(v, old(nodes), root, entry, item, height, Null)
      ensures v == Corrected && TreeOk(old(nodes), root, height) ==>
                TreeOk(nodes, root, height) &&
                (status == 0 <==> Find(Corrected, old(nodes), root, entry, height) == None) &&
                (forall k | 0 <= k < Unit(height + 1) ::
                   Find(Corrected, nodes, root, k, height) ==
                   if status == 0 && k == entry then Some(item) else Find(Corrected, old(nodes), root, k, height))
    {
      if v == Corrected && TreeOk(nodes, root, height) {
        InsertLookup(nodes, root, height, entry, item);
      }
      status := InsertInternal(v, root, entry, item, height, Null);
    }

    /** radix_tree_find (lines 91-95): the lookup from the root. Whatever it
        returns is the payload of some leaf. */
    function Get(v: Variant, entry: nat): (r: Option<E>)
      reads this
      requires Closed(nodes) && root < |nodes| && entry < Unit(height + 1) && height <= MAX_HEIGHT
      ensures r == Find(v, nodes, root, entry, height)
      ensures r.Some? ==> Holds(nodes, r.value)
    {
      Find(v, nodes, root, entry, height)
    }
  }

  /** The number of keys radix_tree_test inserts and looks up. */
  const TestKeys: nat := 100

  lemma TestKeysFit()
    ensures TestKeys < Unit(3) && TestKeys < WORD
  {
    SmallUnits();
  }

  /** radix_tree_test (lines 178-191), corrected: keys 0 to 99 are inserted
      with payload i + 1 into a height-2 tree, and each lookup then finds
      i + 1, so the test reports no failure. */
  method ReferenceScenario() returns (found: seq<Option<nat>>)
    ensures |found| == TestKeys && forall i | 0 <= i < TestKeys :: found[i] == Some(i + 1)
  {
    TestKeysFit();
    var tree := new Tree<nat>(2);
    var i := 0;
    while i < TestKeys
      invariant 0 <= i <= TestKeys
      invariant tree.height == 2 && tree.root == 0 && TreeOk(tree.nodes, 0, 2)
      invariant forall k | 0 <= k < Unit(3) :: Find(Corrected, tree.nodes, 0, k, 2) == if k < i then Some(k + 1) else None
    {
      SubBounded(tree.nodes, 0, i, 2);
      var status := tree.Insert(Corrected, i, i + 1);
      i := i + 1;
    }
    found := [];
    i := 0;
    while i < TestKeys
      invariant 0 <= i <= TestKeys && |found| == i
      invariant forall j | 0 <= j < i :: found[j] == Some(j + 1)
    {
      var r := tree.Get(Corrected, i);
      found := found + [r];
      i := i + 1;
    }
  }
}
