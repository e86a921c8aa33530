/** radix_tree_find_internel (radix_tree.cpp:64-86): a read-only descent
    over the arena, one digit per level. */
module Lookup {
  import opened Digits
  import opened Nodes

  /** Some leaf of the arena holds payload e. */
  ghost predicate Holds<E>(a: Arena<E>, e: E)
  {
    exists z | 0 <= z < |a| :: a[z].isLeaf && a[z].element == Some(e)
  }

  /** The lookup from node x at height h. Two lines read differently in the
      corrected variant: at a leaf (line 69) the residual handed down is
      compared as it is, since the insert stored exactly that residual; and
      at height 0 (lines 79-81) the leaf in the slot is checked instead of
      giving up. */
  function Find<E>(v: Variant, a: Arena<E>, x: nat, entry: nat, h: nat): (r: Option<E>)
    requires Closed(a) && x < |a| && entry < Unit(h + 1) && h <= MAX_HEIGHT
    ensures r.Some? ==> Holds(a, r.value)
    ensures (DigitBound(entry, h); !a[x].isLeaf && a[x].children[Digit(entry, h)] == Null ==> r == None)
    ensures v == AsWritten && !a[x].isLeaf && h == 0 ==> r == None
    decreases h
  {
    DigitBound(entry, h);
    var index := Digit(entry, h);                                  // line 66
    if a[x].isLeaf then                                            // lines 68-73
      var rest := if v == Corrected then entry else Residual(entry, h);
      if rest == a[x].rest then
        assert a[x].element.Some? ==> Holds(a, a[x].element.value) by {
          if a[x].element.Some? { assert a[x].isLeaf && a[x].element == Some(a[x].element.value); }
        }
        a[x].element
      else None
    else if a[x].children[index] == Null then                      // lines 75-77
      None
    else if h == 0 then                                            // lines 79-81
      if v == Corrected then
        var c := a[x].children[index];
        assert NodeIn(a[x], |a|);
        if a[c].isLeaf && a[c].rest == Residual(entry, h) then
          assert a[c].element.Some? ==> Holds(a, a[c].element.value) by {
            if a[c].element.Some? { assert a[c].isLeaf && a[c].element == Some(a[c].element.value); }
          }
          a[c].element
        else None
      else None
    else                                                           // lines 83-85
      Find(v, a, a[x].children[index], Residual(entry, h), h - 1)
  }

  /** At a leaf the lookup returns the payload exactly when the residual
      matches the stored rest: as written, the key's low h digits (one more
      digit is removed than the insert removed); corrected, the residual
      handed down. */
  lemma FindAtLeaf<E>(v: Variant, a: Arena<E>, x: nat, entry: nat, h: nat)
    requires Closed(a) && x < |a| && entry < Unit(h + 1) && h <= MAX_HEIGHT && a[x].isLeaf
    ensures Find(v, a, x, entry, h) ==
            if (if v == Corrected then entry else entry % Unit(h)) == a[x].rest
            then a[x].element else None
  {
  }
}
