/** The laws a tree asks of its comparison function `comp_fn`, and what it means
for a record sequence to be sorted by one (extractor/vdfs-tools/include/btree.h). */
module Order {
  import opened Keys

  /** A comparison function: negative, zero or positive, like strcmp. */
  type CmpFn = (Key, Key) -> int

  /** Instantiation marks: the laws below are used only where a lemma asks for them. */
  ghost predicate Pair(a: Key, b: Key) { true }

  ghost predicate Triple(a: Key, b: Key, c: Key) { true }

  ghost predicate TotalOrder(cmp: CmpFn) {
    && (forall a, b {:trigger Pair(a, b)} :: Pair(a, b) ==>
          && (cmp(a, b) == 0 <==> a == b)
          && (cmp(a, b) < 0 <==> cmp(b, a) > 0))
    && (forall a, b, c {:trigger Triple(a, b, c)} :: Triple(a, b, c) ==>
          cmp(a, b) <= 0 && cmp(b, c) <= 0 ==>
          cmp(a, c) <= 0 && (cmp(a, b) < 0 || cmp(b, c) < 0 ==> cmp(a, c) < 0))
  }

  lemma Flip(cmp: CmpFn, a: Key, b: Key)
    requires TotalOrder(cmp)
    ensures cmp(a, b) == 0 <==> a == b
    ensures cmp(a, b) < 0 <==> cmp(b, a) > 0
    ensures cmp(a, b) > 0 <==> cmp(b, a) < 0
  {
    assert Pair(a, b) && Pair(b, a);
  }

  lemma Trans(cmp: CmpFn, a: Key, b: Key, c: Key)
    requires TotalOrder(cmp)
    requires cmp(a, b) <= 0 && cmp(b, c) <= 0
    ensures cmp(a, c) <= 0
    ensures cmp(a, b) < 0 || cmp(b, c) < 0 ==> cmp(a, c) < 0
  {
    assert Triple(a, b, c);
  }

  /** The catalog comparator is a total order on (parent, name, object). */
  lemma CatalogOrder()
    ensures TotalOrder(Cmp)
  {
    forall a, b
      ensures Cmp(a, b) == 0 <==> a == b
      ensures Cmp(a, b) < 0 <==> Cmp(b, a) > 0
    {
      CmpZero(a, b);
      CmpFlip(a, b);
    }
    forall a, b, c | Cmp(a, b) <= 0 && Cmp(b, c) <= 0
      ensures Cmp(a, c) <= 0 && (Cmp(a, b) < 0 || Cmp(b, c) < 0 ==> Cmp(a, c) < 0)
    {
      LeTransitive(a, b, c);
    }
  }
}
