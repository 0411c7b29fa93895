// The tree over Circle-Tree pages (`class btree`): the root pointer and the
// height, the descent by `linear_search`, `btree_search`, `btree_insert`
// and `btree_insert_internal`, with the split key of a full page handed one
// level up and a new root installed when the root itself splits.
//
// The tree keeps the set of pages it has allocated.  Its invariant is a
// safety property of the pointer structure: every page is a valid page of
// the tree's layout (sorted live records, fingerprints in step), every
// child and right-sibling pointer stays inside the set, an internal page
// is never empty, and no two pages share an array.  The descent is
// modelled for the Single, Fingerprint and Ycsb layouts; the draft
// layout's internal search does not route by key (DraftRouteMisroutes).
module CircleTree {
  import opened Entries
  import opened CirclePage
  import opened Hash
  import opened ValueMemory

  /** A pointer that is a page points into S, one level below `level`. */
  ghost predicate PtrIn(p: Ptr<Page>, S: set<Page>, level: nat)
  {
    p.Child? ==> p.page in S && p.page.level + 1 == level
  }

  /** Every page pointer among the records s points into S, one level below `level`. */
  ghost predicate ChildrenIn(s: seq<Rec>, S: set<Page>, level: nat)
  {
    forall i :: 0 <= i < |s| ==> PtrIn(s[i].ptr, S, level)
  }

  /** Inserting a record whose pointer stays in S keeps every pointer in S. */
  lemma ChildrenInInsertion(linear: bool, s: seq<Rec>, e: Rec, S: set<Page>, level: nat)
    requires ChildrenIn(s, S, level) && PtrIn(e.ptr, S, level)
    ensures ChildrenIn(Insertion(linear, s, e), S, level)
  {
    var r := Insertion(linear, s, e);
    var p := if linear then UpperBound(s, e.key, |s|) else CircularInsertPos(s, e.key);
    assert r == InsertAt(s, p, e);
    forall i | 0 <= i < |r|
      ensures PtrIn(r[i].ptr, S, level)
    {
      if i > p {
        assert r[i] == s[i - 1];
      } else if i < p {
        assert r[i] == s[i];
      }
    }
  }

  /**
   * A split loses no pointer into S: the kept part, the moved part and
   * the median's pointer (the sibling's `leftmost_ptr`) all stay in S.
   */
  lemma ChildrenInSplit(s: seq<Rec>, h: nat, internal: bool, S: set<Page>, level: nat)
    requires h < |s| && ChildrenIn(s, S, level)
    ensures ChildrenIn(Kept(s, h, internal), S, level) && ChildrenIn(Moved(s, h, internal), S, level)
    ensures PtrIn(s[h].ptr, S, level)
  {
    var k, m := Kept(s, h, internal), Moved(s, h, internal);
    assert forall i :: 0 <= i < h ==> k[i] == s[i];
    var d := if internal then h + 1 else h;
    assert forall i :: 0 <= i < |m| ==> m[i] == s[d + i];
  }

  /** The pointer a lookup yields is one of the records'. */
  lemma LookupIn(s: seq<Rec>, k: Key, S: set<Page>, level: nat)
    requires ChildrenIn(s, S, level)
    ensures PtrIn(Lookup(s, k), S, level)
  {
    var i := FindForward(s, k, 0);
    if i >= 0 {
      assert PtrIn(s[i].ptr, S, level);
    }
  }

  /** The child an internal page routes to is `leftmost_ptr` or one of its records' pointers. */
  lemma RouteIn(s: seq<Rec>, k: Key, leftmost: Ptr<Page>, S: set<Page>, level: nat)
    requires |s| > 0 && ChildrenIn(s, S, level) && PtrIn(leftmost, S, level)
    ensures PtrIn(Route(s, k, leftmost), S, level)
  {
    if s[0].key <= k {
      assert PtrIn(s[FirstAbove(s, k, 1) - 1].ptr, S, level);
    }
  }

  /** The pointer `linear_search` compares with to chase the right sibling. */
  function SiblingPtr(p: Page): (r: Ptr<Page>)
    reads p`rightSibling
    ensures r.Child? <==> p.rightSibling != null
  {
    if p.rightSibling == null then Null else Child(p.rightSibling as Page)
  }

  /**
   * One page of a tree whose pages are S: valid with its fingerprints in
   * step, its right sibling and every page pointer it holds inside S, and
   * not empty when it has a `leftmost_ptr`.
   */
  ghost predicate PageIn(p: Page, S: set<Page>)
    reads p, p.records, p.fingerprints
  {
    p.Valid() && p.FpSynced() &&
    (p.rightSibling != null ==> p.rightSibling in S && p.rightSibling.level == p.level) &&
    PtrIn(p.leftmost, S, p.level) && ChildrenIn(p.Logical(), S, p.level) &&
    (p.leftmost != Null ==> p.numValid > 0)
  }

  /** No two pages of S share a record or fingerprint array. */
  ghost predicate Disjoint(S: set<Page>)
  {
    forall p, q :: p in S && q in S && p != q ==>
      p.records != q.records && p.fingerprints != q.fingerprints && p.records as object != q.fingerprints
  }

  /** Every page of S has the given variant, capacity and hash. */
  ghost predicate SameLayout(S: set<Page>, variant: Variant, cardinality: nat, hash: Key -> bv8)
  {
    forall p :: p in S ==> p.variant == variant && p.cardinality == cardinality && p.hash == hash
  }

  /**
   * A page whose arrays no page of S uses, with the layout of S's pages,
   * can join S.
   */
  lemma Join(S: set<Page>, r: Page, variant: Variant, cardinality: nat, hash: Key -> bv8)
    requires Disjoint(S) && SameLayout(S, variant, cardinality, hash)
    requires r.variant == variant && r.cardinality == cardinality && r.hash == hash
    requires forall p :: p in S ==> p.records != r.records && p.fingerprints != r.fingerprints
    requires forall p :: p in S ==> p.records as object != r.fingerprints && r.records as object != p.fingerprints
    ensures Disjoint(S + {r}) && SameLayout(S + {r}, variant, cardinality, hash)
  {
  }

  /** Every page of S is a page of S. */
  ghost predicate AllIn(S: set<Page>)
    reads S, set p | p in S :: p.records, set p | p in S :: p.fingerprints
  {
    forall p {:trigger PageIn(p, S)} :: p in S ==> PageIn(p, S)
  }

  /** Growing the set of pages keeps a page inside it. */
  lemma PageInGrow(p: Page, S: set<Page>, T: set<Page>)
    requires PageIn(p, S) && S <= T
    ensures PageIn(p, T)
  {
  }

  /** A closed set of pages stays closed when a page of the grown set joins it. */
  lemma AllInGrow(S: set<Page>, r: Page)
    requires AllIn(S) && PageIn(r, S + {r})
    ensures AllIn(S + {r})
  {
    forall q | q in S + {r}
      ensures PageIn(q, S + {r})
    {
      if q in S {
        PageInGrow(q, S, S + {r});
      }
    }
  }

  /**
   * S grown to T stays closed when p and the pages T adds are pages of T
   * and every other page of S is still a page of S.
   */
  lemma Close(S: set<Page>, T: set<Page>, p: Page)
    requires S <= T && p in S && PageIn(p, T)
    requires forall q :: q in T && q !in S ==> PageIn(q, T)
    requires forall q :: q in S && q != p ==> PageIn(q, S)
    ensures AllIn(T)
  {
    forall q | q in T
      ensures PageIn(q, T)
    {
      if q in S && q != p {
        PageInGrow(q, S, T);
      }
    }
  }

  /** A page that stored e in place (its records were s) stays a page of S. */
  lemma StoredStays(p: Page, s: seq<Rec>, e: Rec, S: set<Page>)
    requires p.Valid() && p.FpSynced() && ChildrenIn(s, S, p.level) && PtrIn(e.ptr, S, p.level)
    requires p.Logical() == Insertion(p.InsertsLinearly(), s, e)
    requires p.rightSibling != null ==> p.rightSibling in S && p.rightSibling.level == p.level
    requires PtrIn(p.leftmost, S, p.level)
    ensures PageIn(p, S)
  {
    ChildrenInInsertion(p.InsertsLinearly(), s, e, S, p.level);
  }

  /**
   * After p split (its records were s, the sibling is `sib`, all of S's
   * pointers in order), both pages are pages of S with the sibling added.
   */
  lemma SplitStays(p: Page, s: seq<Rec>, e: Rec, at: Page, splitKey: Key, sib: Page, S: set<Page>)
    requires |s| > 0 && ChildrenIn(s, S, p.level) && PtrIn(e.ptr, S, p.level)
    requires true == p.SplitOutcome(s, p.leftmost != Null, e, at, splitKey, sib) && p.FpSynced()
    requires p.rightSibling == sib
    requires sib.rightSibling != null ==> sib.rightSibling in S && sib.rightSibling.level == p.level
    requires PtrIn(p.leftmost, S, p.level) && |s| >= 3
    ensures PageIn(p, S + {sib}) && PageIn(sib, S + {sib})
  {
    var h, internal := |s| / 2, p.leftmost != Null;
    ChildrenInSplit(s, h, internal, S, p.level);
    ChildrenInInsertion(p.InsertsLinearly(), Kept(s, h, internal), e, S, p.level);
    ChildrenInInsertion(sib.InsertsLinearly(), Moved(s, h, internal), e, S, p.level);
    assert ChildrenIn(p.Logical(), S, p.level) && ChildrenIn(sib.Logical(), S, p.level);
  }

  /**
   * The records of page p after a `store` of e that did not split it, its
   * records having been s: unchanged when the page was refused or the key
   * handed on, e inserted in place otherwise.
   */
  ghost predicate Outcome(p: Page, s: seq<Rec>, e: Rec, r: StoreResult)
    reads p, p.records
  {
    p.records.Length > 0 && p.numValid <= p.records.Length &&
    (r.Deleted? || r.Forward? ==> p.Logical() == s) &&
    (r.Stored? ==> p.Logical() == Insertion(p.InsertsLinearly(), s, e))
  }

  /** Page q holds record e among its live records. */
  ghost predicate Holds(q: Page, e: Rec)
    reads q, q.records
  {
    q.records.Length > 0 && q.numValid <= q.records.Length && e in q.Logical()
  }

  /** After a split, e is on the page the split put it on. */
  lemma SplitHolds(p: Page, s: seq<Rec>, e: Rec, at: Page, splitKey: Key, sib: Page)
    requires |s| > 0 && p.SplitOutcome(s, p.leftmost != Null, e, at, splitKey, sib)
    ensures Holds(at, e)
  {
    var h := |s| / 2;
    var internal := p.leftmost != Null;
    if e.key < splitKey {
      InsertionHolds(p.InsertsLinearly(), Kept(s, h, internal), e);
    } else {
      InsertionHolds(sib.InsertsLinearly(), Moved(s, h, internal), e);
    }
  }

  /** An inserted record is among the records. */
  lemma InsertionHolds(linear: bool, s: seq<Rec>, e: Rec)
    ensures e in Insertion(linear, s, e)
  {
    var p := if linear then UpperBound(s, e.key, |s|) else CircularInsertPos(s, e.key);
    assert Insertion(linear, s, e)[p] == e;
  }

  /**
   * `store` on one page of a set of pages S that holds all its pointers:
   * the page (and a new sibling, after a split) keeps its pointers inside S
   * (with the sibling added).
   */
  method StoreIn(p: Page, key: Key, ptr: Ptr<Page>, ghost S: set<Page>) returns (r: StoreResult)
    requires true == PageIn(p, S) && PtrIn(ptr, S, p.level)
    requires p.rightSibling != null ==> true == PageIn(p.rightSibling, S)
    modifies p`numValid, p`firstIndex, p`rightSibling, p.records, p.fingerprints
    ensures r.Forward? ==> r.next in S && r.next.level == p.level
    ensures r.Stored? ==> r.at == p
    ensures r.Deleted? || r.Forward? ==> unchanged(p, p.records, p.fingerprints)
    ensures true == Outcome(p, old(p.Logical()), Entry(key, ptr), r)
    ensures r.SplitStored? ==> (old(p.numValid) > 0 &&
      true == p.SplitOutcome(old(p.Logical()), p.leftmost != Null, Entry(key, ptr), r.at, r.splitKey, r.sibling))
    ensures r.SplitStored? ==> r.at.level == p.level && true == Holds(r.at, Entry(key, ptr))
    ensures !r.SplitStored? ==> true == PageIn(p, S)
    ensures r.SplitStored? ==>
      fresh(r.sibling) && fresh(r.sibling.records) && fresh(r.sibling.fingerprints) &&
      r.sibling.variant == p.variant && r.sibling.cardinality == p.cardinality && r.sibling.hash == p.hash &&
      r.sibling.level == p.level &&
      (r.at == p || r.at == r.sibling) &&
      true == PageIn(p, S + {r.sibling}) && true == PageIn(r.sibling, S + {r.sibling})
  {
    ghost var s := p.Logical();
    ghost var trace;
    r, trace := p.Store(key, ptr, null);
    if r.SplitStored? {
      SplitStays(p, s, Entry(key, ptr), r.at, r.splitKey, r.sibling, S);
      SplitHolds(p, s, Entry(key, ptr), r.at, r.splitKey, r.sibling);
    } else if r.Stored? {
      StoredStays(p, s, Entry(key, ptr), S);
    }
  }

  /**
   * `store` on page p of a closed set of pages S: the pages (S, with the
   * new sibling after a split) stay closed and keep their arrays apart.
   */
  method StoreAmong(p: Page, key: Key, ptr: Ptr<Page>, ghost S: set<Page>,
                    ghost variant: Variant, ghost cardinality: nat, ghost hash: Key -> bv8)
    returns (r: StoreResult, ghost T: set<Page>)
    requires p in S && PageIn(p, S) && PtrIn(ptr, S, p.level)
    requires true == AllIn(S) && true == Disjoint(S) && true == SameLayout(S, variant, cardinality, hash)
    modifies p`numValid, p`firstIndex, p`rightSibling, p.records, p.fingerprints
    ensures T == if r.SplitStored? then S + {r.sibling} else S
    ensures true == AllIn(T) && true == Disjoint(T) && true == SameLayout(T, variant, cardinality, hash)
    ensures forall q :: q in T && q !in S ==> fresh(q) && fresh(q.records) && fresh(q.fingerprints)
    ensures r.Forward? ==> r.next in S && r.next.level == p.level
    ensures r.Stored? ==> r.at == p
    ensures r.SplitStored? ==> r.at in T && r.sibling.level == p.level
    ensures true == Outcome(p, old(p.Logical()), Entry(key, ptr), r)
    ensures r.SplitStored? ==> r.at.level == p.level && true == Holds(r.at, Entry(key, ptr))
    ensures forall q :: q in S && q != p ==> unchanged(q, q.records)
  {
    if p.rightSibling != null {
      assert true == PageIn(p.rightSibling, S);
    }
    r := StoreIn(p, key, ptr, S);
    forall q | q in S && q != p
      ensures unchanged(q, q.records) && true == PageIn(q, S)
    {
      assert true == old(PageIn(q, S));
      assert q.records != p.records && q.fingerprints != p.fingerprints;
      assert q.records as object != p.fingerprints && q.fingerprints as object != p.records;
      assert unchanged(q, q.records, q.fingerprints);
    }
    T := S;
    if r.SplitStored? {
      Join(S, r.sibling, variant, cardinality, hash);
      T := S + {r.sibling};
      assert forall q :: q in T && q !in S ==> q == r.sibling;
    }
    Close(S, T, p);
  }

  class Tree {
    const variant: Variant
    const cardinality: nat
    const hash: Key -> bv8
    var root: Page
    var height: nat
    /** Every page allocated for this tree; pages are never freed here. */
    ghost var pages: set<Page>

    /** One page of the tree: a page of `pages` with the tree's layout. */
    ghost predicate PageOk(p: Page)
      reads this`pages, p, p.records, p.fingerprints
    {
      PageIn(p, pages) && p.variant == variant && p.cardinality == cardinality && p.hash == hash
    }

    ghost predicate Valid()
      reads this, pages, set p | p in pages :: p.records, set p | p in pages :: p.fingerprints
    {
      root in pages && GoodCardinality(cardinality) &&
      AllIn(pages) && SameLayout(pages, variant, cardinality, hash) && Disjoint(pages)
    }

    /** `btree()`: one empty leaf at level 0 as the root, height 1. */
    constructor (variant: Variant, cardinality: nat, hash: Key -> bv8)
      requires GoodCardinality(cardinality) && (variant == Fingerprint ==> hash == CalHash)
      ensures Valid() && this.variant == variant && this.cardinality == cardinality
      ensures height == 1 && pages == {root}
      ensures root.Valid() && root.level == 0 && root.Logical() == [] && root.leftmost == Null
    {
      this.variant := variant;
      this.cardinality := cardinality;
      this.hash := hash;
      var r := new Page(variant, cardinality, 0, hash);
      root := r;
      height := 1;
      pages := {r};
    }

    /** `setNewRoot`: the root pointer moves to r and the height grows by one. */
    method SetNewRoot(r: Page)
      modifies this`root, this`height
      ensures root == r && height == old(height) + 1
    {
      root := r;
      height := height + 1;
    }

    /**
     * The root-split branch of `store`: a new root one level above `left`
     * with `leftmost_ptr` left and the single record (key, right), then
     * `setNewRoot`.
     */
    method GrowRoot(left: Page, key: Key, right: Page)
      requires Valid() && left in pages && right in pages && right.level == left.level
      modifies this`root, this`height, this`pages
      ensures Valid() && fresh(root) && fresh(root.records) && fresh(root.fingerprints)
      ensures pages == old(pages) + {root} && height == old(height) + 1
      ensures root.Valid() && root.leftmost == Child(left) && root.Logical() == [Entry(key, Child(right))]
      ensures root.level == left.level + 1 && root.rightSibling == null
    {
      var r := new Page.Root(variant, cardinality, hash, left, key, right, left.level + 1);
      ghost var S := pages;
      Join(S, r, variant, cardinality, hash);
      AllInGrow(S, r);
      pages := S + {r};
      SetNewRoot(r);
    }

    /**
     * `linear_search` as the tree calls it: the leaf search on a page
     * without `leftmost_ptr`, the internal search otherwise.  The result
     * stays inside the tree, one level down unless it is the right
     * sibling; on a leaf, a result other than Null and the right sibling
     * is the pointer stored with the key.
     */
    method LinearSearch(p: Page, key: Key) returns (r: Ptr<Page>)
      requires Valid() && variant != Draft && p in pages
      ensures r.Child? ==> r.page in pages
      ensures r.Child? && r != SiblingPtr(p) ==> r.page.level + 1 == p.level
      ensures p.rightSibling != null ==> p.rightSibling.level == p.level
      ensures p.Valid()
      ensures p.leftmost == Null && r != Null && r != SiblingPtr(p) ==> r == Lookup(p.Logical(), key)
    {
      assert PageOk(p);
      if p.rightSibling != null {
        assert PageOk(p.rightSibling);
      }
      if p.leftmost == Null {
        r := p.SearchLeaf(key);
        p.LeafHitIsLookup(key);
        LookupIn(p.Logical(), key, pages, p.level);
      } else {
        r := p.SearchInternal(key);
        RouteIn(p.Logical(), key, p.leftmost, pages, p.level);
      }
    }

    /**
     * The first loop of `btree_search` and `btree_insert`: from the root,
     * follow `linear_search` while the page has a `leftmost_ptr`.  Null
     * when the route is not a page (the source would dereference it) or
     * after `fuel` steps.
     */
    method FindLeaf(key: Key, fuel: nat) returns (p: Page?)
      requires Valid() && variant != Draft
      ensures p != null ==> p in pages && p.leftmost == Null
    {
      p := root;
      var f := fuel;
      while p.leftmost != Null
        invariant p in pages
        decreases f
      {
        if f == 0 {
          return null;
        }
        f := f - 1;
        var next := LinearSearch(p, key);
        if !next.Child? {
          return null;
        }
        p := next.page;
      }
    }

    /**
     * The descent of `btree_insert_internal`: from the root, follow
     * `linear_search` while the page's level is above `level`.
     */
    method FindLevel(key: Key, level: nat, fuel: nat) returns (p: Page?)
      requires Valid() && variant != Draft && level <= root.level
      ensures p != null ==> p in pages && p.level == level
    {
      p := root;
      var f := fuel;
      while p.level > level
        invariant p in pages && p.level >= level
        decreases f
      {
        if f == 0 {
          return null;
        }
        f := f - 1;
        var next := LinearSearch(p, key);
        if !next.Child? {
          return null;
        }
        p := next.page;
      }
    }

    /**
     * `btree_search`: descend to a leaf, then search it, moving right
     * while the search answers with the page's right sibling.  A result
     * other than Null is the pointer stored with the key on the page the
     * search ended on, and, outside the Ycsb layout, which returns any
     * non-null pointer, it is the key itself read as an address.
     */
    method Search(key: Key, fuel: nat) returns (r: Ptr<Page>, ghost at: Page?)
      requires Valid() && variant != Draft
      ensures r != Null ==> at != null && at in pages && at.Valid()
      ensures r != Null && at.leftmost == Null ==> r == Lookup(at.Logical(), key)
      ensures variant != Ycsb && r != Null ==> r == Val(key as int)
    {
      var p := FindLeaf(key, fuel);
      if p == null {
        return Null, null;
      }
      var f := fuel;
      var t;
      while true
        invariant p in pages
        decreases f
      {
        t := LinearSearch(p, key);
        if t != SiblingPtr(p) {
          break;
        }
        if p.rightSibling == null || f == 0 {
          return Null, null;
        }
        f := f - 1;
        p := p.rightSibling;
      }
      if t == Null || (variant != Ycsb && t != Val(key as int)) {
        return Null, null;
      }
      return t, p;
    }

    /** The pages added since `old` were allocated since then, with their arrays. */
    twostate predicate Grown()
      reads this
    {
      old(pages) <= pages &&
      forall p :: p in pages && p !in old(pages) ==>
        fresh(p) && fresh(p.records) && fresh(p.fingerprints)
    }

    /**
     * `store` on a page of the tree, with the tree's bookkeeping: a new
     * sibling joins the tree.  Every page stays valid and every pointer
     * stays inside the tree.
     */
    method StoreAt(p: Page, key: Key, ptr: Ptr<Page>) returns (r: StoreResult)
      requires Valid() && p in pages && PtrIn(ptr, pages, p.level)
      modifies this`pages, p`numValid, p`firstIndex, p`rightSibling, p.records, p.fingerprints
      ensures Valid() && Grown()
      ensures r.Forward? ==> r.next in pages && r.next.level == p.level
      ensures r.Stored? ==> r.at == p
      ensures r.SplitStored? ==> pages == old(pages) + {r.sibling} && r.at in pages && r.sibling.level == p.level
      ensures !r.SplitStored? ==> pages == old(pages)
      ensures old(p.Valid()) && true == Outcome(p, old(p.Logical()), Entry(key, ptr), r)
      ensures r.SplitStored? ==> r.at.level == p.level && true == Holds(r.at, Entry(key, ptr))
      ensures forall q :: q in old(pages) && q != p ==> unchanged(q, q.records)
    {
      assert PageOk(p);
      ghost var T;
      r, T := StoreAmong(p, key, ptr, pages, variant, cardinality, hash);
      assert true == AllIn(T) && root in T;
      pages := T;
      assert true == AllIn(pages) && true == Disjoint(pages) && true == SameLayout(pages, variant, cardinality, hash);
    }

    /**
     * The `store` recursion along right siblings: store at p, and while
     * the key belongs to the right sibling, store there instead.  `last`
     * is the page the chain ended on; a Forward result means `fuel` ran
     * out.
     */
    method StoreChain(p: Page, key: Key, ptr: Ptr<Page>, fuel: nat) returns (r: StoreResult, last: Page)
      requires Valid() && p in pages && PtrIn(ptr, pages, p.level)
      modifies this`pages, pages, set q | q in pages :: q.records, set q | q in pages :: q.fingerprints
      ensures Valid() && Grown() && last in old(pages) && last.level == p.level
      ensures r.Forward? ==> r.next in pages
      ensures r.Stored? ==> r.at == last
      ensures r.SplitStored? ==> r.at in pages && r.sibling in pages && last in pages && r.sibling.level == p.level
      ensures r.Stored? || r.SplitStored? ==> r.at.level == p.level && Holds(r.at, Entry(key, ptr))
      ensures forall q :: q in old(pages) && q.level != p.level ==> unchanged(q, q.records)
    {
      last := p;
      r := StoreAt(last, key, ptr);
      var f := fuel;
      while r.Forward? && f > 0
        invariant Valid() && Grown() && last in old(pages) && last.level == p.level
        invariant r.Forward? ==> r.next in pages && pages == old(pages) && r.next.level == p.level
        invariant r.Stored? ==> r.at == last
        invariant r.SplitStored? ==> r.at in pages && r.sibling in pages && r.sibling.level == p.level
        invariant r.Stored? || r.SplitStored? ==> r.at.level == p.level && Holds(r.at, Entry(key, ptr))
        invariant forall q :: q in old(pages) && q.level != p.level ==> unchanged(q, q.records)
        decreases f
      {
        f := f - 1;
        last := r.next;
        r := StoreAt(last, key, ptr);
      }
    }

    /**
     * The end of `store` after page `last` split into itself and
     * `sibling` at `splitKey`: a split root grows a new root, any other
     * page hands the split key to its parent level.
     */
    method AfterSplit(last: Page, splitKey: Key, sibling: Page, fuel: nat)
      requires Valid() && variant != Draft && last in pages && sibling in pages && sibling.level == last.level
      modifies this`pages, this`root, this`height, pages
      modifies set q | q in pages :: q.records, set q | q in pages :: q.fingerprints
      ensures Valid() && old(pages) <= pages
      ensures forall q :: q in old(pages) && q.level <= last.level ==> unchanged(q, q.records)
      decreases fuel, 1
    {
      if root == last {
        GrowRoot(last, splitKey, sibling);
      } else {
        var done;
        ghost var at;
        done, at := InsertInternal(splitKey, sibling, last.level + 1, fuel);
      }
    }

    /**
     * `btree_insert_internal`: store (key, right) on the page at `level`
     * found from the root; nothing happens when the level is above the
     * root.  A store on a deleted page starts over (after `fuel` retries
     * it gives up).
     */
    method InsertInternal(key: Key, right: Page, level: nat, fuel: nat) returns (done: bool, ghost at: Page?)
      requires Valid() && variant != Draft && right in pages && right.level + 1 == level
      modifies this`pages, this`root, this`height, pages
      modifies set q | q in pages :: q.records, set q | q in pages :: q.fingerprints
      ensures Valid() && old(pages) <= pages
      ensures forall q :: q in old(pages) && q.level < level ==> unchanged(q, q.records)
      ensures done ==> at != null && at in pages && at.level == level && Holds(at, Entry(key, Child(right)))
      ensures level > old(root.level) ==>
        !done && unchanged(this) && forall q :: q in old(pages) ==> unchanged(q, q.records, q.fingerprints)
      decreases fuel, 0
    {
      if level > root.level || fuel == 0 {
        return false, null;
      }
      var p := FindLevel(key, level, fuel);
      if p == null {
        return false, null;
      }
      var r, last := StoreChain(p, key, Child(right), fuel);
      if r.Deleted? {
        done, at := InsertInternal(key, right, level, fuel - 1);
      } else if r.Forward? {
        done, at := false, null;
      } else {
        at := r.at;
        if r.SplitStored? {
          AfterSplit(last, r.splitKey, r.sibling, fuel - 1);
        }
        done := true;
      }
    }

    /**
     * `btree_insert`: store (key, value) on the leaf found from the root,
     * following right siblings; a store on a deleted page starts over.
     * False when the descent or the retries ran out of `fuel`.
     */
    method Insert(key: Key, value: int, fuel: nat) returns (done: bool, ghost at: Page?)
      requires Valid() && variant != Draft
      modifies this`pages, this`root, this`height, pages
      modifies set q | q in pages :: q.records, set q | q in pages :: q.fingerprints
      ensures Valid() && old(pages) <= pages
      ensures done ==> at != null && at in pages && Holds(at, Entry(key, Val(value)))
      decreases fuel
    {
      var p := FindLeaf(key, fuel);
      if p == null {
        return false, null;
      }
      var r, last := StoreChain(p, key, Val(value), fuel);
      if r.Deleted? {
        if fuel == 0 {
          return false, null;
        }
        done, at := Insert(key, value, fuel - 1);
      } else if r.Forward? {
        done, at := false, null;
      } else {
        at := r.at;
        if r.SplitStored? {
          AfterSplit(last, r.splitKey, r.sibling, fuel);
        }
        done := true;
      }
    }

    /** Every leaf holding the key points at a buffer that a write of n bytes at byte `at` fits in. */
    ghost predicate Writes(key: Key, bufs: map<int, seq<bv8>>, at: int, n: nat)
      reads this, pages, set p | p in pages :: p.records, set p | p in pages :: p.fingerprints
      requires Valid()
    {
      forall p :: p in pages && p.leftmost == Null ==> PageOk(p) && Writable(Lookup(p.Logical(), key), bufs, at, n)
    }

    /**
     * `btree_update` of the YCSB layout: descend to a leaf, then `update`
     * there, following right siblings; a deleted page starts it over.
     * The page the update ran on is `at` (null when the descent or the
     * retries ran out of `fuel`): on a leaf, the value of its first record
     * with the key now holds data at byte `offset * field_size`, and no
     * other buffer changed.
     */
    method Update(key: Key, data: seq<bv8>, offset: int, fieldSize: nat, mem: Values, fuel: nat)
      returns (ghost at: Page?)
      requires Valid() && variant == Ycsb
      requires Writes(key, mem.bufs, offset * fieldSize, StrLen(data))
      modifies mem
      ensures at == null ==> unchanged(mem)
      ensures at != null ==> at in pages
      ensures at != null && at.leftmost == Null ==>
        mem.bufs == WriteValue(old(mem.bufs), Lookup(at.Logical(), key), offset * fieldSize, data)
      ensures at != null && at.leftmost != Null ==> unchanged(mem)
      decreases fuel
    {
      var p := FindLeaf(key, fuel);
      if p == null {
        return null;
      }
      var f := fuel;
      while true
        invariant p in pages
        decreases f
      {
        assert PageOk(p);
        if p.rightSibling != null {
          assert PageOk(p.rightSibling);
        }
        var r := p.UpdateRoute(key);
        if r.Updated? {
          p.UpdateKey(key, data, offset, fieldSize, mem);
          return p;
        }
        if r.Refused? {
          if fuel == 0 {
            return null;
          }
          at := Update(key, data, offset, fieldSize, mem, fuel - 1);
          return;
        }
        if f == 0 {
          return null;
        }
        f := f - 1;
        p := r.next;
      }
    }
  }
}
