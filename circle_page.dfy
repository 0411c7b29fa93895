// The node ("page") of the Circle-Tree: a fixed array of records used as a
// circular buffer whose live window starts at `first_index` and holds
// `num_valid_key` records.  One class serves the four circular-layout
// headers; `Variant` selects where they differ:
//   Single      single/src/Circle-Tree.h
//   Fingerprint concurrent/src/Circle-Tree_fp.h (one-byte key fingerprints)
//   Ycsb        YCSB-concurrent/src/Circle-Tree.h
//   Draft       single/src/btree.h (the earlier draft)
module CirclePage {
  import Ring
  import opened Entries
  import opened Hash
  import opened ValueMemory

  datatype Variant = Single | Fingerprint | Ycsb | Draft

  type Rec = Entry<Page>

  /**
   * Largest cardinality whose slot indices and record counts fit the
   * 16-bit `first_index` and `num_valid_key` of the Single, Fingerprint
   * and Ycsb headers (the draft layout's 32-bit fields would allow more).
   */
  const MaxCardinality: nat := 0x1_0000

  predicate GoodCardinality(c: nat)
  {
    Ring.IsPow2(c) && 4 <= c <= MaxCardinality
  }

  /**
   * The physical slots [lo, hi) the draft layout's `linear_search` scans
   * in the ring a whose live window starts at slot f and holds n records:
   * first .. last when the window does not wrap (the last slot above the
   * first), else first .. |a| - 1 for a key below the key in slot 0 and
   * 0 .. last for any other key.
   */
  function DraftWindow(a: seq<Rec>, f: nat, n: nat, k: Key): (r: (nat, nat))
    requires f < |a| && n < |a|
    ensures r.0 < |a| && r.0 <= r.1 <= |a|
  {
    var last := LastSlot(f, n, |a|);
    if last > f then (f, last + 1)
    else if k < a[0].key then (f, |a|)
    else (0, last + 1)
  }

  /** The pointer of the first slot of DraftWindow holding key k, or Null. */
  function DraftHit(a: seq<Rec>, f: nat, n: nat, k: Key): (r: Ptr<Page>)
    requires f < |a| && n < |a|
  {
    var w := DraftWindow(a, f, n, k);
    ScanHit(a, k, w.0, w.1)
  }

  /**
   * With at least two live records whose keys are distinct, the draft
   * scan finds what the lookup in the live records finds.
   */
  lemma DraftHitIsLookup(a: seq<Rec>, f: nat, n: nat, k: Key)
    requires f < |a| && 2 <= n < |a| && StrictlySorted(Rot(a, f)[..n])
    ensures DraftHit(a, f, n, k) == Lookup(Rot(a, f)[..n], k)
  {
    RotSlice(a, f, n);
    DraftHitWindow(a, Rot(a, f)[..n], f, k);
  }

  /** DraftHitIsLookup for the live records L laid out from slot f, wrapping or not. */
  lemma DraftHitWindow(a: seq<Rec>, L: seq<Rec>, f: nat, k: Key)
    requires f < |a| && 2 <= |L| < |a| && StrictlySorted(L)
    requires f + |L| <= |a| ==> L == a[f..f + |L|]
    requires f + |L| > |a| ==> L == a[f..] + a[..f + |L| - |a|]
    ensures DraftHit(a, f, |L|, k) == Lookup(L, k)
  {
    var c := |a|;
    if f + |L| <= c {
      WindowSearch(a, L, f, k);
    } else if k < a[0].key {
      WrappedLowSearch(a, L, f, c - f, k);
    } else {
      WrappedHighSearch(a, L, c - f, k);
    }
  }

  /**
   * The child the draft layout's internal scan yields over DraftWindow
   * [lo, hi): `leftmost_ptr` below the key in slot lo, otherwise the scan
   * from lo that keeps the pointer of each key above k and stops at the
   * first key not above k.
   */
  function DraftRoute(a: seq<Rec>, f: nat, n: nat, k: Key, leftmost: Ptr<Page>): (r: Ptr<Page>)
    requires f < |a| && n < |a|
  {
    var w := DraftWindow(a, f, n, k);
    if k < a[w.0].key then leftmost else LastAbove(a, k, w.0, w.1, a[w.0].ptr)
  }

  /**
   * The draft internal scan never moves past its first slot: the scan
   * starts only on a key not above k, so it stops there at once and the
   * result is `leftmost_ptr` or the first slot's pointer, whatever the
   * later keys are.
   */
  lemma DraftRouteStuck(a: seq<Rec>, f: nat, n: nat, k: Key, leftmost: Ptr<Page>)
    requires f < |a| && n < |a|
    ensures var lo := DraftWindow(a, f, n, k).0;
      DraftRoute(a, f, n, k, leftmost) == if k < a[lo].key then leftmost else a[lo].ptr
  {
    var w := DraftWindow(a, f, n, k);
    assert w.0 < w.1;
  }

  /**
   * An input the draft internal scan routes wrongly: records (10, A) and
   * (20, B) from slot 0 and key 25 give A, while the child covering 25 is B.
   */
  lemma DraftRouteMisroutes(leftmost: Ptr<Page>)
    ensures var a := [Entry(10, Val(1)), Entry(20, Val(2)), Entry(MaxKey, Null), Entry(MaxKey, Null)];
      DraftRoute(a, 0, 2, 25, leftmost) == Val(1) && Route(a[..2], 25, leftmost) == Val(2)
  {
    var a := [Entry(10, Val(1)), Entry(20, Val(2)), Entry(MaxKey, Null), Entry(MaxKey, Null)];
    DraftRouteStuck(a, 0, 2, 25, leftmost);
    assert DraftWindow(a, 0, 2, 25) == (0, 2);
    assert FirstAbove(a[..2], 25, 1) == 2;
  }

  /** Fingerprint sequence F matches the keys of records V under hash h. */
  ghost predicate Synced(F: seq<bv8>, V: seq<Rec>, h: Key -> bv8)
  {
    |F| == |V| && forall k :: 0 <= k < |F| ==> At(F, k) == h(At(V, k).key)
  }

  /** Inserting a record together with its fingerprint keeps the two in step. */
  lemma SyncedInsert(F: seq<bv8>, V: seq<Rec>, i: nat, e: Rec, h: Key -> bv8)
    requires Synced(F, V, h) && i <= |V|
    ensures Synced(InsertAt(F, i, h(e.key)), InsertAt(V, i, e), h)
  {
    var G, W := InsertAt(F, i, h(e.key)), InsertAt(V, i, e);
    forall k | 0 <= k < |G|
      ensures At(G, k) == h(At(W, k).key)
    {
      if k < i { assert At(F, k) == h(At(V, k).key); }
      else if k > i { assert At(F, k - 1) == h(At(V, k - 1).key); }
    }
  }

  /**
   * The fingerprint half of a left insertion: shifting the fingerprints
   * in step with the records and landing the new key's hash beside it
   * keeps the two in step.
   */
  lemma LeftInsertSynced(on: bool, F0: seq<bv8>, F1: seq<bv8>, V0: seq<Rec>, V1: seq<Rec>, c: nat, n: nat, i: nat, e: Rec, h: Key -> bv8)
    requires |V1| == |V0| == c && 0 <= i <= n && n + 1 < c && LeftShifted(V1, V0, i)
    requires on ==> |F1| == |F0| == c && LeftShifted(F1, F0, i) && Synced(F0[..n], V0[..n], h)
    ensures on ==> Synced(StepBack(F1[Wrap(i - 1, c) := h(e.key)])[..n + 1], StepBack(V1[Wrap(i - 1, c) := e])[..n + 1], h)
  {
    if on {
      LeftShiftLand(F1, F0, c, i, n, h(e.key));
      LeftShiftLand(V1, V0, c, i, n, e);
      SyncedInsert(F0[..n], V0[..n], i, e, h);
    }
  }

  /** The fingerprint half of a right-shifting insertion keeps fingerprints and records in step. */
  lemma RightInsertSynced(on: bool, F0: seq<bv8>, F1: seq<bv8>, V0: seq<Rec>, V1: seq<Rec>, n: nat, i: int, e: Rec, h: Key -> bv8)
    requires |V1| == |V0| && -1 <= i < n && n + 1 < |V0| && RightShifted(V1, V0, i, n)
    requires on ==> |F1| == |F0| == |V0| && RightShifted(F1, F0, i, n) && Synced(F0[..n], V0[..n], h)
    ensures on ==> Synced(F1[i + 1 := h(e.key)][..n + 1], V1[i + 1 := e][..n + 1], h)
  {
    if on {
      RightShiftLand(F1, F0, i, n, h(e.key));
      RightShiftLand(V1, V0, i, n, e);
      SyncedInsert(F0[..n], V0[..n], i + 1, e, h);
    }
  }

  /** Removing a record together with its fingerprint keeps the two in step. */
  lemma SyncedRemove(F: seq<bv8>, V: seq<Rec>, p: nat, h: Key -> bv8)
    requires Synced(F, V, h) && p < |V|
    ensures Synced(RemoveAt(F, p), RemoveAt(V, p), h)
  {
    var G, W := RemoveAt(F, p), RemoveAt(V, p);
    forall k | 0 <= k < |G|
      ensures At(G, k) == h(At(W, k).key)
    {
      if k < p { assert At(F, k) == h(At(V, k).key); }
      else { assert At(F, k + 1) == h(At(V, k + 1).key); }
    }
  }

  /**
   * The fingerprint half of a left-half removal: shifting the fingerprints
   * in step with the records and moving the start forward keeps the two
   * in step.
   */
  lemma LeftRemoveSynced(on: bool, F0: seq<bv8>, F1: seq<bv8>, V0: seq<Rec>, V1: seq<Rec>, n: nat, p: nat, h: Key -> bv8)
    requires |V1| == |V0| > 0 && p < n <= |V0| && RemovedLeft(V1, V0, -1, p, Entry(V0[0].key, Null))
    requires on ==> |F1| == |F0| == |V0| && RemovedLeft(F1, F0, -1, p, h(V0[0].key)) && Synced(F0[..n], V0[..n], h)
    ensures StepForward(V1)[..n - 1] == RemoveAt(V0[..n], p)
    ensures on ==> Synced(StepForward(F1)[..n - 1], StepForward(V1)[..n - 1], h)
  {
    LeftRemoveLand(V1, V0, n, p, Entry(V0[0].key, Null));
    if on {
      LeftRemoveLand(F1, F0, n, p, h(V0[0].key));
      SyncedRemove(F0[..n], V0[..n], p, h);
    }
  }

  /** A right-half removal leaves the window without offset p, its fingerprints in step. */
  lemma RightRemoveSynced(on: bool, F0: seq<bv8>, F1: seq<bv8>, V0: seq<Rec>, V1: seq<Rec>, n: nat, p: nat, h: Key -> bv8)
    requires |V1| == |V0| && p < n <= |V0| && RemovedRight(V1, V0, n, p, n, Entry(V0[n - 1].key, Null))
    requires on ==> |F1| == |F0| == |V0| && RemovedRight(F1, F0, n, p, n, h(V0[n - 1].key)) && Synced(F0[..n], V0[..n], h)
    ensures V1[..n - 1] == RemoveAt(V0[..n], p)
    ensures on ==> Synced(F1[..n - 1], V1[..n - 1], h)
  {
    RightRemoveLand(V1, V0, n, p, Entry(V0[n - 1].key, Null));
    if on {
      RightRemoveLand(F1, F0, n, p, h(V0[n - 1].key));
      SyncedRemove(F0[..n], V0[..n], p, h);
    }
  }

  /**
   * The fingerprint-filtered scan: the first position at or after i whose
   * fingerprint is fk and whose key is k, or -1.
   */
  function FindFiltered(F: seq<bv8>, s: seq<Rec>, k: Key, fk: bv8, i: nat): (r: int)
    requires |F| == |s| && i <= |s|
    ensures r == -1 || i <= r < |s|
    ensures r >= 0 ==> F[r] == fk && s[r].key == k
    decreases |s| - i
  {
    if i == |s| then -1
    else if F[i] == fk && s[i].key == k then i
    else FindFiltered(F, s, k, fk, i + 1)
  }

  /** With fingerprints in step with the keys, the filter never hides a match. */
  lemma {:induction false} FindFilteredSynced(F: seq<bv8>, s: seq<Rec>, k: Key, h: Key -> bv8, i: nat)
    requires Synced(F, s, h) && i <= |s|
    ensures FindFiltered(F, s, k, h(k), i) == FindForward(s, k, i)
    decreases |s| - i
  {
    if i < |s| {
      assert At(F, i) == h(At(s, i).key);
      FindFilteredSynced(F, s, k, h, i + 1);
    }
  }

  /**
   * What a split leaves on the splitting page: the first n / 2 records
   * (a leaf) or those followed by the median with its pointer nulled (an
   * internal page, whose count keeps the median), still sorted, with
   * their fingerprints.
   */
  lemma SplitKeeps(V0: seq<Rec>, V1: seq<Rec>, F: seq<bv8>, n: nat, half: nat, keep: nat,
                   internal: bool, on: bool, h: Key -> bv8)
    requires half < n <= |V0| && |V1| == |V0| && (on ==> n <= |F|)
    requires keep == if internal then half + 1 else half
    requires V1 == ClearPtrs(V0, keep, n)[half := Entry(V0[half].key, Null)]
    requires Sorted(V0[..n])
    requires on ==> Synced(F[..n], V0[..n], h)
    ensures V1[..keep] == if internal then V0[..half] + [Entry(V0[half].key, Null)] else V0[..half]
    ensures Sorted(V1[..keep])
    ensures on ==> Synced(F[..keep], V1[..keep], h)
  {
    var L := V1[..keep];
    assert forall j :: 0 <= j < keep ==> L[j].key == V0[j].key;
    SortedPairs(V0[..n]);
    forall a, b | 0 <= a < b < keep
      ensures KeyAt(L, a) <= KeyAt(L, b)
    {
      assert V0[..n][a].key <= V0[..n][b].key;
    }
    if on {
      forall k | 0 <= k < keep
        ensures At(F[..keep], k) == h(At(L, k).key)
      {
        assert At(F[..n], k) == h(At(V0[..n], k).key);
      }
    }
  }

  /** `insert_key`'s effect on the live records: linear on internal pages of the non-draft layouts, circular otherwise. */
  function Insertion(linear: bool, s: seq<Rec>, e: Rec): (r: seq<Rec>)
    ensures |r| == |s| + 1
  {
    if linear then LinearInsert(s, e) else CircularInsert(s, e)
  }

  /**
   * What `store` did: refused a deleted page, handed the key to the right
   * sibling (the caller repeats `store` there), stored it on `at`, or
   * split and stored it on `at` (this page or the new sibling), leaving
   * the split key and the sibling to be installed one level up.
   */
  datatype StoreResult =
    | Deleted
    | Forward(next: Page)
    | Stored(at: Page)
    | SplitStored(at: Page, splitKey: Key, sibling: Page)

  /**
   * The records a split of s at offset h leaves on the splitting page:
   * the first h, followed on an internal page by the median with a null
   * pointer (its count still includes the median).
   */
  function Kept(s: seq<Rec>, h: nat, internal: bool): (r: seq<Rec>)
    requires h < |s|
    ensures |r| == if internal then h + 1 else h
  {
    if internal then s[..h] + [Entry(s[h].key, Null)] else s[..h]
  }

  /** The records a split of s at offset h moves to the sibling: from h on a leaf, after h on an internal page. */
  function Moved(s: seq<Rec>, h: nat, internal: bool): (r: seq<Rec>)
    requires h < |s|
    ensures |r| == if internal then |s| - h - 1 else |s| - h
  {
    if internal then s[h + 1..] else s[h..]
  }

  /**
   * A leaf split followed by the insertion loses and duplicates nothing:
   * for a key not yet present, the records kept on the page followed by
   * those moved to the sibling, with the new record inserted on the side
   * its key selects, are the old records with the new one in key order.
   */
  lemma LeafSplitStore(s: seq<Rec>, h: nat, e: Rec)
    requires Sorted(s) && h < |s| && e.key !in KeysOf(s)
    ensures e.key < s[h].key ==>
      Insertion(false, Kept(s, h, false), e) + Moved(s, h, false) == LinearInsert(s, e)
    ensures s[h].key <= e.key ==>
      Kept(s, h, false) + Insertion(false, Moved(s, h, false), e) == LinearInsert(s, e)
  {
    if e.key < s[h].key {
      SortedSlice(s, 0, h);
      assert s[0..h] == s[..h];
      assert forall j :: 0 <= j < h ==> KeysOf(s[..h])[j] == KeysOf(s)[j];
      CircularInsertIsLinear(s[..h], e);
      InsertBelowSplit(s, h, e);
    } else {
      SortedSlice(s, h, |s|);
      assert s[h..|s|] == s[h..];
      assert forall j :: 0 <= j < |s| - h ==> KeysOf(s[h..])[j] == KeysOf(s)[h + j];
      CircularInsertIsLinear(s[h..], e);
      InsertAboveSplit(s, h, e);
    }
  }

  /** The two steps of a split that the persistence protocol orders. */
  datatype SplitEvent =
    | Flushed(page: Page, right: Page?, contents: seq<Rec>, leftmost: Ptr<Page>)
    | Published(page: Page, sibling: Page)

  class Page {
    const variant: Variant
    const cardinality: nat
    const level: nat
    const records: array<Rec>
    /** `buffer_records`: one fingerprint per slot (Fingerprint variant only). */
    const fingerprints: array<bv8>
    /**
     * The fingerprint function, `cal_hash` in the Fingerprint variant and
     * unused elsewhere.  Pages take it as a parameter: what is proved about
     * them holds for any fingerprint function.
     */
    const hash: Key -> bv8
    var firstIndex: nat
    var numValid: nat
    /** `leftmost_ptr`: null in a leaf. */
    var leftmost: Ptr<Page>
    var rightSibling: Page?
    /** `left_sibling_ptr`, kept only by the Draft variant. */
    var leftSibling: Page?
    var isDeleted: bool

    /** The fixed layout: cardinality, array lengths and the first index. */
    ghost predicate Shape()
      reads this`firstIndex
    {
      GoodCardinality(cardinality) &&
      records.Length == cardinality &&
      fingerprints.Length == (if variant == Fingerprint then cardinality else 0) &&
      records as object != fingerprints as object &&
      firstIndex < cardinality
    }

    ghost predicate Valid()
      reads this`firstIndex, this`numValid, this`leftmost, records
    {
      Shape() && numValid < cardinality &&
      Sorted(Logical()) &&
      (variant != Draft && leftmost != Null ==> firstIndex == 0)
    }

    /** The records read in logical order starting at `first_index`, live or not. */
    ghost function View(): (r: seq<Rec>)
      reads this`firstIndex, records
      requires records.Length > 0
      ensures |r| == records.Length
    {
      Rot(records[..], firstIndex)
    }

    /** The live records, in logical (key) order. */
    ghost function Logical(): (r: seq<Rec>)
      reads this`firstIndex, this`numValid, records
      requires records.Length > 0 && numValid <= records.Length
      ensures |r| == numValid
    {
      View()[..numValid]
    }

    ghost function FpView(): (r: seq<bv8>)
      reads this`firstIndex, fingerprints
      requires fingerprints.Length > 0
      ensures |r| == fingerprints.Length
    {
      Rot(fingerprints[..], firstIndex)
    }

    /** Every live record's fingerprint slot holds the hash of its key. */
    ghost predicate FpSynced()
      reads this`firstIndex, this`numValid, this`leftmost, records, fingerprints
      requires Valid()
    {
      variant == Fingerprint ==> Synced(FpView()[..numValid], Logical(), hash)
    }

    /** An empty page at the given level: `page(level)`. */
    constructor (variant: Variant, cardinality: nat, level: nat, hash: Key -> bv8)
      requires GoodCardinality(cardinality)
      ensures Valid() && FpSynced()
      ensures this.variant == variant && this.cardinality == cardinality && this.level == level
      ensures this.hash == hash
      ensures Logical() == [] && leftmost == Null && rightSibling == null && leftSibling == null
      ensures !isDeleted && firstIndex == 0 && numValid == 0
      ensures forall j :: 0 <= j < records.Length ==> records[j].ptr == Null
      ensures fresh(records) && fresh(fingerprints)
    {
      this.variant := variant;
      this.cardinality := cardinality;
      this.level := level;
      this.hash := hash;
      records := new Rec[cardinality](_ => Entry(MaxKey, Null));
      fingerprints := new bv8[if variant == Fingerprint then cardinality else 0](_ => 0);
      firstIndex := 0;
      numValid := 0;
      leftmost := Null;
      rightSibling := null;
      leftSibling := null;
      isDeleted := false;
    }

    /**
     * A new root one level above its two children: `leftmost_ptr` is the
     * old root and the single record is (split key, new sibling).
     */
    constructor Root(variant: Variant, cardinality: nat, hash: Key -> bv8,
                     left: Page, key: Key, right: Page, level: nat)
      requires GoodCardinality(cardinality)
      ensures Valid() && FpSynced()
      ensures this.variant == variant && this.cardinality == cardinality && this.level == level
      ensures this.hash == hash
      ensures Logical() == [Entry(key, Child(right))] && leftmost == Child(left)
      ensures rightSibling == null && leftSibling == null && !isDeleted
      ensures records[0] == Entry(key, Child(right)) && firstIndex == 0
      ensures forall j :: 1 <= j < records.Length ==> records[j].ptr == Null
      ensures fresh(records) && fresh(fingerprints)
    {
      this.variant := variant;
      this.cardinality := cardinality;
      this.level := level;
      this.hash := hash;
      var recs := new Rec[cardinality](_ => Entry(MaxKey, Null));
      recs[0] := Entry(key, Child(right));
      records := recs;
      var fps := new bv8[if variant == Fingerprint then cardinality else 0](_ => 0);
      if variant == Fingerprint {
        fps[0] := hash(key);
      }
      fingerprints := fps;
      leftmost := Child(left);
      firstIndex := 0;
      numValid := 1;
      rightSibling := null;
      leftSibling := null;
      isDeleted := false;
      new;
      RotAt(records[..], 0, 0);
      Ring.SmallMod(0, cardinality);
      assert Logical() == [records[0]];
      if variant == Fingerprint {
        RotAt(fingerprints[..], 0, 0);
      }
    }

    /** `count()`: the number of live records. */
    function Count(): (r: nat)
      reads this, records, fingerprints
      requires Valid()
      ensures r == |Logical()|
    {
      numValid
    }

    /** The record at logical offset d: `records[(first_index + d) & (cardinality - 1)]`. */
    function RecordAt(d: int): (r: Rec)
      reads this, records
      requires Shape() && 0 <= d < cardinality
      ensures r == View()[d]
    {
      RotAt(records[..], firstIndex, d);
      records[(firstIndex + d) % cardinality]
    }

    /**
     * Copies the record at logical offset `from` to logical offset `to`
     * (-1 is the last slot), and its fingerprint too when `withFp`.
     */
    method CopySlot(from: int, to: int, withFp: bool)
      requires Shape() && 0 <= from < cardinality && -1 <= to < cardinality
      modifies records, fingerprints
      ensures View() == old(View())[Wrap(to, cardinality) := old(View())[from]]
      ensures withFp && variant == Fingerprint ==>
        FpView() == old(FpView())[Wrap(to, cardinality) := old(FpView())[from]]
      ensures !withFp ==> unchanged(fingerprints)
    {
      WrapIsMod(to, cardinality);
      var c := cardinality;
      var src := (firstIndex + from) % c;
      var dst := (firstIndex + to) % c;
      RotAt(records[..], firstIndex, from);
      RotUpdate(records[..], firstIndex, to, records[src]);
      if withFp && variant == Fingerprint {
        RotAt(fingerprints[..], firstIndex, from);
        RotUpdate(fingerprints[..], firstIndex, to, fingerprints[src]);
        fingerprints[dst] := fingerprints[src];
      }
      records[dst] := records[src];
    }

    /**
     * Stores e at logical offset `at` (-1 is the last slot), and the
     * fingerprint of its key too when `withFp`.
     */
    method PutSlot(at: int, e: Rec, withFp: bool)
      requires Shape() && -1 <= at < cardinality
      modifies records, fingerprints
      ensures View() == old(View())[Wrap(at, cardinality) := e]
      ensures withFp && variant == Fingerprint ==>
        FpView() == old(FpView())[Wrap(at, cardinality) := hash(e.key)]
      ensures !withFp ==> unchanged(fingerprints)
    {
      WrapIsMod(at, cardinality);
      var dst := (firstIndex + at) % cardinality;
      RotUpdate(records[..], firstIndex, at, e);
      if withFp && variant == Fingerprint {
        RotUpdate(fingerprints[..], firstIndex, at, hash(e.key));
        fingerprints[dst] := hash(e.key);
      }
      records[dst] := e;
    }

    /** `first_index = (first_index - 1) & (cardinality - 1)`: the view gains the slot before it. */
    method MoveFirstBack()
      requires Shape()
      modifies this`firstIndex
      ensures Shape() && firstIndex == Wrap(old(firstIndex) - 1, cardinality)
      ensures View() == StepBack(old(View()))
      ensures variant == Fingerprint ==> FpView() == StepBack(old(FpView()))
    {
      RotBack(records[..], firstIndex);
      if variant == Fingerprint {
        RotBack(fingerprints[..], firstIndex);
      }
      WrapIsMod(firstIndex - 1, cardinality);
      firstIndex := (firstIndex - 1) % cardinality;
    }

    /**
     * The landing of a left-half insertion: e goes to logical offset `at`,
     * the count grows by one and `first_index` moves one slot back.
     */
    method LandBack(at: int, e: Rec)
      requires Shape() && -1 <= at < cardinality && numValid + 1 < cardinality
      modifies this`firstIndex, this`numValid, records, fingerprints
      ensures Shape() && numValid == old(numValid) + 1
      ensures firstIndex == Wrap(old(firstIndex) - 1, cardinality)
      ensures View() == StepBack(old(View())[Wrap(at, cardinality) := e])
      ensures variant == Fingerprint ==>
        FpView() == StepBack(old(FpView())[Wrap(at, cardinality) := hash(e.key)])
    {
      PutSlot(at, e, true);
      numValid := numValid + 1;
      MoveFirstBack();
    }

    /** One step of the left-half shift: the record at offset i moves to offset i - 1. */
    method StepLeft(i: nat, ghost V0: seq<Rec>, ghost F0: seq<bv8>)
      requires Shape() && i + 2 < cardinality && |V0| == cardinality
      requires LeftShifted(View(), V0, i)
      requires variant == Fingerprint ==> |F0| == cardinality && LeftShifted(FpView(), F0, i)
      modifies records, fingerprints
      ensures LeftShifted(View(), V0, i + 1)
      ensures variant == Fingerprint ==> LeftShifted(FpView(), F0, i + 1)
    {
      LeftShiftStep(View(), V0, cardinality, i);
      if variant == Fingerprint {
        LeftShiftStep(FpView(), F0, cardinality, i);
      }
      CopySlot(i, i - 1, true);
    }

    /** One step of the backward scan: the record at offset i moves to offset i + 1. */
    method StepRight(i: nat, n: nat, ghost V0: seq<Rec>, ghost F0: seq<bv8>)
      requires Shape() && i < n && n + 1 < cardinality && |V0| == cardinality
      requires RightShifted(View(), V0, i, n)
      requires variant == Fingerprint ==> |F0| == cardinality && RightShifted(FpView(), F0, i, n)
      modifies records, fingerprints
      ensures RightShifted(View(), V0, i - 1, n)
      ensures variant == Fingerprint ==> RightShifted(FpView(), F0, i - 1, n)
    {
      RightShiftStep(View(), V0, i, n);
      if variant == Fingerprint {
        RightShiftStep(FpView(), F0, i, n);
      }
      CopySlot(i, i + 1, true);
    }

    /**
     * The shifting loop of the left half: while the new key is above the
     * record at offset i (i below half the count), that record moves one
     * slot left.  Returns the offset where the new record belongs.
     */
    method ShiftLeftHalf(key: Key) returns (i: int)
      requires Shape() && 0 < numValid < cardinality - 1
      requires key < Logical()[numValid / 2].key
      modifies records, fingerprints
      ensures firstIndex == old(firstIndex) && numValid == old(numValid)
      ensures 0 <= i <= numValid / 2 && i == LowerBound(old(Logical()), key, 0)
      ensures LeftShifted(View(), old(View()), i)
      ensures variant == Fingerprint ==> LeftShifted(FpView(), old(FpView()), i)
    {
      var n := numValid;
      ghost var V0 := View();
      ghost var s := Logical();
      ghost var fpOn := variant == Fingerprint;
      ghost var F0: seq<bv8> := if fpOn then FpView() else [];
      i := 0;
      while i < n / 2
        invariant 0 <= i <= n / 2
        invariant LowerBound(s, key, 0) == LowerBound(s, key, i)
        invariant LeftShifted(View(), V0, i)
        invariant fpOn ==> LeftShifted(FpView(), F0, i)
      {
        assert At(View(), i) == At(V0, i);
        if key > RecordAt(i).key {
          StepLeft(i, V0, F0);
          i := i + 1;
        } else {
          break;
        }
      }
    }

    /**
     * LandBack after a left shift of i records, carrying the fingerprints:
     * when `on`, the fingerprints of the new window match its records.
     */
    method LandBackSynced(i: nat, e: Rec, ghost n: nat, ghost V0: seq<Rec>, ghost F0: seq<bv8>, ghost on: bool)
      requires Shape() && numValid == n && i <= n && n + 1 < cardinality && |V0| == cardinality
      requires LeftShifted(View(), V0, i)
      requires on ==> variant == Fingerprint && |F0| == cardinality && LeftShifted(FpView(), F0, i)
      requires on ==> Synced(F0[..n], V0[..n], hash)
      modifies this`firstIndex, this`numValid, records, fingerprints
      ensures Shape() && numValid == n + 1
      ensures firstIndex == Wrap(old(firstIndex) - 1, cardinality)
      ensures View() == StepBack(old(View())[Wrap(i - 1, cardinality) := e])
      ensures on ==> Synced(FpView()[..n + 1], View()[..n + 1], hash)
    {
      ghost var V1 := View();
      ghost var F1: seq<bv8> := if on then FpView() else [];
      LandBack(i - 1, e);
      assert on ==> Synced(FpView()[..n + 1], View()[..n + 1], hash) by {
        LeftInsertSynced(on, F0, F1, V0, V1, cardinality, n, i, e, hash);
      }
    }

    /**
     * The landing of a left-half insertion, given the views V0 (and F0)
     * before the shift: e goes to offset i - 1, the count grows and
     * `first_index` moves one slot back.
     */
    method LandLeft(i: nat, e: Rec, ghost n: nat, ghost V0: seq<Rec>, ghost F0: seq<bv8>, ghost synced: bool)
      requires Shape() && numValid == n && 0 < n && n + 1 < cardinality && |V0| == cardinality
      requires Sorted(V0[..n]) && e.key < V0[n / 2].key && i == LowerBound(V0[..n], e.key, 0)
      requires LeftShifted(View(), V0, i)
      requires variant == Fingerprint ==> |F0| == cardinality && LeftShifted(FpView(), F0, i)
      requires synced && variant == Fingerprint ==> Synced(F0[..n], V0[..n], hash)
      modifies this`firstIndex, this`numValid, records, fingerprints
      ensures Shape() && numValid == n + 1
      ensures firstIndex == Wrap(old(firstIndex) - 1, cardinality)
      ensures Logical() == CircularInsert(V0[..n], e) && Sorted(Logical())
      ensures true == HalfStaysBack(View(), V0, n)
      ensures synced && variant == Fingerprint ==> Synced(FpView()[..n + 1], Logical(), hash)
    {
      ghost var V1 := View();
      LandBackSynced(i, e, n, V0, F0, synced && variant == Fingerprint);
      assert Logical() == CircularInsert(V0[..n], e) && Sorted(Logical()) && HalfStaysBack(View(), V0, n) by {
        LeftInsertView(V0, V1, cardinality, n, i, e);
      }
    }

    /**
     * The left half of the circular insertion: the records before the
     * new key's position move one slot left, the new record lands in the
     * freed slot and `first_index` moves back.
     */
    method InsertLeft(key: Key, ptr: Ptr<Page>)
      requires Valid() && 0 < numValid < cardinality - 1
      requires leftmost == Null || variant == Draft
      requires key < Logical()[numValid / 2].key
      modifies this`firstIndex, this`numValid, records, fingerprints
      ensures Valid() && numValid == old(numValid) + 1
      ensures firstIndex == Wrap(old(firstIndex) - 1, cardinality)
      ensures Logical() == CircularInsert(old(Logical()), Entry(key, ptr))
      ensures true == HalfStaysBack(View(), old(View()), old(numValid))
      ensures old(FpSynced()) ==> FpSynced()
    {
      ghost var n, V0, synced := numValid, View(), FpSynced();
      ghost var F0: seq<bv8> := if variant == Fingerprint then FpView() else [];
      var i := ShiftLeftHalf(key);
      LandLeft(i, Entry(key, ptr), n, V0, F0, synced);
    }

    /**
     * The backward scan of an insertion: from the last live record down
     * to offset lo, each record whose key is above the new key moves one
     * slot right.  Returns the offset just before the freed slot.  lo is
     * half the count for the right half of a circular insertion and 0 for
     * the linear insertion into an internal page.
     */
    method ShiftRight(key: Key, lo: nat) returns (i: int)
      requires Shape() && numValid < cardinality - 1
      requires lo == 0 || (lo < numValid && Logical()[lo].key <= key)
      modifies records, fingerprints
      ensures numValid == old(numValid)
      ensures lo <= i + 1 <= numValid && i + 1 == UpperBound(old(Logical()), key, numValid)
      ensures RightShifted(View(), old(View()), i, numValid)
      ensures variant == Fingerprint ==> RightShifted(FpView(), old(FpView()), i, numValid)
    {
      var n := numValid;
      ghost var V0 := View();
      ghost var s := Logical();
      ghost var fpOn := variant == Fingerprint;
      ghost var F0: seq<bv8> := if fpOn then FpView() else [];
      i := n as int - 1;
      while i >= lo
        invariant lo - 1 <= i < n
        invariant UpperBound(s, key, n) == UpperBound(s, key, i + 1)
        invariant RightShifted(View(), V0, i, n)
        invariant fpOn ==> RightShifted(FpView(), F0, i, n)
      {
        assert At(View(), i) == At(V0, i);
        if key < RecordAt(i).key {
          StepRight(i, n, V0, F0);
          i := i - 1;
        } else {
          break;
        }
      }
    }

    /**
     * The landing of a right-shifting insertion, given the views V0 (and
     * F0) before the shift: e goes to offset i + 1 and the count grows.
     */
    method LandRight(i: int, e: Rec, ghost n: nat, ghost V0: seq<Rec>, ghost F0: seq<bv8>, ghost synced: bool, ghost lo: nat)
      requires Shape() && numValid == n && n + 1 < cardinality && |V0| == cardinality
      requires Sorted(V0[..n]) && -1 <= i < n && i + 1 == UpperBound(V0[..n], e.key, n) && lo <= i + 1
      requires RightShifted(View(), V0, i, n)
      requires variant == Fingerprint ==> |F0| == cardinality && RightShifted(FpView(), F0, i, n)
      requires synced && variant == Fingerprint ==> Synced(F0[..n], V0[..n], hash)
      modifies this`numValid, records, fingerprints
      ensures Shape() && numValid == n + 1
      ensures Logical() == LinearInsert(V0[..n], e) && Sorted(Logical())
      ensures true == OutsideStays(View(), V0, lo, n)
      ensures synced && variant == Fingerprint ==> Synced(FpView()[..n + 1], Logical(), hash)
    {
      ghost var V1 := View();
      ghost var F1: seq<bv8> := if variant == Fingerprint then FpView() else [];
      PutSlot(i + 1, e, true);
      numValid := numValid + 1;
      assert Logical() == LinearInsert(V0[..n], e) && Sorted(Logical()) by {
        RightInsertView(V0, V1, n, i, e);
      }
      assert OutsideStays(View(), V0, lo, n) by {
        RightShiftStays(V1, V0, i, n, lo, e);
      }
      ghost var on := synced && variant == Fingerprint;
      assert on ==> Synced(FpView()[..n + 1], Logical(), hash) by {
        RightInsertSynced(on, F0, F1, V0, V1, n, i, e, hash);
      }
    }

    /**
     * An insertion that shifts right: the records from offset lo on whose
     * keys are above the new key move one slot right and the new record
     * lands in the freed slot; `first_index` stays.
     */
    method InsertShiftingRight(key: Key, ptr: Ptr<Page>, lo: nat)
      requires Valid() && numValid < cardinality - 1
      requires lo == 0 || (lo < numValid && Logical()[lo].key <= key)
      modifies this`numValid, records, fingerprints
      ensures Valid() && numValid == old(numValid) + 1
      ensures Logical() == LinearInsert(old(Logical()), Entry(key, ptr))
      ensures true == OutsideStays(View(), old(View()), lo, old(numValid))
      ensures old(FpSynced()) ==> FpSynced()
    {
      ghost var n, V0, synced := numValid, View(), FpSynced();
      ghost var F0: seq<bv8> := if variant == Fingerprint then FpView() else [];
      var i := ShiftRight(key, lo);
      LandRight(i, Entry(key, ptr), n, V0, F0, synced, lo);
    }

    /** `insert_key` on an empty page: the record goes to slot 0 and slot 1 becomes the null terminator. */
    method InsertEmpty(key: Key, ptr: Ptr<Page>)
      requires Valid() && numValid == 0
      modifies this`firstIndex, this`numValid, records, fingerprints
      ensures Valid() && FpSynced() && numValid == 1 && firstIndex == 0
      ensures records[0] == Entry(key, ptr) && records[1].ptr == Null
      ensures forall j :: 2 <= j < records.Length ==> records[j] == old(records[j])
      ensures Logical() == [Entry(key, ptr)]
    {
      records[0] := Entry(key, ptr);
      records[1] := Entry(records[1].key, Null);
      if variant == Fingerprint {
        fingerprints[0] := hash(key);
      }
      firstIndex := 0;
      numValid := 1;
      RotAt(records[..], 0, 0);
      Ring.SmallMod(0, cardinality);
      assert Logical() == [records[0]];
      if variant == Fingerprint {
        RotAt(fingerprints[..], 0, 0);
      }
    }

    /** Whether `insert_key` takes the left half: a non-empty circular page and a key below the middle record. */
    ghost predicate GoesLeft(key: Key)
      reads this, records, fingerprints
      requires Valid()
    {
      0 < numValid && (leftmost == Null || variant == Draft) && key < Logical()[numValid / 2].key
    }

    /**
     * `insert_key`: an empty page takes the record at slot 0; an internal
     * page of the layouts other than the draft inserts linearly from slot
     * 0; any other page compares the key with the middle record and
     * shifts the left half (moving `first_index` back) or the right half.
     * Only the half that shifts is written: a left insertion writes the
     * slot before the window and the window's first n / 2 slots, a right
     * insertion the slots from offset n / 2 (0 on a linear page) to n.
     */
    method InsertKey(key: Key, ptr: Ptr<Page>)
      requires Valid() && numValid < cardinality - 1
      modifies this`firstIndex, this`numValid, records, fingerprints
      ensures Valid() && numValid == old(numValid) + 1
      ensures Logical() ==
        if leftmost != Null && variant != Draft then LinearInsert(old(Logical()), Entry(key, ptr))
        else CircularInsert(old(Logical()), Entry(key, ptr))
      ensures firstIndex ==
        if old(numValid) == 0 then 0
        else if old(GoesLeft(key)) then Wrap(old(firstIndex) - 1, cardinality)
        else old(firstIndex)
      ensures old(numValid) == 0 ==> forall j :: 2 <= j < records.Length ==> records[j] == old(records[j])
      ensures old(GoesLeft(key)) ==> true == HalfStaysBack(View(), old(View()), old(numValid))
      ensures 0 < old(numValid) && !old(GoesLeft(key)) ==>
        true == OutsideStays(View(), old(View()), if InsertsLinearly() then 0 else old(numValid) / 2, old(numValid))
      ensures old(FpSynced()) ==> FpSynced()
    {
      ghost var s := Logical();
      if numValid == 0 {
        InsertEmpty(key, ptr);
        assert CircularInsert(s, Entry(key, ptr)) == [Entry(key, ptr)];
      } else if leftmost != Null && variant != Draft {
        InsertShiftingRight(key, ptr, 0);
      } else if key < RecordAt(numValid / 2).key {
        InsertLeft(key, ptr);
      } else {
        assert CircularInsert(s, Entry(key, ptr)) == LinearInsert(s, Entry(key, ptr));
        InsertShiftingRight(key, ptr, numValid / 2);
      }
    }

    /** `first_index = (first_index + 1) & (cardinality - 1)`: the view drops its first slot to the end. */
    method MoveFirstForward()
      requires Shape()
      modifies this`firstIndex
      ensures Shape() && firstIndex == Succ(old(firstIndex), cardinality)
      ensures View() == StepForward(old(View()))
      ensures variant == Fingerprint ==> FpView() == StepForward(old(FpView()))
    {
      RotForward(records[..], firstIndex);
      if variant == Fingerprint {
        RotForward(fingerprints[..], firstIndex);
      }
      SuccIsMod(firstIndex, cardinality);
      firstIndex := (firstIndex + 1) % cardinality;
    }

    /**
     * One step of the left-half removal: offset i takes the record at
     * offset i - 1, or, at offset 0, keeps its key with a null pointer.
     * The fingerprint moves with it only when `withFp`.
     */
    method StepRemoveLeft(i: nat, ghost p: int, ghost V0: seq<Rec>, ghost F0: seq<bv8>, withFp: bool)
      requires Shape() && i <= p < cardinality && |V0| == cardinality
      requires true == RemovedLeft(View(), V0, i, p, Entry(V0[0].key, Null))
      requires withFp && variant == Fingerprint ==>
        |F0| == cardinality && true == RemovedLeft(FpView(), F0, i, p, hash(V0[0].key))
      modifies records, fingerprints
      ensures true == RemovedLeft(View(), V0, i - 1, p, Entry(V0[0].key, Null))
      ensures withFp && variant == Fingerprint ==> true == RemovedLeft(FpView(), F0, i - 1, p, hash(V0[0].key))
      ensures !withFp ==> unchanged(fingerprints)
    {
      RemoveLeftStep(View(), V0, i, p, Entry(V0[0].key, Null));
      if withFp && variant == Fingerprint {
        RemoveLeftStep(FpView(), F0, i, p, hash(V0[0].key));
      }
      if i == 0 {
        PutSlot(0, Entry(RecordAt(0).key, Null), withFp);
      } else {
        CopySlot(i - 1, i, withFp);
      }
    }

    /**
     * The state of the left-part scan after offset i + 1: until the key is
     * found nothing has moved; once it is found at p, offsets i + 1 .. p
     * hold their left neighbours (and so do the fingerprints when fpOn).
     * Contracts state it as `true == LeftScan(..)` so that it is proved as
     * one fact from the previous step's, not conjunct by conjunct.
     */
    ghost predicate LeftScan(key: Key, fpOn: bool, V0: seq<Rec>, F0: seq<bv8>, i: int, found: bool, p: int)
      reads this, records, fingerprints
      requires Shape() && |V0| == cardinality && numValid < cardinality
      requires fpOn ==> variant == Fingerprint && |F0| == cardinality
    {
      -1 <= i < numValid / 2 &&
      (!found ==>
         p == -1 && View() == V0 && (fpOn ==> FpView() == F0) &&
         FindBackward(V0[..numValid], key, numValid / 2) == FindBackward(V0[..numValid], key, i + 1)) &&
      (found ==>
         i < p < numValid / 2 && p == FindBackward(V0[..numValid], key, numValid / 2) &&
         RemovedLeft(View(), V0, i, p, Entry(V0[0].key, Null)) &&
         (fpOn ==> RemovedLeft(FpView(), F0, i, p, hash(V0[0].key))))
    }

    /** The left-part scan starts at offset n / 2 - 1 with nothing found and nothing moved. */
    lemma LeftScanStart(key: Key, fpOn: bool, V0: seq<Rec>, F0: seq<bv8>)
      requires Shape() && numValid < cardinality && V0 == View()
      requires fpOn ==> variant == Fingerprint && F0 == FpView()
      ensures LeftScan(key, fpOn, V0, F0, numValid as int / 2 - 1, false, -1)
    {
    }

    /** One iteration of the left-part scan, at offset i. */
    method LeftVisit(key: Key, i: nat, found: bool, ghost p: int, ghost V0: seq<Rec>, ghost F0: seq<bv8>, withFp: bool)
      returns (found': bool, ghost p': int)
      requires Shape() && |V0| == cardinality && i < numValid / 2 && numValid < cardinality
      requires withFp && variant == Fingerprint ==> |F0| == cardinality
      requires true == LeftScan(key, withFp && variant == Fingerprint, V0, F0, i, found, p)
      modifies records, fingerprints
      ensures true == LeftScan(key, withFp && variant == Fingerprint, V0, F0, i - 1, found', p')
      ensures found ==> found'
      ensures !found' || !withFp ==> unchanged(fingerprints)
    {
      found', p' := found, p;
      if !found && RecordAt(i).key == key {
        found', p' := true, i;
      }
      if found' {
        StepRemoveLeft(i, p', V0, F0, withFp);
      }
    }

    /**
     * The left part of `remove_key`: scanning from offset n / 2 - 1 down
     * to 0, the first record with the key starts the shift, after which
     * every offset down to 0 takes its left neighbour.  Returns whether
     * the key was found and (ghost) at which offset.
     */
    method RemoveLeftPart(key: Key, withFp: bool, ghost V0: seq<Rec>, ghost F0: seq<bv8>) returns (found: bool, ghost p: int)
      requires Shape() && numValid < cardinality && V0 == View()
      requires withFp && variant == Fingerprint ==> F0 == FpView()
      modifies records, fingerprints
      ensures true == LeftScan(key, withFp && variant == Fingerprint, V0, F0, -1, found, p)
      ensures !found || !withFp ==> unchanged(fingerprints)
    {
      var n := numValid;
      found, p := false, -1;
      LeftScanStart(key, withFp && variant == Fingerprint, V0, F0);
      var i := n as int / 2 - 1;
      while i >= 0
        invariant -1 <= i
        invariant true == LeftScan(key, withFp && variant == Fingerprint, V0, F0, i, found, p)
        invariant !found || !withFp ==> unchanged(fingerprints)
      {
        found, p := LeftVisit(key, i, found, p, V0, F0, withFp);
        i := i - 1;
      }
    }

    /**
     * One step of the right-half removal: offset i takes the record at
     * offset i + 1, or, at the last live offset, keeps its key with a null
     * pointer.  The fingerprint moves with it only when `withFp`.
     */
    method StepRemoveRight(i: nat, ghost p: nat, ghost V0: seq<Rec>, ghost F0: seq<bv8>, withFp: bool)
      requires Shape() && p <= i < numValid <= cardinality && |V0| == cardinality
      requires true == RemovedRight(View(), V0, i, p, numValid, Entry(V0[numValid - 1].key, Null))
      requires withFp && variant == Fingerprint ==>
        |F0| == cardinality && true == RemovedRight(FpView(), F0, i, p, numValid, hash(V0[numValid - 1].key))
      modifies records, fingerprints
      ensures true == RemovedRight(View(), V0, i + 1, p, numValid, Entry(V0[numValid - 1].key, Null))
      ensures withFp && variant == Fingerprint ==>
        true == RemovedRight(FpView(), F0, i + 1, p, numValid, hash(V0[numValid - 1].key))
      ensures !withFp ==> unchanged(fingerprints)
    {
      RemoveRightStep(View(), V0, i, p, numValid, Entry(V0[numValid - 1].key, Null));
      if withFp && variant == Fingerprint {
        RemoveRightStep(FpView(), F0, i, p, numValid, hash(V0[numValid - 1].key));
      }
      if i == numValid - 1 {
        PutSlot(i, Entry(RecordAt(i).key, Null), withFp);
      } else {
        CopySlot(i + 1, i, withFp);
      }
    }

    /**
     * The state of the right-part scan before offset i: until the key is
     * found nothing has moved; once it is found at p, offsets p .. i - 1
     * hold their right neighbours (and so do the fingerprints when fpOn).
     * Stated as `true == RightScan(..)` for the same reason as LeftScan.
     */
    ghost predicate RightScan(key: Key, fpOn: bool, V0: seq<Rec>, F0: seq<bv8>, i: int, found: bool, p: int)
      reads this, records, fingerprints
      requires Shape() && |V0| == cardinality && numValid < cardinality
      requires fpOn ==> variant == Fingerprint && |F0| == cardinality
    {
      numValid / 2 <= i <= numValid &&
      (!found ==>
         p == -1 && View() == V0 && (fpOn ==> FpView() == F0) &&
         FindForward(V0[..numValid], key, numValid / 2) == FindForward(V0[..numValid], key, i)) &&
      (found ==>
         numValid / 2 <= p < i && p == FindForward(V0[..numValid], key, numValid / 2) &&
         RemovedRight(View(), V0, i, p, numValid, Entry(V0[numValid - 1].key, Null)) &&
         (fpOn ==> RemovedRight(FpView(), F0, i, p, numValid, hash(V0[numValid - 1].key))))
    }

    /** The right-part scan starts at offset n / 2 with nothing found and nothing moved. */
    lemma RightScanStart(key: Key, fpOn: bool, V0: seq<Rec>, F0: seq<bv8>)
      requires Shape() && numValid < cardinality && V0 == View()
      requires fpOn ==> variant == Fingerprint && F0 == FpView()
      ensures RightScan(key, fpOn, V0, F0, numValid / 2, false, -1)
    {
    }

    /** One iteration of the right-part scan, at offset i. */
    method RightVisit(key: Key, i: nat, found: bool, ghost p: int, ghost V0: seq<Rec>, ghost F0: seq<bv8>, withFp: bool)
      returns (found': bool, ghost p': int)
      requires Shape() && |V0| == cardinality && i < numValid < cardinality
      requires withFp && variant == Fingerprint ==> |F0| == cardinality
      requires true == RightScan(key, withFp && variant == Fingerprint, V0, F0, i, found, p)
      modifies records, fingerprints
      ensures true == RightScan(key, withFp && variant == Fingerprint, V0, F0, i + 1, found', p')
      ensures found ==> found'
      ensures !found' || !withFp ==> unchanged(fingerprints)
    {
      found', p' := found, p;
      if !found && RecordAt(i).key == key {
        found', p' := true, i;
      }
      if found' {
        StepRemoveRight(i, p', V0, F0, withFp);
      }
    }

    /**
     * The right part of `remove_key`: scanning from offset n / 2 up to the
     * last live offset, the first record with the key starts the shift,
     * after which every offset takes its right neighbour.
     */
    method RemoveRightPart(key: Key, withFp: bool, ghost V0: seq<Rec>, ghost F0: seq<bv8>) returns (found: bool, ghost p: int)
      requires Shape() && numValid < cardinality && V0 == View()
      requires withFp && variant == Fingerprint ==> F0 == FpView()
      modifies records, fingerprints
      ensures true == RightScan(key, withFp && variant == Fingerprint, V0, F0, numValid, found, p)
      ensures !found || !withFp ==> unchanged(fingerprints)
    {
      var n := numValid;
      found, p := false, -1;
      RightScanStart(key, withFp && variant == Fingerprint, V0, F0);
      var i := n / 2;
      while i < n
        invariant n / 2 <= i <= n
        invariant true == RightScan(key, withFp && variant == Fingerprint, V0, F0, i, found, p)
        invariant !found || !withFp ==> unchanged(fingerprints)
      {
        found, p := RightVisit(key, i, found, p, V0, F0, withFp);
        i := i + 1;
      }
    }

    /**
     * The end of a left-half removal: when the key was found at offset p
     * the count drops by one and `first_index` moves one slot forward, so
     * the window is the old one without offset p; otherwise nothing moved.
     */
    method LandRemoveLeft(ghost key: Key, found: bool, ghost p: int, ghost V0: seq<Rec>, ghost F0: seq<bv8>,
                          withFp: bool, ghost synced: bool)
      requires Shape() && numValid < cardinality && |V0| == cardinality
      requires withFp && variant == Fingerprint ==> |F0| == cardinality
      requires true == LeftScan(key, withFp && variant == Fingerprint, V0, F0, -1, found, p)
      requires synced && withFp && variant == Fingerprint ==> Synced(F0[..numValid], V0[..numValid], hash)
      modifies this`numValid, this`firstIndex
      ensures Shape() && numValid < cardinality
      ensures p == FindBackward(V0[..old(numValid)], key, old(numValid) / 2) && found == (p >= 0)
      ensures found ==> numValid == old(numValid) - 1 && firstIndex == Succ(old(firstIndex), cardinality)
      ensures found ==> Logical() == RemoveAt(V0[..old(numValid)], p)
      ensures found ==> true == HalfStaysForward(View(), V0, old(numValid))
      ensures !found ==> numValid == old(numValid) && firstIndex == old(firstIndex) && View() == V0
      ensures synced && withFp && variant == Fingerprint ==> Synced(FpView()[..numValid], View()[..numValid], hash)
    {
      ghost var n, V1 := numValid, View();
      ghost var F1: seq<bv8> := if variant == Fingerprint then FpView() else [];
      ghost var on := synced && withFp && variant == Fingerprint;
      if found {
        numValid := numValid - 1;
        MoveFirstForward();
        LeftRemoveSynced(on, F0, F1, V0, V1, n, p, hash);
        LeftRemoveStays(V1, V0, n, p, Entry(V0[0].key, Null));
      }
    }

    /**
     * The end of a right-half removal: when the key was found at offset p
     * the count drops by one and the window is the old one without offset
     * p; otherwise nothing moved.
     */
    method LandRemoveRight(ghost key: Key, found: bool, ghost p: int, ghost V0: seq<Rec>, ghost F0: seq<bv8>,
                           withFp: bool, ghost synced: bool)
      requires Shape() && numValid < cardinality && |V0| == cardinality
      requires withFp && variant == Fingerprint ==> |F0| == cardinality
      requires true == RightScan(key, withFp && variant == Fingerprint, V0, F0, numValid, found, p)
      requires synced && withFp && variant == Fingerprint ==> Synced(F0[..numValid], V0[..numValid], hash)
      modifies this`numValid
      ensures Shape() && numValid < cardinality
      ensures p == FindForward(V0[..old(numValid)], key, old(numValid) / 2) && found == (p >= 0)
      ensures found ==> numValid == old(numValid) - 1 && Logical() == RemoveAt(V0[..old(numValid)], p)
      ensures found ==> true == OutsideStays(View(), V0, old(numValid) / 2, old(numValid) - 1)
      ensures !found ==> numValid == old(numValid) && View() == V0
      ensures synced && withFp && variant == Fingerprint ==> Synced(FpView()[..numValid], View()[..numValid], hash)
    {
      ghost var n, V1 := numValid, View();
      ghost var F1: seq<bv8> := if variant == Fingerprint then FpView() else [];
      ghost var on := synced && withFp && variant == Fingerprint;
      if found {
        numValid := numValid - 1;
        RightRemoveSynced(on, F0, F1, V0, V1, n, p, hash);
        RightRemoveStays(V1, V0, n, p, Entry(V0[n - 1].key, Null));
      }
    }

    /**
     * `remove_key` of the shifting layouts: a key below the middle record
     * is looked for in the left half, nearest the middle first, and the
     * records before it move one slot right while `first_index` moves
     * forward; any other key is looked for in the right half and the
     * records after it move one slot left.  Returns whether the key was
     * found.  Only the half that shifts is written: the window's first
     * n / 2 slots, or its slots from offset n / 2 on.  The fingerprints
     * move with the records only when `withFp`: the fingerprint layout's
     * `remove_key` leaves them (withFp false); withFp true is the removal
     * that keeps them in step with the records.
     */
    method RemoveShifting(key: Key, withFp: bool) returns (found: bool)
      requires Valid()
      modifies this`numValid, this`firstIndex, records, fingerprints
      ensures Shape() && numValid < cardinality && Sorted(Logical())
      ensures leftmost == Null || variant == Draft ==> Valid()
      ensures found <==> key in KeysOf(old(Logical()))
      ensures found ==> numValid == old(numValid) - 1
      ensures found ==>
        var q := CircularRemovePos(old(Logical()), key);
        0 <= q && old(Logical())[q].key == key && Logical() == RemoveAt(old(Logical()), q)
      ensures firstIndex ==
        if found && key < old(View())[old(numValid) / 2].key then Succ(old(firstIndex), cardinality)
        else old(firstIndex)
      ensures found && key < old(View())[old(numValid) / 2].key ==>
        true == HalfStaysForward(View(), old(View()), old(numValid))
      ensures found && old(View())[old(numValid) / 2].key <= key ==>
        true == OutsideStays(View(), old(View()), old(numValid) / 2, old(numValid) - 1)
      ensures !found ==> numValid == old(numValid) && View() == old(View())
      ensures !withFp ==> unchanged(fingerprints)
      ensures withFp && variant == Fingerprint && old(FpSynced()) ==>
        Synced(FpView()[..numValid], Logical(), hash)
    {
      if key < RecordAt(numValid / 2).key {
        found := RemoveLeftHalf(key, withFp);
      } else {
        found := RemoveRightHalf(key, withFp);
      }
    }

    /** The left branch of `remove_key`, for a key below the middle record. */
    method RemoveLeftHalf(key: Key, withFp: bool) returns (found: bool)
      requires Valid() && key < View()[numValid / 2].key
      modifies this`numValid, this`firstIndex, records, fingerprints
      ensures Shape() && numValid < cardinality && Sorted(Logical())
      ensures found <==> key in KeysOf(old(Logical()))
      ensures found ==>
        var q := CircularRemovePos(old(Logical()), key);
        numValid == old(numValid) - 1 && 0 <= q && old(Logical())[q].key == key &&
        Logical() == RemoveAt(old(Logical()), q)
      ensures firstIndex == if found then Succ(old(firstIndex), cardinality) else old(firstIndex)
      ensures found ==> true == HalfStaysForward(View(), old(View()), old(numValid))
      ensures !found ==> numValid == old(numValid) && View() == old(View())
      ensures !withFp ==> unchanged(fingerprints)
      ensures withFp && variant == Fingerprint && old(FpSynced()) ==>
        Synced(FpView()[..numValid], Logical(), hash)
    {
      ghost var s, synced := Logical(), FpSynced();
      ghost var V0 := View();
      ghost var F0: seq<bv8> := if variant == Fingerprint then FpView() else [];
      ghost var p: int;
      found, p := RemoveLeftPart(key, withFp, V0, F0);
      LandRemoveLeft(key, found, p, V0, F0, withFp, synced);
      CircularRemoveFinds(s, key);
      if found {
        RemoveAtSorted(s, p);
      }
    }

    /** The right branch of `remove_key`, for a key not below the middle record. */
    method RemoveRightHalf(key: Key, withFp: bool) returns (found: bool)
      requires Valid() && View()[numValid / 2].key <= key
      modifies this`numValid, records, fingerprints
      ensures Shape() && numValid < cardinality && Sorted(Logical())
      ensures found <==> key in KeysOf(old(Logical()))
      ensures found ==>
        var q := CircularRemovePos(old(Logical()), key);
        numValid == old(numValid) - 1 && 0 <= q && old(Logical())[q].key == key &&
        Logical() == RemoveAt(old(Logical()), q)
      ensures found ==> true == OutsideStays(View(), old(View()), old(numValid) / 2, old(numValid) - 1)
      ensures !found ==> numValid == old(numValid) && View() == old(View())
      ensures !withFp ==> unchanged(fingerprints)
      ensures withFp && variant == Fingerprint && old(FpSynced()) ==>
        Synced(FpView()[..numValid], Logical(), hash)
    {
      ghost var s, synced := Logical(), FpSynced();
      ghost var V0 := View();
      ghost var F0: seq<bv8> := if variant == Fingerprint then FpView() else [];
      ghost var p: int;
      found, p := RemoveRightPart(key, withFp, V0, F0);
      LandRemoveRight(key, found, p, V0, F0, withFp, synced);
      CircularRemoveFinds(s, key);
      if found {
        RemoveAtSorted(s, p);
      }
    }

    /**
     * `remove_key` of the draft layout, which returns from its first
     * branch: a key equal to the first record's moves that record's
     * pointer into `leftmost_ptr` and nulls it; any other key nulls the
     * pointer of the last live record.  No key leaves the window and the
     * result is always true.
     */
    method DraftRemoveKey(key: Key) returns (r: bool)
      requires Valid() && variant == Draft
      modifies records, fingerprints, this`leftmost
      ensures Valid() && r
      ensures numValid == old(numValid) && firstIndex == old(firstIndex) && unchanged(fingerprints)
      ensures KeysOf(View()) == KeysOf(old(View()))
      ensures key == old(View())[0].key ==>
        View() == old(View())[0 := Entry(key, Null)] && leftmost == old(View())[0].ptr
      ensures key != old(View())[0].key ==>
        var last := Wrap(numValid - 1, cardinality);
        View() == old(View())[last := Entry(old(View())[last].key, Null)] && leftmost == old(leftmost)
    {
      ghost var V0 := View();
      ghost var j: nat;
      if key == RecordAt(0).key {
        var moved := RecordAt(0).ptr;
        PutSlot(0, Entry(key, Null), false);
        leftmost := moved;
        j := 0;
      } else {
        var last := Wrap(numValid - 1, cardinality);
        PutSlot(numValid - 1, Entry(RecordAt(last).key, Null), false);
        j := last;
      }
      assert KeysOf(View()) == KeysOf(V0) && Sorted(Logical()) by {
        ClearPtrKeys(V0, j, numValid);
      }
      r := true;
    }

    /** `remove_key` of the YCSB layout: it returns true and changes nothing. */
    method YcsbRemoveKey(key: Key) returns (r: bool)
      requires variant == Ycsb
      ensures r
    {
      r := true;
    }

    /**
     * `update_key` of the YCSB layout: on a leaf, the value of the first
     * live record with the key gets data copied in at byte
     * `offset * field_size`; an internal page or a missing key writes
     * nothing.
     */
    method UpdateKey(key: Key, data: seq<bv8>, offset: int, fieldSize: nat, mem: Values)
      requires Valid() && variant == Ycsb
      requires leftmost == Null ==> Writable(Lookup(Logical(), key), mem.bufs, offset * fieldSize, StrLen(data))
      modifies mem
      ensures leftmost == Null ==> mem.bufs == WriteValue(old(mem.bufs), Lookup(Logical(), key), offset * fieldSize, data)
      ensures leftmost != Null ==> unchanged(mem)
    {
      if leftmost == Null {
        var ret := ScanLeaf(key);
        if ret.Val? {
          mem.bufs := mem.bufs[ret.addr := Overwrite(mem.bufs[ret.addr], offset * fieldSize, data)];
        }
      }
    }

    /**
     * The checks `update` makes before `update_key`: a deleted page
     * refuses, a key above the right sibling's first live key goes to the
     * sibling, otherwise the update happens here.
     */
    function UpdateRoute(key: Key): (r: UpdateResult<Page>)
      reads this`isDeleted, this`rightSibling, rightSibling, if rightSibling != null then {rightSibling.records} else {}
      requires rightSibling != null ==> rightSibling.Shape()
      ensures r.Refused? <==> isDeleted
      ensures r.MoveRight? <==> !isDeleted && rightSibling != null && key > rightSibling.View()[0].key
      ensures r.MoveRight? ==> r.next == rightSibling
    {
      if isDeleted then Refused
      else if rightSibling != null && key > rightSibling.RecordAt(0).key then var s: Page := rightSibling; MoveRight(s)
      else Updated
    }

    /** `update` of the YCSB layout: UpdateRoute's checks, then `update_key` when the update happens here. */
    method Update(key: Key, data: seq<bv8>, offset: int, fieldSize: nat, mem: Values) returns (r: UpdateResult<Page>)
      requires Valid() && variant == Ycsb
      requires rightSibling != null ==> rightSibling.Shape()
      requires leftmost == Null ==> Writable(Lookup(Logical(), key), mem.bufs, offset * fieldSize, StrLen(data))
      modifies mem
      ensures r == UpdateRoute(key)
      ensures !r.Updated? || leftmost != Null ==> unchanged(mem)
      ensures r.Updated? && leftmost == Null ==>
        mem.bufs == WriteValue(old(mem.bufs), Lookup(Logical(), key), offset * fieldSize, data)
    {
      r := UpdateRoute(key);
      if r.Updated? {
        UpdateKey(key, data, offset, fieldSize, mem);
      }
    }

    /** The fingerprint at logical offset d: `buffer_records[get_index(first_index + d)]`. */
    function FpAt(d: int): (r: bv8)
      reads this, fingerprints
      requires Shape() && variant == Fingerprint && 0 <= d < cardinality
      ensures r == FpView()[d]
    {
      RotAt(fingerprints[..], firstIndex, d);
      fingerprints[(firstIndex + d) % cardinality]
    }

    /**
     * What the leaf scan of `linear_search` yields before the sibling
     * check: the pointer of the first record with the key among the live
     * records (Single, Ycsb), among the live records whose fingerprint is
     * the key's hash (Fingerprint), or among the physical slots of
     * DraftRange (Draft); Null if there is none.
     */
    ghost function LeafHit(key: Key): (r: Ptr<Page>)
      reads this, records, fingerprints
      requires Shape() && numValid < cardinality
    {
      if variant == Draft then DraftHit(records[..], firstIndex, numValid, key)
      else if variant == Fingerprint then
        var j := FindFiltered(FpView()[..numValid], Logical(), key, hash(key), 0);
        if j < 0 then Null else Logical()[j].ptr
      else Lookup(Logical(), key)
    }

    /**
     * The leaf scan of `linear_search` in the layouts other than the
     * draft: the first live record with the key (and, in the Fingerprint
     * layout, whose fingerprint is the key's hash) gives its pointer.
     */
    method ScanLeaf(key: Key) returns (ret: Ptr<Page>)
      requires Shape() && numValid < cardinality && variant != Draft
      ensures ret == LeafHit(key)
    {
      var n := numValid;
      var hv := hash(key);
      ghost var s := Logical();
      ghost var F: seq<bv8> := if variant == Fingerprint then FpView()[..n] else [];
      ghost var filtered := variant == Fingerprint;
      var i := 0;
      while i < n
        invariant i <= n
        invariant !filtered ==> FindForward(s, key, 0) == FindForward(s, key, i)
        invariant filtered ==> FindFiltered(F, s, key, hv, 0) == FindFiltered(F, s, key, hv, i)
      {
        var rec := RecordAt(i);
        if (variant != Fingerprint || hv == FpAt(i)) && key == rec.key {
          return rec.ptr;
        }
        i := i + 1;
      }
      return Null;
    }

    /**
     * The leaf scan of the draft layout's `linear_search`: the physical
     * slots of DraftWindow in order, the first with the key giving its
     * pointer.
     */
    method DraftScanLeaf(key: Key) returns (ret: Ptr<Page>)
      requires Shape() && numValid < cardinality && variant == Draft
      ensures ret == DraftHit(records[..], firstIndex, numValid, key)
    {
      var first := firstIndex;
      var last := GetIndex(firstIndex + numValid - 1);
      assert last == LastSlot(firstIndex, numValid, records.Length);
      var lo, hi;
      if last > first {
        lo, hi := first, last + 1;
      } else if key < records[0].key {
        lo, hi := first, cardinality;
      } else {
        lo, hi := 0, last + 1;
      }
      assert (lo, hi) == DraftWindow(records[..], firstIndex, numValid, key);
      ret := ScanSlots(key, lo, hi);
    }

    /** The physical slots lo .. hi - 1 in order: the first holding the key gives its pointer. */
    method ScanSlots(key: Key, lo: nat, hi: nat) returns (ret: Ptr<Page>)
      requires lo <= hi <= records.Length
      ensures ret == ScanHit(records[..], key, lo, hi)
    {
      var i := lo;
      while i < hi
        invariant lo <= i <= hi
        invariant FindForward(records[..hi], key, lo) == FindForward(records[..hi], key, i)
      {
        if records[i].key == key {
          return records[i].ptr;
        }
        i := i + 1;
      }
      return Null;
    }

    /**
     * What the leaf scan yields is the plain lookup in the live records:
     * always in the Single and Ycsb layouts, with the fingerprints in step
     * in the Fingerprint layout, and in the draft layout when the page
     * holds at least two records with distinct keys.
     */
    lemma LeafHitIsLookup(key: Key)
      requires Valid() && FpSynced()
      requires variant == Draft ==> numValid >= 2 && StrictlySorted(Logical())
      ensures LeafHit(key) == Lookup(Logical(), key)
    {
      if variant == Fingerprint {
        FindFilteredSynced(FpView()[..numValid], Logical(), key, hash, 0);
      } else if variant == Draft {
        DraftHitIsLookup(records[..], firstIndex, numValid, key);
      }
    }

    /** The pointer `linear_search` falls back to: the right sibling when the key reaches its first key. */
    ghost function SiblingFor(key: Key, firstKey: Key): (r: Ptr<Page>)
      reads this
      ensures r != Null <==> rightSibling != null && key >= firstKey
    {
      if rightSibling != null && key >= firstKey then Child(rightSibling as Page) else Null
    }

    /**
     * `linear_search` on a leaf: the pointer the leaf scan yields if it is
     * non-null, else the right sibling when the key reaches the sibling's
     * first live key, else Null.
     */
    method SearchLeaf(key: Key) returns (r: Ptr<Page>)
      requires Shape() && numValid < cardinality
      requires rightSibling != null ==> rightSibling.Shape()
      ensures r == if LeafHit(key) != Null then LeafHit(key)
                   else SiblingFor(key, if rightSibling != null then rightSibling.View()[0].key else key)
    {
      var ret;
      if variant == Draft {
        ret := DraftScanLeaf(key);
      } else {
        ret := ScanLeaf(key);
      }
      if ret != Null {
        return ret;
      }
      if rightSibling != null && key >= rightSibling.RecordAt(0).key {
        return Child(rightSibling as Page);
      }
      return Null;
    }

    /**
     * The internal scan loop of the draft layout over slots lo .. hi - 1:
     * each key above the search key replaces the pointer by its own, the
     * first key not above it ends the scan.
     */
    method RunAbove(key: Key, lo: nat, hi: nat, init: Ptr<Page>) returns (ret: Ptr<Page>)
      requires lo <= hi <= records.Length
      ensures ret == LastAbove(records[..], key, lo, hi, init)
    {
      ret := init;
      var i := lo;
      while i < hi
        invariant lo <= i <= hi
        invariant LastAbove(records[..], key, lo, hi, init) == LastAbove(records[..], key, i, hi, ret)
      {
        if records[i].key > key {
          ret := records[i].ptr;
        } else {
          break;
        }
        i := i + 1;
      }
    }

    /**
     * The internal scan of the draft layout's `linear_search`: the ranges
     * of DraftWindow, `leftmost_ptr` below the first scanned key (checked
     * in the contiguous and the left part only), then the run of keys
     * above the search key.
     */
    method DraftScanInternal(key: Key) returns (ret: Ptr<Page>)
      requires Shape() && numValid < cardinality && variant == Draft
      ensures ret == DraftRoute(records[..], firstIndex, numValid, key, leftmost)
    {
      var first := firstIndex;
      var last := GetIndex(firstIndex + numValid - 1);
      if last > first {
        if key < records[first].key {
          ret := leftmost;
        } else {
          ret := RunAbove(key, first, last + 1, records[first].ptr);
        }
      } else if key < records[0].key {
        if key < records[first].key {
          ret := leftmost;
        } else {
          ret := RunAbove(key, first, cardinality, records[first].ptr);
        }
      } else {
        ret := RunAbove(key, 0, last + 1, records[0].ptr);
      }
    }

    /**
     * `linear_search` on an internal page of the draft layout: the right
     * sibling when the key reaches the sibling's first live key, otherwise
     * what the internal scan yields.
     */
    method DraftSearchInternal(key: Key) returns (r: Ptr<Page>)
      requires Shape() && numValid < cardinality && variant == Draft
      requires rightSibling != null ==> rightSibling.Shape()
      ensures var sib := SiblingFor(key, if rightSibling != null then rightSibling.View()[0].key else key);
        r == if sib != Null then sib else DraftRoute(records[..], firstIndex, numValid, key, leftmost)
    {
      var ret := DraftScanInternal(key);
      if rightSibling != null && key >= rightSibling.RecordAt(0).key {
        return Child(rightSibling as Page);
      }
      return ret;
    }

    /**
     * The records an internal page of the non-draft layouts routes over:
     * physical slots 0 .. n - 1 (slot 0 alone when the page is empty).
     */
    ghost function RouteRecords(): (r: seq<Rec>)
      reads this, records
      requires Shape() && numValid < cardinality
      ensures |r| == if numValid == 0 then 1 else numValid
    {
      records[..if numValid == 0 then 1 else numValid]
    }

    /**
     * The internal scan of `linear_search` (non-draft layouts, records
     * from slot 0): `leftmost_ptr` below the first key, otherwise the
     * pointer of the record before the first key above `key`, or of the
     * last record.
     */
    method ScanInternal(key: Key) returns (ret: Ptr<Page>)
      requires Shape() && numValid < cardinality
      ensures ret == Route(RouteRecords(), key, leftmost)
    {
      ghost var s := RouteRecords();
      if key < records[0].key {
        return leftmost;
      }
      var n := numValid;
      var i := 1;
      ret := Null;
      while i < n
        invariant 1 <= i <= |s|
        invariant FirstAbove(s, key, 1) == FirstAbove(s, key, i)
      {
        if key < records[i].key {
          ret := records[i - 1].ptr;
          break;
        }
        i := i + 1;
      }
      if ret == Null {
        ret := records[i - 1].ptr;
      }
    }

    /**
     * `linear_search` on an internal page of the non-draft layouts: the
     * right sibling when the key reaches the sibling's slot-0 key,
     * otherwise the routed child, or `leftmost_ptr` when that is null.
     * On a valid page the routed child is the one whose key range holds
     * the key.
     */
    method SearchInternal(key: Key) returns (r: Ptr<Page>)
      requires Valid() && variant != Draft && leftmost != Null
      requires rightSibling != null ==> rightSibling.Shape()
      ensures var sib := SiblingFor(key, if rightSibling != null then rightSibling.records[0].key else key);
        r == if sib != Null then sib
             else if Route(RouteRecords(), key, leftmost) != Null then Route(RouteRecords(), key, leftmost)
             else leftmost
      ensures numValid > 0 ==> RouteRecords() == Logical()
    {
      assert numValid > 0 ==> RouteRecords() == Logical() by {
        RotZero(records[..]);
      }
      var ret := ScanInternal(key);
      if rightSibling != null && key >= rightSibling.records[0].key {
        return Child(rightSibling as Page);
      }
      r := if ret != Null then ret else leftmost;
    }

    /**
     * `insert_key` of a record whose key is at least every key present on
     * a leftmost-free page that starts at slot 0: the record lands at the
     * end and `first_index` stays 0.
     */
    method AppendRecord(e: Rec, ghost L: seq<Rec>)
      requires Valid() && leftmost == Null && firstIndex == 0 && Logical() == L
      requires numValid < cardinality - 1
      requires forall j :: 0 <= j < |L| ==> L[j].key <= e.key
      modifies this`firstIndex, this`numValid, records, fingerprints
      ensures Valid() && firstIndex == 0 && Logical() == L + [e]
      ensures old(FpSynced()) ==> FpSynced()
    {
      AppendInsert(L, e);
      assert !GoesLeft(e.key) by {
        if numValid > 0 {
          assert L[numValid / 2].key <= e.key;
        }
      }
      InsertKey(e.key, e.ptr);
    }

    /**
     * One pass of the split's migration loop: the record at logical offset
     * i is inserted into the new sibling, where it lands at the end, and
     * its pointer is nulled here.
     */
    method MoveStep(sib: Page, i: nat, from: nat, ghost V0: seq<Rec>)
      requires Shape() && from <= i < numValid < cardinality && |V0| == cardinality
      requires Sorted(V0[..numValid]) && View() == ClearPtrs(V0, from, i)
      requires sib != this && {sib.records as object, sib.fingerprints} !! {records as object, fingerprints}
      requires sib.Valid() && true == sib.FpSynced() && sib.cardinality == cardinality
      requires sib.leftmost == Null && sib.firstIndex == 0 && sib.Logical() == V0[from..i]
      modifies records, fingerprints, sib`firstIndex, sib`numValid, sib.records, sib.fingerprints
      ensures View() == ClearPtrs(V0, from, i + 1) && unchanged(fingerprints)
      ensures sib.Valid() && true == sib.FpSynced() && sib.firstIndex == 0
      ensures sib.Logical() == V0[from..i + 1]
    {
      var e := RecordAt(i);
      assert e == V0[i];
      SortedSliceBelow(V0[..numValid], from, i);
      assert V0[..numValid][from..i] == V0[from..i];
      assert V0[from..i] + [e] == V0[from..i + 1];
      sib.AppendRecord(e, V0[from..i]);
      PutSlot(i, Entry(e.key, Null), false);
      ClearPtrsStep(V0, from, i);
    }

    /**
     * The migration loop of a split: for i from `start` to `moveNum`, the
     * record at logical offset half + i (slot `get_index(m + i)`) goes to
     * the sibling and its pointer is nulled here.
     */
    method MigrateHalf(sib: Page, half: nat, start: nat, moveNum: nat, ghost V0: seq<Rec>)
      requires Shape() && half + start <= half + moveNum + 1 <= numValid < cardinality
      requires |V0| == cardinality && Sorted(V0[..numValid]) && View() == V0
      requires sib != this && {sib.records as object, sib.fingerprints} !! {records as object, fingerprints}
      requires sib.Valid() && true == sib.FpSynced() && sib.cardinality == cardinality
      requires sib.leftmost == Null && sib.firstIndex == 0 && sib.numValid == 0
      modifies records, fingerprints, sib`firstIndex, sib`numValid, sib.records, sib.fingerprints
      ensures View() == ClearPtrs(V0, half + start, half + moveNum + 1) && unchanged(fingerprints)
      ensures sib.Valid() && true == sib.FpSynced() && sib.firstIndex == 0
      ensures sib.Logical() == V0[half + start..half + moveNum + 1]
    {
      assert ClearPtrs(V0, half + start, half + start) == V0;
      var i := start;
      while i <= moveNum
        invariant start <= i <= moveNum + 1
        invariant View() == ClearPtrs(V0, half + start, half + i) && unchanged(fingerprints)
        invariant sib.Valid() && true == sib.FpSynced() && sib.firstIndex == 0
        invariant sib.Logical() == V0[half + start..half + i]
      {
        MoveStep(sib, half + i, half + start, V0);
        i := i + 1;
      }
    }

    /**
     * Where `store` splits a full page (n == cardinality - 1): the median
     * offset `ceil(n / 2)` (integer division), its slot m, the split key
     * read there, and `move_num`, the wrap-aware distance from m to the
     * slot of the last live record.  That distance is the number of live
     * records after the median, wherever the window wraps.
     */
    method SplitPoint() returns (half: nat, splitKey: Key, moveNum: nat)
      requires Valid() && numValid == cardinality - 1
      ensures half == numValid / 2 && half < numValid
      ensures splitKey == Logical()[half].key
      ensures half + moveNum + 1 == numValid
    {
      var n := numValid;
      half := n / 2;
      var m := GetIndex(firstIndex + half);
      splitKey := RecordAt(half).key;  // records[m]
      var last := GetLastIdx();
      moveNum := if m < last then last - m else cardinality - m + last;
      SplitMoveCount(firstIndex, n, cardinality, m, last);
    }

    /**
     * The first half of a split of a full page (n == cardinality - 1): a
     * fresh sibling at the same level receives the records after offset
     * n / 2, from n / 2 itself on a leaf; an internal page hands the
     * median's pointer to the sibling's `leftmost_ptr` instead.  The moved
     * records keep their keys here, with null pointers.
     */
    method FillSibling() returns (sibling: Page, splitKey: Key, half: nat)
      requires Valid() && numValid == cardinality - 1
      modifies records, fingerprints
      ensures fresh(sibling) && fresh(sibling.records) && fresh(sibling.fingerprints)
      ensures true == sibling.Valid() && true == sibling.FpSynced() && sibling.firstIndex == 0
      ensures sibling.variant == variant && sibling.cardinality == cardinality
      ensures sibling.level == level && sibling.hash == hash && !sibling.isDeleted
      ensures sibling.rightSibling == null && sibling.leftSibling == null
      ensures half == numValid / 2 && splitKey == old(Logical())[half].key
      ensures var from := if leftmost == Null then half else half + 1;
        View() == ClearPtrs(old(View()), from, numValid) &&
        sibling.Logical() == Moved(old(Logical()), half, leftmost != Null) &&
        sibling.leftmost == (if leftmost == Null then Null else old(View())[half].ptr)
      ensures unchanged(fingerprints)
    {
      ghost var V0 := View();
      sibling := new Page(variant, cardinality, level, hash);
      var moveNum;
      half, splitKey, moveNum := SplitPoint();
      // a leaf moves offsets half .. n - 1, an internal page half + 1 .. n - 1
      var start := if leftmost == Null then 0 else 1;
      MigrateHalf(sibling, half, start, moveNum, V0);
      if leftmost != Null {
        sibling.leftmost := RecordAt(half).ptr;
      }
    }

    /**
     * The end of a split: `records[m].ptr = nullptr` on the median and
     * `num_valid_key -= sibling_cnt`.  What is left is the first n / 2
     * records on a leaf, and those plus the median (now without a pointer)
     * on an internal page.
     */
    method TrimAfterSplit(half: nat, splitKey: Key, siblingCnt: nat, ghost V0: seq<Rec>, ghost s: seq<Rec>,
                          ghost synced: bool)
      requires Shape() && half < numValid < cardinality && |V0| == cardinality
      requires s == V0[..numValid] && splitKey == s[half].key && Sorted(s)
      requires var keep := if leftmost != Null then half + 1 else half;
        siblingCnt == numValid - keep && View() == ClearPtrs(V0, keep, numValid)
      requires synced && variant == Fingerprint ==> Synced(FpView()[..numValid], V0[..numValid], hash)
      requires variant != Draft && leftmost != Null ==> firstIndex == 0
      modifies this`numValid, records, fingerprints
      ensures true == Valid() && (synced ==> true == FpSynced()) && unchanged(fingerprints)
      ensures Logical() == Kept(s, half, leftmost != Null)
    {
      ghost var n := numValid;
      ghost var on := synced && variant == Fingerprint;
      ghost var F: seq<bv8> := if on then FpView() else [];
      PutSlot(half, Entry(splitKey, Null), false);
      numValid := numValid - siblingCnt;
      SplitKeeps(V0, View(), F, n, half, numValid, leftmost != Null, on, hash);
      assert V0[..half] == s[..half];
    }

    /**
     * The linking step of a split: the sibling takes over this page's right
     * sibling (and, in the draft layout, points back to this page), is
     * flushed, and only then becomes this page's right sibling.
     */
    method LinkSibling(sibling: Page) returns (ghost trace: seq<SplitEvent>)
      requires sibling != this && sibling.Shape() && sibling.numValid <= sibling.cardinality
      modifies this`rightSibling, sibling`rightSibling, sibling`leftSibling
      ensures sibling.rightSibling == old(rightSibling) && rightSibling == sibling
      ensures sibling.leftSibling == if variant == Draft then this else old(sibling.leftSibling)
      ensures trace == [Flushed(sibling, old(rightSibling), sibling.Logical(), sibling.leftmost),
                        Published(this, sibling)]
    {
      sibling.rightSibling := rightSibling;
      if variant == Draft {
        sibling.leftSibling := this;
      }
      trace := [Flushed(sibling, sibling.rightSibling, sibling.Logical(), sibling.leftmost)];
      rightSibling := sibling;
      trace := trace + [Published(this, sibling)];
    }

    /**
     * The split half of `store` on a full page: after `FillSibling`, the
     * sibling inherits the old right sibling (and, in the draft layout,
     * links back to this page), is flushed, and only then is published as
     * this page's right sibling; then `TrimAfterSplit`.  An internal page
     * keeps the median counted.
     */
    method SplitOff() returns (sibling: Page, splitKey: Key, ghost trace: seq<SplitEvent>)
      requires Valid() && numValid == cardinality - 1
      modifies this`numValid, this`rightSibling, records, fingerprints
      ensures fresh(sibling) && fresh(sibling.records) && fresh(sibling.fingerprints)
      ensures true == Valid() && (old(FpSynced()) ==> true == FpSynced())
      ensures true == sibling.Valid() && true == sibling.FpSynced()
      ensures sibling.variant == variant && sibling.cardinality == cardinality
      ensures sibling.level == level && sibling.hash == hash && !sibling.isDeleted
      ensures var s, h := old(Logical()), old(numValid) / 2;
        splitKey == s[h].key &&
        Logical() == Kept(s, h, leftmost != Null) && sibling.Logical() == Moved(s, h, leftmost != Null) &&
        sibling.leftmost == if leftmost == Null then Null else s[h].ptr
      ensures sibling.firstIndex == 0 && unchanged(fingerprints)
      ensures numValid < cardinality - 1 && sibling.numValid < cardinality - 1
      ensures sibling.rightSibling == old(rightSibling) && rightSibling == sibling
      ensures sibling.leftSibling == (if variant == Draft then this else null)
      ensures trace == [Flushed(sibling, old(rightSibling), sibling.Logical(), sibling.leftmost),
                        Published(this, sibling)]
    {
      ghost var V0, s, n, synced := View(), Logical(), numValid, FpSynced();
      var half;
      sibling, splitKey, half := FillSibling();
      ghost var keep := if leftmost != Null then half + 1 else half;
      assert sibling.numValid == n - keep by {
        assert |sibling.Logical()| == n - keep;
      }
      label filled:
      trace := LinkSibling(sibling);
      TrimAfterSplit(half, splitKey, sibling.Count(), V0, s, synced);
      assert unchanged@filled(sibling`firstIndex, sibling`numValid, sibling`leftmost, sibling.records, sibling.fingerprints);
    }

    /** Whether `insert_key` takes the linear path on this page. */
    ghost predicate InsertsLinearly()
      reads this`leftmost
    {
      leftmost != Null && variant != Draft
    }

    /**
     * The key `store` compares with before handing a key to the right
     * sibling: the sibling's record at its `first_index` (Single, Draft)
     * or at slot 0 (Fingerprint, Ycsb).
     */
    ghost function SiblingStoreKey(): Key
      reads this, rightSibling, if rightSibling != null then {rightSibling.records} else {}
      requires rightSibling != null && rightSibling.Shape()
    {
      if variant == Fingerprint || variant == Ycsb then rightSibling.records[0].key
      else rightSibling.View()[0].key
    }

    /**
     * The last step of the FAIR path: the new record goes to this page
     * when its key is below the split key, to the sibling otherwise.
     */
    method PlaceAfterSplit(sibling: Page, splitKey: Key, key: Key, ptr: Ptr<Page>,
                           ghost s: seq<Rec>, ghost internal: bool, ghost synced: bool)
      returns (at: Page)
      requires true == Valid() && (synced ==> true == FpSynced()) && numValid < cardinality - 1
      requires true == sibling.Valid() && true == sibling.FpSynced()
      requires sibling.numValid < sibling.cardinality - 1
      requires sibling != this && {sibling.records as object, sibling.fingerprints} !! {records as object, fingerprints}
      requires |s| > 0 && true == SplitShape(s, internal, splitKey, sibling)
      requires Logical() == Kept(s, |s| / 2, internal) && sibling.Logical() == Moved(s, |s| / 2, internal)
      modifies this`numValid, this`firstIndex, records, fingerprints
      modifies sibling`numValid, sibling`firstIndex, sibling.records, sibling.fingerprints
      ensures true == SplitOutcome(s, internal, Entry(key, ptr), at, splitKey, sibling)
      ensures synced ==> true == FpSynced()
    {
      ghost var h := |s| / 2;
      if key < splitKey {
        InsertKey(key, ptr);
        assert unchanged(sibling, sibling.records, sibling.fingerprints);
        at := this;
        SplitOutcomeHere(s, internal, Entry(key, ptr), splitKey, sibling);
      } else {
        sibling.InsertKey(key, ptr);
        assert unchanged(this, records, fingerprints);
        at := sibling;
        SplitOutcomeThere(s, internal, Entry(key, ptr), splitKey, sibling);
      }
    }

    /** SplitOutcome when e went to this page, as PlaceAfterSplit establishes it. */
    lemma SplitOutcomeHere(s: seq<Rec>, internal: bool, e: Rec, splitKey: Key, sibling: Page)
      requires |s| > 0 && true == Valid() && e.key < splitKey
      requires true == sibling.Valid() && true == sibling.FpSynced()
      requires true == SplitShape(s, internal, splitKey, sibling)
      requires sibling.Logical() == Moved(s, |s| / 2, internal)
      requires Logical() == Insertion(InsertsLinearly(), Kept(s, |s| / 2, internal), e)
      ensures SplitOutcome(s, internal, e, this, splitKey, sibling)
    {
    }

    /** SplitOutcome when e went to the sibling, as PlaceAfterSplit establishes it. */
    lemma SplitOutcomeThere(s: seq<Rec>, internal: bool, e: Rec, splitKey: Key, sibling: Page)
      requires |s| > 0 && true == Valid() && splitKey <= e.key
      requires true == sibling.Valid() && true == sibling.FpSynced()
      requires true == SplitShape(s, internal, splitKey, sibling)
      requires Logical() == Kept(s, |s| / 2, internal)
      requires sibling.Logical() == Insertion(sibling.InsertsLinearly(), Moved(s, |s| / 2, internal), e)
      ensures SplitOutcome(s, internal, e, sibling, splitKey, sibling)
    {
    }

    /**
     * What splitting a page holding s (an internal page when `internal`)
     * and storing e leaves: the split key is the key at offset
     * h = |s| / 2; the sibling has this page's layout and, on an internal
     * page, the median's pointer as its `leftmost_ptr`; this page keeps
     * Kept(s, h, internal) and the sibling holds Moved(s, h, internal),
     * with e inserted on the side its key selects.  The sibling's
     * fingerprints are in step with its records.
     */
    ghost predicate SplitOutcome(s: seq<Rec>, internal: bool, e: Rec, at: Page, splitKey: Key, sibling: Page)
      reads this`firstIndex, this`numValid, this`leftmost, records, fingerprints
      reads sibling, sibling.records, sibling.fingerprints
      requires |s| > 0
    {
      SplitShape(s, internal, splitKey, sibling) &&
      Valid() && sibling.Valid() && sibling.FpSynced() &&
      SplitSides(s, internal, e, at, splitKey, sibling)
    }

    /** The layout part of SplitOutcome, which storing the new record leaves alone. */
    ghost predicate SplitShape(s: seq<Rec>, internal: bool, splitKey: Key, sibling: Page)
      reads this`leftmost, sibling`leftmost, sibling`isDeleted
      requires |s| > 0
    {
      var h := |s| / 2;
      sibling.variant == variant && sibling.cardinality == cardinality &&
      sibling.level == level && sibling.hash == hash && !sibling.isDeleted &&
      internal == (leftmost != Null) &&
      splitKey == s[h].key && sibling.leftmost == (if internal then s[h].ptr else Null)
    }

    /** The contents part of SplitOutcome: each side's records, e on the side its key selects. */
    ghost predicate SplitSides(s: seq<Rec>, internal: bool, e: Rec, at: Page, splitKey: Key, sibling: Page)
      reads this`firstIndex, this`numValid, this`leftmost, records
      reads sibling`firstIndex, sibling`numValid, sibling`leftmost, sibling.records
      requires |s| > 0 && Shape() && numValid < cardinality && sibling.Shape() && sibling.numValid < sibling.cardinality
    {
      var h := |s| / 2;
      (e.key < splitKey ==>
        at == this && sibling.Logical() == Moved(s, h, internal) &&
        Logical() == Insertion(InsertsLinearly(), Kept(s, h, internal), e)) &&
      (splitKey <= e.key ==>
        at == sibling && Logical() == Kept(s, h, internal) &&
        sibling.Logical() == Insertion(sibling.InsertsLinearly(), Moved(s, h, internal), e))
    }

    /**
     * The FAIR path of `store` on a full page: split, then insert the new
     * record on this page when its key is below the split key and on the
     * sibling otherwise.
     */
    method SplitAndStore(key: Key, ptr: Ptr<Page>)
      returns (at: Page, splitKey: Key, sibling: Page, ghost trace: seq<SplitEvent>)
      requires Valid() && numValid == cardinality - 1
      modifies this`numValid, this`firstIndex, this`rightSibling, records, fingerprints
      ensures fresh(sibling) && fresh(sibling.records) && fresh(sibling.fingerprints)
      ensures true == SplitOutcome(old(Logical()), leftmost != Null, Entry(key, ptr), at, splitKey, sibling)
      ensures old(FpSynced()) ==> true == FpSynced()
      ensures sibling.rightSibling == old(rightSibling) && rightSibling == sibling
      ensures sibling.leftSibling == (if variant == Draft then this else null)
      ensures |trace| == 2 && trace[1] == Published(this, sibling)
      ensures trace[0].Flushed? && trace[0].page == sibling && trace[0].right == old(rightSibling)
    {
      ghost var s, internal, synced := Logical(), leftmost != Null, FpSynced();
      sibling, splitKey, trace := SplitOff();
      at := PlaceAfterSplit(sibling, splitKey, key, ptr, s, internal, synced);
    }

    /**
     * `store`: a deleted page (Fingerprint, Ycsb) refuses; a key above the
     * right sibling's first key goes to the sibling (unless that sibling
     * is `invalid`); a page with room inserts in place (FAST); a full page
     * splits (FAIR).
     */
    method Store(key: Key, ptr: Ptr<Page>, invalid: Page?) returns (r: StoreResult, ghost trace: seq<SplitEvent>)
      requires Valid()
      requires rightSibling != null ==> rightSibling.Shape()
      modifies this`numValid, this`firstIndex, this`rightSibling, records, fingerprints
      ensures r.Deleted? <==> old(isDeleted) && (variant == Fingerprint || variant == Ycsb)
      ensures r.Forward? <==> !r.Deleted? && old(rightSibling) != null && old(rightSibling) != invalid &&
                              key > old(SiblingStoreKey())
      ensures r.Forward? ==> r.next == old(rightSibling)
      ensures r.Deleted? || r.Forward? ==> unchanged(this, records, fingerprints) && trace == []
      ensures r.Stored? <==> !r.Deleted? && !r.Forward? && old(numValid) < cardinality - 1
      ensures r.Stored? ==>
        r.at == this && true == Valid() && (old(FpSynced()) ==> true == FpSynced()) && trace == [] &&
        Logical() == Insertion(InsertsLinearly(), old(Logical()), Entry(key, ptr)) &&
        rightSibling == old(rightSibling)
      ensures r.SplitStored? ==>
        old(numValid) > 0 && true == SplitOutcome(old(Logical()), leftmost != Null, Entry(key, ptr), r.at, r.splitKey, r.sibling) &&
        fresh(r.sibling.records) && fresh(r.sibling.fingerprints)
      ensures r.SplitStored? ==>
        true == Valid() && (old(FpSynced()) ==> true == FpSynced()) && fresh(r.sibling) &&
        rightSibling == r.sibling && r.sibling.rightSibling == old(rightSibling) &&
        |trace| == 2 && trace[1] == Published(this, r.sibling) && trace[0].Flushed? && trace[0].page == r.sibling
    {
      trace := [];
      if (variant == Fingerprint || variant == Ycsb) && isDeleted {
        return Deleted, trace;
      }
      if rightSibling != null && rightSibling != invalid {
        var first := if variant == Fingerprint || variant == Ycsb then rightSibling.records[0].key
                     else rightSibling.RecordAt(0).key;
        if key > first {
          return Forward(rightSibling), trace;
        }
      }
      if numValid < cardinality - 1 {
        InsertKey(key, ptr);
        return Stored(this), trace;
      }
      var at, splitKey, sibling;
      at, splitKey, sibling, trace := SplitAndStore(key, ptr);
      r := SplitStored(at, splitKey, sibling);
    }

    /** `get_index(idx)`: `idx & (cardinality - 1)` on a 32-bit index is its slot in the ring. */
    function GetIndex(idx: int): (r: nat)
      reads this
      requires Shape() && -0x8000_0000 <= idx < 0x8000_0000
      ensures r < cardinality && r == idx % cardinality
    {
      Ring.MaskIsMod(idx, cardinality);
      Ring.Mask(idx, cardinality)
    }

    /** `get_last_idx()`: the slot of the last live record. */
    function GetLastIdx(): (r: nat)
      reads this, records, fingerprints
      requires Valid() && numValid > 0
      ensures r < cardinality && records[r] == Logical()[numValid - 1]
      ensures r == (firstIndex + numValid - 1) % cardinality
    {
      RotAt(records[..], firstIndex, numValid - 1);
      GetIndex(firstIndex + numValid - 1)
    }
  }

  /** A fresh Fingerprint leaf holding keys 1, 2 and 3, filled by `insert_key`. */
  method PageOfThree(h: Key -> bv8) returns (p: Page)
    ensures fresh(p) && fresh(p.records) && fresh(p.fingerprints)
    ensures p.Valid() && p.variant == Fingerprint && p.hash == h && p.leftmost == Null
    ensures p.FpSynced()
    ensures p.Logical() == [Entry(1, Val(1)), Entry(2, Val(2)), Entry(3, Val(3))]
  {
    p := new Page(Fingerprint, 4, 0, h);
    ghost var e1, e2, e3 := Entry(1, Val(1)), Entry(2, Val(2)), Entry(3, Val(3));
    p.InsertKey(1, Val(1));
    assert p.Logical() == [e1] by { assert InsertAt([], 0, e1) == [e1]; }
    p.InsertKey(2, Val(2));
    assert p.Logical() == [e1, e2] by {
      assert UpperBound([e1], 2, 1) == 1;
      assert InsertAt([e1], 1, e2) == [e1, e2];
    }
    p.InsertKey(3, Val(3));
    assert p.Logical() == [e1, e2, e3] by {
      assert UpperBound([e1, e2], 3, 2) == 2;
      assert InsertAt([e1, e2], 2, e3) == [e1, e2, e3];
    }
  }

  /**
   * The fingerprint layout's `remove_key` moves records but not their
   * fingerprints.  On a page holding keys 1, 2 and 3, removing 2 moves
   * record 3 to offset 1, whose fingerprint is still that of key 2; the
   * leaf scan then filters record 3 out and misses a live key.  This
   * happens for any fingerprint function that tells 2 from 3, cal_hash
   * among them (DistinctFingerprints).
   */
  method StaleFingerprintMiss(h: Key -> bv8) returns (found: bool, live: bool, hit: Ptr<Page>)
    requires h(2) != h(3)
    ensures found && live && hit == Null
  {
    var p := PageOfThree(h);
    ghost var e1, e3 := Entry(1, Val(1)), Entry(3, Val(3));
    ghost var F := p.FpView();
    assert F[1] == h(2) by {
      assert Synced(F[..3], p.Logical(), h);
      assert At(F[..3], 1) == h(At(p.Logical(), 1).key);
    }
    ghost var V := p.View();
    assert V[1].key == 2;
    found := p.RemoveShifting(2, false);
    assert p.FpView() == F;
    assert p.Logical() == [e1, e3] by {
      assert CircularRemovePos([e1, Entry(2, Val(2)), e3], 2) == 1;
      assert RemoveAt([e1, Entry(2, Val(2)), e3], 1) == [e1, e3];
    }
    live := p.RecordAt(1).key == 3;
    hit := p.ScanLeaf(3);
  }
}
