// The linear node of the YCSB benchmark's FAST-FAIR B+-tree: records kept
// sorted in slots 0 .. last_index of a plain array and closed by a record
// with a null pointer.  An insertion shifts the larger records one slot
// right ("FAST"); a full node splits into a new right sibling ("FAIR").
// Readers scan left to right while the switch counter is even.
module FastFair {
  import opened Entries
  import opened ValueMemory

  type Rec = Entry<Node>

  /** The `uint8_t` switch counter. */
  newtype Counter = x: int | 0 <= x < 256

  /** `IS_FORWARD`: readers scan left to right while the counter is even. */
  predicate IsForward(c: Counter)
  {
    c % 2 == 0
  }

  /** `++c` on a `uint8_t`: 255 wraps to 0. */
  function Incr(c: Counter): (r: Counter)
    ensures r as int == (c as int + 1) % 256
  {
    if c == 255 then 0 else c + 1
  }

  /** The counter after `insert_key`'s first step: an odd counter is bumped. */
  function InsertCounter(c: Counter): (r: Counter)
    ensures IsForward(r)
    ensures IsForward(c) ==> r == c
    ensures !IsForward(c) ==> r != c
  {
    if IsForward(c) then c else Incr(c)
  }

  /**
   * The counter after a split: `+= 2` from even, `++` from odd, both in
   * `uint8_t` arithmetic.  It always changes (a reader that started
   * before the split sees the difference and retries) and always ends
   * even, also across the wrap-around from 255 to 0.
   */
  function SplitCounter(c: Counter): (r: Counter)
    ensures IsForward(r)
    ensures r != c
  {
    if IsForward(c) then ((c as int + 2) % 256) as Counter else Incr(c)
  }

  /** Every record carries a pointer: none of them reads as the terminator. */
  predicate AllSet(s: seq<Rec>)
  {
    forall i :: 0 <= i < |s| ==> s[i].ptr != Null
  }

  /**
   * Neighbouring records carry different pointers.  A shift in progress
   * leaves two neighbours with the same pointer, and the readers skip
   * such a record; in a node at rest, where every value and every child
   * is distinct, this holds.
   */
  predicate Apart(s: seq<Rec>)
  {
    forall i :: 0 < i < |s| ==> s[i - 1].ptr != s[i].ptr
  }

  /** The first slot at or after i whose pointer is null, or |a|: where `count` stops. */
  function FirstNull(a: seq<Rec>, i: nat): (r: nat)
    requires i <= |a|
    ensures i <= r <= |a|
    ensures forall j :: i <= j < r ==> a[j].ptr != Null
    ensures r < |a| ==> a[r].ptr == Null
    decreases |a| - i
  {
    if i == |a| || a[i].ptr == Null then i else FirstNull(a, i + 1)
  }

  /**
   * The forward leaf scan from slot i on: the pointer of the first record
   * with the key whose pointer differs from its left neighbour's, Null
   * once a null pointer ends the records.
   */
  function LeafScan(a: seq<Rec>, key: Key, i: nat): Ptr<Node>
    requires 1 <= i <= |a|
    decreases |a| - i
  {
    if i == |a| || a[i].ptr == Null then Null
    else if a[i].key == key && a[i - 1].ptr != a[i].ptr then a[i].ptr
    else LeafScan(a, key, i + 1)
  }

  /** The forward leaf scan of `linear_search` and `update_key`: slot 0 first, then LeafScan. */
  function LeafHit(a: seq<Rec>, key: Key): Ptr<Node>
    requires |a| >= 1
  {
    if a[0].key == key && a[0].ptr != Null then a[0].ptr else LeafScan(a, key, 1)
  }

  /**
   * The forward internal scan from slot i on: the pointer left of the
   * first key above the search key (skipping a record whose pointer
   * equals its left neighbour's), or the pointer of the last record once
   * a null pointer ends the records.
   */
  function InternalScan(a: seq<Rec>, key: Key, i: nat): Ptr<Node>
    requires 1 <= i <= |a|
    decreases |a| - i
  {
    if i == |a| || a[i].ptr == Null then a[i - 1].ptr
    else if key < a[i].key && a[i - 1].ptr != a[i].ptr then a[i - 1].ptr
    else InternalScan(a, key, i + 1)
  }

  /**
   * The pointer the forward internal scan of `linear_search` picks, before
   * the sibling check: leftmost for a key below the first key (unless
   * leftmost equals the first pointer), otherwise InternalScan's pick.
   */
  function InternalPick(a: seq<Rec>, key: Key, leftmost: Ptr<Node>): Ptr<Node>
    requires |a| >= 1
  {
    if key < a[0].key && leftmost != a[0].ptr then leftmost else InternalScan(a, key, 1)
  }

  /** `if(ret) return ret; else return leftmost_ptr;` */
  function OrLeftmost(t: Ptr<Node>, leftmost: Ptr<Node>): Ptr<Node>
  {
    if t != Null then t else leftmost
  }

  /** The child for key among the records s under leftmost: leftmost when there are none, else Route. */
  function ChildFor(s: seq<Rec>, key: Key, leftmost: Ptr<Node>): Ptr<Node>
  {
    if |s| == 0 then leftmost else Route(s, key, leftmost)
  }

  /** The slots a null terminator closes: records below n set, slot n (and slot 1 of an empty node) null. */
  predicate Terminated(a: seq<Rec>, n: nat)
  {
    2 <= |a| && n < |a| && AllSet(a[..n]) && a[n].ptr == Null && (n == 0 ==> a[1].ptr == Null)
  }

  /**
   * The forward scan from slot i of a terminated array hits exactly what
   * the first record with the key at or after i holds.
   */
  lemma {:induction false} LeafScanFinds(a: seq<Rec>, n: nat, key: Key, i: nat)
    requires Terminated(a, n) && Apart(a[..n]) && 1 <= i && (i <= n || i == 1)
    ensures var j := if i <= n then FindForward(a[..n], key, i) else -1;
      LeafScan(a, key, i) == if j < 0 then Null else a[j].ptr
    decreases n - i
  {
    var L := a[..n];
    if i < n {
      assert a[i].ptr == L[i].ptr != Null;
      if a[i].key != key {
        LeafScanFinds(a, n, key, i + 1);
      } else {
        assert L[i - 1].ptr != L[i].ptr;
      }
    }
  }

  /** On a node at rest the leaf scan is the lookup of the key among the live records. */
  lemma LeafHitIsLookup(a: seq<Rec>, n: nat, key: Key)
    requires Terminated(a, n) && Apart(a[..n])
    ensures LeafHit(a, key) == Lookup(a[..n], key)
  {
    var L := a[..n];
    LeafScanFinds(a, n, key, 1);
    if n > 0 {
      assert a[0] == L[0];
      if a[0].key != key {
        assert FindForward(L, key, 0) == FindForward(L, key, 1);
      }
    }
  }

  /** The forward internal scan from slot i of a terminated array is the routing from there on. */
  lemma {:induction false} InternalScanRoutes(a: seq<Rec>, n: nat, key: Key, i: nat)
    requires Terminated(a, n) && Apart(a[..n]) && 1 <= i <= n
    ensures InternalScan(a, key, i) == a[FirstAbove(a[..n], key, i) - 1].ptr
    decreases n - i
  {
    var L := a[..n];
    if i < n {
      assert a[i] == L[i];
      if !(key < a[i].key) {
        InternalScanRoutes(a, n, key, i + 1);
      } else {
        assert L[i - 1].ptr != L[i].ptr;
      }
    }
  }

  /**
   * On a node at rest whose leftmost child differs from its first child,
   * the internal scan picks the child the key routes to.
   */
  lemma InternalPickRoutes(a: seq<Rec>, n: nat, key: Key, leftmost: Ptr<Node>)
    requires Terminated(a, n) && Apart(a[..n])
    requires n > 0 ==> leftmost != a[0].ptr
    ensures OrLeftmost(InternalPick(a, key, leftmost), leftmost) == ChildFor(a[..n], key, leftmost)
  {
    var L := a[..n];
    if n > 0 {
      assert a[0] == L[0];
      if !(key < a[0].key) {
        InternalScanRoutes(a, n, key, 1);
        var j := FirstAbove(L, key, 1) - 1;
        assert a[j] == L[j];
      }
    }
  }

  /** The child pointers of an internal node: leftmost, then one per record. */
  function Children(leftmost: Ptr<Node>, s: seq<Rec>): (r: seq<Ptr<Node>>)
    ensures |r| == |s| + 1 && r[0] == leftmost
    ensures forall i :: 0 <= i < |s| ==> r[i + 1] == s[i].ptr
  {
    if |s| == 0 then [leftmost] else Children(leftmost, s[..|s| - 1]) + [s[|s| - 1].ptr]
  }

  /**
   * An internal split loses and duplicates no child: the node keeps the
   * records below the median, the median's pointer becomes the sibling's
   * leftmost child, and the sibling takes the records after the median.
   */
  lemma {:induction false} InternalSplitChildren(leftmost: Ptr<Node>, s: seq<Rec>, m: nat)
    requires m < |s|
    ensures Children(leftmost, s[..m]) + Children(s[m].ptr, s[m + 1..]) == Children(leftmost, s)
  {
    var l, r, c := Children(leftmost, s[..m]), Children(s[m].ptr, s[m + 1..]), Children(leftmost, s);
    assert |l + r| == |c|;
    forall i | 0 <= i < |c|
      ensures (l + r)[i] == c[i]
    {
      if 0 < i <= m {
        assert l[i] == s[..m][i - 1].ptr;
      } else if i == m + 1 {
        assert r[0] == s[m].ptr;
      } else if i > m + 1 {
        assert r[i - m - 1] == s[m + 1..][i - m - 2].ptr;
      }
    }
  }

  /**
   * A leaf split followed by the insertion loses and duplicates nothing:
   * the records kept, then the records moved, with the new record in the
   * half its key selects, are the old records with the new one inserted.
   */
  lemma LeafSplitStore(s: seq<Rec>, m: nat, e: Rec)
    requires Sorted(s) && m < |s|
    ensures e.key < s[m].key ==> LinearInsert(s[..m], e) + s[m..] == LinearInsert(s, e)
    ensures s[m].key <= e.key ==> s[..m] + LinearInsert(s[m..], e) == LinearInsert(s, e)
  {
    if e.key < s[m].key {
      InsertBelowSplit(s, m, e);
    } else {
      InsertAboveSplit(s, m, e);
    }
  }

  /** A linear insertion of a set record into set records leaves every record set. */
  lemma InsertKeepsSet(s: seq<Rec>, e: Rec)
    requires AllSet(s) && e.ptr != Null
    ensures AllSet(LinearInsert(s, e))
  {
    var p := UpperBound(s, e.key, |s|);
    var r := LinearInsert(s, e);
    forall i | 0 <= i < |r|
      ensures r[i].ptr != Null
    {
      if i < p { assert r[i] == s[i]; }
      else if i > p { assert r[i] == s[i - 1]; }
    }
  }

  /** Inserting the next record of a sorted sequence after the ones before it appends it. */
  lemma AppendSorted(s: seq<Rec>, i: nat)
    requires Sorted(s) && i < |s|
    ensures LinearInsert(s[..i], s[i]) == s[..i + 1]
  {
    SortedSlice(s, 0, i);
    SortedPairs(s);
    assert s[..i] == s[0..i];
    AppendInsert(s[..i], s[i]);
    assert s[..i] + [s[i]] == s[..i + 1];
  }

  /** The records a split leaves on the node: those below the median. */
  function Kept(s: seq<Rec>): (r: seq<Rec>)
    requires |s| > 0
    ensures |r| == |s| / 2
  {
    s[..|s| / 2]
  }

  /** The records a split moves to the sibling: from the median on a leaf, after it on an internal node. */
  function Moved(s: seq<Rec>, internal: bool): (r: seq<Rec>)
    requires |s| > 0
    ensures |r| == if internal then |s| - |s| / 2 - 1 else |s| - |s| / 2
  {
    if internal then s[|s| / 2 + 1..] else s[|s| / 2..]
  }

  /** A slice of set records is set. */
  lemma AllSetSlice(s: seq<Rec>, lo: nat, hi: nat)
    requires AllSet(s) && lo <= hi <= |s|
    ensures AllSet(s[lo..hi])
  {
    forall i | 0 <= i < hi - lo
      ensures s[lo..hi][i].ptr != Null
    {
      assert s[lo..hi][i] == s[lo + i];
    }
  }

  /**
   * Nulling the pointer of slot m (0 < m < n) of a terminated array with
   * n sorted records leaves a terminated array with the first m records.
   */
  lemma CutTerminated(a0: seq<Rec>, a1: seq<Rec>, n: nat, m: nat)
    requires Terminated(a0, n) && Sorted(a0[..n]) && 0 < m < n
    requires a1 == a0[m := a0[m].(ptr := Null)]
    ensures Terminated(a1, m) && Sorted(a1[..m]) && a1[..m] == a0[..m]
  {
    assert a1[..m] == a0[..n][..m];
    AllSetSlice(a0[..n], 0, m);
    SortedSlice(a0[..n], 0, m);
    assert a0[..n][0..m] == a0[..n][..m];
  }

  /** Records holding the sorted insertion of a set record, followed by a null pointer, are terminated and sorted. */
  lemma InsertedTerminated(R: seq<Rec>, s: seq<Rec>, e: Rec)
    requires |s| + 1 < |R| && R[..|s| + 1] == LinearInsert(s, e) && R[|s| + 1].ptr == Null
    requires AllSet(s) && Sorted(s) && e.ptr != Null
    ensures Terminated(R, |s| + 1) && Sorted(R[..|s| + 1])
  {
    InsertKeepsSet(s, e);
    LinearInsertSorted(s, e);
  }

  /** The two steps of a split that the persistence protocol orders. */
  datatype SplitEvent =
    | Flushed(node: Node, right: Node?, contents: seq<Rec>, leftmost: Ptr<Node>)
    | Published(node: Node, sibling: Node)

  /**
   * What `store` did: refused a deleted node, handed the key to the right
   * sibling (where the source calls `store` again), stored it on `at`, or
   * split and stored it on `at` (this node or the new sibling), leaving
   * the split key and the sibling for the level above.
   */
  datatype StoreResult =
    | Deleted
    | Forward(next: Node)
    | Stored(at: Node)
    | SplitStored(at: Node, splitKey: Key, sibling: Node)

  /** Largest cardinality whose `last_index`, a 16-bit signed header field, can reach every slot. */
  const MaxCardinality: nat := 0x8000

  class Node {
    const cardinality: nat
    const records: array<Rec>
    var leftmost: Ptr<Node>
    var sibling: Node?
    var level: nat
    var switchCounter: Counter
    var isDeleted: bool
    var lastIndex: int

    /**
     * The layout every operation keeps: room for `cardinality` records,
     * the live records in slots 0 .. last_index, sorted, each with a
     * pointer, the terminator right after them, and a right sibling whose
     * first record can be read.
     */
    ghost predicate Shape()
      reads this, records
    {
      records.Length == cardinality && 3 <= cardinality <= MaxCardinality &&
      -1 <= lastIndex && lastIndex + 1 < cardinality &&
      Terminated(records[..], lastIndex + 1) &&
      Sorted(records[..lastIndex + 1]) &&
      (sibling != null ==> sibling.records.Length > 0)
    }

    /** Shape with an even switch counter: the state every operation leaves a node in. */
    ghost predicate Valid()
      reads this, records
    {
      Shape() && IsForward(switchCounter)
    }

    /** The live records, slots 0 .. last_index. */
    ghost function Live(): seq<Rec>
      reads this, records
      requires Shape()
    {
      records[..lastIndex + 1]
    }

    /** `page(level)`: an empty node, every record default (`LONG_MAX`, null). */
    constructor (cardinality: nat, level: nat)
      requires 3 <= cardinality <= MaxCardinality
      ensures Valid() && fresh(records)
      ensures this.cardinality == cardinality && this.level == level
      ensures Live() == [] && leftmost == Null && sibling == null && !isDeleted
      ensures switchCounter == 0
    {
      this.cardinality := cardinality;
      this.level := level;
      records := new Rec[cardinality](_ => Entry(MaxKey, Null));
      leftmost := Null;
      sibling := null;
      switchCounter := 0;
      isDeleted := false;
      lastIndex := -1;
    }

    /** `page(left, key, right, level)`: the new root over left and right, with key between them. */
    constructor Root(cardinality: nat, left: Node, key: Key, right: Node, level: nat)
      requires 3 <= cardinality <= MaxCardinality
      ensures Valid() && fresh(records)
      ensures this.cardinality == cardinality && this.level == level
      ensures Live() == [Entry(key, Child(right))] && leftmost == Child(left)
      ensures sibling == null && !isDeleted
    {
      this.cardinality := cardinality;
      this.level := level;
      var a := new Rec[cardinality](_ => Entry(MaxKey, Null));
      a[0] := Entry(key, Child(right));
      a[1] := a[1].(ptr := Null);
      records := a;
      leftmost := Child(left);
      sibling := null;
      switchCounter := 0;
      isDeleted := false;
      lastIndex := 0;
    }

    /** The right sibling when key is at least its first key, otherwise `otherwise`. */
    function PastSibling(key: Key, otherwise: Ptr<Node>): (r: Ptr<Node>)
      reads this, if sibling != null then {sibling.records} else {}
      requires sibling != null ==> sibling.records.Length > 0
      ensures r == otherwise || (sibling != null && r.Child? && r.page == sibling && key >= sibling.records[0].key)
      ensures sibling != null && key >= sibling.records[0].key ==> r.Child? && r.page == sibling
    {
      if sibling != null && key >= sibling.records[0].key then var s: Node := sibling; Child(s) else otherwise
    }

    /**
     * `count` in the forward direction: from slot last_index + 1 on, the
     * first slot with a null pointer.  On a node at rest that is the
     * number of live records.
     */
    method Count() returns (c: int)
      requires records.Length == cardinality && -1 <= lastIndex && lastIndex + 1 < cardinality
      requires FirstNull(records[..], lastIndex + 1) < cardinality && IsForward(switchCounter)
      ensures c == FirstNull(records[..], lastIndex + 1)
      ensures Shape() ==> c == |Live()|
    {
      ghost var a := records[..];
      c := lastIndex + 1;
      while records[c].ptr != Null
        invariant lastIndex + 1 <= c <= FirstNull(a, lastIndex + 1)
        decreases cardinality - c
      {
        c := c + 1;
      }
    }

    /**
     * `insert_key` with n = `*num_entries` live records: the counter turns
     * even, the records larger than the key move one slot right from the
     * top down, the new record lands in the gap, and the terminator sits
     * one slot further.  The result is the sorted insertion of the record.
     */
    method InsertKey(key: Key, ptr: Ptr<Node>, n: int) returns (count: int)
      requires Shape() && n == lastIndex + 1 && n < cardinality - 1 && ptr != Null
      modifies this`switchCounter, this`lastIndex, records
      ensures Valid() && count == n + 1 == lastIndex + 1
      ensures Live() == LinearInsert(old(Live()), Entry(key, ptr))
      ensures switchCounter == InsertCounter(old(switchCounter))
    {
      switchCounter := InsertCounter(switchCounter);
      var e := Entry(key, ptr);
      ghost var s := records[..n];
      if n == 0 {
        records[0] := e;
        records[1] := records[1].(ptr := Null);
        assert records[..1] == [e] == LinearInsert(s, e);
      } else {
        ShiftIn(e, n);
      }
      ghost var R := records[..];
      assert R[..n + 1] == LinearInsert(s, e) && R[n + 1].ptr == Null;
      assert Terminated(R, n + 1) && Sorted(R[..n + 1]) by {
        InsertedTerminated(R, s, e);
      }
      lastIndex := n;
      count := n + 1;
    }

    /**
     * The shifting part of `insert_key` on n > 0 live records: the
     * terminator's pointer is copied one slot up, then from slot n - 1
     * down every record with a larger key moves one slot right, and e
     * lands right after the last record whose key is not larger.
     */
    method ShiftIn(e: Rec, n: int)
      requires records.Length == cardinality && 0 < n && n + 1 < cardinality
      requires Sorted(records[..n]) && records[n].ptr == Null
      modifies records
      ensures records[..n + 1] == LinearInsert(old(records[..n]), e)
      ensures records[n + 1].ptr == Null
    {
      records[n + 1] := records[n + 1].(ptr := records[n].ptr);
      ghost var V0 := records[..];
      assert V0[..n] == old(records[..n]);
      var i := n - 1;
      var inserted := false;
      while i >= 0
        modifies records
        invariant -1 <= i < n && !inserted
        invariant RightShifted(records[..], V0, i, n)
        invariant forall j :: i < j < n ==> e.key < V0[j].key
        decreases i
      {
        RightShiftStep(records[..], V0, i, n);
        if e.key < records[i].key {
          records[i + 1] := records[i];
          i := i - 1;
        } else {
          UpperBoundUnique(V0[..n], e.key, n, i + 1);
          RightInsertView(V0, records[..], n, i, e);
          records[i + 1] := e;
          inserted := true;
          break;
        }
      }
      if !inserted {
        UpperBoundUnique(V0[..n], e.key, n, 0);
        RightInsertView(V0, records[..], n, -1, e);
        records[0] := e;
      }
      assert At(V0, n + 1) == At(records[..], n + 1);
    }

    /** The forward leaf scan of `linear_search` and `update_key`, before the sibling check. */
    method ScanLeaf(key: Key) returns (ret: Ptr<Node>)
      requires Valid()
      ensures ret == LeafHit(records[..], key)
    {
      ghost var a := records[..];
      assert FirstNull(a, 1) <= if lastIndex < 0 then 1 else lastIndex + 1;
      if records[0].key == key && records[0].ptr != Null {
        return records[0].ptr;
      }
      var i := 1;
      while records[i].ptr != Null
        invariant 1 <= i <= FirstNull(a, 1) < records.Length
        invariant LeafScan(a, key, i) == LeafScan(a, key, 1)
        decreases records.Length - i
      {
        if records[i].key == key && records[i - 1].ptr != records[i].ptr {
          return records[i].ptr;
        }
        i := i + 1;
      }
      return Null;
    }

    /** The forward internal scan of `linear_search`, before the sibling check and the leftmost fallback. */
    method ScanInternal(key: Key) returns (ret: Ptr<Node>)
      requires Valid()
      ensures ret == InternalPick(records[..], key, leftmost)
    {
      ghost var a := records[..];
      assert FirstNull(a, 1) <= if lastIndex < 0 then 1 else lastIndex + 1;
      if key < records[0].key && leftmost != records[0].ptr {
        return leftmost;
      }
      ret := Null;
      var i := 1;
      while records[i].ptr != Null
        invariant 1 <= i <= FirstNull(a, 1) < records.Length
        invariant InternalScan(a, key, i) == InternalScan(a, key, 1)
        invariant ret == Null
        decreases records.Length - i
      {
        if key < records[i].key && records[i - 1].ptr != records[i].ptr {
          ret := records[i - 1].ptr;
          break;
        }
        i := i + 1;
      }
      if ret == Null {
        ret := records[i - 1].ptr;
      }
    }

    /**
     * `linear_search` in the forward direction.  On a leaf: the value of
     * the key, else the right sibling when the key is at least its first
     * key, else null.  On an internal node: the right sibling when the key
     * is at least its first key, else the child the key routes to.  The
     * raw scans are exact on any terminated node; on a node at rest
     * (neighbouring pointers differ) they are the lookup and the routing
     * of the key among the live records.
     */
    method LinearSearch(key: Key) returns (r: Ptr<Node>)
      requires Valid()
      ensures leftmost == Null ==> r == OrSibling(LeafHit(records[..], key), key)
      ensures leftmost != Null ==> r == PastSibling(key, OrLeftmost(InternalPick(records[..], key, leftmost), leftmost))
      ensures leftmost == Null && Apart(Live()) ==> r == OrSibling(Lookup(Live(), key), key)
      ensures leftmost != Null && Apart(Live()) && (|Live()| > 0 ==> leftmost != Live()[0].ptr) ==>
        r == PastSibling(key, ChildFor(Live(), key, leftmost))
    {
      if leftmost == Null {
        var ret := ScanLeaf(key);
        if Apart(Live()) {
          LeafHitIsLookup(records[..], lastIndex + 1, key);
        }
        if ret != Null {
          return ret;
        }
        if sibling != null && key >= sibling.records[0].key {
          var s: Node := sibling;
          return Child(s);
        }
        return Null;
      } else {
        var ret := ScanInternal(key);
        if Apart(Live()) && (lastIndex >= 0 ==> leftmost != records[0].ptr) {
          InternalPickRoutes(records[..], lastIndex + 1, key, leftmost);
        }
        if sibling != null && key >= sibling.records[0].key {
          var s: Node := sibling;
          return Child(s);
        }
        if ret != Null {
          return ret;
        }
        return leftmost;
      }
    }

    /** A leaf's answer: the hit, or failing that PastSibling with null. */
    function OrSibling(hit: Ptr<Node>, key: Key): (r: Ptr<Node>)
      reads this, if sibling != null then {sibling.records} else {}
      requires sibling != null ==> sibling.records.Length > 0
    {
      if hit != Null then hit else PastSibling(key, Null)
    }

    /**
     * `update_key`: on a leaf, the value the forward scan finds gets data
     * copied in at byte `offset * field_size`; an internal node or a
     * missing key writes nothing.  On a node at rest the value found is
     * the one the key looks up (lemma LeafHitIsLookup).
     */
    method UpdateKey(key: Key, data: seq<bv8>, offset: int, fieldSize: nat, mem: Values)
      requires Valid()
      requires leftmost == Null ==> Writable(LeafHit(records[..], key), mem.bufs, offset * fieldSize, StrLen(data))
      modifies mem
      ensures leftmost == Null ==> mem.bufs == WriteValue(old(mem.bufs), LeafHit(records[..], key), offset * fieldSize, data)
      ensures leftmost != Null ==> unchanged(mem)
    {
      if leftmost == Null {
        var ret := ScanLeaf(key);
        if ret.Val? {
          mem.bufs := mem.bufs[ret.addr := Overwrite(mem.bufs[ret.addr], offset * fieldSize, data)];
        }
      }
    }

    /**
     * The checks `update` makes before `update_key`: a deleted node
     * refuses (the caller starts again from the root), a key above the
     * right sibling's first key goes to the sibling, otherwise the update
     * happens here.
     */
    function UpdateRoute(key: Key): (r: UpdateResult<Node>)
      reads this, if sibling != null then {sibling.records} else {}
      requires sibling != null ==> sibling.records.Length > 0
      ensures r.Refused? <==> isDeleted
      ensures r.MoveRight? <==> !isDeleted && sibling != null && key > sibling.records[0].key
      ensures r.MoveRight? ==> r.next == sibling
    {
      if isDeleted then Refused
      else if sibling != null && key > sibling.records[0].key then var s: Node := sibling; MoveRight(s)
      else Updated
    }

    /** `update`: UpdateRoute's checks, then `update_key` when the update happens here. */
    method Update(key: Key, data: seq<bv8>, offset: int, fieldSize: nat, mem: Values) returns (r: UpdateResult<Node>)
      requires Valid()
      requires leftmost == Null ==> Writable(LeafHit(records[..], key), mem.bufs, offset * fieldSize, StrLen(data))
      modifies mem
      ensures r == UpdateRoute(key)
      ensures !r.Updated? || leftmost != Null ==> unchanged(mem)
      ensures r.Updated? && leftmost == Null ==>
        mem.bufs == WriteValue(old(mem.bufs), LeafHit(records[..], key), offset * fieldSize, data)
    {
      r := UpdateRoute(key);
      if r.Updated? {
        UpdateKey(key, data, offset, fieldSize, mem);
      }
    }

    /**
     * The sibling-filling loop of a split: the records in slots lo .. hi
     * go into the empty node sib one `insert_key` at a time, in key
     * order, so each lands at the end.
     */
    method FillSibling(sib: Node, lo: int, hi: int) returns (count: int)
      requires records.Length == cardinality && 0 <= lo <= hi <= cardinality && hi - lo < cardinality
      requires Sorted(records[lo..hi]) && AllSet(records[lo..hi])
      requires sib.Valid() && sib.Live() == [] && sib.cardinality == cardinality
      requires sib != this && sib.records != records
      modifies sib`switchCounter, sib`lastIndex, sib.records
      ensures sib.Valid() && sib.Live() == records[lo..hi] && count == hi - lo
    {
      count := 0;
      ghost var s := records[lo..hi];
      var i := lo;
      while i < hi
        invariant lo <= i <= hi && count == i - lo
        invariant sib.Valid() && sib.Live() == s[..i - lo]
      {
        assert s[i - lo] == records[i];
        AppendSorted(s, i - lo);
        count := sib.InsertKey(records[i].key, records[i].ptr, count);
        i := i + 1;
      }
      assert s[..hi - lo] == s;
    }

    /**
     * The new right sibling of a split, before this node publishes it: a
     * node at the same level holding the records in slots lo .. n, with
     * the leftmost child `lm` and the old right sibling.
     */
    method NewSibling(lo: int, n: int, lm: Ptr<Node>) returns (sib: Node, count: int)
      requires records.Length == cardinality && 3 <= cardinality <= MaxCardinality && 0 <= lo <= n < cardinality
      requires Sorted(records[lo..n]) && AllSet(records[lo..n])
      requires sibling != null ==> sibling.records.Length > 0
      ensures fresh(sib) && fresh(sib.records)
      ensures sib.Valid() && count == |sib.Live()| && sib.Live() == records[lo..n]
      ensures sib.leftmost == lm && sib.sibling == sibling && !sib.isDeleted
      ensures sib.cardinality == cardinality && sib.level == level
    {
      sib := new Node(cardinality, level);
      count := FillSibling(sib, lo, n);
      sib.leftmost := lm;
      sib.sibling := sibling;
    }

    /**
     * The FAIR half of `store` on a full node: a new node at the same
     * level takes the records from the median on (a leaf) or after it
     * (an internal node, whose median pointer becomes the sibling's
     * leftmost child); the sibling, holding the old right sibling, is
     * flushed before this node publishes it; the counter changes; the
     * median slot becomes the terminator.
     */
    method Split(ghost s: seq<Rec>, ghost internal: bool, ghost right: Node?)
      returns (sib: Node, splitKey: Key, count: int, ghost trace: seq<SplitEvent>)
      requires Valid() && lastIndex + 1 == cardinality - 1
      requires s == Live() && internal == (leftmost != Null) && right == sibling
      modifies this`sibling, this`switchCounter, this`lastIndex, records
      ensures fresh(sib) && fresh(sib.records)
      ensures Valid() && sib.Valid() && count == |sib.Live()|
      ensures Live() == Kept(s) && splitKey == s[|s| / 2].key
      ensures sib.Live() == Moved(s, internal) && sib.leftmost == if internal then s[|s| / 2].ptr else Null
      ensures sibling == sib && sib.sibling == right && !sib.isDeleted
      ensures sib.cardinality == cardinality && sib.level == level
      ensures switchCounter == SplitCounter(old(switchCounter))
      ensures trace == [Flushed(sib, right, Moved(s, internal), sib.leftmost), Published(this, sib)]
    {
      var n := lastIndex + 1;
      var m := n / 2;
      ghost var s := records[..n];
      splitKey := records[m].key;
      var lo := if leftmost == Null then m else m + 1;
      assert Sorted(records[lo..n]) && AllSet(records[lo..n]) by {
        assert records[lo..n] == s[lo..n];
        SortedSlice(s, lo, n);
        AllSetSlice(s, lo, n);
      }
      sib, count := NewSibling(lo, n, if leftmost == Null then Null else records[m].ptr);
      trace := [Flushed(sib, sib.sibling, sib.Live(), sib.leftmost)];
      Publish(sib, m);
      trace := trace + [Published(this, sib)];
    }

    /**
     * The end of a split, after the sibling is flushed: this node points
     * to it, the counter changes, and slot m becomes the terminator, so
     * only the records below m stay.
     */
    method Publish(sib: Node, m: int)
      requires Valid() && 0 < m < lastIndex + 1 && sib.records.Length > 0
      modifies this`sibling, this`switchCounter, this`lastIndex, records
      ensures Valid() && Live() == old(Live())[..m]
      ensures sibling == sib && switchCounter == SplitCounter(old(switchCounter))
    {
      ghost var a0 := records[..];
      sibling := sib;
      switchCounter := SplitCounter(switchCounter);
      records[m] := records[m].(ptr := Null);
      assert Terminated(records[..], m) && Sorted(records[..m]) && records[..m] == a0[..m] by {
        CutTerminated(a0, records[..], lastIndex + 1, m);
      }
      lastIndex := m - 1;
    }

    /**
     * The test `store` makes before touching the node: a right sibling
     * other than `invalid` whose first key is below `key` takes the record.
     */
    predicate HandsOff(key: Key, invalid: Node?)
      reads this, if sibling != null then {sibling.records} else {}
      requires sibling != null ==> sibling.records.Length > 0
    {
      sibling != null && sibling != invalid && key > sibling.records[0].key
    }

    /**
     * `store` without the root and parent update: a deleted node refuses,
     * a key above the right sibling's first key (unless that sibling is
     * `invalid`) goes to the sibling, a node with room inserts the record,
     * and a full node splits and inserts it on the side the split key
     * selects.
     */
    method Store(key: Key, ptr: Ptr<Node>, invalid: Node?) returns (r: StoreResult, ghost trace: seq<SplitEvent>)
      requires Valid() && ptr != Null
      modifies this`sibling, this`switchCounter, this`lastIndex, records
      ensures r.Deleted? <==> isDeleted
      ensures r.Forward? <==> !isDeleted && old(HandsOff(key, invalid))
      ensures r.Forward? ==> r.next == old(sibling)
      ensures r.Deleted? || r.Forward? ==> unchanged(this, records) && trace == []
      ensures Valid()
      ensures r.Stored? ==>
        r.at == this && Live() == LinearInsert(old(Live()), Entry(key, ptr)) && sibling == old(sibling) && trace == []
      ensures r.SplitStored? ==>
        old(|Live()|) == cardinality - 1 && fresh(r.sibling) && fresh(r.sibling.records) &&
        sibling == r.sibling && r.sibling.Valid() && r.sibling.sibling == old(sibling) &&
        r.splitKey == old(Live())[old(|Live()|) / 2].key &&
        (r.at == this <==> key < r.splitKey) && (r.at == this || r.at == r.sibling)
      ensures r.SplitStored? ==>
        Live() == (if key < r.splitKey then LinearInsert(Kept(old(Live())), Entry(key, ptr)) else Kept(old(Live()))) &&
        r.sibling.Live() == (if key < r.splitKey then Moved(old(Live()), old(leftmost) != Null)
                             else LinearInsert(Moved(old(Live()), old(leftmost) != Null), Entry(key, ptr))) &&
        r.sibling.leftmost == (if old(leftmost) == Null then Null else old(Live())[old(|Live()|) / 2].ptr)
      ensures r.SplitStored? ==>
        trace == [Flushed(r.sibling, old(sibling), Moved(old(Live()), old(leftmost) != Null), r.sibling.leftmost),
                  Published(this, r.sibling)]
    {
      if isDeleted {
        return Deleted, [];
      }
      if HandsOff(key, invalid) {
        return Forward(sibling), [];
      }
      r, trace := StoreHere(key, ptr, Live(), leftmost != Null, sibling);
    }

    /** The part of `store` after the checks: `count`, then an insertion or a split. */
    method StoreHere(key: Key, ptr: Ptr<Node>, ghost s: seq<Rec>, ghost internal: bool, ghost right: Node?) returns (r: StoreResult, ghost trace: seq<SplitEvent>)
      requires Valid() && ptr != Null
      requires s == Live() && internal == (leftmost != Null) && right == sibling
      modifies this`sibling, this`switchCounter, this`lastIndex, records
      ensures true == Valid() && (r.Stored? || r.SplitStored?)
      ensures r.Stored? ==>
        r.at == this && Live() == LinearInsert(s, Entry(key, ptr)) && sibling == right && trace == []
      ensures r.SplitStored? ==>
        |s| == cardinality - 1 && fresh(r.sibling) && fresh(r.sibling.records) &&
        sibling == r.sibling && true == r.sibling.Valid() && r.sibling.sibling == right &&
        r.splitKey == s[|s| / 2].key &&
        (r.at == this <==> key < r.splitKey) && (r.at == this || r.at == r.sibling)
      ensures r.SplitStored? ==>
        Live() == (if key < r.splitKey then LinearInsert(Kept(s), Entry(key, ptr)) else Kept(s)) &&
        r.sibling.Live() == (if key < r.splitKey then Moved(s, internal)
                             else LinearInsert(Moved(s, internal), Entry(key, ptr))) &&
        r.sibling.leftmost == (if internal then s[|s| / 2].ptr else Null)
      ensures r.SplitStored? ==>
        trace == [Flushed(r.sibling, right, Moved(s, internal), r.sibling.leftmost),
                  Published(this, r.sibling)]
    {
      trace := [];
      var n := Count();
      if n < cardinality - 1 {
        n := InsertKey(key, ptr, n);
        return Stored(this), trace;
      }
      r, trace := SplitAndStore(key, ptr, s, internal, right);
    }

    /**
     * The split branch of `store` on a full node: split it, then insert
     * the record on the side the split key selects.
     */
    method SplitAndStore(key: Key, ptr: Ptr<Node>, ghost s: seq<Rec>, ghost internal: bool, ghost right: Node?) returns (r: StoreResult, ghost trace: seq<SplitEvent>)
      requires Valid() && ptr != Null
      requires s == Live() && internal == (leftmost != Null) && right == sibling && |s| == cardinality - 1
      modifies this`sibling, this`switchCounter, this`lastIndex, records
      ensures true == Valid() && r.SplitStored?
      ensures r.SplitStored? ==>
        fresh(r.sibling) && fresh(r.sibling.records) &&
        sibling == r.sibling && true == r.sibling.Valid() && r.sibling.sibling == right &&
        r.splitKey == s[|s| / 2].key &&
        (r.at == this <==> key < r.splitKey) && (r.at == this || r.at == r.sibling)
      ensures r.SplitStored? ==>
        Live() == (if key < r.splitKey then LinearInsert(Kept(s), Entry(key, ptr)) else Kept(s)) &&
        r.sibling.Live() == (if key < r.splitKey then Moved(s, internal)
                             else LinearInsert(Moved(s, internal), Entry(key, ptr))) &&
        r.sibling.leftmost == (if internal then s[|s| / 2].ptr else Null)
      ensures r.SplitStored? ==>
        trace == [Flushed(r.sibling, right, Moved(s, internal), r.sibling.leftmost),
                  Published(this, r.sibling)]
    {
      var sib, splitKey, count;
      sib, splitKey, count, trace := Split(s, internal, right);
      ghost var leftmost' := sib.leftmost;
      var at := Place(key, ptr, sib, splitKey, count, Kept(s), Moved(s, internal));
      assert sib.sibling == right && sib.leftmost == leftmost';
      r := SplitStored(at, splitKey, sib);
    }

    /**
     * The last step of a split in `store`: the record goes into this node
     * when its key is below the split key and into the new sibling
     * otherwise.
     */
    method Place(key: Key, ptr: Ptr<Node>, sib: Node, splitKey: Key, count: int, ghost kept: seq<Rec>, ghost moved: seq<Rec>)
      returns (at: Node)
      requires true == Valid() && true == sib.Valid() && sib != this && sib.records != records && ptr != Null
      requires Live() == kept && lastIndex + 1 < cardinality - 1
      requires sib.Live() == moved && count == |moved| && count < sib.cardinality - 1
      modifies this`switchCounter, this`lastIndex, records, sib`switchCounter, sib`lastIndex, sib.records
      ensures Valid() && sib.Valid()
      ensures (at == this <==> key < splitKey) && (at == this || at == sib)
      ensures Live() == if key < splitKey then LinearInsert(kept, Entry(key, ptr)) else kept
      ensures sib.Live() == if key < splitKey then moved else LinearInsert(moved, Entry(key, ptr))
    {
      var n;
      if key < splitKey {
        n := InsertKey(key, ptr, lastIndex + 1);
        at := this;
      } else {
        n := sib.InsertKey(key, ptr, count);
        at := sib;
      }
    }
  }
}
