// The memory behind the value pointers of the YCSB layouts: `update_key`
// copies bytes into the buffer a leaf record's pointer addresses.
module ValueMemory {
  import opened Entries

  /**
   * The value buffers the leaf pointers of the YCSB layouts point at, by
   * address: the memory `update_key` writes into.
   */
  class Values {
    var bufs: map<int, seq<bv8>>

    constructor (bufs: map<int, seq<bv8>>)
      ensures this.bufs == bufs
    {
      this.bufs := bufs;
    }
  }

  /**
   * `strlen(data)`: the number of bytes before the first zero byte, all of
   * them when there is none.
   */
  function StrLen(data: seq<bv8>): (r: nat)
    ensures r <= |data|
    ensures forall i :: 0 <= i < r ==> data[i] != 0
    ensures r < |data| ==> data[r] == 0
  {
    if |data| == 0 || data[0] == 0 then 0 else 1 + StrLen(data[1..])
  }

  /**
   * `strncpy(buf + at, data, strlen(data))`: the bytes of data before its
   * terminator over buf from byte `at` on, the other bytes as they were.
   */
  function Overwrite(buf: seq<bv8>, at: nat, data: seq<bv8>): (r: seq<bv8>)
    requires at + StrLen(data) <= |buf|
    ensures |r| == |buf| && r[at..at + StrLen(data)] == data[..StrLen(data)]
    ensures forall i :: 0 <= i < |buf| && !(at <= i < at + StrLen(data)) ==> r[i] == buf[i]
  {
    buf[..at] + data[..StrLen(data)] + buf[at + StrLen(data)..]
  }

  /** Writing n bytes at byte `at` of the buffer a value pointer addresses stays inside it. */
  predicate Writable<P>(hit: Ptr<P>, bufs: map<int, seq<bv8>>, at: int, n: nat)
  {
    hit.Val? ==> hit.addr in bufs && 0 <= at && at + n <= |bufs[hit.addr]|
  }

  /**
   * The buffers after `update_key` found the value pointer `hit`: its
   * buffer holds the bytes of data before its terminator from byte `at`
   * on, every other buffer is as it was;
   * with no value pointer nothing is written.
   */
  function WriteValue<P>(bufs: map<int, seq<bv8>>, hit: Ptr<P>, at: int, data: seq<bv8>): (r: map<int, seq<bv8>>)
    requires Writable(hit, bufs, at, StrLen(data))
    ensures r.Keys == bufs.Keys
    ensures forall a :: a in bufs && (!hit.Val? || a != hit.addr) ==> r[a] == bufs[a]
    ensures hit.Val? ==>
      |r[hit.addr]| == |bufs[hit.addr]| && r[hit.addr][at..at + StrLen(data)] == data[..StrLen(data)]
    ensures hit.Val? ==> forall i :: 0 <= i < |bufs[hit.addr]| && !(at <= i < at + StrLen(data)) ==>
      r[hit.addr][i] == bufs[hit.addr][i]
  {
    if hit.Val? then bufs[hit.addr := Overwrite(bufs[hit.addr], at, data)] else bufs
  }

  /** What `update` did: refused a deleted page, handed the key to the right sibling, or updated here. */
  datatype UpdateResult<P> = Refused | MoveRight(next: P) | Updated
}
