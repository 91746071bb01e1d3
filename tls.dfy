/**
 * A model of thread-local-storage creation: the process-wide registry of
 * TLS descriptors (a fixed-bucket hash table with separate chaining, keyed
 * by thread identity) and `tls_create`, which rejects a zero size and a
 * thread that already has a region, builds a descriptor backed by fresh
 * pages, and appends it to the thread's bucket.
 */
module Tls {

  /** Number of buckets of the registry. */
  const HASH_SIZE: nat := 128

  /** 2^32: the values of a 32-bit `unsigned int` are 0 .. UINT_RANGE - 1. */
  const UINT_RANGE: nat := 0x1_0000_0000

  /** Largest value of a 32-bit `int`. */
  const INT_MAX: nat := 0x7FFF_FFFF

  /** A 32-bit `unsigned int`. */
  type uint32 = x: nat | x < 0x1_0000_0000

  /** One page of backing storage: the base address of its mapping and the
      number of descriptors that refer to it. */
  class Page {
    var address: nat
    var refCount: int

    /** A freshly mapped page, referenced by exactly one descriptor. */
    constructor (address: nat)
      ensures this.address == address && refCount == 1
    {
      this.address := address;
      refCount := 1;
    }
  }

  /** A TLS descriptor: its owner, the requested (unrounded) size in bytes,
      the number of pages and the array of pointers to them. */
  class Descriptor {
    var tid: nat
    var size: uint32
    var pageNum: uint32
    var pages: array<Page?>

    /** The descriptor as allocated and initialised before its pages exist:
        the page array has `pageNum` entries, all of them still null. */
    constructor (tid: nat, size: uint32, pageNum: uint32)
      ensures this.tid == tid && this.size == size && this.pageNum == pageNum
      ensures fresh(pages) && pages.Length == pageNum
      ensures forall k :: 0 <= k < pages.Length ==> pages[k] == null
    {
      this.tid := tid;
      this.size := size;
      this.pageNum := pageNum;
      pages := new Page?[pageNum](_ => null);
    }
  }

  /** An element of a bucket's chain (the chain's `next` links are the order
      of the sequence that holds the elements). */
  datatype Elem = Elem(tid: nat, tls: Descriptor)

  /** The bucket of a thread. */
  function Hash(tid: nat): (h: nat)
    ensures h < HASH_SIZE
    ensures tid < HASH_SIZE ==> h == tid
  {
    tid % HASH_SIZE
  }

  /** Multiplying by a natural number is monotone. */
  lemma MulMonotone(a: nat, b: nat, d: nat)
    requires a <= b
    ensures a * d <= b * d
  {
    var c: nat := b - a;
    assert b * d == a * d + c * d;
    assert c * d >= 0;
  }

  /** The quotient and remainder of a division are the only such pair. */
  lemma DivUnique(x: nat, d: nat, q: nat, r: nat)
    requires d > 0 && r < d && x == q * d + r
    ensures x / d == q
  {
    var q', r' := x / d, x % d;
    assert x == q' * d + r';
    assert (q + 1) * d == q * d + d;
    assert (q' + 1) * d == q' * d + d;
    if q < q' {
      MulMonotone(q + 1, q', d);
    } else if q' < q {
      MulMonotone(q' + 1, q, d);
    }
  }

  /** The number of pages of a region of `size` bytes: the least `n` with
      `n * pageSize >= size`, computed without overflowing 32 bits. */
  function PageCount(size: nat, pageSize: nat): (n: nat)
    requires pageSize > 0
    ensures n * pageSize >= size
    ensures n > 0 ==> (n - 1) * pageSize < size
    ensures n <= size
  {
    var q, rem := size / pageSize, size % pageSize;
    assert size == q * pageSize + rem;
    MulMonotone(1, pageSize, q);
    assert q <= q * pageSize;
    if rem == 0 then
      assert q > 0 ==> (q - 1) * pageSize == q * pageSize - pageSize;
      q
    else
      assert (q + 1) * pageSize == q * pageSize + pageSize;
      q + 1
  }

  /** The page count as the source computes it: `size + (page_size - 1)` is
      an `unsigned int` sum, so it wraps modulo 2^32 before the unsigned
      division. */
  function PageCountAsWritten(size: uint32, pageSize: nat): (n: uint32)
    requires 0 < pageSize <= INT_MAX
    ensures n * pageSize < UINT_RANGE
  {
    var sum := (size + (pageSize - 1)) % UINT_RANGE;
    assert sum == (sum / pageSize) * pageSize + sum % pageSize;
    sum / pageSize
  }

  /** Without wrap-around the source's formula is the ceiling. */
  lemma PageCountAsWrittenAgrees(size: uint32, pageSize: nat)
    requires 0 < pageSize <= INT_MAX
    requires size + pageSize - 1 < UINT_RANGE
    ensures PageCountAsWritten(size, pageSize) == PageCount(size, pageSize)
  {
    var x := size + (pageSize - 1);
    assert x % UINT_RANGE == x;
    var q, rem := size / pageSize, size % pageSize;
    assert size == q * pageSize + rem;
    if rem == 0 {
      DivUnique(x, pageSize, q, pageSize - 1);
    } else {
      assert (q + 1) * pageSize == q * pageSize + pageSize;
      DivUnique(x, pageSize, q + 1, rem - 1);
    }
  }

  /** With a 4096-byte page, a request of 2^32 - 1 bytes gets no page at all
      from the source's formula, where 2^20 pages are needed. */
  lemma PageCountWraps()
    ensures PageCountAsWritten(0xFFFF_FFFF, 4096) == 0
    ensures PageCount(0xFFFF_FFFF, 4096) == 0x10_0000
    ensures PageCountAsWritten(0xFFFF_FFFF, 4096) * 4096 < 0xFFFF_FFFF
  {
  }

  /** Some element of the chain belongs to thread `tid`. */
  predicate HasThread(chain: seq<Elem>, tid: nat) {
    exists k :: 0 <= k < |chain| && chain[k].tid == tid
  }

  /** No thread occurs twice in the chain. */
  predicate DistinctThreads(chain: seq<Elem>) {
    forall i, j :: 0 <= i < j < |chain| ==> chain[i].tid != chain[j].tid
  }

  /** Every element sits in its thread's bucket. */
  predicate Placed(table: seq<seq<Elem>>) {
    forall h, k :: 0 <= h < |table| && 0 <= k < |table[h]| ==> Hash(table[h][k].tid) == h
  }

  /** No bucket holds a thread twice. */
  predicate Unique(table: seq<seq<Elem>>) {
    forall h :: 0 <= h < |table| ==> DistinctThreads(table[h])
  }

  /** Thread `tid` has a descriptor: lookup inspects only its own bucket. */
  predicate Registered(table: seq<seq<Elem>>, tid: nat)
    requires |table| == HASH_SIZE
  {
    HasThread(table[Hash(tid)], tid)
  }

  /** The threads of a chain after an append are the old ones and the new one. */
  lemma {:induction false} AppendHasThread(chain: seq<Elem>, e: Elem, tid: nat)
    ensures HasThread(chain + [e], tid) <==> HasThread(chain, tid) || tid == e.tid
  {
    var c := chain + [e];
    if HasThread(chain, tid) {
      var k :| 0 <= k < |chain| && chain[k].tid == tid;
      assert c[k] == chain[k];
    }
    if tid == e.tid {
      assert c[|chain|] == e;
    }
    if HasThread(c, tid) {
      var k :| 0 <= k < |c| && c[k].tid == tid;
      if k < |chain| {
        assert chain[k] == c[k];
      }
    }
  }

  /** Appending a thread that is not yet present keeps the chain duplicate-free. */
  lemma {:induction false} AppendKeepsDistinct(chain: seq<Elem>, e: Elem)
    requires DistinctThreads(chain)
    requires !HasThread(chain, e.tid)
    ensures DistinctThreads(chain + [e])
  {
    var c := chain + [e];
    forall i, j | 0 <= i < j < |c|
      ensures c[i].tid != c[j].tid
    {
      if j == |chain| {
        assert c[i] == chain[i];
      } else {
        assert c[i] == chain[i] && c[j] == chain[j];
      }
    }
  }

  /** Looking at the thread's own bucket is enough: in a table whose elements
      are all placed, a thread occurs somewhere exactly when it occurs in its
      own bucket. */
  lemma RegisteredIffAnywhere(table: seq<seq<Elem>>, tid: nat)
    requires |table| == HASH_SIZE && Placed(table)
    ensures Registered(table, tid) <==>
      exists h, k :: 0 <= h < |table| && 0 <= k < |table[h]| && table[h][k].tid == tid
  {
    if exists h, k :: 0 <= h < |table| && 0 <= k < |table[h]| && table[h][k].tid == tid {
      var h, k :| 0 <= h < |table| && 0 <= k < |table[h]| && table[h][k].tid == tid;
      assert Hash(tid) == h;
      assert HasThread(table[h], tid);
    }
    if Registered(table, tid) {
      var k :| 0 <= k < |table[Hash(tid)]| && table[Hash(tid)][k].tid == tid;
      assert 0 <= Hash(tid) < |table| && table[Hash(tid)][k].tid == tid;
    }
  }

  /** In a placed, duplicate-free table every thread has at most one entry. */
  lemma OneEntryPerThread(table: seq<seq<Elem>>, h1: nat, k1: nat, h2: nat, k2: nat)
    requires Placed(table) && Unique(table)
    requires h1 < |table| && k1 < |table[h1]|
    requires h2 < |table| && k2 < |table[h2]|
    requires table[h1][k1].tid == table[h2][k2].tid
    ensures h1 == h2 && k1 == k2
  {
    assert Hash(table[h1][k1].tid) == h1 && Hash(table[h2][k2].tid) == h2;
    assert DistinctThreads(table[h1]);
  }

  /** The process-wide registry `hash_table`: one chain per bucket, all of
      them empty at start. */
  class Registry {
    const buckets: array<seq<Elem>>

    ghost predicate Valid()
      reads this
    {
      buckets.Length == HASH_SIZE
    }

    /** The contents of all buckets. */
    ghost function Table(): (t: seq<seq<Elem>>)
      reads this, buckets
      ensures |t| == buckets.Length
    {
      buckets[..]
    }

    constructor ()
      ensures Valid() && fresh(buckets)
      ensures forall h :: 0 <= h < HASH_SIZE ==> buckets[h] == []
    {
      buckets := new seq<Elem>[HASH_SIZE](_ => []);
    }

    /** The walk along the thread's chain, with `current` as index `j` and
        `last` as the index of the element before it (-1 for none): either
        the thread is found, or the walk ends with `last` at the tail. */
    method FindThread(tid: nat) returns (found: bool, last: int)
      requires Valid()
      ensures found <==> HasThread(buckets[Hash(tid)], tid)
      ensures !found ==> last == |buckets[Hash(tid)]| - 1
    {
      var chain := buckets[Hash(tid)];
      var j := 0;
      last := -1;
      while j < |chain|
        invariant 0 <= j <= |chain|
        invariant last == j - 1
        invariant forall k :: 0 <= k < j ==> chain[k].tid != tid
      {
        if chain[j].tid == tid {
          return true, last;
        }
        last := j;
        j := j + 1;
      }
      found := false;
    }

    /** `tls_create` for thread `tid` (the caller's identity) with the host's
        page size `pageSize`; `mapAddress(i)` is the address the host maps
        for the `i`-th new page. Returns 0 on success and -1 on failure. */
    method Create(tid: nat, size: uint32, pageSize: nat, mapAddress: nat -> nat) returns (r: int)
      requires Valid() && pageSize > 0
      modifies buckets
      ensures Valid()
      ensures r == 0 || r == -1
      ensures r == -1 <==> size == 0 || HasThread(old(buckets[Hash(tid)]), tid)
      ensures r == -1 ==> Table() == old(Table())
      ensures forall h :: 0 <= h < HASH_SIZE && h != Hash(tid) ==> buckets[h] == old(buckets[h])
      ensures r == 0 ==>
        var chain, n := buckets[Hash(tid)], |old(buckets[Hash(tid)])|;
        |chain| == n + 1 && chain[..n] == old(buckets[Hash(tid)]) &&
        var e := chain[n];
        e.tid == tid && fresh(e.tls) &&
        e.tls.tid == tid && e.tls.size == size &&
        e.tls.pageNum == PageCount(size, pageSize) &&
        fresh(e.tls.pages) && e.tls.pages.Length == e.tls.pageNum &&
        (forall k :: 0 <= k < e.tls.pages.Length ==>
           e.tls.pages[k] != null && fresh(e.tls.pages[k]) &&
           e.tls.pages[k].refCount == 1 && e.tls.pages[k].address == mapAddress(k)) &&
        (forall i, j :: 0 <= i < j < e.tls.pages.Length ==> e.tls.pages[i] != e.tls.pages[j])
      ensures old(Unique(Table())) ==> Unique(Table())
      ensures old(Placed(Table())) ==> Placed(Table())
    {
      if size == 0 {
        return -1;
      }

      var hash := Hash(tid);
      var found, last := FindThread(tid);
      if found {
        return -1;
      }

      var tls := new Descriptor(tid, size, PageCount(size, pageSize));
      var pages := tls.pages;
      var i := 0;
      while i < tls.pageNum
        invariant 0 <= i <= pages.Length == tls.pageNum
        invariant tls.pages == pages
        invariant fresh(tls) && fresh(pages)
        invariant tls.tid == tid && tls.size == size && tls.pageNum == PageCount(size, pageSize)
        invariant forall k :: 0 <= k < i ==>
          pages[k] != null && fresh(pages[k]) && pages[k].refCount == 1 && pages[k].address == mapAddress(k)
        invariant forall k, l :: 0 <= k < l < i ==> pages[k] != pages[l]
        invariant buckets[..] == old(buckets[..])
      {
        var p := new Page(mapAddress(i));
        pages[i] := p;
        i := i + 1;
      }

      var elem := Elem(tid, tls);
      ghost var chain := buckets[hash];
      if last == -1 {
        buckets[hash] := [elem];
        assert buckets[hash] == chain + [elem];
      } else {
        buckets[hash] := buckets[hash] + [elem];
      }
      assert buckets[hash][..|chain|] == chain;

      ghost var t := Table();
      forall h | 0 <= h < HASH_SIZE && h != hash
        ensures t[h] == old(Table())[h]
      {
      }
      if old(Unique(Table())) {
        AppendKeepsDistinct(chain, elem);
        assert Unique(t);
      }
      if old(Placed(Table())) {
        forall h, k | 0 <= h < |t| && 0 <= k < |t[h]|
          ensures Hash(t[h][k].tid) == h
        {
          if h == hash && k == |chain| {
            assert t[h][k] == elem;
          } else if h == hash {
            assert t[h][k] == chain[k];
          }
        }
      }
      r := 0;
    }
  }

  /** Creating twice without destroying in between: the second call fails. */
  method CreateTwice(reg: Registry, tid: nat, size: uint32, pageSize: nat, mapAddress: nat -> nat)
      returns (first: int, second: int)
    requires reg.Valid() && pageSize > 0
    modifies reg.buckets
    ensures first == 0 <==> size > 0 && !HasThread(old(reg.buckets[Hash(tid)]), tid)
    ensures second == -1
  {
    first := reg.Create(tid, size, pageSize, mapAddress);
    if first == 0 {
      AppendHasThread(old(reg.buckets[Hash(tid)]), reg.buckets[Hash(tid)][|old(reg.buckets[Hash(tid)])|], tid);
      assert reg.buckets[Hash(tid)] == old(reg.buckets[Hash(tid)]) + [reg.buckets[Hash(tid)][|old(reg.buckets[Hash(tid)])|]];
    }
    second := reg.Create(tid, size, pageSize, mapAddress);
  }
}
