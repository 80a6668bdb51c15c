/**
 * Symbol counts derived from the two hash-table encodings of a dynamic
 * section. A table is a sequence of 32-bit words; the 64-bit layout of the
 * GNU table is modelled (each Bloom word occupies two table words).
 */
module HashTab {
  import opened Elf

  /** DT_HASH: the symbol count is the `nchain` word. */
  function HashSymbolCount(table: seq<u32>): (r: u32)
    requires |table| >= 2
  {
    table[1]
  }

  // DT_GNU_HASH header words
  function NBuckets(t: seq<u32>): u32 requires |t| >= 4 { t[0] }
  function SymOffset(t: seq<u32>): u32 requires |t| >= 4 { t[1] }
  function BloomSize(t: seq<u32>): u32 requires |t| >= 4 { t[2] }

  /** Word index of `buckets[0]`: the header, then `bloomsize` 64-bit Bloom words. */
  function BucketsStart(t: seq<u32>): nat
    requires |t| >= 4
  {
    4 + 2 * BloomSize(t)
  }

  /** Word index of `chains[0]`, right after the `nbuckets` buckets. */
  function ChainsStart(t: seq<u32>): nat
    requires |t| >= 4
  {
    BucketsStart(t) + NBuckets(t)
  }

  /** The header and the bucket array lie inside the table. */
  predicate HasBuckets(t: seq<u32>) {
    |t| >= 4 && ChainsStart(t) <= |t|
  }

  /** `buckets[i]`. */
  function Bucket(t: seq<u32>, i: nat): u32
    requires HasBuckets(t) && i < NBuckets(t)
  {
    t[BucketsStart(t) + i]
  }

  /**
   * `int first = buckets[i] - symoffset`: the unsigned 32-bit difference read
   * back as a signed `int`. It is the plain difference whenever that fits in
   * 32 signed bits, so an empty bucket (value 0) gives a negative `first`.
   */
  function First(t: seq<u32>, i: nat): int
    requires HasBuckets(t) && i < NBuckets(t)
  {
    Int32Diff(Bucket(t, i), SymOffset(t))
  }

  /** Word index at which the walk of bucket `i` begins: `chains[first]`, possibly before the chain array. */
  function ChainStart(t: seq<u32>, i: nat): int
    requires HasBuckets(t) && i < NBuckets(t)
  {
    ChainsStart(t) + First(t, i)
  }

  /** Number of consecutive even words of `t` from index `k` on: the length of the chain before its last entry. */
  function EvenRun(t: seq<u32>, k: nat): (r: nat)
    requires k <= |t|
    ensures k + r <= |t|
    ensures forall j :: k <= j < k + r ==> t[j] % 2 == 0
    ensures k + r < |t| ==> t[k + r] % 2 == 1
    decreases |t| - k
  {
    if k == |t| || t[k] % 2 == 1 then 0 else 1 + EvenRun(t, k + 1)
  }

  /**
   * The table can be walked: every bucket's walk starts inside the table and
   * meets an odd word (the end of its chain) before the table ends.
   */
  predicate WellFormedGnu(t: seq<u32>) {
    HasBuckets(t) &&
    forall i :: 0 <= i < NBuckets(t) ==>
      0 <= ChainStart(t, i) <= |t| && ChainStart(t, i) + EvenRun(t, ChainStart(t, i)) < |t|
  }

  /** `bucket_max` of bucket `i`: its value plus the even words of its chain, in 32 bits. */
  function BucketMax(t: seq<u32>, i: nat): u32
    requires WellFormedGnu(t) && i < NBuckets(t)
  {
    Wrap32(Bucket(t, i) + EvenRun(t, ChainStart(t, i)))
  }

  /** The running maximum over the first `n` buckets. */
  function MaxBuckets(t: seq<u32>, n: nat): (r: u32)
    requires WellFormedGnu(t) && n <= NBuckets(t)
    ensures forall i :: 0 <= i < n ==> BucketMax(t, i) <= r
  {
    if n == 0 then 0
    else
      var m := MaxBuckets(t, n - 1);
      var b := BucketMax(t, n - 1);
      if b > m then b else m
  }

  /** The symbol count a DT_GNU_HASH table yields. */
  function GnuCount(t: seq<u32>): u32
    requires WellFormedGnu(t)
  {
    MaxBuckets(t, NBuckets(t))
  }

  /**
   * The inner loop of `gnu_hashtab_symbol_count`: counts the even words from
   * `start` up to the first odd one, the last entry of the chain.
   */
  method CountChain(table: seq<u32>, start: int) returns (even: int)
    requires 0 <= start <= |table| && start + EvenRun(table, start) < |table|
    ensures even == EvenRun(table, start)
  {
    even := 0;
    var j := start;
    while table[j] % 2 == 0
      invariant start <= j <= start + EvenRun(table, start)
      invariant even == j - start
      decreases |table| - j
    {
      even := even + 1;
      j := j + 1;
    }
  }

  /**
   * One iteration of the bucket loop of `gnu_hashtab_symbol_count`: the bucket
   * value plus the length of the even run its walk meets, in 32 bits.
   */
  method ChainEnd(table: seq<u32>, i: int) returns (bucketMax: u32)
    requires WellFormedGnu(table) && 0 <= i < NBuckets(table)
    ensures bucketMax == BucketMax(table, i)
  {
    var buckets: int := 4 + 2 * table[2] as int;
    var chains: int := buckets + table[0] as int;
    BucketInside(table, i);
    var bucket: int := table[buckets + i];
    var first := Int32Diff(bucket as u32, table[1]);
    var even := CountChain(table, chains + first);
    bucketMax := Wrap32(bucket + even);
  }

  /** `gnu_hashtab_symbol_count`: walks every bucket's chain and keeps the highest index reached. */
  method GnuHashSymbolCount(table: seq<u32>) returns (max: u32)
    requires WellFormedGnu(table)
    ensures max == GnuCount(table)
  {
    max := 0;
    var nbuckets: int := table[0];
    var i := 0;
    while i < nbuckets
      invariant 0 <= i <= nbuckets
      invariant max == MaxBuckets(table, i)
    {
      var bucketMax := ChainEnd(table, i);
      MaxBucketsStep(table, i);
      max := if bucketMax > max then bucketMax else max;
      i := i + 1;
    }
  }

  /** One more bucket raises the running maximum to its `bucket_max` if that is higher. */
  lemma MaxBucketsStep(t: seq<u32>, n: nat)
    requires WellFormedGnu(t) && n < NBuckets(t)
    ensures MaxBuckets(t, n + 1) == if BucketMax(t, n) > MaxBuckets(t, n) then BucketMax(t, n) else MaxBuckets(t, n)
  {
  }

  /** Bucket `i` lies in the table and its walk stays inside it. */
  lemma BucketInside(t: seq<u32>, i: nat)
    requires WellFormedGnu(t) && i < NBuckets(t)
    ensures BucketsStart(t) + i < |t|
    ensures 0 <= ChainStart(t, i) <= |t| && ChainStart(t, i) + EvenRun(t, ChainStart(t, i)) < |t|
  {
  }

  /** A running maximum over at least one bucket is the `bucket_max` of one of them. */
  lemma {:induction false} MaxBucketsAttained(t: seq<u32>, n: nat)
    requires WellFormedGnu(t) && 0 < n <= NBuckets(t)
    ensures exists i :: 0 <= i < n && MaxBuckets(t, n) == BucketMax(t, i)
  {
    if n == 1 {
      assert MaxBuckets(t, n - 1) == 0;
    }
    if MaxBuckets(t, n) == BucketMax(t, n - 1) {
      assert 0 <= n - 1 < n;
    } else {
      MaxBucketsAttained(t, n - 1);
    }
  }

  /**
   * The count is 0 without buckets; otherwise it is some bucket's
   * `bucket_max` and at least every bucket's.
   */
  lemma GnuCountIsMaximum(t: seq<u32>)
    requires WellFormedGnu(t)
    ensures NBuckets(t) == 0 ==> GnuCount(t) == 0
    ensures forall i :: 0 <= i < NBuckets(t) ==> BucketMax(t, i) <= GnuCount(t)
    ensures NBuckets(t) > 0 ==> exists i :: 0 <= i < NBuckets(t) && GnuCount(t) == BucketMax(t, i)
  {
    if NBuckets(t) > 0 {
      MaxBucketsAttained(t, NBuckets(t));
    }
  }

  /**
   * Without 32-bit wrap-around, and with `first` the plain difference
   * `buckets[i] - symoffset`, a bucket's `bucket_max` is the symbol index of
   * the last entry of its chain: at least the bucket value, with every chain
   * word from the bucket's own up to it even and the word at it odd.
   */
  lemma BucketMaxIsChainEnd(t: seq<u32>, i: nat)
    requires WellFormedGnu(t) && i < NBuckets(t)
    requires Bucket(t, i) + EvenRun(t, ChainStart(t, i)) < U32_MOD
    requires -0x8000_0000 <= Bucket(t, i) - SymOffset(t) < 0x8000_0000
    ensures Bucket(t, i) <= BucketMax(t, i)
    ensures 0 <= ChainsStart(t) + BucketMax(t, i) - SymOffset(t) < |t|
    ensures t[ChainsStart(t) + BucketMax(t, i) - SymOffset(t)] % 2 == 1
    ensures forall j :: ChainStart(t, i) <= j < ChainsStart(t) + BucketMax(t, i) - SymOffset(t) ==> t[j] % 2 == 0
  {
  }

  /**
   * When the chain array ends the table and some bucket's chain runs to its
   * last word (and no bucket wraps), the count is the index of the last symbol,
   * `symoffset + (number of chain words) - 1`, whichever bucket that is.
   */
  lemma GnuCountFindsLastSymbol(t: seq<u32>, i: nat)
    requires WellFormedGnu(t) && i < NBuckets(t)
    requires ChainStart(t, i) + EvenRun(t, ChainStart(t, i)) == |t| - 1
    requires forall k :: 0 <= k < NBuckets(t) ==> Bucket(t, k) + EvenRun(t, ChainStart(t, k)) < U32_MOD
    requires forall k :: 0 <= k < NBuckets(t) ==> -0x8000_0000 <= Bucket(t, k) - SymOffset(t) < 0x8000_0000
    ensures GnuCount(t) == SymOffset(t) + |t| - 1 - ChainsStart(t)
  {
    forall k | 0 <= k < NBuckets(t)
      ensures BucketMax(t, k) <= SymOffset(t) + |t| - 1 - ChainsStart(t)
    {
      BucketMaxIsChainEnd(t, k);
    }
    assert BucketMax(t, i) == SymOffset(t) + |t| - 1 - ChainsStart(t);
    GnuCountIsMaximum(t);
    var m :| 0 <= m < NBuckets(t) && GnuCount(t) == BucketMax(t, m);
  }

  /**
   * The last symbol index a DT_HASH table evidently stands for: `nchain` is
   * the number of symbol-table entries, so the last index is `nchain - 1`.
   */
  function HashLastIndex(table: seq<u32>): int
    requires |table| >= 2
  {
    HashSymbolCount(table) - 1
  }

  /**
   * For a symbol table of `n` entries described by both encodings, the
   * intended DT_HASH bound and the GNU count agree on the last index `n - 1`,
   * while `nchain` itself is one past it.
   */
  lemma HashAndGnuAgreeOnLastIndex(h: seq<u32>, g: seq<u32>, i: nat, n: nat)
    requires |h| >= 2 && HashSymbolCount(h) == n
    requires WellFormedGnu(g) && i < NBuckets(g)
    requires ChainStart(g, i) + EvenRun(g, ChainStart(g, i)) == |g| - 1
    requires forall k :: 0 <= k < NBuckets(g) ==> Bucket(g, k) + EvenRun(g, ChainStart(g, k)) < U32_MOD
    requires forall k :: 0 <= k < NBuckets(g) ==> -0x8000_0000 <= Bucket(g, k) - SymOffset(g) < 0x8000_0000
    requires SymOffset(g) + |g| - ChainsStart(g) == n
    ensures HashLastIndex(h) == GnuCount(g) == n - 1
    ensures HashSymbolCount(h) == GnuCount(g) + 1
  {
    GnuCountFindsLastSymbol(g, i);
  }
}
