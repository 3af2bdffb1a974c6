/** Which slots a key may take (rateguard/src/table.rs): the sizing of the table
    and the two buckets picked by a rehash, an arbitrary function here.
 */
module KeyTableLayout {
  import opened KeyTable

  predicate PowerOfTwo(n: nat)
  {
    n == 1 || (n > 1 && n % 2 == 0 && PowerOfTwo(n / 2))
  }

  /** The least power of two at or above `n`, from `p` up. */
  function NextPowerOfTwo(p: nat, n: nat): (b: nat)
    requires PowerOfTwo(p) && (p == 1 || p / 2 < n)
    ensures PowerOfTwo(b) && b >= n && (b == 1 || b / 2 < n)
    decreases 2 * n - p
  {
    if p >= n then p
    else
      assert 2 * p / 2 == p;
      NextPowerOfTwo(2 * p, n)
  }

  /** How many buckets a table for `trackedKeys` has. */
  function Buckets(trackedKeys: nat): (b: nat)
    ensures b > 0
  {
    NextPowerOfTwo(1, (2 * trackedKeys + BUCKET - 1) / BUCKET)
  }

  /** Room for twice the tracked keys, and for less than four times them and a
      bucket: the table is never oversized. */
  lemma TableHasRoom(trackedKeys: nat)
    ensures Buckets(trackedKeys) * BUCKET >= 2 * trackedKeys
    ensures Buckets(trackedKeys) > 1 ==> Buckets(trackedKeys) * BUCKET < 4 * trackedKeys + 2 * BUCKET
    ensures PowerOfTwo(Buckets(trackedKeys))
  {
  }

  function Bucket(b: nat): (s: seq<nat>)
    ensures |s| == BUCKET && forall j :: 0 <= j < BUCKET ==> s[j] == b * BUCKET + j
  {
    seq(BUCKET, (j: nat) => b * BUCKET + j)
  }

  /** Masking by a power of two less one is the remainder. */
  function FirstBucket(buckets: nat, mixed: nat): (b: nat)
    requires buckets > 0
    ensures b < buckets
  {
    mixed % buckets
  }

  function SecondBucket(buckets: nat, mixed: nat): (b: nat)
    requires buckets > 0
    ensures b < buckets
  {
    var b := mixed / 0x1_0000_0000 % buckets;
    if b == FirstBucket(buckets, mixed) then (b + 1) % buckets else b
  }

  function Candidates(buckets: nat, mixed: nat): (c: seq<nat>)
    requires buckets > 0
  {
    var (first, second) := (FirstBucket(buckets, mixed), SecondBucket(buckets, mixed));
    Bucket(first) + if first == second then [] else Bucket(second)
  }

  function TableLayout(buckets: nat, mix: nat -> nat): (l: Layout)
    requires buckets > 0
  {
    Layout(buckets * BUCKET, k => Candidates(buckets, mix(k)))
  }

  lemma BucketsDiffer(buckets: nat, mixed: nat)
    requires buckets > 0
    ensures FirstBucket(buckets, mixed) == SecondBucket(buckets, mixed) <==> buckets == 1
  {
    var b := FirstBucket(buckets, mixed);
    if buckets > 1 {
      if b + 1 == buckets {
        assert (b + 1) % buckets == 0;
      } else {
        assert (b + 1) % buckets == b + 1;
      }
    }
  }

  lemma CandidatesAreProper(buckets: nat, mixed: nat)
    requires buckets > 0
    ensures Proper(Candidates(buckets, mixed), buckets * BUCKET)
    ensures |Candidates(buckets, mixed)| == BUCKET <==> buckets == 1
  {
    BucketsDiffer(buckets, mixed);
  }

  /** Whatever the hash and the seed, the table's candidates are what the
      protocol needs; two buckets for every key as soon as there are two. */
  lemma TableLayoutIsValid(buckets: nat, mix: nat -> nat)
    requires buckets > 0
    ensures TableLayout(buckets, mix).Valid()
    ensures forall k :: TableLayout(buckets, mix).Single(k) <==> buckets == 1
  {
    forall k: nat
      ensures Proper(TableLayout(buckets, mix).candidates(k), buckets * BUCKET)
      ensures TableLayout(buckets, mix).Single(k) <==> buckets == 1
    {
      CandidatesAreProper(buckets, mix(k));
    }
  }
}
