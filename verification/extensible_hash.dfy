/**
 * The hash table of the storage engine. Although named "extensible", it grows by
 * linear hashing: with `numBits` bits and `len` buckets (2^(numBits-1) <= len <= 2^numBits),
 * key `k` lives in bucket `k mod 2^numBits`, folded down by 2^(numBits-1) when that
 * bucket does not exist yet. A split appends one bucket and redistributes the single
 * bucket whose keys may now belong to it. The hash of a key is the key itself.
 */
module ExtensibleHash {
  import opened Wrappers

  /** Nominal bucket capacity in the fill-degree test. */
  const ITEMS_PER_BUCKET: nat := 10

  datatype Entry<V> = Entry(key: nat, value: V)

  /** The three fields of a table, as a value. */
  datatype Table<V> = Table(buckets: seq<seq<Entry<V>>>, numBits: nat, numItems: nat)

  function Pow2(n: nat): (p: nat)
    ensures p >= 1
  {
    if n == 0 then 1 else 2 * Pow2(n - 1)
  }

  /** The linear-hashing range for `len` buckets addressed with `numBits` bits. */
  predicate BitsFit(numBits: nat, len: nat) {
    numBits >= 1 && Pow2(numBits - 1) <= len <= Pow2(numBits)
  }

  /** `bucket`: the residue of `k` modulo 2^numBits, folded back into range. */
  function Bucket(k: nat, numBits: nat, len: nat): (b: nat)
    requires BitsFit(numBits, len)
    ensures b < len
  {
    var h := k % Pow2(numBits);
    if h >= len then h - Pow2(numBits - 1) else h
  }

  /**
   * `should_split`: the source divides the item count by the nominal capacity in `f32`
   * and compares with 0.8; here the same test on integers (see `ShouldSplitIsFillDegree`).
   */
  predicate ShouldSplit(numItems: nat, len: nat) {
    numItems > 8 * len
  }

  /** The integer test agrees with the exact fill-degree ratio test. */
  lemma ShouldSplitIsFillDegree(numItems: nat, len: nat)
    requires len > 0
    ensures ShouldSplit(numItems, len) <==> (numItems as real) / ((len * ITEMS_PER_BUCKET) as real) > 0.8
  {
    DivGreater(numItems as real, (len * ITEMS_PER_BUCKET) as real, 0.8);
  }

  lemma DivGreater(x: real, d: real, c: real)
    requires d > 0.0
    ensures x / d > c <==> x > c * d
  {
    assert x == (x / d) * d;
    if x / d > c {
      assert (x / d) * d > c * d;
    } else {
      assert (x / d) * d <= c * d;
    }
  }

  /** The first value stored under `key` in a bucket, as `get`'s scan finds it. */
  function FirstValue<V>(s: seq<Entry<V>>, key: nat): (r: Option<V>)
    ensures r.None? <==> forall i :: 0 <= i < |s| ==> s[i].key != key
    ensures r.Some? ==> Entry(key, r.value) in s
  {
    if s == [] then None
    else if s[0].key == key then Some(s[0].value)
    else FirstValue(s[1..], key)
  }

  /** The value `FirstValue` returns is the one at the first index holding the key. */
  lemma {:induction false} FirstValueIsFirst<V>(s: seq<Entry<V>>, key: nat, i: nat)
    requires i < |s| && s[i].key == key
    requires forall j :: 0 <= j < i ==> s[j].key != key
    ensures FirstValue(s, key) == Some(s[i].value)
  {
    if i > 0 {
      FirstValueIsFirst(s[1..], key, i - 1);
    }
  }

  /**
   * The entries of `s` whose bucket under (`numBits`, `len`) is `b` (when `stay`) or is
   * not `b` (otherwise), in their original order.
   */
  function Select<V>(s: seq<Entry<V>>, numBits: nat, len: nat, b: nat, stay: bool): (r: seq<Entry<V>>)
    requires BitsFit(numBits, len)
    ensures |r| <= |s|
  {
    if s == [] then []
    else
      var rest := Select(s[1..], numBits, len, b, stay);
      if (Bucket(s[0].key, numBits, len) == b) == stay then [s[0]] + rest else rest
  }

  /** Every selected entry comes from `s` and satisfies the selection. */
  lemma {:induction false} SelectMembers<V>(s: seq<Entry<V>>, numBits: nat, len: nat, b: nat, stay: bool, e: Entry<V>)
    requires BitsFit(numBits, len)
    requires e in Select(s, numBits, len, b, stay)
    ensures e in s && (Bucket(e.key, numBits, len) == b) == stay
  {
    var rest := Select(s[1..], numBits, len, b, stay);
    if e in rest {
      SelectMembers(s[1..], numBits, len, b, stay, e);
    }
  }

  /** The multiset of all entries of all buckets. */
  ghost function Entries<V>(bs: seq<seq<Entry<V>>>): multiset<Entry<V>> {
    if bs == [] then multiset{} else Entries(bs[..|bs| - 1]) + multiset(bs[|bs| - 1])
  }

  /** The table invariant: the bit range holds and every entry sits in its key's bucket. */
  ghost predicate TableInv<V>(t: Table<V>) {
    && BitsFit(t.numBits, |t.buckets|)
    && forall j, i :: 0 <= j < |t.buckets| && 0 <= i < |t.buckets[j]| ==>
         Bucket(t.buckets[j][i].key, t.numBits, |t.buckets|) == j
  }

  /** `HashTable::new`: one empty bucket, one bit, no items. */
  function EmptyTable<V>(): (t: Table<V>)
    ensures TableInv(t) && Entries(t.buckets) == multiset{}
    ensures |t.buckets| == 1 && t.numBits == 1 && t.numItems == 0
  {
    Table([[]], 1, 0)
  }

  /** What `get` returns: the first value for `key` in the bucket `key` maps to. */
  function Lookup<V>(t: Table<V>, key: nat): Option<V>
    requires BitsFit(t.numBits, |t.buckets|)
  {
    FirstValue(t.buckets[Bucket(key, t.numBits, |t.buckets|)], key)
  }

  /** The append-and-count half of `put`: append to the key's bucket and count the item. */
  function AfterPush<V>(t: Table<V>, k: nat, v: V): Table<V>
    requires BitsFit(t.numBits, |t.buckets|)
  {
    var b := Bucket(k, t.numBits, |t.buckets|);
    Table(t.buckets[b := t.buckets[b] + [Entry(k, v)]], t.numBits, t.numItems + 1)
  }

  /** The bit count after a split: one more exactly when every 2^numBits bucket exists. */
  function SplitBits(numBits: nat, len: nat): (nb: nat)
    requires BitsFit(numBits, len)
    ensures BitsFit(nb, len + 1)
    ensures nb == numBits || (nb == numBits + 1 && len == Pow2(numBits))
  {
    if len == Pow2(numBits) then numBits + 1 else numBits
  }

  /** The bucket a split redistributes: its keys may now belong to the new bucket `len`. */
  function SplitIndex(numBits: nat, len: nat): (b: nat)
    requires BitsFit(numBits, len)
    ensures b < len
    ensures b + Pow2(SplitBits(numBits, len) - 1) == len
  {
    len - Pow2(SplitBits(numBits, len) - 1)
  }

  /**
   * `split`: append an empty bucket and move out of the split bucket every entry whose
   * bucket is no longer the split bucket. Each move goes through the counting part of
   * `put`, so `numItems` grows by the number of entries moved.
   */
  function AfterSplit<V>(t: Table<V>): Table<V>
    requires BitsFit(t.numBits, |t.buckets|)
  {
    var len := |t.buckets|;
    var nb := SplitBits(t.numBits, len);
    var b := SplitIndex(t.numBits, len);
    var moved := Select(t.buckets[b], nb, len + 1, b, false);
    Table(Redistribute(t.buckets, b, Select(t.buckets[b], nb, len + 1, b, true), moved), nb, t.numItems + |moved|)
  }

  /** Bucket `b` replaced by `kept`, with `moved` appended as a new last bucket. */
  function Redistribute<V>(bs: seq<seq<Entry<V>>>, b: nat, kept: seq<Entry<V>>, moved: seq<Entry<V>>): seq<seq<Entry<V>>>
    requires b < |bs|
  {
    bs[b := kept] + [moved]
  }

  /** The parts of a redistributed bucket sequence. */
  lemma RedistributeParts<V>(bs: seq<seq<Entry<V>>>, b: nat, kept: seq<Entry<V>>, moved: seq<Entry<V>>)
    requires b < |bs|
    ensures var r := Redistribute(bs, b, kept, moved);
            |r| == |bs| + 1 && r[b] == kept && r[|bs|] == moved
  {
  }

  /** Updating either redistributed part in place is redistributing with the new part. */
  lemma RedistributeReplace<V>(bs: seq<seq<Entry<V>>>, b: nat, kept: seq<Entry<V>>, kept': seq<Entry<V>>,
                               moved: seq<Entry<V>>, moved': seq<Entry<V>>)
    requires b < |bs|
    ensures Redistribute(bs, b, kept, moved)[b := kept'] == Redistribute(bs, b, kept', moved)
    ensures Redistribute(bs, b, kept, moved)[|bs| := moved'] == Redistribute(bs, b, kept, moved')
  {
  }

  /** `put`: push, then split when the fill degree is exceeded. */
  function AfterPut<V>(t: Table<V>, k: nat, v: V): Table<V>
    requires BitsFit(t.numBits, |t.buckets|)
  {
    var t1 := AfterPush(t, k, v);
    if ShouldSplit(t1.numItems, |t1.buckets|) then AfterSplit(t1) else t1
  }

  /**
   * `remove`: the scan breaks after its first step, so only an entry at index 0 of the
   * key's bucket is ever removed; the count drops by one in every case.
   */
  function AfterRemove<V>(t: Table<V>, key: nat): Table<V>
    requires BitsFit(t.numBits, |t.buckets|) && t.numItems > 0
  {
    var b := Bucket(key, t.numBits, |t.buckets|);
    var s := t.buckets[b];
    Table(if |s| > 0 && s[0].key == key then t.buckets[b := s[1..]] else t.buckets,
          t.numBits, t.numItems - 1)
  }

  // ---------------------------------------------------------------------------
  // Arithmetic of the bucket function

  lemma {:induction false} MulAtLeast(d: nat, p: nat)
    requires d >= 1
    ensures d * p >= p
  {
    if d > 1 {
      MulAtLeast(d - 1, p);
      assert d * p == (d - 1) * p + p;
    }
  }

  /** Euclidean remainders are unique. */
  lemma ModUnique(k: nat, p: nat, a: nat, r: nat)
    requires p > 0 && r < p && k == a * p + r
    ensures k % p == r
  {
    var q, m := k / p, k % p;
    assert k == q * p + m;
    if a > q {
      assert (a - q) * p == a * p - q * p;
      MulAtLeast(a - q, p);
    } else if a < q {
      assert (q - a) * p == q * p - a * p;
      MulAtLeast(q - a, p);
    }
  }

  lemma ModDouble(k: nat, p: nat)
    requires p > 0
    ensures k % (2 * p) == k % p || k % (2 * p) == k % p + p
  {
    ModHalf(k, p, k / (2 * p), k % (2 * p));
  }

  /** The remainder modulo `p` read off a division by `2 * p`. */
  lemma ModHalf(k: nat, p: nat, q: nat, r: nat)
    requires p > 0 && r < 2 * p && k == q * (2 * p) + r
    ensures r < p ==> k % p == r
    ensures r >= p ==> k % p == r - p
  {
    DoubleFactor(q, p);
    if r < p {
      ModUnique(k, p, 2 * q, r);
    } else {
      ModUnique(k, p, 2 * q + 1, r - p);
    }
  }

  lemma DoubleFactor(q: nat, p: nat)
    ensures q * (2 * p) == (2 * q) * p
    ensures (2 * q + 1) * p == (2 * q) * p + p
  {
  }

  /**
   * A split changes the bucket of a key only if the key was in the split bucket, and
   * then moves it to the new bucket `len`.
   */
  lemma BucketAfterSplit(k: nat, numBits: nat, len: nat)
    requires BitsFit(numBits, len)
    ensures var before := Bucket(k, numBits, len);
            var after := Bucket(k, SplitBits(numBits, len), len + 1);
            (before != SplitIndex(numBits, len) ==> after == before) &&
            (before == SplitIndex(numBits, len) ==> after == before || after == len)
  {
    if len == Pow2(numBits) {
      ModDouble(k, Pow2(numBits));
    }
  }

  // ---------------------------------------------------------------------------
  // Sequences of entries

  lemma {:induction false} SelectPartition<V>(s: seq<Entry<V>>, numBits: nat, len: nat, b: nat)
    requires BitsFit(numBits, len)
    ensures multiset(Select(s, numBits, len, b, true)) + multiset(Select(s, numBits, len, b, false)) == multiset(s)
  {
    if s != [] {
      SelectPartition(s[1..], numBits, len, b);
      assert s == [s[0]] + s[1..];
    }
  }

  lemma {:induction false} SelectSnoc<V>(s: seq<Entry<V>>, e: Entry<V>, numBits: nat, len: nat, b: nat, stay: bool)
    requires BitsFit(numBits, len)
    ensures Select(s + [e], numBits, len, b, stay) ==
            Select(s, numBits, len, b, stay) + (if (Bucket(e.key, numBits, len) == b) == stay then [e] else [])
  {
    if s == [] {
      assert [e][1..] == [];
    } else {
      assert (s + [e])[1..] == s[1..] + [e];
      SelectSnoc(s[1..], e, numBits, len, b, stay);
    }
  }

  /**
   * One step of the split loop: the entry at position `p` of the original bucket is the
   * next unexamined one, and it extends exactly one of the two selections.
   */
  lemma SplitStep<V>(s: seq<Entry<V>>, p: nat, numBits: nat, len: nat, b: nat,
                     kept: seq<Entry<V>>, moved: seq<Entry<V>>, cur: seq<Entry<V>>)
    requires BitsFit(numBits, len) && p < |s|
    requires kept == Select(s[..p], numBits, len, b, true) && moved == Select(s[..p], numBits, len, b, false)
    requires cur == kept + s[p..]
    ensures |cur| == |kept| + |s| - p && cur[|kept|] == s[p]
    ensures Bucket(s[p].key, numBits, len) == b ==>
              Select(s[..p + 1], numBits, len, b, true) == kept + [s[p]] &&
              Select(s[..p + 1], numBits, len, b, false) == moved &&
              (kept + [s[p]]) + s[p + 1..] == cur
    ensures Bucket(s[p].key, numBits, len) != b ==>
              Select(s[..p + 1], numBits, len, b, true) == kept &&
              Select(s[..p + 1], numBits, len, b, false) == moved + [s[p]] &&
              cur[..|kept|] + cur[|kept| + 1..] == kept + s[p + 1..]
  {
    assert s[..p + 1] == s[..p] + [s[p]];
    SelectSnoc(s[..p], s[p], numBits, len, b, true);
    SelectSnoc(s[..p], s[p], numBits, len, b, false);
    assert s[p..] == [s[p]] + s[p + 1..];
  }

  /**
   * The split loop's invariant, on the buckets as a value: `s` is the original split bucket
   * and its first `p` entries have been examined; those that stay form `kept`, which is
   * followed in bucket `b` by the unexamined rest, and those that left form `moved`,
   * the new last bucket.
   */
  ghost predicate SplitLoopInv<V>(t: Table<V>, len: nat, nb: nat, b: nat, s: seq<Entry<V>>, p: nat,
                                  kept: seq<Entry<V>>, moved: seq<Entry<V>>, bs: seq<seq<Entry<V>>>)
  {
    && TableInv(t)
    && len == |t.buckets| && nb == SplitBits(t.numBits, len) && b == SplitIndex(t.numBits, len)
    && s == t.buckets[b] && p <= |s|
    && kept == Select(s[..p], nb, len + 1, b, true) && moved == Select(s[..p], nb, len + 1, b, false)
    && bs == Redistribute(t.buckets, b, kept + s[p..], moved)
  }

  /** Under the split loop's invariant, the next unexamined entry sits at index `|kept|` of bucket `b`. */
  lemma SplitLoopNext<V>(t: Table<V>, len: nat, nb: nat, b: nat, s: seq<Entry<V>>, p: nat,
                         kept: seq<Entry<V>>, moved: seq<Entry<V>>, bs: seq<seq<Entry<V>>>)
    requires SplitLoopInv(t, len, nb, b, s, p, kept, moved, bs)
    ensures |bs| == len + 1 && BitsFit(nb, len + 1) && b < len && |kept| <= |bs[b]|
    ensures |kept| == |bs[b]| <==> p == |s|
    ensures |kept| < |bs[b]| ==> bs[b][|kept|] == s[p]
  {
    RedistributeParts(t.buckets, b, kept + s[p..], moved);
  }

  /** An entry that still belongs to the split bucket stays where it is. */
  lemma SplitLoopKeep<V>(t: Table<V>, len: nat, nb: nat, b: nat, s: seq<Entry<V>>, p: nat,
                         kept: seq<Entry<V>>, moved: seq<Entry<V>>, bs: seq<seq<Entry<V>>>)
    requires SplitLoopInv(t, len, nb, b, s, p, kept, moved, bs)
    requires p < |s| && Bucket(s[p].key, nb, len + 1) == b
    ensures SplitLoopInv(t, len, nb, b, s, p + 1, kept + [s[p]], moved, bs)
  {
    SplitStep(s, p, nb, len + 1, b, kept, moved, kept + s[p..]);
  }

  /**
   * An entry that no longer belongs to the split bucket is removed from it, and pushing
   * it appends it to the new last bucket `len`.
   */
  lemma SplitLoopMove<V>(t: Table<V>, len: nat, nb: nat, b: nat, s: seq<Entry<V>>, p: nat,
                         kept: seq<Entry<V>>, moved: seq<Entry<V>>, bs: seq<seq<Entry<V>>>)
    requires SplitLoopInv(t, len, nb, b, s, p, kept, moved, bs)
    requires p < |s| && Bucket(s[p].key, nb, len + 1) != b
    ensures |bs| == len + 1 && |kept| < |bs[b]|
    ensures var bs' := bs[b := bs[b][..|kept|] + bs[b][|kept| + 1..]];
            && Bucket(s[p].key, nb, |bs'|) == len
            && SplitLoopInv(t, len, nb, b, s, p + 1, kept, moved + [s[p]],
                            bs'[len := bs'[len] + [Entry(s[p].key, s[p].value)]])
  {
    var e := s[p];
    RedistributeParts(t.buckets, b, kept + s[p..], moved);
    SplitStep(s, p, nb, len + 1, b, kept, moved, kept + s[p..]);
    assert Bucket(s[p].key, t.numBits, len) == b;
    BucketAfterSplit(e.key, t.numBits, len);
    RedistributeReplace(t.buckets, b, kept + s[p..], kept + s[p + 1..], moved, moved);
    RedistributeReplace(t.buckets, b, kept + s[p + 1..], kept + s[p + 1..], moved, moved + [e]);
  }

  /** The split loop's invariant holds before the first step. */
  lemma SplitLoopStart<V>(t: Table<V>, len: nat, nb: nat, b: nat)
    requires TableInv(t)
    requires len == |t.buckets| && nb == SplitBits(t.numBits, len) && b == SplitIndex(t.numBits, len)
    ensures SplitLoopInv(t, len, nb, b, t.buckets[b], 0, [], [], t.buckets + [[]])
  {
    var s := t.buckets[b];
    assert (t.buckets + [[]])[b] == s;
    assert s[..0] == [] && s[0..] == s;
    assert [] + s == s;
    assert t.buckets[b := s] == t.buckets;
  }

  /** When the split loop has examined the whole bucket, the buckets are those of `AfterSplit`. */
  lemma SplitLoopDone<V>(t: Table<V>, len: nat, nb: nat, b: nat, s: seq<Entry<V>>, p: nat,
                         kept: seq<Entry<V>>, moved: seq<Entry<V>>, bs: seq<seq<Entry<V>>>)
    requires SplitLoopInv(t, len, nb, b, s, p, kept, moved, bs) && p == |s|
    ensures AfterSplit(t) == Table(bs, nb, t.numItems + |moved|)
  {
    assert s[..p] == s && kept + s[p..] == kept;
  }

  /** Selecting by bucket keeps the first value of any key whose bucket agrees with the selection. */
  lemma {:induction false} FirstValueSelect<V>(s: seq<Entry<V>>, key: nat, numBits: nat, len: nat, b: nat, stay: bool)
    requires BitsFit(numBits, len)
    requires (Bucket(key, numBits, len) == b) == stay
    ensures FirstValue(Select(s, numBits, len, b, stay), key) == FirstValue(s, key)
  {
    if s != [] {
      FirstValueSelect(s[1..], key, numBits, len, b, stay);
    }
  }

  lemma {:induction false} FirstValueSnoc<V>(s: seq<Entry<V>>, e: Entry<V>, key: nat)
    ensures FirstValue(s + [e], key) ==
            if FirstValue(s, key).Some? || e.key != key then FirstValue(s, key) else Some(e.value)
  {
    if s == [] {
      assert [e][1..] == [];
    } else {
      assert (s + [e])[1..] == s[1..] + [e];
      FirstValueSnoc(s[1..], e, key);
    }
  }

  lemma {:induction false} EntriesSnoc<V>(bs: seq<seq<Entry<V>>>, x: seq<Entry<V>>)
    ensures Entries(bs + [x]) == Entries(bs) + multiset(x)
  {
    assert (bs + [x])[..|bs|] == bs;
  }

  lemma {:induction false} EntriesUpdate<V>(bs: seq<seq<Entry<V>>>, j: nat, x: seq<Entry<V>>)
    requires j < |bs|
    ensures Entries(bs[j := x]) + multiset(bs[j]) == Entries(bs) + multiset(x)
  {
    var n := |bs| - 1;
    var u := bs[j := x];
    if j == n {
      assert u[..n] == bs[..n];
    } else {
      assert u[..n] == bs[..n][j := x];
      EntriesUpdate(bs[..n], j, x);
      calc {
        Entries(u) + multiset(bs[j]);
        Entries(u[..n]) + multiset(u[n]) + multiset(bs[j]);
        Entries(bs[..n][j := x]) + multiset(bs[..n][j]) + multiset(bs[n]);
        Entries(bs[..n]) + multiset(x) + multiset(bs[n]);
        Entries(bs) + multiset(x);
      }
    }
  }

  lemma MultisetCancel<T>(a: multiset<T>, b: multiset<T>, m: multiset<T>)
    requires a + m == b + m
    ensures a == b
  {
    assert a == (a + m) - m;
    assert b == (b + m) - m;
  }

  /** Dropping the head of a bucket removes one occurrence of that entry. */
  lemma EntriesDropHead<V>(bs: seq<seq<Entry<V>>>, b: nat)
    requires b < |bs| && |bs[b]| > 0
    ensures Entries(bs[b := bs[b][1..]]) == Entries(bs) - multiset{bs[b][0]}
  {
    var s := bs[b];
    EntriesUpdate(bs, b, s[1..]);
    assert s == [s[0]] + s[1..];
    assert multiset(s) == multiset(s[1..]) + multiset{s[0]};
    MultisetCancel(Entries(bs[b := s[1..]]) + multiset{s[0]}, Entries(bs), multiset(s[1..]));
  }

  /** Replacing a bucket by one part of it and appending the other part keeps the entries. */
  lemma EntriesRedistribute<V>(bs: seq<seq<Entry<V>>>, b: nat, kept: seq<Entry<V>>, moved: seq<Entry<V>>,
                                after: seq<seq<Entry<V>>>)
    requires b < |bs| && multiset(kept) + multiset(moved) == multiset(bs[b])
    requires after == Redistribute(bs, b, kept, moved)
    ensures Entries(after) == Entries(bs)
  {
    EntriesUpdate(bs, b, kept);
    EntriesSnoc(bs[b := kept], moved);
    MultisetRegroup(Entries(bs[b := kept] + [moved]), Entries(bs[b := kept]), Entries(bs),
                    multiset(bs[b]), multiset(kept), multiset(moved));
  }

  lemma MultisetRegroup<T>(after: multiset<T>, rest: multiset<T>, all: multiset<T>,
                           whole: multiset<T>, kept: multiset<T>, moved: multiset<T>)
    requires after == rest + moved && rest + whole == all + kept && kept + moved == whole
    ensures after == all
  {
    calc {
      after + whole;
      (rest + whole) + moved;
      all + kept + moved;
      all + whole;
    }
    MultisetCancel(after, all, whole);
  }

  // ---------------------------------------------------------------------------
  // Properties of split, put and remove

  /** A split keeps the bit range and leaves every entry in its key's bucket. */
  lemma SplitKeepsInv<V>(t: Table<V>)
    requires TableInv(t)
    ensures TableInv(AfterSplit(t))
  {
    var u := AfterSplit(t);
    SplitShape(t);
    RedistributeParts(t.buckets, SplitIndex(t.numBits, |t.buckets|),
                      Select(t.buckets[SplitIndex(t.numBits, |t.buckets|)], u.numBits, |t.buckets| + 1, SplitIndex(t.numBits, |t.buckets|), true),
                      Select(t.buckets[SplitIndex(t.numBits, |t.buckets|)], u.numBits, |t.buckets| + 1, SplitIndex(t.numBits, |t.buckets|), false));
    forall j, i | 0 <= j < |u.buckets| && 0 <= i < |u.buckets[j]|
      ensures Bucket(u.buckets[j][i].key, u.numBits, |u.buckets|) == j
    {
      SplitEntryBucket(t, u.buckets, j, u.buckets[j][i]);
    }
  }

  /** An entry of bucket `j` after a split belongs to bucket `j` under the new addressing. */
  lemma SplitEntryBucket<V>(t: Table<V>, after: seq<seq<Entry<V>>>, j: nat, e: Entry<V>)
    requires TableInv(t)
    requires var b := SplitIndex(t.numBits, |t.buckets|);
             var nb := SplitBits(t.numBits, |t.buckets|);
             after == Redistribute(t.buckets, b, Select(t.buckets[b], nb, |t.buckets| + 1, b, true),
                                   Select(t.buckets[b], nb, |t.buckets| + 1, b, false))
    requires j < |after| && e in after[j]
    ensures Bucket(e.key, SplitBits(t.numBits, |t.buckets|), |t.buckets| + 1) == j
  {
    var len := |t.buckets|;
    var nb := SplitBits(t.numBits, len);
    var b := SplitIndex(t.numBits, len);
    var s := t.buckets[b];
    BucketAfterSplit(e.key, t.numBits, len);
    if j == len {
      SelectMembers(s, nb, len + 1, b, false, e);
      var m :| 0 <= m < |s| && s[m] == e;
      assert Bucket(s[m].key, t.numBits, len) == b;
    } else if j == b {
      SelectMembers(s, nb, len + 1, b, true, e);
    } else {
      var m :| 0 <= m < |t.buckets[j]| && t.buckets[j][m] == e;
      assert Bucket(t.buckets[j][m].key, t.numBits, len) == j;
    }
  }

  /** The buckets after a split, with the two selections named. */
  lemma SplitShape<V>(t: Table<V>)
    requires BitsFit(t.numBits, |t.buckets|)
    ensures var b := SplitIndex(t.numBits, |t.buckets|);
            var nb := SplitBits(t.numBits, |t.buckets|);
            AfterSplit(t).buckets ==
              Redistribute(t.buckets, b, Select(t.buckets[b], nb, |t.buckets| + 1, b, true),
                           Select(t.buckets[b], nb, |t.buckets| + 1, b, false))
  {
  }

  /** A split neither loses nor duplicates entries. */
  lemma SplitKeepsEntries<V>(t: Table<V>)
    requires BitsFit(t.numBits, |t.buckets|)
    ensures Entries(AfterSplit(t).buckets) == Entries(t.buckets)
  {
    var b := SplitIndex(t.numBits, |t.buckets|);
    var nb := SplitBits(t.numBits, |t.buckets|);
    var s := t.buckets[b];
    SplitShape(t);
    SelectPartition(s, nb, |t.buckets| + 1, b);
    EntriesRedistribute(t.buckets, b, Select(s, nb, |t.buckets| + 1, b, true),
                        Select(s, nb, |t.buckets| + 1, b, false), AfterSplit(t).buckets);
  }

  /** A split changes no lookup result. */
  lemma SplitKeepsLookup<V>(t: Table<V>, key: nat)
    requires TableInv(t)
    ensures Lookup(AfterSplit(t), key) == Lookup(t, key)
  {
    SplitShape(t);
    SplitLookupIn(t, AfterSplit(t).buckets, key);
  }

  /** The bucket a key maps to after a split has the same first value for it as before. */
  lemma SplitLookupIn<V>(t: Table<V>, after: seq<seq<Entry<V>>>, key: nat)
    requires TableInv(t)
    requires var b := SplitIndex(t.numBits, |t.buckets|);
             var nb := SplitBits(t.numBits, |t.buckets|);
             after == Redistribute(t.buckets, b, Select(t.buckets[b], nb, |t.buckets| + 1, b, true),
                                   Select(t.buckets[b], nb, |t.buckets| + 1, b, false))
    ensures |after| == |t.buckets| + 1
    ensures FirstValue(after[Bucket(key, SplitBits(t.numBits, |t.buckets|), |t.buckets| + 1)], key) == Lookup(t, key)
  {
    var len := |t.buckets|;
    var nb := SplitBits(t.numBits, len);
    var b := SplitIndex(t.numBits, len);
    var kept := Select(t.buckets[b], nb, len + 1, b, true);
    var moved := Select(t.buckets[b], nb, len + 1, b, false);
    RedistributeParts(t.buckets, b, kept, moved);
    BucketAfterSplit(key, t.numBits, len);
    SplitLookupCases(t.buckets, after, key, Bucket(key, t.numBits, len), Bucket(key, nb, len + 1), nb, b);
  }

  /** The case analysis of `SplitLookupIn`, on the bucket of `key` before and after. */
  lemma SplitLookupCases<V>(bs: seq<seq<Entry<V>>>, after: seq<seq<Entry<V>>>, key: nat,
                            before: nat, now: nat, nb: nat, b: nat)
    requires BitsFit(nb, |bs| + 1) && b < |bs| && before < |bs| && now < |after|
    requires |after| == |bs| + 1 && after[b] == Select(bs[b], nb, |bs| + 1, b, true)
    requires after[|bs|] == Select(bs[b], nb, |bs| + 1, b, false)
    requires forall j :: 0 <= j < |bs| && j != b ==> after[j] == bs[j]
    requires now == Bucket(key, nb, |bs| + 1)
    requires before != b ==> now == before
    requires before == b ==> now == b || now == |bs|
    ensures FirstValue(after[now], key) == FirstValue(bs[before], key)
  {
    if before != b {
      assert after[now] == bs[before];
    } else {
      SplitLookupSelected(bs[b], after[now], key, nb, |bs| + 1, b, now == b);
    }
  }

  /** A key's first value survives the selection its bucket falls into. */
  lemma SplitLookupSelected<V>(s: seq<Entry<V>>, r: seq<Entry<V>>, key: nat, nb: nat, len: nat, b: nat, stay: bool)
    requires BitsFit(nb, len)
    requires (Bucket(key, nb, len) == b) == stay
    requires r == Select(s, nb, len, b, stay)
    ensures FirstValue(r, key) == FirstValue(s, key)
  {
    FirstValueSelect(s, key, nb, len, b, stay);
  }

  /** A push keeps the invariant. */
  lemma PushKeepsInv<V>(t: Table<V>, k: nat, v: V)
    requires TableInv(t)
    ensures TableInv(AfterPush(t, k, v))
  {
    var b := Bucket(k, t.numBits, |t.buckets|);
    var u := AfterPush(t, k, v);
    assert u.numBits == t.numBits && |u.buckets| == |t.buckets|;
    forall j, i | 0 <= j < |u.buckets| && 0 <= i < |u.buckets[j]|
      ensures Bucket(u.buckets[j][i].key, t.numBits, |t.buckets|) == j
    {
      if j != b || i < |t.buckets[b]| {
        assert u.buckets[j][i] == t.buckets[j][i];
      } else {
        assert u.buckets[j][i] == Entry(k, v);
      }
    }
  }

  /** A push stores exactly one more entry. */
  lemma PushEntries<V>(t: Table<V>, k: nat, v: V)
    requires BitsFit(t.numBits, |t.buckets|)
    ensures Entries(AfterPush(t, k, v).buckets) == Entries(t.buckets) + multiset{Entry(k, v)}
  {
    var b := Bucket(k, t.numBits, |t.buckets|);
    var x := t.buckets[b] + [Entry(k, v)];
    EntriesUpdate(t.buckets, b, x);
    assert multiset(x) == multiset(t.buckets[b]) + multiset{Entry(k, v)};
    MultisetCancel(Entries(t.buckets[b := x]), Entries(t.buckets) + multiset{Entry(k, v)}, multiset(t.buckets[b]));
  }

  /** A push makes `k` map to `v` unless `k` already had a value; other keys are untouched. */
  lemma PushLookup<V>(t: Table<V>, k: nat, v: V, key: nat)
    requires BitsFit(t.numBits, |t.buckets|)
    ensures Lookup(AfterPush(t, k, v), key) ==
            if key == k && Lookup(t, k).None? then Some(v) else Lookup(t, key)
  {
    var b := Bucket(k, t.numBits, |t.buckets|);
    if Bucket(key, t.numBits, |t.buckets|) == b {
      FirstValueSnoc(t.buckets[b], Entry(k, v), key);
    }
  }

  /** `put` keeps the table invariant and stores exactly one more entry. */
  lemma PutKeepsInv<V>(t: Table<V>, k: nat, v: V)
    requires TableInv(t)
    ensures TableInv(AfterPut(t, k, v))
    ensures Entries(AfterPut(t, k, v).buckets) == Entries(t.buckets) + multiset{Entry(k, v)}
  {
    PushKeepsInv(t, k, v);
    PushEntries(t, k, v);
    var t1 := AfterPush(t, k, v);
    if ShouldSplit(t1.numItems, |t1.buckets|) {
      SplitKeepsInv(t1);
      SplitKeepsEntries(t1);
    }
  }

  /**
   * After `put(k, v)`, `get(k)` is `v` when `k` had no entry before and is unchanged
   * otherwise (put appends, so an older entry shadows the new one); every other key
   * keeps its result.
   */
  lemma PutLookup<V>(t: Table<V>, k: nat, v: V, key: nat)
    requires TableInv(t)
    ensures Lookup(AfterPut(t, k, v), key) ==
            if key == k && Lookup(t, k).None? then Some(v) else Lookup(t, key)
  {
    PushKeepsInv(t, k, v);
    PushLookup(t, k, v, key);
    var t1 := AfterPush(t, k, v);
    if ShouldSplit(t1.numItems, |t1.buckets|) {
      SplitKeepsLookup(t1, key);
    }
  }

  /**
   * `put` counts one item for the new entry and one more for every entry a split moves,
   * so the item count never falls below the number of stored entries and the surplus
   * only grows; without a split the count rises by exactly one.
   */
  lemma PutCounts<V>(t: Table<V>, k: nat, v: V)
    requires TableInv(t)
    ensures var u := AfterPut(t, k, v);
            && |Entries(u.buckets)| == |Entries(t.buckets)| + 1
            && u.numItems - |Entries(u.buckets)| >= t.numItems - |Entries(t.buckets)|
            && (!ShouldSplit(t.numItems + 1, |t.buckets|) ==> u.numItems == t.numItems + 1)
  {
    PutKeepsInv(t, k, v);
    var t1 := AfterPush(t, k, v);
    assert t1.numItems == t.numItems + 1 && |t1.buckets| == |t.buckets|;
    if ShouldSplit(t1.numItems, |t1.buckets|) {
      assert AfterPut(t, k, v) == AfterSplit(t1);
      assert AfterSplit(t1).numItems >= t1.numItems;
    }
  }

  /** A lookup is `None` exactly when no bucket holds an entry for the key. */
  lemma LookupNoneIffAbsent<V>(t: Table<V>, key: nat)
    requires TableInv(t)
    ensures Lookup(t, key).None? <==>
            forall j, i :: 0 <= j < |t.buckets| && 0 <= i < |t.buckets[j]| ==> t.buckets[j][i].key != key
  {
    if Lookup(t, key).None? {
      forall j, i | 0 <= j < |t.buckets| && 0 <= i < |t.buckets[j]|
        ensures t.buckets[j][i].key != key
      {
        assert Bucket(t.buckets[j][i].key, t.numBits, |t.buckets|) == j;
      }
    }
  }

  /** `remove` keeps the invariant. */
  lemma RemoveKeepsInv<V>(t: Table<V>, key: nat)
    requires TableInv(t) && t.numItems > 0
    ensures TableInv(AfterRemove(t, key))
  {
    var b := Bucket(key, t.numBits, |t.buckets|);
    var s := t.buckets[b];
    var u := AfterRemove(t, key);
    assert u.numBits == t.numBits && |u.buckets| == |t.buckets|;
    forall j, i | 0 <= j < |u.buckets| && 0 <= i < |u.buckets[j]|
      ensures Bucket(u.buckets[j][i].key, t.numBits, |t.buckets|) == j
    {
      if j == b && |s| > 0 && s[0].key == key {
        assert u.buckets[j][i] == t.buckets[j][i + 1];
      } else {
        assert u.buckets[j][i] == t.buckets[j][i];
      }
    }
  }

  /** `remove` deletes exactly the head of the key's bucket when that head holds the key, and nothing otherwise. */
  lemma RemoveEntries<V>(t: Table<V>, key: nat)
    requires BitsFit(t.numBits, |t.buckets|) && t.numItems > 0
    ensures var s := t.buckets[Bucket(key, t.numBits, |t.buckets|)];
            Entries(AfterRemove(t, key).buckets) ==
              if |s| > 0 && s[0].key == key then Entries(t.buckets) - multiset{s[0]} else Entries(t.buckets)
  {
    var b := Bucket(key, t.numBits, |t.buckets|);
    if |t.buckets[b]| > 0 && t.buckets[b][0].key == key {
      EntriesDropHead(t.buckets, b);
    }
  }

  /**
   * After `remove(key)` every other key keeps its lookup. `key` itself loses the entry
   * at the head of its bucket only; with any other layout its lookup is unchanged, so a
   * present key not at index 0 is still found.
   */
  lemma RemoveLookup<V>(t: Table<V>, key: nat, other: nat)
    requires TableInv(t) && t.numItems > 0
    ensures other != key ==> Lookup(AfterRemove(t, key), other) == Lookup(t, other)
    ensures var s := t.buckets[Bucket(key, t.numBits, |t.buckets|)];
            Lookup(AfterRemove(t, key), key) ==
              if |s| > 0 && s[0].key == key then FirstValue(s[1..], key) else Lookup(t, key)
  {
  }

  /** The `put_get` unit test: four inserts into a fresh table, then five lookups. */
  lemma PutGetTest()
    ensures var t := AfterPut(AfterPut(AfterPut(AfterPut(EmptyTable(), 42, 100), 43, 200), 44, 300), 45, 400);
            Lookup(t, 42) == Some(100) && Lookup(t, 43) == Some(200) &&
            Lookup(t, 44) == Some(300) && Lookup(t, 45) == Some(400) && Lookup(t, 46) == None
  {
    var t0: Table<int> := EmptyTable();
    var t1 := AfterPut(t0, 42, 100);
    var t2 := AfterPut(t1, 43, 200);
    var t3 := AfterPut(t2, 44, 300);
    var t4 := AfterPut(t3, 45, 400);
    PutKeepsInv(t0, 42, 100);
    PutKeepsInv(t1, 43, 200);
    PutKeepsInv(t2, 44, 300);
    forall key | key in {42, 43, 44, 45, 46}
      ensures Lookup(t4, key) == (if key == 42 then Some(100) else if key == 43 then Some(200)
                                  else if key == 44 then Some(300) else if key == 45 then Some(400) else None)
    {
      PutLookup(t0, 42, 100, key);
      PutLookup(t1, 43, 200, key);
      PutLookup(t2, 44, 300, key);
      PutLookup(t3, 45, 400, key);
    }
  }

  /**
   * The `split` unit test: after four inserts one split leaves two buckets of two
   * entries; the two moves raise the item count to six.
   */
  lemma SplitTest()
    ensures var t := AfterPut(AfterPut(AfterPut(AfterPut(EmptyTable(), 42, 100), 43, 200), 44, 300), 45, 400);
            var u := AfterSplit(t);
            |u.buckets| == 2 && |u.buckets[0]| == 2 && |u.buckets[1]| == 2 && u.numItems == 6
  {
    FourPuts();
    SplitOfFour();
  }

  /** Splitting the one bucket holding the four test entries separates even keys from odd ones. */
  lemma SplitOfFour()
    ensures var u := AfterSplit(Table([[Entry(42, 100), Entry(43, 200), Entry(44, 300), Entry(45, 400)]], 1, 4));
            u.buckets == [[Entry(42, 100), Entry(44, 300)], [Entry(43, 200), Entry(45, 400)]] && u.numItems == 6
  {
    var s := [Entry(42, 100), Entry(43, 200), Entry(44, 300), Entry(45, 400)];
    assert Pow2(1) == 2 && Pow2(0) == 1;
    assert SplitBits(1, 1) == 1 && SplitIndex(1, 1) == 0;
    assert Bucket(42, 1, 2) == 0 && Bucket(43, 1, 2) == 1 && Bucket(44, 1, 2) == 0 && Bucket(45, 1, 2) == 1;
    assert s[1..][1..][1..][1..] == [];
    assert Select(s[1..][1..][1..], 1, 2, 0, true) == [];
    assert Select(s[1..][1..], 1, 2, 0, true) == [Entry(44, 300)];
    assert Select(s, 1, 2, 0, true) == [Entry(42, 100), Entry(44, 300)];
    assert Select(s[1..][1..][1..], 1, 2, 0, false) == [Entry(45, 400)];
    assert Select(s[1..][1..], 1, 2, 0, false) == [Entry(45, 400)];
    assert Select(s, 1, 2, 0, false) == [Entry(43, 200), Entry(45, 400)];
  }

  /** The four inserts of the `put_get` and `split` unit tests all land in the single first bucket. */
  lemma FourPuts()
    ensures AfterPut(AfterPut(AfterPut(AfterPut(EmptyTable(), 42, 100), 43, 200), 44, 300), 45, 400) ==
            Table([[Entry(42, 100), Entry(43, 200), Entry(44, 300), Entry(45, 400)]], 1, 4)
  {
    var t0: Table<int> := EmptyTable();
    var t1 := AfterPut(t0, 42, 100);
    var t2 := AfterPut(t1, 43, 200);
    var t3 := AfterPut(t2, 44, 300);
    PutIntoOneBucket(t0, 42, 100);
    PutIntoOneBucket(t1, 43, 200);
    PutIntoOneBucket(t2, 44, 300);
    assert t0.buckets[0] + [Entry(42, 100)] == [Entry(42, 100)];
    assert t1 == Table([[Entry(42, 100)]], 1, 1);
    assert t1.buckets[0] + [Entry(43, 200)] == [Entry(42, 100), Entry(43, 200)];
    assert t2 == Table([[Entry(42, 100), Entry(43, 200)]], 1, 2);
    assert t2.buckets[0] + [Entry(44, 300)] == [Entry(42, 100), Entry(43, 200), Entry(44, 300)];
    assert t3 == Table([[Entry(42, 100), Entry(43, 200), Entry(44, 300)]], 1, 3);
    PutIntoOneBucket(t3, 45, 400);
    assert t3.buckets[0] + [Entry(45, 400)] == [Entry(42, 100), Entry(43, 200), Entry(44, 300), Entry(45, 400)];
  }

  /** While a table has one bucket and at most eight items, `put` appends to that bucket. */
  lemma PutIntoOneBucket<V>(t: Table<V>, k: nat, v: V)
    requires |t.buckets| == 1 && t.numBits == 1 && t.numItems < 8
    ensures AfterPut(t, k, v) == Table([t.buckets[0] + [Entry(k, v)]], 1, t.numItems + 1)
  {
    assert Pow2(1) == 2 && Pow2(0) == 1;
    assert Bucket(k, 1, 1) == 0;
  }

  /** The `remove` unit test: two inserts, then removing the first key hides it and keeps the second. */
  lemma RemoveTest()
    ensures var t := AfterRemove(AfterPut(AfterPut(EmptyTable(), 42, 100), 43, 200), 42);
            Lookup(t, 42) == None && Lookup(t, 43) == Some(200)
  {
    var t0: Table<int> := EmptyTable();
    var t1 := AfterPut(t0, 42, 100);
    var t2 := AfterPut(t1, 43, 200);
    PutIntoOneBucket(t0, 42, 100);
    assert t0.buckets[0] + [Entry(42, 100)] == [Entry(42, 100)];
    assert t1 == Table([[Entry(42, 100)]], 1, 1);
    PutIntoOneBucket(t1, 43, 200);
    assert t1.buckets[0] + [Entry(43, 200)] == [Entry(42, 100), Entry(43, 200)];
    assert t2 == Table([[Entry(42, 100), Entry(43, 200)]], 1, 2);
    assert Pow2(1) == 2 && Pow2(0) == 1;
    assert Bucket(42, 1, 1) == 0 && Bucket(43, 1, 1) == 0;
    assert AfterRemove(t2, 42) == Table([[Entry(43, 200)]], 1, 1);
  }

  // ---------------------------------------------------------------------------
  // The table object

  class HashTable<V> {
    var buckets: seq<seq<Entry<V>>>
    var numBits: nat
    var numItems: nat

    function State(): Table<V>
      reads this
    {
      Table(buckets, numBits, numItems)
    }

    ghost predicate Valid()
      reads this
    {
      TableInv(State())
    }

    /** `HashTable::new`. */
    constructor ()
      ensures Valid() && State() == EmptyTable()
    {
      buckets := [[]];
      numBits := 1;
      numItems := 0;
    }

    /** The append-and-count half of `put`, also used by `split` to relocate an entry. */
    method Push(k: nat, v: V)
      requires BitsFit(numBits, |buckets|)
      modifies this
      ensures State() == AfterPush(old(State()), k, v)
      ensures numBits == old(numBits)
    {
      var b := Bucket(k, numBits, |buckets|);
      buckets := buckets[b := buckets[b] + [Entry(k, v)]];
      numItems := numItems + 1;
    }

    method Put(k: nat, v: V)
      requires Valid()
      modifies this
      ensures Valid() && State() == AfterPut(old(State()), k, v)
    {
      Push(k, v);
      PushKeepsInv(old(State()), k, v);
      if ShouldSplit(numItems, |buckets|) {
        Split();
      }
    }

    /** `get`: scan the key's bucket for the first entry with the key. */
    method Get(key: nat) returns (r: Option<V>)
      requires Valid()
      ensures r == Lookup(State(), key)
    {
      var s := buckets[Bucket(key, numBits, |buckets|)];
      for i := 0 to |s|
        invariant FirstValue(s[i..], key) == FirstValue(s, key)
      {
        assert s[i..][1..] == s[i + 1..];
        if s[i].key == key {
          return Some(s[i].value);
        }
      }
      return None;
    }

    /** `remove`: the loop always breaks after examining index 0. */
    method Remove(key: nat)
      requires Valid() && numItems > 0
      modifies this
      ensures Valid() && State() == AfterRemove(old(State()), key)
    {
      var b := Bucket(key, numBits, |buckets|);
      for i := 0 to |buckets[b]|
        invariant i == 0 && buckets == old(buckets)
      {
        if buckets[b][i].key == key {
          assert buckets[b][..i] + buckets[b][i + 1..] == buckets[b][1..];
          buckets := buckets[b := buckets[b][..i] + buckets[b][i + 1..]];
        }
        break;
      }
      numItems := numItems - 1;
      RemoveKeepsInv(old(State()), key);
    }

    /** `split`: grow by one bucket and move out of the split bucket what no longer belongs there. */
    method Split()
      requires Valid()
      modifies this
      ensures Valid() && State() == AfterSplit(old(State()))
    {
      ghost var t := State();
      var len := |buckets|;
      if len == Pow2(numBits) {
        numBits := numBits + 1;
      }
      var bSplit := len - Pow2(numBits - 1);
      buckets := buckets + [[]];
      SplitLoopStart(t, len, numBits, bSplit);
      SplitBucket(t, len, bSplit);
      SplitKeepsInv(t);
    }

    /**
     * The loop of `split`: walk the split bucket `bSplit`, keeping the entries that still
     * belong there and removing and pushing the others.
     */
    method SplitBucket(ghost t: Table<V>, len: nat, bSplit: nat)
      requires bSplit < |t.buckets|
      requires SplitLoopInv(t, len, numBits, bSplit, t.buckets[bSplit], 0, [], [], buckets)
      requires numItems == t.numItems
      modifies this
      ensures State() == AfterSplit(t)
    {
      ghost var orig := t.buckets[bSplit];
      ghost var p := 0;
      ghost var kept: seq<Entry<V>> := [];
      ghost var moved: seq<Entry<V>> := [];
      var i := 0;
      while i != |buckets[bSplit]|
        invariant SplitLoopInv(t, len, numBits, bSplit, orig, p, kept, moved, buckets)
        invariant i == |kept| && numItems == t.numItems + |moved|
        decreases |orig| - p
      {
        SplitLoopNext(t, len, numBits, bSplit, orig, p, kept, moved, buckets);
        var e := buckets[bSplit][i];
        if Bucket(e.key, numBits, |buckets|) != bSplit {
          SplitLoopMove(t, len, numBits, bSplit, orig, p, kept, moved, buckets);
          buckets := buckets[bSplit := buckets[bSplit][..i] + buckets[bSplit][i + 1..]];
          Push(e.key, e.value);
          moved := moved + [e];
        } else {
          SplitLoopKeep(t, len, numBits, bSplit, orig, p, kept, moved, buckets);
          kept := kept + [e];
          i := i + 1;
        }
        p := p + 1;
      }
      SplitLoopNext(t, len, numBits, bSplit, orig, p, kept, moved, buckets);
      SplitLoopDone(t, len, numBits, bSplit, orig, p, kept, moved, buckets);
    }
  }
}
