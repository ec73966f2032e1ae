/** The least-frequently-used cache, `lfucache/src/lib.rs`: one set of shared
    entries under three indexes, a hash table, a frequency order and a recency list.
    An entry has a 16-bit frequency, and the tick of its last use; the least recent
    one has its frequency divided down before an entry of the smallest goes. */
module Lfu {
  import opened Wrappers
  import opened Sequences
  import Bits

  const MAX_FREQ: nat := 0xffff
  const TICK_LIMIT: nat := 0x1_0000_0000

  class Entry<K, V> {
    const key: K
    const value: V
    var freq: nat
    var lastTick: nat

    constructor (key: K, value: V, tick: nat)
      ensures this.key == key && this.value == value && freq == 0 && lastTick == tick
    {
      this.key, this.value, freq, lastTick := key, value, 0, tick;
    }
  }

  // ----- Lists of entries -----

  ghost predicate IsLast<T>(s: seq<T>, x: T) { s != [] && s[|s| - 1] == x }

  /** The list without the first `x`. */
  function Without<T(==)>(s: seq<T>, x: T): seq<T> {
    if s == [] then [] else if s[0] == x then s[1..] else [s[0]] + Without(s[1..], x)
  }

  lemma {:induction false} WithoutAt<T>(s: seq<T>, x: T) returns (i: nat)
    requires x in s
    ensures i < |s| && s[i] == x && Without(s, x) == s[..i] + s[i + 1..]
  {
    if s[0] == x {
      i := 0;
    } else {
      i := WithoutAt(s[1..], x);
      i := i + 1;
      assert s[..i] + s[i + 1..] == [s[0]] + (s[1..][..i - 1] + s[1..][i..]);
    }
  }

  lemma {:induction false} WithoutKeeps<T>(s: seq<T>, x: T)
    requires x in s && NoRepeats(s)
    ensures NoRepeats(Without(s, x)) && |Without(s, x)| == |s| - 1
    ensures ToSet(Without(s, x)) == ToSet(s) - {x}
  {
    var i := WithoutAt(s, x);
    forall y | y in s && y != x
      ensures y in s[..i] + s[i + 1..]
    {
      var j :| 0 <= j < |s| && s[j] == y;
      assert y == if j < i then s[..i][j] else s[i + 1..][j - i - 1];
    }
  }

  ghost predicate KeysDistinct<K, V>(es: set<Entry<K, V>>) {
    forall e, f | e in es && f in es :: e.key == f.key ==> e == f
  }

  ghost predicate Sorted<K, V>(es: seq<Entry<K, V>>)
    reads es
  {
    forall i, j :: 0 <= i < j < |es| ==> es[i].freq <= es[j].freq
  }

  ghost function KeysOf<K, V>(es: set<Entry<K, V>>): set<K> { set e | e in es :: e.key }

  ghost function EntryOf<K, V>(es: set<Entry<K, V>>, k: K): (e: Entry<K, V>)
    requires k in KeysOf(es)
    ensures e in es && e.key == k
  {
    var e :| e in es && e.key == k;
    e
  }

  /** The mapping that a set of entries stands for. */
  ghost function Model<K, V>(es: set<Entry<K, V>>): (m: map<K, V>)
    requires KeysDistinct(es)
  {
    map k | k in KeysOf(es) :: EntryOf(es, k).value
  }

  lemma {:induction false} ModelMinus<K, V>(es: set<Entry<K, V>>, x: Entry<K, V>)
    requires KeysDistinct(es) && x in es
    ensures KeysDistinct(es - {x}) && Model(es - {x}) == Model(es) - {x.key}
  {
  }

  lemma {:induction false} ModelPlus<K, V>(es: set<Entry<K, V>>, x: Entry<K, V>)
    requires KeysDistinct(es) && x.key !in Model(es)
    ensures KeysDistinct(es + {x}) && Model(es + {x}) == Model(es)[x.key := x.value]
  {
    assert forall e :: e in es ==> e.key in Model(es);
  }

  /** The entries of other keys that are not gone. */
  ghost function Others<K, V>(es: set<Entry<K, V>>, k: K, gone: Option<Entry<K, V>>): set<Entry<K, V>> {
    set e | e in es && e.key != k && gone != Some(e)
  }

  lemma {:induction false} OthersOfPrior<K, V>(es: set<Entry<K, V>>, prior: Entry<K, V>)
    requires KeysDistinct(es) && prior in es
    ensures Others(es, prior.key, None) == es - {prior}
  {
  }

  lemma {:induction false} OthersOfNew<K, V>(es: set<Entry<K, V>>, k: K, gone: Option<Entry<K, V>>)
    requires KeysDistinct(es) && k !in Model(es)
    ensures Others(es, k, gone) == es - (if gone.Some? then {gone.value} else {})
  {
    assert forall e | e in es :: e.key in Model(es);
  }

  ghost predicate PartOf<K, V>(m: map<K, V>, n: map<K, V>) {
    forall k :: k in m ==> k in n && m[k] == n[k]
  }

  /** `n / d` by counting. */
  function Quotient(n: nat, d: nat): (q: nat)
    requires d > 0
    ensures q <= n
  {
    if n < d then 0 else 1 + Quotient(n - d, d)
  }

  lemma {:induction false} QuotientLeaves(n: nat, d: nat) returns (r: nat)
    requires d > 0
    ensures r < d && n == Quotient(n, d) * d + r
  {
    if n < d {
      r := n;
    } else {
      r := QuotientLeaves(n - d, d);
      assert (1 + Quotient(n - d, d)) * d == d + Quotient(n - d, d) * d;
    }
  }

  lemma {:induction false} QuotientDivides(n: nat, d: nat)
    requires d > 0
    ensures Quotient(n, d) == n / d
  {
    var r := QuotientLeaves(n, d);
    DivisionIsUnique(n, d, Quotient(n, d), r);
  }

  lemma {:induction false} DivisionIsUnique(n: nat, d: nat, q: nat, r: nat)
    requires 0 <= r < d && n == q * d + r
    ensures n / d == q
  {
    var (p, m) := (n / d, n % d);
    assert n == p * d + m;
    Apart(q - p, d, m - r);
  }

  lemma {:induction false} Apart(k: int, d: int, m: int)
    requires k * d == m && -d < m < d
    ensures k == 0
  {
    assert k >= 1 ==> k * d >= d;
    assert k <= -1 ==> k * d <= -d;
  }

  /** A frequency after decay: divided by a tenth of the ticks since the last
      use, that tenth cut to 16 bits, unless it is 0 or 1. */
  function Decayed(freq: nat, lastTick: nat, tick: nat): (r: nat)
    ensures r <= freq
  {
    if Decays(freq, lastTick, tick) then Quotient(freq, (tick - lastTick) / 10 % 0x1_0000) else freq
  }

  predicate Decays(freq: nat, lastTick: nat, tick: nat) { freq != 0 && (tick - lastTick) / 10 % 0x1_0000 > 1 }

  lemma {:induction false} DecayedDivides(freq: nat, lastTick: nat, tick: nat)
    ensures var d := (tick - lastTick) / 10 % 0x1_0000;
            Decayed(freq, lastTick, tick) == if d > 1 then freq / d else freq
  {
    var d := (tick - lastTick) / 10 % 0x1_0000;
    if d > 1 {
      QuotientDivides(freq, d);
      DivisionIsUnique(0, d, 0, 0);
    }
  }

  /** What a decay step, if there is one, makes of the frequency of `e`: only the last
      in the order of recency decays. */
  ghost function FreqAfter<K, V>(e: Entry<K, V>, decay: bool, recency: seq<Entry<K, V>>, tick: nat): nat
    reads e
  {
    if decay && IsLast(recency, e) then Decayed(e.freq, e.lastTick, tick) else e.freq
  }

  /** An entry that has decayed goes to the front, not to be looked at again at once. */
  ghost function RecencyAfter<K, V>(recency: seq<Entry<K, V>>, tick: nat): seq<Entry<K, V>>
    reads recency
  {
    var n := |recency| - 1;
    if recency != [] && Decays(recency[n].freq, recency[n].lastTick, tick) then [recency[n]] + recency[..n] else recency
  }

  /** The order of recency once `gone` has been evicted. */
  ghost function RecencyLeft<K, V>(recency: seq<Entry<K, V>>, gone: Option<Entry<K, V>>, tick: nat): seq<Entry<K, V>>
    reads recency
  {
    if gone.Some? then Without(RecencyAfter(recency, tick), gone.value) else recency
  }

  /** `x` is the one to go: after a decay step no entry has a smaller frequency. */
  ghost predicate Smallest<K, V>(x: Entry<K, V>, es: set<Entry<K, V>>, recency: seq<Entry<K, V>>, tick: nat)
    reads x, es
  {
    x in es && forall e | e in es :: FreqAfter(x, true, recency, tick) <= FreqAfter(e, true, recency, tick)
  }

  // ----- Runs of evictions -----

  /** The frequencies of the entries held, and their order of recency. */
  datatype Ranks<!K, !V> = Ranks(freq: map<Entry<K, V>, nat>, recency: seq<Entry<K, V>>)

  ghost function FreqOf<K, V>(es: set<Entry<K, V>>): map<Entry<K, V>, nat>
    reads es
  {
    map e | e in es :: e.freq
  }

  ghost function TicksOf<K, V>(es: set<Entry<K, V>>): map<Entry<K, V>, nat>
    reads es
  {
    map e | e in es :: e.lastTick
  }

  ghost predicate UsedAt<K, V>(es: set<Entry<K, V>>, ticks: map<Entry<K, V>, nat>)
    reads es
  {
    forall e | e in es :: e in ticks && ticks[e] == e.lastTick
  }

  /** The decay step: the least recent entry decays and goes to the front. */
  ghost function Decay<K, V>(r: Ranks<K, V>, ticks: map<Entry<K, V>, nat>, tick: nat): Ranks<K, V> {
    var n := |r.recency| - 1;
    if r.recency == [] || r.recency[n] !in r.freq || r.recency[n] !in ticks then r
    else
      var e := r.recency[n];
      if !Decays(r.freq[e], ticks[e], tick) then r
      else Ranks(r.freq[e := Decayed(r.freq[e], ticks[e], tick)], [e] + r.recency[..n])
  }

  ghost function Drop<K, V>(r: Ranks<K, V>, x: Entry<K, V>): Ranks<K, V> {
    Ranks(r.freq - {x}, Without(r.recency, x))
  }

  ghost predicate Lowest<K, V>(freq: map<Entry<K, V>, nat>, x: Entry<K, V>) {
    x in freq && forall e | e in freq :: freq[x] <= freq[e]
  }

  /** What is left once `gone` have been evicted one after the other. */
  ghost function Dropped<K, V>(r: Ranks<K, V>, ticks: map<Entry<K, V>, nat>, tick: nat, gone: seq<Entry<K, V>>)
    : Ranks<K, V>
  {
    if gone == [] then r
    else
      var n := |gone| - 1;
      Drop(Decay(Dropped(r, ticks, tick, gone[..n]), ticks, tick), gone[n])
  }

  /** Each of `gone` had the lowest frequency, after the decay step, of all entries then left. */
  ghost predicate LowestGo<K, V>(r: Ranks<K, V>, ticks: map<Entry<K, V>, nat>, tick: nat, gone: seq<Entry<K, V>>) {
    gone != [] ==>
      var n := |gone| - 1;
      && LowestGo(r, ticks, tick, gone[..n])
      && Lowest(Decay(Dropped(r, ticks, tick, gone[..n]), ticks, tick).freq, gone[n])
  }

  /** Evicting `gone` leads from one ranking to the other. */
  ghost predicate EvictionRun<K, V>(r: Ranks<K, V>, ticks: map<Entry<K, V>, nat>, tick: nat, gone: seq<Entry<K, V>>,
                                    left: Ranks<K, V>)
  {
    LowestGo(r, ticks, tick, gone) && left == Dropped(r, ticks, tick, gone)
  }

  lemma {:induction false} NothingGone<K, V>(r: Ranks<K, V>, ticks: map<Entry<K, V>, nat>, tick: nat)
    ensures EvictionRun(r, ticks, tick, [], r)
  {
  }

  lemma {:induction false} OneMoreGone<K, V>(r: Ranks<K, V>, ticks: map<Entry<K, V>, nat>, tick: nat,
                                             gone: seq<Entry<K, V>>, left: Ranks<K, V>, next: Entry<K, V>)
    requires EvictionRun(r, ticks, tick, gone, left) && Lowest(Decay(left, ticks, tick).freq, next)
    ensures EvictionRun(r, ticks, tick, gone + [next], Drop(Decay(left, ticks, tick), next))
  {
    assert (gone + [next])[..|gone|] == gone;
  }

  lemma {:induction false} FreqIs<K, V>(es: set<Entry<K, V>>, freq: map<Entry<K, V>, nat>)
    requires freq.Keys == es && forall e | e in es :: e.freq == freq[e]
    ensures FreqOf(es) == freq
  {
  }

  /** The decay step on the ranks is that on the entries. */
  lemma {:induction false} DecayIs<K, V>(es: set<Entry<K, V>>, recency: seq<Entry<K, V>>,
                                         ticks: map<Entry<K, V>, nat>, tick: nat)
    requires UsedAt(es, ticks) && ToSet(recency) == es
    ensures var decayed := Decay(Ranks(FreqOf(es), recency), ticks, tick);
            && decayed.recency == RecencyAfter(recency, tick) && decayed.freq.Keys == es
            && forall e | e in es :: decayed.freq[e] == FreqAfter(e, true, recency, tick)
  {
    if recency != [] {
      assert recency[|recency| - 1] in ToSet(recency);
    }
  }

  /** Every bucket holds some of the entries, each once, each where its key hashes to. */
  ghost predicate InBuckets<K, V>(buckets: seq<seq<Entry<K, V>>>, hash: K -> nat, entries: set<Entry<K, V>>) {
    && |buckets| > 0
    && (forall b :: 0 <= b < |buckets| ==> NoRepeats(buckets[b]))
    && (forall b, e | 0 <= b < |buckets| && e in buckets[b] :: e in entries && hash(e.key) % |buckets| == b)
    && (forall e | e in entries :: e in buckets[hash(e.key) % |buckets|])
  }

  /** The entries of the first `n` buckets. */
  ghost function InFirst<K, V>(buckets: seq<seq<Entry<K, V>>>, n: nat): set<Entry<K, V>>
    requires n <= |buckets|
  {
    if n == 0 then {} else InFirst(buckets, n - 1) + ToSet(buckets[n - 1])
  }

  lemma {:induction false} InFirstHashes<K, V>(buckets: seq<seq<Entry<K, V>>>, hash: K -> nat,
                                               entries: set<Entry<K, V>>, n: nat)
    requires InBuckets(buckets, hash, entries) && n <= |buckets|
    ensures InFirst(buckets, n) == set e | e in entries && hash(e.key) % |buckets| < n
  {
    if n > 0 {
      InFirstHashes(buckets, hash, entries, n - 1);
    }
  }

  /** The first of p, 2p, 4p, ... that is at least `n`. */
  function PowerOfTwoFrom(p: nat, n: nat): (r: nat)
    requires p > 0
    ensures r > 0 && r >= n
    decreases n - p
  {
    if p >= n then p else PowerOfTwoFrom(2 * p, n)
  }

  /** It is the least power of two that is at least `n`. */
  lemma {:induction false} LeastPowerOfTwo(n: nat) returns (k: nat)
    ensures PowerOfTwoFrom(1, n) == Bits.Pow2(k) && n <= Bits.Pow2(k)
    ensures forall j: nat :: n <= Bits.Pow2(j) ==> k <= j
  {
    k := PowerFrom(0, n);
    forall j: nat | n <= Bits.Pow2(j)
      ensures k <= j
    {
      if j < k {
        Bits.Pow2Monotone(j, k - 1);
      }
    }
  }

  lemma {:induction false} PowerFrom(j: nat, n: nat) returns (k: nat)
    ensures j <= k && PowerOfTwoFrom(Bits.Pow2(j), n) == Bits.Pow2(k) && n <= Bits.Pow2(k)
    ensures k == j || Bits.Pow2(k - 1) < n
    decreases n - Bits.Pow2(j)
  {
    if Bits.Pow2(j) >= n {
      k := j;
    } else {
      k := PowerFrom(j + 1, n);
    }
  }

  class LfuCache<K(==), V> {
    const hash: K -> nat
    var cap: nat
    var buckets: seq<seq<Entry<K, V>>>
    /** In order of frequency; a newly placed entry goes after its equals. */
    var frequencyIndex: seq<Entry<K, V>>
    /** The front is the most recently used. */
    var recencyIndex: seq<Entry<K, V>>
    var len: nat
    var tick: nat
    /** The last value put for every key since the last clear, evicted or not. */
    ghost var latest: map<K, V>
    /** The entries held now. */
    ghost var resident: set<Entry<K, V>>

    function BucketForKey(k: K): (b: nat)
      requires |buckets| > 0
      reads this`buckets
      ensures b < |buckets|
    {
      hash(k) % |buckets|
    }

    ghost predicate Bucketed(entries: set<Entry<K, V>>)
      reads this`buckets
    {
      InBuckets(buckets, hash, entries)
    }

    /** The three indexes hold the same entries, once each, under distinct keys. */
    ghost predicate Linked()
      reads this
    {
      && NoRepeats(frequencyIndex) && NoRepeats(recencyIndex)
      && ToSet(frequencyIndex) == resident == ToSet(recencyIndex)
      && Bucketed(resident)
      && KeysDistinct(resident)
      && len == |frequencyIndex| && tick < TICK_LIMIT
    }

    /** ... and the counters are in range and order the frequency index. */
    ghost predicate Indexed()
      reads this, resident
    {
      && Linked()
      && Sorted(frequencyIndex)
      && forall e | e in resident :: e.lastTick <= tick && e.freq <= MAX_FREQ
    }

    /** The mapping held now is part of the mapping of everything put since the last clear. */
    ghost predicate Valid()
      reads this, resident
    {
      && Indexed() && len <= cap
      && PartOf(Model(resident), latest)
    }

    constructor (hash: K -> nat, cap: nat)
      ensures Valid() && this.hash == hash && this.cap == cap && |buckets| == PowerOfTwoFrom(1, cap / 10)
      ensures resident == {} && latest == map[]
    {
      this.hash, this.cap := hash, cap;
      buckets := seq(PowerOfTwoFrom(1, cap / 10), i => []);
      frequencyIndex, recencyIndex, len, tick, latest, resident := [], [], 0, 0, map[], {};
    }

    method SlotFor(freq: nat) returns (i: nat)
      requires Sorted(frequencyIndex)
      ensures i <= |frequencyIndex|
      ensures forall j :: 0 <= j < i ==> frequencyIndex[j].freq <= freq
      ensures forall j :: i <= j < |frequencyIndex| ==> freq < frequencyIndex[j].freq
    {
      i := 0;
      while i < |frequencyIndex| && frequencyIndex[i].freq <= freq
        invariant i <= |frequencyIndex|
        invariant forall j :: 0 <= j < i ==> frequencyIndex[j].freq <= freq
      {
        i := i + 1;
      }
    }

    method InsertByFrequency(e: Entry<K, V>)
      requires Sorted(frequencyIndex) && NoRepeats(frequencyIndex)
      requires ToSet(frequencyIndex) == resident && e !in resident
      modifies this`frequencyIndex, this`resident
      ensures Sorted(frequencyIndex) && NoRepeats(frequencyIndex) && |frequencyIndex| == |old(frequencyIndex)| + 1
      ensures ToSet(frequencyIndex) == resident == old(resident) + {e}
    {
      var i := SlotFor(e.freq);
      assert forall x :: x in frequencyIndex <==> x in ToSet(frequencyIndex);
      Inserted(frequencyIndex, i, e);
      frequencyIndex := frequencyIndex[..i] + [e] + frequencyIndex[i..];
      resident := resident + {e};
    }

    /** Takes `e` out of the frequency order, changes its frequency and puts it back. */
    method MoveToFrequency(e: Entry<K, V>, freq: nat)
      requires Indexed() && e in resident && freq <= MAX_FREQ
      modifies this`frequencyIndex, this`resident, e`freq
      ensures Indexed() && resident == old(resident) && e.freq == freq
    {
      RemoveFromFrequency(e);
      e.freq := freq;
      InsertByFrequency(e);
      assert resident == old(resident);
    }

    method LastToFront()
      requires Indexed() && recencyIndex != []
      modifies this`recencyIndex
      ensures Indexed()
      ensures recencyIndex == old([recencyIndex[|recencyIndex| - 1]] + recencyIndex[..|recencyIndex| - 1])
    {
      Rotated(recencyIndex);
      recencyIndex := [recencyIndex[|recencyIndex| - 1]] + recencyIndex[..|recencyIndex| - 1];
    }

    method DecayLeastRecent()
      requires Indexed()
      modifies this`frequencyIndex, this`resident, this`recencyIndex, resident
      ensures Indexed()
      ensures resident == old(resident) && recencyIndex == old(RecencyAfter(recencyIndex, tick))
      ensures forall e | e in resident ::
                e.lastTick == old(e.lastTick) && e.freq == old(FreqAfter(e, true, recencyIndex, tick))
      ensures old(recencyIndex) != [] ==>
                var (n, e) := (|old(recencyIndex)| - 1, old(recencyIndex[|recencyIndex| - 1]));
                var d := (tick - e.lastTick) / 10 % 0x1_0000;
                if old(e.freq) != 0 && d > 1
                then e.freq == old(e.freq) / d && recencyIndex == [e] + old(recencyIndex)[..n]
                else e.freq == old(e.freq) && recencyIndex == old(recencyIndex)
    {
      if recencyIndex != [] {
        var entry := recencyIndex[|recencyIndex| - 1];
        assert entry in ToSet(recencyIndex);
        if entry.freq == 0 {
          return;
        }
        var delta := (tick - entry.lastTick) / 10 % 0x1_0000;
        if delta <= 1 {
          return;
        }
        QuotientDivides(entry.freq, delta);
        MoveToFrequency(entry, entry.freq / delta);
        LastToFront();
      }
    }

    method AddToBucket(e: Entry<K, V>, ghost entries: set<Entry<K, V>>)
      requires Bucketed(entries) && e !in entries
      modifies this`buckets
      ensures Bucketed(entries + {e}) && |buckets| == |old(buckets)|
    {
      var b := BucketForKey(e.key);
      buckets := buckets[b := [e] + buckets[b]];
    }

    /** Empties `bucket` from the front into the buckets its keys hash to. */
    method Rehash(bucket: seq<Entry<K, V>>, ghost entries: set<Entry<K, V>>)
      requires Bucketed(entries) && NoRepeats(bucket) && ToSet(bucket) !! entries
      modifies this`buckets
      ensures Bucketed(entries + ToSet(bucket)) && |buckets| == |old(buckets)|
    {
      var rest := bucket;
      ghost var done := entries;
      while rest != []
        invariant NoRepeats(rest) && ToSet(rest) !! done
        invariant done + ToSet(rest) == entries + ToSet(bucket)
        invariant Bucketed(done) && |buckets| == |old(buckets)|
      {
        var entry := rest[0];
        assert rest == [entry] + rest[1..];
        AddToBucket(entry, done);
        done := done + {entry};
        rest := rest[1..];
      }
      assert done == entries + ToSet(bucket);
    }

    /** Twice as many buckets, every entry rehashed. */
    method GrowHash(ghost entries: set<Entry<K, V>>)
      requires Bucketed(entries)
      modifies this`buckets
      ensures Bucketed(entries) && |buckets| == 2 * |old(buckets)|
    {
      var before := buckets;
      buckets := seq(2 * |before|, i => []);
      var j := 0;
      while j < |before|
        invariant j <= |before| && |buckets| == 2 * |before|
        invariant Bucketed(InFirst(before, j))
      {
        InFirstHashes(before, hash, entries, j);
        Rehash(before[j], InFirst(before, j));
        j := j + 1;
      }
      InFirstHashes(before, hash, entries, j);
      assert InFirst(before, j) == entries;
    }

    /** Walks a bucket from the front. */
    method FindInBucket(b: nat, k: K) returns (r: Option<Entry<K, V>>)
      requires Linked() && b == BucketForKey(k)
      ensures r.Some? ==> r.value in resident && r.value.key == k
      ensures r.None? <==> k !in Model(resident)
    {
      var i := 0;
      while i < |buckets[b]|
        invariant i <= |buckets[b]|
        invariant forall j :: 0 <= j < i ==> buckets[b][j].key != k
      {
        var e := buckets[b][i];
        if e.key == k {
          assert e in resident;
          return Some(e);
        }
        i := i + 1;
      }
      return None;
    }

    method RemoveFromBucket(e: Entry<K, V>, ghost entries: set<Entry<K, V>>)
      requires Bucketed(entries) && e in entries
      modifies this`buckets
      ensures Bucketed(entries - {e}) && |buckets| == |old(buckets)|
    {
      var b := BucketForKey(e.key);
      WithoutKeeps(buckets[b], e);
      ghost var rest := Without(buckets[b], e);
      assert forall x :: x in rest <==> x in ToSet(rest);
      assert forall x :: x in buckets[b] <==> x in ToSet(buckets[b]);
      buckets := buckets[b := Without(buckets[b], e)];
    }

    method RemoveFromFrequency(e: Entry<K, V>)
      requires Sorted(frequencyIndex) && NoRepeats(frequencyIndex)
      requires ToSet(frequencyIndex) == resident && e in resident
      modifies this`frequencyIndex, this`resident
      ensures Sorted(frequencyIndex) && NoRepeats(frequencyIndex)
      ensures ToSet(frequencyIndex) == resident == old(resident) - {e} && |frequencyIndex| == |old(frequencyIndex)| - 1
    {
      assert forall x :: x in frequencyIndex <==> x in ToSet(frequencyIndex);
      SortedWithout(frequencyIndex, e);
      frequencyIndex := Without(frequencyIndex, e);
      resident := resident - {e};
    }

    method RemoveFromRecency(e: Entry<K, V>)
      requires NoRepeats(recencyIndex) && e in recencyIndex
      modifies this`recencyIndex
      ensures NoRepeats(recencyIndex) && ToSet(recencyIndex) == old(ToSet(recencyIndex)) - {e}
      ensures recencyIndex == Without(old(recencyIndex), e)
    {
      WithoutKeeps(recencyIndex, e);
      recencyIndex := Without(recencyIndex, e);
    }

    method PushFront(e: Entry<K, V>)
      requires NoRepeats(recencyIndex) && e !in ToSet(recencyIndex)
      modifies this`recencyIndex
      ensures NoRepeats(recencyIndex) && ToSet(recencyIndex) == old(ToSet(recencyIndex)) + {e}
      ensures recencyIndex == [e] + old(recencyIndex)
    {
      assert forall x :: x in recencyIndex ==> x in ToSet(recencyIndex);
      recencyIndex := [e] + recencyIndex;
    }

    /** Takes `e` out of all three indexes. */
    method RemoveEntry(e: Entry<K, V>)
      requires Indexed() && e in resident
      modifies this`frequencyIndex, this`resident, this`recencyIndex, this`buckets, this`len
      ensures Indexed() && resident == old(resident) - {e} && len == old(len) - 1
      ensures |buckets| == |old(buckets)| && recencyIndex == Without(old(recencyIndex), e)
    {
      assert e in ToSet(recencyIndex);
      RemoveFromBucket(e, resident);
      RemoveFromFrequency(e);
      RemoveFromRecency(e);
      len := len - 1;
    }

    /** Removes the entry with the smallest frequency after decay. */
    method EvictOne() returns (ghost gone: Option<Entry<K, V>>)
      requires Indexed()
      modifies this`frequencyIndex, this`resident, this`recencyIndex, this`buckets, this`len, resident
      ensures Indexed() && |buckets| == |old(buckets)|
      ensures forall e | e in old(resident) ::
                e.lastTick == old(e.lastTick) && e.freq == old(FreqAfter(e, true, recencyIndex, tick))
      ensures gone.None? <==> old(resident) == {}
      ensures gone.None? ==> resident == {} && len == old(len)
      ensures gone.Some? ==>
                && gone.value in old(resident) && resident == old(resident) - {gone.value}
                && len == old(len) - 1
                && old(Smallest(gone.value, resident, recencyIndex, tick))
                && recencyIndex == Without(old(RecencyAfter(recencyIndex, tick)), gone.value)
    {
      DecayLeastRecent();
      gone := None;
      if frequencyIndex != [] {
        var entry := frequencyIndex[0];
        gone := Some(entry);
        assert forall e | e in resident :: entry.freq <= e.freq;
        RemoveEntry(entry);
      }
    }

    /** An eviction from a cache that is not empty: the mapping loses one key. */
    method EvictFromFull() returns (ghost gone: Entry<K, V>)
      requires Indexed() && len > 0 && PartOf(Model(resident), latest)
      modifies this`frequencyIndex, this`resident, this`recencyIndex, this`buckets, this`len, resident
      ensures Indexed() && |buckets| == |old(buckets)| && PartOf(Model(resident), latest)
      ensures gone in old(resident) && resident == old(resident) - {gone} && len == old(len) - 1
      ensures Model(resident) == old(Model(resident)) - {gone.key}
      ensures old(Smallest(gone, resident, recencyIndex, tick))
      ensures recencyIndex == Without(old(RecencyAfter(recencyIndex, tick)), gone)
      ensures forall e | e in old(resident) ::
                e.lastTick == old(e.lastTick) && e.freq == old(FreqAfter(e, true, recencyIndex, tick))
    {
      assert frequencyIndex[0] in resident;
      ghost var before := resident;
      ghost var found := EvictOne();
      gone := found.value;
      ModelMinus(before, gone);
    }

    method MoveToFront(e: Entry<K, V>)
      requires Indexed() && e in resident
      modifies this`recencyIndex
      ensures Indexed() && recencyIndex == [e] + Without(old(recencyIndex), e)
    {
      assert e in ToSet(recencyIndex);
      RemoveFromRecency(e);
      PushFront(e);
      assert ToSet(recencyIndex) == resident;
    }

    method UseNow(e: Entry<K, V>)
      requires Indexed() && e in resident && tick + 1 < TICK_LIMIT
      modifies this`tick, e`lastTick
      ensures Indexed() && tick == old(tick) + 1 && e.lastTick == tick
    {
      tick := tick + 1;
      e.lastTick := tick;
    }

    /** A use of `e`: it becomes the most recent, at a new tick, and counts one more. */
    method Touch(e: Entry<K, V>)
      requires Indexed() && e in resident && tick + 1 < TICK_LIMIT
      modifies this`tick, this`frequencyIndex, this`resident, this`recencyIndex, e
      ensures Indexed() && resident == old(resident)
      ensures tick == old(tick) + 1 && recencyIndex == [e] + Without(old(recencyIndex), e)
      ensures e.freq == (if old(e.freq) < MAX_FREQ then old(e.freq) + 1 else MAX_FREQ) && e.lastTick == tick
    {
      MoveToFront(e);
      UseNow(e);
      MoveToFrequency(e, if e.freq < MAX_FREQ then e.freq + 1 else MAX_FREQ);
    }

    /** Looks `k` up. A hit makes its entry the most recent and counts the use. */
    method Get(k: K) returns (r: Option<V>)
      requires Valid() && tick + 1 < TICK_LIMIT
      modifies this`tick, this`frequencyIndex, this`resident, this`recencyIndex, resident
      ensures Valid() && resident == old(resident)
      ensures r == if k in Model(resident) then Some(Model(resident)[k]) else None
      ensures r.Some? ==> k in latest && r.value == latest[k]
      ensures r.None? ==>
                tick == old(tick) && frequencyIndex == old(frequencyIndex) && recencyIndex == old(recencyIndex)
      ensures r.None? ==> forall e | e in resident :: e.freq == old(e.freq) && e.lastTick == old(e.lastTick)
      ensures r.Some? ==> tick == old(tick) + 1 && recencyIndex != [] && recencyIndex[0].key == k
      ensures r.Some? ==> recencyIndex == [recencyIndex[0]] + Without(old(recencyIndex), recencyIndex[0])
      ensures r.Some? ==> forall e | e in resident ::
                if e.key == k
                then e.freq == (if old(e.freq) < MAX_FREQ then old(e.freq) + 1 else MAX_FREQ) && e.lastTick == tick
                else e.freq == old(e.freq) && e.lastTick == old(e.lastTick)
    {
      var bucket := BucketForKey(k);
      var found := FindInBucket(bucket, k);
      if found.None? {
        return None;
      }
      Touch(found.value);
      return Some(found.value.value);
    }

    /** Places an entry of a new key under all three indexes. */
    method Link(entry: Entry<K, V>)
      requires Indexed() && entry !in resident && entry.key !in Model(resident)
      requires entry.lastTick <= tick && entry.freq <= MAX_FREQ
      modifies this`frequencyIndex, this`resident, this`recencyIndex, this`buckets, this`len
      ensures Indexed() && resident == old(resident) + {entry} && len == old(len) + 1
      ensures recencyIndex == [entry] + old(recencyIndex) && |buckets| == |old(buckets)|
    {
      ghost var before := resident;
      ModelPlus(before, entry);
      AddToBucket(entry, before);
      assert resident == before;
      InsertByFrequency(entry);
      PushFront(entry);
      assert resident == before + {entry};
      len := len + 1;
    }

    method AddNew(k: K, v: V) returns (entry: Entry<K, V>)
      requires Indexed() && k !in Model(resident)
      modifies this`frequencyIndex, this`resident, this`recencyIndex, this`buckets, this`len
      ensures Indexed() && fresh(entry) && IsNew(entry, k, v)
      ensures resident == old(resident) + {entry} && len == old(len) + 1
      ensures recencyIndex == [entry] + old(recencyIndex) && |buckets| == |old(buckets)|
    {
      entry := new Entry(k, v, tick);
      Link(entry);
    }

    /** Evicts until there is room for one more; at most one entry has to go. */
    method MakeRoom() returns (ghost gone: Option<Entry<K, V>>)
      requires Indexed() && len <= cap && cap >= 1 && PartOf(Model(resident), latest)
      modifies this`frequencyIndex, this`resident, this`recencyIndex, this`buckets, this`len, resident
      ensures Indexed() && len < cap && PartOf(Model(resident), latest)
      ensures gone.Some? <==> old(len) == cap
      ensures gone.Some? ==> gone.value in old(resident) && old(Smallest(gone.value, resident, recencyIndex, tick))
      ensures resident == old(resident) - if gone.Some? then {gone.value} else {}
      ensures Model(resident) == old(Model(resident)) - if gone.Some? then {gone.value.key} else {}
      ensures recencyIndex == old(RecencyLeft(recencyIndex, gone, tick)) && |buckets| == |old(buckets)|
      ensures forall e | e in old(resident) ::
                e.lastTick == old(e.lastTick) && e.freq == old(FreqAfter(e, gone.Some?, recencyIndex, tick))
    {
      gone := None;
      MinusNothing(Model(resident));
      while len >= cap
        invariant Indexed() && PartOf(Model(resident), latest)
        invariant gone.None? ==> unchanged(this) && unchanged(resident)
        invariant gone.Some? ==>
                    && old(len) == cap && len == cap - 1
                    && gone.value in old(resident) && resident == old(resident) - {gone.value}
                    && Model(resident) == old(Model(resident)) - {gone.value.key}
                    && old(Smallest(gone.value, resident, recencyIndex, tick))
                    && recencyIndex == old(RecencyLeft(recencyIndex, gone, tick)) && |buckets| == |old(buckets)|
        invariant gone.Some? ==> forall e | e in old(resident) ::
                      e.lastTick == old(e.lastTick) && e.freq == old(FreqAfter(e, true, recencyIndex, tick))
        modifies this`frequencyIndex, this`resident, this`recencyIndex, this`buckets, this`len, old(resident)
      {
        ghost var evicted := EvictFromFull();
        gone := Some(evicted);
      }
    }

    method Put(k: K, v: V) returns (ghost gone: Option<Entry<K, V>>, ghost placed: Entry<K, V>)
      requires Valid() && cap >= 1 && tick + 1 < TICK_LIMIT
      modifies this`tick, this`frequencyIndex, this`resident, this`recencyIndex, this`buckets, this`len,
               this`latest, resident
      ensures Valid() && tick == old(tick) + 1
      ensures latest == old(latest)[k := v]
      ensures gone.Some? <==> k !in old(Model(resident)) && old(len) == cap
      ensures gone.Some? ==>
                && gone.value in old(resident) && gone.value !in resident
                && old(Smallest(gone.value, resident, recencyIndex, tick + 1))
      ensures Model(resident) == (old(Model(resident)) - if gone.Some? then {gone.value.key} else {})[k := v]
      ensures IsNew(placed, k, v) && fresh(placed)
      ensures resident == Others(old(resident), k, gone) + {placed}
      ensures var n := |old(buckets)|; |buckets| == if n < cap && len > n / 2 then 2 * n else n
      ensures recencyIndex == [placed] + if k in old(Model(resident))
                                         then Without(old(recencyIndex), EntryOf(old(resident), k))
                                         else old(RecencyLeft(recencyIndex, gone, tick + 1))
      ensures forall e | e in old(resident) ::
                e.lastTick == old(e.lastTick) && e.freq == old(FreqAfter(e, gone.Some?, recencyIndex, tick + 1))
    {
      Advance();
      gone, placed := PutNow(k, v);
    }

    /** `put` once the tick has advanced. */
    method PutNow(k: K, v: V) returns (ghost gone: Option<Entry<K, V>>, ghost placed: Entry<K, V>)
      requires Valid() && cap >= 1
      modifies this`frequencyIndex, this`resident, this`recencyIndex, this`buckets, this`len, this`latest, resident
      ensures Valid()
      ensures latest == old(latest)[k := v]
      ensures gone.Some? <==> k !in old(Model(resident)) && old(len) == cap
      ensures gone.Some? ==>
                && gone.value in old(resident) && gone.value !in resident
                && old(Smallest(gone.value, resident, recencyIndex, tick))
      ensures Model(resident) == (old(Model(resident)) - if gone.Some? then {gone.value.key} else {})[k := v]
      ensures IsNew(placed, k, v) && fresh(placed)
      ensures resident == Others(old(resident), k, gone) + {placed}
      ensures |buckets| == Grown(|old(buckets)|)
      ensures recencyIndex == [placed] + if k in old(Model(resident))
                                         then Without(old(recencyIndex), EntryOf(old(resident), k))
                                         else old(RecencyLeft(recencyIndex, gone, tick))
      ensures forall e | e in old(resident) ::
                e.lastTick == old(e.lastTick) && e.freq == old(FreqAfter(e, gone.Some?, recencyIndex, tick))
    {
      var prior := FindInBucket(BucketForKey(k), k);
      MinusNothing(Model(resident));
      if prior.Some? {
        OthersOfPrior(resident, prior.value);
        placed := Replace(prior.value, k, v);
        gone := None;
      } else {
        gone, placed := Insert(k, v);
        OthersOfNew(old(resident), k, gone);
      }
    }

    /** `put` over a resident key: its entry goes, which leaves room for the new one. */
    method Replace(prior: Entry<K, V>, k: K, v: V) returns (ghost placed: Entry<K, V>)
      requires Valid() && prior in resident && prior.key == k
      modifies this`frequencyIndex, this`resident, this`recencyIndex, this`buckets, this`len, this`latest, resident
      ensures Valid() && latest == old(latest)[k := v]
      ensures Model(resident) == old(Model(resident))[k := v]
      ensures IsNew(placed, k, v) && fresh(placed)
      ensures resident == old(resident) - {prior} + {placed}
      ensures recencyIndex == [placed] + Without(old(recencyIndex), prior) && |buckets| == Grown(|old(buckets)|)
      ensures forall e | e in old(resident) :: e.freq == old(e.freq) && e.lastTick == old(e.lastTick)
    {
      RePut(Model(resident), k, v);
      RemovePrior(prior);
      placed := InsertWithRoom(k, v);
    }

    /** The entry that is to be replaced leaves all three indexes. */
    method RemovePrior(prior: Entry<K, V>)
      requires Valid() && prior in resident
      modifies this`frequencyIndex, this`resident, this`recencyIndex, this`buckets, this`len
      ensures Indexed() && len < cap && PartOf(Model(resident), latest)
      ensures Model(resident) == old(Model(resident)) - {prior.key} && resident == old(resident) - {prior}
      ensures recencyIndex == Without(old(recencyIndex), prior) && |buckets| == |old(buckets)|
    {
      ModelMinus(resident, prior);
      RemoveEntry(prior);
    }

    /** `put` of a key that is not there into a cache with room: nothing has to go. */
    method InsertWithRoom(k: K, v: V) returns (ghost placed: Entry<K, V>)
      requires Indexed() && len < cap && k !in Model(resident) && PartOf(Model(resident), latest)
      modifies this`frequencyIndex, this`resident, this`recencyIndex, this`buckets, this`len, this`latest, resident
      ensures Valid() && latest == old(latest)[k := v]
      ensures Model(resident) == old(Model(resident))[k := v]
      ensures IsNew(placed, k, v) && fresh(placed)
      ensures resident == old(resident) + {placed}
      ensures recencyIndex == [placed] + old(recencyIndex) && |buckets| == Grown(|old(buckets)|)
      ensures forall e | e in old(resident) :: e.freq == old(e.freq) && e.lastTick == old(e.lastTick)
    {
      ghost var gone;
      gone, placed := Insert(k, v);
      MinusNothing(old(Model(resident)));
    }

    /** `e` is an entry just put: at the front, never used, at the present tick. */
    ghost predicate IsNew(e: Entry<K, V>, k: K, v: V)
      reads this`recencyIndex, this`tick, e
    {
      recencyIndex != [] && recencyIndex[0] == e && e.key == k && e.value == v && e.freq == 0 && e.lastTick == tick
    }

    method Advance()
      requires Indexed() && tick + 1 < TICK_LIMIT
      modifies this`tick
      ensures Indexed() && tick == old(tick) + 1
      ensures forall e | e in resident ::
                && e.freq == old(e.freq) && e.lastTick == old(e.lastTick)
                && FreqAfter(e, true, recencyIndex, tick) == old(FreqAfter(e, true, recencyIndex, tick + 1))
                && Smallest(e, resident, recencyIndex, tick) == old(Smallest(e, resident, recencyIndex, tick + 1))
      ensures RecencyAfter(recencyIndex, tick) == old(RecencyAfter(recencyIndex, tick + 1))
    {
      tick := tick + 1;
    }

    /** `put` of a key that is not there: room is made, then the entry is placed. */
    method Insert(k: K, v: V) returns (ghost gone: Option<Entry<K, V>>, ghost placed: Entry<K, V>)
      requires Indexed() && len <= cap && cap >= 1 && k !in Model(resident) && PartOf(Model(resident), latest)
      modifies this`frequencyIndex, this`resident, this`recencyIndex, this`buckets, this`len, this`latest, resident
      ensures Valid() && latest == old(latest)[k := v]
      ensures gone.Some? <==> old(len) == cap
      ensures gone.Some? ==>
                && gone.value in old(resident) && gone.value !in resident
                && old(Smallest(gone.value, resident, recencyIndex, tick))
      ensures Model(resident) == (old(Model(resident)) - if gone.Some? then {gone.value.key} else {})[k := v]
      ensures IsNew(placed, k, v) && fresh(placed)
      ensures resident == old(resident) - (if gone.Some? then {gone.value} else {}) + {placed}
      ensures recencyIndex == [placed] + old(RecencyLeft(recencyIndex, gone, tick))
      ensures |buckets| == Grown(|old(buckets)|)
      ensures forall e | e in old(resident) ::
                e.lastTick == old(e.lastTick) && e.freq == old(FreqAfter(e, gone.Some?, recencyIndex, tick))
    {
      gone := MakeRoom();
      placed := Place(k, v);
    }

    /** The new entry goes into a cache with room, which then may grow its hash table. */
    method Place(k: K, v: V) returns (ghost placed: Entry<K, V>)
      requires Indexed() && len < cap && k !in Model(resident) && PartOf(Model(resident), latest)
      modifies this`frequencyIndex, this`resident, this`recencyIndex, this`buckets, this`len, this`latest
      ensures Valid() && latest == old(latest)[k := v]
      ensures Model(resident) == old(Model(resident))[k := v]
      ensures IsNew(placed, k, v) && fresh(placed) && resident == old(resident) + {placed}
      ensures recencyIndex == [placed] + old(recencyIndex) && |buckets| == Grown(|old(buckets)|)
    {
      placed := PlaceEntry(k, v);
      GrowIfCrowded();
    }

    method PlaceEntry(k: K, v: V) returns (ghost placed: Entry<K, V>)
      requires Indexed() && len < cap && k !in Model(resident) && PartOf(Model(resident), latest)
      modifies this`frequencyIndex, this`resident, this`recencyIndex, this`buckets, this`len, this`latest
      ensures Valid() && latest == old(latest)[k := v]
      ensures Model(resident) == old(Model(resident))[k := v]
      ensures IsNew(placed, k, v) && fresh(placed) && resident == old(resident) + {placed}
      ensures recencyIndex == [placed] + old(recencyIndex) && |buckets| == |old(buckets)|
    {
      ghost var kept := resident;
      PartOfPlus(Model(kept), latest, k, v);
      var entry := AddNew(k, v);
      placed := entry;
      ModelPlus(kept, entry);
      latest := latest[k := v];
    }

    /** The number of buckets, `n` so far, that a cache of `len` entries goes on with. */
    function Grown(n: nat): nat
      reads this`cap, this`len
    {
      if n < cap && len > n / 2 then 2 * n else n
    }

    method GrowIfCrowded()
      requires Valid()
      modifies this`buckets
      ensures Valid() && |buckets| == Grown(|old(buckets)|)
    {
      if |buckets| < cap && len > |buckets| / 2 {
        GrowHash(resident);
      }
    }

    /** The entries held, as far as the next evictions depend on them. */
    ghost function Ranking(): Ranks<K, V>
      reads this`resident, this`recencyIndex, resident
    {
      Ranks(FreqOf(resident), recencyIndex)
    }

    /** One of a run of evictions, `ticks` being the entries' last uses. */
    method EvictNext(ghost ticks: map<Entry<K, V>, nat>) returns (ghost gone: Entry<K, V>)
      requires Indexed() && len > 0 && PartOf(Model(resident), latest) && UsedAt(resident, ticks)
      modifies this`frequencyIndex, this`resident, this`recencyIndex, this`buckets, this`len, resident
      ensures Indexed() && PartOf(Model(resident), latest) && UsedAt(resident, ticks)
      ensures len == old(len) - 1 && gone in old(resident) && resident == old(resident) - {gone}
      ensures var decayed := Decay(old(Ranking()), ticks, tick);
              Lowest(decayed.freq, gone) && Ranking() == Drop(decayed, gone)
    {
      ghost var (before, decayed) := (resident, Decay(Ranking(), ticks, tick));
      DecayIs(resident, recencyIndex, ticks, tick);
      gone := EvictFromFull();
      FreqIs(resident, decayed.freq - {gone});
    }

    /** A run of evictions goes on. */
    method EvictMore(ghost ranks: Ranks<K, V>, ghost ticks: map<Entry<K, V>, nat>, ghost gone: seq<Entry<K, V>>)
      returns (ghost more: seq<Entry<K, V>>)
      requires Indexed() && len > 0 && PartOf(Model(resident), latest) && UsedAt(resident, ticks)
      requires EvictionRun(ranks, ticks, tick, gone, Ranking())
      modifies this`frequencyIndex, this`resident, this`recencyIndex, this`buckets, this`len, resident
      ensures Indexed() && PartOf(Model(resident), latest) && UsedAt(resident, ticks)
      ensures len == old(len) - 1 && resident <= old(resident)
      ensures EvictionRun(ranks, ticks, tick, more, Ranking())
    {
      ghost var before := Ranking();
      ghost var next := EvictNext(ticks);
      OneMoreGone(ranks, ticks, tick, gone, before, next);
      more := gone + [next];
    }

    /** The loop of `update_config`. */
    method EvictOverflow(ghost ranks: Ranks<K, V>, ghost ticks: map<Entry<K, V>, nat>)
      returns (ghost gone: seq<Entry<K, V>>)
      requires Indexed() && PartOf(Model(resident), latest) && UsedAt(resident, ticks) && ranks == Ranking()
      modifies this`frequencyIndex, this`resident, this`recencyIndex, this`buckets, this`len, resident
      ensures Valid() && resident <= old(resident)
      ensures len == if old(len) <= cap then old(len) else cap
      ensures EvictionRun(ranks, ticks, tick, gone, Ranking())
    {
      gone := [];
      NothingGone(ranks, ticks, tick);
      while len > cap
        invariant Indexed() && PartOf(Model(resident), latest) && resident <= old(resident) && UsedAt(resident, ticks)
        invariant len <= old(len) && (len >= cap || len == old(len))
        invariant EvictionRun(ranks, ticks, tick, gone, Ranking())
        modifies this`frequencyIndex, this`resident, this`recencyIndex, this`buckets, this`len, old(resident)
      {
        gone := EvictMore(ranks, ticks, gone);
      }
    }

    /** Entries go, the lowest first, until the new capacity holds those left. */
    method UpdateConfig(newCap: nat) returns (ghost gone: seq<Entry<K, V>>)
      requires Valid()
      modifies this`cap, this`frequencyIndex, this`resident, this`recencyIndex, this`buckets, this`len, resident
      ensures Valid() && cap == newCap && resident <= old(resident)
      ensures len == if old(len) <= newCap then old(len) else newCap
      ensures EvictionRun(old(Ranking()), old(TicksOf(resident)), tick, gone, Ranking())
    {
      ghost var (ranks, ticks) := (Ranking(), TicksOf(resident));
      gone := [];
      NothingGone(ranks, ticks, tick);
      if newCap != cap {
        SetCapacity(newCap, ticks);
        gone := EvictOverflow(ranks, ticks);
      }
    }

    method SetCapacity(newCap: nat, ghost ticks: map<Entry<K, V>, nat>)
      requires Valid() && ticks == TicksOf(resident)
      modifies this`cap
      ensures Indexed() && PartOf(Model(resident), latest) && cap == newCap
      ensures UsedAt(resident, ticks) && Ranking() == old(Ranking())
    {
      cap := newCap;
    }

    method Clear()
      requires Valid()
      modifies this`frequencyIndex, this`resident, this`recencyIndex, this`buckets, this`len, this`latest
      ensures Valid() && resident == {} && len == 0 && latest == map[]
      ensures |buckets| == |old(buckets)|
    {
      frequencyIndex, resident := [], {};
      recencyIndex := [];
      buckets := seq(|buckets|, i => []);
      len := 0;
      latest := map[];
    }
  }

  lemma {:induction false} MinusNothing<K, V>(m: map<K, V>)
    ensures m - {} == m
  {
  }

  /** Dropping the old binding of a key first makes no difference to binding it anew. */
  lemma {:induction false} RePut<K, V>(m: map<K, V>, k: K, v: V)
    ensures (m - {k})[k := v] == m[k := v]
  {
  }

  lemma {:induction false} PartOfPlus<K, V>(m: map<K, V>, latest: map<K, V>, k: K, v: V)
    requires PartOf(m, latest)
    ensures PartOf(m[k := v], latest[k := v])
  {
  }

  lemma {:induction false} SortedWithout<K, V>(es: seq<Entry<K, V>>, x: Entry<K, V>)
    requires Sorted(es) && NoRepeats(es) && x in es
    ensures Sorted(Without(es, x)) && NoRepeats(Without(es, x)) && |Without(es, x)| == |es| - 1
    ensures ToSet(Without(es, x)) == ToSet(es) - {x}
  {
    var i := WithoutAt(es, x);
    WithoutKeeps(es, x);
  }

  lemma {:induction false} Inserted<T>(s: seq<T>, i: nat, x: T)
    requires i <= |s| && NoRepeats(s) && x !in s
    ensures var t := s[..i] + [x] + s[i..]; NoRepeats(t) && ToSet(t) == ToSet(s) + {x}
  {
    var t := s[..i] + [x] + s[i..];
    forall j, k | 0 <= j < k < |t| ensures t[j] != t[k] {
      InsertedAt(s, i, x, j);
      InsertedAt(s, i, x, k);
    }
    forall y ensures y in t <==> y in s || y == x {
      if y in s {
        var j :| 0 <= j < |s| && s[j] == y;
        assert t[if j < i then j else j + 1] == y;
      } else if y == x {
        assert t[i] == y;
      }
    }
  }

  lemma {:induction false} InsertedAt<T>(s: seq<T>, i: nat, x: T, j: nat)
    requires i <= |s| && j <= |s|
    ensures (s[..i] + [x] + s[i..])[j] == if j < i then s[j] else if j == i then x else s[j - 1]
  {
  }

  /** Moving the last one to the front. */
  lemma {:induction false} Rotated<T>(s: seq<T>)
    requires s != [] && NoRepeats(s)
    ensures var t := [s[|s| - 1]] + s[..|s| - 1]; NoRepeats(t) && ToSet(t) == ToSet(s)
  {
    var t := [s[|s| - 1]] + s[..|s| - 1];
    forall x | x in s
      ensures x in t
    {
      var i :| 0 <= i < |s| && s[i] == x;
      assert x == t[if i == |s| - 1 then 0 else i + 1];
    }
  }

}
