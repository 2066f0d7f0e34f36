/** The in-place grouping of src/packet_analyzer.cpp: sort records by key, then fold runs of equal keys together
    at the front of the same array. */
module Grouping {
  import opened Sorting

  /** Traffic under a key. */
  datatype Record<K> = Record(key: K, packets: nat, bytes: nat)

  /** A strict order in which different keys are always ordered. */
  ghost predicate TotalOrder<K(!new)>(less: (K, K) -> bool) {
    && (forall a, b :: less(a, b) ==> !less(b, a))
    && (forall a, b, c :: less(a, b) && less(b, c) ==> less(a, c))
    && (forall a, b :: a == b || less(a, b) || less(b, a))
  }

  function PacketsOf<K(==)>(records: seq<Record<K>>, key: K): nat {
    if records == [] then 0
    else
      var last := records[|records| - 1];
      PacketsOf(records[..|records| - 1], key) + if last.key == key then last.packets else 0
  }

  function BytesOf<K(==)>(records: seq<Record<K>>, key: K): nat {
    if records == [] then 0
    else
      var last := records[|records| - 1];
      BytesOf(records[..|records| - 1], key) + if last.key == key then last.bytes else 0
  }

  predicate HasKey<K(==)>(records: seq<Record<K>>, key: K) {
    exists i :: 0 <= i < |records| && records[i].key == key
  }

  predicate KeysAscend<K>(records: seq<Record<K>>, less: (K, K) -> bool) {
    forall i, j | 0 <= i < j < |records| :: less(records[i].key, records[j].key)
  }

  predicate DistinctKeys<K(==)>(records: seq<Record<K>>) {
    forall i, j | 0 <= i < j < |records| :: records[i].key != records[j].key
  }

  /** The exact sums by key: each key once, with all its packets and bytes. */
  ghost predicate GroupedBy<K(!new)>(groups: seq<Record<K>>, records: seq<Record<K>>) {
    && DistinctKeys(groups)
    && (forall key :: HasKey(groups, key) <==> HasKey(records, key))
    && (forall i | 0 <= i < |groups| ::
          groups[i].packets == PacketsOf(records, groups[i].key) && groups[i].bytes == BytesOf(records, groups[i].key))
  }

  // ---- sums over any set of keys ----

  /** The packets and bytes under the keys that a predicate selects. */
  function Total<K(!new)>(records: seq<Record<K>>, selects: K -> bool): (nat, nat) {
    if records == [] then (0, 0)
    else
      var (packets, bytes) := Total(records[..|records| - 1], selects);
      var last := records[|records| - 1];
      if selects(last.key) then (packets + last.packets, bytes + last.bytes) else (packets, bytes)
  }

  function Without<K(==)>(records: seq<Record<K>>, key: K): seq<Record<K>> {
    if records == [] then []
    else
      var last := records[|records| - 1];
      Without(records[..|records| - 1], key) + if last.key == key then [] else [last]
  }

  lemma TotalNext<K(!new)>(front: seq<Record<K>>, last: Record<K>, selects: K -> bool)
    ensures var (packets, bytes) := Total(front, selects);
            Total(front + [last], selects)
            == if selects(last.key) then (packets + last.packets, bytes + last.bytes) else (packets, bytes)
  {
    assert (front + [last])[..|front|] == front;
  }

  lemma {:induction false} TotalWithout<K(!new)>(records: seq<Record<K>>, key: K, selects: K -> bool)
    ensures var (packets, bytes) := Total(Without(records, key), selects);
            Total(records, selects)
            == if selects(key) then (packets + PacketsOf(records, key), bytes + BytesOf(records, key))
              else (packets, bytes)
  {
    if records != [] {
      var front, last := records[..|records| - 1], records[|records| - 1];
      TotalWithout(front, key, selects);
      if last.key == key {
        assert Without(records, key) == Without(front, key);
      } else {
        TotalNext(Without(front, key), last, selects);
      }
    }
  }

  lemma {:induction false} SumsOfRest<K(!new)>(records: seq<Record<K>>, key: K, other: K)
    ensures other != key ==> PacketsOf(Without(records, key), other) == PacketsOf(records, other)
                             && BytesOf(Without(records, key), other) == BytesOf(records, other)
    ensures HasKey(Without(records, key), other) <==> HasKey(records, other) && other != key
  {
    hide HasKey;
    NoKeys(other);
    if records != [] {
      var front, last := records[..|records| - 1], records[|records| - 1];
      SumsOfRest(front, key, other);
      assert records == front + [last];
      HasKeyNext(front, last, other);
      if last.key == key {
        assert Without(records, key) == Without(front, key);
      } else {
        SumsNext(Without(front, key), last, other);
      }
    }
  }

  lemma NoKeys<K>(key: K)
    ensures !HasKey<K>([], key)
  {
  }

  /** Grouping changes no sum over any set of keys. */
  lemma {:induction false} GroupedTotals<K(!new)>(groups: seq<Record<K>>, records: seq<Record<K>>, selects: K -> bool)
    requires GroupedBy(groups, records)
    ensures Total(groups, selects) == Total(records, selects)
    decreases |groups|
  {
    hide HasKey;
    if groups == [] {
      NoneLeft(records);
    } else {
      var front, last := groups[..|groups| - 1], groups[|groups| - 1];
      var others := Without(records, last.key);
      forall key
        ensures HasKey(front, key) <==> HasKey(others, key)
      {
        LastIsAlone(groups, key);
        SumsOfRest(records, last.key, key);
      }
      forall i | 0 <= i < |front|
        ensures front[i].packets == PacketsOf(others, front[i].key) && front[i].bytes == BytesOf(others, front[i].key)
      {
        SumsOfRest(records, last.key, front[i].key);
      }
      GroupedTotals(front, others, selects);
      TotalWithout(records, last.key, selects);
    }
  }

  lemma NoneLeft<K(!new)>(records: seq<Record<K>>)
    requires forall key :: HasKey<K>([], key) <==> HasKey(records, key)
    ensures records == []
  {
    if records != [] {
      assert HasKey(records, records[0].key);
    }
  }

  lemma LastIsAlone<K>(groups: seq<Record<K>>, key: K)
    requires groups != [] && DistinctKeys(groups)
    ensures HasKey(groups[..|groups| - 1], key) <==> HasKey(groups, key) && key != groups[|groups| - 1].key
  {
    var front, last := groups[..|groups| - 1], groups[|groups| - 1];
    assert groups == front + [last];
    HasKeyNext(front, last, key);
  }

  // ---- folding runs ----

  /** One more record: a new group, or more of the last one. */
  function Folded<K(==)>(groups: seq<Record<K>>, r: Record<K>): (more: seq<Record<K>>)
    ensures |groups| <= |more| <= |groups| + 1 && more != [] && more[|more| - 1].key == r.key
  {
    if groups == [] || groups[|groups| - 1].key != r.key then groups + [r]
    else
      var top := groups[|groups| - 1];
      groups[..|groups| - 1] + [Record(top.key, top.packets + r.packets, top.bytes + r.bytes)]
  }

  function Merged<K(==)>(records: seq<Record<K>>): (merged: seq<Record<K>>)
    ensures |merged| <= |records|
            && (records != [] ==> merged != [] && merged[|merged| - 1].key == records[|records| - 1].key)
  {
    if records == [] then [] else Folded(Merged(records[..|records| - 1]), records[|records| - 1])
  }

  /** Folding keeps every key's sums, sorted or not. */
  lemma {:induction false} MergedSums<K>(records: seq<Record<K>>, key: K)
    ensures PacketsOf(Merged(records), key) == PacketsOf(records, key)
    ensures BytesOf(Merged(records), key) == BytesOf(records, key)
    ensures HasKey(Merged(records), key) <==> HasKey(records, key)
  {
    hide HasKey, Folded, PacketsOf, BytesOf;
    if records != [] {
      var front, last := records[..|records| - 1], records[|records| - 1];
      MergedSums(front, key);
      FoldedSums(Merged(front), last, key);
      SumsNext(front, last, key);
      assert records == front + [last];
    }
  }

  lemma FoldedSums<K>(groups: seq<Record<K>>, r: Record<K>, key: K)
    ensures PacketsOf(Folded(groups, r), key) == PacketsOf(groups, key) + (if r.key == key then r.packets else 0)
    ensures BytesOf(Folded(groups, r), key) == BytesOf(groups, key) + (if r.key == key then r.bytes else 0)
    ensures HasKey(Folded(groups, r), key) <==> HasKey(groups, key) || r.key == key
  {
    hide HasKey, PacketsOf, BytesOf;
    if groups == [] || groups[|groups| - 1].key != r.key {
      SumsNext(groups, r, key);
    } else {
      var rest, top := groups[..|groups| - 1], groups[|groups| - 1];
      SumsNext(rest, top, key);
      assert groups == rest + [top];
      SumsNext(rest, Record(top.key, top.packets + r.packets, top.bytes + r.bytes), key);
    }
  }

  lemma SumsNext<K>(front: seq<Record<K>>, last: Record<K>, key: K)
    ensures PacketsOf(front + [last], key) == PacketsOf(front, key) + (if last.key == key then last.packets else 0)
    ensures BytesOf(front + [last], key) == BytesOf(front, key) + (if last.key == key then last.bytes else 0)
    ensures HasKey(front + [last], key) <==> HasKey(front, key) || last.key == key
  {
    assert (front + [last])[..|front|] == front;
    HasKeyNext(front, last, key);
  }

  lemma HasKeyNext<K>(front: seq<Record<K>>, last: Record<K>, key: K)
    ensures HasKey(front + [last], key) <==> HasKey(front, key) || last.key == key
  {
    var all := front + [last];
    if HasKey(front, key) {
      var i :| 0 <= i < |front| && front[i].key == key;
      assert all[i].key == key;
    }
    assert all[|front|].key == last.key;
  }

  /** Of records sorted by key, folding leaves each key once, in order. */
  lemma {:induction false} MergedAscends<K(!new)>(records: seq<Record<K>>, less: (K, K) -> bool)
    requires TotalOrder(less)
    requires forall i, j | 0 <= i < j < |records| :: !less(records[j].key, records[i].key)
    ensures KeysAscend(Merged(records), less)
  {
    if |records| > 1 {
      var front, last := records[..|records| - 1], records[|records| - 1];
      MergedAscends(front, less);
      var before := Merged(front);
      var top := before[|before| - 1].key;
      assert !less(last.key, records[|records| - 2].key);
      forall i, j | 0 <= i < j < |Merged(records)|
        ensures less(Merged(records)[i].key, Merged(records)[j].key)
      {
        if j == |before| && i < |before| - 1 {
          assert less(before[i].key, top);
        }
      }
    }
  }

  /** Distinct keys: a key's sums are its one record. */
  lemma {:induction false} SumOfOne<K>(groups: seq<Record<K>>, i: nat)
    requires DistinctKeys(groups) && i < |groups|
    ensures PacketsOf(groups, groups[i].key) == groups[i].packets && BytesOf(groups, groups[i].key) == groups[i].bytes
    decreases |groups|
  {
    var front, last := groups[..|groups| - 1], groups[|groups| - 1];
    if i < |front| {
      assert front[i] == groups[i] && last.key != groups[i].key;
      SumOfOne(front, i);
    } else {
      SumOfNone(front, last.key);
    }
  }

  lemma {:induction false} SumOfNone<K>(records: seq<Record<K>>, key: K)
    requires forall i | 0 <= i < |records| :: records[i].key != key
    ensures PacketsOf(records, key) == 0 && BytesOf(records, key) == 0
  {
    if records != [] {
      SumOfNone(records[..|records| - 1], key);
    }
  }

  /** Sums do not depend on the order of the records. */
  lemma {:induction false} SumsOfPermutation<K>(a: seq<Record<K>>, b: seq<Record<K>>, key: K)
    requires multiset(a) == multiset(b)
    ensures PacketsOf(a, key) == PacketsOf(b, key) && BytesOf(a, key) == BytesOf(b, key)
    ensures HasKey(a, key) <==> HasKey(b, key)
    decreases |a|
  {
    hide HasKey;
    SameLength(a, b);
    if a != [] {
      var front, last := a[..|a| - 1], a[|a| - 1];
      var i := Matching(a, b);
      var others := b[..i] + b[i + 1..];
      SumsOfPermutation(front, others, key);
      SumsWithout(b, i, key);
      HasKeyNext(front, last, key);
      assert a == front + [last];
      HasKeyWithout(b, i, key);
    }
  }

  /** Where a permutation has the last element; without it, both are permutations still. */
  lemma Matching<T>(a: seq<T>, b: seq<T>) returns (i: nat)
    requires a != [] && multiset(a) == multiset(b)
    ensures i < |b| && b[i] == a[|a| - 1]
    ensures multiset(a[..|a| - 1]) == multiset(b[..i] + b[i + 1..])
  {
    var front, last := a[..|a| - 1], a[|a| - 1];
    SameElements(a, b, last);
    i :| 0 <= i < |b| && b[i] == last;
    WithoutOne(a, |a| - 1);
    WithoutOne(b, i);
    assert front + a[|a|..] == front;
  }

  lemma WithoutOne<T>(s: seq<T>, i: nat)
    requires i < |s|
    ensures multiset(s[..i] + s[i + 1..]) == multiset(s) - multiset{s[i]}
  {
    assert s == s[..i] + [s[i]] + s[i + 1..];
  }

  lemma SameLength<T>(a: seq<T>, b: seq<T>)
    requires multiset(a) == multiset(b)
    ensures |a| == |b|
  {
    assert |multiset(a)| == |a| && |multiset(b)| == |b|;
  }

  lemma {:induction false} SumsWithout<K>(records: seq<Record<K>>, i: nat, key: K)
    requires i < |records|
    ensures var others := records[..i] + records[i + 1..]; var r := records[i];
            && PacketsOf(records, key) == PacketsOf(others, key) + (if r.key == key then r.packets else 0)
            && BytesOf(records, key) == BytesOf(others, key) + (if r.key == key then r.bytes else 0)
    decreases |records|
  {
    var front, last := records[..|records| - 1], records[|records| - 1];
    var others := records[..i] + records[i + 1..];
    if i == |front| {
      assert others == front;
    } else {
      SumsWithout(front, i, key);
      assert others[..|others| - 1] == front[..i] + front[i + 1..];
    }
  }

  lemma HasKeyWithout<K>(records: seq<Record<K>>, i: nat, key: K)
    requires i < |records|
    ensures HasKey(records, key) <==> HasKey(records[..i] + records[i + 1..], key) || records[i].key == key
  {
    var others := records[..i] + records[i + 1..];
    forall j | 0 <= j < |records| && j != i
      ensures exists k :: 0 <= k < |others| && others[k] == records[j]
    {
      assert others[if j < i then j else j - 1] == records[j];
    }
    forall k | 0 <= k < |others|
      ensures exists j :: 0 <= j < |records| && records[j] == others[k]
    {
      assert records[if k < i then k else k + 1] == others[k];
    }
  }

  /** A strictly sorted list is determined by what is in it. */
  lemma {:induction false} SortedAgree<T(!new)>(a: seq<T>, b: seq<T>, less: (T, T) -> bool)
    requires forall x, y :: less(x, y) ==> !less(y, x)
    requires forall i, j | 0 <= i < j < |a| :: less(a[i], a[j])
    requires forall i, j | 0 <= i < j < |b| :: less(b[i], b[j])
    requires forall x :: x in a <==> x in b
    ensures a == b
    decreases |a|
  {
    assert b != [] ==> b[0] in b;
    if a != [] {
      assert a[0] in b;
      assert b[0] in a;
      assert a[0] == b[0];
      forall x
        ensures x in a[1..] <==> x in b[1..]
      {
        assert x in a[1..] <==> x in a && x != a[0];
        assert x in b[1..] <==> x in b && x != b[0];
      }
      SortedAgree(a[1..], b[1..], less);
    }
  }

  lemma SameGroups<K(!new)>(a: seq<Record<K>>, b: seq<Record<K>>, records: seq<Record<K>>)
    requires GroupedBy(a, records) && GroupedBy(b, records)
    ensures forall r :: r in a <==> r in b
  {
    forall r
      ensures r in a ==> r in b
      ensures r in b ==> r in a
    {
      FoundIn(a, b, records, r);
      FoundIn(b, a, records, r);
    }
  }

  lemma FoundIn<K(!new)>(a: seq<Record<K>>, b: seq<Record<K>>, records: seq<Record<K>>, r: Record<K>)
    requires GroupedBy(a, records) && GroupedBy(b, records)
    ensures r in a ==> r in b
  {
    if r in a {
      assert HasKey(a, r.key);
      assert HasKey(b, r.key);
      var j :| 0 <= j < |b| && b[j].key == r.key;
      assert b[j] == r;
    }
  }

  /** Ascending keys and the same sums leave no choice: the grouping of records is unique. */
  lemma GroupingUnique<K(!new)>(a: seq<Record<K>>, b: seq<Record<K>>, records: seq<Record<K>>, less: (K, K) -> bool)
    requires TotalOrder(less) && KeysAscend(a, less) && KeysAscend(b, less)
    requires GroupedBy(a, records) && GroupedBy(b, records)
    ensures a == b
  {
    hide GroupedBy;
    ByKeyOrders(less);
    SameGroups(a, b, records);
    SortedAgree(a, b, ByKey(less));
  }

  // ---- the algorithm ----

  lemma MergedNext<K>(records: seq<Record<K>>, index: nat)
    requires index < |records|
    ensures Merged(records[..index + 1]) == Folded(Merged(records[..index]), records[index])
  {
    assert records[..index + 1][..index] == records[..index];
  }

  /** Folding touches no group but the last. */
  lemma FoldedLast<K>(groups: seq<Record<K>>, r: Record<K>)
    ensures var more, starts := Folded(groups, r), groups == [] || groups[|groups| - 1].key != r.key;
            && |more| == (if starts then |groups| + 1 else |groups|)
            && (forall i | 0 <= i < |more| - 1 :: more[i] == groups[i])
            && more[|more| - 1] == (if starts then r else
                 Record(r.key, groups[|groups| - 1].packets + r.packets, groups[|groups| - 1].bytes + r.bytes))
  {
  }

  /** Folds runs of equal keys together at the front of the array. */
  method Compact<K(==)>(records: array<Record<K>>) returns (size: nat)
    modifies records
    ensures size <= records.Length && records[..size] == Merged(old(records[..]))
  {
    hide Merged, Folded;
    ghost var was := records[..];
    ghost var front: seq<Record<K>> := Merged(was[..0]);
    NothingMerged<K>();
    assert was[..0] == [];
    size := 0;
    for index := 0 to records.Length
      invariant size == |front| <= index && front == Merged(was[..index])
      invariant forall i | 0 <= i < size :: records[i] == front[i]
      invariant forall i | index <= i < records.Length :: records[i] == was[i]
    {
      MergedNext(was, index);
      FoldedLast(front, was[index]);
      front := Merged(was[..index + 1]);
      var entry := records[index];
      if size == 0 || records[size - 1].key != entry.key {
        records[size] := entry;
        size := size + 1;
      } else {
        var top := records[size - 1];
        records[size - 1] := Record(top.key, top.packets + entry.packets, top.bytes + entry.bytes);
      }
    }
    assert was[..records.Length] == was;
    assert records[..size] == front;
  }

  lemma NothingMerged<K>()
    ensures Merged<K>([]) == []
  {
  }

  /** Groups records: sorted by key, then folded in place. */
  method Aggregate<K(!new, ==)>(records: seq<Record<K>>, less: (K, K) -> bool) returns (groups: seq<Record<K>>)
    requires TotalOrder(less)
    ensures GroupedBy(groups, records) && KeysAscend(groups, less)
  {
    ByKeyOrders(less);
    var sorted := Sort(records, ByKey(less));
    var working := new Record<K>[|sorted|](i requires 0 <= i < |sorted| => sorted[i]);
    assert working[..] == sorted;
    var size := Compact(working);
    groups := working[..size];
    GroupedSorted(records, sorted, less);
  }

  function ByKey<K(!new)>(less: (K, K) -> bool): (Record<K>, Record<K>) -> bool {
    (a: Record<K>, b: Record<K>) => less(a.key, b.key)
  }

  lemma ByKeyOrders<K(!new)>(less: (K, K) -> bool)
    requires TotalOrder(less)
    ensures Orders(ByKey(less))
  {
    var before := ByKey(less);
    forall a, b
      ensures before(a, b) ==> !before(b, a)
    {
      NotBefore(a.key, b.key, a.key, less);
    }
    forall a, b, c
      ensures before(a, b) && before(b, c) ==> before(a, c)
      ensures !before(a, b) && !before(b, c) ==> !before(a, c)
    {
      NotBefore(a.key, b.key, c.key, less);
    }
  }

  lemma NotBefore<K(!new)>(a: K, b: K, c: K, less: (K, K) -> bool)
    requires TotalOrder(less)
    ensures less(a, b) ==> !less(b, a)
    ensures less(a, b) && less(b, c) ==> less(a, c)
    ensures !less(a, b) && !less(b, c) ==> !less(a, c)
  {
    assert a == b || less(a, b) || less(b, a);
    assert b == c || less(b, c) || less(c, b);
  }

  lemma GroupedSorted<K(!new)>(records: seq<Record<K>>, sorted: seq<Record<K>>, less: (K, K) -> bool)
    requires TotalOrder(less) && multiset(sorted) == multiset(records)
    requires forall i, j | 0 <= i < j < |sorted| :: !less(sorted[j].key, sorted[i].key)
    ensures GroupedBy(Merged(sorted), records) && KeysAscend(Merged(sorted), less)
  {
    var groups := Merged(sorted);
    MergedAscends(sorted, less);
    forall key
      ensures PacketsOf(groups, key) == PacketsOf(records, key) && BytesOf(groups, key) == BytesOf(records, key)
      ensures HasKey(groups, key) <==> HasKey(records, key)
    {
      MergedSums(sorted, key);
      SumsOfPermutation(sorted, records, key);
    }
    forall i | 0 <= i < |groups|
      ensures groups[i].packets == PacketsOf(records, groups[i].key)
              && groups[i].bytes == BytesOf(records, groups[i].key)
    {
      SumOfOne(groups, i);
    }
  }

  // ---- ranking ----

  /** The heaviest first: by bytes, then packets, then key. */
  predicate Heavier<K>(a: Record<K>, b: Record<K>, less: (K, K) -> bool) {
    if a.bytes != b.bytes then a.bytes > b.bytes
    else if a.packets != b.packets then a.packets > b.packets
    else less(a.key, b.key)
  }

  function ByWeight<K(!new)>(less: (K, K) -> bool): (Record<K>, Record<K>) -> bool {
    (a: Record<K>, b: Record<K>) => Heavier(a, b, less)
  }

  predicate Ranked<K>(records: seq<Record<K>>, less: (K, K) -> bool) {
    forall i, j | 0 <= i < j < |records| :: Heavier(records[i], records[j], less)
  }

  /** The groups again, strictly ranked. */
  method Rank<K(!new, ==)>(groups: seq<Record<K>>, ghost records: seq<Record<K>>, less: (K, K) -> bool)
    returns (ranked: seq<Record<K>>)
    requires TotalOrder(less) && GroupedBy(groups, records)
    ensures multiset(ranked) == multiset(groups)
    ensures GroupedBy(ranked, records) && Ranked(ranked, less)
  {
    HeavierOrders(less);
    ranked := Sort(groups, ByWeight(less));
    RankedStrictly(groups, ranked, records, less);
  }

  lemma HeavierOrders<K(!new)>(less: (K, K) -> bool)
    requires TotalOrder(less)
    ensures Orders(ByWeight(less))
  {
    hide Heavier;
    var heavier := ByWeight(less);
    forall a, b
      ensures heavier(a, b) ==> !heavier(b, a)
    {
      HeavierTotal(a, b, less);
    }
    forall a, b, c
      ensures heavier(a, b) && heavier(b, c) ==> heavier(a, c)
    {
      HeavierTransitive(a, b, c, less);
    }
    forall a, b, c
      ensures !heavier(a, b) && !heavier(b, c) ==> !heavier(a, c)
    {
      HeavierTotal(a, b, less);
      HeavierTotal(b, c, less);
      HeavierTotal(a, c, less);
      HeavierTransitive(c, b, a, less);
    }
  }

  lemma HeavierTotal<K(!new)>(a: Record<K>, b: Record<K>, less: (K, K) -> bool)
    requires TotalOrder(less)
    ensures a == b || Heavier(a, b, less) || Heavier(b, a, less)
    ensures !(Heavier(a, b, less) && Heavier(b, a, less))
  {
  }

  lemma HeavierTransitive<K(!new)>(a: Record<K>, b: Record<K>, c: Record<K>, less: (K, K) -> bool)
    requires TotalOrder(less)
    ensures Heavier(a, b, less) && Heavier(b, c, less) ==> Heavier(a, c, less)
  {
  }

  /** So is their ranking. */
  lemma RankingUnique<K(!new)>(a: seq<Record<K>>, b: seq<Record<K>>, records: seq<Record<K>>, less: (K, K) -> bool)
    requires TotalOrder(less) && Ranked(a, less) && Ranked(b, less)
    requires GroupedBy(a, records) && GroupedBy(b, records)
    ensures a == b
  {
    hide GroupedBy, Heavier;
    HeavierOrders(less);
    SameGroups(a, b, records);
    SortedAgree(a, b, ByWeight(less));
  }

  lemma {:induction false} DistinctOnce<K>(groups: seq<Record<K>>, r: Record<K>)
    requires DistinctKeys(groups)
    ensures multiset(groups)[r] <= 1
    ensures multiset(groups)[r] == 1 ==> HasKey(groups, r.key)
  {
    if groups != [] {
      var front, last := groups[..|groups| - 1], groups[|groups| - 1];
      assert groups == front + [last];
      DistinctOnce(front, r);
      HasKeyNext(front, last, r.key);
    }
  }

  lemma RankedStrictly<K(!new)>(groups: seq<Record<K>>, ranked: seq<Record<K>>, records: seq<Record<K>>,
                                less: (K, K) -> bool)
    requires TotalOrder(less) && GroupedBy(groups, records) && multiset(ranked) == multiset(groups)
    requires forall i, j | 0 <= i < j < |ranked| :: !Heavier(ranked[j], ranked[i], less)
    ensures GroupedBy(ranked, records) && Ranked(ranked, less)
  {
    forall i | 0 <= i < |ranked|
      ensures ranked[i] in groups
    {
      SameElements(ranked, groups, ranked[i]);
    }
    forall i, j | 0 <= i < j < |ranked|
      ensures ranked[i].key != ranked[j].key
    {
      DistinctPositions(groups, ranked, i, j);
    }
    forall key
      ensures HasKey(ranked, key) <==> HasKey(records, key)
    {
      SumsOfPermutation(ranked, groups, key);
    }
  }

  lemma DistinctPositions<K>(groups: seq<Record<K>>, ranked: seq<Record<K>>, i: nat, j: nat)
    requires DistinctKeys(groups) && multiset(ranked) == multiset(groups) && i < j < |ranked|
    ensures ranked[i].key != ranked[j].key
  {
    SameElements(ranked, groups, ranked[i]);
    SameElements(ranked, groups, ranked[j]);
    DistinctOnce(groups, ranked[i]);
    Twice(ranked, i, j);
  }

  lemma Twice<T>(s: seq<T>, i: nat, j: nat)
    requires i < j < |s|
    ensures s[i] == s[j] ==> multiset(s)[s[i]] >= 2
  {
    assert s == s[..i] + [s[i]] + s[i + 1..j] + [s[j]] + s[j + 1..];
  }
}
