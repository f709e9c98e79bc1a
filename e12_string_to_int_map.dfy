/**
 * e12 StringToIntMap: a map from strings to ints kept as a list of entries
 * sorted strictly by key, searched by binary search. The representation
 * invariant is `Valid()`; the abstraction function is `AsMap`.
 */
module StringToIntMaps {
  import opened Wrappers
  import opened JavaString

  /** The record Entry: one key and its value. */
  datatype Entry = Entry(key: string, value: int)

  /** The keys of the entries, in order. */
  function Keys(es: seq<Entry>): (ks: seq<string>)
    ensures |ks| == |es|
    ensures forall i :: 0 <= i < |es| ==> ks[i] == es[i].key
  {
    seq(|es|, i requires 0 <= i < |es| => es[i].key)
  }

  /** The mapping a list of entries stands for (the abstraction function). */
  ghost function AsMap(es: seq<Entry>): map<string, int> {
    if es == [] then map[]
    else AsMap(es[..|es| - 1])[es[|es| - 1].key := es[|es| - 1].value]
  }

  /** The keys of the mapping are the keys of the entries. */
  lemma {:induction false} AsMapDomain(es: seq<Entry>)
    ensures forall k :: k in AsMap(es) <==> k in Keys(es)
  {
    if es != [] {
      var init := es[..|es| - 1];
      AsMapDomain(init);
      assert Keys(es) == Keys(init) + [es[|es| - 1].key];
    }
  }

  /** With unique keys, every entry is a mapping of the map. */
  lemma {:induction false} AsMapValue(es: seq<Entry>, i: nat)
    requires StrictlySorted(Keys(es)) && i < |es|
    ensures es[i].key in AsMap(es) && AsMap(es)[es[i].key] == es[i].value
  {
    var n := |es| - 1;
    if i < n {
      var init := es[..n];
      assert Keys(init) == Keys(es)[..n];
      AsMapValue(init, i);
      LessTrichotomy(es[i].key, es[n].key);
    }
  }

  /** With unique keys, the map has one mapping per entry. */
  lemma {:induction false} AsMapSize(es: seq<Entry>)
    requires StrictlySorted(Keys(es))
    ensures |AsMap(es)| == |es|
  {
    if es != [] {
      var n := |es| - 1;
      var init := es[..n];
      assert Keys(init) == Keys(es)[..n];
      AsMapSize(init);
      AsMapDomain(init);
      forall k | 0 <= k < n ensures Keys(init)[k] != es[n].key {
        LessTrichotomy(es[k].key, es[n].key);
      }
    }
  }

  /** Two entry lists with unique keys stand for the same map exactly when they are equal. */
  lemma AsMapDetermines(a: seq<Entry>, b: seq<Entry>)
    requires StrictlySorted(Keys(a)) && StrictlySorted(Keys(b))
    ensures AsMap(a) == AsMap(b) <==> a == b
  {
    if AsMap(a) == AsMap(b) {
      AsMapDomain(a);
      AsMapDomain(b);
      StrictlySortedUnique(Keys(a), Keys(b));
      forall i | 0 <= i < |a| ensures a[i] == b[i] {
        AsMapValue(a, i);
        AsMapValue(b, i);
      }
    }
  }

  /** Later entries override earlier ones, as map union does. */
  lemma {:induction false} AsMapAppend(a: seq<Entry>, b: seq<Entry>)
    ensures AsMap(a + b) == AsMap(a) + AsMap(b)
  {
    if b == [] {
      assert a + b == a;
    } else {
      var n := |b| - 1;
      assert (a + b)[..|a + b| - 1] == a + b[..n];
      AsMapAppend(a, b[..n]);
    }
  }

  /** A key that no entry of `es` has is not mapped by `es`. */
  lemma AsMapAbsent(es: seq<Entry>, k: string)
    requires k !in Keys(es)
    ensures k !in AsMap(es)
  {
    AsMapDomain(es);
  }

  lemma UnionUpdate(m1: map<string, int>, m2: map<string, int>, k: string, v: int)
    requires k !in m2
    ensures m1 + map[k := v] + m2 == (m1 + m2)[k := v]
  {
  }

  lemma UnionRemove(m1: map<string, int>, m2: map<string, int>, k: string, v: int)
    requires k !in m1 && k !in m2
    ensures m1 + m2 == (m1 + map[k := v] + m2) - {k}
  {
  }

  lemma AsMapSingleton(e: Entry)
    ensures AsMap([e]) == map[e.key := e.value]
  {
    assert [e][..0] == [];
  }

  /** Inserting an entry at the insertion point of its key keeps the keys sorted. */
  lemma InsertKeepsSorted(es: seq<Entry>, ip: nat, e: Entry)
    requires StrictlySorted(Keys(es)) && InsertionPoint(Keys(es), ip, e.key)
    ensures StrictlySorted(Keys(es[..ip] + [e] + es[ip..]))
  {
    assert Keys(es[..ip] + [e] + es[ip..]) == Keys(es)[..ip] + [e.key] + Keys(es)[ip..];
    InsertStrictlySorted(Keys(es), ip, e.key);
  }

  lemma AsMapSplit(a: seq<Entry>, e: Entry, b: seq<Entry>)
    ensures AsMap(a + [e] + b) == AsMap(a) + map[e.key := e.value] + AsMap(b)
  {
    AsMapAppend(a + [e], b);
    AsMapAppend(a, [e]);
    AsMapSingleton(e);
  }

  /** Inserting an entry at the insertion point of its key adds its mapping. */
  lemma AsMapInsert(es: seq<Entry>, ip: nat, e: Entry)
    requires StrictlySorted(Keys(es)) && InsertionPoint(Keys(es), ip, e.key)
    ensures AsMap(es[..ip] + [e] + es[ip..]) == AsMap(es)[e.key := e.value]
  {
    var a, b := es[..ip], es[ip..];
    assert a + b == es;
    InsertionPointAbsent(Keys(es), ip, e.key);
    assert Keys(b) == Keys(es)[ip..];
    AsMapAbsent(b, e.key);
    AsMapSplit(a, e, b);
    AsMapAppend(a, b);
    UnionUpdate(AsMap(a), AsMap(b), e.key, e.value);
  }

  /** Removing entry `i` keeps the keys sorted. */
  lemma RemoveKeepsSorted(es: seq<Entry>, i: nat)
    requires StrictlySorted(Keys(es)) && i < |es|
    ensures StrictlySorted(Keys(es[..i] + es[i + 1..]))
  {
    assert Keys(es[..i] + es[i + 1..]) == Keys(es)[..i] + Keys(es)[i + 1..];
    RemoveStrictlySorted(Keys(es), i);
  }

  lemma SplitAround(es: seq<Entry>, i: nat)
    requires i < |es|
    ensures es[..i] + [es[i]] + es[i + 1..] == es
  {
  }

  /** With unique keys, no other entry has the key of entry `i`. */
  lemma KeyOnlyOnce(es: seq<Entry>, i: nat)
    requires StrictlySorted(Keys(es)) && i < |es|
    ensures es[i].key !in Keys(es[..i]) && es[i].key !in Keys(es[i + 1..])
  {
    forall k | 0 <= k < |es| && k != i ensures es[k].key != es[i].key {
      LessTrichotomy(es[k].key, es[i].key);
    }
    assert Keys(es[..i]) == Keys(es)[..i];
    assert Keys(es[i + 1..]) == Keys(es)[i + 1..];
  }

  /** Removing entry `i` removes the mapping of its key. */
  lemma AsMapRemove(es: seq<Entry>, i: nat)
    requires StrictlySorted(Keys(es)) && i < |es|
    ensures AsMap(es[..i] + es[i + 1..]) == AsMap(es) - {es[i].key}
  {
    var a, e, b := es[..i], es[i], es[i + 1..];
    SplitAround(es, i);
    KeyOnlyOnce(es, i);
    AsMapAbsent(a, e.key);
    AsMapAbsent(b, e.key);
    AsMapSplit(a, e, b);
    AsMapAppend(a, b);
    UnionRemove(AsMap(a), AsMap(b), e.key, e.value);
  }

  class StringToIntMap {
    var entries: seq<Entry>

    /** The representation invariant: sorted strictly by key, so keys are unique. */
    ghost predicate Valid()
      reads this
    {
      StrictlySorted(Keys(entries))
    }

    /** The mappings this map holds. */
    ghost function Map(): map<string, int>
      reads this
    {
      AsMap(entries)
    }

    constructor ()
      ensures Valid() && entries == [] && Map() == map[]
    {
      entries := [];
    }

    /** The number of mappings. */
    function Size(): (n: nat)
      reads this
      requires Valid()
      ensures n == |Map()|
    {
      AsMapSize(entries);
      |entries|
    }

    function IsEmpty(): (b: bool)
      reads this
      requires Valid()
      ensures b <==> Map() == map[]
    {
      AsMapSize(entries);
      entries == []
    }

    /**
     * Binary search on the keys: the index of `key`, or -ip-1 where ip is the
     * position at which `key` belongs.
     */
    method FindKeyIndex(key: string) returns (r: int)
      requires Valid()
      ensures 0 <= r ==> r < |entries| && entries[r].key == key
      ensures r < 0 ==> InsertionPoint(Keys(entries), -r - 1, key)
    {
      ghost var keys := Keys(entries);
      var lo, hi := 0, |entries| - 1;
      while lo <= hi
        invariant 0 <= lo <= hi + 1 <= |entries|
        invariant forall k :: 0 <= k < lo ==> Less(keys[k], key)
        invariant forall k :: hi < k < |entries| ==> Less(key, keys[k])
      {
        var mid := lo + (hi - lo) / 2;
        CompareAntisymmetric(key, entries[mid].key);
        CompareZeroIff(key, entries[mid].key);
        if Compare(key, entries[mid].key) < 0 {
          forall k | mid < k < |entries| ensures Less(key, keys[k]) {
            LessTransitive(key, keys[mid], keys[k]);
          }
          hi := mid - 1;
        } else if Compare(key, entries[mid].key) > 0 {
          forall k | 0 <= k < mid ensures Less(keys[k], key) {
            LessTransitive(keys[k], keys[mid], key);
          }
          lo := mid + 1;
        } else {
          return mid;
        }
      }
      return -lo - 1;
    }

    method ContainsKey(key: string) returns (b: bool)
      requires Valid()
      ensures b <==> key in Map()
    {
      var index := FindKeyIndex(key);
      AsMapDomain(entries);
      if index < 0 {
        InsertionPointAbsent(Keys(entries), -index - 1, key);
      }
      b := index >= 0;
    }

    /** Linear scan: some mapping has value `value`. */
    method ContainsValue(value: int) returns (b: bool)
      requires Valid()
      ensures b <==> value in Map().Values
    {
      AsMapDomain(entries);
      forall i | 0 <= i < |entries| ensures entries[i].key in Map() && Map()[entries[i].key] == entries[i].value {
        AsMapValue(entries, i);
      }
      for i := 0 to |entries|
        invariant forall k :: 0 <= k < i ==> entries[k].value != value
      {
        if entries[i].value == value {
          assert Map()[entries[i].key] == value;
          return true;
        }
      }
      return false;
    }

    /** The value of `key`; NoSuchElementException when it has none. */
    method Get(key: string) returns (r: Result<int>)
      requires Valid()
      ensures r.Success? <==> key in Map()
      ensures r.Success? ==> r.value == Map()[key]
      ensures r.Failure? ==> r.error == NoSuchElement
    {
      var index := FindKeyIndex(key);
      AsMapDomain(entries);
      if index >= 0 {
        AsMapValue(entries, index);
        return Success(entries[index].value);
      }
      InsertionPointAbsent(Keys(entries), -index - 1, key);
      return Failure(NoSuchElement);
    }

    /**
     * Adds the mapping from `key` to `value` at the key's place in the order;
     * IllegalArgumentException when `key` already has a value.
     */
    method Put(key: string, value: int) returns (o: Outcome)
      requires Valid()
      modifies this
      ensures Valid()
      ensures o == Fail(IllegalArgument) <==> key in old(Map())
      ensures o.Fail? ==> entries == old(entries)
      ensures o.Pass? ==> Map() == old(Map())[key := value] && |entries| == |old(entries)| + 1
    {
      var index := FindKeyIndex(key);
      AsMapDomain(entries);
      if index >= 0 {
        return Fail(IllegalArgument);
      }
      var insertionPoint := -index - 1;
      InsertionPointAbsent(Keys(entries), insertionPoint, key);
      InsertKeepsSorted(entries, insertionPoint, Entry(key, value));
      AsMapInsert(entries, insertionPoint, Entry(key, value));
      entries := entries[..insertionPoint] + [Entry(key, value)] + entries[insertionPoint..];
      return Pass;
    }

    /** Removes the mapping of `key`, if any; the result says whether there was one. */
    method Remove(key: string) returns (removed: bool)
      requires Valid()
      modifies this
      ensures Valid()
      ensures removed <==> key in old(Map())
      ensures Map() == old(Map()) - {key}
      ensures removed ==> |entries| == |old(entries)| - 1
      ensures !removed ==> entries == old(entries)
    {
      var index := FindKeyIndex(key);
      AsMapDomain(entries);
      if index >= 0 {
        RemoveKeepsSorted(entries, index);
        AsMapRemove(entries, index);
        entries := entries[..index] + entries[index + 1..];
        return true;
      }
      InsertionPointAbsent(Keys(entries), -index - 1, key);
      return false;
    }

    method Clear()
      modifies this
      ensures Valid() && entries == [] && Map() == map[]
    {
      entries := [];
    }

    /** Two maps are equal when their entry lists are, that is when they hold the same mappings. */
    function Equals(other: StringToIntMap): (b: bool)
      reads this, other
      requires Valid() && other.Valid()
      ensures b <==> Map() == other.Map()
    {
      AsMapDetermines(entries, other.entries);
      entries == other.entries
    }
  }
}
