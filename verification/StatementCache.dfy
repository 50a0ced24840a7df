/** The statement cache: an LRU map from SQL text to a prepared statement. `lru::LruCache` is
    modelled as the list of its entries, least recently used first. */
module StatementCache {
  import opened Wrappers

  datatype Entry<V> = Entry(key: string, value: V)

  function Find<V>(es: seq<Entry<V>>, k: string): (i: nat)
    ensures i <= |es|
    ensures i < |es| ==> es[i].key == k
    ensures forall j :: 0 <= j < i ==> es[j].key != k
  {
    if es == [] || es[0].key == k then 0 else 1 + Find(es[1..], k)
  }

  predicate Has<V>(es: seq<Entry<V>>, k: string) { Find(es, k) < |es| }

  lemma HasMeans<V>(es: seq<Entry<V>>, k: string)
    ensures Has(es, k) <==> exists e :: e in es && e.key == k
  {
    if Has(es, k) {
      assert es[Find(es, k)] in es;
    }
  }

  ghost predicate Distinct<V>(es: seq<Entry<V>>) {
    forall i, j :: 0 <= i < j < |es| ==> es[i].key != es[j].key
  }

  function Without<V>(es: seq<Entry<V>>, i: nat): seq<Entry<V>>
    requires i < |es|
  {
    es[..i] + es[i + 1..]
  }

  /** The entries that remain when `k` is about to be put: its old entry goes, or the oldest
      one of a full cache. */
  function Room<V>(es: seq<Entry<V>>, capacity: nat, k: string): seq<Entry<V>>
    requires capacity > 0
  {
    if Has(es, k) then Without(es, Find(es, k))
    else if |es| == capacity then es[1..]
    else es
  }

  /** The value an insertion hands back: the replaced one, or the oldest when full. */
  function Displaced<V>(es: seq<Entry<V>>, capacity: nat, k: string): Option<V>
    requires capacity > 0
  {
    if Has(es, k) then Some(es[Find(es, k)].value)
    else if |es| == capacity then Some(es[0].value)
    else None
  }

  /** The entry an insertion takes out of the cache, if any. */
  ghost function Bag<V>(es: seq<Entry<V>>, capacity: nat, k: string): multiset<Entry<V>>
    requires capacity > 0
  {
    if Has(es, k) then multiset{es[Find(es, k)]}
    else if |es| == capacity then multiset{es[0]}
    else multiset{}
  }

  lemma WithoutConserves<V>(es: seq<Entry<V>>, i: nat)
    requires i < |es|
    ensures multiset(es) == multiset(Without(es, i)) + multiset{es[i]}
  {
    assert es == es[..i] + [es[i]] + es[i + 1..];
  }

  /** Making room loses nothing: what stays and what is taken out are what was there. */
  lemma RoomConserves<V>(es: seq<Entry<V>>, capacity: nat, k: string)
    requires 0 < capacity
    ensures multiset(es) == multiset(Room(es, capacity, k)) + Bag(es, capacity, k)
  {
    var i := Find(es, k);
    if i < |es| {
      WithoutConserves(es, i);
    } else if |es| == capacity {
      WithoutConserves(es, 0);
      assert Without(es, 0) == es[1..];
    }
  }

  /** A lookup leaves the same entries, in another order. */
  lemma PromotedMembers<V>(es: seq<Entry<V>>, capacity: nat, k: string)
    requires capacity > 0 && Has(es, k)
    ensures var e := es[Find(es, k)];
            && e in es && e.key == k
            && Has(Room(es, capacity, k) + [e], k)
            && var es' := Room(es, capacity, k) + [e];
               (forall i :: 0 <= i < |es'| ==> es'[i] in es) && (forall i :: 0 <= i < |es| ==> es[i] in es')
  {
    var i := Find(es, k);
    assert es == es[..i] + [es[i]] + es[i + 1..];
    AppendedHas(Room(es, capacity, k), es[i]);
    hide Find;
  }

  lemma AppendedHas<V>(es: seq<Entry<V>>, e: Entry<V>)
    ensures Has(es + [e], e.key)
  {
    assert (es + [e])[|es|] == e;
  }

  /** The list order is the order of the last uses. */
  ghost predicate InUseOrder<V>(es: seq<Entry<V>>, lastUse: map<string, nat>, clock: nat) {
    && (forall i :: 0 <= i < |es| ==> es[i].key in lastUse && lastUse[es[i].key] < clock)
    && (forall i, j :: 0 <= i < j < |es| ==> lastUse[es[i].key] < lastUse[es[j].key])
  }

  lemma WithoutInUseOrder<V>(es: seq<Entry<V>>, i: nat, lastUse: map<string, nat>, clock: nat)
    requires i < |es| && InUseOrder(es, lastUse, clock)
    ensures InUseOrder(Without(es, i), lastUse, clock)
    ensures !Has(Without(es, i), es[i].key)
  {
    var rest := Without(es, i);
    assert forall j :: 0 <= j < |rest| ==> rest[j] == if j < i then es[j] else es[j + 1];
  }

  /** Room for `k` keeps the order, leaves a free place and no entry for `k`. */
  lemma RoomInUseOrder<V>(es: seq<Entry<V>>, capacity: nat, k: string, lastUse: map<string, nat>, clock: nat)
    requires 0 < capacity && |es| <= capacity && InUseOrder(es, lastUse, clock)
    ensures var rest := Room(es, capacity, k);
            InUseOrder(rest, lastUse, clock) && !Has(rest, k) && |rest| < capacity
  {
    if Has(es, k) {
      WithoutInUseOrder(es, Find(es, k), lastUse, clock);
    }
  }

  lemma AppendInUseOrder<V>(es: seq<Entry<V>>, e: Entry<V>, lastUse: map<string, nat>, clock: nat)
    requires InUseOrder(es, lastUse, clock) && !Has(es, e.key)
    ensures InUseOrder(es + [e], lastUse[e.key := clock], clock + 1)
    ensures Find(es + [e], e.key) == |es|
  {
    var es' := es + [e];
    assert es'[|es|] == e && forall j :: 0 <= j < |es| ==> es'[j] == es[j] && es[j].key != e.key;
  }

  lemma InUseOrderDistinct<V>(es: seq<Entry<V>>, lastUse: map<string, nat>, clock: nat)
    requires InUseOrder(es, lastUse, clock)
    ensures Distinct(es)
  {
  }

  /** What putting `v` under `k` means for the entries and for what is handed back: an entry of that key is replaced; if
      there is none and the cache is full, the entry used longest ago goes; every other one stays. */
  ghost predicate Puts<V>(es: seq<Entry<V>>, lastUse: map<string, nat>, capacity: nat, k: string, v: V, r: Option<V>,
                          es': seq<Entry<V>>) {
    && es' != [] && es'[|es'| - 1] == Entry(k, v)
    && (forall e :: e in es' ==> e == Entry(k, v) || (e in es && e.key != k))
    && if exists e :: e in es && e.key == k then
         (exists e :: e in es && e.key == k && r == Some(e.value)) && (forall e :: e in es && e.key != k ==> e in es')
       else if |es| < capacity then
         r == None && forall e :: e in es ==> e in es'
       else
         exists x :: x in es && r == Some(x.value) && x !in es' && Oldest(es, lastUse, x, es')
  }

  ghost predicate Oldest<V>(es: seq<Entry<V>>, lastUse: map<string, nat>, x: Entry<V>, es': seq<Entry<V>>) {
    forall e :: e in es && e != x ==>
                  e in es' && e.key in lastUse && x.key in lastUse && lastUse[x.key] < lastUse[e.key]
  }

  lemma PutsRoom<V>(es: seq<Entry<V>>, lastUse: map<string, nat>, clock: nat, capacity: nat, k: string, v: V)
    requires 0 < capacity && |es| <= capacity && InUseOrder(es, lastUse, clock)
    ensures Puts(es, lastUse, capacity, k, v, Displaced(es, capacity, k), Room(es, capacity, k) + [Entry(k, v)])
  {
    hide Puts, Find, InUseOrder;
    if Has(es, k) {
      PutsReplacing(es, lastUse, clock, capacity, k, v);
    } else if |es| == capacity {
      PutsEvicting(es, lastUse, clock, k, v);
    } else {
      PutsAdding(es, lastUse, capacity, k, v);
    }
  }

  lemma PutsAdding<V>(es: seq<Entry<V>>, lastUse: map<string, nat>, capacity: nat, k: string, v: V)
    requires |es| < capacity && !Has(es, k)
    ensures Puts(es, lastUse, capacity, k, v, None, es + [Entry(k, v)])
  {
    HasMeans(es, k);
    Appended(es, Entry(k, v));
    hide Has;
  }

  lemma PutsReplacing<V>(es: seq<Entry<V>>, lastUse: map<string, nat>, clock: nat, capacity: nat, k: string, v: V)
    requires Has(es, k) && InUseOrder(es, lastUse, clock)
    ensures var i := Find(es, k);
            Puts(es, lastUse, capacity, k, v, Some(es[i].value), Without(es, i) + [Entry(k, v)])
  {
    var i := Find(es, k);
    WithoutInUseOrder(es, i, lastUse, clock);
    WithoutMembers(es, i);
    HasMeans(Without(es, i), k);
    Appended(Without(es, i), Entry(k, v));
    assert es[i] in es && es[i].key == k;
    hide Has, Find, InUseOrder, Without;
    forall e | e in es && e.key != k ensures e in Without(es, i) + [Entry(k, v)] {
      var j :| 0 <= j < |es| && es[j] == e;
    }
  }

  lemma PutsEvicting<V>(es: seq<Entry<V>>, lastUse: map<string, nat>, clock: nat, k: string, v: V)
    requires es != [] && !Has(es, k) && InUseOrder(es, lastUse, clock)
    ensures Puts(es, lastUse, |es|, k, v, Some(es[0].value), es[1..] + [Entry(k, v)])
  {
    var es' := es[1..] + [Entry(k, v)];
    HasMeans(es, k);
    Appended(es[1..], Entry(k, v));
    FirstIsOldest(es, lastUse, clock, es');
    assert es[0] in es && es[0] !in es' by {
      InUseOrderDistinct(es, lastUse, clock);
    }
    assert forall e :: e in es[1..] ==> e in es;
    hide Find, InUseOrder, Oldest, Has;
  }

  lemma WithoutMembers<V>(es: seq<Entry<V>>, i: nat)
    requires i < |es|
    ensures forall e :: e in Without(es, i) ==> e in es
    ensures forall j :: 0 <= j < |es| && j != i ==> es[j] in Without(es, i)
  {
    var rest := Without(es, i);
    assert forall j :: 0 <= j < |rest| ==> rest[j] == es[if j < i then j else j + 1];
    forall j | 0 <= j < |es| && j != i ensures es[j] in rest {
      assert es[j] == rest[if j < i then j else j - 1];
    }
  }

  lemma Appended<V>(es: seq<Entry<V>>, e: Entry<V>)
    ensures forall x :: x in es + [e] <==> x in es || x == e
    ensures (es + [e])[|es + [e]| - 1] == e
  {
  }

  lemma FirstIsOldest<V>(es: seq<Entry<V>>, lastUse: map<string, nat>, clock: nat, es': seq<Entry<V>>)
    requires es != [] && InUseOrder(es, lastUse, clock) && forall e :: e in es[1..] ==> e in es'
    ensures Oldest(es, lastUse, es[0], es')
  {
    forall e | e in es && e != es[0]
      ensures e in es' && e.key in lastUse && es[0].key in lastUse && lastUse[es[0].key] < lastUse[e.key]
    {
      var j :| 0 <= j < |es| && es[j] == e;
      assert e == es[1..][j - 1];
    }
  }

  lemma AddOne<V>(a: multiset<V>, b: multiset<V>, c: multiset<V>, x: V)
    ensures (a + multiset{x}) + b + c == (a + b + c) + multiset{x}
  {
  }

  lemma MoveAcross<V>(kept: seq<V>, taken: multiset<V>, b: multiset<V>, c: multiset<V>)
    ensures (multiset(kept) + taken) + b + c == multiset(kept) + (b + taken) + c
  {
  }

  class Cache<V> {
    const capacity: nat

    /** Least recently used first. */
    var entries: seq<Entry<V>>

    /** When each cached key was last inserted or looked up. */
    ghost var lastUse: map<string, nat>
    ghost var clock: nat

    /** Every entry ever inserted, handed back to the caller, or dropped by `Clear`. */
    ghost var inserted: multiset<Entry<V>>
    ghost var returned: multiset<Entry<V>>
    ghost var dropped: multiset<Entry<V>>

    ghost predicate Valid()
      reads this
    {
      && 0 < capacity && |entries| <= capacity
      && InUseOrder(entries, lastUse, clock)
      && inserted == multiset(entries) + returned + dropped
    }

    /** `NonZeroUsize::new(capacity).unwrap()` panics on capacity 0. */
    constructor (capacity: nat)
      requires capacity > 0
      ensures Valid() && entries == [] && this.capacity == capacity && inserted == multiset{}
    {
      this.capacity := capacity;
      entries, lastUse, clock := [], map[], 0;
      inserted, returned, dropped := multiset{}, multiset{}, multiset{};
    }

    /** `LruCache::get_mut`. */
    method GetMut(k: string) returns (r: Option<V>)
      requires Valid()
      modifies this
      ensures Valid() && inserted == old(inserted) && returned == old(returned) && dropped == old(dropped)
      ensures r.Some? <==> old(Has(entries, k))
      ensures r.None? ==> entries == old(entries) && lastUse == old(lastUse) && clock == old(clock)
      ensures r.Some? ==> lastUse == old(lastUse)[k := old(clock)] && clock == old(clock) + 1
      ensures r.Some? ==> r.value == old(entries[Find(entries, k)].value)
      ensures r.Some? ==> entries == Room(old(entries), capacity, k) + [Entry(k, r.value)]
      ensures r.None? <==> forall e :: e in old(entries) ==> e.key != k
      ensures r.Some? ==> Entry(k, r.value) in old(entries)
    {
      HasMeans(entries, k);
      hide Find, InUseOrder;
      var i := Find(entries, k);
      if i == |entries| {
        return None;
      }
      var e := entries[i];
      WithoutConserves(entries, i);
      WithoutInUseOrder(entries, i, lastUse, clock);
      AppendInUseOrder(Without(entries, i), e, lastUse, clock);
      entries := Without(entries, i) + [e];
      lastUse, clock := lastUse[k := clock], clock + 1;
      r := Some(e.value);
    }

    /** `LruCache::pop_lru`: the entry handed back was used before every other one. */
    method RemoveLru() returns (r: Option<V>)
      requires Valid()
      modifies this`entries, this`returned
      ensures Valid()
      ensures r.None? <==> old(entries) == []
      ensures r.None? ==> entries == [] && returned == old(returned)
      ensures r.Some? ==> entries == old(entries)[1..] && r.value == old(entries)[0].value
      ensures r.Some? ==> returned == old(returned) + multiset{old(entries)[0]}
      ensures r.Some? ==> old(entries)[0].key in lastUse
      ensures r.Some? ==> forall e :: e in entries ==>
                                        e.key in lastUse && lastUse[old(entries)[0].key] < lastUse[e.key]
    {
      if entries == [] {
        return None;
      }
      assert entries == [entries[0]] + entries[1..];
      r := Some(entries[0].value);
      returned := returned + multiset{entries[0]};
      entries := entries[1..];
    }

    /** `LruCache::put`: replaces an entry of the same key, and silently drops the oldest entry
        of a full cache. */
    method Put(k: string, v: V)
      requires 0 < capacity && |entries| <= capacity && InUseOrder(entries, lastUse, clock)
      modifies this`entries, this`lastUse, this`clock
      ensures entries == Room(old(entries), capacity, k) + [Entry(k, v)]
      ensures |entries| <= capacity && InUseOrder(entries, lastUse, clock)
      ensures lastUse == old(lastUse)[k := old(clock)] && clock == old(clock) + 1
    {
      RoomInUseOrder(entries, capacity, k, lastUse, clock);
      entries := Room(entries, capacity, k);
      AppendInUseOrder(entries, Entry(k, v), lastUse, clock);
      entries := entries + [Entry(k, v)];
      lastUse, clock := lastUse[k := clock], clock + 1;
    }

    /** The first half of `StatementCache::insert`. */
    method MakeRoom(k: string) returns (r: Option<V>)
      requires Valid()
      modifies this`entries, this`returned
      ensures Valid() && |entries| < capacity && !Has(entries, k)
      ensures r == Displaced(old(entries), capacity, k) && entries == Room(old(entries), capacity, k)
      ensures returned == old(returned) + Bag(old(entries), capacity, k)
    {
      hide InUseOrder, Find;
      RoomConserves(entries, capacity, k);
      MoveAcross(Room(entries, capacity, k), Bag(entries, capacity, k), returned, dropped);
      RoomInUseOrder(entries, capacity, k, lastUse, clock);
      r := None;
      if |entries| == capacity && !Has(entries, k) {
        r := RemoveLru();
      } else if Has(entries, k) {
        var i := Find(entries, k);
        r := Some(entries[i].value);
        returned := returned + multiset{entries[i]};
        entries := Without(entries, i);
      }
    }

    /** `StatementCache::insert`. The inner `put` never drops a value: room is made first. */
    method Insert(k: string, v: V) returns (r: Option<V>)
      requires Valid()
      modifies this
      ensures Valid() && dropped == old(dropped)
      ensures lastUse == old(lastUse)[k := old(clock)] && clock == old(clock) + 1
      ensures r == Displaced(old(entries), capacity, k)
      ensures entries == Room(old(entries), capacity, k) + [Entry(k, v)]
      ensures inserted == old(inserted) + multiset{Entry(k, v)}
      ensures returned == old(returned) + Bag(old(entries), capacity, k)
      ensures Puts(old(entries), old(lastUse), capacity, k, v, r, entries)
    {
      hide InUseOrder, Displaced, Bag, Find, Puts;
      PutsRoom(entries, lastUse, clock, capacity, k, v);
      r := MakeRoom(k);
      assert Room(entries, capacity, k) == entries;
      AddOne(multiset(entries), returned, dropped, Entry(k, v));
      Put(k, v);
      inserted := inserted + multiset{Entry(k, v)};
    }

    /** `StatementCache::clear` drops every value without handing it back. */
    method Clear()
      requires Valid()
      modifies this`entries, this`dropped
      ensures Valid() && entries == [] && dropped == old(dropped) + multiset(old(entries))
    {
      dropped := dropped + multiset(entries);
      entries := [];
    }
  }
}
