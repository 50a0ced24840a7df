/** The prepared statements a connection caches against those open on its server: which text each was prepared
    from, and which are open without anyone left to close them. */
module StatementBooks {
  import opened Bytes
  import opened StatementCache
  import opened Wrappers

  /** Each cached id is open on the server and was parsed from exactly the cached text. */
  ghost predicate CachedOpen(es: seq<Entry<u32>>, open: map<u32, string>) {
    forall e :: e in es ==> e.value in open && open[e.value] == e.key
  }

  /** So cached ids are pairwise distinct. */
  lemma CachedIdsDistinct(es: seq<Entry<u32>>, open: map<u32, string>)
    requires CachedOpen(es, open) && Distinct(es)
    ensures forall i, j :: 0 <= i < j < |es| ==> es[i].value != es[j].value
  {
    assert forall i :: 0 <= i < |es| ==> es[i] in es;
  }

  lemma PromoteOpen(es: seq<Entry<u32>>, capacity: nat, k: string, v: u32, open: map<u32, string>)
    requires capacity > 0 && Has(es, k) && es[Find(es, k)].value == v && CachedOpen(es, open)
    ensures CachedOpen(Room(es, capacity, k) + [Entry(k, v)], open) && Has(Room(es, capacity, k) + [Entry(k, v)], k)
    ensures v in open && open[v] == k
  {
    hide Find, Room;
    PromotedMembers(es, capacity, k);
  }

  lemma PreparedOpen(es: seq<Entry<u32>>, open: map<u32, string>, id: u32, sql: string)
    requires CachedOpen(es, open) && id !in open
    ensures CachedOpen(es, open[id := sql])
  {
  }

  /** Caching a new statement and closing the one pushed out leaves every cached one open. */
  lemma StoredOpen(es: seq<Entry<u32>>, capacity: nat, sql: string, id: u32, open: map<u32, string>)
    requires 0 < capacity && |es| <= capacity && Distinct(es) && !Has(es, sql) && CachedOpen(es, open) && id !in open
    ensures CachedOpen(Room(es, capacity, sql) + [Entry(sql, id)], open[id := sql] - DisplacedIds(es, capacity, sql))
    ensures id in open[id := sql] - DisplacedIds(es, capacity, sql)
  {
    hide Find;
    CachedIdsDistinct(es, open);
    assert forall i :: 0 <= i < |es| ==> es[i] in es;
  }

  lemma NoneDisplaced(es: seq<Entry<u32>>, capacity: nat, sql: string, open: map<u32, string>)
    requires 0 < capacity
    ensures open - DisplacedIds(es, capacity, sql)
         == var v := Displaced(es, capacity, sql); if v.Some? then open - {v.value} else open
  {
  }

  ghost function CachedIds(es: seq<Entry<u32>>): set<u32> { set e | e in es :: e.value }

  /** Statements open on the server that the cache does not hold, so no Close will ever be sent for them. */
  ghost function Orphans(open: map<u32, string>, es: seq<Entry<u32>>): set<u32> { open.Keys - CachedIds(es) }

  lemma OrphanMeans(open: map<u32, string>, es: seq<Entry<u32>>, id: u32)
    ensures id in Orphans(open, es) <==> id in open && forall i :: 0 <= i < |es| ==> es[i].value != id
  {
    if id in CachedIds(es) {
      var e :| e in es && e.value == id;
    } else {
      assert forall i :: 0 <= i < |es| ==> es[i] in es && es[i].value in CachedIds(es);
    }
  }

  /** A lookup orphans nothing. */
  lemma PromoteOrphans(es: seq<Entry<u32>>, capacity: nat, k: string, v: u32, open: map<u32, string>)
    requires capacity > 0 && Has(es, k) && es[Find(es, k)].value == v
    ensures Orphans(open, Room(es, capacity, k) + [Entry(k, v)]) == Orphans(open, es)
  {
    hide Find, Room;
    PromotedMembers(es, capacity, k);
    var es' := Room(es, capacity, k) + [Entry(k, v)];
    assert forall e :: e in es <==> e in es';
    assert CachedIds(es') == CachedIds(es);
  }

  /** A new statement is an orphan until it is cached. */
  lemma PreparedOrphan(es: seq<Entry<u32>>, open: map<u32, string>, id: u32, sql: string)
    requires CachedOpen(es, open) && id !in open
    ensures Orphans(open[id := sql], es) == Orphans(open, es) + {id}
  {
  }

  /** Caching a new statement orphans the one pushed out exactly if that was not closed. */
  lemma StoreOrphans(es: seq<Entry<u32>>, capacity: nat, sql: string, id: u32, open: map<u32, string>,
                     open': map<u32, string>)
    requires 0 < capacity && |es| <= capacity && Distinct(es) && !Has(es, sql) && CachedOpen(es, open) && id !in open
    requires open' == open[id := sql] || open' == open[id := sql] - DisplacedIds(es, capacity, sql)
    ensures var was, now := Orphans(open, es), Orphans(open', Room(es, capacity, sql) + [Entry(sql, id)]);
            && (open' == open[id := sql] ==> now == was + DisplacedIds(es, capacity, sql))
            && (open' == open[id := sql] - DisplacedIds(es, capacity, sql) ==> now == was)
  {
    hide Find;
    CachedIdsDistinct(es, open);
    if |es| == capacity {
      assert es == [es[0]] + es[1..];
      assert CachedIds(es) == {es[0].value} + CachedIds(es[1..]) && es[0].value !in CachedIds(es[1..]) by {
        CachedIdsHead(es);
      }
      CachedIdsSnoc(es[1..], Entry(sql, id));
      assert es[0] in es;
    } else {
      CachedIdsSnoc(es, Entry(sql, id));
    }
  }

  ghost function DisplacedIds(es: seq<Entry<u32>>, capacity: nat, sql: string): set<u32>
    requires capacity > 0
  {
    var v := Displaced(es, capacity, sql);
    if v.Some? then {v.value} else {}
  }

  lemma DisplacedMeans(es: seq<Entry<u32>>, capacity: nat, sql: string, id: u32)
    requires 0 < capacity && |es| <= capacity && forall i :: 0 <= i < |es| ==> es[i].key != sql
    ensures id in DisplacedIds(es, capacity, sql) <==> |es| == capacity && id == es[0].value
  {
  }

  lemma CachedIdsHead(es: seq<Entry<u32>>)
    requires es != [] && forall i, j :: 0 <= i < j < |es| ==> es[i].value != es[j].value
    ensures CachedIds(es) == {es[0].value} + CachedIds(es[1..]) && es[0].value !in CachedIds(es[1..])
  {
    assert forall e :: e in es <==> e == es[0] || e in es[1..];
  }

  lemma CachedIdsSnoc(es: seq<Entry<u32>>, e: Entry<u32>)
    ensures CachedIds(es + [e]) == CachedIds(es) + {e.value}
  {
    assert forall x :: x in es + [e] <==> x in es || x == e;
  }
}
