/** Resolving PostgreSQL types by oid: built-in types, then a cache, then the catalog, recursively for the
    types a type is made of. The catalog is fixed and acyclic; the built-in table is any partial map. */
module PgTypes {
  import opened Bytes
  import opened Wrappers

  type Oid = u32

  datatype TypeInfo =
    | Builtin(oid: Oid)
    | Custom(oid: Oid, name: string, kind: Kind)
    | DeclareWithOid(oid: Oid)

  datatype Kind =
    | Simple
    | Pseudo
    | Domain(base: TypeInfo)
    | Composite(fields: seq<(string, TypeInfo)>)
    | Array(element: TypeInfo)
    | Enum(labels: seq<string>)
    | Range(element: TypeInfo)

  /** A row of `pg_type`; `typtype` and `typcategory` are first characters, NUL for an empty text. */
  datatype Row = Row(typname: string, typtype: char, typcategory: char, typrelid: Oid, typelem: Oid, typbasetype: Oid)

  datatype Catalog = Catalog(
    builtin: map<Oid, TypeInfo>,
    types: map<Oid, Row>,
    ranges: map<Oid, Oid>,
    enums: map<Oid, seq<string>>,
    attributes: map<Oid, seq<(string, Oid)>>,
    byName: map<string, Oid>)

  // ---------------------------------------------------------------- catalog queries

  /** What the type query yields; the code starts from an empty row and keeps it if none is found. */
  function RowOf(c: Catalog, oid: Oid): Row {
    if oid in c.types then c.types[oid] else Row("", '\0', '\0', 0, 0, 0)
  }

  function RangeElement(c: Catalog, oid: Oid): Oid { if oid in c.ranges then c.ranges[oid] else 0 }

  function LabelsOf(c: Catalog, oid: Oid): seq<string> { if oid in c.enums then c.enums[oid] else [] }

  function AttributesOf(c: Catalog, relation: Oid): seq<(string, Oid)> {
    if relation in c.attributes then c.attributes[relation] else []
  }

  /** The oid the by-name query gives first; 0 when nothing is found. */
  function Named(c: Catalog, name: string): Oid { if name in c.byName then c.byName[name] else 0 }

  /** Which branch of `fetch_type_by_oid` a row takes. */
  datatype Shape = DomainShape | ArrayShape | PseudoShape | RangeShape | EnumShape | CompositeShape | SimpleShape

  function ShapeOf(r: Row): Shape {
    if r.typtype == 'd' then DomainShape
    else if r.typtype == 'b' && r.typcategory == 'A' then ArrayShape
    else if r.typtype == 'p' && r.typcategory == 'P' then PseudoShape
    else if r.typtype == 'r' && r.typcategory == 'R' then RangeShape
    else if r.typtype == 'e' && r.typcategory == 'E' then EnumShape
    else if r.typtype == 'c' && r.typcategory == 'C' then CompositeShape
    else SimpleShape
  }

  /** The oids a type refers to. */
  function References(c: Catalog, oid: Oid): seq<Oid> {
    var r := RowOf(c, oid);
    match ShapeOf(r)
    case DomainShape => [r.typbasetype]
    case ArrayShape => [r.typelem]
    case RangeShape => [RangeElement(c, oid)]
    case CompositeShape =>
      var fields := AttributesOf(c, r.typrelid);
      seq(|fields|, i requires 0 <= i < |fields| => fields[i].1)
    case _ => []
  }

  /** Every type outranks the types it refers to. */
  ghost predicate Acyclic(c: Catalog, rank: Oid -> nat) {
    forall oid, i :: oid !in c.builtin && 0 <= i < |References(c, oid)| ==> rank(References(c, oid)[i]) < rank(oid)
  }

  // ---------------------------------------------------------------- resolution without a cache

  ghost function Resolve(c: Catalog, rank: Oid -> nat, oid: Oid): TypeInfo
    requires Acyclic(c, rank)
    decreases rank(oid), 1, 0
  {
    if oid in c.builtin then c.builtin[oid]
    else
      var r := RowOf(c, oid);
      var refs := References(c, oid);
      Custom(oid, r.typname,
             match ShapeOf(r)
             case DomainShape => assert refs[0] == r.typbasetype; Domain(Resolve(c, rank, r.typbasetype))
             case ArrayShape => assert refs[0] == r.typelem; Array(Resolve(c, rank, r.typelem))
             case PseudoShape => Pseudo
             case RangeShape => assert refs[0] == RangeElement(c, oid); Range(Resolve(c, rank, RangeElement(c, oid)))
             case EnumShape => Enum(LabelsOf(c, oid))
             case CompositeShape =>
               var fields := AttributesOf(c, r.typrelid);
               assert forall i :: 0 <= i < |fields| ==> refs[i] == fields[i].1;
               Composite(ResolveFields(c, rank, fields, rank(oid)))
             case SimpleShape => Simple)
  }

  ghost function ResolveFields(c: Catalog, rank: Oid -> nat, fields: seq<(string, Oid)>, bound: nat)
    : (r: seq<(string, TypeInfo)>)
    requires Acyclic(c, rank) && forall i :: 0 <= i < |fields| ==> rank(fields[i].1) < bound
    ensures |r| == |fields|
    ensures forall i :: 0 <= i < |fields| ==> r[i] == (fields[i].0, Resolve(c, rank, fields[i].1))
    decreases bound, 0, |fields|
  {
    if fields == [] then []
    else [(fields[0].0, Resolve(c, rank, fields[0].1))] + ResolveFields(c, rank, fields[1..], bound)
  }

  /** Resolution of a type that is not built in, shape by shape. */
  lemma ResolveCustom(c: Catalog, rank: Oid -> nat, oid: Oid)
    requires Acyclic(c, rank) && oid !in c.builtin
    ensures var row := RowOf(c, oid);
            var refs, info := References(c, oid), Resolve(c, rank, oid);
            match ShapeOf(row)
            case DomainShape =>
              && refs == [row.typbasetype] && rank(row.typbasetype) < rank(oid)
              && info == Custom(oid, row.typname, Domain(Resolve(c, rank, row.typbasetype)))
            case ArrayShape =>
              && refs == [row.typelem] && rank(row.typelem) < rank(oid)
              && info == Custom(oid, row.typname, Array(Resolve(c, rank, row.typelem)))
            case PseudoShape => refs == [] && info == Custom(oid, row.typname, Pseudo)
            case RangeShape =>
              && refs == [RangeElement(c, oid)] && rank(RangeElement(c, oid)) < rank(oid)
              && info == Custom(oid, row.typname, Range(Resolve(c, rank, RangeElement(c, oid))))
            case EnumShape => refs == [] && info == Custom(oid, row.typname, Enum(LabelsOf(c, oid)))
            case CompositeShape =>
              var fields := AttributesOf(c, row.typrelid);
              && |refs| == |fields| && (forall i :: 0 <= i < |fields| ==> refs[i] == fields[i].1)
              && (forall i :: 0 <= i < |fields| ==> rank(fields[i].1) < rank(oid))
              && info == Custom(oid, row.typname, Composite(ResolveFields(c, rank, fields, rank(oid))))
            case SimpleShape => refs == [] && info == Custom(oid, row.typname, Simple)
  {
    var refs := References(c, oid);
    assert forall i :: 0 <= i < |refs| ==> rank(refs[i]) < rank(oid);
    assert refs != [] ==> rank(refs[0]) < rank(oid);
  }

  /** What a type that is not built in resolves to, read off the catalog: its two letters decide the kind, a missing
      entry counts as an empty one, and a type the catalog does not know has no name and is simple. */
  lemma ResolveByLetters(c: Catalog, rank: Oid -> nat, oid: Oid)
    requires Acyclic(c, rank) && oid !in c.builtin
    ensures oid !in c.types ==> Resolve(c, rank, oid) == Custom(oid, "", Simple)
    ensures oid in c.types ==>
              var Row(name, t, g, relation, element, base) := c.types[oid];
              var info := Resolve(c, rank, oid);
              && info.Custom? && info.oid == oid && info.name == name
              && (t == 'd' ==> info.kind == Domain(Resolve(c, rank, base)))
              && (t == 'b' && g == 'A' ==> info.kind == Array(Resolve(c, rank, element)))
              && (t == 'p' && g == 'P' ==> info.kind == Pseudo)
              && (t == 'r' && g == 'R' && oid in c.ranges ==> info.kind == Range(Resolve(c, rank, c.ranges[oid])))
              && (t == 'r' && g == 'R' && oid !in c.ranges ==> info.kind == Range(Resolve(c, rank, 0)))
              && (t == 'e' && g == 'E' && oid in c.enums ==> info.kind == Enum(c.enums[oid]))
              && (t == 'e' && g == 'E' && oid !in c.enums ==> info.kind == Enum([]))
              && (t == 'c' && g == 'C' && relation !in c.attributes ==> info.kind == Composite([]))
              && (t == 'c' && g == 'C' && relation in c.attributes ==>
                    var fields := c.attributes[relation];
                    && info.kind.Composite? && |info.kind.fields| == |fields|
                    && forall i :: 0 <= i < |fields| ==>
                                     info.kind.fields[i] == (fields[i].0, Resolve(c, rank, fields[i].1)))
              && (t != 'd' && (t, g) !in {('b', 'A'), ('p', 'P'), ('r', 'R'), ('e', 'E'), ('c', 'C')} ==>
                    info.kind == Simple)
  {
    hide Acyclic, ResolveFields;
    ResolveCustom(c, rank, oid);
  }

  /** The name under which a resolved type is entered in the name cache. */
  function NameOf(c: Catalog, oid: Oid): string { RowOf(c, oid).typname }

  // ---------------------------------------------------------------- runs of the cache

  /** What can enter the caches: a type resolved by oid, or the answer of a by-name query. */
  datatype Event = Resolved(oid: Oid) | Looked(name: string)

  /** Nothing about this type has to be asked any more. */
  ghost predicate Known(c: Catalog, oid: Oid, events: seq<Event>) { oid in c.builtin || Resolved(oid) in events }

  ghost predicate ReferencesKnown(c: Catalog, oid: Oid, events: seq<Event>) {
    forall i :: 0 <= i < |References(c, oid)| ==> Known(c, References(c, oid)[i], events)
  }

  /** The name cache after these events. */
  ghost function OidsAfter(c: Catalog, events: seq<Event>): map<string, Oid> {
    if events == [] then map[]
    else
      var oids := OidsAfter(c, events[..|events| - 1]);
      match events[|events| - 1]
      case Resolved(oid) => oids[NameOf(c, oid) := oid]
      case Looked(name) => oids[name := Named(c, name)]
  }

  /** `e` can happen next: a type is resolved once, after the types it refers to, and a name is asked for only
      if it is not cached. */
  ghost predicate CanFollow(c: Catalog, events: seq<Event>, e: Event) {
    match e
    case Resolved(oid) => !Known(c, oid, events) && ReferencesKnown(c, oid, events)
    case Looked(name) => name !in OidsAfter(c, events)
  }

  ghost predicate Possible(c: Catalog, events: seq<Event>) {
    events != [] ==>
      var k := |events| - 1;
      Possible(c, events[..k]) && CanFollow(c, events[..k], events[k])
  }

  lemma OnlyReference(c: Catalog, oid: Oid, ref: Oid, events: seq<Event>)
    requires References(c, oid) == [ref]
    ensures ReferencesKnown(c, oid, events) <==> Known(c, ref, events)
  {
    assert References(c, oid)[0] == ref;
  }

  /** A run has gone on and resolved only types of smaller rank than `bound`. */
  ghost predicate Grown(rank: Oid -> nat, bound: nat, before: seq<Event>, after: seq<Event>) {
    before <= after && forall oid :: Resolved(oid) in after && Resolved(oid) !in before ==> rank(oid) < bound
  }

  lemma GrownTwice(rank: Oid -> nat, b: nat, b': nat, x: seq<Event>, y: seq<Event>, z: seq<Event>)
    requires Grown(rank, b, x, y) && Grown(rank, b', y, z) && b' <= b
    ensures Grown(rank, b, x, z)
  {
  }

  lemma GrownNone(rank: Oid -> nat, b: nat, x: seq<Event>)
    ensures Grown(rank, b, x, x)
  {
  }

  /** The first `n` types are known. */
  ghost predicate FieldsKnown(c: Catalog, fields: seq<(string, Oid)>, n: nat, events: seq<Event>) {
    n <= |fields| && forall i :: 0 <= i < n ==> Known(c, fields[i].1, events)
  }

  lemma FieldKnown(c: Catalog, fields: seq<(string, Oid)>, n: nat, before: seq<Event>, after: seq<Event>)
    requires n < |fields| && before <= after && FieldsKnown(c, fields, n, before) && Known(c, fields[n].1, after)
    ensures FieldsKnown(c, fields, n + 1, after)
  {
  }

  lemma KnownAt(c: Catalog, fields: seq<(string, Oid)>, i: nat, events: seq<Event>)
    requires i < |fields| && FieldsKnown(c, fields, |fields|, events)
    ensures Known(c, fields[i].1, events)
  {
  }

  lemma Grows(rank: Oid -> nat, b: nat, x: seq<Event>, y: seq<Event>)
    requires Grown(rank, b, x, y)
    ensures x <= y
  {
  }

  lemma NoFieldKnown(c: Catalog, fields: seq<(string, Oid)>, events: seq<Event>)
    ensures FieldsKnown(c, fields, 0, events)
  {
  }

  lemma Extend(c: Catalog, events: seq<Event>, e: Event)
    requires Possible(c, events) && CanFollow(c, events, e)
    ensures Possible(c, events + [e])
    ensures OidsAfter(c, events + [e])
         == OidsAfter(c, events)[if e.Resolved? then NameOf(c, e.oid) else e.name
                                 := if e.Resolved? then e.oid else Named(c, e.name)]
  {
    assert (events + [e])[..|events|] == events;
  }

  /** What a lookup by name answers after these events, if its query does not fail. */
  ghost function LookupAfter(c: Catalog, events: seq<Event>, name: string): Oid {
    if name in OidsAfter(c, events) then OidsAfter(c, events)[name] else Named(c, name)
  }

  // ---------------------------------------------------------------- resolution with the cache

  class TypeCache {
    const catalog: Catalog
    ghost const rank: Oid -> nat

    /** Whether the server answers every query; if not, any query may fail. */
    const reliable: bool

    var infos: map<Oid, TypeInfo>
    var oids: map<string, Oid>

    /** What has entered the caches so far. */
    ghost var events: seq<Event>

    /** Each cached entry is what resolving it afresh would give, and the names are those of a possible run. */
    ghost predicate Valid()
      reads this
    {
      && Acyclic(catalog, rank)
      && (forall oid :: oid in infos ==> oid !in catalog.builtin && infos[oid] == Resolve(catalog, rank, oid))
      && (forall oid :: oid in infos <==> Resolved(oid) in events)
      && Possible(catalog, events) && oids == OidsAfter(catalog, events)
    }

    constructor (catalog: Catalog, ghost rank: Oid -> nat, reliable: bool)
      requires Acyclic(catalog, rank)
      ensures Valid() && this.catalog == catalog && this.rank == rank && this.reliable == reliable && events == []
    {
      this.catalog, this.rank, this.reliable := catalog, rank, reliable;
      infos, oids, events := map[], map[], [];
    }

    /** `maybe_fetch_type_info_by_oid`: whatever is cached, the same answer as without a cache; `None` if a query
        failed, which may leave more entries cached but no wrong one. Without permission to query, an
        unknown type is only declared. */
    method MaybeFetchTypeInfoByOid(oid: Oid, shouldFetch: bool) returns (r: Option<TypeInfo>)
      requires Valid()
      modifies this
      ensures Valid() && Grown(rank, rank(oid) + 1, old(events), events) && (r.None? ==> !reliable)
      ensures r.Some? && shouldFetch ==> r.value == Resolve(catalog, rank, oid) && Known(catalog, oid, events)
      ensures !shouldFetch || Known(catalog, oid, old(events)) ==>
                infos == old(infos) && oids == old(oids) && events == old(events)
      ensures !shouldFetch ==> r == Some(if oid in catalog.builtin || oid in infos then Resolve(catalog, rank, oid)
                                         else DeclareWithOid(oid))
      ensures r.Some? && shouldFetch && !Known(catalog, oid, old(events)) ==>
                events != [] && events[|events| - 1] == Resolved(oid)
      ensures r.Some? && shouldFetch && CanFollow(catalog, old(events), Resolved(oid)) ==>
                events == old(events) + [Resolved(oid)]
      ensures r.Some? && shouldFetch && oid !in catalog.builtin ==> oid in infos && infos[oid] == r.value
      ensures r.Some? && shouldFetch && oid !in catalog.builtin && oid !in old(infos) ==>
                var name := if oid in catalog.types then catalog.types[oid].typname else "";
                name in oids && oids[name] == oid
      decreases rank(oid), 2, 0
    {
      hide Possible, OidsAfter, Resolve, References, Acyclic, RowOf;
      if oid in catalog.builtin {
        BuiltinResolves(catalog, rank, oid);
        return Some(catalog.builtin[oid]);
      }
      if oid in infos {
        return Some(infos[oid]);
      }
      if !shouldFetch {
        return Some(DeclareWithOid(oid));
      }
      r := FetchTypeByOid(oid);
      if r.Some? {
        ResolveByLetters(catalog, rank, oid);
        Extend(catalog, events, Resolved(oid));
        infos := infos[oid := r.value];
        oids := oids[r.value.name := oid];
        events := events + [Resolved(oid)];
      }
    }

    /** `fetch_type_by_oid` and the `fetch_*_by_oid` it dispatches to. */
    method FetchTypeByOid(oid: Oid) returns (r: Option<TypeInfo>)
      requires Valid() && Acyclic(catalog, rank) && oid !in catalog.builtin
      modifies this
      ensures Valid() && Grown(rank, rank(oid), old(events), events) && (r.None? ==> !reliable)
      ensures r.Some? ==> r.value == Resolve(catalog, rank, oid)
      ensures r.Some? ==> r.value.Custom? && r.value.name == NameOf(catalog, oid)
      ensures r.Some? ==> ReferencesKnown(catalog, oid, events)
      ensures ReferencesKnown(catalog, oid, old(events)) ==> events == old(events)
      decreases rank(oid), 1, 0
    {
      hide Valid, Acyclic, Resolve, ResolveFields, References, Known, Grown, RowOf, ShapeOf;
      GrownNone(rank, rank(oid), events);
      ResolveCustom(catalog, rank, oid);
      var fails: bool := *;
      if fails && !reliable {
        return None;
      }
      var row := RowOf(catalog, oid);
      match ShapeOf(row)
      case DomainShape =>
        OnlyReference(catalog, oid, row.typbasetype, events);
        var base := MaybeFetchTypeInfoByOid(row.typbasetype, true);
        OnlyReference(catalog, oid, row.typbasetype, events);
        GrownTwice(rank, rank(oid), rank(row.typbasetype) + 1, old(events), old(events), events);
        r := if base.None? then None else Some(Custom(oid, row.typname, Domain(base.value)));
      case ArrayShape =>
        OnlyReference(catalog, oid, row.typelem, events);
        var element := MaybeFetchTypeInfoByOid(row.typelem, true);
        OnlyReference(catalog, oid, row.typelem, events);
        GrownTwice(rank, rank(oid), rank(row.typelem) + 1, old(events), old(events), events);
        r := if element.None? then None else Some(Custom(oid, row.typname, Array(element.value)));
      case PseudoShape => r := Some(Custom(oid, row.typname, Pseudo));
      case RangeShape =>
        OnlyReference(catalog, oid, RangeElement(catalog, oid), events);
        var element := MaybeFetchTypeInfoByOid(RangeElement(catalog, oid), true);
        OnlyReference(catalog, oid, RangeElement(catalog, oid), events);
        GrownTwice(rank, rank(oid), rank(RangeElement(catalog, oid)) + 1, old(events), old(events), events);
        r := if element.None? then None else Some(Custom(oid, row.typname, Range(element.value)));
      case EnumShape => r := Some(Custom(oid, row.typname, Enum(LabelsOf(catalog, oid))));
      case CompositeShape =>
        var raw := AttributesOf(catalog, row.typrelid);
        ghost var refs := References(catalog, oid);
        assert forall i :: 0 <= i < |raw| ==> refs[i] == raw[i].1;
        var fields := FetchFields(raw, rank(oid));
        assert fields.Some? ==> ReferencesKnown(catalog, oid, events);
        assert ReferencesKnown(catalog, oid, old(events)) ==> FieldsKnown(catalog, raw, |raw|, old(events));
        r := if fields.None? then None else Some(Custom(oid, row.typname, Composite(fields.value)));
      case SimpleShape => r := Some(Custom(oid, row.typname, Simple));
    }

    /** The loop of `fetch_composite_by_oid`. */
    method FetchFields(raw: seq<(string, Oid)>, ghost bound: nat) returns (r: Option<seq<(string, TypeInfo)>>)
      requires Valid() && Acyclic(catalog, rank) && forall i :: 0 <= i < |raw| ==> rank(raw[i].1) < bound
      modifies this
      ensures Valid() && Grown(rank, bound, old(events), events) && (r.None? ==> !reliable)
      ensures r.Some? ==> r.value == ResolveFields(catalog, rank, raw, bound)
      ensures r.Some? ==> FieldsKnown(catalog, raw, |raw|, events)
      ensures FieldsKnown(catalog, raw, |raw|, old(events)) ==> events == old(events)
      decreases bound, 0, 0
    {
      hide Valid, Acyclic, Resolve, ResolveFields, Grown, FieldsKnown, Known;
      var fields: seq<(string, TypeInfo)>, i := [], 0;
      GrownNone(rank, bound, events);
      NoFieldKnown(catalog, raw, events);
      while i < |raw|
        invariant i <= |raw| == |ResolveFields(catalog, rank, raw, bound)|
        invariant Valid() && Grown(rank, bound, old(events), events)
        invariant fields == ResolveFields(catalog, rank, raw, bound)[..i]
        invariant FieldsKnown(catalog, raw, i, events)
        invariant FieldsKnown(catalog, raw, |raw|, old(events)) ==> events == old(events)
      {
        ghost var before := events;
        var info := MaybeFetchTypeInfoByOid(raw[i].1, true);
        GrownTwice(rank, bound, rank(raw[i].1) + 1, old(events), before, events);
        if FieldsKnown(catalog, raw, |raw|, old(events)) {
          KnownAt(catalog, raw, i, old(events));
        }
        if info.None? {
          return None;
        }
        Grows(rank, rank(raw[i].1) + 1, before, events);
        FieldKnown(catalog, raw, i, before, events);
        fields := fields + [(raw[i].0, info.value)];
        i := i + 1;
      }
      r := Some(fields);
    }

    /** `fetch_type_id_by_name`: the oid the catalog names, unless another type of that name has been resolved. */
    method FetchTypeIdByName(name: string) returns (r: Option<Oid>)
      requires Valid()
      modifies this`oids, this`events
      ensures Valid() && (r.None? ==> !reliable)
      ensures r.Some? ==> r.value == LookupAfter(catalog, old(events), name)
      ensures events == if r.Some? && name !in old(oids) then old(events) + [Looked(name)] else old(events)
      ensures name in old(oids) ==> r == Some(old(oids)[name]) && oids == old(oids)
      ensures name !in old(oids) && r.Some? ==>
                && r.value == (if name in catalog.byName then catalog.byName[name] else 0)
                && oids == old(oids)[name := r.value]
    {
      hide Possible, OidsAfter;
      if name in oids {
        return Some(oids[name]);
      }
      var fails: bool := *;
      if fails && !reliable {
        return None;
      }
      Extend(catalog, events, Looked(name));
      oids := oids[name := Named(catalog, name)];
      events := events + [Looked(name)];
      r := Some(Named(catalog, name));
    }
  }

  lemma BuiltinResolves(c: Catalog, rank: Oid -> nat, oid: Oid)
    requires Acyclic(c, rank) && oid in c.builtin
    ensures Resolve(c, rank, oid) == c.builtin[oid]
  {
  }

  /** The possible event sequences are exactly the runs of the code: each is produced, event by event, by calls
      to a server that answers every query. */
  method Realize(catalog: Catalog, ghost rank: Oid -> nat, events: seq<Event>) returns (cache: TypeCache)
    requires Acyclic(catalog, rank) && Possible(catalog, events)
    ensures fresh(cache) && cache.Valid() && cache.catalog == catalog && cache.reliable && cache.events == events
  {
    hide Possible, OidsAfter, CanFollow, Acyclic;
    cache := new TypeCache(catalog, rank, true);
    var i := 0;
    while i < |events|
      invariant i <= |events| && fresh(cache) && cache.Valid() && cache.catalog == catalog && cache.rank == rank
      invariant cache.reliable && cache.events == events[..i]
    {
      PossibleAt(catalog, events, i);
      match events[i] {
        case Resolved(oid) => var _ := cache.MaybeFetchTypeInfoByOid(oid, true);
        case Looked(name) =>
          NotCached(catalog, events[..i], name);
          var _ := cache.FetchTypeIdByName(name);
      }
      assert events[..i + 1] == events[..i] + [events[i]];
      i := i + 1;
    }
    assert events[..i] == events;
  }

  lemma NotCached(c: Catalog, events: seq<Event>, name: string)
    requires CanFollow(c, events, Looked(name))
    ensures name !in OidsAfter(c, events)
  {
  }

  lemma {:induction false} PossibleAt(c: Catalog, events: seq<Event>, i: nat)
    requires i < |events| && Possible(c, events)
    ensures CanFollow(c, events[..i], events[i])
    decreases |events|
  {
    var k := |events| - 1;
    if i < k {
      PossibleAt(c, events[..k], i);
      assert events[..k][..i] == events[..i];
    }
  }

  // ---------------------------------------------------------------- looking names up

  /** A name that belongs to no user-defined type but the one the catalog names. */
  ghost predicate Unambiguous(c: Catalog, name: string) {
    forall oid: Oid :: oid !in c.builtin && NameOf(c, oid) == name ==> oid == Named(c, name)
  }

  /** In every run, a cached name leads to the oid the catalog names or to a resolved type of that name. */
  lemma {:induction false} CachedNames(c: Catalog, events: seq<Event>, name: string)
    requires Possible(c, events) && name in OidsAfter(c, events)
    ensures var oid := OidsAfter(c, events)[name];
            oid == Named(c, name) || (oid !in c.builtin && NameOf(c, oid) == name)
  {
    var k := |events| - 1;
    if name in OidsAfter(c, events[..k]) {
      CachedNames(c, events[..k], name);
    }
  }

  /** Some run resolves this type last. */
  lemma {:induction false} Resolvable(c: Catalog, rank: Oid -> nat, oid: Oid, events: seq<Event>)
    returns (more: seq<Event>)
    requires Acyclic(c, rank) && Possible(c, events)
    ensures Possible(c, more) && events <= more && Known(c, oid, more)
    ensures forall o :: Resolved(o) in more && Resolved(o) !in events ==> rank(o) <= rank(oid)
    ensures !Known(c, oid, events) ==> more != [] && more[|more| - 1] == Resolved(oid)
    decreases rank(oid), 1
  {
    if Known(c, oid, events) {
      return events;
    }
    more := ResolvableAll(c, rank, References(c, oid), events, rank(oid));
    Extend(c, more, Resolved(oid));
    more := more + [Resolved(oid)];
  }

  lemma {:induction false} ResolvableAll(c: Catalog, rank: Oid -> nat, refs: seq<Oid>, events: seq<Event>, bound: nat)
    returns (more: seq<Event>)
    requires Acyclic(c, rank) && Possible(c, events) && forall i :: 0 <= i < |refs| ==> rank(refs[i]) < bound
    ensures Possible(c, more) && events <= more && forall i :: 0 <= i < |refs| ==> Known(c, refs[i], more)
    ensures forall o :: Resolved(o) in more && Resolved(o) !in events ==> rank(o) < bound
    decreases bound, 0
  {
    hide Possible, Acyclic;
    more := events;
    for i := 0 to |refs|
      invariant Possible(c, more) && events <= more && forall j :: 0 <= j < i ==> Known(c, refs[j], more)
      invariant forall o :: Resolved(o) in more && Resolved(o) !in events ==> rank(o) < bound
    {
      more := Resolvable(c, rank, refs[i], more);
    }
  }

  /** In all runs a lookup by name answers what it would without a cache if and only if the name is unambiguous. */
  lemma NameLookupIff(c: Catalog, rank: Oid -> nat, name: string)
    requires Acyclic(c, rank)
    ensures (forall events :: Possible(c, events) ==> LookupAfter(c, events, name) == Named(c, name))
       <==> Unambiguous(c, name)
  {
    hide Acyclic;
    if Unambiguous(c, name) {
      forall events | Possible(c, events)
        ensures LookupAfter(c, events, name) == Named(c, name)
      {
        if name in OidsAfter(c, events) {
          CachedNames(c, events, name);
        }
      }
    } else {
      var oid: Oid :| oid !in c.builtin && NameOf(c, oid) == name && oid != Named(c, name);
      var events := Resolvable(c, rank, oid, []);
      assert LookupAfter(c, events, name) == oid;
    }
  }

  /** The same in the code: for every ambiguous name there are two calls after which the answer has turned. */
  method NameLookupDiffers(catalog: Catalog, ghost rank: Oid -> nat, oid: Oid)
    returns (cache: TypeCache, r: Option<Oid>)
    requires Acyclic(catalog, rank) && oid !in catalog.builtin
    requires oid != Named(catalog, NameOf(catalog, oid))
    ensures cache.Valid() && cache.catalog == catalog && r == Some(oid)
  {
    cache := new TypeCache(catalog, rank, true);
    var _ := cache.MaybeFetchTypeInfoByOid(oid, true);
    r := cache.FetchTypeIdByName(NameOf(catalog, oid));
  }
}
