/** The results mapping: for every rule, a bucket from element uuid to the
    rule's recorded result. Lookup by rule or rule id, the three filters, the
    guarded default insertion and the write-once store. */
module ResultsStore {
  import opened Primitives

  type Bucket = map<Uuid, Result>

  /** A results mapping. `keys` lists the rules in insertion order (the
      order in which iterating the dictionary yields them); `buckets` holds
      each rule's bucket. */
  datatype Results = Results(keys: seq<Rule>, buckets: map<Rule, Bucket>) {

    /** The keys are distinct and are exactly the rules that have a bucket. */
    predicate Valid() {
      && Distinct(keys)
      && (forall r :: r in buckets ==> r in keys)
      && (forall r :: r in keys ==> r in buckets)
    }

    /** The entry recorded for `rule` and `uuid`, if any. */
    function Get(rule: Rule, uuid: Uuid): Option<Result> {
      if rule in buckets && uuid in buckets[rule] then Some(buckets[rule][uuid]) else None
    }
  }

  const Empty: Results := Results([], map[])

  /** Two results mappings with the same keys, the same rule buckets and the
      same entries are equal. */
  lemma Extensionality(x: Results, y: Results)
    requires x.keys == y.keys && x.buckets.Keys == y.buckets.Keys
    requires forall r, u :: x.Get(r, u) == y.Get(r, u)
    ensures x == y
  {
    forall r | r in x.buckets
      ensures x.buckets[r] == y.buckets[r]
    {
      forall u | u in x.buckets[r] ensures u in y.buckets[r] && x.buckets[r][u] == y.buckets[r][u] {
        assert x.Get(r, u) == y.Get(r, u);
      }
      forall u | u in y.buckets[r] ensures u in x.buckets[r] {
        assert x.Get(r, u) == y.Get(r, u);
      }
    }
  }

  // ---------------------------------------------------------------------
  // Filters
  // ---------------------------------------------------------------------

  /** What one filter keeps of an entry. */
  datatype Criterion = HasUuid(uuid: Uuid) | HasCategory(category: Category) | HasValue(value: bool)

  predicate Keeps(c: Criterion, uid: Uuid, r: Result) {
    match c
    case HasUuid(u) => uid == u
    case HasCategory(cat) => r.category == cat
    case HasValue(v) => r.value == v
  }

  /** The entry `e` recorded under `uid` if criterion `c` keeps it. */
  function Kept(c: Criterion, uid: Uuid, e: Option<Result>): Option<Result> {
    if e.Some? && Keeps(c, uid, e.value) then e else None
  }

  function FilterBucket(b: Bucket, c: Criterion): (out: Bucket)
    ensures forall u :: u in out <==> u in b && Keeps(c, u, b[u])
    ensures forall u :: u in out ==> out[u] == b[u]
  {
    map u | u in b && Keeps(c, u, b[u]) :: b[u]
  }

  /** A new results mapping with every rule key of `res`, in the same order,
      each bucket cut down to the entries that `c` keeps. Buckets that
      become empty stay. */
  function Filter(res: Results, c: Criterion): (out: Results)
    ensures out.keys == res.keys && out.buckets.Keys == res.buckets.Keys
    ensures forall r, u :: out.Get(r, u) == Kept(c, u, res.Get(r, u))
    ensures res.Valid() ==> out.Valid()
  {
    Results(res.keys, map r | r in res.buckets :: FilterBucket(res.buckets[r], c))
  }

  /** `by_uuid`: only the entries recorded for element `uuid`. */
  function ByUuid(res: Results, uuid: Uuid): (out: Results)
    ensures out.keys == res.keys && out.buckets.Keys == res.buckets.Keys
    ensures forall r, u :: out.Get(r, u) == if u == uuid then res.Get(r, u) else None
    ensures res.Valid() ==> out.Valid()
  {
    Filter(res, HasUuid(uuid))
  }

  /** `by_category`: only the entries whose recorded category is `category`. */
  function ByCategory(res: Results, category: Category): (out: Results)
    ensures out.keys == res.keys && out.buckets.Keys == res.buckets.Keys
    ensures forall r, u :: out.Get(r, u) == (
              if res.Get(r, u).Some? && res.Get(r, u).value.category == category then res.Get(r, u) else None)
    ensures res.Valid() ==> out.Valid()
  {
    Filter(res, HasCategory(category))
  }

  /** `by_value`: only the entries whose recorded outcome is `value`. */
  function ByValue(res: Results, value: bool): (out: Results)
    ensures out.keys == res.keys && out.buckets.Keys == res.buckets.Keys
    ensures forall r, u :: out.Get(r, u) == (
              if res.Get(r, u).Some? && res.Get(r, u).value.value == value then res.Get(r, u) else None)
    ensures res.Valid() ==> out.Valid()
  {
    Filter(res, HasValue(value))
  }

  /** Chaining two filters keeps exactly the entries both keep, and the
      order of the two does not matter. */
  lemma FilterChain(res: Results, a: Criterion, b: Criterion)
    ensures forall r, u :: Filter(Filter(res, a), b).Get(r, u) == (
              if res.Get(r, u).Some? && Keeps(a, u, res.Get(r, u).value) && Keeps(b, u, res.Get(r, u).value)
              then res.Get(r, u) else None)
    ensures Filter(Filter(res, a), b) == Filter(Filter(res, b), a)
  {
    var ab, ba := Filter(Filter(res, a), b), Filter(Filter(res, b), a);
    forall r, u ensures ab.Get(r, u) == ba.Get(r, u) {
      assert ab.Get(r, u) == Kept(b, u, Kept(a, u, res.Get(r, u)));
      assert ba.Get(r, u) == Kept(a, u, Kept(b, u, res.Get(r, u)));
    }
    Extensionality(ab, ba);
  }

  /** Applying the same filter twice is applying it once. */
  lemma FilterIdempotent(res: Results, c: Criterion)
    ensures Filter(Filter(res, c), c) == Filter(res, c)
  {
    var once, twice := Filter(res, c), Filter(Filter(res, c), c);
    forall r, u ensures twice.Get(r, u) == once.Get(r, u) {
      assert twice.Get(r, u) == Kept(c, u, once.Get(r, u));
    }
    Extensionality(twice, once);
  }

  /** After `by_uuid`, each bucket holds at most one entry: the one for `uuid`. */
  lemma ByUuidAtMostOne(res: Results, uuid: Uuid, r: Rule)
    requires r in res.buckets
    ensures r in ByUuid(res, uuid).buckets
    ensures ByUuid(res, uuid).buckets[r].Keys <= {uuid}
    ensures |ByUuid(res, uuid).buckets[r]| <= 1
  {
    var b := ByUuid(res, uuid).buckets[r];
    forall u | u in b ensures u == uuid {
      assert ByUuid(res, uuid).Get(r, u).Some?;
    }
    assert b.Keys <= {uuid};
    if uuid in b {
      assert b.Keys == {uuid};
    } else {
      assert b.Keys == {};
    }
    assert |b| == |b.Keys|;
  }

  /** `by_value(true)` and `by_value(false)` split every bucket into two
      disjoint parts that together make up the whole bucket. */
  lemma ByValuePartition(res: Results, r: Rule)
    requires r in res.buckets
    ensures r in ByValue(res, true).buckets && r in ByValue(res, false).buckets
    ensures ByValue(res, true).buckets[r].Keys !! ByValue(res, false).buckets[r].Keys
    ensures ByValue(res, true).buckets[r].Keys + ByValue(res, false).buckets[r].Keys
         == res.buckets[r].Keys
  {
    var t, f, b := ByValue(res, true).buckets[r], ByValue(res, false).buckets[r], res.buckets[r];
    forall u | u in b ensures u in t || u in f {
      assert res.Get(r, u).Some?;
      if b[u].value {
        assert ByValue(res, true).Get(r, u).Some?;
      } else {
        assert ByValue(res, false).Get(r, u).Some?;
      }
    }
    forall u | u in t ensures u in b && u !in f {
      assert ByValue(res, true).Get(r, u).Some?;
      assert ByValue(res, false).Get(r, u).None?;
    }
    forall u | u in f ensures u in b {
      assert ByValue(res, false).Get(r, u).Some?;
    }
  }

  // ---------------------------------------------------------------------
  // Lookup
  // ---------------------------------------------------------------------

  /** The index of the first rule in `keys` whose id is `id`, if any. */
  function FirstWithId(keys: seq<Rule>, id: string): (i: Option<nat>)
    ensures i.Some? ==> i.value < |keys| && keys[i.value].id == id
    ensures i.Some? ==> forall j :: 0 <= j < i.value ==> keys[j].id != id
    ensures i.None? <==> forall j :: 0 <= j < |keys| ==> keys[j].id != id
  {
    if keys == [] then None
    else if keys[0].id == id then Some(0)
    else match FirstWithId(keys[1..], id)
      case None => None
      case Some(k) => Some(k + 1)
  }

  /** Indexing the results mapping: a rule indexes it directly; an id
      resolves to the first rule key, in iteration order, with that id.
      Either fails with a KeyError when there is nothing to return. */
  function Lookup(res: Results, key: RuleRef): (out: Fallible<Bucket>)
    requires res.Valid()
    ensures out.Err? ==> out.error == KeyError(key)
    ensures key.ByRule? ==> (out.Ok? <==> key.rule in res.buckets)
    ensures key.ByRule? && out.Ok? ==> out.value == res.buckets[key.rule]
    ensures key.ById? ==> (out.Ok? <==> exists r :: r in res.buckets && r.id == key.id)
    ensures key.ById? && out.Ok? ==>
      exists i :: 0 <= i < |res.keys| && res.keys[i].id == key.id
        && (forall j :: 0 <= j < i ==> res.keys[j].id != key.id)
        && out.value == res.buckets[res.keys[i]]
  {
    match key
    case ByRule(rule) =>
      if rule in res.buckets then Ok(res.buckets[rule]) else Err(KeyError(key))
    case ById(id) =>
      match FirstWithId(res.keys, id)
      case None =>
        assert forall r :: r in res.buckets ==> r.id != id by {
          forall r | r in res.buckets ensures r.id != id {
            var i :| 0 <= i < |res.keys| && res.keys[i] == r;
          }
        }
        Err(KeyError(key))
      case Some(i) =>
        Ok(res.buckets[res.keys[i]])
  }

  /** `Results.__getitem__`: a linear scan over the keys for an id, then a
      direct lookup. */
  method GetItem(res: Results, key: RuleRef) returns (out: Fallible<Bucket>)
    requires res.Valid()
    ensures out == Lookup(res, key)
  {
    var rule: Rule;
    match key {
      case ByRule(r) =>
        rule := r;
      case ById(id) =>
        var i := 0;
        while i < |res.keys|
          invariant 0 <= i <= |res.keys|
          invariant forall j :: 0 <= j < i ==> res.keys[j].id != id
        {
          if res.keys[i].id == id {
            break;
          }
          i := i + 1;
        }
        if i == |res.keys| {
          return Err(KeyError(key));
        }
        rule := res.keys[i];
        assert FirstWithId(res.keys, id) == Some(i);
    }
    if rule in res.buckets {
      out := Ok(res.buckets[rule]);
    } else {
      out := Err(KeyError(key));
    }
  }

  /** Filtering keeps the key order, so an id resolves to the same rule
      before and after a filter: the filtered view's bucket for an id is the
      filtered bucket of the rule the id resolves to. */
  lemma LookupAfterFilter(res: Results, c: Criterion, id: string)
    requires res.Valid()
    ensures Lookup(Filter(res, c), ById(id)).Ok? == Lookup(res, ById(id)).Ok?
    ensures Lookup(res, ById(id)).Ok? ==>
      Lookup(Filter(res, c), ById(id)).value == FilterBucket(Lookup(res, ById(id)).value, c)
  {
  }

  /** When two rule keys share an id, looking the id up yields the bucket of
      the one inserted first. */
  lemma SharedIdResolvesToFirst(res: Results, i: nat, j: nat)
    requires res.Valid()
    requires i < j < |res.keys| && res.keys[i].id == res.keys[j].id
    requires forall k :: 0 <= k < i ==> res.keys[k].id != res.keys[i].id
    ensures Lookup(res, ById(res.keys[i].id)) == Ok(res.buckets[res.keys[i]])
    ensures res.keys[j] in res.buckets && res.keys[j] != res.keys[i]
  {
    assert FirstWithId(res.keys, res.keys[i].id) == Some(i);
  }

  // ---------------------------------------------------------------------
  // Writes
  // ---------------------------------------------------------------------

  /** The new mapping and the returned bucket (or error) of a `setdefault`. */
  datatype Inserted = Inserted(store: Results, bucket: Fallible<Bucket>)

  /** `Results.setdefault`: a default that is not a result dictionary
      (`None` here, which stands for any non-dictionary value) is refused
      with a ValueError and nothing changes; otherwise an existing bucket is
      returned as it is, or the default is appended as the key's new bucket
      and returned. */
  function SetDefault(res: Results, key: Rule, default: Option<Bucket>): (out: Inserted)
    ensures out.bucket.Err? <==> default.None?
    ensures out.bucket.Err? ==> out.bucket.error == ValueError && out.store == res
    ensures out.bucket.Ok? ==> key in out.store.buckets && out.bucket.value == out.store.buckets[key]
    ensures out.bucket.Ok? && key in res.buckets ==> out.store == res
    ensures out.bucket.Ok? && key !in res.buckets ==>
      && out.store.keys == res.keys + [key]
      && out.store.buckets == res.buckets[key := default.value]
      && out.bucket.value == default.value
    ensures res.Valid() ==> out.store.Valid()
  {
    match default
    case None => Inserted(res, Err(ValueError))
    case Some(d) =>
      if key in res.buckets then Inserted(res, Ok(res.buckets[key]))
      else Inserted(Results(res.keys + [key], res.buckets[key := d]), Ok(d))
  }

  /** A second `setdefault` of the same key returns the bucket the first one
      left in place, whatever its own default, and changes nothing. */
  lemma SetDefaultFirstWins(res: Results, key: Rule, d1: Bucket, d2: Option<Bucket>)
    requires d2.Some?
    ensures var first := SetDefault(res, key, Some(d1));
      var second := SetDefault(first.store, key, d2);
      second.store == first.store && second.bucket == first.bucket
  {
  }

  /** `store_result`: record `result` for `rule` and `uuid` unless an entry
      is already there. The existing entry wins; every other entry is left
      alone; the rule is appended to the keys when it is new. */
  function Store(res: Results, rule: Rule, uuid: Uuid, result: Result): (out: Results)
    ensures out.keys == if rule in res.buckets then res.keys else res.keys + [rule]
    ensures out.buckets.Keys == res.buckets.Keys + {rule}
    ensures forall r, u :: out.Get(r, u) == (
              if r == rule && u == uuid && res.Get(r, u).None? then Some(result) else res.Get(r, u))
    ensures res.Valid() ==> out.Valid()
  {
    if rule !in res.buckets then Results(res.keys + [rule], res.buckets[rule := map[uuid := result]])
    else if uuid in res.buckets[rule] then res
    else Results(res.keys, res.buckets[rule := res.buckets[rule][uuid := result]])
  }

  /** Write-once: storing a second result for the same rule and uuid leaves
      the mapping exactly as the first store left it. */
  lemma StoreWriteOnce(res: Results, rule: Rule, uuid: Uuid, first: Result, second: Result)
    ensures Store(Store(res, rule, uuid, first), rule, uuid, second) == Store(res, rule, uuid, first)
    ensures Store(res, rule, uuid, first).Get(rule, uuid) ==
      if res.Get(rule, uuid).Some? then res.Get(rule, uuid) else Some(first)
  {
    var once := Store(res, rule, uuid, first);
    var twice := Store(once, rule, uuid, second);
    assert once.Get(rule, uuid).Some?;
    forall r, u ensures twice.Get(r, u) == once.Get(r, u) {
    }
    Extensionality(twice, once);
  }
}
