/**
 * The embed store of `SaveToIndexedDb`: an IndexedDB object store "embeds"
 * keyed in-line by `id` with a key generator, and a unique index on `url`.
 * The store is a map from key to record plus the key generator's current
 * number. Every operation is atomic: a failed request leaves the store as it
 * was (the caller keeps the old `Store` value), including the key generator,
 * which the Indexed Database API reverts together with a failed operation.
 */
module EmbedStore {
  import opened Wrappers

  /**
   * A stored record. `id` is the record's key (key path "id"); the optional
   * fields read as `undefined` when None.
   */
  datatype Embed = Embed(id: int, url: string, title: Option<string>, date: Option<string>,
                         description: Option<string>, imageUrl: Option<string>)

  /**
   * An own property of the object handed to `saveEmbed`: not there at all, or
   * there holding `undefined` (None) or a value. Spreading an object copies
   * its `Given` properties only, so the two kinds of absence differ.
   */
  datatype Slot<T> = Omitted | Given(value: Option<T>)

  /** The `Partial<Embed>` argument of `saveEmbed`. */
  datatype Draft = Draft(id: Slot<int>, url: string, title: Slot<string>, date: Slot<string>,
                         description: Slot<string>, imageUrl: Slot<string>)

  /** Reading a property: an omitted property reads as `undefined`. */
  function Read<T>(s: Slot<T>): Option<T> {
    match s
    case Omitted => None
    case Given(v) => v
  }

  /** The value of a property after `{...base, ...patch}`: the patch's when it has the property. */
  function Overlay<T>(base: Option<T>, s: Slot<T>): Option<T> {
    match s
    case Omitted => base
    case Given(v) => v
  }

  /** `if (embed.id)`: the id is a present, non-zero number. */
  predicate HasTruthyId(d: Draft) {
    d.id.Given? && d.id.value.Some? && d.id.value.value != 0
  }

  /** The key generator refuses to generate keys above 2^53. */
  const MaxGeneratedKey: int := 0x20_0000_0000_0000

  datatype Store = Store(records: map<int, Embed>, nextKey: int)

  /** A freshly created object store: no records, key generator at 1. */
  const Empty: Store := Store(map[], 1)

  datatype DbError =
    | ConstraintError  // a key or a unique index value is already taken, or the generator is exhausted
    | OpenError        // `indexedDB.open` failed

  /** A request's outcome: its result and the store after it, or an error and no change. */
  datatype Reply<T> = Done(value: T, after: Store) | Failed(error: DbError)

  /**
   * What the database maintains: every record sits under its own id, every
   * key is below the generator's current number unless the generator is
   * exhausted, and no two records share a url.
   */
  ghost predicate Valid(s: Store) {
    && s.nextKey >= 1
    && (forall k | k in s.records :: s.records[k].id == k)
    && (s.nextKey <= MaxGeneratedKey ==> forall k | k in s.records :: k < s.nextKey)
    && UrlsUnique(s.records)
  }

  ghost predicate UrlsUnique(m: map<int, Embed>) {
    forall k1, k2 | k1 in m && k2 in m && m[k1].url == m[k2].url :: k1 == k2
  }

  /** Some record other than the one under `key` already has `url`. */
  predicate UrlTaken(m: map<int, Embed>, url: string, key: int) {
    exists k | k in m :: k != key && m[k].url == url
  }

  /**
   * The key generator after a record is stored under an explicit numeric key:
   * it moves past the key (capped at 2^53) when the key reaches it.
   */
  function Bump(next: int, key: int): (r: int)
    ensures r >= next
    ensures key < r || r > MaxGeneratedKey
    ensures key < next ==> r == next
  {
    var v := if key < MaxGeneratedKey then key else MaxGeneratedKey;
    if v >= next then v + 1 else next
  }

  /** `store.put(rec)`: insert or replace under `rec.id`, unless another record holds its url. */
  function Put(s: Store, rec: Embed): (r: Reply<int>)
    ensures r.Failed? <==> UrlTaken(s.records, rec.url, rec.id)
    ensures r.Done? ==> r.value == rec.id && r.after == Store(s.records[rec.id := rec], Bump(s.nextKey, rec.id))
  {
    if UrlTaken(s.records, rec.url, rec.id) then Failed(ConstraintError)
    else Done(rec.id, Store(s.records[rec.id := rec], Bump(s.nextKey, rec.id)))
  }

  /** The record `saveEmbed` stores for a draft under `key`: its properties, as they are. */
  function Materialize(d: Draft, key: int): (e: Embed)
    ensures e.id == key && e.url == d.url
  {
    Embed(key, d.url, Read(d.title), Read(d.date), Read(d.description), Read(d.imageUrl))
  }

  /**
   * `{...existing, ...embed, id: existing.id, url: existing.url}`: the
   * draft's properties over the stored ones, with the stored id and url.
   */
  function Merge(e: Embed, d: Draft): (m: Embed)
    ensures m.id == e.id && m.url == e.url
  {
    Embed(e.id, e.url, Overlay(e.title, d.title), Overlay(e.date, d.date),
          Overlay(e.description, d.description), Overlay(e.imageUrl, d.imageUrl))
  }

  /**
   * The draft supplies no key: it has no `id` property, or one holding
   * undefined. Evaluating the key path on such a value fails (an undefined
   * property counts as missing), so the key generator supplies the key and
   * injects it.
   */
  predicate NoKey(d: Draft) {
    d.id.Omitted? || d.id == Given(None)
  }

  /**
   * `store.add({...embed})` for a draft without a truthy id: the generator
   * supplies the key when the draft supplies none; a numeric `id` (here 0,
   * the only falsy number) is used as given.
   */
  function Add(s: Store, d: Draft): (r: Reply<int>)
    requires !HasTruthyId(d)
    ensures r.Done? ==> r.value !in s.records && r.after.records == s.records[r.value := Materialize(d, r.value)]
    ensures r.Done? && NoKey(d) ==> r.value == s.nextKey && r.after.nextKey == s.nextKey + 1
    ensures NoKey(d) && s.nextKey <= MaxGeneratedKey && Valid(s) && !UrlTaken(s.records, d.url, s.nextKey) ==> r.Done?
    ensures NoKey(d) && s.nextKey > MaxGeneratedKey ==> r == Failed(ConstraintError)
    ensures !NoKey(d) ==> var k := d.id.value.value;
              && (r.Done? <==> k !in s.records && !UrlTaken(s.records, d.url, k))
              && (r.Done? ==> r.value == k && r.after.nextKey == Bump(s.nextKey, k))
  {
    if NoKey(d) then
      if s.nextKey > MaxGeneratedKey then Failed(ConstraintError)
      else
        var k := s.nextKey;
        if k in s.records || UrlTaken(s.records, d.url, k) then Failed(ConstraintError)
        else Done(k, Store(s.records[k := Materialize(d, k)], k + 1))
    else
      var k := d.id.value.value;
      if k in s.records || UrlTaken(s.records, d.url, k) then Failed(ConstraintError)
      else Done(k, Store(s.records[k := Materialize(d, k)], Bump(s.nextKey, k)))
  }

  /** An `id` property holding undefined is the same to `add` as no `id` property at all. */
  lemma AddUndefinedId(s: Store, d: Draft)
    requires d.id == Given(None)
    ensures Add(s, d) == Add(s, d.(id := Omitted))
  {
  }

  /**
   * The keys of `ks` in ascending order, the order in which IndexedDB walks
   * an object store.
   */
  function KeysAscending(ks: set<int>): (r: seq<int>)
    ensures |r| == |ks|
    ensures forall i | 0 <= i < |r| :: r[i] in ks
    ensures forall k | k in ks :: k in r
    ensures forall i, j | 0 <= i < j < |r| :: r[i] < r[j]
    decreases |ks|
  {
    if ks == {} then []
    else
      MinExists(ks);
      var m :| IsMin(m, ks);
      var rest := KeysAscending(ks - {m});
      PrependMin(m, ks, rest);
      [m] + rest
  }

  /** The least key followed by the others in ascending order is all the keys in ascending order. */
  lemma PrependMin(m: int, ks: set<int>, rest: seq<int>)
    requires IsMin(m, ks)
    requires |rest| == |ks - {m}|
    requires forall i | 0 <= i < |rest| :: rest[i] in ks - {m}
    requires forall k | k in ks - {m} :: k in rest
    requires forall i, j | 0 <= i < j < |rest| :: rest[i] < rest[j]
    ensures |[m] + rest| == |ks|
    ensures forall i | 0 <= i < |[m] + rest| :: ([m] + rest)[i] in ks
    ensures forall k | k in ks :: k in [m] + rest
    ensures forall i, j | 0 <= i < j < |[m] + rest| :: ([m] + rest)[i] < ([m] + rest)[j]
  {
    var r := [m] + rest;
    forall i, j | 0 <= i < j < |r|
      ensures r[i] < r[j]
    {
      assert r[j] == rest[j - 1] && r[j] in ks - {m};
      if i > 0 {
        assert r[i] == rest[i - 1];
      }
    }
    forall k | k in ks
      ensures k in r
    {
      if k != m {
        assert k in rest;
      }
    }
  }

  predicate IsMin(m: int, ks: set<int>) {
    m in ks && forall j | j in ks :: m <= j
  }

  lemma {:induction false} MinExists(ks: set<int>)
    requires ks != {}
    ensures exists m :: IsMin(m, ks)
    decreases |ks|
  {
    assert (forall x :: x !in ks) ==> ks == {};
    var x :| x in ks;
    var rest := ks - {x};
    if rest != {} {
      MinExists(rest);
      var m :| IsMin(m, rest);
      var w := if x < m then x else m;
      forall j | j in ks
        ensures w <= j
      {
        if j != x {
          assert j in rest;
        }
      }
      assert IsMin(w, ks);
    } else {
      forall j | j in ks
        ensures x <= j
      {
        assert j !in rest;
      }
      assert IsMin(x, ks);
    }
  }

  /**
   * `getAllEmbeds`: every record, in ascending key order; in a valid store
   * that is ascending id order.
   */
  function GetAll(s: Store): (r: seq<Embed>)
    ensures |r| == |s.records|
    ensures forall i | 0 <= i < |r| :: r[i] in s.records.Values
    ensures forall k | k in s.records :: s.records[k] in r
    ensures Valid(s) ==> forall i, j | 0 <= i < j < |r| :: r[i].id < r[j].id
    ensures Valid(s) ==> forall i | 0 <= i < |r| :: r[i].id in s.records && s.records[r[i].id] == r[i]
  {
    var ks := KeysAscending(s.records.Keys);
    var r := Lookup(s.records, ks);
    RecordsInKeyOrder(s, ks, r);
    r
  }

  /** The records under the keys `ks`, in the order of `ks`. */
  function Lookup(records: map<int, Embed>, ks: seq<int>): (r: seq<Embed>)
    requires forall i | 0 <= i < |ks| :: ks[i] in records
    ensures |r| == |ks| && forall i | 0 <= i < |ks| :: r[i] == records[ks[i]]
    decreases |ks|
  {
    if |ks| == 0 then []
    else [records[ks[0]]] + Lookup(records, ks[1..])
  }

  lemma RecordsInKeyOrder(s: Store, ks: seq<int>, r: seq<Embed>)
    requires ks == KeysAscending(s.records.Keys)
    requires |r| == |ks| && forall i | 0 <= i < |ks| :: r[i] == s.records[ks[i]]
    ensures |r| == |s.records|
    ensures forall i | 0 <= i < |r| :: r[i] in s.records.Values
    ensures forall k | k in s.records :: s.records[k] in r
    ensures Valid(s) ==> forall i, j | 0 <= i < j < |r| :: r[i].id < r[j].id
    ensures Valid(s) ==> forall i | 0 <= i < |r| :: r[i].id in s.records && s.records[r[i].id] == r[i]
  {
    assert |s.records.Keys| == |s.records|;
    forall k | k in s.records
      ensures s.records[k] in r
    {
      var i :| 0 <= i < |ks| && ks[i] == k;
      assert r[i] == s.records[k];
    }
  }

  /** `getEmbedById`: the record under `id`, or null. */
  function GetById(s: Store, id: int): (r: Option<Embed>)
    ensures r.Some? <==> id in s.records
    ensures r.Some? ==> r.value == s.records[id]
    ensures Valid(s) && r.Some? ==> r.value.id == id
  {
    if id in s.records then Some(s.records[id]) else None
  }

  /** The first item of `xs` whose url is `u`. */
  function FirstWithUrl(xs: seq<Embed>, u: string): (r: Option<Embed>)
    ensures r.Some? ==> r.value in xs && r.value.url == u
    ensures r.None? ==> forall i | 0 <= i < |xs| :: xs[i].url != u
    decreases |xs|
  {
    if |xs| == 0 then None
    else if xs[0].url == u then Some(xs[0])
    else FirstWithUrl(xs[1..], u)
  }

  /**
   * `getEmbedByUrl`: the record the url index holds for exactly `u` (the one
   * with the lowest key), or null when no record has that url.
   */
  function GetByUrl(s: Store, u: string): (r: Option<Embed>)
    ensures r.Some? ==> r.value in s.records.Values && r.value.url == u
    ensures r.None? <==> forall k | k in s.records :: s.records[k].url != u
    ensures Valid(s) && r.Some? ==> r.value.id in s.records && s.records[r.value.id] == r.value
  {
    var all := GetAll(s);
    var r := FirstWithUrl(all, u);
    assert r.None? ==> forall k | k in s.records :: s.records[k].url != u by {
      if r.None? {
        forall k | k in s.records
          ensures s.records[k].url != u
        {
          var i :| 0 <= i < |all| && all[i] == s.records[k];
        }
      }
    }
    r
  }

  /**
   * `saveEmbed`: with a truthy id, `put` the draft as it is; otherwise look
   * the url up and merge into the stored record under its id and url, or
   * `add` a new record. Returns the id the record is stored under.
   */
  function Save(s: Store, d: Draft): (r: Reply<int>)
    ensures r.Done? ==> r.value in r.after.records && r.after.records[r.value].url == d.url
  {
    if HasTruthyId(d) then
      Put(s, Materialize(d, d.id.value.value))
    else
      match GetByUrl(s, d.url)
      case Some(e) => Put(s, Merge(e, d))
      case None => Add(s, d)
  }

  /** `deleteEmbed`: the record under `id` removed; nothing else changes, and a missing id is no error. */
  function Delete(s: Store, id: int): (r: Store)
    ensures r.records.Keys == s.records.Keys - {id}
    ensures forall k | k in r.records :: r.records[k] == s.records[k]
    ensures id !in s.records ==> r == s
    ensures r.nextKey == s.nextKey
  {
    Store(s.records - {id}, s.nextKey)
  }

  /** `clearAllEmbeds`: no records left. Clearing does not reset the key generator. */
  function Clear(s: Store): (r: Store)
    ensures GetAll(r) == []
    ensures r.nextKey == s.nextKey
  {
    Store(map[], s.nextKey)
  }

  // ---------------------------------------------------------------------
  // Properties of the operations.

  lemma EmptyValid()
    ensures Valid(Empty)
  {
  }

  lemma PutPreservesValid(s: Store, rec: Embed)
    requires Valid(s)
    requires Put(s, rec).Done?
    ensures Valid(Put(s, rec).after)
  {
    var t := Put(s, rec).after;
    assert forall k | k in t.records && k != rec.id :: t.records[k] == s.records[k];
  }

  lemma AddPreservesValid(s: Store, d: Draft)
    requires Valid(s)
    requires !HasTruthyId(d)
    requires Add(s, d).Done?
    ensures Valid(Add(s, d).after)
  {
    var r := Add(s, d);
    var k := r.value;
    var t := r.after;
    assert !UrlTaken(s.records, d.url, k);
    assert t.nextKey == Bump(s.nextKey, k) || t.nextKey == k + 1;
    assert forall j | j in t.records && j != k :: t.records[j] == s.records[j];
    assert t.records[k] == Materialize(d, k);
  }

  /** Every save keeps the store valid: in particular no two records ever share a url. */
  lemma SavePreservesValid(s: Store, d: Draft)
    requires Valid(s)
    ensures Save(s, d).Done? ==> Valid(Save(s, d).after)
  {
    if HasTruthyId(d) {
      var rec := Materialize(d, d.id.value.value);
      if Put(s, rec).Done? {
        PutPreservesValid(s, rec);
      }
    } else {
      match GetByUrl(s, d.url)
      case Some(e) =>
        if Put(s, Merge(e, d)).Done? {
          PutPreservesValid(s, Merge(e, d));
        }
      case None =>
        if Add(s, d).Done? {
          AddPreservesValid(s, d);
        }
    }
  }

  /** A save touches only the record under the id it returns, and never moves the key generator back. */
  lemma SaveLeavesOthers(s: Store, d: Draft)
    requires Save(s, d).Done?
    ensures var r := Save(s, d);
            && r.after.records.Keys == s.records.Keys + {r.value}
            && (forall k | k in s.records && k != r.value :: r.after.records[k] == s.records[k])
            && r.after.nextKey >= s.nextKey
  {
    if HasTruthyId(d) {
      PutLeavesOthers(s, Materialize(d, d.id.value.value));
    } else {
      match GetByUrl(s, d.url)
      case Some(e) => PutLeavesOthers(s, Merge(e, d));
      case None => AddLeavesOthers(s, d);
    }
  }

  lemma PutLeavesOthers(s: Store, rec: Embed)
    requires Put(s, rec).Done?
    ensures var r := Put(s, rec);
            && r.after.records.Keys == s.records.Keys + {r.value}
            && (forall k | k in s.records && k != r.value :: r.after.records[k] == s.records[k])
            && r.after.nextKey >= s.nextKey
  {
  }

  lemma AddLeavesOthers(s: Store, d: Draft)
    requires !HasTruthyId(d)
    requires Add(s, d).Done?
    ensures var r := Add(s, d);
            && r.after.records.Keys == s.records.Keys + {r.value}
            && (forall k | k in s.records && k != r.value :: r.after.records[k] == s.records[k])
            && r.after.nextKey >= s.nextKey
  {
  }

  /** The store after a sequence of saves, skipping the ones that fail. */
  function SaveAll(s: Store, ds: seq<Draft>): Store
    decreases |ds|
  {
    if |ds| == 0 then s
    else
      match Save(s, ds[0])
      case Done(_, t) => SaveAll(t, ds[1..])
      case Failed(_) => SaveAll(s, ds[1..])
  }

  /** After any sequence of saves from a valid store (the empty one, say), no two records share a url. */
  lemma {:induction false} SaveAllPreservesValid(s: Store, ds: seq<Draft>)
    requires Valid(s)
    ensures Valid(SaveAll(s, ds))
    ensures UrlsUnique(SaveAll(s, ds).records)
    decreases |ds|
  {
    if |ds| > 0 {
      SavePreservesValid(s, ds[0]);
      match Save(s, ds[0])
      case Done(_, t) => SaveAllPreservesValid(t, ds[1..]);
      case Failed(_) => SaveAllPreservesValid(s, ds[1..]);
    }
  }

  /**
   * Saving without a truthy id for a url already stored merges: the record
   * keeps its id and url, properties the draft omits keep their stored
   * values, properties it has (even holding undefined) replace them, and the
   * stored id is returned. No other record changes.
   */
  lemma SaveMergesExisting(s: Store, d: Draft, k: int)
    requires Valid(s)
    requires !HasTruthyId(d)
    requires k in s.records && s.records[k].url == d.url
    ensures Save(s, d).Done?
    ensures Save(s, d).value == k
    ensures var t := Save(s, d).after;
            && t.records == s.records[k := Merge(s.records[k], d)]
            && t.nextKey == s.nextKey
            && |t.records| == |s.records|
  {
    var e := s.records[k];
    var g := GetByUrl(s, d.url);
    assert g == Some(e);
    assert !UrlTaken(s.records, e.url, e.id);
  }

  /** The merged record, field by field. */
  lemma MergeFields(e: Embed, d: Draft)
    ensures Merge(e, d).id == e.id && Merge(e, d).url == e.url
    ensures d.title.Omitted? ==> Merge(e, d).title == e.title
    ensures d.title.Given? ==> Merge(e, d).title == d.title.value
    ensures d.date.Omitted? ==> Merge(e, d).date == e.date
    ensures d.date.Given? ==> Merge(e, d).date == d.date.value
    ensures d.description.Omitted? ==> Merge(e, d).description == e.description
    ensures d.description.Given? ==> Merge(e, d).description == d.description.value
    ensures d.imageUrl.Omitted? ==> Merge(e, d).imageUrl == e.imageUrl
    ensures d.imageUrl.Given? ==> Merge(e, d).imageUrl == d.imageUrl.value
  {
  }

  /**
   * Saving without an id for a url not stored adds the draft under a fresh
   * key that no record uses, and returns that key; the store grows by one.
   */
  lemma SaveAddsNew(s: Store, d: Draft)
    requires Valid(s)
    requires NoKey(d)
    requires forall k | k in s.records :: s.records[k].url != d.url
    requires s.nextKey <= MaxGeneratedKey
    ensures Save(s, d).Done?
    ensures var k := Save(s, d).value;
            && k == s.nextKey && k !in s.records
            && Save(s, d).after.records == s.records[k := Materialize(d, k)]
            && |Save(s, d).after.records| == |s.records| + 1
            && Save(s, d).after.nextKey == k + 1
  {
    assert GetByUrl(s, d.url).None?;
  }

  /**
   * Saving with a truthy id replaces the record under that key wholesale,
   * without merging, and returns the id; when another record already has the
   * url, the save fails.
   */
  lemma SaveById(s: Store, d: Draft)
    requires HasTruthyId(d)
    ensures var n := d.id.value.value;
            && (Save(s, d).Failed? <==> exists k | k in s.records :: k != n && s.records[k].url == d.url)
            && (Save(s, d).Done? ==>
                  Save(s, d).value == n && Save(s, d).after.records == s.records[n := Materialize(d, n)])
  {
  }

  /**
   * Saving the same url twice without ids leaves one record for it, under an
   * unchanged id, holding the second draft's properties over the first's.
   */
  lemma SaveTwice(s: Store, d1: Draft, d2: Draft)
    requires Valid(s)
    requires NoKey(d1) && NoKey(d2) && d1.url == d2.url
    requires s.nextKey <= MaxGeneratedKey
    ensures Save(s, d1).Done?
    ensures var r1 := Save(s, d1);
            var r2 := Save(r1.after, d2);
            && r2.Done?
            && r2.value == r1.value
            && r2.after.records == r1.after.records[r1.value := Merge(r1.after.records[r1.value], d2)]
            && Valid(r2.after)
  {
    var g := GetByUrl(s, d1.url);
    if g.Some? {
      SaveMergesExisting(s, d1, g.value.id);
    } else {
      SaveAddsNew(s, d1);
    }
    var r1 := Save(s, d1);
    SavePreservesValid(s, d1);
    SaveMergesExisting(r1.after, d2, r1.value);
    SavePreservesValid(r1.after, d2);
  }

  /** Saving two different urls into a store that has neither gives two records with different ids. */
  lemma SaveDistinctUrls(s: Store, d1: Draft, d2: Draft)
    requires Valid(s)
    requires NoKey(d1) && NoKey(d2) && d1.url != d2.url
    requires forall k | k in s.records :: s.records[k].url != d1.url && s.records[k].url != d2.url
    requires s.nextKey < MaxGeneratedKey
    ensures Save(s, d1).Done?
    ensures var s1 := Save(s, d1).after;
            && Save(s1, d2).Done?
            && Save(s, d1).value != Save(s1, d2).value
            && Save(s, d1).value in Save(s1, d2).after.records
            && Save(s1, d2).value in Save(s1, d2).after.records
            && |Save(s1, d2).after.records| == |s.records| + 2
  {
    SaveAddsNew(s, d1);
    SavePreservesValid(s, d1);
    var s1 := Save(s, d1).after;
    SaveAddsNew(s1, d2);
  }

  /** After a successful save, looking its url up finds a record with exactly that url, under the returned id. */
  lemma SaveThenGetByUrl(s: Store, d: Draft)
    requires Valid(s)
    requires !HasTruthyId(d)
    requires Save(s, d).Done?
    ensures GetByUrl(Save(s, d).after, d.url).Some?
    ensures GetByUrl(Save(s, d).after, d.url).value.url == d.url
    ensures GetByUrl(Save(s, d).after, d.url).value.id == Save(s, d).value
  {
    SavePreservesValid(s, d);
    var t := Save(s, d).after;
    var id := Save(s, d).value;
    if GetByUrl(s, d.url).Some? {
      SaveMergesExisting(s, d, GetByUrl(s, d.url).value.id);
    }
    assert t.records[id].url == d.url;
    var g := GetByUrl(t, d.url);
    assert g.Some?;
  }

  /** Deleting keeps the store valid. */
  lemma DeletePreservesValid(s: Store, id: int)
    requires Valid(s)
    ensures Valid(Delete(s, id))
  {
  }

  /** Clearing empties the store; a following getAll returns []. */
  lemma ClearThenGetAll(s: Store)
    requires Valid(s)
    ensures Valid(Clear(s))
    ensures GetAll(Clear(s)) == []
    ensures forall id :: GetById(Clear(s), id).None?
  {
  }

  /**
   * Keys are never reused: after a clear or a delete, the next generated key
   * is still above every key handed out before.
   */
  lemma KeysNeverReused(s: Store, d: Draft, id: int)
    requires Valid(s)
    requires NoKey(d)
    requires Save(Delete(s, id), d).Done?
    requires GetByUrl(Delete(s, id), d.url).None?
    ensures Save(Delete(s, id), d).value == s.nextKey
    ensures forall k | k in s.records :: k < Save(Delete(s, id), d).value
  {
  }

  // ---------------------------------------------------------------------
  // `init`: the connection is opened once and reused.

  /** The service object: whether `this.db` is set, and the persisted store. */
  datatype Service = Service(connected: bool, data: Store)

  /**
   * `init()`: a connected service is returned as it is; otherwise the open
   * either succeeds (creating the object store if the database is new) or
   * fails, leaving the service disconnected so that the next call retries.
   */
  function Init(svc: Service, openSucceeds: bool): (r: Result)
    ensures svc.connected ==> r == Opened(svc)
    ensures r.Opened? ==> r.svc.connected && r.svc.data == svc.data
    ensures !svc.connected && !openSucceeds ==> r == InitFailed(OpenError)
    ensures !svc.connected && openSucceeds ==> r == Opened(Service(true, svc.data))
  {
    if svc.connected then Opened(svc)
    else if openSucceeds then Opened(Service(true, svc.data))
    else InitFailed(OpenError)
  }

  datatype Result = Opened(svc: Service) | InitFailed(error: DbError)

  /** `init` is idempotent: once it has succeeded, calling it again changes nothing, whatever the open would do. */
  lemma InitIdempotent(svc: Service, first: bool, second: bool)
    requires Init(svc, first).Opened?
    ensures Init(Init(svc, first).svc, second) == Init(svc, first)
  {
  }
}
