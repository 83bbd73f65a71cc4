/**
 * The pairing engine's result, as values: the versions the two passes over the
 * per-side maps emit, and the era buckets they are filed into.
 */
module Merge {
  import opened Wrappers
  import opened OrderedMaps
  import opened Classify
  import opened Extract

  /** One catalog entry: a version id and its client and/or server download. */
  datatype Version = Version(id: string, vtype: VersionType, client: Option<Download>, server: Option<Download>)

  /** The bucket of one era. */
  datatype TypeContainer = TypeContainer(vtype: VersionType, versions: seq<Version>)

  /** The catalog: one bucket per era. */
  type Catalog = map<VersionType, TypeContainer>

  /** Every entry of a side's map is filed under its own id and belongs to that side. */
  ghost predicate KeyedBy(m: OrderedMap<Download>, side: Side) {
    forall k :: k in m.entries ==> m.entries[k].id == k && m.entries[k].side == side
  }

  // ---------------------------------------------------------------------
  // The two passes

  /** What the first pass emits for a client id: paired when the server map has
      the id too, with the client download's era either way. */
  function ClientVersion(key: string, c: map<string, Download>, s: map<string, Download>): Version
    requires key in c
  {
    if key in s then Version(key, c[key].vtype, Some(c[key]), Some(s[key]))
    else Version(key, c[key].vtype, Some(c[key]), None)
  }

  function ClientPass(keys: seq<string>, c: map<string, Download>, s: map<string, Download>): (vs: seq<Version>)
    requires forall k :: k in keys ==> k in c
    ensures |vs| == |keys|
    ensures forall i :: 0 <= i < |keys| ==> vs[i] == ClientVersion(keys[i], c, s)
  {
    if keys == [] then []
    else ClientPass(keys[..|keys| - 1], c, s) + [ClientVersion(keys[|keys| - 1], c, s)]
  }

  /** What the second pass emits for an id left in the server map. */
  function ServerVersion(key: string, s: map<string, Download>): Version
    requires key in s
  {
    Version(key, s[key].vtype, None, Some(s[key]))
  }

  function ServerPass(keys: seq<string>, s: map<string, Download>): (vs: seq<Version>)
    requires forall k :: k in keys ==> k in s
    ensures |vs| == |keys|
    ensures forall i :: 0 <= i < |keys| ==> vs[i] == ServerVersion(keys[i], s)
  {
    if keys == [] then []
    else ServerPass(keys[..|keys| - 1], s) + [ServerVersion(keys[|keys| - 1], s)]
  }

  /** The server map with the ids of `gone` deleted. */
  function Drain(m: OrderedMap<Download>, gone: set<string>): (r: OrderedMap<Download>)
    requires m.Valid()
    ensures r.Valid()
    ensures KeyedBy(m, Server) ==> KeyedBy(r, Server)
  {
    OrderedMap(Without(m.keys, gone), m.entries - gone)
  }

  /** The server map after the first pass has deleted every client id. */
  function AfterClientPass(client: OrderedMap<Download>, server: OrderedMap<Download>): OrderedMap<Download>
    requires server.Valid()
  {
    Drain(server, client.entries.Keys)
  }

  /** Every version the merge emits, in emission order. */
  function MergedVersions(client: OrderedMap<Download>, server: OrderedMap<Download>): seq<Version>
    requires client.Valid() && server.Valid()
  {
    var rest := AfterClientPass(client, server);
    ClientPass(client.keys, client.entries, server.entries) + ServerPass(rest.keys, rest.entries)
  }

  /** The version an id seen on either side is meant to end up as: it carries the
      download of each side that has the id, and the client's era when the client has it. */
  function Expected(key: string, c: map<string, Download>, s: map<string, Download>): Version
    requires key in c || key in s
  {
    Version(key,
            if key in c then c[key].vtype else s[key].vtype,
            if key in c then Some(c[key]) else None,
            if key in s then Some(s[key]) else None)
  }

  /** The `i`-th emitted version: the first pass's versions come first, in client
      key order, then the second pass's, in the order of the server keys left over. */
  lemma MergedAt(client: OrderedMap<Download>, server: OrderedMap<Download>, i: nat)
    requires client.Valid() && server.Valid()
    requires i < |MergedVersions(client, server)|
    ensures var vs, c, s := MergedVersions(client, server), client.entries, server.entries;
      var rest := Without(server.keys, c.Keys);
      && |vs| == |client.keys| + |rest|
      && vs[i].id == (if i < |client.keys| then client.keys[i] else rest[i - |client.keys|])
      && (vs[i].id in c || vs[i].id in s)
      && vs[i] == Expected(vs[i].id, c, s)
  {
    var c, s := client.entries, server.entries;
    var rest := Without(server.keys, c.Keys);
    var n := |client.keys|;
    if i >= n {
      assert rest[i - n] in rest;
    } else {
      assert client.keys[i] in client.keys;
    }
  }

  /** The merge emits each id of either map exactly once, as the version `Expected`
      describes, and so emits |client| + |server| - (ids on both sides) versions. */
  lemma MergeCorrect(client: OrderedMap<Download>, server: OrderedMap<Download>)
    requires client.Valid() && server.Valid()
    ensures var vs, c, s := MergedVersions(client, server), client.entries, server.entries;
      && (forall i, j :: 0 <= i < j < |vs| ==> vs[i].id != vs[j].id)
      && (forall i :: 0 <= i < |vs| ==> (vs[i].id in c || vs[i].id in s) && vs[i] == Expected(vs[i].id, c, s))
      && (forall k :: k in c || k in s ==> exists i :: 0 <= i < |vs| && vs[i].id == k)
      && |vs| == |c| + |s| - |c.Keys * s.Keys|
  {
    MergedExpected(client, server);
    MergedIdsDistinct(client, server);
    MergedCovers(client, server);
    MergedCount(client, server);
  }

  lemma MergedExpected(client: OrderedMap<Download>, server: OrderedMap<Download>)
    requires client.Valid() && server.Valid()
    ensures var vs, c, s := MergedVersions(client, server), client.entries, server.entries;
      forall i :: 0 <= i < |vs| ==> (vs[i].id in c || vs[i].id in s) && vs[i] == Expected(vs[i].id, c, s)
  {
    var vs := MergedVersions(client, server);
    forall i | 0 <= i < |vs|
      ensures (vs[i].id in client.entries || vs[i].id in server.entries)
      ensures vs[i] == Expected(vs[i].id, client.entries, server.entries)
    {
      MergedAt(client, server, i);
    }
  }

  lemma MergedIdsDistinct(client: OrderedMap<Download>, server: OrderedMap<Download>)
    requires client.Valid() && server.Valid()
    ensures var vs := MergedVersions(client, server);
      forall i, j :: 0 <= i < j < |vs| ==> vs[i].id != vs[j].id
  {
    var vs := MergedVersions(client, server);
    var rest := Without(server.keys, client.entries.Keys);
    var n := |client.keys|;
    forall i, j | 0 <= i < j < |vs| ensures vs[i].id != vs[j].id {
      MergedAt(client, server, i);
      MergedAt(client, server, j);
      if i < n <= j {
        assert client.keys[i] in client.entries && rest[j - n] in rest;
      }
    }
  }

  lemma MergedCovers(client: OrderedMap<Download>, server: OrderedMap<Download>)
    requires client.Valid() && server.Valid()
    ensures var vs := MergedVersions(client, server);
      forall k :: k in client.entries || k in server.entries ==> exists i :: 0 <= i < |vs| && vs[i].id == k
  {
    forall k | k in client.entries || k in server.entries
      ensures exists i :: 0 <= i < |MergedVersions(client, server)| && MergedVersions(client, server)[i].id == k
    {
      MergedCoversKey(client, server, k);
    }
  }

  lemma MergedCoversKey(client: OrderedMap<Download>, server: OrderedMap<Download>, k: string)
    requires client.Valid() && server.Valid()
    requires k in client.entries || k in server.entries
    ensures var vs := MergedVersions(client, server);
      exists i :: 0 <= i < |vs| && vs[i].id == k
  {
    var n := |client.keys|;
    if k in client.keys {
      var i :| 0 <= i < n && client.keys[i] == k;
      MergedAt(client, server, i);
    } else {
      var rest := Without(server.keys, client.entries.Keys);
      assert k in rest;
      var j :| 0 <= j < |rest| && rest[j] == k;
      MergedAt(client, server, n + j);
    }
  }

  lemma MergedCount(client: OrderedMap<Download>, server: OrderedMap<Download>)
    requires client.Valid() && server.Valid()
    ensures var c, s := client.entries, server.entries;
      |MergedVersions(client, server)| == |c| + |s| - |c.Keys * s.Keys|
  {
    var c, s := client.entries, server.entries;
    var rest := Without(server.keys, c.Keys);
    assert AfterClientPass(client, server).keys == rest;
    assert |MergedVersions(client, server)| == |client.keys| + |rest|;
    KeysCount(client);
    DistinctCard(rest);
    assert Elems(rest) == s.Keys - c.Keys;
    CardDifference(s.Keys, c.Keys);
    assert s.Keys * c.Keys == c.Keys * s.Keys;
  }

  lemma CardDifference(a: set<string>, b: set<string>)
    ensures |a - b| == |a| - |a * b|
  {
    assert a == (a - b) + (a * b);
    assert (a - b) !! (a * b);
  }

  /** A version is paired exactly when its id is on both sides, and a version
      with a client download has the client download's era. */
  lemma MergedVersionShape(client: OrderedMap<Download>, server: OrderedMap<Download>)
    requires client.Valid() && server.Valid()
    ensures var vs, c, s := MergedVersions(client, server), client.entries, server.entries;
      forall i :: 0 <= i < |vs| ==>
        && (vs[i].client.Some? && vs[i].server.Some? <==> vs[i].id in c && vs[i].id in s)
        && (vs[i].client.Some? <==> vs[i].id in c)
        && (vs[i].server.Some? <==> vs[i].id in s)
        && (vs[i].id in c ==> vs[i].client == Some(c[vs[i].id]) && vs[i].vtype == c[vs[i].id].vtype)
        && (vs[i].id !in c ==> vs[i].server == Some(s[vs[i].id]) && vs[i].vtype == s[vs[i].id].vtype)
  {
    MergedExpected(client, server);
  }

  /** Each client download lands in exactly one version. */
  lemma ClientDownloadEmittedOnce(client: OrderedMap<Download>, server: OrderedMap<Download>, k: string)
    requires client.Valid() && server.Valid() && KeyedBy(client, Client)
    requires k in client.entries
    ensures var vs := MergedVersions(client, server);
      exists i :: 0 <= i < |vs| && vs[i].client == Some(client.entries[k])
                  && forall j :: 0 <= j < |vs| && vs[j].client == Some(client.entries[k]) ==> j == i
  {
    var vs, c := MergedVersions(client, server), client.entries;
    MergedCovers(client, server);
    MergedIdsDistinct(client, server);
    var i :| 0 <= i < |vs| && vs[i].id == k;
    MergedAt(client, server, i);
    forall j | 0 <= j < |vs| && vs[j].client == Some(c[k]) ensures j == i {
      MergedAt(client, server, j);
      assert c[vs[j].id] == c[k];
    }
  }

  /** Each server download lands in exactly one version. */
  lemma ServerDownloadEmittedOnce(client: OrderedMap<Download>, server: OrderedMap<Download>, k: string)
    requires client.Valid() && server.Valid() && KeyedBy(server, Server)
    requires k in server.entries
    ensures var vs := MergedVersions(client, server);
      exists i :: 0 <= i < |vs| && vs[i].server == Some(server.entries[k])
                  && forall j :: 0 <= j < |vs| && vs[j].server == Some(server.entries[k]) ==> j == i
  {
    var vs, s := MergedVersions(client, server), server.entries;
    MergedCovers(client, server);
    MergedIdsDistinct(client, server);
    var i :| 0 <= i < |vs| && vs[i].id == k;
    MergedAt(client, server, i);
    forall j | 0 <= j < |vs| && vs[j].server == Some(s[k]) ensures j == i {
      MergedAt(client, server, j);
      assert s[vs[j].id] == s[k];
    }
  }

  // ---------------------------------------------------------------------
  // Buckets

  /** The versions of era `t`, in order. */
  function OfType(vs: seq<Version>, t: VersionType): seq<Version> {
    if vs == [] then []
    else OfType(vs[..|vs| - 1], t) + (if vs[|vs| - 1].vtype == t then [vs[|vs| - 1]] else [])
  }

  /** The catalog before any version is filed: one empty bucket per era. */
  function EmptyCatalog(): (catalog: Catalog)
    ensures forall t :: t in catalog && catalog[t] == TypeContainer(t, [])
  {
    AllTypesListed();
    map t | t in VersionTypes :: TypeContainer(t, [])
  }

  /** `typeContainerMap.get(type)!.versions.push(version)`. */
  function Push(catalog: Catalog, v: Version): Catalog
    requires v.vtype in catalog
  {
    catalog[v.vtype := TypeContainer(v.vtype, catalog[v.vtype].versions + [v])]
  }

  /** The catalog that filing `vs`, in order, into the pre-made buckets gives. */
  function Bucketize(vs: seq<Version>): (catalog: Catalog)
    ensures forall t :: t in catalog
  {
    if vs == [] then EmptyCatalog() else Push(Bucketize(vs[..|vs| - 1]), vs[|vs| - 1])
  }

  lemma BucketizeSnoc(vs: seq<Version>, v: Version)
    ensures Bucketize(vs + [v]) == Push(Bucketize(vs), v)
  {
    assert (vs + [v])[..|vs|] == vs;
  }

  /** Filing one more version appends it to the bucket of its era and leaves
      every other bucket as it was. */
  lemma BucketizeStep(vs: seq<Version>, v: Version)
    ensures forall t :: t != v.vtype ==> Bucketize(vs + [v])[t] == Bucketize(vs)[t]
    ensures Bucketize(vs + [v])[v.vtype]
         == TypeContainer(v.vtype, Bucketize(vs)[v.vtype].versions + [v])
  {
    BucketizeSnoc(vs, v);
  }

  /** Bucket `t` holds the era-`t` versions of `vs`, in order. */
  lemma {:induction false} BucketizeAt(vs: seq<Version>, t: VersionType)
    ensures Bucketize(vs)[t] == TypeContainer(t, OfType(vs, t))
  {
    if vs != [] {
      BucketizeAt(vs[..|vs| - 1], t);
    }
  }

  lemma AllTypesListed()
    ensures forall t :: t in VersionTypes
  {
    forall t ensures t in VersionTypes {
      EveryTypeListed(t);
    }
  }

  lemma EveryTypeListed(t: VersionType)
    ensures t in VersionTypes
  {
    match t
    case PreClassic => assert VersionTypes[0] == t;
    case Classic => assert VersionTypes[1] == t;
    case Indev => assert VersionTypes[2] == t;
    case Infdev => assert VersionTypes[3] == t;
    case Alpha => assert VersionTypes[4] == t;
    case Beta => assert VersionTypes[5] == t;
    case Release => assert VersionTypes[6] == t;
    case AprilFools => assert VersionTypes[7] == t;
  }

  lemma {:induction false} OfTypeMembers(vs: seq<Version>, t: VersionType)
    ensures forall v :: v in OfType(vs, t) <==> v in vs && v.vtype == t
  {
    if vs != [] {
      OfTypeMembers(vs[..|vs| - 1], t);
      assert vs == vs[..|vs| - 1] + [vs[|vs| - 1]];
    }
  }

  /** Ids that are distinct in `vs` stay distinct, and in at most one bucket, in the catalog. */
  lemma CatalogIdsUnique(vs: seq<Version>)
    requires forall i, j :: 0 <= i < j < |vs| ==> vs[i].id != vs[j].id
    ensures var catalog := Bucketize(vs);
      && (forall t, i, j :: 0 <= i < j < |catalog[t].versions| ==>
            catalog[t].versions[i].id != catalog[t].versions[j].id)
      && (forall t, u, v, w :: v in catalog[t].versions && w in catalog[u].versions && v.id == w.id ==>
            v == w && t == u)
  {
    forall t ensures var b := Bucketize(vs)[t].versions;
      forall i, j :: 0 <= i < j < |b| ==> b[i].id != b[j].id
    {
      BucketizeAt(vs, t);
      OfTypeIdsDistinct(vs, t);
    }
    forall t, u, v, w | v in Bucketize(vs)[t].versions && w in Bucketize(vs)[u].versions && v.id == w.id
      ensures v == w && t == u
    {
      SameIdSameVersion(vs, t, u, v, w);
    }
  }

  lemma SameIdSameVersion(vs: seq<Version>, t: VersionType, u: VersionType, v: Version, w: Version)
    requires forall i, j :: 0 <= i < j < |vs| ==> vs[i].id != vs[j].id
    requires v in Bucketize(vs)[t].versions && w in Bucketize(vs)[u].versions && v.id == w.id
    ensures v == w && t == u
  {
    BucketizeAt(vs, t);
    BucketizeAt(vs, u);
    OfTypeMembers(vs, t);
    OfTypeMembers(vs, u);
    DistinctIdsSameVersion(vs, v, w);
  }

  lemma DistinctIdsSameVersion(vs: seq<Version>, v: Version, w: Version)
    requires forall i, j :: 0 <= i < j < |vs| ==> vs[i].id != vs[j].id
    requires v in vs && w in vs && v.id == w.id
    ensures v == w
  {
    var i :| 0 <= i < |vs| && vs[i] == v;
    var j :| 0 <= j < |vs| && vs[j] == w;
  }

  lemma {:induction false} OfTypeIdsDistinct(vs: seq<Version>, t: VersionType)
    requires forall i, j :: 0 <= i < j < |vs| ==> vs[i].id != vs[j].id
    ensures forall i, j :: 0 <= i < j < |OfType(vs, t)| ==> OfType(vs, t)[i].id != OfType(vs, t)[j].id
  {
    if vs != [] {
      var init, last := vs[..|vs| - 1], vs[|vs| - 1];
      OfTypeIdsDistinct(init, t);
      OfTypeMembers(init, t);
      var prior := OfType(init, t);
      var ofType := OfType(vs, t);
      assert ofType == prior + (if last.vtype == t then [last] else []);
      forall i | 0 <= i < |prior| ensures prior[i].id != last.id {
        assert prior[i] in prior;
        var k :| 0 <= k < |init| && init[k] == prior[i];
        assert vs[k] == prior[i];
      }
      forall i, j | 0 <= i < j < |ofType| ensures ofType[i].id != ofType[j].id {
        assert ofType[i] == prior[i];
        if j < |prior| {
          assert ofType[j] == prior[j];
          assert prior[i].id != prior[j].id;
        } else {
          assert ofType[j] == last;
          assert prior[i].id != last.id;
        }
      }
    }
  }

  /** Total length of the buckets of the eras `ts`. */
  function SumLengths(catalog: Catalog, ts: seq<VersionType>): nat
    requires forall t :: t in ts ==> t in catalog
  {
    if ts == [] then 0 else SumLengths(catalog, ts[..|ts| - 1]) + |catalog[ts[|ts| - 1]].versions|
  }

  function Occurrences(ts: seq<VersionType>, t: VersionType): nat {
    if ts == [] then 0 else Occurrences(ts[..|ts| - 1], t) + (if ts[|ts| - 1] == t then 1 else 0)
  }

  lemma {:induction false} OccurrencesOfDistinct(ts: seq<VersionType>, t: VersionType)
    requires forall i, j :: 0 <= i < j < |ts| ==> ts[i] != ts[j]
    ensures Occurrences(ts, t) == if t in ts then 1 else 0
  {
    if ts != [] {
      var init := ts[..|ts| - 1];
      OccurrencesOfDistinct(init, t);
      assert ts == init + [ts[|ts| - 1]];
      if ts[|ts| - 1] == t {
        assert t !in init by {
          forall i | 0 <= i < |init| ensures init[i] != t {
            assert ts[i] != ts[|ts| - 1];
          }
        }
      }
    }
  }

  lemma {:induction false} SumLengthsSnoc(vs: seq<Version>, v: Version, ts: seq<VersionType>)
    ensures SumLengths(Bucketize(vs + [v]), ts) == SumLengths(Bucketize(vs), ts) + Occurrences(ts, v.vtype)
  {
    BucketizeSnoc(vs, v);
    if ts != [] {
      SumLengthsSnoc(vs, v, ts[..|ts| - 1]);
    }
  }

  lemma OccursOnce(t: VersionType)
    ensures Occurrences(VersionTypes, t) == 1
  {
    EveryTypeListed(t);
    OccurrencesOfDistinct(VersionTypes, t);
  }

  /** The catalog has a bucket for every era, each bucket holds exactly the
      versions of its era, and the bucket lengths add up to the number of versions. */
  lemma CatalogCorrect(vs: seq<Version>)
    ensures var catalog := Bucketize(vs);
      && (forall t :: t in catalog && catalog[t].vtype == t)
      && (forall t, v :: v in catalog[t].versions <==> v in vs && v.vtype == t)
      && SumLengths(catalog, VersionTypes) == |vs|
  {
    forall t ensures Bucketize(vs)[t].vtype == t
      && forall v :: v in Bucketize(vs)[t].versions <==> v in vs && v.vtype == t
    {
      BucketizeAt(vs, t);
      OfTypeMembers(vs, t);
    }
    BucketSum(vs);
  }

  lemma {:induction false} BucketSum(vs: seq<Version>)
    ensures SumLengths(Bucketize(vs), VersionTypes) == |vs|
  {
    if vs == [] {
      EmptySum(VersionTypes);
    } else {
      var init, v := vs[..|vs| - 1], vs[|vs| - 1];
      BucketSum(init);
      SumLengthsSnoc(init, v, VersionTypes);
      OccursOnce(v.vtype);
      assert init + [v] == vs;
    }
  }

  lemma {:induction false} EmptySum(ts: seq<VersionType>)
    ensures SumLengths(Bucketize([]), ts) == 0
  {
    if ts != [] {
      EmptySum(ts[..|ts| - 1]);
    }
  }

  // ---------------------------------------------------------------------
  // The loops of the catalog assembly

  /** The pre-initialised buckets: one empty bucket per era. */
  method NewTypeContainers() returns (catalog: Catalog)
    ensures catalog == EmptyCatalog()
  {
    catalog := map[];
    for i := 0 to |VersionTypes|
      invariant forall t :: t in catalog <==> t in VersionTypes[..i]
      invariant forall t :: t in catalog ==> catalog[t] == TypeContainer(t, [])
    {
      var t := VersionTypes[i];
      catalog := catalog[t := TypeContainer(t, [])];
    }
    assert VersionTypes[..|VersionTypes|] == VersionTypes;
    AllTypesListed();
  }

  /** The second pass, over the ids the first pass left in the server map. */
  method FileServerOnly(catalog: Catalog, leftover: OrderedMap<Download>, ghost first: seq<Version>)
    returns (filed: Catalog)
    requires leftover.Valid() && catalog == Bucketize(first)
    ensures filed == Bucketize(first + ServerPass(leftover.keys, leftover.entries))
  {
    filed := catalog;
    ghost var emitted := first;
    assert leftover.keys[..0] == [] && first + [] == first;
    for j := 0 to |leftover.keys|
      invariant emitted == first + ServerPass(leftover.keys[..j], leftover.entries)
      invariant filed == Bucketize(emitted)
    {
      var key := leftover.keys[j];
      var value := leftover.entries[key];
      var version := Version(key, value.vtype, None, Some(value));
      ServerPassMore(first, leftover, j);
      BucketizeSnoc(emitted, version);
      filed := Push(filed, version);
      emitted := emitted + [version];
    }
    assert leftover.keys[..|leftover.keys|] == leftover.keys;
  }

  /** One more left-over server id through the second pass. */
  lemma ServerPassMore(first: seq<Version>, m: OrderedMap<Download>, j: nat)
    requires m.Valid() && j < |m.keys|
    ensures var key := m.keys[j];
      && key in m.entries
      && first + ServerPass(m.keys[..j + 1], m.entries)
         == (first + ServerPass(m.keys[..j], m.entries)) + [ServerVersion(key, m.entries)]
  {
    var keys := m.keys;
    assert keys[..j + 1][..j] == keys[..j];
    assert keys[j] in keys;
  }

  /** The `versionsAmount` loop: adding up the bucket lengths, era by era, counts
      every version that was filed. */
  method CountVersions(catalog: Catalog, ghost vs: seq<Version>) returns (amount: nat)
    requires catalog == Bucketize(vs)
    ensures amount == |vs|
  {
    amount := 0;
    for i := 0 to |VersionTypes|
      invariant forall t :: t in VersionTypes ==> t in catalog
      invariant amount == SumLengths(catalog, VersionTypes[..i])
    {
      var t := VersionTypes[i];
      assert VersionTypes[..i + 1][..i] == VersionTypes[..i];
      amount := amount + |catalog[t].versions|;
    }
    assert VersionTypes[..|VersionTypes|] == VersionTypes;
    BucketSum(vs);
  }
}
