/**
 * The crawler's mutable state: the two per-side download maps, filled page by
 * page and then drained by the pairing pass into the era buckets.
 */
module Vault {
  import opened Wrappers
  import opened OrderedMaps
  import opened Classify
  import opened Extract
  import opened Merge

  /** A side's map after recording, in order, those of `ds` that belong to `side`. */
  function Absorb(m: OrderedMap<Download>, ds: seq<Download>, side: Side): (r: OrderedMap<Download>)
    requires m.Valid()
    ensures r.Valid()
    ensures |m.keys| <= |r.keys| && r.keys[..|m.keys|] == m.keys
    ensures KeyedBy(m, side) ==> KeyedBy(r, side)
  {
    if ds == [] then m else Put(Absorb(m, ds[..|ds| - 1], side), ds[|ds| - 1], side)
  }

  /** `set(id, download)` on the map of the download's side; the other side's map is untouched. */
  function Put(m: OrderedMap<Download>, d: Download, side: Side): (r: OrderedMap<Download>)
    requires m.Valid()
    ensures r.Valid()
    ensures |m.keys| <= |r.keys| && r.keys[..|m.keys|] == m.keys
    ensures KeyedBy(m, side) ==> KeyedBy(r, side)
  {
    if d.side == side then m.Set(d.id, d) else m
  }

  /** For an id some download of `side` carries, the map ends up holding the last such download. */
  lemma {:induction false} AbsorbLastWins(m: OrderedMap<Download>, ds: seq<Download>, side: Side, i: nat)
    requires m.Valid()
    requires i < |ds| && ds[i].side == side
    requires forall j :: i < j < |ds| ==> !(ds[j].side == side && ds[j].id == ds[i].id)
    ensures ds[i].id in Absorb(m, ds, side).entries
    ensures Absorb(m, ds, side).entries[ds[i].id] == ds[i]
  {
    var init := ds[..|ds| - 1];
    if i < |ds| - 1 {
      AbsorbLastWins(m, init, side, i);
    }
  }

  /** An id no download of `side` carries keeps whatever the map held for it. */
  lemma {:induction false} AbsorbUntouched(m: OrderedMap<Download>, ds: seq<Download>, side: Side, k: string)
    requires m.Valid()
    requires forall j :: 0 <= j < |ds| ==> !(ds[j].side == side && ds[j].id == k)
    ensures var r := Absorb(m, ds, side);
      (k in r.entries <==> k in m.entries) && (k in m.entries ==> r.entries[k] == m.entries[k])
  {
    if ds != [] {
      AbsorbUntouched(m, ds[..|ds| - 1], side, k);
    }
  }

  lemma AbsorbSnoc(m: OrderedMap<Download>, ds: seq<Download>, d: Download, side: Side)
    requires m.Valid()
    ensures Absorb(m, ds + [d], side) == Put(Absorb(m, ds, side), d, side)
  {
    assert (ds + [d])[..|ds|] == ds;
  }

  /** One anchor further into a page's scan. */
  lemma ScanOneMore(vt: VersionType, anchors: seq<Anchor>, i: nat)
    requires i < |anchors|
    ensures var rest := ScanAnchors(vt, anchors[i + 1..]);
      ScanAnchors(vt, anchors[i..])
        == match ReadAnchor(vt, anchors[i])
           case Skipped => rest
           case Crashed(e) => Scan([], Some(e))
           case Extracted(d) => Scan([d] + rest.downloads, rest.failure)
  {
    assert anchors[i..][0] == anchors[i] && anchors[i..][1..] == anchors[i + 1..];
  }

  /** After the first `i` anchors the scan so far found `done`, and goes on as the
      scan of the remaining anchors would. */
  ghost predicate ScanResumes(vt: VersionType, anchors: seq<Anchor>, i: nat, done: seq<Download>)
    requires i <= |anchors|
  {
    var rest := ScanAnchors(vt, anchors[i..]);
    ScanAnchors(vt, anchors) == Scan(done + rest.downloads, rest.failure)
  }

  lemma ScanStart(vt: VersionType, anchors: seq<Anchor>)
    ensures ScanResumes(vt, anchors, 0, [])
  {
    assert anchors[0..] == anchors;
  }

  lemma ScanEnds(vt: VersionType, anchors: seq<Anchor>, done: seq<Download>)
    requires ScanResumes(vt, anchors, |anchors|, done)
    ensures ScanAnchors(vt, anchors) == Scan(done, None)
  {
    assert anchors[|anchors|..] == [];
    assert done + [] == done;
  }

  lemma ScanSkips(vt: VersionType, anchors: seq<Anchor>, i: nat, done: seq<Download>)
    requires i < |anchors| && ScanResumes(vt, anchors, i, done)
    requires ReadAnchor(vt, anchors[i]) == Skipped
    ensures ScanResumes(vt, anchors, i + 1, done)
  {
    ScanOneMore(vt, anchors, i);
  }

  lemma ScanStops(vt: VersionType, anchors: seq<Anchor>, i: nat, done: seq<Download>, e: CrawlError)
    requires i < |anchors| && ScanResumes(vt, anchors, i, done)
    requires ReadAnchor(vt, anchors[i]) == Crashed(e)
    ensures ScanAnchors(vt, anchors) == Scan(done, Some(e))
  {
    ScanOneMore(vt, anchors, i);
    assert done + [] == done;
  }

  lemma ScanTakes(vt: VersionType, anchors: seq<Anchor>, i: nat, done: seq<Download>, d: Download)
    requires i < |anchors| && ScanResumes(vt, anchors, i, done)
    requires ReadAnchor(vt, anchors[i]) == Extracted(d)
    ensures ScanResumes(vt, anchors, i + 1, done + [d])
  {
    ScanOneMore(vt, anchors, i);
    var rest := ScanAnchors(vt, anchors[i + 1..]);
    var tail := ScanAnchors(vt, anchors[i..]);
    assert tail == Scan([d] + rest.downloads, rest.failure);
    ScanRegroup(ScanAnchors(vt, anchors), tail, rest, done, d);
  }

  /** Moving one download from the remaining scan to the part already done. */
  lemma ScanRegroup(whole: Scan, tail: Scan, rest: Scan, done: seq<Download>, d: Download)
    requires tail == Scan([d] + rest.downloads, rest.failure)
    requires whole == Scan(done + tail.downloads, tail.failure)
    ensures whole == Scan((done + [d]) + rest.downloads, rest.failure)
  {
    assert done + ([d] + rest.downloads) == (done + [d]) + rest.downloads;
  }

  lemma DrainNothing(m: OrderedMap<Download>)
    requires m.Valid()
    ensures Drain(m, {}) == m
  {
    WithoutNothing(m.keys);
    assert m.entries - {} == m.entries;
  }

  /** Deleting one more id, whether or not it is still there. */
  lemma DrainMore(m: OrderedMap<Download>, gone: set<string>, key: string)
    requires m.Valid()
    ensures key in Drain(m, gone).entries ==> Drain(m, gone + {key}) == Drain(m, gone).Delete(key)
    ensures key !in Drain(m, gone).entries ==> Drain(m, gone + {key}) == Drain(m, gone)
  {
    if key in Drain(m, gone).entries {
      DrainPresent(m, gone, key);
    } else if key in gone {
      assert gone + {key} == gone;
    } else {
      DrainAbsent(m, gone, key);
    }
  }

  lemma DrainPresent(m: OrderedMap<Download>, gone: set<string>, key: string)
    requires m.Valid() && key in Drain(m, gone).entries
    ensures Drain(m, gone + {key}) == Drain(m, gone).Delete(key)
  {
    WithoutTwice(m.keys, gone, {key});
    assert (m.entries - gone) - {key} == m.entries - (gone + {key});
  }

  lemma DrainAbsent(m: OrderedMap<Download>, gone: set<string>, key: string)
    requires m.Valid() && key !in m.entries
    ensures Drain(m, gone + {key}) == Drain(m, gone)
  {
    WithoutAbsent(m.keys, gone, key);
    assert m.entries - (gone + {key}) == m.entries - gone;
  }

  lemma DrainedByClient(client: OrderedMap<Download>, server: OrderedMap<Download>)
    requires client.Valid() && server.Valid()
    ensures Drain(server, Elems(client.keys[..|client.keys|])) == AfterClientPass(client, server)
  {
    assert client.keys[..|client.keys|] == client.keys;
    assert Elems(client.keys) == client.entries.Keys;
  }

  /** One more client id through the first pass. */
  lemma ClientPassMore(client: OrderedMap<Download>, server: OrderedMap<Download>, i: nat)
    requires client.Valid() && i < |client.keys|
    ensures var key := client.keys[i];
      && key in client.entries
      && key !in Elems(client.keys[..i])
      && Elems(client.keys[..i + 1]) == Elems(client.keys[..i]) + {key}
      && ClientPass(client.keys[..i + 1], client.entries, server.entries)
         == ClientPass(client.keys[..i], client.entries, server.entries)
            + [ClientVersion(key, client.entries, server.entries)]
  {
    var keys := client.keys;
    assert keys[..i + 1] == keys[..i] + [keys[i]];
    assert keys[..i + 1][..i] == keys[..i];
    assert keys[i] in keys;
    forall j | 0 <= j < i ensures keys[..i][j] != keys[i] { }
  }

  /** The whole state of the crawl. */
  class Vault {
    var client: OrderedMap<Download>
    var server: OrderedMap<Download>

    ghost predicate Valid()
      reads this
    {
      client.Valid() && server.Valid() && KeyedBy(client, Client) && KeyedBy(server, Server)
    }

    /** Both maps start empty. */
    constructor ()
      ensures Valid()
      ensures client == Empty() && server == Empty()
    {
      client := Empty();
      server := Empty();
    }

    /** Files a download under its id in its side's map; a later download with
        the same id and side replaces the earlier one. */
    method Record(d: Download)
      requires Valid()
      modifies this
      ensures Valid()
      ensures client == Put(old(client), d, Client) && server == Put(old(server), d, Server)
    {
      if d.side == Client {
        client := client.Set(d.id, d);
      } else {
        server := server.Set(d.id, d);
      }
    }

    /** Handles one listing page: finds its era from the title, walks its
        anchors and records every accepted artifact. A failure is the
        exception the page handler throws; what was recorded before it stays. */
    method HandlePage(title: string, anchors: seq<Anchor>) returns (outcome: Outcome<CrawlError>)
      requires Valid()
      modifies this
      ensures Valid()
      ensures var scan := PageScan(title, anchors);
        && client == Absorb(old(client), scan.downloads, Client)
        && server == Absorb(old(server), scan.downloads, Server)
        && outcome == if scan.failure.Some? then Fail(scan.failure.value) else Pass
    {
      var segment := TitleSegment(title);
      if segment.None? {
        return Pass;
      }
      var typed := GetVersionType(segment.value);
      if typed.Failure? {
        return Fail(typed.error);
      }
      outcome := HandleAnchors(typed.value, anchors);
    }

    /** Walks the anchors of a page of era `vt`, recording each accepted artifact. */
    method HandleAnchors(vt: VersionType, anchors: seq<Anchor>) returns (outcome: Outcome<CrawlError>)
      requires Valid()
      modifies this
      ensures Valid()
      ensures var scan := ScanAnchors(vt, anchors);
        && client == Absorb(old(client), scan.downloads, Client)
        && server == Absorb(old(server), scan.downloads, Server)
        && outcome == if scan.failure.Some? then Fail(scan.failure.value) else Pass
    {
      ghost var done: seq<Download> := [];
      ScanStart(vt, anchors);
      var i := 0;
      while i < |anchors|
        invariant 0 <= i <= |anchors|
        invariant Valid()
        invariant ScanResumes(vt, anchors, i, done)
        invariant client == Absorb(old(client), done, Client)
        invariant server == Absorb(old(server), done, Server)
      {
        var step := HandleAnchor(vt, anchors[i]);
        if step.Crashed? {
          ScanStops(vt, anchors, i, done, step.error);
          return Fail(step.error);
        }
        if step.Extracted? {
          ScanTakes(vt, anchors, i, done, step.download);
          AbsorbSnoc(old(client), done, step.download, Client);
          AbsorbSnoc(old(server), done, step.download, Server);
          done := done + [step.download];
        } else {
          ScanSkips(vt, anchors, i, done);
        }
        i := i + 1;
      }
      ScanEnds(vt, anchors, done);
      return Pass;
    }

    /** One anchor: an accepted link's id, side and description are derived and
        the download is recorded; a rejected link is passed over. */
    method HandleAnchor(vt: VersionType, a: Anchor) returns (step: AnchorResult)
      requires Valid()
      modifies this
      ensures Valid()
      ensures step == ReadAnchor(vt, a)
      ensures step.Extracted? ==>
        client == Put(old(client), step.download, Client) && server == Put(old(server), step.download, Server)
      ensures !step.Extracted? ==> client == old(client) && server == old(server)
    {
      var link := a.href;
      if link == [] || !VerifyExtension(link) {
        return Skipped;
      }
      var id := DeriveId(link);
      var side := DeriveSide(link);
      var desc := ParseDescription(a.followingText);
      if desc.Failure? {
        return Crashed(desc.error);
      }
      var download := Download(id, vt, side, link, desc.value.timeUploaded, desc.value.size);
      Record(download);
      return Extracted(download);
    }

    /** The pairing pass: one version per client id (paired when the server
        map has the id, which is then deleted from it), then one per id left in
        the server map, each pushed onto the bucket of its era. */
    method Merge() returns (catalog: Catalog)
      requires Valid()
      modifies this
      ensures Valid()
      ensures client == old(client)
      ensures server == AfterClientPass(old(client), old(server))
      ensures catalog == Bucketize(MergedVersions(old(client), old(server)))
    {
      catalog := NewTypeContainers();
      catalog := PairClients(catalog);
      catalog := FileServerOnly(catalog, server, ClientPass(client.keys, client.entries, old(server).entries));
    }

    /** The first pass, over the client map in insertion order. */
    method PairClients(empty: Catalog) returns (catalog: Catalog)
      requires Valid() && empty == EmptyCatalog()
      modifies this
      ensures Valid()
      ensures client == old(client)
      ensures server == AfterClientPass(old(client), old(server))
      ensures catalog == Bucketize(ClientPass(client.keys, client.entries, old(server).entries))
    {
      catalog := empty;
      ghost var s0 := server;
      ghost var gone: set<string> := {};
      DrainNothing(s0);
      for i := 0 to |client.keys|
        invariant client == old(client) && s0 == old(server)
        invariant Valid()
        invariant gone == Elems(client.keys[..i])
        invariant server == Drain(s0, gone)
        invariant catalog == Bucketize(ClientPass(client.keys[..i], client.entries, s0.entries))
      {
        var key := client.keys[i];
        ClientPassMore(client, s0, i);
        var version := PairOne(key, s0, gone);
        BucketizeSnoc(ClientPass(client.keys[..i], client.entries, s0.entries), version);
        catalog := Push(catalog, version);
        gone := gone + {key};
      }
      DrainedByClient(client, s0);
      assert client.keys[..|client.keys|] == client.keys;
    }

    /** Assembles the catalog after the crawl and counts the versions filed. */
    method Assemble() returns (catalog: Catalog, versionsAmount: nat)
      requires Valid()
      modifies this
      ensures Valid()
      ensures client == old(client)
      ensures server == AfterClientPass(old(client), old(server))
      ensures catalog == Bucketize(MergedVersions(old(client), old(server)))
      ensures var c, s := old(client).entries, old(server).entries;
        versionsAmount == |c| + |s| - |c.Keys * s.Keys|
    {
      catalog := Merge();
      versionsAmount := CountVersions(catalog, MergedVersions(old(client), old(server)));
      MergedCount(old(client), old(server));
    }

    /** The first pass's body for one client id: the server download with the same
        id, if there is one, is taken out of the server map and paired with it. */
    method PairOne(key: string, ghost s0: OrderedMap<Download>, ghost gone: set<string>) returns (version: Version)
      requires Valid() && s0.Valid() && KeyedBy(s0, Server)
      requires key in client.entries && key !in gone && server == Drain(s0, gone)
      modifies this
      ensures Valid()
      ensures client == old(client)
      ensures server == Drain(s0, gone + {key})
      ensures version == ClientVersion(key, client.entries, s0.entries)
    {
      DrainMore(s0, gone, key);
      var value := client.entries[key];
      if key in server.entries {
        var paired := server.entries[key];
        server := server.Delete(key);
        version := Version(key, value.vtype, Some(value), Some(paired));
      } else {
        version := Version(key, value.vtype, Some(value), None);
      }
    }
  }
}
