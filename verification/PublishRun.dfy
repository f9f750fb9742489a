/**
 * One run of `publish_github` against the store, and any number of runs in a row. A run that is cut off
 * is a run whose next call fails, so every cut is among the executions below.
 */
module PublishRun {
  import opened Pointers
  import opened ReleaseStore
  import opened Publisher

  // ---- extending a lawful history ----

  lemma LawfulStep(b: Bundle, honest: bool, trace: seq<Remote>, t: Remote)
    requires Lawful(b, honest, trace) && trace != [] && Moves(b, honest, trace[|trace| - 1], t)
    ensures Lawful(b, honest, trace + [t])
  {
    var longer := trace + [t];
    forall i, j | 0 <= i && j == i + 1 && j < |longer| ensures Moves(b, honest, longer[i], longer[j]) {
      if j < |trace| {
        assert Moves(b, honest, trace[i], trace[j]);
      }
    }
  }

  /** The tag is at the bundle's revision and an exact release of the bundle is published. */
  ghost predicate Completed(b: Bundle, s: Remote) {
    && s.tag == Some(TagRef(true, b.revision))
    && exists id ::
        id in s.releases && s.releases[id].tagName == b.tag && !s.releases[id].draft && Exact(b, s.releases[id])
  }

  /** Once the bundle is published no publisher's step changes anything at all. */
  lemma {:induction false} CompletedIsFinal(b: Bundle, honest: bool, trace: seq<Remote>, i: nat, j: nat)
    requires Lawful(b, honest, trace) && i <= j < |trace| && Safe(b, trace[i]) && Completed(b, trace[i])
    ensures trace[j] == trace[i]
    decreases j
  {
    if i < j {
      CompletedIsFinal(b, honest, trace, i, j - 1);
      var s, t := trace[j - 1], trace[j];
      assert Moves(b, honest, s, t);
      var id :| id in s.releases && IsOurs(b, s.releases[id]) && !s.releases[id].draft && Exact(b, s.releases[id]);
      assert forall x :: x in s.releases && IsOurs(b, s.releases[x]) ==> x == id;
    }
  }

  // ---- the tag ----

  method EnsureTag(g: GitHub, b: Bundle) returns (ok: bool)
    requires g.Recording() && Lawful(b, g.honest, g.trace)
    modifies g
    ensures g.Recording() && Lawful(b, g.honest, g.trace) && old(g.trace) <= g.trace && g.faults >= old(g.faults)
    ensures g.state.releases == old(g.state).releases && g.state.listing == old(g.state).listing
    ensures ok ==>
              g.state.tag == Some(TagRef(true, b.revision)) && TagFits(b, old(g.state)) && g.faults == old(g.faults)
    ensures !ok && g.faults == old(g.faults) ==> !TagFits(b, old(g.state))
  {
    var ref := g.GetTag();
    if ref.NotFound? {
      ghost var before := g.trace;
      var created := g.CreateTag(b.revision);
      LawfulStep(b, g.honest, before, g.state);
      if created.Failed? {
        return false;
      }
      ref := g.GetTag();
    }
    ok := ref.Ok? && ref.value.isCommit && ref.value.sha == b.revision;
  }

  // ---- the release ----

  /** The entries of a page that carry the tag, in order. */
  method Matches(g: GitHub, b: Bundle, batch: seq<nat>) returns (found: seq<nat>)
    requires forall id :: id in batch ==> id in g.state.releases
    ensures forall id :: id in found <==> id in batch && IsOurs(b, g.state.releases[id])
    ensures (forall i, j :: 0 <= i < j < |batch| ==> batch[i] != batch[j]) ==>
              forall i, j :: 0 <= i < j < |found| ==> found[i] != found[j]
  {
    found := [];
    for i := 0 to |batch|
      invariant forall id :: id in found <==> id in batch[..i] && IsOurs(b, g.state.releases[id])
      invariant (forall x, y :: 0 <= x < y < |batch| ==> batch[x] != batch[y]) ==>
                  forall x, y :: 0 <= x < y < |found| ==> found[x] != found[y]
    {
      if IsOurs(b, g.state.releases[batch[i]]) {
        found := found + [batch[i]];
      }
    }
    assert batch[..|batch|] == batch;
  }

  ghost predicate OnlyOne(b: Bundle, s: Remote) {
    forall x, y :: x in s.releases && y in s.releases && IsOurs(b, s.releases[x]) && IsOurs(b, s.releases[y]) ==> x == y
  }

  ghost predicate NoneBefore(b: Bundle, s: Remote, n: nat)
    requires ValidRemote(s)
  {
    forall i :: 0 <= i < n && i < |s.listing| ==> !IsOurs(b, s.releases[s.listing[i]])
  }

  /** A page without our tag extends what has been searched by the page. */
  lemma SearchedPage(b: Bundle, s: Remote, page: nat)
    requires ValidRemote(s) && page >= 1 && NoneBefore(b, s, (page - 1) * 100)
    requires forall id :: id in Page(s.listing, page) ==> id in s.releases && !IsOurs(b, s.releases[id])
    ensures NoneBefore(b, s, page * 100)
    ensures |Page(s.listing, page)| < 100 ==> |s.listing| < page * 100
    ensures |Page(s.listing, page)| == 100 ==> page * 100 <= |s.listing|
  {
    var batch := Page(s.listing, page);
    forall i | 0 <= i < page * 100 && i < |s.listing| ensures !IsOurs(b, s.releases[s.listing[i]]) {
      if i >= (page - 1) * 100 {
        assert s.listing[i] == batch[i - (page - 1) * 100];
      }
    }
  }

  lemma PageIsDistinct(s: Remote, page: nat)
    requires ValidRemote(s) && page >= 1
    ensures var batch := Page(s.listing, page);
            && (forall id :: id in batch ==> id in s.releases)
            && (forall i, j :: 0 <= i < j < |batch| ==> batch[i] != batch[j])
  {
  }

  /** Published releases are found by tag, drafts by walking the listing page by page. */
  method FindRelease(g: GitHub, b: Bundle) returns (ok: bool, found: Option<nat>)
    requires g.Recording()
    modifies g`faults
    ensures g.Recording() && g.faults >= old(g.faults)
    ensures ok ==> g.faults == old(g.faults)
    ensures ok && found.Some? ==> found.value in g.state.releases && IsOurs(b, g.state.releases[found.value])
    ensures ok && found.None? ==> forall id :: id in g.state.releases ==> !IsOurs(b, g.state.releases[id])
    ensures !ok && g.faults == old(g.faults) ==> !OnlyOne(b, g.state)
  {
    var published := g.GetPublished(b.tag);
    if published.Ok? {
      return true, Some(published.value);
    } else if published.Failed? {
      return false, None;
    }
    var page := 1;
    while true
      invariant g.Recording() && page >= 1 && g.faults == old(g.faults) && g.state == old(g.state)
      invariant NoneBefore(b, g.state, (page - 1) * 100)
      invariant (page - 1) * 100 <= |g.state.listing|
      decreases |g.state.listing| + 100 - page * 100
    {
      var reply := g.ListPage(page);
      if reply.Failed? {
        return false, None;
      }
      PageIsDistinct(g.state, page);
      var matches := Matches(g, b, reply.value);
      if |matches| > 1 {
        assert matches[0] in matches && matches[1] in matches && matches[0] != matches[1];
        return false, None;
      }
      if |matches| == 1 {
        assert matches[0] in matches;
        return true, Some(matches[0]);
      }
      SearchedPage(b, g.state, page);
      if |reply.value| < 100 {
        return true, None;
      }
      page := page + 1;
    }
  }

  // ---- the assets ----

  /** `byName` maps each asset name to an asset of that name. */
  ghost predicate Indexed(assets: map<nat, Asset>, byName: map<string, nat>) {
    && (forall n :: n in byName ==> byName[n] in assets && assets[byName[n]].name == n)
    && (forall aid :: aid in assets ==> assets[aid].name in byName)
  }

  ghost function Seen(assets: map<nat, Asset>, rest: set<nat>): map<nat, Asset> {
    map aid | aid in assets && aid !in rest :: assets[aid]
  }

  lemma SeenOneMore(assets: map<nat, Asset>, rest: set<nat>, aid: nat)
    requires aid in rest && aid in assets
    ensures Seen(assets, rest - {aid}) == Seen(assets, rest)[aid := assets[aid]]
    ensures aid !in Seen(assets, rest)
  {
  }

  method IndexByName(assets: map<nat, Asset>) returns (byName: map<string, nat>)
    ensures Indexed(assets, byName)
    ensures |byName| == |assets| <==> DistinctNames(assets)
  {
    byName := map[];
    var rest := assets.Keys;
    ghost var seen: map<nat, Asset> := map[];
    while rest != {}
      invariant rest <= assets.Keys && seen == Seen(assets, rest)
      invariant Indexed(seen, byName)
      invariant |byName| <= |seen| && (|byName| == |seen| <==> DistinctNames(seen))
      decreases rest
    {
      var aid :| aid in rest;
      ghost var before := seen;
      seen := seen[aid := assets[aid]];
      IndexOneMore(before, byName, aid, assets[aid]);
      SeenOneMore(assets, rest, aid);
      byName := byName[assets[aid].name := aid];
      rest := rest - {aid};
    }
    assert seen == assets;
  }

  lemma IndexOneMore(seen: map<nat, Asset>, byName: map<string, nat>, aid: nat, a: Asset)
    requires aid !in seen && Indexed(seen, byName)
    requires |byName| <= |seen| && (|byName| == |seen| <==> DistinctNames(seen))
    ensures var seen', byName' := seen[aid := a], byName[a.name := aid];
            Indexed(seen', byName') && |byName'| <= |seen'| && (|byName'| == |seen'| <==> DistinctNames(seen'))
  {
    var seen', byName' := seen[aid := a], byName[a.name := aid];
    assert |seen'| == |seen| + 1;
    assert forall x :: x in seen ==> seen'[x] == seen[x];
    if a.name in byName {
      assert |byName'.Keys| == |byName.Keys| by {
        assert byName'.Keys == byName.Keys;
      }
      assert seen'[byName[a.name]].name == seen'[aid].name && byName[a.name] != aid;
    } else {
      assert |byName'| == |byName| + 1;
    }
  }

  /** Assets with distinct names, all of them names of files, are no more than the files. */
  lemma {:induction false} NoMoreThanFiles(assets: map<nat, Asset>, files: seq<File>)
    requires DistinctNames(assets)
    requires forall aid :: aid in assets ==> exists f :: f in files && f.name == assets[aid].name
    ensures |assets| <= |files|
    decreases |files|
  {
    if files == [] {
      assert assets.Keys == {};
    } else {
      var n := |files| - 1;
      var name := files[n].name;
      var fewer := map aid | aid in assets && assets[aid].name != name :: assets[aid];
      forall aid | aid in fewer ensures exists f :: f in files[..n] && f.name == fewer[aid].name {
        var f :| f in files && f.name == assets[aid].name;
        assert f in files[..n];
      }
      NoMoreThanFiles(fewer, files[..n]);
      AtMostOneLess(assets, fewer, name);
    }
  }

  lemma AtMostOneLess(assets: map<nat, Asset>, fewer: map<nat, Asset>, name: string)
    requires DistinctNames(assets) && fewer == map aid | aid in assets && assets[aid].name != name :: assets[aid]
    ensures |assets| <= |fewer| + 1
  {
    if x :| x in assets && assets[x].name == name {
      assert assets.Keys == fewer.Keys + {x};
    } else {
      assert assets.Keys == fewer.Keys;
    }
    assert |assets| == |assets.Keys| && |fewer| == |fewer.Keys|;
  }

  // ---- placing one file ----

  /** What the release must hold for a file for the run to go on. */
  ghost predicate FileFits(r: Release, f: File) {
    if r.draft
    then forall aid :: aid in r.assets && r.assets[aid].name == f.name ==>
           r.assets[aid].starter || Holds(r.assets[aid], f)
    else HasFile(r, f)
  }

  /** After the first `n` files: those are present, and for the others nothing has changed. */
  ghost predicate Placed(b: Bundle, r0: Release, r: Release, n: nat) {
    && n <= |b.files|
    && r.tagName == r0.tagName && r.body == r0.body && r.draft == r0.draft
    && Tidy(b, r)
    && (forall j {:trigger HasFile(r, b.files[j])} :: 0 <= j < n ==> HasFile(r, b.files[j]))
    && (forall j {:trigger SameFor(r0, r, b.files[j].name)} :: n <= j < |b.files| ==> SameFor(r0, r, b.files[j].name))
  }

  /** The two releases have the same assets of that name. */
  ghost predicate SameFor(r0: Release, r: Release, name: string) {
    forall aid ::
      (aid in r0.assets && r0.assets[aid].name == name) || (aid in r.assets && r.assets[aid].name == name) ==>
        aid in r0.assets && aid in r.assets && r.assets[aid] == r0.assets[aid]
  }

  lemma PlacedKeep(b: Bundle, r0: Release, r: Release, n: nat, aid: nat)
    requires Placed(b, r0, r, n) && n < |b.files| && aid in r.assets && Holds(r.assets[aid], b.files[n])
    ensures Placed(b, r0, r, n + 1)
  {
    assert HasFile(r, b.files[n]);
  }

  lemma OtherFileStays(r: Release, r': Release, f: File, aid: nat, name: string)
    requires HasFile(r, f) && f.name != name && (aid in r.assets ==> r.assets[aid].name == name)
    requires forall x :: x in r.assets && x != aid && r.assets[x].name != name ==>
               x in r'.assets && r'.assets[x] == r.assets[x]
    ensures HasFile(r', f)
  {
    var x :| x in r.assets && IsCopy(r.assets[x], f);
    assert IsCopy(r'.assets[x], f);
  }

  /** Replacing what carries the file's name, or adding it, keeps all other files as they were. */
  lemma PlacedFresh(b: Bundle, r0: Release, r: Release, r': Release, n: nat, aid: nat, a: Asset)
    requires ValidBundle(b) && Placed(b, r0, r, n) && n < |b.files| && Holds(a, b.files[n])
    requires r'.tagName == r.tagName && r'.body == r.body && r'.draft == r.draft
    requires forall x :: x in r'.assets <==> x == aid || (x in r.assets && r.assets[x].name != a.name)
    requires aid in r'.assets && r'.assets[aid] == a
    requires forall x :: x in r'.assets && x != aid ==> r'.assets[x] == r.assets[x]
    requires aid in r.assets ==> r.assets[aid].name == a.name
    ensures Placed(b, r0, r', n + 1)
  {
    assert HasFile(r', b.files[n]);
    forall x | x in r'.assets ensures NamesFile(b, r'.assets[x]) {
      if x != aid {
        assert NamesFile(b, r.assets[x]);
      } else {
        assert b.files[n] in b.files;
      }
    }
    forall j | 0 <= j < n ensures HasFile(r', b.files[j]) {
      assert HasFile(r, b.files[j]);
      assert b.files[j].name != b.files[n].name;
      OtherFileStays(r, r', b.files[j], aid, a.name);
    }
    forall j | n + 1 <= j < |b.files| ensures SameFor(r0, r', b.files[j].name) {
      assert SameFor(r0, r, b.files[j].name);
    }
  }

  lemma PlacedUpload(b: Bundle, r0: Release, r: Release, n: nat, s: Remote, t: Remote, id: nat, a: Asset)
    requires ValidBundle(b) && Placed(b, r0, r, n) && n < |b.files| && Holds(a, b.files[n])
    requires Uploaded(s, t, id, b.files[n], a)
    requires s.releases[id] == Without(r, a.name)
    ensures id in t.releases && Placed(b, r0, t.releases[id], n + 1)
  {
    var aid :| aid !in s.releases[id].assets && t == WithRelease(s, id, WithAsset(s.releases[id], aid, a));
    PlacedFresh(b, r0, r, t.releases[id], n, aid, a);
  }

  /** The release without the assets of that name. */
  ghost function Without(r: Release, name: string): Release {
    r.(assets := map aid | aid in r.assets && r.assets[aid].name != name :: r.assets[aid])
  }

  /** The release is still there and the tag where it was. */
  ghost predicate StillThere(s: Remote, t: Remote, id: nat) {
    id in t.releases && t.tag == s.tag
  }

  method DropStarter(g: GitHub, b: Bundle, id: nat, aid: nat) returns (ok: bool)
    requires g.Recording() && Lawful(b, g.honest, g.trace)
    requires id in g.state.releases && IsOurs(b, g.state.releases[id]) && g.state.releases[id].draft
    requires aid in g.state.releases[id].assets && g.state.releases[id].assets[aid].starter
    modifies g
    ensures g.Recording() && Lawful(b, g.honest, g.trace) && old(g.trace) <= g.trace && g.faults >= old(g.faults)
    ensures StillThere(old(g.state), g.state, id)
    ensures ok <==> g.faults == old(g.faults)
    ensures ok ==> g.state == WithRelease(old(g.state), id, WithoutAsset(old(g.state).releases[id], aid))
  {
    ghost var before, s := g.trace, g.state;
    var reply := g.DeleteAsset(id, aid);
    assert g.state == s || DeletesStarter(b, s, g.state);
    LawfulStep(b, g.honest, before, g.state);
    ok := reply.Ok?;
  }

  method UploadMissing(g: GitHub, b: Bundle, id: nat, f: File) returns (ok: bool)
    requires g.Recording() && Lawful(b, g.honest, g.trace) && f in b.files
    requires id in g.state.releases && IsOurs(b, g.state.releases[id]) && g.state.releases[id].draft
    requires forall aid :: aid in g.state.releases[id].assets ==> g.state.releases[id].assets[aid].name != f.name
    modifies g
    ensures g.Recording() && Lawful(b, g.honest, g.trace) && old(g.trace) <= g.trace && g.faults >= old(g.faults)
    ensures StillThere(old(g.state), g.state, id)
    ensures ok ==> g.faults == old(g.faults)
    ensures !ok && g.honest ==> g.faults > old(g.faults)
    ensures ok ==> exists a :: Uploaded(old(g.state), g.state, id, f, a) && Holds(a, f)
  {
    ghost var before, s := g.trace, g.state;
    var reply := g.Upload(id, f);
    assert Moves(b, g.honest, s, g.state) by {
      if reply.Ok? {
        assert AddsAsset(b, g.honest, s, g.state);
      } else if g.state != s {
        assert AddsAsset(b, g.honest, s, g.state);
      }
    }
    LawfulStep(b, g.honest, before, g.state);
    ok := reply.Ok? && reply.value.digest == f.digest && reply.value.size == f.size;
  }

  /** An indexed asset is still there; it is the only one of its name, and decides whether the run goes on. */
  lemma CurrentAsset(b: Bundle, r0: Release, r: Release, n: nat, byName: map<string, nat>)
    requires DistinctNames(r0.assets) && Indexed(r0.assets, byName) && n < |b.files| && Placed(b, r0, r, n)
    requires b.files[n].name in byName
    ensures var f, aid := b.files[n], byName[b.files[n].name];
            && aid in r.assets && r.assets[aid].name == f.name && WithoutAsset(r, aid) == Without(r, f.name)
            && (FileFits(r0, f) <==> (r0.draft && r.assets[aid].starter) || Holds(r.assets[aid], f))
  {
    var f, aid := b.files[n], byName[b.files[n].name];
    assert SameFor(r0, r, f.name);
    assert r.assets[aid] == r0.assets[aid];
    assert WithoutAsset(r, aid).assets == Without(r, f.name).assets;
    FitsByIndex(r0, f, byName);
  }

  lemma FitsByIndex(r: Release, f: File, byName: map<string, nat>)
    requires DistinctNames(r.assets) && Indexed(r.assets, byName) && f.name in byName
    ensures FileFits(r, f) <==> (r.draft && r.assets[byName[f.name]].starter) || Holds(r.assets[byName[f.name]], f)
  {
  }

  lemma MissingAsset(b: Bundle, r0: Release, r: Release, n: nat, byName: map<string, nat>)
    requires Indexed(r0.assets, byName) && n < |b.files| && Placed(b, r0, r, n) && b.files[n].name !in byName
    ensures r == Without(r, b.files[n].name) && (FileFits(r0, b.files[n]) <==> r0.draft)
  {
    assert SameFor(r0, r, b.files[n].name);
    assert r.assets == Without(r, b.files[n].name).assets;
  }

  method PlaceFile(g: GitHub, b: Bundle, id: nat, draft: bool, byName: map<string, nat>, n: nat, ghost r0: Release)
    returns (ok: bool)
    requires g.Recording() && Lawful(b, g.honest, g.trace) && ValidBundle(b) && n < |b.files|
    requires id in g.state.releases && IsOurs(b, r0) && draft == r0.draft
    requires DistinctNames(r0.assets) && Indexed(r0.assets, byName) && Placed(b, r0, g.state.releases[id], n)
    modifies g
    ensures g.Recording() && Lawful(b, g.honest, g.trace) && old(g.trace) <= g.trace && g.faults >= old(g.faults)
    ensures StillThere(old(g.state), g.state, id)
    ensures ok ==> g.faults == old(g.faults) && FileFits(r0, b.files[n]) && Placed(b, r0, g.state.releases[id], n + 1)
    ensures !ok && g.honest && g.faults == old(g.faults) ==> !FileFits(r0, b.files[n])
  {
    var f := b.files[n];
    ghost var r := g.state.releases[id];
    if f.name in byName {
      CurrentAsset(b, r0, r, n, byName);
      var aid := byName[f.name];
      var current := g.state.releases[id].assets[aid];
      if current.starter && draft {
        ok := DropStarter(g, b, id, aid);
        if !ok {
          return;
        }
      } else {
        ok := current.digest == f.digest && current.size == f.size;
        if ok {
          PlacedKeep(b, r0, r, n, aid);
        }
        return;
      }
    } else {
      MissingAsset(b, r0, r, n, byName);
    }
    if !draft {
      return false;
    }
    ok := Deliver(g, b, id, n, r0, r);
  }

  method Deliver(g: GitHub, b: Bundle, id: nat, n: nat, ghost r0: Release, ghost r: Release) returns (ok: bool)
    requires g.Recording() && Lawful(b, g.honest, g.trace) && ValidBundle(b) && n < |b.files|
    requires id in g.state.releases && IsOurs(b, r) && r.draft
    requires Placed(b, r0, r, n) && g.state.releases[id] == Without(r, b.files[n].name)
    modifies g
    ensures g.Recording() && Lawful(b, g.honest, g.trace) && old(g.trace) <= g.trace && g.faults >= old(g.faults)
    ensures StillThere(old(g.state), g.state, id)
    ensures ok ==> g.faults == old(g.faults) && Placed(b, r0, g.state.releases[id], n + 1)
    ensures !ok && g.honest ==> g.faults > old(g.faults)
  {
    ghost var s := g.state;
    ok := UploadMissing(g, b, id, b.files[n]);
    if ok {
      ghost var a :| Uploaded(s, g.state, id, b.files[n], a) && Holds(a, b.files[n]);
      PlacedUpload(b, r0, r, n, s, g.state, id, a);
    }
  }

  // ---- the whole run ----

  /** A release fits exactly when its body does and every file passes. */
  lemma FitsFileByFile(b: Bundle, r: Release)
    requires ValidBundle(b)
    ensures ReleaseFits(b, r) <==> r.body == b.body && Tidy(b, r) && AllFit(b, r)
  {
    if ReleaseFits(b, r) && r.draft {
      forall j, aid | 0 <= j < |b.files| && aid in r.assets && r.assets[aid].name == b.files[j].name
        ensures r.assets[aid].starter || Holds(r.assets[aid], b.files[j])
      {
        assert AssetFits(b, r, r.assets[aid]);
      }
    }
    if r.body == b.body && Tidy(b, r) && AllFit(b, r) {
      forall f | f in b.files ensures FileFits(r, f) {
        var j :| 0 <= j < |b.files| && b.files[j] == f;
        assert FileFits(r, b.files[j]);
      }
      forall aid | aid in r.assets ensures AssetFits(b, r, r.assets[aid]) {
        assert NamesFile(b, r.assets[aid]);
        var f :| f in b.files && f.name == r.assets[aid].name;
        assert FileFits(r, f);
        if !r.draft {
          ExactAssets(b, r, aid);
        }
      }
    }
  }

  /** Checks the listed assets of a release, and indexes them by name. */
  method ListAndCheck(g: GitHub, b: Bundle, id: nat) returns (ok: bool, byName: map<string, nat>)
    requires g.Recording() && ValidBundle(b) && id in g.state.releases
    modifies g`faults
    ensures g.Recording() && g.faults >= old(g.faults)
    ensures ok ==>
              g.faults == old(g.faults) && Tidy(b, g.state.releases[id]) && Indexed(g.state.releases[id].assets, byName)
    ensures !ok && g.faults == old(g.faults) ==> !Tidy(b, g.state.releases[id])
  {
    ghost var r := g.state.releases[id];
    if Tidy(b, r) {
      NoMoreThanFiles(r.assets, b.files);
    }
    var reply := g.ListAssets(id);
    ok, byName := false, map[];
    if reply.Failed? || |reply.value| > |b.files| {
      return;
    }
    byName := IndexByName(reply.value);
    var names := set f | f in b.files :: f.name;
    ok := |byName| == |reply.value| && byName.Keys <= names;
    if ok {
      forall aid | aid in r.assets ensures NamesFile(b, r.assets[aid]) {
        assert r.assets[aid].name in names;
      }
    }
  }

  /** Finds our release, or creates a draft if there is none. */
  method ObtainRelease(g: GitHub, b: Bundle) returns (ok: bool, id: nat)
    requires g.Recording() && Lawful(b, g.honest, g.trace)
    modifies g
    ensures g.Recording() && Lawful(b, g.honest, g.trace) && old(g.trace) <= g.trace && g.faults >= old(g.faults)
    ensures g.state.tag == old(g.state).tag
    ensures ok ==> g.faults == old(g.faults) && id in g.state.releases && IsOurs(b, g.state.releases[id])
    ensures ok && g.state != old(g.state) ==>
      && (forall x :: x in old(g.state).releases ==> !IsOurs(b, old(g.state).releases[x]))
      && g.state.releases[id] == Release(b.tag, b.body, true, map[])
    ensures !ok && g.faults == old(g.faults) ==> !OnlyOne(b, old(g.state))
  {
    var found: Option<nat>;
    ok, found := FindRelease(g, b);
    id := 0;
    if !ok {
      return;
    }
    if found.Some? {
      id := found.value;
      return;
    }
    ghost var before, s := g.trace, g.state;
    var reply := g.CreateRelease(b.tag, b.body);
    assert g.state == s || CreatesRelease(b, s, g.state);
    LawfulStep(b, g.honest, before, g.state);
    ok := reply.Ok?;
    if ok {
      id := reply.value;
    }
  }

  /** Brings one release of ours to its published form, file by file. */
  method FinishRelease(g: GitHub, b: Bundle, id: nat) returns (ok: bool)
    requires g.Recording() && Lawful(b, g.honest, g.trace) && ValidBundle(b)
    requires id in g.state.releases && IsOurs(b, g.state.releases[id])
    modifies g
    ensures g.Recording() && Lawful(b, g.honest, g.trace) && old(g.trace) <= g.trace && g.faults >= old(g.faults)
    ensures StillThere(old(g.state), g.state, id)
    ensures ok ==> g.faults == old(g.faults) && ReleaseFits(b, old(g.state).releases[id])
    ensures ok ==> IsOurs(b, g.state.releases[id]) && !g.state.releases[id].draft && Exact(b, g.state.releases[id])
    ensures !ok && g.honest && g.faults == old(g.faults) ==> !ReleaseFits(b, old(g.state).releases[id])
  {
    ghost var s0, r0 := g.state, g.state.releases[id];
    FitsFileByFile(b, r0);
    if g.state.releases[id].body != b.body {
      return false;
    }
    var draft := g.state.releases[id].draft;
    var byName;
    ok, byName := ListAndCheck(g, b, id);
    if !ok {
      return;
    }
    assert Placed(b, r0, g.state.releases[id], 0);
    ok := PlaceFiles(g, b, id, draft, byName, r0);
    if !ok {
      return;
    }
    AllPlaced(b, r0, g.state.releases[id]);
    if draft {
      ok := PublishDraft(g, b, id);
    }
  }

  lemma AllPlaced(b: Bundle, r0: Release, r: Release)
    requires Placed(b, r0, r, |b.files|) && r0.body == b.body
    ensures Exact(b, r)
  {
  }

  ghost predicate AllFit(b: Bundle, r: Release) {
    forall j {:trigger FileFits(r, b.files[j])} :: 0 <= j < |b.files| ==> FileFits(r, b.files[j])
  }

  method PlaceFiles(g: GitHub, b: Bundle, id: nat, draft: bool, byName: map<string, nat>, ghost r0: Release)
    returns (ok: bool)
    requires g.Recording() && Lawful(b, g.honest, g.trace) && ValidBundle(b)
    requires id in g.state.releases && IsOurs(b, r0) && draft == r0.draft
    requires DistinctNames(r0.assets) && Indexed(r0.assets, byName) && Placed(b, r0, g.state.releases[id], 0)
    modifies g
    ensures g.Recording() && Lawful(b, g.honest, g.trace) && old(g.trace) <= g.trace && g.faults >= old(g.faults)
    ensures StillThere(old(g.state), g.state, id)
    ensures ok ==> g.faults == old(g.faults) && AllFit(b, r0) && Placed(b, r0, g.state.releases[id], |b.files|)
    ensures !ok && g.honest && g.faults == old(g.faults) ==> !AllFit(b, r0)
  {
    for n := 0 to |b.files|
      invariant g.Recording() && Lawful(b, g.honest, g.trace) && old(g.trace) <= g.trace && g.faults == old(g.faults)
      invariant StillThere(old(g.state), g.state, id)
      invariant Placed(b, r0, g.state.releases[id], n)
      invariant forall j {:trigger FileFits(r0, b.files[j])} :: 0 <= j < n ==> FileFits(r0, b.files[j])
    {
      ok := PlaceFile(g, b, id, draft, byName, n, r0);
      if !ok {
        return;
      }
    }
    ok := true;
  }

  method PublishDraft(g: GitHub, b: Bundle, id: nat) returns (ok: bool)
    requires g.Recording() && Lawful(b, g.honest, g.trace)
    requires id in g.state.releases && IsOurs(b, g.state.releases[id]) && g.state.releases[id].draft
    requires Exact(b, g.state.releases[id])
    modifies g
    ensures g.Recording() && Lawful(b, g.honest, g.trace) && old(g.trace) <= g.trace
    ensures StillThere(old(g.state), g.state, id)
    ensures if ok then g.faults == old(g.faults) else g.faults > old(g.faults)
    ensures ok ==> IsOurs(b, g.state.releases[id]) && !g.state.releases[id].draft && Exact(b, g.state.releases[id])
  {
    ghost var before, s := g.trace, g.state;
    var reply := g.PublishRelease(id);
    assert g.state == s || Publishes(b, s, g.state);
    LawfulStep(b, g.honest, before, g.state);
    ok := reply.Ok?;
    if ok {
      ExactWithoutDraft(b, s.releases[id], g.state.releases[id]);
    }
  }

  /**
   * One run. Whatever fails and wherever, every change is a lawful step. A run that finishes leaves the
   * bundle published; from a safe state it can only finish if the state was ready, and it does finish
   * from every ready state if the store is honest and no call fails.
   */
  method PublishGithub(g: GitHub, b: Bundle) returns (done: bool)
    requires g.Recording() && Lawful(b, g.honest, g.trace) && ValidBundle(b)
    modifies g
    ensures g.Recording() && Lawful(b, g.honest, g.trace) && old(g.trace) <= g.trace && g.faults >= old(g.faults)
    ensures done ==> Completed(b, g.state)
    ensures done && Safe(b, old(g.state)) ==> Ready(b, old(g.state))
    ensures Safe(b, old(g.state)) && Ready(b, old(g.state)) && g.honest && g.faults == old(g.faults) ==> done
  {
    done := EnsureTag(g, b);
    if !done {
      return;
    }
    ghost var s := g.state;
    var id;
    done, id := ObtainRelease(g, b);
    if !done {
      return;
    }
    ghost var t := g.state;
    EmptyDraftFits(b);
    done := FinishRelease(g, b, id);
  }

  lemma EmptyDraftFits(b: Bundle)
    ensures ReleaseFits(b, Release(b.tag, b.body, true, map[]))
  {
  }

  /**
   * Any number of runs from a store without the bundle, each cut off anywhere, and one last run. In every
   * state passed through, a published release of the bundle is exact; from then on nothing changes; and
   * with an honest store the last run succeeds if none of its own calls fails.
   */
  method PublishUntilDone(g: GitHub, b: Bundle, attempts: nat) returns (done: bool, ghost clean: bool)
    requires g.Recording() && |g.trace| == 1 && ValidBundle(b) && Untouched(b, g.state)
    modifies g
    ensures Lawful(b, g.honest, g.trace) && g.Recording()
    ensures HistoryHolds(b, g.trace)
    ensures done ==> Completed(b, g.state)
    ensures g.honest && clean ==> done
  {
    Attempt(g, b, attempts);
    ghost var before := g.faults;
    LastStateIsReady(b, g.honest, g.trace);
    done := PublishGithub(g, b);
    clean := g.faults == before;
    WholeHistory(b, g.honest, g.trace);
  }

  /** Runs in a row, whatever becomes of each. */
  method Attempt(g: GitHub, b: Bundle, attempts: nat)
    requires g.Recording() && ValidBundle(b) && Lawful(b, g.honest, g.trace)
    modifies g
    ensures g.Recording() && Lawful(b, g.honest, g.trace) && old(g.trace) <= g.trace
  {
    for n := 0 to attempts
      invariant g.Recording() && Lawful(b, g.honest, g.trace) && old(g.trace) <= g.trace
    {
      var _ := PublishGithub(g, b);
    }
  }

  lemma LastStateIsReady(b: Bundle, honest: bool, trace: seq<Remote>)
    requires ValidBundle(b) && Lawful(b, honest, trace) && trace != [] && Untouched(b, trace[0])
    ensures Safe(b, trace[|trace| - 1]) && (honest ==> Ready(b, trace[|trace| - 1]))
  {
    UntouchedIsReady(b, trace[0]);
    HistoryIsSafe(b, honest, trace, 0, |trace| - 1);
    if honest {
      ReachableIsReady(b, trace, |trace| - 1);
    }
  }

  /** Every state is safe, nothing is lost on the way, and nothing changes once the bundle is published. */
  ghost predicate HistoryHolds(b: Bundle, trace: seq<Remote>) {
    && (forall j {:trigger Safe(b, trace[j])} :: 0 <= j < |trace| ==> Safe(b, trace[j]))
    && (forall i, j {:trigger Preserves(b, trace[i], trace[j])} ::
          0 <= i <= j < |trace| ==> Preserves(b, trace[i], trace[j]))
    && (forall i, j {:trigger Completed(b, trace[i]), trace[j]} ::
          0 <= i <= j < |trace| && Completed(b, trace[i]) ==> trace[j] == trace[i])
  }

  lemma WholeHistory(b: Bundle, honest: bool, trace: seq<Remote>)
    requires Lawful(b, honest, trace) && trace != [] && Untouched(b, trace[0])
    ensures HistoryHolds(b, trace)
  {
    UntouchedIsReady(b, trace[0]);
    forall i, j | 0 <= i <= j < |trace|
      ensures Safe(b, trace[i]) && Preserves(b, trace[i], trace[j]) && (Completed(b, trace[i]) ==> trace[j] == trace[i])
    {
      HistoryIsSafe(b, honest, trace, 0, i);
      HistoryIsSafe(b, honest, trace, i, j);
      if Completed(b, trace[i]) {
        CompletedIsFinal(b, honest, trace, i, j);
      }
    }
  }
}
