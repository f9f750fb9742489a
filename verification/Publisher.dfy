/**
 * Publishing a bundle as a release: the steps of `publish_github`, cut off anywhere and run again, and
 * what holds in every state that any sequence of runs passes through.
 */
module Publisher {
  import opened Pointers
  import opened ReleaseStore

  // ---- what a release of the bundle looks like ----

  predicate IsOurs(b: Bundle, r: Release) {
    r.tagName == b.tag
  }

  ghost predicate DistinctNames(assets: map<nat, Asset>) {
    forall x, y :: x in assets && y in assets && assets[x].name == assets[y].name ==> x == y
  }

  ghost predicate NamesFile(b: Bundle, a: Asset) {
    exists f :: f in b.files && f.name == a.name
  }

  ghost predicate HasFile(r: Release, f: File) {
    exists aid :: aid in r.assets && IsCopy(r.assets[aid], f)
  }

  /** Name, digest and size are those of the file. */
  ghost predicate IsCopy(a: Asset, f: File) {
    a.name == f.name && a.digest == f.digest && a.size == f.size
  }

  /** Only assets of the bundle's files, at most one each. */
  ghost predicate Tidy(b: Bundle, r: Release) {
    DistinctNames(r.assets) && forall aid :: aid in r.assets ==> NamesFile(b, r.assets[aid])
  }

  /** Exactly the expected assets, with the right digests and sizes. */
  ghost predicate Exact(b: Bundle, r: Release) {
    r.body == b.body && Tidy(b, r) && forall f :: f in b.files ==> HasFile(r, f)
  }

  /** In an exact release every asset is one of the files, byte for byte. */
  lemma ExactAssets(b: Bundle, r: Release, aid: nat)
    requires ValidBundle(b) && Exact(b, r) && aid in r.assets
    ensures exists f :: f in b.files && IsCopy(r.assets[aid], f)
  {
    assert NamesFile(b, r.assets[aid]);
    var f :| f in b.files && f.name == r.assets[aid].name;
    assert HasFile(r, f);
    var x :| x in r.assets && IsCopy(r.assets[x], f);
    assert x == aid;
  }

  // ---- the steps a publisher takes ----

  ghost predicate CreatesTag(b: Bundle, s: Remote, t: Remote) {
    s.tag.None? && t == WithTag(s, b.revision)
  }

  ghost predicate CreatesRelease(b: Bundle, s: Remote, t: Remote) {
    && (forall id :: id in s.releases ==> !IsOurs(b, s.releases[id]))
    && exists id :: id !in s.releases && t == WithNewRelease(s, id, Release(b.tag, b.body, true, map[]))
  }

  /** Deletes a starter from our draft. */
  ghost predicate DeletesStarter(b: Bundle, s: Remote, t: Remote) {
    exists id, aid ::
      && id in s.releases && IsOurs(b, s.releases[id]) && s.releases[id].draft
      && aid in s.releases[id].assets && s.releases[id].assets[aid].starter
      && t == WithRelease(s, id, WithoutAsset(s.releases[id], aid))
  }

  /** Adds a missing asset to our draft; from an honest store it is a starter or the right file. */
  ghost predicate AddsAsset(b: Bundle, honest: bool, s: Remote, t: Remote) {
    exists id, f: File, a ::
      && id in s.releases && IsOurs(b, s.releases[id]) && s.releases[id].draft
      && f in b.files && (forall aid :: aid in s.releases[id].assets ==> s.releases[id].assets[aid].name != f.name)
      && Uploaded(s, t, id, f, a) && (honest ==> a.starter || Holds(a, f))
  }

  /** Publishes our draft when it is exact. */
  ghost predicate Publishes(b: Bundle, s: Remote, t: Remote) {
    exists id ::
      && id in s.releases && IsOurs(b, s.releases[id]) && s.releases[id].draft && Exact(b, s.releases[id])
      && t == WithRelease(s, id, s.releases[id].(draft := false))
  }

  ghost predicate Moves(b: Bundle, honest: bool, s: Remote, t: Remote) {
    || t == s
    || CreatesTag(b, s, t)
    || CreatesRelease(b, s, t)
    || DeletesStarter(b, s, t)
    || AddsAsset(b, honest, s, t)
    || Publishes(b, s, t)
  }

  /** A history in which every change is a publisher's step. */
  ghost predicate Lawful(b: Bundle, honest: bool, trace: seq<Remote>) {
    forall i, j {:trigger Moves(b, honest, trace[i], trace[j])} ::
      0 <= i && j == i + 1 && j < |trace| ==> Moves(b, honest, trace[i], trace[j])
  }

  // ---- what every step keeps ----

  /** At most one release carries the bundle's tag, and if it is published it is exact. */
  ghost predicate Safe(b: Bundle, s: Remote) {
    && (forall x, y ::
          x in s.releases && y in s.releases && s.releases[x].tagName == b.tag && s.releases[y].tagName == b.tag ==>
            x == y)
    && (forall id ::
          id in s.releases && s.releases[id].tagName == b.tag && !s.releases[id].draft ==> Exact(b, s.releases[id]))
  }

  lemma StepKeepsSafe(b: Bundle, honest: bool, s: Remote, t: Remote)
    requires Safe(b, s) && Moves(b, honest, s, t)
    ensures Safe(b, t)
  {
    if t == s || CreatesTag(b, s, t) || CreatesRelease(b, s, t) {
    } else if DeletesStarter(b, s, t) {
      var id, aid :| id in s.releases && IsOurs(b, s.releases[id]) && s.releases[id].draft
        && aid in s.releases[id].assets && s.releases[id].assets[aid].starter
        && t == WithRelease(s, id, WithoutAsset(s.releases[id], aid));
      SafeAfterChange(b, s, id, WithoutAsset(s.releases[id], aid));
    } else if AddsAsset(b, honest, s, t) {
      var id, f: File, a :| id in s.releases && IsOurs(b, s.releases[id]) && s.releases[id].draft
        && f in b.files && (forall aid :: aid in s.releases[id].assets ==> s.releases[id].assets[aid].name != f.name)
        && Uploaded(s, t, id, f, a) && (honest ==> a.starter || Holds(a, f));
      var aid :| aid !in s.releases[id].assets && t == WithRelease(s, id, WithAsset(s.releases[id], aid, a));
      SafeAfterChange(b, s, id, WithAsset(s.releases[id], aid, a));
    } else {
      var id :| id in s.releases && IsOurs(b, s.releases[id]) && s.releases[id].draft && Exact(b, s.releases[id])
        && t == WithRelease(s, id, s.releases[id].(draft := false));
      ExactWithoutDraft(b, s.releases[id], s.releases[id].(draft := false));
      SafeAfterChange(b, s, id, s.releases[id].(draft := false));
    }
  }

  lemma SafeAfterChange(b: Bundle, s: Remote, id: nat, r: Release)
    requires Safe(b, s) && id in s.releases && IsOurs(b, s.releases[id]) && IsOurs(b, r) && (r.draft || Exact(b, r))
    ensures Safe(b, WithRelease(s, id, r))
  {
  }

  /** The tag stays where it is; published releases and releases of other tags stay as they are. */
  ghost predicate Preserves(b: Bundle, s: Remote, t: Remote) {
    && (s.tag.Some? ==> t.tag == s.tag)
    && (forall id :: id in s.releases && (!IsOurs(b, s.releases[id]) || !s.releases[id].draft) ==>
          id in t.releases && t.releases[id] == s.releases[id])
    && (forall id :: id in s.releases ==>
          id in t.releases && t.releases[id].tagName == s.releases[id].tagName &&
          t.releases[id].body == s.releases[id].body)
    && (forall id :: id in t.releases && id !in s.releases ==> IsOurs(b, t.releases[id]))
  }

  lemma StepPreserves(b: Bundle, honest: bool, s: Remote, t: Remote)
    requires Moves(b, honest, s, t)
    ensures Preserves(b, s, t)
  {
    if t == s || CreatesTag(b, s, t) || CreatesRelease(b, s, t) {
    } else if DeletesStarter(b, s, t) {
      var id, aid :| id in s.releases && IsOurs(b, s.releases[id]) && s.releases[id].draft
        && aid in s.releases[id].assets && s.releases[id].assets[aid].starter
        && t == WithRelease(s, id, WithoutAsset(s.releases[id], aid));
      DraftChangePreserves(b, s, id, WithoutAsset(s.releases[id], aid));
    } else if AddsAsset(b, honest, s, t) {
      var id, f: File, a :| id in s.releases && IsOurs(b, s.releases[id]) && s.releases[id].draft
        && f in b.files && (forall aid :: aid in s.releases[id].assets ==> s.releases[id].assets[aid].name != f.name)
        && Uploaded(s, t, id, f, a) && (honest ==> a.starter || Holds(a, f));
      var aid :| aid !in s.releases[id].assets && t == WithRelease(s, id, WithAsset(s.releases[id], aid, a));
      DraftChangePreserves(b, s, id, WithAsset(s.releases[id], aid, a));
    } else {
      var id :| id in s.releases && IsOurs(b, s.releases[id]) && s.releases[id].draft && Exact(b, s.releases[id])
        && t == WithRelease(s, id, s.releases[id].(draft := false));
      DraftChangePreserves(b, s, id, s.releases[id].(draft := false));
    }
  }

  lemma DraftChangePreserves(b: Bundle, s: Remote, id: nat, r: Release)
    requires id in s.releases && IsOurs(b, s.releases[id]) && s.releases[id].draft
    requires r.tagName == s.releases[id].tagName && r.body == s.releases[id].body
    ensures Preserves(b, s, WithRelease(s, id, r))
  {
  }

  lemma PreservesTransitive(b: Bundle, s: Remote, t: Remote, u: Remote)
    requires Preserves(b, s, t) && Preserves(b, t, u)
    ensures Preserves(b, s, u)
  {
  }

  /**
   * Over any history of publisher's steps, from any safe state: every state is safe, the tag never moves,
   * and a published release, like any release of another tag, is never changed again.
   */
  lemma {:induction false} HistoryIsSafe(b: Bundle, honest: bool, trace: seq<Remote>, i: nat, j: nat)
    requires Lawful(b, honest, trace) && i <= j < |trace| && Safe(b, trace[i])
    ensures Safe(b, trace[j]) && Preserves(b, trace[i], trace[j])
    decreases j
  {
    if i < j {
      var s, t, u := trace[i], trace[j - 1], trace[j];
      HistoryIsSafe(b, honest, trace, i, j - 1);
      StepKeepsSafe(b, honest, t, u);
      StepPreserves(b, honest, t, u);
      PreservesTransitive(b, s, t, u);
    }
  }

  // ---- states from which a run can finish ----

  /** The tag is free or at the bundle's revision. */
  ghost predicate TagFits(b: Bundle, s: Remote) {
    s.tag.None? || s.tag == Some(TagRef(true, b.revision))
  }

  /** An asset is acceptable: the right file, or a starter that a draft may replace. */
  ghost predicate AssetFits(b: Bundle, r: Release, a: Asset) {
    (r.draft && a.starter) || exists f :: f in b.files && Holds(a, f)
  }

  ghost predicate ReleaseFits(b: Bundle, r: Release) {
    && r.body == b.body && Tidy(b, r)
    && (forall aid :: aid in r.assets ==> AssetFits(b, r, r.assets[aid]))
    && (!r.draft ==> Exact(b, r))
  }

  ghost predicate Ready(b: Bundle, s: Remote) {
    TagFits(b, s) && forall id :: id in s.releases && IsOurs(b, s.releases[id]) ==> ReleaseFits(b, s.releases[id])
  }

  /** No trace of the bundle yet. */
  ghost predicate Untouched(b: Bundle, s: Remote) {
    s.tag.None? && forall id :: id in s.releases ==> !IsOurs(b, s.releases[id])
  }

  lemma UntouchedIsReady(b: Bundle, s: Remote)
    requires Untouched(b, s)
    ensures Safe(b, s) && Ready(b, s)
  {
  }

  /** Changing one draft of ours, and nothing else. */
  lemma ReadyAfterChange(b: Bundle, s: Remote, id: nat, r: Release)
    requires Ready(b, s) && id in s.releases && ReleaseFits(b, r)
    ensures Ready(b, WithRelease(s, id, r))
  {
  }

  lemma HonestStepKeepsReady(b: Bundle, s: Remote, t: Remote)
    requires ValidBundle(b) && Safe(b, s) && Ready(b, s) && Moves(b, true, s, t)
    ensures Ready(b, t)
  {
    if DeletesStarter(b, s, t) {
      ReadyWithoutStarter(b, s, t);
    } else if AddsAsset(b, true, s, t) {
      ReadyWithAsset(b, s, t);
    } else if Publishes(b, s, t) {
      ReadyPublished(b, s, t);
    } else {
      ReadyCreated(b, s, t);
    }
  }

  lemma ReadyCreated(b: Bundle, s: Remote, t: Remote)
    requires Ready(b, s) && (t == s || CreatesTag(b, s, t) || CreatesRelease(b, s, t))
    ensures Ready(b, t)
  {
  }

  lemma ReadyWithoutStarter(b: Bundle, s: Remote, t: Remote)
    requires Ready(b, s) && DeletesStarter(b, s, t)
    ensures Ready(b, t)
  {
    var id, aid :| id in s.releases && IsOurs(b, s.releases[id]) && s.releases[id].draft
      && aid in s.releases[id].assets && s.releases[id].assets[aid].starter
      && t == WithRelease(s, id, WithoutAsset(s.releases[id], aid));
    LessAssetFits(b, s.releases[id], aid);
    ReadyAfterChange(b, s, id, WithoutAsset(s.releases[id], aid));
  }

  lemma ReadyWithAsset(b: Bundle, s: Remote, t: Remote)
    requires Ready(b, s) && AddsAsset(b, true, s, t)
    ensures Ready(b, t)
  {
    var id, f: File, a :| id in s.releases && IsOurs(b, s.releases[id]) && s.releases[id].draft
      && f in b.files && (forall aid :: aid in s.releases[id].assets ==> s.releases[id].assets[aid].name != f.name)
      && Uploaded(s, t, id, f, a) && (true ==> a.starter || Holds(a, f));
    var aid :| aid !in s.releases[id].assets && t == WithRelease(s, id, WithAsset(s.releases[id], aid, a));
    AddedAssetFits(b, s.releases[id], aid, f, a);
    ReadyAfterChange(b, s, id, WithAsset(s.releases[id], aid, a));
  }

  lemma ReadyPublished(b: Bundle, s: Remote, t: Remote)
    requires ValidBundle(b) && Ready(b, s) && Publishes(b, s, t)
    ensures Ready(b, t)
  {
    var id :| id in s.releases && IsOurs(b, s.releases[id]) && s.releases[id].draft && Exact(b, s.releases[id])
      && t == WithRelease(s, id, s.releases[id].(draft := false));
    PublishedFits(b, s.releases[id], s.releases[id].(draft := false));
    ReadyAfterChange(b, s, id, s.releases[id].(draft := false));
  }

  lemma LessAssetFits(b: Bundle, r: Release, aid: nat)
    requires ReleaseFits(b, r) && r.draft
    ensures ReleaseFits(b, WithoutAsset(r, aid))
  {
    var r' := WithoutAsset(r, aid);
    forall x | x in r'.assets ensures NamesFile(b, r'.assets[x]) && AssetFits(b, r', r'.assets[x]) {
      assert r'.assets[x] == r.assets[x] && NamesFile(b, r.assets[x]) && AssetFits(b, r, r.assets[x]);
    }
  }

  lemma PublishedFits(b: Bundle, r: Release, r': Release)
    requires ValidBundle(b) && Exact(b, r) && r'.body == r.body && r'.assets == r.assets
    ensures ReleaseFits(b, r')
  {
    ExactWithoutDraft(b, r, r');
    forall x | x in r'.assets ensures AssetFits(b, r', r'.assets[x]) {
      ExactAssets(b, r', x);
    }
  }

  lemma AddedAssetFits(b: Bundle, r: Release, aid: nat, f: File, a: Asset)
    requires ReleaseFits(b, r) && r.draft && aid !in r.assets && f in b.files && a.name == f.name
    requires forall x :: x in r.assets ==> r.assets[x].name != f.name
    requires a.starter || Holds(a, f)
    ensures ReleaseFits(b, WithAsset(r, aid, a))
  {
    var r' := WithAsset(r, aid, a);
    forall x | x in r'.assets ensures NamesFile(b, r'.assets[x]) && AssetFits(b, r', r'.assets[x]) {
      if x != aid {
        assert NamesFile(b, r.assets[x]) && AssetFits(b, r, r.assets[x]);
      }
    }
  }

  lemma ExactWithoutDraft(b: Bundle, r: Release, r': Release)
    requires Exact(b, r) && r'.body == r.body && r'.assets == r.assets
    ensures Exact(b, r')
  {
    forall f | f in b.files ensures HasFile(r', f) {
      assert HasFile(r, f);
    }
    forall x | x in r'.assets ensures NamesFile(b, r'.assets[x]) {
      assert NamesFile(b, r.assets[x]);
    }
  }

  /** With an honest store, every state that any history reaches from an untouched store is ready. */
  lemma {:induction false} ReachableIsReady(b: Bundle, trace: seq<Remote>, j: nat)
    requires ValidBundle(b) && Lawful(b, true, trace) && j < |trace| && Untouched(b, trace[0])
    ensures Safe(b, trace[j]) && Ready(b, trace[j])
  {
    UntouchedIsReady(b, trace[0]);
    HistoryIsSafe(b, true, trace, 0, j);
    if j > 0 {
      ReachableIsReady(b, trace, j - 1);
      HonestStepKeepsReady(b, trace[j - 1], trace[j]);
    }
  }

  // ---- a store that alters what it is sent ----

  /** A draft of ours has an asset that is neither a starter nor one of the files. */
  ghost predicate SpoiledBy(b: Bundle, s: Remote, id: nat, aid: nat) {
    && id in s.releases && IsOurs(b, s.releases[id]) && s.releases[id].draft
    && aid in s.releases[id].assets && !s.releases[id].assets[aid].starter
    && forall f :: f in b.files ==> !Holds(s.releases[id].assets[aid], f)
  }

  lemma SpoiledIsNotReady(b: Bundle, s: Remote, id: nat, aid: nat)
    requires SpoiledBy(b, s, id, aid)
    ensures !Ready(b, s)
  {
    assert !AssetFits(b, s.releases[id], s.releases[id].assets[aid]);
    assert !ReleaseFits(b, s.releases[id]);
  }

  /** No step of any publisher mends it: the asset is no starter, and the draft is never exact. */
  lemma SpoiledStays(b: Bundle, honest: bool, s: Remote, t: Remote, id: nat, aid: nat)
    requires ValidBundle(b) && SpoiledBy(b, s, id, aid) && Moves(b, honest, s, t)
    ensures SpoiledBy(b, t, id, aid)
  {
    if AddsAsset(b, honest, s, t) {
      var x, f: File, a :| x in s.releases && IsOurs(b, s.releases[x]) && s.releases[x].draft
        && f in b.files && (forall y :: y in s.releases[x].assets ==> s.releases[x].assets[y].name != f.name)
        && Uploaded(s, t, x, f, a) && (honest ==> a.starter || Holds(a, f));
      var y :| y !in s.releases[x].assets && t == WithRelease(s, x, WithAsset(s.releases[x], y, a));
    } else if Publishes(b, s, t) {
      var x :| x in s.releases && IsOurs(b, s.releases[x]) && s.releases[x].draft && Exact(b, s.releases[x])
        && t == WithRelease(s, x, s.releases[x].(draft := false));
      if x == id {
        ExactAssets(b, s.releases[id], aid);
      }
    }
  }

  lemma {:induction false} SpoiledForGood(b: Bundle, honest: bool, trace: seq<Remote>, i: nat, j: nat, id: nat,
                                          aid: nat)
    requires ValidBundle(b) && Lawful(b, honest, trace) && i <= j < |trace| && SpoiledBy(b, trace[i], id, aid)
    ensures SpoiledBy(b, trace[j], id, aid) && !Ready(b, trace[j])
    decreases j
  {
    if i < j {
      SpoiledForGood(b, honest, trace, i, j - 1, id, aid);
      assert Moves(b, honest, trace[j - 1], trace[j]);
      SpoiledStays(b, honest, trace[j - 1], trace[j], id, aid);
    }
    SpoiledIsNotReady(b, trace[j], id, aid);
  }

  /** From a store without the bundle, a first run whose first upload is altered reaches such a state. */
  lemma SpoiledIsReachable(b: Bundle, s: Remote, id: nat, digest: string)
    requires ValidBundle(b) && Untouched(b, s) && b.files != [] && id !in s.releases
    requires forall f :: f in b.files ==> f.digest != digest
    ensures var f := b.files[0];
            var tagged := WithTag(s, b.revision);
            var empty := Release(b.tag, b.body, true, map[]);
            var drafted := WithNewRelease(tagged, id, empty);
            var spoiled := WithRelease(drafted, id, WithAsset(empty, 0, Asset(f.name, false, digest, f.size)));
            Lawful(b, false, [s, tagged, drafted, spoiled]) && Safe(b, spoiled) && SpoiledBy(b, spoiled, id, 0)
  {
    var f := b.files[0];
    var tagged := WithTag(s, b.revision);
    var empty := Release(b.tag, b.body, true, map[]);
    var drafted := WithNewRelease(tagged, id, empty);
    var a := Asset(f.name, false, digest, f.size);
    var spoiled := WithRelease(drafted, id, WithAsset(empty, 0, a));
    assert CreatesTag(b, s, tagged);
    assert CreatesRelease(b, tagged, drafted);
    assert drafted.releases[id] == empty && f in b.files;
    assert Uploaded(drafted, spoiled, id, f, a);
    assert AddsAsset(b, false, drafted, spoiled);
    UntouchedIsReady(b, s);
    HistoryIsSafe(b, false, [s, tagged, drafted, spoiled], 0, 3);
  }
}
