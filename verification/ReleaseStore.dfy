/**
 * The remote release store as one publisher sees it: a tag, releases with draft flags, and assets.
 * Every call may fail, with or without having taken effect; `trace` records every state passed through.
 */
module ReleaseStore {
  import opened Pointers

  datatype TagRef = TagRef(isCommit: bool, sha: string)

  datatype Asset = Asset(name: string, starter: bool, digest: string, size: nat)

  datatype Release = Release(tagName: string, body: string, draft: bool, assets: map<nat, Asset>)

  /** `tag` is the reference of the bundle's own tag; `listing` is the order in which releases are listed. */
  datatype Remote = Remote(tag: Option<TagRef>, releases: map<nat, Release>, listing: seq<nat>)

  datatype File = File(name: string, digest: string, size: nat)

  /** What one publisher wants to publish. */
  datatype Bundle = Bundle(tag: string, revision: string, body: string, files: seq<File>)

  /** The files have distinct names and fit on one page of assets. */
  ghost predicate ValidBundle(b: Bundle) {
    |b.files| < 100 && forall i, j :: 0 <= i < j < |b.files| ==> b.files[i].name != b.files[j].name
  }

  /** The listing holds every release once. */
  ghost predicate ValidRemote(s: Remote) {
    && (forall id :: id in s.listing <==> id in s.releases)
    && (forall i, j :: 0 <= i < j < |s.listing| ==> s.listing[i] != s.listing[j])
  }

  predicate Holds(a: Asset, f: File) {
    a.name == f.name && a.digest == f.digest && a.size == f.size
  }

  // ---- effects of the mutating calls ----

  function WithTag(s: Remote, sha: string): Remote {
    s.(tag := Some(TagRef(true, sha)))
  }

  function WithRelease(s: Remote, id: nat, r: Release): Remote {
    s.(releases := s.releases[id := r])
  }

  function WithNewRelease(s: Remote, id: nat, r: Release): Remote {
    s.(releases := s.releases[id := r], listing := [id] + s.listing)
  }

  function WithAsset(r: Release, aid: nat, a: Asset): Release {
    r.(assets := r.assets[aid := a])
  }

  function WithoutAsset(r: Release, aid: nat): Release {
    r.(assets := r.assets - {aid})
  }

  datatype Reply<+T> = Ok(value: T) | NotFound | Conflict | Failed

  /** `honest` says that a stored upload carries the digest and size of what was sent, or is a starter. */
  class GitHub {
    var state: Remote
    const honest: bool
    ghost var trace: seq<Remote>
    ghost var faults: nat

    constructor (initial: Remote, honest: bool)
      ensures state == initial && this.honest == honest && trace == [initial] && faults == 0
    {
      state, this.honest := initial, honest;
      trace, faults := [initial], 0;
    }

    ghost predicate Recording()
      reads this
    {
      ValidRemote(state) && trace != [] && trace[|trace| - 1] == state
    }

    /** A call that does not reach the store, or whose answer is lost. */
    method Fault()
      modifies this`faults
      ensures faults == old(faults) + 1
    {
      faults := faults + 1;
    }

    method GetTag() returns (r: Reply<TagRef>)
      requires Recording()
      modifies this`faults
      ensures Recording() && faults == old(faults) + (if r.Failed? then 1 else 0)
      ensures !r.Conflict? && (r.Ok? ==> state.tag == Some(r.value)) && (r.NotFound? ==> state.tag.None?)
    {
      if * {
        Fault();
        return Failed;
      }
      r := if state.tag.Some? then Ok(state.tag.value) else NotFound;
    }

    method CreateTag(sha: string) returns (r: Reply<()>)
      requires Recording()
      modifies this`state, this`trace, this`faults
      ensures Recording() && faults == old(faults) + (if r.Failed? then 1 else 0) && trace == old(trace) + [state]
      ensures !r.NotFound?
      ensures old(state).tag.Some? ==> state == old(state) && !r.Ok?
      ensures old(state).tag.None? ==>
        (state == WithTag(old(state), sha) || (r.Failed? && state == old(state))) && !r.Conflict?
    {
      if state.tag.Some? {
        trace := trace + [state];
        r := Conflict;
        if * {
          Fault();
          r := Failed;
        }
        return;
      }
      if * {
        Fault();
        if * {
          state := WithTag(state, sha);
        }
        trace := trace + [state];
        return Failed;
      }
      state := WithTag(state, sha);
      trace := trace + [state];
      r := Ok(());
    }

    /** Only published releases are found by tag. */
    method GetPublished(tag: string) returns (r: Reply<nat>)
      requires Recording()
      modifies this`faults
      ensures Recording() && faults == old(faults) + (if r.Failed? then 1 else 0) && !r.Conflict?
      ensures r.Ok? ==>
                r.value in state.releases && state.releases[r.value].tagName == tag && !state.releases[r.value].draft
      ensures r.NotFound? ==> forall id :: id in state.releases && state.releases[id].tagName == tag ==>
                state.releases[id].draft
    {
      if * {
        Fault();
        return Failed;
      }
      for i := 0 to |state.listing|
        invariant Recording() && faults == old(faults)
        invariant forall j :: 0 <= j < i ==>
          !(state.releases[state.listing[j]].tagName == tag && !state.releases[state.listing[j]].draft)
      {
        var id := state.listing[i];
        assert id in state.listing;
        if state.releases[id].tagName == tag && !state.releases[id].draft {
          return Ok(id);
        }
      }
      r := NotFound;
    }

    /** One page of the listing; pages are numbered from one. */
    method ListPage(page: nat) returns (r: Reply<seq<nat>>)
      requires Recording() && page >= 1
      modifies this`faults
      ensures Recording() && faults == old(faults) + (if r.Failed? then 1 else 0) && (r.Ok? || r.Failed?)
      ensures r.Ok? ==> r.value == Page(state.listing, page)
    {
      if * {
        Fault();
        return Failed;
      }
      r := Ok(Page(state.listing, page));
    }

    method CreateRelease(tag: string, body: string) returns (r: Reply<nat>)
      requires Recording()
      modifies this`state, this`trace, this`faults
      ensures Recording() && faults == old(faults) + (if r.Failed? then 1 else 0) && (r.Ok? || r.Failed?)
      ensures trace == old(trace) + [state]
      ensures r.Ok? ==> r.value !in old(state).releases &&
                        state == WithNewRelease(old(state), r.value, Release(tag, body, true, map[]))
      ensures r.Failed? ==>
        || state == old(state)
        || exists id ::
            id !in old(state).releases && state == WithNewRelease(old(state), id, Release(tag, body, true, map[]))
    {
      ghost var before := state;
      var id := FreshId(state.releases.Keys);
      var created := WithNewRelease(state, id, Release(tag, body, true, map[]));
      assert ValidRemote(created);
      if * {
        Fault();
        if * {
          state := created;
        }
        trace := trace + [state];
        return Failed;
      }
      state := created;
      trace := trace + [state];
      r := Ok(id);
    }

    /** One page of a hundred assets. */
    method ListAssets(id: nat) returns (r: Reply<map<nat, Asset>>)
      requires Recording() && id in state.releases
      modifies this`faults
      ensures Recording() && faults == old(faults) + (if r.Failed? then 1 else 0) && (r.Ok? || r.Failed?)
      ensures r.Ok? ==>
                if |state.releases[id].assets| <= 100 then r.value == state.releases[id].assets else |r.value| == 100
    {
      if * {
        Fault();
        return Failed;
      }
      var assets := state.releases[id].assets;
      if |assets| <= 100 {
        return Ok(assets);
      }
      var page := map[];
      while |page| < 100
        invariant page.Keys <= assets.Keys && |page| <= 100
        decreases 100 - |page|
      {
        assert |page.Keys| < |assets.Keys|;
        assert assets.Keys - page.Keys != {};
        var aid :| aid in assets.Keys - page.Keys;
        page := page[aid := assets[aid]];
      }
      r := Ok(page);
    }

    method DeleteAsset(id: nat, aid: nat) returns (r: Reply<()>)
      requires Recording() && id in state.releases && aid in state.releases[id].assets
      modifies this`state, this`trace, this`faults
      ensures Recording() && faults == old(faults) + (if r.Failed? then 1 else 0) && (r.Ok? || r.Failed?)
      ensures trace == old(trace) + [state]
      ensures state == WithRelease(old(state), id, WithoutAsset(old(state).releases[id], aid)) ||
              (r.Failed? && state == old(state))
    {
      var removed := WithRelease(state, id, WithoutAsset(state.releases[id], aid));
      assert removed.releases.Keys == state.releases.Keys;
      if * {
        Fault();
        if * {
          state := removed;
        }
        trace := trace + [state];
        return Failed;
      }
      state := removed;
      trace := trace + [state];
      r := Ok(());
    }

    /** Stores something under the file's name, completely or as a starter, unless nothing arrives. */
    method Upload(id: nat, f: File) returns (r: Reply<Asset>)
      requires Recording() && id in state.releases
      modifies this`state, this`trace, this`faults
      ensures Recording() && faults == old(faults) + (if r.Failed? then 1 else 0) && (r.Ok? || r.Failed?)
      ensures trace == old(trace) + [state]
      ensures r.Ok? ==>
                Uploaded(old(state), state, id, f, r.value) && (honest ==> Holds(r.value, f) && !r.value.starter)
      ensures r.Failed? ==>
        || state == old(state)
        || exists a :: Uploaded(old(state), state, id, f, a) && (honest ==> a.starter || Holds(a, f))
    {
      var aid := FreshId(state.releases[id].assets.Keys);
      var digest, size, starter := f.digest, f.size, false;
      if !honest {
        digest, size, starter := *, *, *;
      }
      if * {
        Fault();
        if * {
          if honest {
            starter := *;
          }
          Keep(id, aid, Asset(f.name, starter, digest, size), f);
        } else {
          trace := trace + [state];
        }
        return Failed;
      }
      Keep(id, aid, Asset(f.name, starter, digest, size), f);
      r := Ok(Asset(f.name, starter, digest, size));
    }

    method Keep(id: nat, aid: nat, a: Asset, f: File)
      requires Recording() && id in state.releases && aid !in state.releases[id].assets && a.name == f.name
      modifies this`state, this`trace
      ensures Recording() && trace == old(trace) + [state]
      ensures state == WithRelease(old(state), id, WithAsset(old(state).releases[id], aid, a))
      ensures Uploaded(old(state), state, id, f, a)
    {
      state := WithRelease(state, id, WithAsset(state.releases[id], aid, a));
      assert state.releases.Keys == old(state).releases.Keys;
      trace := trace + [state];
    }

    method PublishRelease(id: nat) returns (r: Reply<()>)
      requires Recording() && id in state.releases
      modifies this`state, this`trace, this`faults
      ensures Recording() && faults == old(faults) + (if r.Failed? then 1 else 0) && (r.Ok? || r.Failed?)
      ensures trace == old(trace) + [state]
      ensures state == WithRelease(old(state), id, old(state).releases[id].(draft := false)) ||
              (r.Failed? && state == old(state))
    {
      var published := WithRelease(state, id, state.releases[id].(draft := false));
      assert published.releases.Keys == state.releases.Keys;
      if * {
        Fault();
        if * {
          state := published;
        }
        trace := trace + [state];
        return Failed;
      }
      state := published;
      trace := trace + [state];
      r := Ok(());
    }
  }

  /** `s1` is `s0` with a new asset `a` for `f` in release `id`. */
  ghost predicate Uploaded(s0: Remote, s1: Remote, id: nat, f: File, a: Asset) {
    id in s0.releases && a.name == f.name &&
    exists aid :: aid !in s0.releases[id].assets && s1 == WithRelease(s0, id, WithAsset(s0.releases[id], aid, a))
  }

  function Min(a: int, b: int): int {
    if a < b then a else b
  }

  /** Page `page` of a hundred entries. */
  function Page(listing: seq<nat>, page: nat): seq<nat>
    requires page >= 1
  {
    var lo := Min((page - 1) * 100, |listing|);
    listing[lo..Min(lo + 100, |listing|)]
  }

  method FreshId(ids: set<nat>) returns (id: nat)
    ensures id !in ids
  {
    id := 0;
    var rest := ids;
    while rest != {}
      invariant forall x :: x in ids && x !in rest ==> x < id
      decreases rest
    {
      var x :| x in rest;
      if x >= id {
        id := x + 1;
      }
      rest := rest - {x};
    }
  }
}
