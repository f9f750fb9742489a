/**
 * Choosing the commit a bundle's manifests come from: the component revision that contains every
 * other component revision in the commit graph.
 */
module ManifestSource {
  import opened Reachability

  /** What `git merge-base --is-ancestor` says: exit code 0, exit code 1, or anything else. */
  datatype Answer = Yes | No | Broken

  datatype Selection = Selected(commit: string) | NoneContainsAll | Stopped

  type Git = (string, string) -> Answer

  /** `parents` maps each commit to its parents; git's answers, when it gives one, are about that graph. */
  ghost predicate Faithful(parents: Graph<string>, git: Git) {
    forall a, b :: (git(a, b) == Yes ==> Reaches(parents, b, a)) && (git(a, b) == No ==> !Reaches(parents, b, a))
  }

  ghost predicate ContainsAll(parents: Graph<string>, commit: string, revisions: set<string>) {
    forall r :: r in revisions ==> Reaches(parents, commit, r)
  }

  ghost predicate Greatest(parents: Graph<string>, revisions: set<string>, commit: string) {
    commit in revisions && ContainsAll(parents, commit, revisions)
  }

  /** What an outcome says about the set of revisions, whatever order they were tried in. */
  ghost predicate Explains(parents: Graph<string>, git: Git, main: string, revisions: set<string>, outcome: Selection) {
    match outcome
    case Selected(c) => ContainsAll(parents, main, revisions) && Greatest(parents, revisions, c)
    case NoneContainsAll => ContainsAll(parents, main, revisions) && forall c :: !Greatest(parents, revisions, c)
    case Stopped =>
      || !ContainsAll(parents, main, revisions)
      || exists a, b :: a in revisions && (b in revisions || b == main) && git(a, b) == Broken
  }

  function Elements(order: seq<string>): set<string> {
    set r | r in order
  }

  method ManifestSource(ghost parents: Graph<string>, git: Git, main: string, order: seq<string>)
    returns (outcome: Selection)
    requires Faithful(parents, git)
    ensures Explains(parents, git, main, Elements(order), outcome)
  {
    for i := 0 to |order|
      invariant forall j :: 0 <= j < i ==> Reaches(parents, main, order[j])
    {
      assert order[i] in Elements(order);
      if git(order[i], main) != Yes {
        return Stopped;
      }
    }
    var selected := false;
    outcome := NoneContainsAll;
    for i := 0 to |order|
      invariant !selected && outcome == NoneContainsAll
      invariant forall j :: 0 <= j < i ==> !ContainsAll(parents, order[j], Elements(order))
    {
      var complete := true;
      for k := 0 to |order|
        invariant complete
        invariant forall j :: 0 <= j < k ==> Reaches(parents, order[i], order[j])
      {
        var answer := git(order[k], order[i]);
        assert order[k] in Elements(order) && order[i] in Elements(order);
        if answer == Broken {
          return Stopped;
        } else if answer == No {
          complete := false;
          break;
        }
      }
      if complete {
        selected, outcome := true, Selected(order[i]);
        break;
      }
    }
  }

  lemma GreatestIsUnique(parents: Graph<string>, revisions: set<string>, c: string, d: string)
    requires Acyclic(parents) && Greatest(parents, revisions, c) && Greatest(parents, revisions, d)
    ensures c == d
  {
    if c != d {
      UnfoldStep(parents, c, d);
      var x :| Edge(parents, c, x) && Reaches(parents, x, d);
      ReachesCompose(parents, x, d, c);
    }
  }

  /** In an acyclic history, two outcomes for the same set of revisions are the same, whatever the orders. */
  lemma OutcomeIsUnique(parents: Graph<string>, git: Git, main: string, revisions: set<string>, x: Selection,
                        y: Selection)
    requires Acyclic(parents) && Explains(parents, git, main, revisions, x)
    requires Explains(parents, git, main, revisions, y)
    requires !x.Stopped? && !y.Stopped?
    ensures x == y
  {
    if x.Selected? && y.Selected? {
      GreatestIsUnique(parents, revisions, x.commit, y.commit);
    }
  }
}
