/** The "contains sensitive" analysis of generated models, whose references may be cyclic. */
module SensitiveModels {
  import opened Reachability

  /** A field refers to another model unless `modelRef` is empty. */
  datatype Field = Field(name: string, sensitive: bool, modelRef: string)

  datatype Model = Model(name: string, fields: seq<Field>)

  function ModelGraph(byName: map<string, Model>): Graph<string> {
    map n | n in byName :: set f | f in byName[n].fields && f.modelRef != "" :: f.modelRef
  }

  predicate HasSensitiveField(byName: map<string, Model>, name: string) {
    name in byName && exists f :: f in byName[name].fields && f.sensitive
  }

  /** What the traversal answers when it enters `name` with `visiting` marked. */
  function Contains(byName: map<string, Model>, name: string, visiting: set<string>): bool
    decreases byName.Keys - visiting, 0, 0
  {
    name !in visiting && name in byName &&
    (assert name in byName.Keys - visiting; AnyField(byName, byName[name].fields, visiting + {name}))
  }

  function AnyField(byName: map<string, Model>, fields: seq<Field>, visiting: set<string>): bool
    decreases byName.Keys - visiting, 1, |fields|
  {
    fields != [] &&
    (fields[0].sensitive || (fields[0].modelRef != "" && Contains(byName, fields[0].modelRef, visiting)) ||
     AnyField(byName, fields[1..], visiting))
  }

  // ---- the code ----

  class Analysis {
    const byName: map<string, Model>
    var visiting: set<string>

    constructor (byName: map<string, Model>)
      ensures this.byName == byName && visiting == {}
    {
      this.byName, visiting := byName, {};
    }

    method ContainsSensitive(name: string) returns (found: bool)
      modifies this
      ensures found == Contains(byName, name, old(visiting))
      ensures visiting == old(visiting)
      decreases byName.Keys - visiting
    {
      if name in visiting {
        return false;
      }
      ghost var entered := visiting;
      visiting := visiting + {name};
      found := false;
      if name in byName {
        assert name in byName.Keys - entered;
        var fields := byName[name].fields;
        var i := 0;
        while i < |fields| && !found
          invariant i <= |fields| && visiting == entered + {name}
          invariant AnyField(byName, fields, visiting) == (found || AnyField(byName, fields[i..], visiting))
        {
          var field := fields[i];
          assert fields[i..][0] == field && fields[i..][1..] == fields[i + 1..];
          if field.sensitive {
            found := true;
          } else if field.modelRef != "" {
            found := ContainsSensitive(field.modelRef);
          }
          i := i + 1;
        }
      }
      visiting := visiting - {name};
      assert visiting == entered;
    }
  }

  // ---- exactness ----

  /** Some model that `name` reaches outside `visiting` has a sensitive field. */
  ghost predicate ReachesSensitive(byName: map<string, Model>, name: string, visiting: set<string>) {
    exists m :: ReachesAvoiding(ModelGraph(byName), visiting, name, m) && HasSensitiveField(byName, m)
  }

  lemma {:induction false} ContainsIsReachability(byName: map<string, Model>, name: string, visiting: set<string>)
    ensures Contains(byName, name, visiting) <==> ReachesSensitive(byName, name, visiting)
    decreases byName.Keys - visiting, 0, 0
  {
    var g := ModelGraph(byName);
    if name in visiting {
      if m :| ReachesAvoiding(g, visiting, name, m) {
        StartIsOutside(g, visiting, name, m);
      }
    } else if name !in byName {
      forall m { Unfold(g, visiting, name, m); }
    } else {
      assert name in byName.Keys - visiting;
      var fields, inner := byName[name].fields, visiting + {name};
      AnyFieldIsReachability(byName, fields, inner);
      ReachesSelf(g, visiting, name);
      if ReachesSensitive(byName, name, visiting) {
        var m :| ReachesAvoiding(g, visiting, name, m) && HasSensitiveField(byName, m);
        Unfold(g, visiting, name, m);
        if m != name {
          var c :| Edge(g, name, c) && ReachesAvoiding(g, inner, c, m);
          var f :| f in fields && f.modelRef != "" && f.modelRef == c;
          assert ReachesSensitive(byName, f.modelRef, inner);
        }
      }
      if f :| f in fields && f.modelRef != "" && ReachesSensitive(byName, f.modelRef, inner) {
        var m :| ReachesAvoiding(g, inner, f.modelRef, m) && HasSensitiveField(byName, m);
        assert Edge(g, name, f.modelRef);
        Unfold(g, visiting, name, m);
      }
    }
  }

  lemma {:induction false} AnyFieldIsReachability(byName: map<string, Model>, fields: seq<Field>, visiting: set<string>)
    ensures AnyField(byName, fields, visiting) <==>
            exists f ::
                f in fields && (f.sensitive || (f.modelRef != "" && ReachesSensitive(byName, f.modelRef, visiting)))
    decreases byName.Keys - visiting, 1, |fields|
  {
    if fields != [] {
      ContainsIsReachability(byName, fields[0].modelRef, visiting);
      AnyFieldIsReachability(byName, fields[1..], visiting);
      assert forall f :: f in fields <==> f == fields[0] || f in fields[1..];
    }
  }

  /** `byName`, filled from the list of models; a later model of the same name would replace an earlier one. */
  function ByName(models: seq<Model>): map<string, Model> {
    if models == [] then map[]
    else ByName(models[..|models| - 1])[models[|models| - 1].name := models[|models| - 1]]
  }

  /** The flag of every model: true exactly when a model it reaches through references has a sensitive field. */
  method MarkSensitive(models: seq<Model>) returns (flags: seq<bool>)
    ensures |flags| == |models|
    ensures forall i :: 0 <= i < |models| ==>
              (flags[i] <==> exists m :: Reaches(ModelGraph(ByName(models)), models[i].name, m) &&
                                         HasSensitiveField(ByName(models), m))
  {
    var byName: map<string, Model> := map[];
    for i := 0 to |models|
      invariant byName == ByName(models[..i])
    {
      assert models[..i + 1][..i] == models[..i];
      byName := byName[models[i].name := models[i]];
    }
    assert models[..|models|] == models;
    flags := [];
    for i := 0 to |models|
      invariant |flags| == i
      invariant forall j :: 0 <= j < i ==> flags[j] == Contains(byName, models[j].name, {})
    {
      var analysis := new Analysis(byName);
      var flag := analysis.ContainsSensitive(models[i].name);
      flags := flags + [flag];
    }
    forall i | 0 <= i < |models|
      ensures flags[i] <==> exists m :: Reaches(ModelGraph(byName), models[i].name, m) && HasSensitiveField(byName, m)
    {
      ContainsIsReachability(byName, models[i].name, {});
    }
  }
}
