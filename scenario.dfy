/**
 * The worked examples of spec/core/resolve_spec.rb, evaluated on the model: the
 * container/foo/foobar/foobarbar document read from each project, a cycle, the
 * resolver-API example and the write example.
 */
module Scenario {
  import opened Wrappers
  import opened Builtins
  import opened Projects
  import opened Documents
  import opened Resolvers
  import opened Closure
  import opened Dependency
  import opened Persist

  const Art: string := "com.example:art:jar:1.2.3"
  const Art2: string := "com.example:art2:jar:1.2.3"
  const Art3: string := "com.example:art3:jar:1.2.4"
  const Art4: string := "com.example:art4:jar:1.3.2"

  const Foo: ProjectName := "container:foo"
  const FooBar: ProjectName := "container:foobar"
  const FooBarBar: ProjectName := "container:foobarbar"

  /** `Buildr::project(name)` for projects identified by their names. */
  function Named(n: ProjectName): ProjectName {
    n
  }

  /** The dependencies.yml of the test "should make dependencies available through the dependencies method". */
  function ContainerDoc(): Document {
    map[
      Foo := map["dummy" := Entry(Some([Art, Art2]), Some([FooBar, FooBarBar]))],
      FooBar := map["dummy" := Entry(Some([Art3]), Some([FooBarBar]))],
      FooBarBar := map["dummy" := Entry(Some([Art4]), Some([]))]
    ]
  }

  /** The read `Dependencies.new` performs for the `:dummy` resolver of `owner`. */
  function ContainerContext(owner: ProjectName): Context {
    Context(ContainerDoc(), "dummy", owner, Named)
  }

  /** Uniting distinct artifacts with new ones appends them in order. */
  lemma UnionFresh(a: seq<string>, b: seq<string>)
    requires NoDup(a + b)
    ensures Union(a, b) == a + b
  {
    UniqOfNoDup(a + b);
  }

  /** The three entries of the document, looked up. */
  lemma ContainerEntries()
    ensures Foo in ContainerDoc() && "dummy" in ContainerDoc()[Foo]
    ensures ContainerDoc()[Foo]["dummy"] == Entry(Some([Art, Art2]), Some([FooBar, FooBarBar]))
    ensures FooBar in ContainerDoc() && "dummy" in ContainerDoc()[FooBar]
    ensures ContainerDoc()[FooBar]["dummy"] == Entry(Some([Art3]), Some([FooBarBar]))
    ensures FooBarBar in ContainerDoc() && "dummy" in ContainerDoc()[FooBarBar]
    ensures ContainerDoc()[FooBarBar]["dummy"] == Entry(Some([Art4]), Some([]))
  {
  }

  /** foobarbar lists no sub-project: its dependencies are its one artifact. */
  lemma {:induction false} ReadFooBarBar()
    ensures ReadFrom(ContainerContext(FooBarBar), Lists([], [])) == Ok(Lists([Art4], []))
  {
    var c := ContainerContext(FooBarBar);
    ContainerEntries();
    EnterListed(c, Lists([], []), FooBarBar, [Art4], []);
    UnionFresh([], [Art4]);
    assert [] + [Art4] == [Art4];
  }

  /** Entering foobarbar with the artifacts `arts` read so far adds art4 and visits nothing. */
  lemma EnterFooBarBar(c: Context, arts: seq<string>, ps: seq<ProjectName>)
    requires c.doc == ContainerDoc() && c.id == "dummy"
    requires NoDup(arts + [Art4])
    ensures Enter(c, Lists(arts, ps), FooBarBar) == Ok(Lists(arts + [Art4], ps))
  {
    ContainerEntries();
    EnterListed(c, Lists(arts, ps), FooBarBar, [Art4], []);
    UnionFresh(arts, [Art4]);
  }

  /** Entering foobar, with foobarbar not yet recorded, records foobarbar and adds art3 then art4. */
  lemma EnterFooBar(c: Context, arts: seq<string>, ps: seq<ProjectName>)
    requires c.doc == ContainerDoc() && c.id == "dummy" && c.lookup == Named
    requires FooBarBar !in ps && c.owner != FooBarBar
    requires NoDup(arts + [Art3, Art4])
    ensures Enter(c, Lists(arts, ps), FooBar) == Ok(Lists(arts + [Art3, Art4], ps + [FooBarBar]))
  {
    ContainerEntries();
    EnterListed(c, Lists(arts, ps), FooBar, [Art3], [FooBarBar]);
    assert arts + [Art3] + [Art4] == arts + [Art3, Art4];
    assert NoDup(arts + [Art3]) by {
      assert (arts + [Art3, Art4])[..|arts| + 1] == arts + [Art3];
    }
    UnionFresh(arts, [Art3]);
    EnterFooBarBar(c, arts + [Art3], ps + [FooBarBar]);
    VisitEnter(c, Lists(arts + [Art3], ps), [FooBarBar], Lists(arts + [Art3, Art4], ps + [FooBarBar]));
    assert [FooBarBar][1..] == [];
  }

  /** foobar reads its own artifact, then records foobarbar and reads its artifact. */
  lemma {:induction false} ReadFooBar()
    ensures ReadFrom(ContainerContext(FooBar), Lists([], [])) == Ok(Lists([Art3, Art4], [FooBarBar]))
  {
    EnterFooBar(ContainerContext(FooBar), [], []);
    assert [] + [Art3, Art4] == [Art3, Art4];
    assert [] + [FooBarBar] == [FooBarBar];
  }

  /** foo's own list: foobar is entered (recording foobarbar on the way), then foobarbar is passed over. */
  lemma VisitFooList(c: Context)
    requires c == ContainerContext(Foo)
    ensures AllReferenced(c, [FooBar, FooBarBar])
    ensures Visit(c, Lists([Art, Art2], []), [FooBar, FooBarBar]) ==
              Ok(Lists([Art, Art2, Art3, Art4], [FooBar, FooBarBar]))
  {
    var done := Lists([Art, Art2, Art3, Art4], [FooBar, FooBarBar]);
    ContainerEntries();
    ListedIsReferenced(c, Foo);
    assert [] + [FooBar] == [FooBar];
    EnterFooBar(c, [Art, Art2], [FooBar]);
    assert [Art, Art2] + [Art3, Art4] == done.artifacts;
    assert [FooBar] + [FooBarBar] == done.projects;
    VisitEnter(c, Lists([Art, Art2], []), [FooBar, FooBarBar], done);
    assert [FooBar, FooBarBar][1..] == [FooBarBar];
    VisitSkip(c, done, [FooBarBar]);
    assert [FooBarBar][1..] == [];
  }

  /**
   * foo records foobar, and while reading foobar records foobarbar too (the recursive call
   * records what it visits); foobarbar, listed again by foo, is then skipped.
   */
  lemma {:induction false} ReadFoo()
    ensures ReadFrom(ContainerContext(Foo), Lists([], [])) ==
              Ok(Lists([Art, Art2, Art3, Art4], [FooBar, FooBarBar]))
  {
    var c := ContainerContext(Foo);
    ContainerEntries();
    EnterListed(c, Lists([], []), Foo, [Art, Art2], [FooBar, FooBarBar]);
    UnionFresh([], [Art, Art2]);
    assert [] + [Art, Art2] == [Art, Art2];
    VisitFooList(c);
  }

  /** `container:foobarbar.dependencies(:dummy)` after `read` (the read, then `uniq`): art4 only. */
  lemma {:induction false} FooBarBarDependencies()
    ensures ReadResolver(ContainerContext(FooBarBar), Lists([], [])) == Ok(Lists([Art4], []))
    ensures Answer(Lists([Art4], [])) == [Artifact(Art4)]
  {
    ReadFooBarBar();
    UniqOfNoDup([Art4]);
  }

  /** `container:foobar.dependencies(:dummy)`: art3, art4, then foobarbar. */
  lemma {:induction false} FooBarDependencies()
    ensures ReadResolver(ContainerContext(FooBar), Lists([], [])) == Ok(Lists([Art3, Art4], [FooBarBar]))
    ensures Answer(Lists([Art3, Art4], [FooBarBar])) == [Artifact(Art3), Artifact(Art4), ProjectRef(FooBarBar)]
  {
    ReadFooBar();
    UniqOfNoDup([Art3, Art4]);
  }

  /** `container:foo.dependencies(:dummy)`: its own two artifacts, art3, art4, then foobar and foobarbar. */
  lemma {:induction false} FooDependencies()
    ensures ReadResolver(ContainerContext(Foo), Lists([], [])) ==
              Ok(Lists([Art, Art2, Art3, Art4], [FooBar, FooBarBar]))
    ensures Answer(Lists([Art, Art2, Art3, Art4], [FooBar, FooBarBar])) ==
              [Artifact(Art), Artifact(Art2), Artifact(Art3), Artifact(Art4), ProjectRef(FooBar), ProjectRef(FooBarBar)]
  {
    ReadFoo();
    UniqOfNoDup([Art, Art2, Art3, Art4]);
  }

  /** A project that lists itself, and a sub-project that lists the owner back: the read ends, each artifact once. */
  function CycleDoc(): Document {
    map[
      Foo := map["dummy" := Entry(Some([Art, Art]), Some([Foo, FooBar]))],
      FooBar := map["dummy" := Entry(Some([Art2, Art]), Some([Foo, FooBar]))]
    ]
  }

  lemma CycleEntries()
    ensures Foo in CycleDoc() && "dummy" in CycleDoc()[Foo]
    ensures CycleDoc()[Foo]["dummy"] == Entry(Some([Art, Art]), Some([Foo, FooBar]))
    ensures FooBar in CycleDoc() && "dummy" in CycleDoc()[FooBar]
    ensures CycleDoc()[FooBar]["dummy"] == Entry(Some([Art2, Art]), Some([Foo, FooBar]))
  {
  }

  /** Inside the cycle, foobar lists the owner and itself, both skipped. */
  lemma EnterCycleFooBar(c: Context)
    requires c == Context(CycleDoc(), "dummy", Foo, Named)
    ensures Enter(c, Lists([Art], [FooBar]), FooBar) == Ok(Lists([Art, Art2], [FooBar]))
  {
    CycleEntries();
    EnterListed(c, Lists([Art], [FooBar]), FooBar, [Art2, Art], [Foo, FooBar]);
    assert Union([Art], [Art2, Art]) == [Art, Art2] by {
      var s := [Art] + [Art2, Art];
      assert s[..2] == [Art, Art2];
      UniqOfNoDup([Art, Art2]);
    }
    var done := Lists([Art, Art2], [FooBar]);
    VisitHead(c, done, [Foo, FooBar]);
    assert [Foo, FooBar][1..] == [FooBar];
    VisitHead(c, done, [FooBar]);
    assert [FooBar][1..] == [];
  }

  lemma {:induction false} ReadCycle()
    ensures ReadFrom(Context(CycleDoc(), "dummy", Foo, Named), Lists([], [])) == Ok(Lists([Art, Art2], [FooBar]))
  {
    var c := Context(CycleDoc(), "dummy", Foo, Named);
    CycleEntries();
    EnterListed(c, Lists([], []), Foo, [Art, Art], [Foo, FooBar]);
    assert Union([], [Art, Art]) == [Art] by {
      assert [] + [Art, Art] == [Art, Art];
      assert [Art, Art][..1] == [Art];
      UniqOfNoDup([Art]);
    }
    VisitHead(c, Lists([Art], []), [Foo, FooBar]);
    assert [Foo, FooBar][1..] == [FooBar];
    VisitHead(c, Lists([Art], []), [FooBar]);
    assert [] + [FooBar] == [FooBar];
    EnterCycleFooBar(c);
    assert [FooBar][1..] == [];
  }

  /** The resolver of the resolver tests, resolved on a project with nothing read, yields exactly the pair. */
  lemma ResolveOnEmpty()
    ensures Resolved(Dummy, []) == ["com.example:foo:jar:1.1", "com.example:bar:jar:1.1"]
  {
  }

  /** The test resolver applies to foo and not to bar. */
  lemma AppliesSelectively(foo: Project, bar: Project)
    requires foo.name == "foo" && bar.name == "bar"
    ensures Applicable([Dummy], foo) == [Dummy]
    ensures Applicable([Dummy], bar) == []
  {
    assert OccursAt(foo.name, "foo", 0);
    assert !Contains(bar.name, "foo") by {
      forall j: nat ensures !OccursAt(bar.name, "foo", j) {
        if j + 3 <= 3 {
          assert bar.name[0] != "foo"[0];
        }
      }
    }
  }

  /** The write test: no file yet, foo's `:dummy` resolver holding one artifact. */
  lemma {:induction false} WriteFoo()
    ensures WriteAll(map[], [ProjectView("foo", [Snapshot("dummy", Lists(["com.example:foo:jar:1.0"], []))])]) ==
              map["foo" := map["dummy" := Entry(Some(["com.example:foo:jar:1.0"]), Some([]))]]
  {
    var views := [ProjectView("foo", [Snapshot("dummy", Lists(["com.example:foo:jar:1.0"], []))])];
    assert views[..0] == [];
    var rs := views[0].resolvers;
    assert rs[..0] == [];
    assert Sort(["com.example:foo:jar:1.0"]) == ["com.example:foo:jar:1.0"] by {
      SortOfSorted(["com.example:foo:jar:1.0"]);
    }
    assert Sort([]) == [];
  }
}
