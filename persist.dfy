/**
 * Dependencies.write: the in-memory resolver state of some projects overlaid on the
 * document found at the root of the first of them, every written list sorted, and
 * SortedHash's key order for emitting a hash.
 */
module Persist {
  import opened Wrappers
  import opened Builtins
  import opened Projects
  import opened Documents
  import opened Resolvers
  import opened Dependency

  /** `projects.first` is nil for an empty list and `find_root(nil)` raises NoMethodError. */
  datatype WriteError = NoProjects

  /** What `Buildr::write` is handed: the directory of the document and its new contents. */
  datatype Written = Written(dir: string, doc: Document)

  /** One resolver's id and lists, as `write` finds them. */
  datatype Snapshot = Snapshot(id: ResolverId, lists: Lists)

  /** A project's name and the snapshots of its resolvers, in hash order. */
  datatype ProjectView = ProjectView(name: ProjectName, resolvers: seq<Snapshot>)

  /** The entry under a project and an id; a missing key reads as an entry with neither list. */
  function EntryAt(doc: Document, name: ProjectName, id: ResolverId): Entry {
    if name in doc && id in doc[name] then doc[name][id] else Entry(None, None)
  }

  /**
   * The two `||=` and the two `sort!` on one entry: each list keeps the value already
   * there, or takes the resolver's, and is then sorted.
   */
  function WriteEntry(e: Entry, st: Lists): (r: Entry)
    ensures r.artifacts.Some? && Sorted(r.artifacts.value)
    ensures multiset(r.artifacts.value) == multiset(e.artifacts.GetOr(st.artifacts))
    ensures r.projects.Some? && Sorted(r.projects.value)
    ensures multiset(r.projects.value) == multiset(e.projects.GetOr(st.projects))
  {
    Entry(Some(Sort(e.artifacts.GetOr(st.artifacts))), Some(Sort(e.projects.GetOr(st.projects))))
  }

  /** Writing an entry twice is writing it once: the second pass finds both keys, already sorted. */
  lemma WriteEntryTwice(e: Entry, st: Lists, st': Lists)
    ensures WriteEntry(WriteEntry(e, st), st') == WriteEntry(e, st)
  {
    SortIdempotent(e.artifacts.GetOr(st.artifacts));
    SortIdempotent(e.projects.GetOr(st.projects));
  }

  /** The document with one entry replaced, the project's hash created if it was missing. */
  function PutEntry(doc: Document, name: ProjectName, id: ResolverId, e: Entry): Document {
    doc[name := (if name in doc then doc[name] else map[])[id := e]]
  }

  /** Replacing one entry changes that entry only, and removes no key. */
  lemma PutEntryAt(doc: Document, name: ProjectName, id: ResolverId, e: Entry, n: ProjectName, i: ResolverId)
    ensures EntryAt(PutEntry(doc, name, id, e), n, i) == if n == name && i == id then e else EntryAt(doc, n, i)
    ensures n in PutEntry(doc, name, id, e) <==> n in doc || n == name
    ensures n in doc && i in doc[n] ==> n in PutEntry(doc, name, id, e) && i in PutEntry(doc, name, id, e)[n]
    ensures n != name && n in doc ==> PutEntry(doc, name, id, e)[n] == doc[n]
  {
  }

  /** `written_dependencies[p.name] ||= {}` and the walk over one project's resolvers. */
  function WriteResolvers(doc: Document, name: ProjectName, rs: seq<Snapshot>): (r: Document)
    decreases |rs|
  {
    if rs == [] then
      if name in doc then doc else doc[name := map[]]
    else
      var before := WriteResolvers(doc, name, rs[..|rs| - 1]);
      var last := rs[|rs| - 1];
      PutEntry(before, name, last.id, WriteEntry(EntryAt(before, name, last.id), last.lists))
  }

  /** The document `write` produces from the one on disk and the projects, in the order given. */
  function WriteAll(doc: Document, views: seq<ProjectView>): (r: Document)
    decreases |views|
  {
    if views == [] then doc
    else
      var before := WriteAll(doc, views[..|views| - 1]);
      var last := views[|views| - 1];
      WriteResolvers(before, last.name, last.resolvers)
  }

  /** The walk over one more resolver is one more entry written. */
  lemma WriteResolversSnoc(doc: Document, name: ProjectName, rs: seq<Snapshot>, k: nat)
    requires k < |rs|
    ensures var before := WriteResolvers(doc, name, rs[..k]);
            WriteResolvers(doc, name, rs[..k + 1]) ==
              PutEntry(before, name, rs[k].id, WriteEntry(EntryAt(before, name, rs[k].id), rs[k].lists))
  {
    assert rs[..k + 1][..k] == rs[..k];
  }

  /** Writing one more project is walking its resolvers over the document so far. */
  lemma WriteAllSnoc(doc: Document, views: seq<ProjectView>, i: nat)
    requires i < |views|
    ensures WriteAll(doc, views[..i + 1]) == WriteResolvers(WriteAll(doc, views[..i]), views[i].name, views[i].resolvers)
  {
    assert views[..i + 1][..i] == views[..i];
  }

  /** No view writes the entry under `name` and `id`. */
  predicate Untouched(views: seq<ProjectView>, name: ProjectName, id: ResolverId) {
    forall j, k | 0 <= j < |views| && 0 <= k < |views[j].resolvers| ::
      views[j].name != name || views[j].resolvers[k].id != id
  }

  /** The same name always comes with the same resolvers, and ids are unique within a view. */
  predicate Coherent(views: seq<ProjectView>) {
    && (forall a, b | 0 <= a < |views| && 0 <= b < |views| && views[a].name == views[b].name ::
          views[a] == views[b])
    && (forall j, k, l | 0 <= j < |views| && 0 <= k < l < |views[j].resolvers| ::
          views[j].resolvers[k].id != views[j].resolvers[l].id)
  }

  lemma {:induction false} WriteResolversKeeps(doc: Document, name: ProjectName, rs: seq<Snapshot>, n: ProjectName, id: ResolverId)
    requires n != name || forall k | 0 <= k < |rs| :: rs[k].id != id
    ensures EntryAt(WriteResolvers(doc, name, rs), n, id) == EntryAt(doc, n, id)
    ensures n in doc && id in doc[n] ==> n in WriteResolvers(doc, name, rs) && id in WriteResolvers(doc, name, rs)[n]
    ensures n != name ==> (n in WriteResolvers(doc, name, rs) <==> n in doc)
    ensures n != name && n in doc ==> WriteResolvers(doc, name, rs)[n] == doc[n]
    decreases |rs|
  {
    if rs != [] {
      var last := rs[|rs| - 1];
      WriteResolversKeeps(doc, name, rs[..|rs| - 1], n, id);
      var before := WriteResolvers(doc, name, rs[..|rs| - 1]);
      PutEntryAt(before, name, last.id, WriteEntry(EntryAt(before, name, last.id), last.lists), n, id);
    }
  }

  /**
   * Entries the written projects do not touch survive `write` unchanged, and so do the
   * whole hashes of projects not passed in: nothing is ever removed.
   */
  lemma {:induction false} WriteAllKeeps(doc: Document, views: seq<ProjectView>, n: ProjectName, id: ResolverId)
    requires Untouched(views, n, id)
    ensures EntryAt(WriteAll(doc, views), n, id) == EntryAt(doc, n, id)
    ensures n in doc && id in doc[n] ==> n in WriteAll(doc, views) && id in WriteAll(doc, views)[n]
    ensures (forall j | 0 <= j < |views| :: views[j].name != n) ==>
              (n in WriteAll(doc, views) <==> n in doc) &&
              (n in doc ==> WriteAll(doc, views)[n] == doc[n])
    decreases |views|
  {
    if views != [] {
      var init := views[..|views| - 1];
      var last := views[|views| - 1];
      assert Untouched(init, n, id) by {
        forall j, k | 0 <= j < |init| && 0 <= k < |init[j].resolvers|
          ensures init[j].name != n || init[j].resolvers[k].id != id
        {
          assert init[j] == views[j];
        }
      }
      WriteAllKeeps(doc, init, n, id);
      assert n != last.name || forall k | 0 <= k < |last.resolvers| :: last.resolvers[k].id != id by {
        if n == last.name {
          forall k | 0 <= k < |last.resolvers| ensures last.resolvers[k].id != id {
            assert views[|views| - 1].resolvers[k].id != id;
          }
        }
      }
      WriteResolversKeeps(WriteAll(doc, init), last.name, last.resolvers, n, id);
    }
  }

  /** Within one project's walk, the entry of the k-th resolver ends up written from its snapshot. */
  lemma {:induction false} WriteResolversWrites(doc: Document, name: ProjectName, rs: seq<Snapshot>, k: nat)
    requires k < |rs|
    requires forall a, b | 0 <= a < b < |rs| :: rs[a].id != rs[b].id
    ensures EntryAt(WriteResolvers(doc, name, rs), name, rs[k].id) == WriteEntry(EntryAt(doc, name, rs[k].id), rs[k].lists)
    decreases |rs|
  {
    var init := rs[..|rs| - 1];
    var last := rs[|rs| - 1];
    var before := WriteResolvers(doc, name, init);
    if k == |rs| - 1 {
      WriteResolversKeeps(doc, name, init, name, last.id);
    } else {
      assert init[k] == rs[k];
      WriteResolversWrites(doc, name, init, k);
    }
    PutEntryAt(before, name, last.id, WriteEntry(EntryAt(before, name, last.id), last.lists), name, rs[k].id);
  }

  /** Re-walking a project whose resolvers were all written already changes none of its entries. */
  lemma {:induction false} WriteResolversAgain(doc: Document, name: ProjectName, rs: seq<Snapshot>, k: nat, st: Lists)
    requires k < |rs|
    requires forall a, b | 0 <= a < b < |rs| :: rs[a].id != rs[b].id
    requires EntryAt(doc, name, rs[k].id) == WriteEntry(EntryAt(doc, name, rs[k].id), st)
    ensures EntryAt(WriteResolvers(doc, name, rs), name, rs[k].id) == EntryAt(doc, name, rs[k].id)
  {
    WriteResolversWrites(doc, name, rs, k);
    var e := EntryAt(doc, name, rs[k].id);
    var w := WriteEntry(e, st);
    WriteEntryTwice(EntryAt(doc, name, rs[k].id), st, rs[k].lists);
    assert WriteEntry(e, rs[k].lists) == WriteEntry(w, rs[k].lists);
  }

  /**
   * Every entry a written project holds: the value already in the file is kept, else the
   * resolver's list is taken, and either way it is sorted. A project passed twice is
   * written as if passed once.
   */
  lemma {:induction false} WriteAllWrites(doc: Document, views: seq<ProjectView>, j: nat, k: nat)
    requires Coherent(views) && j < |views| && k < |views[j].resolvers|
    ensures EntryAt(WriteAll(doc, views), views[j].name, views[j].resolvers[k].id) ==
              WriteEntry(EntryAt(doc, views[j].name, views[j].resolvers[k].id), views[j].resolvers[k].lists)
    decreases |views|
  {
    var init := views[..|views| - 1];
    var last := views[|views| - 1];
    var name := views[j].name;
    var s := views[j].resolvers[k];
    var before := WriteAll(doc, init);
    assert Coherent(init) by {
      forall a | 0 <= a < |init| ensures init[a] == views[a] { }
    }
    if exists a | 0 <= a < |init| :: init[a].name == name {
      var a :| 0 <= a < |init| && init[a].name == name;
      assert init[a] == views[j];
      WriteAllWrites(doc, init, a, k);
      if last.name == name {
        assert last == views[j];
        WriteEntryTwice(EntryAt(doc, name, s.id), s.lists, s.lists);
        WriteResolversAgain(before, name, last.resolvers, k, s.lists);
      } else {
        WriteResolversKeeps(before, last.name, last.resolvers, name, s.id);
      }
    } else {
      assert j == |views| - 1;
      assert Untouched(init, name, s.id);
      WriteAllKeeps(doc, init, name, s.id);
      WriteResolversWrites(before, name, last.resolvers, k);
    }
  }

  // ------------------------------------------------------------ the imperative write

  /** A project's resolvers as `write` finds them. */
  function ViewOf(d: Dependencies): (v: ProjectView)
    reads d.resolvers
    ensures v.name == d.project.name && |v.resolvers| == |d.resolvers|
    ensures forall k | 0 <= k < |d.resolvers| ::
              v.resolvers[k] == Snapshot(d.resolvers[k].id, d.resolvers[k].State())
  {
    ProjectView(d.project.name,
      seq(|d.resolvers|, k requires 0 <= k < |d.resolvers| reads d.resolvers =>
        Snapshot(d.resolvers[k].id, d.resolvers[k].State())))
  }

  /** Every resolver of the projects passed to `write`. */
  ghost function ResolversOf(deps: seq<Dependencies>): set<Resolver> {
    set j, k | 0 <= j < |deps| && 0 <= k < |deps[j].resolvers| :: deps[j].resolvers[k]
  }

  function Views(deps: seq<Dependencies>): (vs: seq<ProjectView>)
    reads ResolversOf(deps)
    ensures |vs| == |deps| && forall j | 0 <= j < |deps| :: vs[j] == ViewOf(deps[j])
  {
    seq(|deps|, j requires 0 <= j < |deps| reads ResolversOf(deps) => ViewOf(deps[j]))
  }

  /**
   * What Buildr guarantees of the projects it passes: a project name names one project and
   * so one Dependencies object, each hash has one resolver per id, and no two Dependencies
   * share a resolver object.
   */
  ghost predicate Separate(deps: seq<Dependencies>) {
    && (forall j | 0 <= j < |deps| :: deps[j].Valid())
    && (forall a, b | 0 <= a < |deps| && 0 <= b < |deps| && deps[a].project.name == deps[b].project.name ::
          deps[a] == deps[b])
    && (forall a, b, k, l | 0 <= a < |deps| && 0 <= b < |deps| && 0 <= k < |deps[a].resolvers| &&
          0 <= l < |deps[b].resolvers| && deps[a].resolvers[k] == deps[b].resolvers[l] :: deps[a] == deps[b])
  }


  /** Two positions with the same slot hold the same resolver. */
  ghost predicate SlotsDetermine(deps: seq<Dependencies>) {
    forall a, b, k, l | 0 <= a < |deps| && 0 <= b < |deps| && 0 <= k < |deps[a].resolvers| &&
                        0 <= l < |deps[b].resolvers| &&
                        deps[a].project.name == deps[b].project.name &&
                        deps[a].resolvers[k].id == deps[b].resolvers[l].id ::
      deps[a].resolvers[k] == deps[b].resolvers[l]
  }

  /** Two positions holding the same resolver belong to projects of the same name. */
  ghost predicate ResolversDetermine(deps: seq<Dependencies>) {
    forall a, b, k, l | 0 <= a < |deps| && 0 <= b < |deps| && 0 <= k < |deps[a].resolvers| &&
                        0 <= l < |deps[b].resolvers| && deps[a].resolvers[k] == deps[b].resolvers[l] ::
      deps[a].project.name == deps[b].project.name
  }

  lemma SeparateDetermines(deps: seq<Dependencies>)
    requires Separate(deps)
    ensures SlotsDetermine(deps) && ResolversDetermine(deps)
  {
    forall a, b, k, l | 0 <= a < |deps| && 0 <= b < |deps| && 0 <= k < |deps[a].resolvers| &&
                        0 <= l < |deps[b].resolvers| &&
                        deps[a].project.name == deps[b].project.name &&
                        deps[a].resolvers[k].id == deps[b].resolvers[l].id
      ensures deps[a].resolvers[k] == deps[b].resolvers[l]
    {
      assert deps[a] == deps[b] && deps[a].Valid();
    }
  }

  /** Snapshots taken of these projects: names, lengths and ids agree (the lists may since have been sorted). */
  ghost predicate Shaped(deps: seq<Dependencies>, views: seq<ProjectView>) {
    && |views| == |deps|
    && forall j | 0 <= j < |deps| ::
         && views[j].name == deps[j].project.name
         && |views[j].resolvers| == |deps[j].resolvers|
         && forall k | 0 <= k < |deps[j].resolvers| :: views[j].resolvers[k].id == deps[j].resolvers[k].id
  }

  lemma SeparateIsCoherent(deps: seq<Dependencies>, views: seq<ProjectView>)
    requires Separate(deps) && Shaped(deps, views)
    requires forall j, k | 0 <= j < |deps| && 0 <= k < |deps[j].resolvers| ::
               views[j].resolvers[k] == Snapshot(deps[j].resolvers[k].id, views[j].resolvers[k].lists)
    requires forall a, b | 0 <= a < |deps| && 0 <= b < |deps| && deps[a] == deps[b] :: views[a] == views[b]
    ensures Coherent(views)
  {
    forall j, k, l | 0 <= j < |views| && 0 <= k < l < |views[j].resolvers|
      ensures views[j].resolvers[k].id != views[j].resolvers[l].id
    {
      assert deps[j].Valid();
    }
  }

  /**
   * One resolver's lists against its entry. A list `||=` took from the resolver has been
   * sorted in place through the shared array; any other list is as the snapshot has it.
   * A list in the file is in the document being built.
   */
  ghost predicate Settled(r: Resolver, ondisk: Entry, now: Entry, st: Lists)
    reads r
  {
    && (ondisk.artifacts.Some? ==> now.artifacts.Some?)
    && (ondisk.projects.Some? ==> now.projects.Some?)
    && r.artifacts == (if ondisk.artifacts.None? && now.artifacts.Some? then Sort(st.artifacts) else st.artifacts)
    && r.projects == (if ondisk.projects.None? && now.projects.Some? then Sort(st.projects) else st.projects)
  }

  /** Every resolver passed to `write` is settled against the document built so far. */
  ghost predicate Aliased(deps: seq<Dependencies>, views: seq<ProjectView>, disk: Document, doc: Document)
    requires Shaped(deps, views)
    reads ResolversOf(deps)
  {
    forall j, k | 0 <= j < |deps| && 0 <= k < |deps[j].resolvers| ::
      Settled(deps[j].resolvers[k],
              EntryAt(disk, deps[j].project.name, deps[j].resolvers[k].id),
              EntryAt(doc, deps[j].project.name, deps[j].resolvers[k].id),
              views[j].resolvers[k].lists)
  }

  /**
   * Lines 51-56 for one resolver: `||=` makes a missing list the resolver's own array, and
   * `sort!` then sorts the entry's arrays, and with them the resolver's when shared.
   */
  method WriteResolver(r: Resolver, name: ProjectName, doc: Document) returns (doc': Document)
    modifies r`artifacts, r`projects
    ensures doc' == PutEntry(doc, name, r.id, WriteEntry(EntryAt(doc, name, r.id), old(r.State())))
    ensures r.artifacts == if EntryAt(doc, name, r.id).artifacts.None? then Sort(old(r.artifacts)) else old(r.artifacts)
    ensures r.projects == if EntryAt(doc, name, r.id).projects.None? then Sort(old(r.projects)) else old(r.projects)
  {
    var e := EntryAt(doc, name, r.id);
    var shareArtifacts := e.artifacts.None?;
    var shareProjects := e.projects.None?;
    var artifacts := e.artifacts.GetOr(r.artifacts);
    var projects := e.projects.GetOr(r.projects);
    artifacts := Sort(artifacts);
    projects := Sort(projects);
    if shareArtifacts {
      r.artifacts := artifacts;
    }
    if shareProjects {
      r.projects := projects;
    }
    doc' := PutEntry(doc, name, r.id, Entry(Some(artifacts), Some(projects)));
  }

  /** Creating a project's missing hash changes no entry, so every resolver stays settled. */
  lemma HashCreatedSettled(deps: seq<Dependencies>, views: seq<ProjectView>, disk: Document, doc: Document,
                           name: ProjectName)
    requires Shaped(deps, views) && Aliased(deps, views, disk, doc)
    ensures Aliased(deps, views, disk, WriteResolvers(doc, name, []))
  {
    var doc' := WriteResolvers(doc, name, []);
    forall j, l | 0 <= j < |deps| && 0 <= l < |deps[j].resolvers|
      ensures EntryAt(doc', deps[j].project.name, deps[j].resolvers[l].id) ==
              EntryAt(doc, deps[j].project.name, deps[j].resolvers[l].id)
    {
    }
  }

  /** `doc[project.name] ||= {}`: the project's hash, created when the file had none. */
  method OpenHash(ghost deps: seq<Dependencies>, ghost views: seq<ProjectView>, ghost disk: Document,
                  doc: Document, name: ProjectName)
    returns (doc': Document)
    requires Shaped(deps, views) && Aliased(deps, views, disk, doc)
    ensures doc' == WriteResolvers(doc, name, [])
    ensures Aliased(deps, views, disk, doc')
  {
    doc' := doc;
    if name !in doc' {
      doc' := doc'[name := map[]];
    }
    HashCreatedSettled(deps, views, disk, doc, name);
  }

  /** The k-th resolver of the i-th project written, every resolver still settled afterwards. */
  method WriteStep(deps: seq<Dependencies>, i: nat, k: nat, ghost views: seq<ProjectView>, ghost disk: Document,
                   ghost start: Document, doc: Document)
    returns (doc': Document)
    requires SlotsDetermine(deps) && ResolversDetermine(deps) && Shaped(deps, views) && i < |deps| && k < |deps[i].resolvers|
    requires doc == WriteResolvers(start, deps[i].project.name, views[i].resolvers[..k])
    requires Aliased(deps, views, disk, doc)
    modifies deps[i].resolvers[k]
    ensures doc' == WriteResolvers(start, deps[i].project.name, views[i].resolvers[..k + 1])
    ensures Aliased(deps, views, disk, doc')
  {
    var r := deps[i].resolvers[k];
    var name := deps[i].project.name;
    WriteResolversSnoc(start, name, views[i].resolvers, k);
    doc' := WriteResolver(r, name, doc);
    forall j, l | 0 <= j < |deps| && 0 <= l < |deps[j].resolvers|
      ensures Settled(deps[j].resolvers[l],
                      EntryAt(disk, deps[j].project.name, deps[j].resolvers[l].id),
                      EntryAt(doc', deps[j].project.name, deps[j].resolvers[l].id),
                      views[j].resolvers[l].lists)
    {
      var r' := deps[j].resolvers[l];
      PutEntryAt(doc, name, r.id, WriteEntry(EntryAt(doc, name, r.id), views[i].resolvers[k].lists),
                 deps[j].project.name, r'.id);
      if r' == r {
        assert deps[j].project.name == name;
      }
    }
  }

  /** Lines 48-57 for one project: its hash created if missing, then each resolver in hash order. */
  method WriteProject(deps: seq<Dependencies>, i: nat, ghost views: seq<ProjectView>, ghost disk: Document, doc: Document)
    returns (doc': Document)
    requires SlotsDetermine(deps) && ResolversDetermine(deps) && Shaped(deps, views) && i < |deps|
    requires Aliased(deps, views, disk, doc)
    modifies deps[i].resolvers
    ensures doc' == WriteResolvers(doc, deps[i].project.name, views[i].resolvers)
    ensures Aliased(deps, views, disk, doc')
  {
    var name := deps[i].project.name;
    var rs := deps[i].resolvers;
    doc' := OpenHash(deps, views, disk, doc, name);
    ghost var vs := views[i].resolvers;
    assert |vs| == |rs| && vs[..0] == [];
    var k := 0;
    while k < |rs|
      invariant 0 <= k <= |rs|
      invariant doc' == WriteResolvers(doc, name, vs[..k])
      invariant Aliased(deps, views, disk, doc')
    {
      doc' := WriteStep(deps, i, k, views, disk, doc, doc');
      k := k + 1;
      assert doc' == WriteResolvers(doc, name, vs[..k]);
    }
    assert vs[..k] == vs;
  }

  /** Once every project is written, each list the file lacked is the resolver's own, sorted. */
  lemma SettledAtEnd(deps: seq<Dependencies>, views: seq<ProjectView>, disk: Document)
    requires Shaped(deps, views) && Coherent(views)
    requires Aliased(deps, views, disk, WriteAll(disk, views))
    ensures forall j, k | 0 <= j < |deps| && 0 <= k < |deps[j].resolvers| ::
              var r := deps[j].resolvers[k];
              var e := EntryAt(disk, deps[j].project.name, r.id);
              var st := views[j].resolvers[k].lists;
              && r.artifacts == (if e.artifacts.None? then Sort(st.artifacts) else st.artifacts)
              && r.projects == (if e.projects.None? then Sort(st.projects) else st.projects)
  {
    forall j, k | 0 <= j < |deps| && 0 <= k < |deps[j].resolvers|
      ensures EntryAt(WriteAll(disk, views), deps[j].project.name, deps[j].resolvers[k].id).artifacts.Some?
      ensures EntryAt(WriteAll(disk, views), deps[j].project.name, deps[j].resolvers[k].id).projects.Some?
    {
      WriteAllWrites(disk, views, j, k);
    }
  }

  /** Before anything is written, the snapshots fit the projects and every resolver is settled against the file. */
  lemma ViewsAtStart(deps: seq<Dependencies>, disk: Document)
    ensures Shaped(deps, Views(deps))
    ensures Aliased(deps, Views(deps), disk, disk)
  {
  }

  /** Lines 47-58: `projects.each`, every project written in the order given. */
  method WriteProjects(deps: seq<Dependencies>, ghost views: seq<ProjectView>, disk: Document)
    returns (doc: Document)
    requires SlotsDetermine(deps) && ResolversDetermine(deps) && Shaped(deps, views)
    requires Aliased(deps, views, disk, disk)
    modifies ResolversOf(deps)
    ensures doc == WriteAll(disk, views)
    ensures Aliased(deps, views, disk, doc)
  {
    doc := disk;
    var i := 0;
    while i < |deps|
      invariant 0 <= i <= |deps|
      invariant doc == WriteAll(disk, views[..i])
      invariant Aliased(deps, views, disk, doc)
    {
      WriteAllSnoc(disk, views, i);
      doc := WriteProject(deps, i, views, disk, doc);
      assert doc == WriteAll(disk, views[..i + 1]);
      i := i + 1;
    }
    assert views[..i] == views;
  }

  /**
   * `write(projects)`: the document at the root of the first project, with every passed
   * project's resolvers overlaid in order. Lists the file lacked are the resolvers' own
   * arrays, which `sort!` sorts in place.
   */
  method Write(deps: seq<Dependencies>, files: Files) returns (out: Result<Written, WriteError>)
    requires Separate(deps)
    modifies ResolversOf(deps)
    ensures deps == [] ==> out == Err(NoProjects)
    ensures deps != [] ==>
              var root := FindRoot(deps[0].project).baseDir;
              out == Ok(Written(root, WriteAll(Load(files, root), old(Views(deps)))))
    ensures deps != [] ==>
              forall j, k | 0 <= j < |deps| && 0 <= k < |deps[j].resolvers| ::
                var r := deps[j].resolvers[k];
                var e := EntryAt(Load(files, FindRoot(deps[0].project).baseDir), deps[j].project.name, r.id);
                && r.artifacts == (if e.artifacts.None? then Sort(old(r.artifacts)) else old(r.artifacts))
                && r.projects == (if e.projects.None? then Sort(old(r.projects)) else old(r.projects))
  {
    if deps == [] {
      return Err(NoProjects);
    }
    var root := FindRoot(deps[0].project).baseDir;
    var disk := Load(files, root);
    ghost var views := Views(deps);
    ViewsAtStart(deps, disk);
    SeparateIsCoherent(deps, views);
    SeparateDetermines(deps);
    var doc := WriteProjects(deps, views, disk);
    SettledAtEnd(deps, views, disk);
    return Ok(Written(root, doc));
  }
}
