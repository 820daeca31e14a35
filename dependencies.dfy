/**
 * The Dependencies object every project gets after it is defined: the resolvers that
 * apply to the project, keyed by id, the read of their lists from the cached document,
 * resolving, and the `dependencies(id)` query of ResolvingExtension.
 */
module Dependency {
  import opened Wrappers
  import opened Builtins
  import opened Projects
  import opened Documents
  import opened Resolvers
  import opened Closure

  /** One element of `dependencies(id)`: an artifact specification or a project. */
  datatype Dep = Artifact(spec: string) | ProjectRef(name: ProjectName)

  /** The artifact specifications among `ds`, in order. */
  function Specs(ds: seq<Dep>): (r: seq<string>)
    ensures |r| <= |ds|
  {
    if ds == [] then []
    else (if ds[0].Artifact? then [ds[0].spec] else []) + Specs(ds[1..])
  }

  /** The projects among `ds`, in order. */
  function Names(ds: seq<Dep>): (r: seq<ProjectName>)
    ensures |r| <= |ds|
  {
    if ds == [] then []
    else (if ds[0].ProjectRef? then [ds[0].name] else []) + Names(ds[1..])
  }

  /** Splitting a concatenation splits both projections. */
  lemma SpecsNamesAppend(a: seq<Dep>, b: seq<Dep>)
    ensures Specs(a + b) == Specs(a) + Specs(b) && Names(a + b) == Names(a) + Names(b)
  {
    SpecsAppend(a, b);
    NamesAppend(a, b);
  }

  lemma {:induction false} SpecsAppend(a: seq<Dep>, b: seq<Dep>)
    ensures Specs(a + b) == Specs(a) + Specs(b)
  {
    if a == [] {
      assert a + b == b;
    } else {
      var head := if a[0].Artifact? then [a[0].spec] else [];
      assert (a + b)[0] == a[0] && (a + b)[1..] == a[1..] + b;
      assert Specs(a + b) == head + Specs(a[1..] + b);
      SpecsAppend(a[1..], b);
      assert Specs(a) == head + Specs(a[1..]);
    }
  }

  lemma {:induction false} NamesAppend(a: seq<Dep>, b: seq<Dep>)
    ensures Names(a + b) == Names(a) + Names(b)
  {
    if a == [] {
      assert a + b == b;
    } else {
      var head := if a[0].ProjectRef? then [a[0].name] else [];
      assert (a + b)[0] == a[0] && (a + b)[1..] == a[1..] + b;
      assert Names(a + b) == head + Names(a[1..] + b);
      NamesAppend(a[1..], b);
      assert Names(a) == head + Names(a[1..]);
    }
  }

  /** Artifacts wrapped one by one project back to themselves and hold no project. */
  lemma {:induction false} SpecsOfArtifacts(ds: seq<Dep>, xs: seq<string>)
    requires |ds| == |xs| && forall k | 0 <= k < |ds| :: ds[k] == Artifact(xs[k])
    ensures Specs(ds) == xs && Names(ds) == []
  {
    if ds != [] {
      SpecsOfArtifacts(ds[1..], xs[1..]);
    }
  }

  /** Projects wrapped one by one project back to themselves and hold no artifact. */
  lemma {:induction false} NamesOfProjects(ds: seq<Dep>, ps: seq<ProjectName>)
    requires |ds| == |ps| && forall k | 0 <= k < |ds| :: ds[k] == ProjectRef(ps[k])
    ensures Names(ds) == ps && Specs(ds) == []
  {
    if ds != [] {
      NamesOfProjects(ds[1..], ps[1..]);
    }
  }

  /** The key a resolver is filed under in `@resolvers`: the id of its kind. */
  function KindId(k: ResolverKind): ResolverId {
    k.Id()
  }

  /** The lists a read leaves in a resolver: `artifacts.flatten.compact.uniq`, projects as read. */
  function Tidy(st: Lists): (r: Lists)
    ensures NoDup(r.artifacts) && r.projects == st.projects
    ensures forall a :: a in r.artifacts <==> a in st.artifacts
  {
    Lists(Uniq(st.artifacts), st.projects)
  }

  /** A well-shaped read result is already tidy: the final `uniq` changes nothing. */
  lemma TidyOfRead(c: Context, st: Lists)
    requires WellShaped(c, st)
    ensures Tidy(st) == st
  {
    UniqOfNoDup(st.artifacts);
  }

  /** One step of the walk over a projects list, as the loop of `_read` takes it. */
  lemma VisitStep(c: Context, st: Lists, qs: seq<ProjectName>, i: nat)
    requires AllReferenced(c, qs) && i < |qs|
    ensures AllReferenced(c, qs[i..]) && AllReferenced(c, qs[i + 1..])
    ensures var sub := c.lookup(qs[i]);
            if sub in st.projects || sub == c.owner then
              Visit(c, st, qs[i..]) == Visit(c, st, qs[i + 1..])
            else
              sub in Referenced(c) &&
              match Enter(c, Lists(st.artifacts, st.projects + [sub]), sub)
              case Err(e) => Visit(c, st, qs[i..]) == Err(e)
              case Ok(st2) => Visit(c, st, qs[i..]) == Visit(c, st2, qs[i + 1..])
  {
    assert qs[i..][0] == qs[i] && qs[i..][1..] == qs[i + 1..];
  }

  /**
   * `_read(resolver, p, add_project)`: record `p` when asked to, stop when the document has
   * no artifacts for it, otherwise unite them into the resolver's artifacts and read every
   * listed sub-project not yet recorded and not the owner. It does to the resolver's lists
   * what Enter computes, and raises what Enter reports.
   */
  method ReadInto(res: Resolver, p: ProjectName, addProject: bool, c: Context) returns (out: Outcome<ReadError>)
    requires c.id == res.id
    requires addProject ==> p !in res.projects && p in Referenced(c)
    modifies res`artifacts, res`projects
    ensures var start := Lists(old(res.artifacts), if addProject then old(res.projects) + [p] else old(res.projects));
            match out
            case Pass => Enter(c, start, p) == Ok(res.State())
            case Fail(e) => Enter(c, start, p) == Err(e)
    decreases Pending(c, Lists(res.artifacts, if addProject then res.projects + [p] else res.projects))
  {
    if addProject {
      res.projects := res.projects + [p];
    }
    ghost var start := res.State();
    if p !in c.doc {
      return Pass;
    }
    if c.id !in c.doc[p] {
      return Fail(NoResolverEntry(p, c.id));
    }
    var e := c.doc[p][c.id];
    if e.artifacts.None? {
      return Pass;
    }
    res.artifacts := Union(res.artifacts, e.artifacts.value);
    if e.projects.None? {
      return Fail(NoProjectsList(p, c.id));
    }
    var qs := e.projects.value;
    ListedIsReferenced(c, p);
    ghost var want := Visit(c, res.State(), qs);
    assert Enter(c, start, p) == want;
    var i := 0;
    while i < |qs|
      invariant 0 <= i <= |qs|
      invariant Visit(c, res.State(), qs[i..]) == want
      invariant IsPrefix(start.projects, res.projects)
    {
      var sub := c.lookup(qs[i]);
      VisitStep(c, res.State(), qs, i);
      if !(sub in res.projects || sub == c.owner) {
        ghost var before := res.State();
        PendingShrinks(c, before, sub);
        PendingMonotone(c, start, before);
        var o := ReadInto(res, sub, true, c);
        if o.Fail? {
          return o;
        }
        PrefixTransitive(start.projects, before.projects, before.projects + [sub]);
        PrefixTransitive(start.projects, before.projects + [sub], res.projects);
      }
      i := i + 1;
    }
    return Pass;
  }

  /** What `read` does to one resolver whose lists hold `before`: the read, then `uniq` on its artifacts. */
  function ReadResolver(c: Context, before: Lists): (r: Result<Lists, ReadError>)
    ensures r.Ok? <==> ReadFrom(c, before).Ok?
    ensures r.Ok? ==> r.value == Tidy(ReadFrom(c, before).value)
    ensures r.Err? ==> r.error == ReadFrom(c, before).error
  {
    match ReadFrom(c, before)
    case Ok(st) => Ok(Tidy(st))
    case Err(e) => Err(e)
  }

  /** The body of the `resolvers.each` block in `read`, for one resolver. */
  method ReadOne(res: Resolver, c: Context) returns (out: Outcome<ReadError>)
    requires c.id == res.id
    modifies res`artifacts, res`projects
    ensures match out
            case Pass => ReadResolver(c, old(res.State())) == Ok(res.State())
            case Fail(e) => ReadResolver(c, old(res.State())) == Err(e)
  {
    out := ReadInto(res, c.owner, false, c);
    if out.Pass? {
      res.artifacts := Uniq(res.artifacts);
    }
  }

  /** Where the resolver with this id sits among `rs`, if any (a lookup in the `@resolvers` hash). */
  function Position(rs: seq<Resolver>, id: ResolverId): (r: Option<nat>)
    ensures r.Some? ==> r.value < |rs| && rs[r.value].id == id
    ensures r.None? ==> forall i | 0 <= i < |rs| :: rs[i].id != id
  {
    if |rs| == 0 then None
    else if rs[0].id == id then Some(0)
    else match Position(rs[1..], id)
      case None => None
      case Some(i) => Some(i + 1)
  }

  /** With ids unique, the lookup finds exactly the resolver filed under the id. */
  lemma {:induction false} PositionFiled(rs: seq<Resolver>, i: nat)
    requires i < |rs|
    requires forall j, k | 0 <= j < k < |rs| :: rs[j].id != rs[k].id
    ensures Position(rs, rs[i].id) == Some(i)
  {
    if i > 0 {
      assert rs[0].id != rs[i].id;
      PositionFiled(rs[1..], i - 1);
    }
  }

  /** Resolvers `m` of kinds `ks`, each with empty lists and associated with `owner`. */
  ghost predicate Blank(m: seq<Resolver>, ks: seq<ResolverKind>, owner: ProjectName)
    reads m
  {
    && |m| == |ks|
    && forall k | 0 <= k < |m| ::
         && m[k].kind == ks[k] && m[k].id == KindId(ks[k])
         && m[k].State() == Lists([], []) && m[k].project == Some(owner)
  }

  lemma BlankReplace(m: seq<Resolver>, ks: seq<ResolverKind>, owner: ProjectName, k: nat, res: Resolver)
    requires Blank(m, ks, owner) && k < |m|
    requires res.id == KindId(res.kind) && res.State() == Lists([], []) && res.project == Some(owner)
    ensures Blank(m[k := res], ks[k := res.kind], owner)
  {
  }

  lemma BlankAppend(m: seq<Resolver>, ks: seq<ResolverKind>, owner: ProjectName, res: Resolver)
    requires Blank(m, ks, owner)
    requires res.id == KindId(res.kind) && res.State() == Lists([], []) && res.project == Some(owner)
    ensures Blank(m + [res], ks + [res.kind], owner)
  {
  }

  /** `n.new` followed by `associate_with`: a new resolver of one kind, owned by `owner`. */
  method Spawn(kind: ResolverKind, owner: ProjectName) returns (res: Resolver)
    ensures fresh(res) && res.kind == kind && res.id == KindId(kind)
    ensures res.State() == Lists([], []) && res.project == Some(owner)
  {
    res := new Resolver(kind);
    res.AssociateWith(owner);
  }

  /** One step of the `inject`: a new resolver for `app[i]`, merged into `m` under its id. */
  method Place(m: seq<Resolver>, ghost ks: seq<ResolverKind>, app: seq<ResolverKind>, i: nat, owner: ProjectName)
    returns (m2: seq<Resolver>, ghost ks2: seq<ResolverKind>)
    requires i < |app| && Filed(ks, app[..i], KindId) && Blank(m, ks, owner)
    ensures Filed(ks2, app[..i + 1], KindId) && Blank(m2, ks2, owner)
    ensures forall r | r in m2 :: r in m || fresh(r)
  {
    var res := Spawn(app[i], owner);
    match Position(m, res.id) {
      case Some(k) =>
        FiledReplace(ks, app, KindId, i, k);
        BlankReplace(m, ks, owner, k, res);
        m2, ks2 := m[k := res], ks[k := app[i]];
      case None =>
        FiledAppend(ks, app, KindId, i);
        BlankAppend(m, ks, owner, res);
        m2, ks2 := m + [res], ks + [app[i]];
    }
  }

  /**
   * The `select`/`inject` of `initialize`: a new resolver for every kind, associated with
   * the owner and merged into the hash under its id. `ks` are the kinds the hash ends up
   * with, in its order.
   */
  method Instantiate(app: seq<ResolverKind>, owner: ProjectName) returns (m: seq<Resolver>, ghost ks: seq<ResolverKind>)
    ensures Filed(ks, app, KindId)
    ensures |m| == |ks| && forall k | 0 <= k < |m| :: m[k].kind == ks[k] && m[k].id == KindId(ks[k])
    ensures forall k | 0 <= k < |m| ::
              fresh(m[k]) && m[k].State() == Lists([], []) && m[k].project == Some(owner)
  {
    m := [];
    ks := [];
    var i := 0;
    while i < |app|
      invariant 0 <= i <= |app|
      invariant Filed(ks, app[..i], KindId)
      invariant Blank(m, ks, owner)
      invariant forall r | r in m :: fresh(r)
    {
      m, ks := Place(m, ks, app, i, owner);
      i := i + 1;
    }
    assert app[..i] == app;
    assert forall k | 0 <= k < |m| :: m[k] in m;
  }

  /** The Dependencies object of one project. */
  class Dependencies {
    const project: Project
    /** `@resolvers`: the hash's values in the order it yields them; each is keyed by its own id. */
    const resolvers: seq<Resolver>

    /** The hash has one entry per id. */
    ghost predicate Valid() {
      forall i, j | 0 <= i < j < |resolvers| :: resolvers[i].id != resolvers[j].id
    }

    /**
     * `initialize` up to `read`: a new resolver for every registered kind that applies,
     * associated with the project and filed under its id; a later kind with the same id
     * replaces the earlier one in the position that id first took.
     */
    constructor (kinds: seq<ResolverKind>, p: Project)
      ensures project == p && Valid()
      ensures |resolvers| == |Uniq(KeysOf(Applicable(kinds, p), KindId))|
      ensures forall i | 0 <= i < |resolvers| ::
                resolvers[i].id == Uniq(KeysOf(Applicable(kinds, p), KindId))[i] &&
                resolvers[i].id in MergedBy(Applicable(kinds, p), KindId) &&
                resolvers[i].kind == MergedBy(Applicable(kinds, p), KindId)[resolvers[i].id]
      ensures forall i | 0 <= i < |resolvers| ::
                fresh(resolvers[i]) && resolvers[i].State() == Lists([], []) &&
                resolvers[i].project == Some(p.name)
    {
      ghost var ks;
      var m;
      m, ks := Instantiate(Applicable(kinds, p), p.name);
      project := p;
      resolvers := m;
    }

    /** The context `_read` works in for the resolver with this id. */
    function ContextFor(doc: Document, id: ResolverId, lookup: ProjectName -> ProjectName): (c: Context)
      ensures c.doc == doc && c.id == id && c.owner == project.name
    {
      Context(doc, id, project.name, lookup)
    }

    /**
     * `read`: nothing when the document has no entry for the project; otherwise each
     * resolver in hash order is read from the project (without recording it) and its
     * artifacts made unique. The first exception ends the read.
     */
    method Read(cache: DocumentCache, files: Files, lookup: ProjectName -> ProjectName) returns (out: Outcome<ReadError>)
      requires Valid()
      modifies resolvers, cache
      ensures cache.loaded.Some?
      ensures old(cache.loaded).None? ==> cache.loaded == Some(Load(files, FindRoot(project).baseDir))
      ensures old(cache.loaded).Some? ==> cache.loaded == old(cache.loaded)
      ensures forall i | 0 <= i < |resolvers| :: resolvers[i].project == old(resolvers[i].project)
      ensures project.name !in cache.loaded.value ==>
                out == Pass && forall i | 0 <= i < |resolvers| :: resolvers[i].State() == old(resolvers[i].State())
      ensures project.name in cache.loaded.value && out.Pass? ==>
                forall i | 0 <= i < |resolvers| ::
                  ReadResolver(ContextFor(cache.loaded.value, resolvers[i].id, lookup), old(resolvers[i].State())) ==
                    Ok(resolvers[i].State())
      ensures project.name in cache.loaded.value && out.Fail? ==>
                exists k | 0 <= k < |resolvers| ::
                  ReadResolver(ContextFor(cache.loaded.value, resolvers[k].id, lookup), old(resolvers[k].State())) ==
                    Err(out.error) &&
                  forall j | 0 <= j < k ::
                    ReadResolver(ContextFor(cache.loaded.value, resolvers[j].id, lookup), old(resolvers[j].State())).Ok?
    {
      var doc := cache.Get(project, files);
      if project.name !in doc {
        return Pass;
      }
      var i := 0;
      while i < |resolvers|
        invariant 0 <= i <= |resolvers|
        invariant cache.loaded == Some(doc)
        invariant forall j | 0 <= j < |resolvers| :: resolvers[j].project == old(resolvers[j].project)
        invariant forall j | 0 <= j < i ::
                    ReadResolver(ContextFor(doc, resolvers[j].id, lookup), old(resolvers[j].State())) ==
                      Ok(resolvers[j].State())
        invariant forall j | i <= j < |resolvers| :: resolvers[j].State() == old(resolvers[j].State())
      {
        var res := resolvers[i];
        assert forall j | 0 <= j < |resolvers| && j != i :: resolvers[j] != res;
        var o := ReadOne(res, ContextFor(doc, res.id, lookup));
        if o.Fail? {
          return o;
        }
        i := i + 1;
      }
      return Pass;
    }

    /** `resolve`: every resolver resolves once; nothing else changes. */
    method Resolve()
      requires Valid()
      modifies resolvers
      ensures forall i | 0 <= i < |resolvers| ::
                resolvers[i].artifacts == Resolved(resolvers[i].kind, old(resolvers[i].artifacts)) &&
                resolvers[i].projects == old(resolvers[i].projects) &&
                resolvers[i].project == old(resolvers[i].project)
    {
      var i := 0;
      while i < |resolvers|
        invariant 0 <= i <= |resolvers|
        invariant forall j | 0 <= j < i ::
                    resolvers[j].artifacts == Resolved(resolvers[j].kind, old(resolvers[j].artifacts))
        invariant forall j | i <= j < |resolvers| :: resolvers[j].artifacts == old(resolvers[j].artifacts)
        invariant forall j | 0 <= j < |resolvers| ::
                    resolvers[j].projects == old(resolvers[j].projects) &&
                    resolvers[j].project == old(resolvers[j].project)
      {
        var res := resolvers[i];
        assert forall j | 0 <= j < |resolvers| && j != i :: resolvers[j] != res;
        res.Resolve();
        i := i + 1;
      }
    }

    /** `dependencies(id)`: nothing for an unknown id, else that resolver's artifacts then its projects. */
    function Query(id: ResolverId): (r: seq<Dep>)
      reads resolvers
      ensures Position(resolvers, id).None? ==> r == []
      ensures Position(resolvers, id).Some? ==> r == Answer(resolvers[Position(resolvers, id).value].State())
    {
      match Position(resolvers, id)
      case None => []
      case Some(i) => Answer(resolvers[i].State())
    }

    /** Each resolver's answer splits back into exactly its artifacts and its projects. */
    lemma QueryRecoversLists(i: nat)
      requires Valid() && i < |resolvers|
      ensures Specs(Query(resolvers[i].id)) == resolvers[i].artifacts
      ensures Names(Query(resolvers[i].id)) == resolvers[i].projects
    {
      PositionFiled(resolvers, i);
      AnswerRecoversLists(resolvers[i].State());
    }
  }

  /** `resolver.artifacts + resolver.projects`: the artifacts, then the projects, each in order. */
  function Answer(st: Lists): (r: seq<Dep>)
    ensures |r| == |st.artifacts| + |st.projects|
    ensures forall k | 0 <= k < |st.artifacts| :: r[k] == Artifact(st.artifacts[k])
    ensures forall k | 0 <= k < |st.projects| :: r[|st.artifacts| + k] == ProjectRef(st.projects[k])
  {
    seq(|st.artifacts|, k requires 0 <= k < |st.artifacts| => Artifact(st.artifacts[k])) +
    seq(|st.projects|, k requires 0 <= k < |st.projects| => ProjectRef(st.projects[k]))
  }

  /** The answer splits back into exactly the artifacts and the projects. */
  lemma AnswerRecoversLists(st: Lists)
    ensures Specs(Answer(st)) == st.artifacts && Names(Answer(st)) == st.projects
  {
    var r := Answer(st);
    var a := r[..|st.artifacts|];
    var b := r[|st.artifacts|..];
    assert r == a + b;
    SpecsOfArtifacts(a, st.artifacts);
    NamesOfProjects(b, st.projects);
    SpecsNamesAppend(a, b);
  }

  /**
   * `after_define`: a project gets its Dependencies, built from the registered kinds and
   * then read from the cached document. An exception raised by the read ends the definition.
   */
  method Define(kinds: seq<ResolverKind>, p: Project, cache: DocumentCache, files: Files,
                lookup: ProjectName -> ProjectName)
    returns (d: Dependencies, out: Outcome<ReadError>)
    modifies cache
    ensures fresh(d) && d.Valid() && d.project == p && cache.loaded.Some?
    ensures old(cache.loaded).None? ==> cache.loaded == Some(Load(files, FindRoot(p).baseDir))
    ensures old(cache.loaded).Some? ==> cache.loaded == old(cache.loaded)
    ensures |d.resolvers| == |Uniq(KeysOf(Applicable(kinds, p), KindId))|
    ensures forall i | 0 <= i < |d.resolvers| :: d.resolvers[i].id == Uniq(KeysOf(Applicable(kinds, p), KindId))[i]
    ensures p.name !in cache.loaded.value ==>
              out == Pass && forall i | 0 <= i < |d.resolvers| :: d.resolvers[i].State() == Lists([], [])
    ensures p.name in cache.loaded.value && out.Pass? ==>
              forall i | 0 <= i < |d.resolvers| ::
                ReadFrom(d.ContextFor(cache.loaded.value, d.resolvers[i].id, lookup), Lists([], [])) ==
                  Ok(d.resolvers[i].State())
  {
    d := new Dependencies(kinds, p);
    out := d.Read(cache, files, lookup);
    if p.name in cache.loaded.value && out.Pass? {
      forall i | 0 <= i < |d.resolvers|
        ensures ReadFrom(d.ContextFor(cache.loaded.value, d.resolvers[i].id, lookup), Lists([], [])) ==
                  Ok(d.resolvers[i].State())
      {
        var c := d.ContextFor(cache.loaded.value, d.resolvers[i].id, lookup);
        var r := ReadFrom(c, Lists([], [])).value;
        FreshReadIsClosure(c, r);
      }
    }
  }
}
