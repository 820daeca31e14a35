/**
 * The recursive read `_read` of Dependencies, as functions over a resolver's two lists:
 * a depth-first walk over the `projects` lists of the document that uses the resolver's
 * own `projects` as its visited set, and what that walk is proved to produce.
 */
module Closure {
  import opened Wrappers
  import opened Builtins
  import opened Projects
  import opened Documents

  /** The exceptions `_read` raises on a document that lacks an expected key. */
  datatype ReadError =
      /** The project has an entry but none for this resolver id: `nil["artifacts"]`. */
    | NoResolverEntry(project: ProjectName, id: ResolverId)
      /** The resolver entry has artifacts but no projects list: `nil.each`. */
    | NoProjectsList(project: ProjectName, id: ResolverId)

  /**
   * What one top-level read works with: the cached document, the resolver id, the project
   * whose Dependencies is being built (`@project`), and `Buildr::project`, which names the
   * project a listed name stands for.
   */
  datatype Context = Context(doc: Document, id: ResolverId, owner: ProjectName, lookup: ProjectName -> ProjectName)

  /** The entry for `p` under the context's resolver id, if the document has one. */
  function EntryOf(c: Context, p: ProjectName): Option<Entry> {
    if p in c.doc && c.id in c.doc[p] then Some(c.doc[p][c.id]) else None
  }

  /** The artifacts `p` contributes when it is read: its listed artifacts, or none. */
  function Contributed(c: Context, p: ProjectName): seq<string> {
    match EntryOf(c, p)
    case Some(Entry(Some(arts), _)) => arts
    case _ => []
  }

  // ---------------------------------------------------------------- termination measure

  /** Every project some entry for this resolver id lists, as `Buildr::project` names it. */
  ghost function Referenced(c: Context): set<ProjectName> {
    set n, q | n in c.doc && c.id in c.doc[n] && c.doc[n][c.id].projects.Some?
                 && q in c.doc[n][c.id].projects.value :: c.lookup(q)
  }

  ghost function Recorded(st: Lists): set<ProjectName> {
    set p | p in st.projects
  }

  /** How many referenced projects the walk may still enter. */
  ghost function Pending(c: Context, st: Lists): nat {
    |Referenced(c) - Recorded(st)|
  }

  /** Every name in `qs` stands for a referenced project. */
  ghost predicate AllReferenced(c: Context, qs: seq<ProjectName>) {
    forall q | q in qs :: c.lookup(q) in Referenced(c)
  }

  lemma ListedIsReferenced(c: Context, n: ProjectName)
    requires n in c.doc && c.id in c.doc[n] && c.doc[n][c.id].projects.Some?
    ensures AllReferenced(c, c.doc[n][c.id].projects.value)
  {
    forall q | q in c.doc[n][c.id].projects.value ensures c.lookup(q) in Referenced(c) {
    }
  }

  lemma {:induction false} SubsetCard<T>(a: set<T>, b: set<T>)
    requires a <= b
    ensures |a| <= |b|
    decreases |a|
  {
    if a != {} {
      var x :| x in a;
      SubsetCard(a - {x}, b - {x});
    }
  }

  lemma PendingShrinks(c: Context, st: Lists, p: ProjectName)
    requires p in Referenced(c) && p !in st.projects
    ensures Pending(c, Lists(st.artifacts, st.projects + [p])) < Pending(c, st)
  {
    var st' := Lists(st.artifacts, st.projects + [p]);
    assert Recorded(st') == Recorded(st) + {p};
    assert Referenced(c) - Recorded(st') == (Referenced(c) - Recorded(st)) - {p};
  }

  lemma PendingMonotone(c: Context, a: Lists, b: Lists)
    requires IsPrefix(a.projects, b.projects)
    ensures Pending(c, b) <= Pending(c, a)
  {
    assert Recorded(a) <= Recorded(b) by {
      forall p | p in Recorded(a) ensures p in Recorded(b) {
        var i :| 0 <= i < |a.projects| && a.projects[i] == p;
        assert b.projects[i] == p;
      }
    }
    SubsetCard(Referenced(c) - Recorded(b), Referenced(c) - Recorded(a));
  }

  // ---------------------------------------------------------------- the walk

  /**
   * The body of `_read(resolver, p, add_project)` after the optional `projects << p`:
   * an absent project or an entry without artifacts ends the walk here; otherwise the
   * artifacts are united into the list and the listed sub-projects are visited.
   */
  function Enter(c: Context, st: Lists, p: ProjectName): (r: Result<Lists, ReadError>)
    ensures r.Ok? ==> IsPrefix(st.projects, r.value.projects)
    decreases Pending(c, st), 1, 0
  {
    if p !in c.doc then Ok(st)
    else if c.id !in c.doc[p] then Err(NoResolverEntry(p, c.id))
    else
      var e := c.doc[p][c.id];
      if e.artifacts.None? then Ok(st)
      else if e.projects.None? then Err(NoProjectsList(p, c.id))
      else
        ListedIsReferenced(c, p);
        Visit(c, Lists(Union(st.artifacts, e.artifacts.value), st.projects), e.projects.value)
  }

  /**
   * The `.each` over a projects list: a name whose project is already recorded, or is the
   * owner, is skipped; any other is recorded and then entered.
   */
  function Visit(c: Context, st: Lists, qs: seq<ProjectName>): (r: Result<Lists, ReadError>)
    requires AllReferenced(c, qs)
    ensures r.Ok? ==> IsPrefix(st.projects, r.value.projects)
    decreases Pending(c, st), 0, |qs|
  {
    if qs == [] then Ok(st)
    else
      var sub := c.lookup(qs[0]);
      if sub in st.projects || sub == c.owner then Visit(c, st, qs[1..])
      else
        var st' := Lists(st.artifacts, st.projects + [sub]);
        PendingShrinks(c, st, sub);
        match Enter(c, st', sub)
        case Err(e) => Err(e)
        case Ok(st2) =>
          PendingMonotone(c, st', st2);
          var r := Visit(c, st2, qs[1..]);
          if r.Ok? then
            PrefixTransitive(st.projects, st'.projects, st2.projects);
            PrefixTransitive(st.projects, st2.projects, r.value.projects);
            r
          else r
  }

  /** Visiting a non-empty list takes its first name and then visits the rest. */
  lemma VisitHead(c: Context, st: Lists, qs: seq<ProjectName>)
    requires AllReferenced(c, qs) && qs != []
    ensures AllReferenced(c, qs[1..])
    ensures var sub := c.lookup(qs[0]);
            if sub in st.projects || sub == c.owner then
              Visit(c, st, qs) == Visit(c, st, qs[1..])
            else
              sub in Referenced(c) && sub !in st.projects &&
              match Enter(c, Lists(st.artifacts, st.projects + [sub]), sub)
              case Err(e) => Visit(c, st, qs) == Err(e)
              case Ok(st2) => Visit(c, st, qs) == Visit(c, st2, qs[1..])
  {
  }

  /** A listed name already recorded, or naming the owner, is passed over. */
  lemma VisitSkip(c: Context, st: Lists, qs: seq<ProjectName>)
    requires AllReferenced(c, qs) && qs != []
    requires c.lookup(qs[0]) in st.projects || c.lookup(qs[0]) == c.owner
    ensures AllReferenced(c, qs[1..])
    ensures Visit(c, st, qs) == Visit(c, st, qs[1..])
  {
  }

  /** A listed name not yet recorded is recorded and entered before the rest of the list. */
  lemma VisitEnter(c: Context, st: Lists, qs: seq<ProjectName>, st2: Lists)
    requires AllReferenced(c, qs) && qs != []
    requires c.lookup(qs[0]) !in st.projects && c.lookup(qs[0]) != c.owner
    requires Enter(c, Lists(st.artifacts, st.projects + [c.lookup(qs[0])]), c.lookup(qs[0])) == Ok(st2)
    ensures AllReferenced(c, qs[1..])
    ensures Visit(c, st, qs) == Visit(c, st2, qs[1..])
  {
    VisitHead(c, st, qs);
  }

  /** Entering a project whose entry has both lists unites its artifacts and visits its list. */
  lemma EnterListed(c: Context, st: Lists, p: ProjectName, arts: seq<string>, qs: seq<ProjectName>)
    requires p in c.doc && c.id in c.doc[p] && c.doc[p][c.id] == Entry(Some(arts), Some(qs))
    ensures AllReferenced(c, qs)
    ensures Enter(c, st, p) == Visit(c, Lists(Union(st.artifacts, arts), st.projects), qs)
  {
    ListedIsReferenced(c, p);
  }

  /** `_read(resolver, @project, false)` on a resolver whose lists hold `st`. */
  function ReadFrom(c: Context, st: Lists): Result<Lists, ReadError> {
    Enter(c, st, c.owner)
  }

  // ---------------------------------------------------------------- shape of the result

  /** The invariants the walk keeps on the resolver's lists. */
  ghost predicate WellShaped(c: Context, st: Lists) {
    NoDup(st.projects) && c.owner !in st.projects && NoDup(st.artifacts)
  }

  /**
   * Entering keeps the lists well shaped: no project is recorded twice (so none is
   * re-entered), the owner is never recorded, artifacts stay duplicate-free, and both
   * lists only grow at the end.
   */
  lemma {:induction false} EnterKeepsShape(c: Context, st: Lists, p: ProjectName, r: Lists)
    requires WellShaped(c, st)
    requires Enter(c, st, p) == Ok(r)
    ensures WellShaped(c, r)
    ensures IsPrefix(st.artifacts, r.artifacts)
    decreases Pending(c, st), 1, 0, 0
  {
    if p in c.doc && c.id in c.doc[p] {
      var e := c.doc[p][c.id];
      if e.artifacts.Some? && e.projects.Some? {
        ListedIsReferenced(c, p);
        var st1 := Lists(Union(st.artifacts, e.artifacts.value), st.projects);
        UnionExtends(st.artifacts, e.artifacts.value);
        VisitKeepsShape(c, st1, e.projects.value, r);
        PrefixTransitive(st.artifacts, st1.artifacts, r.artifacts);
      }
    }
  }

  lemma {:induction false} VisitKeepsShape(c: Context, st: Lists, qs: seq<ProjectName>, r: Lists)
    requires AllReferenced(c, qs)
    requires WellShaped(c, st)
    requires Visit(c, st, qs) == Ok(r)
    ensures WellShaped(c, r)
    ensures IsPrefix(st.artifacts, r.artifacts)
    decreases Pending(c, st), 0, |qs|, 1
  {
    if qs != [] {
      VisitHead(c, st, qs);
      var sub := c.lookup(qs[0]);
      if sub in st.projects || sub == c.owner {
        VisitKeepsShape(c, st, qs[1..], r);
      } else {
        EnterThenKeepShape(c, st, qs, r);
      }
    }
  }

  /** The step of VisitKeepsShape where the first listed project is recorded and entered. */
  lemma {:induction false} EnterThenKeepShape(c: Context, st: Lists, qs: seq<ProjectName>, r: Lists)
    requires AllReferenced(c, qs) && qs != []
    requires c.lookup(qs[0]) !in st.projects && c.lookup(qs[0]) != c.owner
    requires WellShaped(c, st)
    requires Visit(c, st, qs) == Ok(r)
    ensures WellShaped(c, r)
    ensures IsPrefix(st.artifacts, r.artifacts)
    decreases Pending(c, st), 0, |qs|, 0
  {
    VisitHead(c, st, qs);
    var sub := c.lookup(qs[0]);
    var st' := Lists(st.artifacts, st.projects + [sub]);
    PendingShrinks(c, st, sub);
    NoDupSnoc(st.projects, sub);
    var st2 := Enter(c, st', sub).value;
    EnterKeepsShape(c, st', sub, st2);
    PendingMonotone(c, st', st2);
    VisitKeepsShape(c, st2, qs[1..], r);
    PrefixTransitive(st.artifacts, st2.artifacts, r.artifacts);
  }

  // ---------------------------------------------------------------- completeness

  /** Every sub-project listed under `x` has been recorded, or is the owner. */
  ghost predicate Expanded(c: Context, st: Lists, x: ProjectName) {
    match EntryOf(c, x)
    case Some(Entry(Some(_), Some(qs))) =>
      forall q | q in qs :: c.lookup(q) in st.projects || c.lookup(q) == c.owner
    case _ => true
  }

  lemma ExpandedGrows(c: Context, a: Lists, b: Lists, x: ProjectName)
    requires Expanded(c, a, x)
    requires IsPrefix(a.projects, b.projects)
    ensures Expanded(c, b, x)
  {
    match EntryOf(c, x)
    case Some(Entry(Some(_), Some(qs))) =>
      forall q | q in qs ensures c.lookup(q) in b.projects || c.lookup(q) == c.owner {
        if c.lookup(q) in a.projects {
          var i :| 0 <= i < |a.projects| && a.projects[i] == c.lookup(q);
          assert b.projects[i] == c.lookup(q);
        }
      }
    case _ =>
  }

  /**
   * Entering `p` expands it and every project recorded on the way: the walk records
   * every sub-project reachable through the lists, the transitive ones included.
   */
  lemma {:induction false} EnterExpands(c: Context, st: Lists, p: ProjectName, r: Lists)
    requires Enter(c, st, p) == Ok(r)
    ensures Expanded(c, r, p)
    ensures forall x | x in r.projects :: x in st.projects || Expanded(c, r, x)
    decreases Pending(c, st), 1, 0, 0
  {
    if p in c.doc && c.id in c.doc[p] {
      var e := c.doc[p][c.id];
      if e.artifacts.Some? && e.projects.Some? {
        ListedIsReferenced(c, p);
        var st1 := Lists(Union(st.artifacts, e.artifacts.value), st.projects);
        VisitExpands(c, st1, e.projects.value, r);
      }
    }
  }

  lemma {:induction false} VisitExpands(c: Context, st: Lists, qs: seq<ProjectName>, r: Lists)
    requires AllReferenced(c, qs)
    requires Visit(c, st, qs) == Ok(r)
    ensures forall q | q in qs :: c.lookup(q) in r.projects || c.lookup(q) == c.owner
    ensures forall x | x in r.projects :: x in st.projects || Expanded(c, r, x)
    decreases Pending(c, st), 0, |qs|, 1
  {
    if qs != [] {
      VisitHead(c, st, qs);
      var sub := c.lookup(qs[0]);
      if sub in st.projects || sub == c.owner {
        VisitExpands(c, st, qs[1..], r);
        PrefixContains(st.projects, r.projects);
      } else {
        EnterThenExpand(c, st, qs, r);
      }
    }
  }

  /** The step of VisitExpands where the first listed project is recorded and entered. */
  lemma {:induction false} EnterThenExpand(c: Context, st: Lists, qs: seq<ProjectName>, r: Lists)
    requires AllReferenced(c, qs) && qs != []
    requires c.lookup(qs[0]) !in st.projects && c.lookup(qs[0]) != c.owner
    requires Visit(c, st, qs) == Ok(r)
    ensures forall q | q in qs :: c.lookup(q) in r.projects || c.lookup(q) == c.owner
    ensures forall x | x in r.projects :: x in st.projects || Expanded(c, r, x)
    decreases Pending(c, st), 0, |qs|, 0
  {
    VisitHead(c, st, qs);
    var sub := c.lookup(qs[0]);
    var st' := Lists(st.artifacts, st.projects + [sub]);
    PendingShrinks(c, st, sub);
    var st2 := Enter(c, st', sub).value;
    EnterExpands(c, st', sub, st2);
    PendingMonotone(c, st', st2);
    VisitExpands(c, st2, qs[1..], r);
    PrefixContains(st'.projects, st2.projects);
    PrefixContains(st2.projects, r.projects);
    ExpandedThroughStep(c, st, sub, st2, r);
  }

  /** Chaining what entering `sub` expands with what the rest of the list expands. */
  lemma ExpandedThroughStep(c: Context, st: Lists, sub: ProjectName, st2: Lists, r: Lists)
    requires IsPrefix(st2.projects, r.projects)
    requires forall x | x in st.projects + [sub] :: x in st2.projects
    requires forall x | x in st2.projects :: x in st.projects + [sub] || Expanded(c, st2, x)
    requires Expanded(c, st2, sub)
    requires forall x | x in r.projects :: x in st2.projects || Expanded(c, r, x)
    ensures sub in r.projects
    ensures forall x | x in r.projects :: x in st.projects || Expanded(c, r, x)
  {
    PrefixContains(st2.projects, r.projects);
    assert sub in st.projects + [sub];
    forall x | x in r.projects && x !in st.projects ensures Expanded(c, r, x) {
      if x in st2.projects {
        ExpandedGrows(c, st2, r, x);
      }
    }
  }

  // ---------------------------------------------------------------- reachability

  /** Reading `x` goes on to `y`: `x`'s entry has artifacts and lists a name standing for `y`. */
  ghost predicate Leads(c: Context, x: ProjectName, y: ProjectName) {
    match EntryOf(c, x)
    case Some(Entry(Some(_), Some(qs))) => exists q :: q in qs && c.lookup(q) == y
    case _ => false
  }

  /** A chain of projects from the owner, each one leading to the next. */
  ghost predicate IsChain(c: Context, path: seq<ProjectName>) {
    && |path| > 0 && path[0] == c.owner
    && forall k | 0 <= k < |path| - 1 :: Leads(c, path[k], path[k + 1])
  }

  /** `x` can be reached from the owner through the projects lists. */
  ghost predicate Reachable(c: Context, x: ProjectName) {
    exists path :: IsChain(c, path) && path[|path| - 1] == x
  }

  lemma OwnerReachable(c: Context)
    ensures Reachable(c, c.owner)
  {
    assert IsChain(c, [c.owner]);
  }

  lemma ReachableStep(c: Context, x: ProjectName, y: ProjectName)
    requires Reachable(c, x) && Leads(c, x, y)
    ensures Reachable(c, y)
  {
    var path :| IsChain(c, path) && path[|path| - 1] == x;
    var path' := path + [y];
    assert IsChain(c, path');
  }

  /** The names a reachable project lists, when it has artifacts, stand for reachable projects. */
  lemma ListedReachable(c: Context, p: ProjectName)
    requires Reachable(c, p) && p in c.doc && c.id in c.doc[p]
    requires c.doc[p][c.id].artifacts.Some? && c.doc[p][c.id].projects.Some?
    ensures forall q | q in c.doc[p][c.id].projects.value :: Reachable(c, c.lookup(q))
  {
    forall q | q in c.doc[p][c.id].projects.value ensures Reachable(c, c.lookup(q)) {
      assert Leads(c, p, c.lookup(q));
      ReachableStep(c, p, c.lookup(q));
    }
  }

  /** Entering a reachable project records only reachable projects. */
  lemma {:induction false} EnterReaches(c: Context, st: Lists, p: ProjectName, r: Lists)
    requires Enter(c, st, p) == Ok(r)
    requires Reachable(c, p)
    ensures forall x | x in r.projects :: x in st.projects || Reachable(c, x)
    decreases Pending(c, st), 1, 0, 0
  {
    if p in c.doc && c.id in c.doc[p] {
      var e := c.doc[p][c.id];
      if e.artifacts.Some? && e.projects.Some? {
        ListedIsReferenced(c, p);
        ListedReachable(c, p);
        var st1 := Lists(Union(st.artifacts, e.artifacts.value), st.projects);
        VisitReaches(c, st1, e.projects.value, r);
      }
    }
  }

  lemma {:induction false} VisitReaches(c: Context, st: Lists, qs: seq<ProjectName>, r: Lists)
    requires AllReferenced(c, qs)
    requires Visit(c, st, qs) == Ok(r)
    requires forall q | q in qs :: Reachable(c, c.lookup(q))
    ensures forall x | x in r.projects :: x in st.projects || Reachable(c, x)
    decreases Pending(c, st), 0, |qs|, 1
  {
    if qs != [] {
      VisitHead(c, st, qs);
      var sub := c.lookup(qs[0]);
      if sub in st.projects || sub == c.owner {
        VisitReaches(c, st, qs[1..], r);
      } else {
        EnterThenReach(c, st, qs, r);
      }
    }
  }

  /** The step of VisitReaches where the first listed project is recorded and entered. */
  lemma {:induction false} EnterThenReach(c: Context, st: Lists, qs: seq<ProjectName>, r: Lists)
    requires AllReferenced(c, qs) && qs != []
    requires c.lookup(qs[0]) !in st.projects && c.lookup(qs[0]) != c.owner
    requires Visit(c, st, qs) == Ok(r)
    requires forall q | q in qs :: Reachable(c, c.lookup(q))
    ensures forall x | x in r.projects :: x in st.projects || Reachable(c, x)
    decreases Pending(c, st), 0, |qs|, 0
  {
    VisitHead(c, st, qs);
    var sub := c.lookup(qs[0]);
    var st' := Lists(st.artifacts, st.projects + [sub]);
    PendingShrinks(c, st, sub);
    var st2 := Enter(c, st', sub).value;
    assert qs[0] in qs;
    EnterReaches(c, st', sub, st2);
    PendingMonotone(c, st', st2);
    VisitReaches(c, st2, qs[1..], r);
    forall x | x in r.projects && x !in st.projects ensures Reachable(c, x) {
      if x in st2.projects && x !in st'.projects {
      } else if x in st2.projects {
        assert x == sub;
      }
    }
  }

  /**
   * When the owner and every recorded project are expanded, every project a chain from the
   * owner reaches is the owner or recorded.
   */
  lemma {:induction false} ChainRecorded(c: Context, r: Lists, path: seq<ProjectName>)
    requires IsChain(c, path)
    requires Expanded(c, r, c.owner)
    requires forall x | x in r.projects :: Expanded(c, r, x)
    ensures path[|path| - 1] == c.owner || path[|path| - 1] in r.projects
    decreases |path|
  {
    if |path| > 1 {
      var init := path[..|path| - 1];
      assert IsChain(c, init);
      ChainRecorded(c, r, init);
      var x := init[|init| - 1];
      var y := path[|path| - 1];
      assert Leads(c, x, y);
      var q :| q in EntryOf(c, x).value.projects.value && c.lookup(q) == y;
      assert Expanded(c, r, x);
    }
  }

  // ---------------------------------------------------------------- artifacts read

  /**
   * Entering `p` collects exactly the artifacts of `p` and of the projects it records:
   * every such artifact ends up in the list, and nothing else is added.
   */
  lemma {:induction false} EnterCollects(c: Context, st: Lists, p: ProjectName, r: Lists)
    requires Enter(c, st, p) == Ok(r)
    ensures forall a | a in st.artifacts :: a in r.artifacts
    ensures forall a | a in Contributed(c, p) :: a in r.artifacts
    ensures forall x, a | x in r.projects && x !in st.projects && a in Contributed(c, x) :: a in r.artifacts
    ensures forall a | a in r.artifacts ::
              a in st.artifacts || a in Contributed(c, p) ||
              exists x :: x in r.projects && x !in st.projects && a in Contributed(c, x)
    decreases Pending(c, st), 1, 0, 0
  {
    if p in c.doc && c.id in c.doc[p] {
      var e := c.doc[p][c.id];
      if e.artifacts.Some? && e.projects.Some? {
        ListedIsReferenced(c, p);
        var st1 := Lists(Union(st.artifacts, e.artifacts.value), st.projects);
        VisitCollects(c, st1, e.projects.value, r);
      }
    }
  }

  lemma {:induction false} VisitCollects(c: Context, st: Lists, qs: seq<ProjectName>, r: Lists)
    requires AllReferenced(c, qs)
    requires Visit(c, st, qs) == Ok(r)
    ensures forall a | a in st.artifacts :: a in r.artifacts
    ensures forall x, a | x in r.projects && x !in st.projects && a in Contributed(c, x) :: a in r.artifacts
    ensures forall a | a in r.artifacts ::
              a in st.artifacts || exists x :: x in r.projects && x !in st.projects && a in Contributed(c, x)
    decreases Pending(c, st), 0, |qs|, 1
  {
    if qs != [] {
      VisitHead(c, st, qs);
      var sub := c.lookup(qs[0]);
      if sub in st.projects || sub == c.owner {
        VisitCollects(c, st, qs[1..], r);
      } else {
        EnterThenCollect(c, st, qs, r);
      }
    }
  }

  /** The step of VisitCollects where the first listed project is recorded and entered. */
  lemma {:induction false} EnterThenCollect(c: Context, st: Lists, qs: seq<ProjectName>, r: Lists)
    requires AllReferenced(c, qs) && qs != []
    requires c.lookup(qs[0]) !in st.projects && c.lookup(qs[0]) != c.owner
    requires Visit(c, st, qs) == Ok(r)
    ensures forall a | a in st.artifacts :: a in r.artifacts
    ensures forall x, a | x in r.projects && x !in st.projects && a in Contributed(c, x) :: a in r.artifacts
    ensures forall a | a in r.artifacts ::
              a in st.artifacts || exists x :: x in r.projects && x !in st.projects && a in Contributed(c, x)
    decreases Pending(c, st), 0, |qs|, 0
  {
    VisitHead(c, st, qs);
    var sub := c.lookup(qs[0]);
    var st' := Lists(st.artifacts, st.projects + [sub]);
    PendingShrinks(c, st, sub);
    var st2 := Enter(c, st', sub).value;
    EnterCollects(c, st', sub, st2);
    PendingMonotone(c, st', st2);
    VisitCollects(c, st2, qs[1..], r);
    PrefixContains(st'.projects, st2.projects);
    PrefixContains(st2.projects, r.projects);
    CollectedThroughStep(c, st, sub, st2, r);
  }

  /** Chaining what entering `sub` collects with what the rest of the list collects. */
  lemma CollectedThroughStep(c: Context, st: Lists, sub: ProjectName, st2: Lists, r: Lists)
    requires sub !in st.projects
    requires forall x | x in st.projects + [sub] :: x in st2.projects
    requires forall x | x in st2.projects :: x in r.projects
    requires forall a | a in st.artifacts :: a in st2.artifacts
    requires forall a | a in Contributed(c, sub) :: a in st2.artifacts
    requires forall x, a | x in st2.projects && x !in st.projects + [sub] && a in Contributed(c, x) ::
               a in st2.artifacts
    requires forall a | a in st2.artifacts ::
               a in st.artifacts || a in Contributed(c, sub) ||
               exists x :: x in st2.projects && x !in st.projects + [sub] && a in Contributed(c, x)
    requires forall a | a in st2.artifacts :: a in r.artifacts
    requires forall x, a | x in r.projects && x !in st2.projects && a in Contributed(c, x) :: a in r.artifacts
    requires forall a | a in r.artifacts ::
               a in st2.artifacts || exists x :: x in r.projects && x !in st2.projects && a in Contributed(c, x)
    ensures forall a | a in st.artifacts :: a in r.artifacts
    ensures forall x, a | x in r.projects && x !in st.projects && a in Contributed(c, x) :: a in r.artifacts
    ensures forall a | a in r.artifacts ::
              a in st.artifacts || exists x :: x in r.projects && x !in st.projects && a in Contributed(c, x)
  {
    assert sub in st.projects + [sub];
    forall x, a | x in r.projects && x !in st.projects && a in Contributed(c, x) ensures a in r.artifacts {
      if x in st2.projects && x != sub {
        assert x !in st.projects + [sub];
      }
    }
    forall a | a in r.artifacts
      ensures a in st.artifacts || exists x :: x in r.projects && x !in st.projects && a in Contributed(c, x)
    {
      if a !in st2.artifacts {
        var x :| x in r.projects && x !in st2.projects && a in Contributed(c, x);
        assert x !in st.projects;
      } else if a !in st.artifacts && a in Contributed(c, sub) {
        assert sub in r.projects;
      } else if a !in st.artifacts {
        var x :| x in st2.projects && x !in st.projects + [sub] && a in Contributed(c, x);
        assert x in r.projects;
      }
    }
  }

  // ---------------------------------------------------------------- a read from empty lists

  /**
   * A read into a fresh resolver (both lists empty) yields the closure of the owner: the
   * recorded projects are distinct and are exactly the projects other than the owner that
   * can be reached from it through the projects lists; the owner and every recorded project
   * have all their listed sub-projects recorded (or are listed back to the owner); and the
   * artifacts are duplicate-free and are exactly those the owner and the recorded projects list.
   */
  lemma FreshReadIsClosure(c: Context, r: Lists)
    requires ReadFrom(c, Lists([], [])) == Ok(r)
    ensures NoDup(r.projects) && c.owner !in r.projects && NoDup(r.artifacts)
    ensures forall x :: x in r.projects <==> x != c.owner && Reachable(c, x)
    ensures Expanded(c, r, c.owner)
    ensures forall x | x in r.projects :: Expanded(c, r, x)
    ensures forall a | a in Contributed(c, c.owner) :: a in r.artifacts
    ensures forall x, a | x in r.projects && a in Contributed(c, x) :: a in r.artifacts
    ensures forall a | a in r.artifacts ::
              a in Contributed(c, c.owner) || exists x :: x in r.projects && a in Contributed(c, x)
    ensures Uniq(r.artifacts) == r.artifacts
  {
    var st := Lists([], []);
    EnterKeepsShape(c, st, c.owner, r);
    EnterExpands(c, st, c.owner, r);
    EnterCollects(c, st, c.owner, r);
    OwnerReachable(c);
    EnterReaches(c, st, c.owner, r);
    forall x | x != c.owner && Reachable(c, x) ensures x in r.projects {
      var path :| IsChain(c, path) && path[|path| - 1] == x;
      ChainRecorded(c, r, path);
    }
    UniqOfNoDup(r.artifacts);
  }
}
