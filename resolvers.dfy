/**
 * Resolving strategies (the Resolver base class and its subclasses) as one closed
 * variant set, the Resolver objects that carry a project's resolved lists, and the
 * process-wide registry of strategy kinds (Dependencies.registered_resolvers).
 */
module Resolvers {
  import opened Builtins
  import opened Wrappers
  import opened Projects
  import opened Documents
  import OsgiResolving

  /** The coordinates the resolver of the resolver tests appends, in this order. */
  const DummyCoordinates: seq<string> := ["com.example:foo:jar:1.1", "com.example:bar:jar:1.1"]

  /** A strategy kind: what a subclass of Resolver overrides. */
  datatype ResolverKind =
      /** A subclass that overrides nothing: constructed with `id`, never applies, resolves nothing. */
    | Plain(plainId: ResolverId)
      /** OSGiResolver. */
    | OSGi
      /** The resolver the resolver tests register: id `:dummy`, applies to projects whose id contains "foo". */
    | Dummy
  {
    /** The id the subclass passes to Resolver#initialize. */
    function Id(): ResolverId {
      match this
      case Plain(i) => i
      case OSGi => OsgiResolving.Id
      case Dummy => "dummy"
    }

    /** The class method `apply?(project)`. */
    predicate AppliesTo(p: Project) {
      match this
      case Plain(_) => false
      case OSGi => OsgiResolving.Applies(p)
      case Dummy => Contains(p.name, "foo")
    }

    /** What one call of `resolve` appends to `artifacts`. */
    function Found(): seq<string> {
      match this
      case Plain(_) => []
      case OSGi => OsgiResolving.Coordinates
      case Dummy => DummyCoordinates
    }
  }

  /** The artifacts after `resolve`: the old ones, untouched, then what the kind finds. */
  function Resolved(kind: ResolverKind, artifacts: seq<string>): (r: seq<string>)
    ensures IsPrefix(artifacts, r)
    ensures r[|artifacts|..] == kind.Found()
  {
    artifacts + kind.Found()
  }

  /** OSGi `resolve` keeps the old artifacts as a prefix and appends exactly foo:1.1 then bar:1.1. */
  lemma OsgiResolveAppendsPair(artifacts: seq<string>)
    ensures |Resolved(OSGi, artifacts)| == |artifacts| + 2
    ensures Resolved(OSGi, artifacts)[..|artifacts|] == artifacts
    ensures Resolved(OSGi, artifacts)[|artifacts|] == "com.example:foo:jar:1.1"
    ensures Resolved(OSGi, artifacts)[|artifacts| + 1] == "com.example:bar:jar:1.1"
  {
  }

  /** Nothing in `resolve` deduplicates: a second call appends the pair a second time. */
  lemma ResolveTwiceAppendsTwice(kind: ResolverKind, artifacts: seq<string>)
    ensures Resolved(kind, Resolved(kind, artifacts)) == artifacts + kind.Found() + kind.Found()
    ensures kind.Found() != [] ==> Resolved(kind, Resolved(kind, artifacts)) != Resolved(kind, artifacts)
  {
    assert |Resolved(kind, Resolved(kind, artifacts))| == |artifacts| + 2 * |kind.Found()|;
  }

  /** A resolver object: its id, the project it is associated with, and its two lists. */
  class Resolver {
    const kind: ResolverKind
    const id: ResolverId
    var artifacts: seq<string>
    var projects: seq<ProjectName>
    var project: Option<ProjectName>

    /** Resolver#initialize(id): both lists start empty. */
    constructor (kind: ResolverKind)
      ensures this.kind == kind && id == kind.Id()
      ensures artifacts == [] && projects == [] && project == None
    {
      this.kind := kind;
      id := kind.Id();
      artifacts := [];
      projects := [];
      project := None;
    }

    /** The two lists as a value. */
    function State(): Lists
      reads this
    {
      Lists(artifacts, projects)
    }

    /** associate_with(project). */
    method AssociateWith(p: ProjectName)
      modifies this`project
      ensures project == Some(p)
    {
      project := Some(p);
    }

    /**
     * `resolve`: the base class does nothing; OSGiResolver (and the tests' resolver) push the
     * pair of coordinates as one nested array and flatten! it, which appends the two strings.
     */
    method Resolve()
      modifies this`artifacts
      ensures artifacts == Resolved(kind, old(artifacts))
    {
      match kind
      case Plain(_) =>
      case OSGi =>
        artifacts := artifacts + OsgiResolving.Coordinates;
      case Dummy =>
        artifacts := artifacts + DummyCoordinates;
    }
  }

  /** The kinds among `kinds` that apply to `p`, in registration order (`select { apply? }`). */
  function Applicable(kinds: seq<ResolverKind>, p: Project): (r: seq<ResolverKind>)
    ensures forall k :: k in r <==> k in kinds && k.AppliesTo(p)
  {
    Filter(kinds, AppliesTest(p))
  }

  /** The block of `select`: whether a kind applies to `p`. */
  function AppliesTest(p: Project): ResolverKind -> bool {
    (k: ResolverKind) => k.AppliesTo(p)
  }

  /**
   * `select` keeps the registration order: the applicable kinds are the registered ones at
   * exactly the positions whose kind applies, in increasing order.
   */
  lemma ApplicableKeepsOrder(kinds: seq<ResolverKind>, p: Project) returns (idx: seq<nat>)
    ensures Picks(Applicable(kinds, p), kinds, idx)
    ensures forall i | 0 <= i < |kinds| :: i in idx <==> kinds[i].AppliesTo(p)
  {
    idx := FilterKeepsOrder(kinds, AppliesTest(p));
  }

  /** The process-wide list `registered_resolvers`, empty until kinds are appended to it. */
  class Registry {
    var kinds: seq<ResolverKind>

    constructor ()
      ensures kinds == []
    {
      kinds := [];
    }

    /** `registered_resolvers << kind`. */
    method Register(kind: ResolverKind)
      modifies this
      ensures kinds == old(kinds) + [kind]
    {
      kinds := kinds + [kind];
    }
  }
}
