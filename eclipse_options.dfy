/**
 * Eclipse::Options: the per-project settings of the Eclipse generator. Each option is
 * either set explicitly on the project, or computed on first read from the parent
 * project's options (or, on a project without parent, from a default that depends on
 * whether the project compiles Scala) and then memoised in the project's own field.
 */
module EclipseOptions {
  import opened Wrappers

  const DefaultM2RepoVar: string := "M2_REPO"
  const JavaNature: string := "org.eclipse.jdt.core.javanature"
  const ScalaNature: string := "ch.epfl.lamp.sdt.core.scalanature"
  const JreContainer: string := "org.eclipse.jdt.launching.JRE_CONTAINER"
  const ScalaContainer: string := "ch.epfl.lamp.sdt.launching.SCALA_CONTAINER"
  const JavaBuilder: string := "org.eclipse.jdt.core.javabuilder"
  const ScalaBuilder: string := "ch.epfl.lamp.sdt.core.scalabuilder"

  /** What a build file passes to `natures=`, `classpath_containers=` or `builders=`: one name or an array of names. */
  datatype Setting = One(name: string) | Many(names: seq<string>)

  /** `arrayfy`: an array is kept as it is, any other value becomes a one-element array. */
  function Arrayfy(v: Setting): (r: seq<string>)
    ensures v.Many? ==> r == v.names
    ensures v.One? ==> r == [v.name]
  {
    match v
    case Many(ns) => ns
    case One(n) => [n]
  }

  /** `arrayfy` gives an array, so applying it to its own result changes nothing. */
  lemma ArrayfyIdempotent(v: Setting)
    ensures Arrayfy(Many(Arrayfy(v))) == Arrayfy(v)
  {
  }

  /** The natures of a project without parent: the Scala nature first for a Scala project, the Java nature always last. */
  function RootNatures(scala: bool): (r: seq<string>)
    ensures |r| == (if scala then 2 else 1) && r[|r| - 1] == JavaNature
    ensures scala ==> r[0] == ScalaNature
  {
    (if scala then [ScalaNature] else []) + [JavaNature]
  }

  /** The classpath containers of a project without parent: the Scala container first for a Scala project, then the JRE. */
  function RootContainers(scala: bool): (r: seq<string>)
    ensures |r| == (if scala then 2 else 1) && r[|r| - 1] == JreContainer
    ensures scala ==> r[0] == ScalaContainer
  {
    (if scala then [ScalaContainer] else []) + [JreContainer]
  }

  /** The builders of a project without parent: exactly one, the Scala builder for Scala and the Java builder otherwise. */
  function RootBuilders(scala: bool): (r: seq<string>)
    ensures |r| == 1 && r[0] == (if scala then ScalaBuilder else JavaBuilder)
  {
    if scala then [ScalaBuilder] else [JavaBuilder]
  }

  /**
   * The options of one project. `parent` stands for `project.parent.eclipse.options`
   * (the parent project's own options object); `scala` for `project.compile.language == :scala`.
   */
  class Options {
    const parent: Option<Options>
    const scala: bool
    /** The options objects of all ancestor projects. */
    ghost const ancestors: set<Options>
    /** The number of ancestors of the project. */
    ghost const height: nat

    var m2RepoVar: Option<string>
    var natures: Option<seq<string>>
    var classpathContainers: Option<seq<string>>
    var builders: Option<seq<string>>

    /** The parent links form a finite chain whose heights descend towards the root. */
    ghost predicate Linked()
      decreases height
    {
      && (forall a | a in ancestors :: a.height < height && a.ancestors <= ancestors)
      && match parent
         case None => ancestors == {} && height == 0
         case Some(p) => p.height < height && ancestors == p.ancestors + {p} && p.Linked()
    }

    /** This object and its ancestors: everything the getters read and may memoise into. */
    ghost function Chain(): set<Options> {
      ancestors + {this}
    }

    /** Every ancestor's options are linked as well. */
    lemma {:induction false} AncestorsLinked()
      requires Linked()
      ensures forall a | a in ancestors :: a.Linked() && this !in a.Chain()
      decreases height
    {
      match parent
      case None =>
      case Some(p) =>
        p.AncestorsLinked();
    }

    /** The options of a project without parent; nothing is set. */
    constructor Root(scala: bool)
      ensures Linked() && parent == None && this.scala == scala
      ensures m2RepoVar == None && natures == None && classpathContainers == None && builders == None
    {
      parent := None;
      this.scala := scala;
      ancestors := {};
      height := 0;
      m2RepoVar := None;
      natures := None;
      classpathContainers := None;
      builders := None;
    }

    /** The options of a sub-project of the project whose options are `p`; nothing is set. */
    constructor Child(p: Options, scala: bool)
      requires p.Linked()
      ensures Linked() && parent == Some(p) && this.scala == scala
      ensures m2RepoVar == None && natures == None && classpathContainers == None && builders == None
    {
      parent := Some(p);
      this.scala := scala;
      ancestors := p.ancestors + {p};
      height := p.height + 1;
      m2RepoVar := None;
      natures := None;
      classpathContainers := None;
      builders := None;
    }

    /** The project at the top of the chain. */
    ghost function Top(): (r: Options)
      requires Linked()
      ensures r in Chain() && r.parent.None?
      decreases height
    {
      match parent
      case None => this
      case Some(p) => p.Top()
    }

    // ------------------------------------------------------------ what the getters answer

    /** `m2_repo_var` as the getter answers it: the value set here, else the parent's, else M2_REPO. */
    function M2RepoVarValue(): string
      requires Linked()
      reads Chain()
      decreases height
    {
      match m2RepoVar
      case Some(v) => v
      case None =>
        match parent
        case Some(p) => p.M2RepoVarValue()
        case None => DefaultM2RepoVar
    }

    /** `natures` as the getter answers it. */
    function NaturesValue(): seq<string>
      requires Linked()
      reads Chain()
      decreases height
    {
      match natures
      case Some(v) => v
      case None =>
        match parent
        case Some(p) => p.NaturesValue()
        case None => RootNatures(scala)
    }

    /** `classpath_containers` as the getter answers it. */
    function ContainersValue(): seq<string>
      requires Linked()
      reads Chain()
      decreases height
    {
      match classpathContainers
      case Some(v) => v
      case None =>
        match parent
        case Some(p) => p.ContainersValue()
        case None => RootContainers(scala)
    }

    /** `builders` as the getter answers it. */
    function BuildersValue(): seq<string>
      requires Linked()
      reads Chain()
      decreases height
    {
      match builders
      case Some(v) => v
      case None =>
        match parent
        case Some(p) => p.BuildersValue()
        case None => RootBuilders(scala)
    }

    // ------------------------------------------------------------ inheritance

    /** With `m2_repo_var` set nowhere up the chain, every project answers M2_REPO. */
    lemma {:induction false} UnsetM2RepoVarIsDefault()
      requires Linked()
      requires forall o | o in Chain() :: o.m2RepoVar.None?
      ensures M2RepoVarValue() == DefaultM2RepoVar
      decreases height
    {
      match parent
      case None =>
      case Some(p) =>
        p.UnsetM2RepoVarIsDefault();
    }

    /**
     * With `natures` set nowhere up the chain, a project answers the default of the root
     * project, whatever its own language: a Scala sub-project of a Java root gets the Java nature only.
     */
    lemma {:induction false} UnsetNaturesFollowRoot()
      requires Linked()
      requires forall o | o in Chain() :: o.natures.None?
      ensures NaturesValue() == RootNatures(Top().scala)
      ensures NaturesValue()[|NaturesValue()| - 1] == JavaNature
      decreases height
    {
      match parent
      case None =>
      case Some(p) =>
        p.UnsetNaturesFollowRoot();
    }

    /** With `classpath_containers` set nowhere up the chain, a project answers the root's default, the JRE last. */
    lemma {:induction false} UnsetContainersFollowRoot()
      requires Linked()
      requires forall o | o in Chain() :: o.classpathContainers.None?
      ensures ContainersValue() == RootContainers(Top().scala)
      ensures ContainersValue()[|ContainersValue()| - 1] == JreContainer
      decreases height
    {
      match parent
      case None =>
      case Some(p) =>
        p.UnsetContainersFollowRoot();
    }

    /** With `builders` set nowhere up the chain, a project answers the root's one builder. */
    lemma {:induction false} UnsetBuildersFollowRoot()
      requires Linked()
      requires forall o | o in Chain() :: o.builders.None?
      ensures BuildersValue() == RootBuilders(Top().scala)
      ensures |BuildersValue()| == 1
      decreases height
    {
      match parent
      case None =>
      case Some(p) =>
        p.UnsetBuildersFollowRoot();
    }

    // ------------------------------------------------------------ setters

    /** `m2_repo_var=` (attr_writer): nil clears the memoised value, so the next read inherits again. */
    method SetM2RepoVar(v: Option<string>)
      modifies this`m2RepoVar
      ensures m2RepoVar == v
    {
      m2RepoVar := v;
    }

    /** `natures=`. */
    method SetNatures(v: Setting)
      modifies this`natures
      ensures natures == Some(Arrayfy(v))
    {
      natures := Some(Arrayfy(v));
    }

    /** `classpath_containers=`. */
    method SetClasspathContainers(v: Setting)
      modifies this`classpathContainers
      ensures classpathContainers == Some(Arrayfy(v))
    {
      classpathContainers := Some(Arrayfy(v));
    }

    /** `builders=`. */
    method SetBuilders(v: Setting)
      modifies this`builders
      ensures builders == Some(Arrayfy(v))
    {
      builders := Some(Arrayfy(v));
    }

    // ------------------------------------------------------------ memoising getters

    /**
     * `m2_repo_var`: the answer M2RepoVarValue gives; on the way it memoises the answer in
     * this project and in every ancestor it asked, and no project's answer changes.
     */
    method GetM2RepoVar() returns (v: string)
      requires Linked()
      modifies Chain()`m2RepoVar
      ensures v == old(M2RepoVarValue()) && m2RepoVar == Some(v)
      ensures old(m2RepoVar).None? && parent.Some? ==> parent.value.m2RepoVar == Some(v)
      ensures old(m2RepoVar).Some? ==> forall o | o in Chain() :: o.m2RepoVar == old(o.m2RepoVar)
      ensures forall o | o in Chain() ::
                o.Linked() && o.M2RepoVarValue() == old(o.M2RepoVarValue()) &&
                (o.m2RepoVar == old(o.m2RepoVar) || o.m2RepoVar == Some(o.M2RepoVarValue()))
      decreases height
    {
      AncestorsLinked();
      if m2RepoVar.None? {
        match parent {
          case Some(p) =>
            var pv := p.GetM2RepoVar();
            m2RepoVar := Some(pv);
          case None =>
            m2RepoVar := Some(DefaultM2RepoVar);
        }
      }
      v := m2RepoVar.value;
    }

    /** `natures`: the answer NaturesValue gives, memoised here and in every ancestor asked; no answer changes. */
    method GetNatures() returns (v: seq<string>)
      requires Linked()
      modifies Chain()`natures
      ensures v == old(NaturesValue()) && natures == Some(v)
      ensures old(natures).None? && parent.Some? ==> parent.value.natures == Some(v)
      ensures old(natures).Some? ==> forall o | o in Chain() :: o.natures == old(o.natures)
      ensures forall o | o in Chain() ::
                o.Linked() && o.NaturesValue() == old(o.NaturesValue()) &&
                (o.natures == old(o.natures) || o.natures == Some(o.NaturesValue()))
      decreases height
    {
      AncestorsLinked();
      if natures.None? {
        match parent {
          case Some(p) =>
            var pv := p.GetNatures();
            natures := Some(pv);
          case None =>
            var ns := [];
            if scala {
              ns := ns + [ScalaNature];
            }
            ns := ns + [JavaNature];
            natures := Some(ns);
        }
      }
      v := natures.value;
    }

    /** `classpath_containers`: the answer ContainersValue gives, memoised here and in every ancestor asked. */
    method GetClasspathContainers() returns (v: seq<string>)
      requires Linked()
      modifies Chain()`classpathContainers
      ensures v == old(ContainersValue()) && classpathContainers == Some(v)
      ensures old(classpathContainers).None? && parent.Some? ==> parent.value.classpathContainers == Some(v)
      ensures old(classpathContainers).Some? ==> forall o | o in Chain() :: o.classpathContainers == old(o.classpathContainers)
      ensures forall o | o in Chain() ::
                o.Linked() && o.ContainersValue() == old(o.ContainersValue()) &&
                (o.classpathContainers == old(o.classpathContainers) ||
                 o.classpathContainers == Some(o.ContainersValue()))
      decreases height
    {
      AncestorsLinked();
      if classpathContainers.None? {
        match parent {
          case Some(p) =>
            var pv := p.GetClasspathContainers();
            classpathContainers := Some(pv);
          case None =>
            var cs := [];
            if scala {
              cs := cs + [ScalaContainer];
            }
            cs := cs + [JreContainer];
            classpathContainers := Some(cs);
        }
      }
      v := classpathContainers.value;
    }

    /** `builders`: the answer BuildersValue gives, memoised here and in every ancestor asked. */
    method GetBuilders() returns (v: seq<string>)
      requires Linked()
      modifies Chain()`builders
      ensures v == old(BuildersValue()) && builders == Some(v)
      ensures old(builders).None? && parent.Some? ==> parent.value.builders == Some(v)
      ensures old(builders).Some? ==> forall o | o in Chain() :: o.builders == old(o.builders)
      ensures forall o | o in Chain() ::
                o.Linked() && o.BuildersValue() == old(o.BuildersValue()) &&
                (o.builders == old(o.builders) || o.builders == Some(o.BuildersValue()))
      decreases height
    {
      AncestorsLinked();
      if builders.None? {
        match parent {
          case Some(p) =>
            var pv := p.GetBuilders();
            builders := Some(pv);
          case None =>
            var bs := [];
            if scala {
              bs := bs + [ScalaBuilder];
            } else {
              bs := bs + [JavaBuilder];
            }
            builders := Some(bs);
        }
      }
      v := builders.value;
    }
  }
}
