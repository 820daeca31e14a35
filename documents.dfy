/**
 * The persisted document dependencies.yml and the process-wide cache that holds it
 * once loaded (Dependencies.dependencies_yml and find_root).
 */
module Documents {
  import opened Wrappers
  import opened Projects

  /** A resolver id, the Ruby symbol without its colon ("osgi", "dummy"). */
  type ResolverId = string

  /** The mapping stored under a project and a resolver id; a key missing from the file reads as nil. */
  datatype Entry = Entry(artifacts: Option<seq<string>>, projects: Option<seq<ProjectName>>)

  /** Project name -> resolver id -> entry. */
  type Document = map<ProjectName, map<ResolverId, Entry>>

  /** A resolver's two mutable lists. */
  datatype Lists = Lists(artifacts: seq<string>, projects: seq<ProjectName>)

  /** The dependencies.yml files that exist, parsed, keyed by the directory that holds them. */
  type Files = map<string, Document>

  /** find_root: follow the parents up to the project that has none. */
  function FindRoot(p: Project): (root: Project)
    ensures root.parent.None?
    ensures AncestorOrSelf(root, p)
    decreases p
  {
    if p.parent.None? then p else FindRoot(p.parent.value)
  }

  /** The document in `dir`; an absent file reads as the empty mapping. */
  function Load(files: Files, dir: string): (doc: Document)
    ensures dir !in files ==> doc == map[]
    ensures dir in files ==> doc == files[dir]
  {
    if dir in files then files[dir] else map[]
  }

  /** The lazily filled `@deps_yml`: loaded once, from the root of whichever project asks first. */
  class DocumentCache {
    var loaded: Option<Document>

    constructor ()
      ensures loaded == None
    {
      loaded := None;
    }

    /** dependencies_yml(project). */
    method Get(p: Project, files: Files) returns (doc: Document)
      modifies this
      ensures old(loaded).Some? ==> doc == old(loaded).value
      ensures old(loaded).None? ==> doc == Load(files, FindRoot(p).baseDir)
      ensures loaded == Some(doc)
    {
      if loaded.None? {
        var baseDir := FindRoot(p).baseDir;
        loaded := Some(Load(files, baseDir));
      }
      doc := loaded.value;
    }

    /** What the resolver tests do before each example: `@deps_yml = nil`. */
    method Reset()
      modifies this
      ensures loaded == None
    {
      loaded := None;
    }
  }
}
