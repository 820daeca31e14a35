/** The project tree the core reads: every project has a fully-qualified name and at most one parent. */
module Projects {
  import opened Wrappers

  /** A fully-qualified project name such as "container:foo"; Buildr keeps names unique. */
  type ProjectName = string

  /** `project.compile.language`, as far as the core distinguishes it. */
  datatype Language = Java | Scala | Other

  /**
   * A project as the core sees it. `hasManifest` is the file-system fact
   * "META-INF/MANIFEST.MF exists under the project's directory", given rather than looked up.
   */
  datatype Project = Project(
    name: ProjectName,
    parent: Option<Project>,
    baseDir: string,
    language: Language,
    hasManifest: bool)

  /** `a` is `p` or one of its ancestors. */
  predicate AncestorOrSelf(a: Project, p: Project)
    decreases p
  {
    a == p || (p.parent.Some? && AncestorOrSelf(a, p.parent.value))
  }
}
