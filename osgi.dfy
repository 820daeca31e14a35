/** The OSGi resolving strategy (OSGiResolver): its id, its applicability and what it resolves. */
module OsgiResolving {
  import opened Projects

  /** The resolver id `:osgi`. */
  const Id: string := "osgi"

  /** The two coordinates `resolve` appends, in this order. */
  const Coordinates: seq<string> := ["com.example:foo:jar:1.1", "com.example:bar:jar:1.1"]

  /** `apply?`: the project holds META-INF/MANIFEST.MF (a file-system fact carried by the project). */
  predicate Applies(p: Project) {
    p.hasManifest
  }
}
