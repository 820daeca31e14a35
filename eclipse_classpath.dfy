/**
 * The .classpath side of the Eclipse generator: how the test classpath of a project is
 * split into the libraries of other projects, of the local Maven 2 repository, generated
 * ones and plain ones, and the ClasspathEntryWriter that turns them into classpath
 * entries. The entries are kept as records, in the order they are written.
 */
module EclipseClasspath {
  import opened Wrappers
  import opened Builtins

  // ------------------------------------------------------------ the classpath partition

  /** A classpath element after `collect!`: a path, or the project that packages it. */
  datatype Element = Path(path: string) | Proj(name: string, id: string) {
    /** `to_s`: a path is itself, a project is its name. */
    function ToS(): string {
      match this
      case Path(p) => p
      case Proj(n, _) => n
    }
  }

  /** Lines 192-193: the test classpath without the compile and resources targets, duplicates dropped. */
  function Classpath(deps: seq<string>, compileTarget: string, resourcesTarget: string): (cp: seq<string>)
    ensures NoDup(cp)
    ensures compileTarget !in cp && resourcesTarget !in cp
    ensures forall x :: x in cp <==> x in deps && x != compileTarget && x != resourcesTarget
  {
    Uniq(Minus(deps, [compileTarget, resourcesTarget]))
  }

  /** The positions `outer` picks, read through the positions `inner` picks. */
  function Through(inner: seq<nat>, outer: seq<nat>): (idx: seq<nat>)
    requires forall k | 0 <= k < |outer| :: outer[k] < |inner|
    ensures |idx| == |outer| && forall k | 0 <= k < |outer| :: idx[k] == inner[outer[k]]
  {
    seq(|outer|, k requires 0 <= k < |outer| => inner[outer[k]])
  }

  /** An increasing list of positions keeps its order both ways. */
  lemma IncreasingBack(idx: seq<nat>, j: nat, j': nat)
    requires forall k, l | 0 <= k < l < |idx| :: idx[k] < idx[l]
    requires j < |idx| && j' < |idx| && idx[j'] < idx[j]
    ensures j' < j
  {
  }

  /**
   * Lines 192-193 keep the test dependencies' order: the classpath lists, in increasing
   * position, exactly the dependencies that are not one of the two targets and do not occur
   * earlier in the list.
   */
  lemma ClasspathKeepsOrder(deps: seq<string>, compileTarget: string, resourcesTarget: string)
    returns (idx: seq<nat>)
    ensures Picks(Classpath(deps, compileTarget, resourcesTarget), deps, idx)
    ensures forall i | 0 <= i < |deps| ::
              i in idx <==> deps[i] != compileTarget && deps[i] != resourcesTarget && deps[i] !in deps[..i]
  {
    var excluded := [compileTarget, resourcesTarget];
    var m := Minus(deps, excluded);
    var inner := MinusKeepsOrder(deps, excluded);
    var outer := UniqKeepsFirsts(m);
    PicksThrough(Classpath(deps, compileTarget, resourcesTarget), m, deps, outer, inner);
    idx := Through(inner, outer);
    forall i | 0 <= i < |deps|
      ensures i in idx <==> deps[i] != compileTarget && deps[i] != resourcesTarget && deps[i] !in deps[..i]
    {
      KeptPosition(deps, excluded, inner, outer, i);
    }
  }

  /** Picks of picks are picks, at the positions read through. */
  lemma PicksThrough<T>(r: seq<T>, m: seq<T>, s: seq<T>, outer: seq<nat>, inner: seq<nat>)
    requires Picks(r, m, outer) && Picks(m, s, inner)
    ensures forall k | 0 <= k < |outer| :: outer[k] < |inner|
    ensures Picks(r, s, Through(inner, outer))
  {
  }

  /** A position of the test dependencies is kept exactly when it holds the first occurrence of a path not excluded. */
  lemma KeptPosition(deps: seq<string>, excluded: seq<string>, inner: seq<nat>, outer: seq<nat>, i: nat)
    requires Picks(Minus(deps, excluded), deps, inner)
    requires forall i | 0 <= i < |deps| :: i in inner <==> deps[i] !in excluded
    requires Picks(Uniq(Minus(deps, excluded)), Minus(deps, excluded), outer)
    requires forall j | 0 <= j < |Minus(deps, excluded)| ::
               j in outer <==> Minus(deps, excluded)[j] !in Minus(deps, excluded)[..j]
    requires i < |deps|
    ensures forall k | 0 <= k < |outer| :: outer[k] < |inner|
    ensures i in Through(inner, outer) <==> deps[i] !in excluded && deps[i] !in deps[..i]
  {
    var idx := Through(inner, outer);
    if i in idx {
      var k :| 0 <= k < |idx| && idx[k] == i;
      FirstKept(deps, excluded, inner, outer, i, outer[k]);
    }
    if deps[i] !in excluded && deps[i] !in deps[..i] {
      var j :| 0 <= j < |inner| && inner[j] == i;
      FirstIsFirst(deps, excluded, inner, i, j);
      var k :| 0 <= k < |outer| && outer[k] == j;
      assert idx[k] == i;
    }
  }

  /** A kept dependency is the first occurrence of its path. */
  lemma FirstKept(deps: seq<string>, excluded: seq<string>, inner: seq<nat>, outer: seq<nat>, i: nat, j: nat)
    requires Picks(Minus(deps, excluded), deps, inner)
    requires forall i | 0 <= i < |deps| :: i in inner <==> deps[i] !in excluded
    requires j in outer && j < |inner| && inner[j] == i
    requires forall j | 0 <= j < |Minus(deps, excluded)| ::
               j in outer <==> Minus(deps, excluded)[j] !in Minus(deps, excluded)[..j]
    ensures i < |deps| && deps[i] !in excluded && deps[i] !in deps[..i]
  {
    var m := Minus(deps, excluded);
    forall i' | 0 <= i' < i ensures deps[..i][i'] != deps[i] {
      if deps[i'] !in excluded {
        var j' :| 0 <= j' < |inner| && inner[j'] == i';
        IncreasingBack(inner, j, j');
        assert m[..j][j'] == m[j'];
      }
    }
  }

  /** The first occurrence of a path that is not excluded is the first occurrence in the difference. */
  lemma FirstIsFirst(deps: seq<string>, excluded: seq<string>, inner: seq<nat>, i: nat, j: nat)
    requires Picks(Minus(deps, excluded), deps, inner)
    requires j < |inner| && inner[j] == i && deps[i] !in deps[..i]
    ensures Minus(deps, excluded)[j] !in Minus(deps, excluded)[..j]
  {
    var m := Minus(deps, excluded);
    forall j' | 0 <= j' < j ensures m[..j][j'] != m[j] {
      assert deps[..i][inner[j']] == m[j'];
    }
  }

  /** Line 196: a path some project packages stands for that project, any other stays a path. */
  function Collect(cp: seq<string>, packagedBy: string -> Option<Element>): (es: seq<Element>)
    requires forall x | x in cp :: packagedBy(x).Some? ==> packagedBy(x).value.Proj?
    ensures |es| == |cp|
    ensures forall i | 0 <= i < |cp| ::
              es[i] == (if packagedBy(cp[i]).Some? then packagedBy(cp[i]).value else Path(cp[i]))
  {
    seq(|cp|, i requires 0 <= i < |cp| => if packagedBy(cp[i]).Some? then packagedBy(cp[i]).value else Path(cp[i]))
  }

  /** `path.to_s.index(prefix) == 0`. */
  predicate Under(e: Element, prefix: string) {
    IndexOf(e.ToS(), prefix) == Some(0)
  }

  /** The four lists lines 199-205 produce. */
  datatype Parts = Parts(projectLibs: seq<Element>, m2Libs: seq<Element>, generated: seq<Element>, libs: seq<Element>)

  /** Lines 199-205: three successive `partition`s of the collected classpath. */
  function Split(es: seq<Element>, m2repo: string, projectPath: string): Parts {
    var (projectLibs, others) := Partition(es, (e: Element) => e.Proj?);
    var (m2Libs, others') := Partition(others, (e: Element) => Under(e, m2repo));
    var (generated, libs) := Partition(others', (e: Element) => Under(e, projectPath));
    Parts(projectLibs, m2Libs, generated, libs)
  }

  /**
   * The four parts hold exactly the elements of the classpath, each as often as there; an
   * element is a project library exactly when it is a project, an M2 library exactly when
   * it is a path starting with the repository's path, generated exactly when it is a path
   * starting with the project's path but not the repository's, and a plain library otherwise.
   */
  lemma {:induction false} SplitCovers(es: seq<Element>, m2repo: string, projectPath: string)
    ensures var ps := Split(es, m2repo, projectPath);
            multiset(ps.projectLibs) + multiset(ps.m2Libs) + multiset(ps.generated) + multiset(ps.libs) == multiset(es)
    ensures var ps := Split(es, m2repo, projectPath);
            && (forall e :: e in ps.projectLibs <==> e in es && e.Proj?)
            && (forall e :: e in ps.m2Libs <==> e in es && e.Path? && StartsWith(e.path, m2repo))
            && (forall e :: e in ps.generated <==>
                  e in es && e.Path? && !StartsWith(e.path, m2repo) && StartsWith(e.path, projectPath))
            && (forall e :: e in ps.libs <==>
                  e in es && e.Path? && !StartsWith(e.path, m2repo) && !StartsWith(e.path, projectPath))
  {
    var isProj := (e: Element) => e.Proj?;
    var inRepo := (e: Element) => Under(e, m2repo);
    var inProject := (e: Element) => Under(e, projectPath);
    var others := FilterOut(es, isProj);
    var others' := FilterOut(others, inRepo);
    PartitionIsPermutation(es, isProj);
    PartitionIsPermutation(others, inRepo);
    PartitionIsPermutation(others', inProject);
    forall e: Element | e.Path?
      ensures Under(e, m2repo) <==> StartsWith(e.path, m2repo)
      ensures Under(e, projectPath) <==> StartsWith(e.path, projectPath)
    {
      IndexZeroIsPrefix(e.path, m2repo);
      IndexZeroIsPrefix(e.path, projectPath);
    }
  }

  /**
   * Collecting and then splitting: the project libraries are exactly the projects that
   * package some classpath path, and the three lists of paths together hold exactly the
   * classpath paths no project packages.
   */
  lemma CollectThenSplit(cp: seq<string>, packagedBy: string -> Option<Element>, m2repo: string, projectPath: string)
    requires forall x | x in cp :: packagedBy(x).Some? ==> packagedBy(x).value.Proj?
    ensures var ps := Split(Collect(cp, packagedBy), m2repo, projectPath);
            forall e :: e in ps.projectLibs <==> exists x :: x in cp && packagedBy(x) == Some(e)
    ensures var ps := Split(Collect(cp, packagedBy), m2repo, projectPath);
            forall x :: Path(x) in ps.m2Libs + ps.generated + ps.libs <==> x in cp && packagedBy(x).None?
  {
    var es := Collect(cp, packagedBy);
    SplitCovers(es, m2repo, projectPath);
    CollectedProjects(cp, packagedBy);
    CollectedPaths(cp, packagedBy);
  }

  /** The projects among the collected elements are those packaging some classpath path. */
  lemma CollectedProjects(cp: seq<string>, packagedBy: string -> Option<Element>)
    requires forall x | x in cp :: packagedBy(x).Some? ==> packagedBy(x).value.Proj?
    ensures forall e :: e in Collect(cp, packagedBy) && e.Proj? <==> exists x :: x in cp && packagedBy(x) == Some(e)
  {
    var es := Collect(cp, packagedBy);
    forall e ensures e in es && e.Proj? <==> exists x :: x in cp && packagedBy(x) == Some(e) {
      if e in es && e.Proj? {
        var i :| 0 <= i < |es| && es[i] == e;
        assert cp[i] in cp && packagedBy(cp[i]) == Some(e);
      }
      if exists x :: x in cp && packagedBy(x) == Some(e) {
        var x :| x in cp && packagedBy(x) == Some(e);
        var i :| 0 <= i < |cp| && cp[i] == x;
        assert es[i] == e;
      }
    }
  }

  /** The paths among the collected elements are the classpath paths no project packages. */
  lemma CollectedPaths(cp: seq<string>, packagedBy: string -> Option<Element>)
    requires forall x | x in cp :: packagedBy(x).Some? ==> packagedBy(x).value.Proj?
    ensures forall x :: Path(x) in Collect(cp, packagedBy) <==> x in cp && packagedBy(x).None?
  {
    var es := Collect(cp, packagedBy);
    forall x ensures Path(x) in es <==> x in cp && packagedBy(x).None? {
      if Path(x) in es {
        var i :| 0 <= i < |es| && es[i] == Path(x);
        assert cp[i] == x;
      }
      if x in cp && packagedBy(x).None? {
        var i :| 0 <= i < |cp| && cp[i] == x;
        assert es[i] == Path(x);
      }
    }
  }

  /** Distinct paths stay distinct through the split, so no part lists an element twice. */
  lemma SplitNoDup(es: seq<Element>, m2repo: string, projectPath: string)
    requires NoDup(es)
    ensures var ps := Split(es, m2repo, projectPath);
            NoDup(ps.projectLibs) && NoDup(ps.m2Libs) && NoDup(ps.generated) && NoDup(ps.libs)
  {
    var isProj := (e: Element) => e.Proj?;
    var inRepo := (e: Element) => Under(e, m2repo);
    var inProject := (e: Element) => Under(e, projectPath);
    FilterNoDup(es, isProj);
    FilterNoDup(FilterOut(es, isProj), inRepo);
    FilterNoDup(FilterOut(FilterOut(es, isProj), inRepo), inProject);
  }

  /**
   * On the classpath Buildr actually splits (distinct paths, collected), the three lists of
   * paths list no path twice. The project libraries may repeat a project, once for each of
   * its packages on the classpath; `src_projects` collapses those repeats.
   */
  lemma CollectedSplitNoDup(cp: seq<string>, packagedBy: string -> Option<Element>, m2repo: string, projectPath: string)
    requires NoDup(cp)
    requires forall x | x in cp :: packagedBy(x).Some? ==> packagedBy(x).value.Proj?
    ensures var ps := Split(Collect(cp, packagedBy), m2repo, projectPath);
            NoDup(ps.m2Libs) && NoDup(ps.generated) && NoDup(ps.libs)
  {
    var es := Collect(cp, packagedBy);
    var isProj := (e: Element) => e.Proj?;
    var inRepo := (e: Element) => Under(e, m2repo);
    var inProject := (e: Element) => Under(e, projectPath);
    var others := FilterOut(es, isProj);
    var idx := FilterOutKeepsOrder(es, isProj);
    forall k, l | 0 <= k < l < |others| ensures others[k] != others[l] {
      assert others[k] == Path(cp[idx[k]]) && others[l] == Path(cp[idx[l]]);
      assert idx[k] < idx[l];
    }
    FilterNoDup(others, inRepo);
    FilterNoDup(FilterOut(others, inRepo), inProject);
  }

  /** Two paths packaged by the same project give that project twice among the project libraries. */
  lemma ProjectLibsMayRepeat(m2repo: string, projectPath: string)
    ensures var packagedBy := (x: string) => Some(Proj("a", "a"));
            Split(Collect(["/a/x.jar", "/a/y.jar"], packagedBy), m2repo, projectPath).projectLibs
              == [Proj("a", "a"), Proj("a", "a")]
  {
    var packagedBy := (x: string) => Some(Proj("a", "a"));
    var es := Collect(["/a/x.jar", "/a/y.jar"], packagedBy);
    assert es == [Proj("a", "a"), Proj("a", "a")];
  }

  // ------------------------------------------------------------ the entries written

  /** One `classpathentry` element: its kind and its attributes. */
  datatype ClasspathEntry =
    | ConEntry(path: string)
    | LibEntry(path: string)
      /** kind 'src' for a directory of the project, with its exclusion pattern and, for a task, its output. */
    | SrcEntry(path: string, excluding: string, output: Option<string>)
      /** kind 'src' with combineaccessrules 'false', for another project. */
    | SrcProjectEntry(path: string)
    | OutputEntry(path: string)
    | VarEntry(path: string, sourcePath: string)

  /** `@excludes`: the version-control directories every source entry excludes. */
  const Excludes: string := "**/.svn/|**/CVS/"

  /** The paths of the source-directory entries among `es`, in order. */
  function SrcPaths(es: seq<ClasspathEntry>): seq<string> {
    if es == [] then []
    else SrcPaths(es[..|es| - 1]) + (if es[|es| - 1].SrcEntry? then [es[|es| - 1].path] else [])
  }

  /** The source-directory paths of a concatenation are those of each part, in order. */
  lemma {:induction false} SrcPathsAppend(a: seq<ClasspathEntry>, b: seq<ClasspathEntry>)
    ensures SrcPaths(a + b) == SrcPaths(a) + SrcPaths(b)
    decreases |b|
  {
    if b == [] {
      assert a + b == a;
    } else {
      var b' := b[..|b| - 1];
      SrcPathsAppend(a, b');
      assert (a + b)[..|a + b| - 1] == a + b';
    }
  }

  /** Entries of no source-directory kind add no source path. */
  lemma {:induction false} SrcPathsNone(es: seq<ClasspathEntry>)
    requires forall i | 0 <= i < |es| :: !es[i].SrcEntry?
    ensures SrcPaths(es) == []
    decreases |es|
  {
    if es != [] {
      SrcPathsNone(es[..|es| - 1]);
    }
  }

  /** `lib`: one library entry per distinct path, in ascending order. */
  function LibEntries(libs: seq<Element>): seq<ClasspathEntry> {
    LibsFor(SortedDistinct(ToStrings(libs)))
  }

  /** One library entry per path, in order. */
  function LibsFor(ps: seq<string>): (r: seq<ClasspathEntry>)
    ensures |r| == |ps| && forall i | 0 <= i < |ps| :: r[i] == LibEntry(ps[i])
  {
    seq(|ps|, i requires 0 <= i < |ps| => LibEntry(ps[i]))
  }

  /** One more path, one more entry at the end. */
  lemma LibsForSnoc(ps: seq<string>, i: nat)
    requires i < |ps|
    ensures LibsFor(ps[..i + 1]) == LibsFor(ps[..i]) + [LibEntry(ps[i])]
  {
  }

  /** `map(&:to_s)`. */
  function ToStrings(es: seq<Element>): (r: seq<string>)
    ensures |r| == |es| && forall i | 0 <= i < |es| :: r[i] == es[i].ToS()
  {
    seq(|es|, i requires 0 <= i < |es| => es[i].ToS())
  }

  /** The library entries name every library once, in strictly ascending order, and nothing else. */
  lemma LibEntriesAscend(libs: seq<Element>)
    ensures var r := LibEntries(libs);
            && (forall i, j | 0 <= i < j < |r| :: Below(r[i].path, r[j].path))
            && (forall e | e in libs :: LibEntry(e.ToS()) in r)
            && (forall i | 0 <= i < |r| :: exists e :: e in libs && r[i] == LibEntry(e.ToS()))
  {
    var strs := ToStrings(libs);
    var ps := SortedDistinct(strs);
    SortedDistinctAscends(strs);
    var r := LibsFor(ps);
    assert LibEntries(libs) == r;
    forall e | e in libs ensures LibEntry(e.ToS()) in r {
      var k :| 0 <= k < |libs| && libs[k] == e;
      assert strs[k] == e.ToS();
      assert e.ToS() in ps;
      var i :| 0 <= i < |ps| && ps[i] == e.ToS();
      assert r[i] == LibEntry(e.ToS());
    }
    forall i | 0 <= i < |r| ensures exists e :: e in libs && r[i] == LibEntry(e.ToS()) {
      assert ps[i] in strs;
      var k :| 0 <= k < |strs| && strs[k] == ps[i];
      assert libs[k] in libs && r[i] == LibEntry(libs[k].ToS());
    }
  }

  /** Libraries given out of order and twice are written once each, in order. */
  lemma LibExample()
    ensures LibEntries([Path("b.jar"), Path("a.jar"), Path("b.jar")]) == [LibEntry("a.jar"), LibEntry("b.jar")]
  {
    ExampleStrings();
    ExampleSorted();
  }

  lemma ExampleStrings()
    ensures ToStrings([Path("b.jar"), Path("a.jar"), Path("b.jar")]) == ["b.jar", "a.jar", "b.jar"]
  {
  }

  lemma ExampleSorted()
    ensures SortedDistinct(["b.jar", "a.jar", "b.jar"]) == ["a.jar", "b.jar"]
  {
    assert Below("a.jar", "b.jar");
    var t := ["a.jar", "b.jar"];
    var s := ["b.jar", "a.jar", "b.jar"];
    assert forall x :: x in t <==> x in s;
    SortedDistinctIs(s, t);
  }

  /** `map(&:id)` over projects. */
  function Ids(projects: seq<Element>): (r: seq<string>)
    requires forall e | e in projects :: e.Proj?
    ensures |r| == |projects| && forall i | 0 <= i < |projects| :: r[i] == projects[i].id
  {
    seq(|projects|, i requires 0 <= i < |projects| => projects[i].id)
  }

  /** `src_projects`: one entry "/<id>" per distinct project id, in ascending order of id. */
  function SrcProjectEntries(projects: seq<Element>): (r: seq<ClasspathEntry>)
    requires forall e | e in projects :: e.Proj?
    ensures var ids := SortedDistinct(Ids(projects));
            |r| == |ids| && forall i | 0 <= i < |ids| :: r[i] == SrcProjectEntry("/" + ids[i])
  {
    var ids := SortedDistinct(Ids(projects));
    seq(|ids|, i requires 0 <= i < |ids| => SrcProjectEntry("/" + ids[i]))
  }

  /** Each project id gets exactly one entry, and the ids come in strictly ascending order. */
  lemma SrcProjectEntriesAscend(projects: seq<Element>)
    requires forall e | e in projects :: e.Proj?
    ensures var r := SrcProjectEntries(projects);
            && (forall i, j | 0 <= i < j < |r| :: Below(r[i].path[1..], r[j].path[1..]))
            && (forall e | e in projects :: SrcProjectEntry("/" + e.id) in r)
            && (forall i | 0 <= i < |r| :: exists e :: e in projects && r[i] == SrcProjectEntry("/" + e.id))
  {
    var ids := SortedDistinct(Ids(projects));
    var r := SrcProjectEntries(projects);
    SortedDistinctAscends(Ids(projects));
    forall i | 0 <= i < |r| ensures r[i].path[1..] == ids[i] {
      assert r[i].path == "/" + ids[i];
    }
    forall e | e in projects ensures SrcProjectEntry("/" + e.id) in r {
      var k :| 0 <= k < |projects| && projects[k] == e;
      assert Ids(projects)[k] == e.id;
      assert e.id in ids;
      var i :| 0 <= i < |ids| && ids[i] == e.id;
      assert r[i] == SrcProjectEntry("/" + e.id);
    }
    forall i | 0 <= i < |r| ensures exists e :: e in projects && r[i] == SrcProjectEntry("/" + e.id) {
      assert ids[i] in Ids(projects);
      var k :| 0 <= k < |projects| && Ids(projects)[k] == ids[i];
      assert projects[k] in projects;
    }
  }

  /** `var`: per library, in the order given, its path and its sources' path with the repository's path replaced by the variable. */
  function VarEntries(libs: seq<string>, varName: string, varValue: string, sourceOf: string -> string): (r: seq<ClasspathEntry>)
    ensures |r| == |libs|
    ensures forall i | 0 <= i < |libs| ::
              r[i] == VarEntry(Sub(libs[i], varValue, varName), Sub(sourceOf(libs[i]), varValue, varName))
  {
    seq(|libs|, i requires 0 <= i < |libs| =>
      VarEntry(Sub(libs[i], varValue, varName), Sub(sourceOf(libs[i]), varValue, varName)))
  }

  /** A library inside the repository is written relative to the variable: the repository's path is swapped for its name. */
  lemma VarSubstitutesPrefix(libs: seq<string>, varName: string, varValue: string, sourceOf: string -> string, i: nat)
    requires i < |libs| && StartsWith(libs[i], varValue)
    ensures VarEntries(libs, varName, varValue, sourceOf)[i].path == varName + libs[i][|varValue|..]
  {
    SubOfPrefix(libs[i], varValue, varName);
  }

  /** The source entries for the paths in `ps`. */
  function SrcEntries(ps: seq<string>, output: Option<string>): (r: seq<ClasspathEntry>)
    ensures |r| == |ps| && forall i | 0 <= i < |ps| :: r[i] == SrcEntry(ps[i], Excludes, output)
  {
    seq(|ps|, i requires 0 <= i < |ps| => SrcEntry(ps[i], Excludes, output))
  }

  /** The paths of `xs`, in order, that are neither in `written` nor earlier in `xs`: those `src` emits. */
  function Fresh(written: seq<string>, xs: seq<string>): seq<string> {
    if xs == [] then []
    else
      var f := Fresh(written, xs[..|xs| - 1]);
      if xs[|xs| - 1] in written + f then f else f + [xs[|xs| - 1]]
  }

  /**
   * The fresh paths are exactly those of `xs` not yet written, and appending them keeps
   * the written list free of duplicates.
   */
  lemma {:induction false} FreshSpec(written: seq<string>, xs: seq<string>)
    requires NoDup(written)
    ensures NoDup(written + Fresh(written, xs))
    ensures forall x :: x in Fresh(written, xs) <==> x in xs && x !in written
    decreases |xs|
  {
    if xs != [] {
      var init := xs[..|xs| - 1];
      var last := xs[|xs| - 1];
      FreshSpec(written, init);
      var f := Fresh(written, init);
      if last !in written + f {
        assert written + (f + [last]) == (written + f) + [last];
        NoDupSnoc(written + f, last);
      }
      assert xs == init + [last];
    }
  }

  /** Duplicate directories are ignored: the same paths offered again add nothing. */
  lemma FreshAgain(written: seq<string>, xs: seq<string>)
    requires NoDup(written)
    ensures Fresh(written + Fresh(written, xs), xs) == []
  {
    FreshSpec(written, xs);
    NothingFresh(written + Fresh(written, xs), xs);
  }

  /** Paths all written already yield nothing fresh. */
  lemma {:induction false} NothingFresh(written: seq<string>, xs: seq<string>)
    requires forall x | x in xs :: x in written
    ensures Fresh(written, xs) == []
    decreases |xs|
  {
    if xs != [] {
      var init := xs[..|xs| - 1];
      assert forall x | x in init :: x in xs;
      NothingFresh(written, init);
      assert xs[|xs| - 1] in xs;
    }
  }

  /** The paths of a source task or list, made relative to the project. */
  function Relative(paths: seq<string>, relative: string -> string): (r: seq<string>)
    ensures |r| == |paths| && forall i | 0 <= i < |paths| :: r[i] == relative(paths[i])
  {
    seq(|paths|, i requires 0 <= i < |paths| => relative(paths[i]))
  }

  /** One more path of `xs` considered: it is fresh unless already written or already taken. */
  lemma FreshStep(written: seq<string>, xs: seq<string>, i: nat)
    requires i < |xs|
    ensures Fresh(written, xs[..i + 1]) ==
              if xs[i] in written + Fresh(written, xs[..i]) then Fresh(written, xs[..i])
              else Fresh(written, xs[..i]) + [xs[i]]
  {
    assert xs[..i + 1][..i] == xs[..i];
  }

  /** Entries of other kinds, appended, leave the source paths as they were. */
  lemma AppendOthers(es: seq<ClasspathEntry>, more: seq<ClasspathEntry>)
    requires forall i | 0 <= i < |more| :: !more[i].SrcEntry?
    ensures SrcPaths(es + more) == SrcPaths(es)
  {
    SrcPathsAppend(es, more);
    SrcPathsNone(more);
  }

  /** One more path, one more source entry. */
  lemma SrcEntriesSnoc(ps: seq<string>, path: string, out: Option<string>)
    ensures SrcEntries(ps + [path], out) == SrcEntries(ps, out) + [SrcEntry(path, Excludes, out)]
  {
  }

  /** The source entries for `ps` record exactly `ps`. */
  lemma {:induction false} SrcPathsOfSrcEntries(ps: seq<string>, out: Option<string>)
    ensures SrcPaths(SrcEntries(ps, out)) == ps
    decreases |ps|
  {
    if ps != [] {
      var init := ps[..|ps| - 1];
      SrcPathsOfSrcEntries(init, out);
      assert SrcEntries(ps, out)[..|ps| - 1] == SrcEntries(init, out);
      assert ps == init + [ps[|ps| - 1]];
    }
  }

  /** One step of `src_from_absolute_paths`: the next path is written exactly when it is fresh. */
  lemma SrcStep(w0: seq<string>, e0: seq<ClasspathEntry>, ps: seq<string>, i: nat, out: Option<string>)
    requires i < |ps|
    ensures var f := Fresh(w0, ps[..i]);
            var f' := Fresh(w0, ps[..i + 1]);
            if ps[i] in w0 + f then f' == f
            else && w0 + f' == (w0 + f) + [ps[i]]
                 && e0 + SrcEntries(f', out) == (e0 + SrcEntries(f, out)) + [SrcEntry(ps[i], Excludes, out)]
  {
    var f := Fresh(w0, ps[..i]);
    FreshStep(w0, ps, i);
    if ps[i] !in w0 + f {
      SrcEntriesSnoc(f, ps[i], out);
    }
  }

  /** Appending the entries for the fresh paths of `ps` keeps the writer's record exact. */
  lemma SrcKeepsValid(w0: seq<string>, e0: seq<ClasspathEntry>, ps: seq<string>, out: Option<string>)
    requires NoDup(w0) && SrcPaths(e0) == w0
    ensures NoDup(w0 + Fresh(w0, ps))
    ensures SrcPaths(e0 + SrcEntries(Fresh(w0, ps), out)) == w0 + Fresh(w0, ps)
  {
    FreshSpec(w0, ps);
    SrcPathsAppend(e0, SrcEntries(Fresh(w0, ps), out));
    SrcPathsOfSrcEntries(Fresh(w0, ps), out);
  }

  /** Taking one more element of a sequence built element by element. */
  lemma TakeOneMore<T>(want: seq<T>, i: nat, x: T)
    requires i < |want| && want[i] == x
    ensures want[..i + 1] == want[..i] + [x]
  {
  }

  /** What `src` is given: a task with sources and a target (nil for a task without one), or a list of absolute paths. */
  datatype SrcArg = Task(sources: seq<string>, target: Option<string>) | Paths(paths: seq<string>)

  /**
   * ClasspathEntryWriter. `relative` stands for `Util.relative_path(File.expand_path(p), project.path_to)`;
   * `entries` are the elements written to the file, in order.
   */
  class ClasspathEntryWriter {
    const relative: string -> string
    var entries: seq<ClasspathEntry>
    var pathsWritten: seq<string>

    /** Every source directory written is recorded in `@paths_written`, once. */
    ghost predicate Valid()
      reads this
    {
      NoDup(pathsWritten) && SrcPaths(entries) == pathsWritten
    }

    constructor (relative: string -> string)
      ensures Valid() && this.relative == relative && entries == [] && pathsWritten == []
    {
      this.relative := relative;
      entries := [];
      pathsWritten := [];
    }

    /** `con`. */
    method Con(path: string)
      requires Valid()
      modifies this`entries
      ensures Valid() && entries == old(entries) + [ConEntry(path)]
    {
      AppendOthers(entries, [ConEntry(path)]);
      entries := entries + [ConEntry(path)];
    }

    /** `lib`: the paths sorted, duplicates dropped, one entry each. */
    method Lib(libs: seq<Element>)
      requires Valid()
      modifies this`entries
      ensures Valid() && entries == old(entries) + LibEntries(libs)
    {
      var ps := SortedDistinct(ToStrings(libs));
      ghost var e0 := entries;
      var i := 0;
      while i < |ps|
        invariant 0 <= i <= |ps|
        invariant entries == e0 + LibsFor(ps[..i])
      {
        LibsForSnoc(ps, i);
        entries := entries + [LibEntry(ps[i])];
        i := i + 1;
      }
      assert ps[..i] == ps;
      AppendOthers(e0, LibsFor(ps));
    }

    /** `src_projects`: the project ids sorted, duplicates dropped, one entry "/<id>" each. */
    method SrcProjects(projectLibs: seq<Element>)
      requires Valid()
      requires forall e | e in projectLibs :: e.Proj?
      modifies this`entries
      ensures Valid() && entries == old(entries) + SrcProjectEntries(projectLibs)
    {
      var ids := SortedDistinct(Ids(projectLibs));
      ghost var want := SrcProjectEntries(projectLibs);
      ghost var e0 := entries;
      var i := 0;
      while i < |ids|
        invariant 0 <= i <= |ids| && |want| == |ids|
        invariant entries == e0 + want[..i]
      {
        TakeOneMore(want, i, SrcProjectEntry("/" + ids[i]));
        entries := entries + [SrcProjectEntry("/" + ids[i])];
        i := i + 1;
      }
      assert want[..i] == want;
      assert entries == e0 + want;
      AppendOthers(e0, want);
    }

    /** `output`: the target, relative to the project. */
    method Output(target: string)
      requires Valid()
      modifies this`entries
      ensures Valid() && entries == old(entries) + [OutputEntry(relative(target))]
    {
      AppendOthers(entries, [OutputEntry(relative(target))]);
      entries := entries + [OutputEntry(relative(target))];
    }

    /** `var`: one entry per library, in the order given, relative to the variable. */
    method Var(libs: seq<string>, varName: string, varValue: string, sourceOf: string -> string)
      requires Valid()
      modifies this`entries
      ensures Valid() && entries == old(entries) + VarEntries(libs, varName, varValue, sourceOf)
    {
      ghost var want := VarEntries(libs, varName, varValue, sourceOf);
      ghost var e0 := entries;
      var i := 0;
      while i < |libs|
        invariant 0 <= i <= |libs|
        invariant entries == e0 + want[..i]
      {
        var libPath := libs[i];
        var sourcePath := sourceOf(libPath);
        var relativeLibPath := Sub(libPath, varValue, varName);
        var relativeSourcePath := Sub(sourcePath, varValue, varName);
        TakeOneMore(want, i, VarEntry(relativeLibPath, relativeSourcePath));
        entries := entries + [VarEntry(relativeLibPath, relativeSourcePath)];
        i := i + 1;
      }
      assert want[..i] == want;
      assert entries == e0 + want;
      AppendOthers(e0, want);
    }

    /**
     * `src_from_absolute_paths`: the paths made relative, sorted and made unique; each one
     * not written before by this writer gets an entry and is recorded.
     */
    method SrcFromAbsolutePaths(absolutePaths: seq<string>, output: Option<string>)
      requires Valid()
      modifies this`entries, this`pathsWritten
      ensures Valid()
      ensures var added := Fresh(old(pathsWritten), SortedDistinct(Relative(absolutePaths, relative)));
              && pathsWritten == old(pathsWritten) + added
              && entries == old(entries) + SrcEntries(added, if output.Some? then Some(relative(output.value)) else None)
    {
      var ps := SortedDistinct(Relative(absolutePaths, relative));
      var out := if output.Some? then Some(relative(output.value)) else None;
      ghost var w0 := pathsWritten;
      ghost var e0 := entries;
      var i := 0;
      while i < |ps|
        invariant 0 <= i <= |ps|
        invariant pathsWritten == w0 + Fresh(w0, ps[..i])
        invariant entries == e0 + SrcEntries(Fresh(w0, ps[..i]), out)
      {
        var path := ps[i];
        SrcStep(w0, e0, ps, i, out);
        if path !in pathsWritten {
          entries := entries + [SrcEntry(path, Excludes, out)];
          pathsWritten := pathsWritten + [path];
        }
        i := i + 1;
      }
      assert ps[..i] == ps;
      SrcKeepsValid(w0, e0, ps, out);
    }

    /** `src`: a task gives its sources and writes its target as their output; a list gives its paths alone. */
    method Src(arg: SrcArg)
      requires Valid()
      modifies this`entries, this`pathsWritten
      ensures Valid()
      ensures var (paths, output) := match arg
                                     case Task(s, t) => (s, t)
                                     case Paths(ps) => (ps, None);
              var added := Fresh(old(pathsWritten), SortedDistinct(Relative(paths, relative)));
              && pathsWritten == old(pathsWritten) + added
              && entries == old(entries) + SrcEntries(added, if output.Some? then Some(relative(output.value)) else None)
    {
      match arg {
        case Task(sources, target) =>
          SrcFromAbsolutePaths(sources, target);
        case Paths(paths) =>
          SrcFromAbsolutePaths(paths, None);
      }
    }
  }
}
