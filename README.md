# Buildr dependency resolution and the Eclipse classpath, in Dafny

This project models two parts of Apache Buildr.

**Dependency resolution** (`lib/buildr/core/resolve.rb` and
`lib/buildr/resolving/osgi.rb`):

- A process-wide registry holds resolver kinds.
- When a project is defined, it gets a `Dependencies` object. That object
  holds one resolver per kind that applies to the project, keyed by id.
- The resolver lists are read from the `dependencies.yml` document found at
  the root of the project tree. The document is loaded once and cached.
- The read walks the `projects` lists depth-first. The resolver's own
  `projects` list serves as the visited set.
- `resolve` lets every resolver append what it finds.
- `write` overlays the resolvers of some projects on the document and sorts
  the two lists of each resolver entry it writes. The top document, and the
  project and resolver hashes it writes, are extended with SortedHash, which
  emits a hash in key order.
- `dependencies(id)` answers a resolver's artifacts followed by its
  projects.

**The Eclipse generator** (`lib/buildr/ide/eclipse.rb`):

- The per-project `Options`: `m2_repo_var`, `natures`,
  `classpath_containers` and `builders`. Each getter inherits from the
  parent project's options or falls back to a default that depends on the
  language, and then memoises the answer.
- The partition of the test classpath into project libraries, Maven 2
  repository libraries, generated paths and plain libraries.
- The `ClasspathEntryWriter` methods that turn these into classpath
  entries.

Modules:

- `Wrappers`: Option, Result and Outcome.
- `Builtins`: the Ruby Array and String operations the code relies on:
  `uniq`, `|`, `-`, `partition`, `sort`, `index`, `sub`, string order, and
  `merge` in an `inject`.
- `Projects`, `Documents`, `OsgiResolving`, `Resolvers`: the data and the
  resolver classes.
- `Closure`: the recursive read `_read` as pure functions, and what it is
  proved to compute.
- `Dependency`: the `Dependencies` class, with the imperative `_read`
  proved against `Closure`.
- `Persist`: `write`.
- `SortedHash`: the key order of the emitted document.
- `Scenario`: the examples of `spec/core/resolve_spec.rb`, worked out on
  the model.
- `EclipseOptions` and `EclipseClasspath`: the Eclipse generator.

Behaviours of the code that are easy to misread (the model follows the code):

- A project that has an entry in the document but none under the
  resolver's id makes `_read` raise. Line 98 indexes `nil["artifacts"]`,
  so this is `ReadError.NoResolverEntry`, not a silent skip.
- An entry with artifacts but no `projects` list raises at `.each`
  (`NoProjectsList`).
- Every sub-project entered by the walk is recorded in the resolver's
  `projects`, the transitive ones included. `_read` defaults
  `add_project` to true.
- `write` takes the document at the root of the first project only,
  whatever the roots of the others are.
- The `||=` in `write` puts the resolver's own array into the document
  when the file lacks the list, and the `sort!` that follows then sorts
  the resolver's list in place. `Persist.Write` states this effect on the
  resolvers.

## Model

| member | source | states |
|---|---|---|
| Builtins.Uniq | lib/buildr/core/resolve.rb:90 | `uniq` returns a duplicate-free list holding exactly the elements of its input, and is no longer (its order is stated by `UniqKeepsFirsts`) |
| Builtins.UniqKeepsFirsts | lib/buildr/core/resolve.rb:90 | `uniq` keeps, in the input's order, exactly the positions that hold the first occurrence of their element |
| Builtins.UniqOfNoDup | lib/buildr/core/resolve.rb:90 | `uniq` of a duplicate-free list is that list |
| Builtins.Union | lib/buildr/core/resolve.rb:99 | `a \| b` is duplicate-free and holds exactly the elements of `a` and of `b` (its order is stated by `UnionKeepsFirsts`) |
| Builtins.UnionKeepsFirsts | lib/buildr/core/resolve.rb:99 | `a \| b` keeps, in order, exactly the positions of `a` followed by `b` that hold the first occurrence of their element |
| Builtins.UnionExtends | lib/buildr/core/resolve.rb:99 | uniting a duplicate-free list with anything keeps it as a prefix: `\|=` only appends |
| Builtins.Minus | lib/buildr/ide/eclipse.rb:192 | `s - excluded` holds exactly the elements of `s` not excluded (its order is stated by `MinusKeepsOrder`) |
| Builtins.MinusKeepsOrder | lib/buildr/ide/eclipse.rb:192 | `s - excluded` keeps, in order, exactly the positions of `s` whose element is not excluded, each occurrence |
| Builtins.Partition | lib/buildr/ide/eclipse.rb:199-205 | `partition` returns the selected elements and the rejected ones, each in order |
| Builtins.FilterKeepsOrder | lib/buildr/ide/eclipse.rb:199-205 | the selected half keeps, in order, exactly the positions whose element satisfies the block |
| Builtins.FilterOutKeepsOrder | lib/buildr/ide/eclipse.rb:199-205 | the rejected half keeps, in order, exactly the positions whose element fails the block |
| Builtins.PartitionIsPermutation | lib/buildr/ide/eclipse.rb:199-205 | the two halves of a partition hold the input's elements, counted with multiplicity |
| Builtins.FilterNoDup | lib/buildr/ide/eclipse.rb:199-205 | both halves of a partition of a duplicate-free list are duplicate-free |
| Builtins.BelowTransitive | lib/buildr/core/resolve.rb:55-56 | the string order `sort` uses is transitive |
| Builtins.BelowTotal | lib/buildr/core/resolve.rb:55-56 | two different strings are ordered one way or the other |
| Builtins.Sort | lib/buildr/core/resolve.rb:55-56 | `sort` returns a sorted permutation of its input |
| Builtins.SortOfSorted | lib/buildr/core/resolve.rb:55-56 | `sort!` on a sorted list changes nothing |
| Builtins.SortIdempotent | lib/buildr/core/resolve.rb:55-56 | sorting twice is sorting once |
| Builtins.UniqOfSorted | lib/buildr/ide/eclipse.rb:278 | `uniq` keeps a sorted list sorted |
| Builtins.SortedDistinct | lib/buildr/ide/eclipse.rb:278 | `.sort.uniq` holds exactly the input's elements |
| Builtins.SortedDistinctAscends | lib/buildr/ide/eclipse.rb:278 | `.sort.uniq` is strictly ascending |
| Builtins.AscendingDetermined | lib/buildr/ide/eclipse.rb:278 | two strictly ascending lists with the same elements are equal |
| Builtins.SortedDistinctIs | lib/buildr/ide/eclipse.rb:278 | `.sort.uniq` is the one strictly ascending list of the input's elements |
| Builtins.IndexOf | lib/buildr/ide/eclipse.rb:202 | `String#index` gives the first position where the pattern occurs, or nil when it occurs nowhere |
| Builtins.IndexZeroIsPrefix | lib/buildr/ide/eclipse.rb:202-205 | `index(prefix) == 0` holds exactly when the string starts with the prefix |
| Builtins.SubOfPrefix | lib/buildr/ide/eclipse.rb:314-315 | `sub` on a string that starts with the pattern swaps that prefix for the replacement, taken literally (backslash sequences are not expanded) |
| Builtins.MergedByKeys | lib/buildr/core/resolve.rb:74-78 | the hash built by `inject`/`merge` has exactly the keys of the elements |
| Builtins.MergedByKeepsLast | lib/buildr/core/resolve.rb:77 | the value kept under a key is the last element with that key |
| Builtins.MergeByStep | lib/buildr/core/resolve.rb:77 | one `merge` sets the key to the new element; the key order is the order of first occurrence |
| Builtins.FiledReplace | lib/buildr/core/resolve.rb:77 | merging a present key replaces its value in the same position |
| Builtins.FiledAppend | lib/buildr/core/resolve.rb:77 | merging a new key appends it |
| Documents.FindRoot | lib/buildr/core/resolve.rb:64-66 | `find_root` returns a project without parent that is the project or one of its ancestors |
| Documents.Load | lib/buildr/core/resolve.rb:37 | a missing file reads as the empty hash, an existing one as its contents |
| Documents.DocumentCache.Get | lib/buildr/core/resolve.rb:34-40 | the first call loads the document at the asking project's root and caches it; later calls return the cached document, whichever project asks |
| Resolvers.Resolved | lib/buildr/resolving/osgi.rb:23-27 | `resolve` keeps the old artifacts as a prefix and appends exactly what the kind finds |
| Resolvers.OsgiResolveAppendsPair | lib/buildr/resolving/osgi.rb:25-26 | OSGi `resolve` adds exactly two artifacts, `com.example:foo:jar:1.1` then `com.example:bar:jar:1.1`, after the old ones |
| Resolvers.ResolveTwiceAppendsTwice | lib/buildr/resolving/osgi.rb:23-27 | nothing deduplicates: resolving twice appends the pair twice |
| Resolvers.Resolver.constructor | lib/buildr/core/resolve.rb:129-133 | a new resolver has its kind's id and two empty lists |
| Resolvers.Resolver.AssociateWith | lib/buildr/core/resolve.rb:148-150 | the resolver is associated with the project |
| Resolvers.Resolver.Resolve | lib/buildr/core/resolve.rb:138-140 | the base class leaves the artifacts alone; subclasses append what they find (`Resolved`) |
| Resolvers.Applicable | lib/buildr/core/resolve.rb:74 | `select { apply? }` keeps exactly the registered kinds that apply to the project (its order is stated by `ApplicableKeepsOrder`) |
| Resolvers.ApplicableKeepsOrder | lib/buildr/core/resolve.rb:74 | `select` keeps the registration order: exactly the positions whose kind applies, in increasing order |
| Resolvers.Registry.constructor | lib/buildr/core/resolve.rb:30-32 | the registry starts empty |
| Resolvers.Registry.Register | lib/buildr/core/resolve.rb:30-32 | `registered_resolvers << kind` appends the kind |
| Closure.Enter | lib/buildr/core/resolve.rb:96-101 | the read of one project only ever appends to the recorded projects |
| Closure.Visit | lib/buildr/core/resolve.rb:100 | the walk over a projects list only ever appends to the recorded projects |
| Closure.VisitHead | lib/buildr/core/resolve.rb:100 | a listed project already recorded, or the owner, is skipped; any other is recorded, then read, before the rest of the list |
| Closure.EnterListed | lib/buildr/core/resolve.rb:98-100 | a project with both lists unites its artifacts into the resolver's and then walks its projects list |
| Closure.EnterKeepsShape | lib/buildr/core/resolve.rb:96-101 | the read keeps the lists well shaped: no project recorded twice, the owner never recorded, artifacts duplicate-free, both lists only growing at the end |
| Closure.EnterExpands | lib/buildr/core/resolve.rb:96-101 | after the read, every sub-project listed under the project, and under every project recorded on the way, is recorded or is the owner |
| Closure.EnterReaches | lib/buildr/core/resolve.rb:96-101 | reading a project reachable from the owner records only projects reachable from the owner through the projects lists |
| Closure.ChainRecorded | lib/buildr/core/resolve.rb:96-101 | once the owner and every recorded project are expanded, every project reachable from the owner is the owner or recorded |
| Closure.EnterCollects | lib/buildr/core/resolve.rb:99 | the read collects exactly the artifacts of the project and of the projects it records, besides those already held |
| Closure.FreshReadIsClosure | lib/buildr/core/resolve.rb:86-101 | a read into empty lists yields the least closure of the owner over the projects lists: the recorded projects are distinct and are exactly the projects other than the owner reachable from it; each is expanded; the artifacts are exactly theirs and the owner's, without duplicates |
| Dependency.Tidy | lib/buildr/core/resolve.rb:90 | after the read, the artifacts are made unique with the same elements, and the projects stay as read |
| Dependency.TidyOfRead | lib/buildr/core/resolve.rb:90 | on a well-shaped read the final `uniq` changes nothing |
| Dependency.ReadInto | lib/buildr/core/resolve.rb:96-101 | the imperative `_read` leaves in the resolver exactly what `Closure.Enter` computes from the optionally extended lists, and raises exactly what it reports |
| Dependency.ReadResolver | lib/buildr/core/resolve.rb:88-91 | the read of one resolver fails exactly when `_read` fails, and otherwise is `_read` followed by `uniq` |
| Dependency.ReadOne | lib/buildr/core/resolve.rb:88-91 | the loop body of `read` leaves the resolver in the state `ReadResolver` computes, or reports its error |
| Dependency.Position | lib/buildr/core/resolve.rb:182 | the hash lookup finds a resolver with the id, or there is none |
| Dependency.PositionFiled | lib/buildr/core/resolve.rb:182 | with unique ids, looking up a resolver's id finds that resolver |
| Dependency.Instantiate | lib/buildr/core/resolve.rb:74-78 | one fresh resolver per id, associated with the project and empty, in the hash's key order, each of the last kind with that id |
| Dependency.Dependencies.constructor | lib/buildr/core/resolve.rb:72-78 | the hash has one resolver per id of the applicable kinds, in first-occurrence order; the last kind with an id wins; each resolver is new, empty and associated with the project |
| Dependency.Dependencies.Read | lib/buildr/core/resolve.rb:86-92 | nothing happens when the document has no entry for the project; otherwise the resolvers are read in hash order until the first error, each ending in `ReadResolver`'s state |
| Dependency.Dependencies.Resolve | lib/buildr/core/resolve.rb:82-84 | every resolver resolves once; its projects and its association are unchanged |
| Dependency.Dependencies.Query | lib/buildr/core/resolve.rb:181-185 | an unknown id gives the empty list; a known id gives that resolver's artifacts then its projects |
| Dependency.Dependencies.QueryRecoversLists | lib/buildr/core/resolve.rb:181-185 | the answer for a resolver's id splits back into exactly its artifacts and its projects |
| Dependency.Answer | lib/buildr/core/resolve.rb:184 | `artifacts + projects`: each artifact in order, then each project in order |
| Dependency.AnswerRecoversLists | lib/buildr/core/resolve.rb:184 | the concatenation splits back into the two lists |
| Dependency.Define | lib/buildr/core/resolve.rb:187-191 | a defined project gets a valid Dependencies; after a successful read, every resolver holds the closure `_read` computes from empty lists |
| Persist.WriteEntry | lib/buildr/core/resolve.rb:51-56 | each list keeps the value already in the file, else takes the resolver's, and is then sorted (a sorted permutation) |
| Persist.WriteEntryTwice | lib/buildr/core/resolve.rb:51-56 | writing an entry a second time changes nothing |
| Persist.PutEntryAt | lib/buildr/core/resolve.rb:48-52 | storing an entry changes that entry only and removes no key |
| Persist.WriteAllKeeps | lib/buildr/core/resolve.rb:42-60 | entries no written project touches, and the hashes of projects not passed, survive `write` unchanged |
| Persist.WriteAllWrites | lib/buildr/core/resolve.rb:47-58 | every entry of a written project is `WriteEntry` of the entry in the file and the resolver's lists |
| Persist.WriteResolver | lib/buildr/core/resolve.rb:51-56 | one resolver written into the document; a list the file lacked is the resolver's own array, and `sort!` sorts it |
| Persist.WriteProjects | lib/buildr/core/resolve.rb:47-58 | the loop over the projects builds `WriteAll` of the document on disk |
| Persist.Write | lib/buildr/core/resolve.rb:42-60 | no projects raises; otherwise the document at the first project's root, overlaid with every project's resolvers, with a list the file lacked also sorted in the resolver |
| SortedHash.LeastExists | lib/buildr/core/resolve.rb:164 | every non-empty set of keys has a least key in the string order |
| SortedHash.Emitted | lib/buildr/core/resolve.rb:161-169 | the emitted pairs list the hash exactly, each pair once, in strictly ascending key order |
| SortedHash.EmittedIsCanonical | lib/buildr/core/resolve.rb:161-169 | there is only one such listing, so the output does not depend on insertion order |
| Scenario.FooBarBarDependencies | spec/core/resolve_spec.rb:98 | `container:foobarbar.dependencies(:dummy)` is its one artifact |
| Scenario.FooBarDependencies | spec/core/resolve_spec.rb:99 | `container:foobar` answers art3, art4, then foobarbar |
| Scenario.FooDependencies | spec/core/resolve_spec.rb:100 | `container:foo` answers its two artifacts, art3, art4, then foobar and foobarbar |
| Scenario.ReadCycle | lib/buildr/core/resolve.rb:100 | a project that lists itself, and a sub-project that lists the owner back: the read ends with each artifact once |
| Scenario.ResolveOnEmpty | spec/core/resolve_spec.rb:103-107 | resolving the test resolver on an empty read yields exactly the pair |
| Scenario.AppliesSelectively | spec/core/resolve_spec.rb:46-54 | the test resolver applies to `foo` and not to `bar` |
| Scenario.WriteFoo | spec/core/resolve_spec.rb:109-113 | writing `foo` with no file yields `foo => dummy => artifacts [foo:1.0], projects []` |
| EclipseOptions.Arrayfy | lib/buildr/ide/eclipse.rb:148-150 | an array is kept, a single value becomes a one-element array |
| EclipseOptions.ArrayfyIdempotent | lib/buildr/ide/eclipse.rb:148-150 | arrayfying an arrayfied value changes nothing |
| EclipseOptions.RootNatures | lib/buildr/ide/eclipse.rb:76-78 | a root Scala project gets the Scala nature and then the Java nature; any other root project gets the Java nature alone |
| EclipseOptions.RootContainers | lib/buildr/ide/eclipse.rb:105-107 | a root Scala project gets the Scala container and then the JRE container; any other root project gets the JRE container alone |
| EclipseOptions.RootBuilders | lib/buildr/ide/eclipse.rb:133-138 | exactly one builder: the Scala builder for a Scala root project, else the Java builder |
| EclipseOptions.Options.Root | lib/buildr/ide/eclipse.rb:29-40 | a new project's options without parent: nothing set |
| EclipseOptions.Options.Child | lib/buildr/ide/eclipse.rb:29-40 | a sub-project's options, linked to the parent's: nothing set |
| EclipseOptions.Options.UnsetM2RepoVarIsDefault | lib/buildr/ide/eclipse.rb:45-54 | with `m2_repo_var` set nowhere up the chain, every project answers `M2_REPO` |
| EclipseOptions.Options.UnsetNaturesFollowRoot | lib/buildr/ide/eclipse.rb:71-82 | with `natures` set nowhere up the chain, a project answers its root's defaults, whatever its own language, with the Java nature last |
| EclipseOptions.Options.UnsetContainersFollowRoot | lib/buildr/ide/eclipse.rb:100-111 | with `classpath_containers` set nowhere up the chain, a project answers its root's defaults, with the JRE container last |
| EclipseOptions.Options.UnsetBuildersFollowRoot | lib/buildr/ide/eclipse.rb:128-142 | with `builders` set nowhere up the chain, a project answers its root's one builder |
| EclipseOptions.Options.SetM2RepoVar | lib/buildr/ide/eclipse.rb:36 | `m2_repo_var=` stores the value; nil clears it |
| EclipseOptions.Options.SetNatures | lib/buildr/ide/eclipse.rb:60-62 | `natures=` stores the arrayfied value |
| EclipseOptions.Options.SetClasspathContainers | lib/buildr/ide/eclipse.rb:88-90 | `classpath_containers=` stores the arrayfied value |
| EclipseOptions.Options.SetBuilders | lib/buildr/ide/eclipse.rb:117-119 | `builders=` stores the arrayfied value |
| EclipseOptions.Options.GetM2RepoVar | lib/buildr/ide/eclipse.rb:45-54 | returns the inherited or default value; when unset here it memoises the answer here and in the parent, and so, by the same promise of the parent's call, in every ancestor up to the first one set; when set here nothing changes; no project's answer changes |
| EclipseOptions.Options.GetNatures | lib/buildr/ide/eclipse.rb:71-82 | returns the inherited or default natures; when unset here it memoises the answer here and in the parent, and so, by the same promise of the parent's call, in every ancestor up to the first one set; when set here nothing changes; no project's answer changes |
| EclipseOptions.Options.GetClasspathContainers | lib/buildr/ide/eclipse.rb:100-111 | returns the inherited or default containers; when unset here it memoises the answer here and in the parent, and so, by the same promise of the parent's call, in every ancestor up to the first one set; when set here nothing changes; no project's answer changes |
| EclipseOptions.Options.GetBuilders | lib/buildr/ide/eclipse.rb:128-142 | returns the inherited or default builders; when unset here it memoises the answer here and in the parent, and so, by the same promise of the parent's call, in every ancestor up to the first one set; when set here nothing changes; no project's answer changes |
| EclipseClasspath.Classpath | lib/buildr/ide/eclipse.rb:192-193 | the classpath is duplicate-free and holds exactly the test dependencies other than the compile and resources targets (its order is stated by `ClasspathKeepsOrder`) |
| EclipseClasspath.ClasspathKeepsOrder | lib/buildr/ide/eclipse.rb:192-193 | the classpath lists, in the dependencies' order, exactly the first occurrence of each dependency other than the two targets |
| EclipseClasspath.Collect | lib/buildr/ide/eclipse.rb:196 | a path some project packages becomes that project; any other stays a path; the order and length are kept |
| EclipseClasspath.CollectThenSplit | lib/buildr/ide/eclipse.rb:196-199 | after `collect!` and the first `partition`, the project libraries are exactly the projects that package a classpath path, and the three path lists together hold exactly the paths no project packages |
| EclipseClasspath.SplitCovers | lib/buildr/ide/eclipse.rb:199-205 | the four parts are a permutation of the classpath: projects, paths under the M2 repository, other paths under the project, and the rest |
| EclipseClasspath.SplitNoDup | lib/buildr/ide/eclipse.rb:199-205 | splitting a list of distinct elements gives parts that each list no element twice |
| EclipseClasspath.CollectedSplitNoDup | lib/buildr/ide/eclipse.rb:193-205 | on the distinct, collected classpath, the M2, generated and plain library lists list no path twice; the project libraries may repeat a project, which `SrcProjectEntries` collapses |
| EclipseClasspath.ProjectLibsMayRepeat | lib/buildr/ide/eclipse.rb:196-199 | two paths packaged by one project put that project twice among the project libraries |
| EclipseClasspath.LibEntriesAscend | lib/buildr/ide/eclipse.rb:277-281 | `lib` writes one entry per distinct library, in strictly ascending order, and nothing else |
| EclipseClasspath.LibExample | lib/buildr/ide/eclipse.rb:277-281 | libraries `b.jar`, `a.jar` and `b.jar` give two entries, `a.jar` then `b.jar` |
| EclipseClasspath.SrcProjectEntriesAscend | lib/buildr/ide/eclipse.rb:295-299 | `src_projects` writes one entry `/<id>` per distinct project id, in strictly ascending order, and nothing else |
| EclipseClasspath.VarEntries | lib/buildr/ide/eclipse.rb:310-318 | `var` writes one entry per library, in the order given, with its path and its sources' path rewritten by `sub` with the variable name taken literally |
| EclipseClasspath.VarSubstitutesPrefix | lib/buildr/ide/eclipse.rb:314 | a library inside the repository is written relative to the variable, whose name is taken literally |
| EclipseClasspath.FreshSpec | lib/buildr/ide/eclipse.rb:336-343 | the paths `src` writes are exactly those not yet written, and the written list stays duplicate-free |
| EclipseClasspath.FreshAgain | lib/buildr/ide/eclipse.rb:334-344 | duplicate directories are ignored: paths offered to `src` a second time write nothing |
| EclipseClasspath.SrcPathsOfSrcEntries | lib/buildr/ide/eclipse.rb:338-341 | each source entry records its own path in `@paths_written` |
| EclipseClasspath.ClasspathEntryWriter.constructor | lib/buildr/ide/eclipse.rb:262-267 | a new writer has written nothing |
| EclipseClasspath.ClasspathEntryWriter.Con | lib/buildr/ide/eclipse.rb:273-275 | one `con` entry is appended |
| EclipseClasspath.ClasspathEntryWriter.Lib | lib/buildr/ide/eclipse.rb:277-281 | the library entries of `LibEntries` are appended, in that order |
| EclipseClasspath.ClasspathEntryWriter.SrcProjects | lib/buildr/ide/eclipse.rb:295-299 | the project entries of `SrcProjectEntries` are appended |
| EclipseClasspath.ClasspathEntryWriter.Output | lib/buildr/ide/eclipse.rb:301-303 | one `output` entry is appended, for the target relative to the project |
| EclipseClasspath.ClasspathEntryWriter.Var | lib/buildr/ide/eclipse.rb:310-318 | the entries of `VarEntries` are appended, with the variable name taken literally |
| EclipseClasspath.ClasspathEntryWriter.SrcFromAbsolutePaths | lib/buildr/ide/eclipse.rb:334-344 | the relative paths, sorted and unique, not written before, each get a source entry with the exclusions and the relative output, and are recorded; every source entry written is recorded once |
| EclipseClasspath.ClasspathEntryWriter.Src | lib/buildr/ide/eclipse.rb:285-291 | a task writes its sources with its target as output, and without output when the target is nil; a list of paths writes them without output |

## Left out

- Reading and emitting YAML, and the files themselves. A document is a
  map, and `Files` maps a directory to its parsed document. `File.exists?`
  is whether the directory is a key of that map. `Buildr::write` becomes
  the `Written` value.
- `YAML::quick_emit` and the text it produces. `SortedHash` keeps only
  the order of the emitted pairs.
- `flatten` and `compact` in `read` and in `resolve`. Artifacts are
  `seq<string>`, so nested arrays and nil are not representable.
- The `File.exist?` of `OSGiResolver.apply?`. It becomes the project's
  `hasManifest` field.
- `Buildr::project(name)`. It becomes the `lookup` parameter of a read.
  An unknown name, which raises in Buildr, is not modelled.
- Ruby's hash order for `@resolvers` becomes a sequence in
  first-insertion order.
- The classes a registered kind may be are a closed set: `Plain`,
  `OSGi`, and `Dummy`. `Dummy` is the resolver of the resolver tests,
  which applies when the project id contains `foo`.
- The rake wiring of the Eclipse extension: tasks, file tasks, and the
  `.project` XML.
- The lines 207-224 sequence of writer calls. Each writer method is
  modelled on its own.
- The XML markup and `write` wrapper of `ClasspathEntryWriter`. Entries
  are records appended to a sequence.
- `Util.relative_path` and `File.expand_path`. They become the writer's
  `relative` function.
- `sources_artifact`. It becomes the `sourceOf` parameter of `var`.
- `Project#id` is carried inside `Element.Proj`.
- `relative` raising on a nil path, and dispatching on `to_path`,
  `to_str` or `to_s`.
- `lib/buildr/nature/osgi.rb`, `lib/buildr/scala.rb` and
  `spec/java/run_spec.rb` are not part of this model.
- SortedHash.Emitted: emission order is modelled for a single hash on its
  own. The document `Persist.Write` produces is a map, and no lemma ties
  the emitted order to it. Hashes of projects not passed to `write` are
  not extended with SortedHash and are emitted in the order they were
  loaded, which a map does not record.
- Closure, Dependency.Answer, Persist.WriteEntry: projects are represented
  by their names. In Buildr, `projects << project` stores Project objects,
  `dependencies(id)` answers those objects, and `write` puts them in the
  document and `sort!`s them; the model stores, answers and sorts the
  names instead. Resolver ids, which are Symbols such as `:dummy` in
  Buildr, are strings.
- EclipseClasspath.Collect: the project packaging a path is the
  `packagedBy` parameter. In Buildr it is the first project, in
  `Buildr.projects` order, one of whose packages has that path as its
  `to_s`; the project list and its packages are not modelled.
- Builtins.Sub, EclipseClasspath.VarEntries: the replacement of `sub` is
  taken literally. Ruby expands backslash sequences in a String
  replacement (`\0`, `\&`, `` \` ``, `\'`, `\1` to `\9`, `\k<name>`, `\\`),
  even for a String pattern, so a `var_name` (the settable `m2_repo_var`)
  containing a backslash is written differently by Buildr. The model
  agrees with Buildr for a variable name without a backslash.
- Builtins.SubOfPrefix: holds for Ruby's `sub` only when the replacement
  has no backslash, for the reason above.
- EclipseClasspath.VarSubstitutesPrefix: holds in Buildr only for a
  variable name without a backslash, for the reason above.
- EclipseClasspath.ClasspathEntryWriter.Var: appends `VarEntries`, so it
  takes the variable name literally, as above.
- EclipseOptions.Options.Root, EclipseOptions.Options.Child: whether the
  project is a Scala project is fixed when the options are built. Buildr
  asks `project.compile.language` only when the root's getter first
  computes a default.
- EclipseOptions.Options.GetNatures: the arrays a child memoises are the
  parent's own arrays in Buildr. Here they are values, so a later
  in-place change to one array is not seen through the other.
- EclipseOptions.Options.SetNatures: `natures = nil` stores `[nil]` in
  Buildr. A `Setting` holds only strings, so this is not representable;
  the same goes for `classpath_containers=` and `builders=`.
