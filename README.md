# mercury-tiny-cli: the mapping-table logic

`mercury-tiny-cli` remaps Java sources with Mercury using a tiny mapping
file. Before the rewrite starts, it builds one in-memory mapping set in two
passes, and this project models those two passes in Dafny.

1. **Projection** (`TinyReader.read`). The multi-namespace tiny table is
   turned into a single from→to mapping set. The class loop keys each class
   by its from-namespace name. It sets the class's deobfuscated name to the
   to-namespace name after `procClassName`: under the "append none" policy
   a package-less name is put into `none/`. The field loop and the method
   loop key each member by its from-namespace owner, name and descriptor.
   They set the raw to-namespace member name. A member row creates its owner
   class when it is missing, but never names it. Duplicate rows are
   last-write-wins.
2. **Reference augmentation** (the game-JAR block of `main`). Each reference
   class is handled in turn. If the class is already mapped, every field and
   method signature it lacks gets the placeholder `XX_<tag>_<name>_XX`, and
   existing targets are kept. If it is unmapped, a class entry is created
   only when the name has no `/`, or, under "append none", when the name
   starts with `none`. The created class gets the name
   `(none/)XX_<tag>_<name with / as _>_XX` and no members. The tag is the
   user's `--gamejar` seed with `.`, `-` and `/` replaced by `_`.

Layout:

- `names.dfy` (module `Names`): `procClassName`, Java's
  `String.replace(char, char)`, the tag sanitisation and the placeholder
  names, all as functions.
- `tree.dfy` (module `MappingTree`): the mapping set. It is a `MappingSet`
  class whose `classes` field maps class names to `ClassMapping` values.
  A `ClassMapping` holds an optional deobfuscated name and two member maps
  keyed by exact `(name, descriptor)` signatures. The class offers the
  lookups and the `getOrCreate…`/`setDeobfuscatedName` updates the passes use.
- `projection.dfy` (module `Projection`): `TinyReader` with the three loops
  of `read` as methods. Each method is proved against a prefix fold
  (`ProjectClasses`, `ProjectMembers`, `Project`), and the fold has lemmas
  for success, last-write-wins and frame properties.
- `augmentation.dfy` (module `Augmentation`): the augmentation loop as
  methods over the same `MappingSet`. They are proved against the folds
  `FillMissing`, `AugmentClass` and `AugmentAll`, which have lemmas for
  monotonicity, coverage and re-running.

The table rows are modelled as values. A class row maps each namespace it
carries to a class name. A member row maps each namespace to an
`(owner, name, descriptor)` triple. A row that lacks the from-namespace or
the to-namespace makes `read` fail with `MissingNamespace`; the model checks
the from-namespace first.

Re-running augmentation: the code re-checks each signature before inserting,
so it never overwrites anything. Even so, running augmentation twice is not
the same as running it once. A class created in the first run gets its
member placeholders only in the second run (`SecondRunFillsCreatedClass`).
The model follows the code, so idempotence is proved only for classes that
were mapped before the first run (`IdempotentOnMappedClasses`). A third run
changes nothing (`StableAfterTwoRuns`).

Enumeration order: reference classes arrive in the JAR's entry order.
Reference classes with different names commute, so with distinct names
every order gives the same table (`AugmentOrderIndependent`). Two class
files with the same name, such as a multi-release JAR's `META-INF/versions/…`
copy, are not order-independent: the first creates the class and only the
second fills its members (`SameNameOrderMatters`).

## Model

| member | source | states |
|---|---|---|
| Names.ProcClassName | src/main/java/net/fabricmc/mercurycli/Main.java:42-52 | Without "append none" the name is returned unchanged. With it, the result is `"none/" + s` exactly when `s` has no `/`, and `s` otherwise. The result always contains `/`. |
| Names.ProcClassNameIdempotent | src/main/java/net/fabricmc/mercurycli/Main.java:44-47 | Normalising a normalised class name changes nothing. |
| Names.ReplaceChar | src/main/java/net/fabricmc/mercurycli/Main.java:116 | `replace(a, b)` keeps the length, turns each `a` into `b` and keeps every other character in place; afterwards no `a` is left when `a != b`. |
| Names.SourceTag | src/main/java/net/fabricmc/mercurycli/Main.java:116 | The sanitised tag has the seed's length, contains no `.`, `-` or `/`, and keeps every other character of the seed in place. |
| Names.SyntheticClassNameNormalised | src/main/java/net/fabricmc/mercurycli/Main.java:172 | With a sanitised tag, the synthesised class name contains `/` exactly under "append none", and `procClassName` leaves it unchanged. |
| MappingTree.ClassMapping.WithMembers | src/main/java/net/fabricmc/mercurycli/Main.java:73-74 | Replacing one member map keeps the other member map and the deobfuscated name. |
| MappingTree.WithClassName | src/main/java/net/fabricmc/mercurycli/Main.java:64-65 | `getOrCreateClassMapping(name).setDeobfuscatedName(d)` adds only the key `name`, names that class `d`, keeps its members and leaves every other class as it was. |
| MappingTree.WithMember | src/main/java/net/fabricmc/mercurycli/Main.java:72-74 | `getOrCreateClassMapping(owner)` followed by setting one member's name adds only the key `owner` and updates only that member map at that signature. The class name and the other member map stay, and every other class is left as it was. |
| MappingTree.MappingSet.constructor | src/main/java/net/fabricmc/mercurycli/Main.java:129 | `read()` starts from an empty mapping set. |
| MappingTree.MappingSet.GetClassMapping | src/main/java/net/fabricmc/mercurycli/Main.java:152-153 | The lookup is present exactly when the class is mapped, and then it holds that class's record. |
| MappingTree.MappingSet.HasMemberMapping | src/main/java/net/fabricmc/mercurycli/Main.java:157 | True exactly when the signature is in the class's field map (or method map). |
| MappingTree.MappingSet.SetClassName | src/main/java/net/fabricmc/mercurycli/Main.java:171-172 | The mapping set becomes `WithClassName` of what it was. |
| MappingTree.MappingSet.SetMemberName | src/main/java/net/fabricmc/mercurycli/Main.java:158-159 | The mapping set becomes `WithMember` of what it was. |
| Projection.ProjectClassesOk | src/main/java/net/fabricmc/mercurycli/Main.java:63-66 | The class loop succeeds exactly when every class row carries both namespaces. A failure names the from- or to-namespace and some row that lacks it. |
| Projection.ProjectMembersOk | src/main/java/net/fabricmc/mercurycli/Main.java:68-84 | The same for the field loop and the method loop, over member rows. |
| Projection.ProjectOk | src/main/java/net/fabricmc/mercurycli/Main.java:61-87 | `read` succeeds exactly when every class, field and method row carries both namespaces. A failure names one of the two. |
| Projection.ProjectClassesStopsAtError | src/main/java/net/fabricmc/mercurycli/Main.java:63-66 | Once a prefix of the class rows has failed, the whole class loop fails with that error. |
| Projection.ProjectMembersStopsAtError | src/main/java/net/fabricmc/mercurycli/Main.java:68-84 | Once a prefix of the member rows has failed, the whole member loop fails with that error. |
| Projection.ClassLastWriteWins | src/main/java/net/fabricmc/mercurycli/Main.java:63-66 | After the class loop, the key of a row's from-name exists. Its deobfuscated name is `procClassName` of the to-name of the last row with that from-name. |
| Projection.ClassPassFrame | src/main/java/net/fabricmc/mercurycli/Main.java:63-66 | The class loop adds exactly the rows' from-names as keys. It never touches member maps, and it leaves the classes that no row names as they were. |
| Projection.MemberLastWriteWins | src/main/java/net/fabricmc/mercurycli/Main.java:68-84 | After a member loop, the from-owner of a row exists. Its field (or method) map at the row's from-name and from-descriptor holds the raw to-name of the last row with that owner and signature. |
| Projection.MemberPassFrame | src/main/java/net/fabricmc/mercurycli/Main.java:72-83 | A member loop adds exactly the rows' from-owners as keys. It never sets or changes a deobfuscated class name, and it leaves the other member map of every class alone. |
| Projection.MemberPassEntries | src/main/java/net/fabricmc/mercurycli/Main.java:72-83 | A member loop adds exactly the signatures its rows are keyed by. Every entry that no row is keyed by keeps its value. |
| Projection.ReadProjects | src/main/java/net/fabricmc/mercurycli/Main.java:61-87 | After a successful `read`, the keys are the old keys plus the from-names of class rows and the from-owners of member rows. Each class row's last occurrence sets the normalised name, and each member row's last occurrence sets the raw to-name. A class named by no class row keeps its old name. |
| Projection.MemberOnlyClassesUnnamed | src/main/java/net/fabricmc/mercurycli/Main.java:72-83 | From a fresh mapping set, a class that only member rows mention exists and has no deobfuscated name. |
| Projection.TinyReader.constructor | src/main/java/net/fabricmc/mercurycli/Main.java:54-59 | The reader keeps the table, the two namespaces and the "append none" policy. |
| Projection.TinyReader.Read | src/main/java/net/fabricmc/mercurycli/Main.java:61-87 | `read` reports no error exactly when `Project` of the old mapping set succeeds, and then leaves its result. Otherwise it reports `Project`'s error. |
| Projection.TinyReader.ReadClasses | src/main/java/net/fabricmc/mercurycli/Main.java:63-66 | The class loop leaves `ProjectClasses` of the old mapping set, or reports its error. |
| Projection.TinyReader.ReadMembers | src/main/java/net/fabricmc/mercurycli/Main.java:68-84 | The field loop or the method loop leaves `ProjectMembers` of the old mapping set, or reports its error. |
| Augmentation.FillMissingSpec | src/main/java/net/fabricmc/mercurycli/Main.java:155-169 | After a member loop, the keys are the old signatures plus the reference ones. Existing targets are unchanged, and each added target is exactly `XX_<tag>_<name>_XX`. |
| Augmentation.FillMissingNoop | src/main/java/net/fabricmc/mercurycli/Main.java:155-169 | When every reference signature is already mapped, a member loop changes nothing. |
| Augmentation.AugmentExtends | src/main/java/net/fabricmc/mercurycli/Main.java:152-173 | Augmentation removes no key. A mapped class keeps its name and every member target and gains only placeholder members. Each created class passes the line-170 guard, has the synthesised name and has only placeholder members. |
| Augmentation.AugmentTouchesOnlyNamed | src/main/java/net/fabricmc/mercurycli/Main.java:152-173 | A class name that no reference class carries is neither created nor changed. |
| Augmentation.AugmentKeeps | src/main/java/net/fabricmc/mercurycli/Main.java:152-169 | Every mapped class and every mapped member signature is still mapped afterwards. |
| Augmentation.AugmentCreatesEligible | src/main/java/net/fabricmc/mercurycli/Main.java:170 | A class that augmentation creates passes the guard: no `/`, or "append none" and a name starting with `none`. |
| Augmentation.AugmentCoversMapped | src/main/java/net/fabricmc/mercurycli/Main.java:152-169 | For a reference class that was mapped, every one of its field and method signatures ends up mapped. |
| Augmentation.AugmentCoversUnmapped | src/main/java/net/fabricmc/mercurycli/Main.java:170-173 | A reference class that was unmapped ends up mapped exactly when it passes the guard. Otherwise it stays absent. |
| Augmentation.CreatedClassesHaveNoMembers | src/main/java/net/fabricmc/mercurycli/Main.java:170-173 | When no two reference classes share a name, a class that augmentation creates has empty field and method maps. |
| Augmentation.CoveredIsFixedPoint | src/main/java/net/fabricmc/mercurycli/Main.java:152-173 | Take a table in which every reference class is either mapped with all its signatures or rejected by the guard. Augmentation leaves that table unchanged. |
| Augmentation.IdempotentOnMappedClasses | src/main/java/net/fabricmc/mercurycli/Main.java:152-169 | For a class mapped before the first run, a second run changes nothing. |
| Augmentation.StableAfterTwoRuns | src/main/java/net/fabricmc/mercurycli/Main.java:152-173 | After two runs, a third run changes nothing. |
| Augmentation.SecondRunFillsCreatedClass | src/main/java/net/fabricmc/mercurycli/Main.java:170-173 | Full idempotence fails. Take one reference class `a` with field `b:I`. The first run creates `a` with its synthesised name and no members. The second run keeps that name and gives `a` exactly the field `b:I` with target `XX_tag_b_XX`. |
| Augmentation.AugmentClassAddsOnlyListed | src/main/java/net/fabricmc/mercurycli/Main.java:152-173 | One reference class adds members only to the class of its own name, and only signatures it lists. |
| Augmentation.AugmentAddsOnlyListed | src/main/java/net/fabricmc/mercurycli/Main.java:152-173 | Take a member of class `k` that was not in the old table but is in the result. Some reference class named `k` lists that signature. |
| Augmentation.AugmentClassCommutes | src/main/java/net/fabricmc/mercurycli/Main.java:152-173 | Two reference classes with different names give the same table in either order. |
| Augmentation.AugmentSwapAdjacent | src/main/java/net/fabricmc/mercurycli/Main.java:141-176 | Swapping two neighbouring reference classes with different names anywhere in the enumeration leaves the final table unchanged. |
| Augmentation.AugmentMoveToEnd | src/main/java/net/fabricmc/mercurycli/Main.java:141-176 | A reference class whose name no later class carries can be moved to the end of the enumeration without changing the final table. |
| Augmentation.AugmentOrderIndependent | src/main/java/net/fabricmc/mercurycli/Main.java:141-176 | When reference class names are distinct, every permutation of the enumeration gives the same final table. |
| Augmentation.SameNameOrderMatters | src/main/java/net/fabricmc/mercurycli/Main.java:141-176 | Two class files named `a`, one with field `x:I` and one with `y:I`, give different tables in the two orders. The first file creates `a` without members and the second fills in its own field, so `a` ends with only `y:I` in one order and only `x:I` in the other. |
| Augmentation.Augment | src/main/java/net/fabricmc/mercurycli/Main.java:141-176 | The loop over the reference classes leaves `AugmentAll` of the old mapping set. |
| Augmentation.AugmentOne | src/main/java/net/fabricmc/mercurycli/Main.java:152-173 | One class node leaves `AugmentClass` of the old mapping set. A mapped class goes through both member loops. An unmapped class is created only when the guard holds. |
| Augmentation.FillClass | src/main/java/net/fabricmc/mercurycli/Main.java:155-169 | One member loop changes only the owner's record, which becomes `FillMembers` of its old record. |

## Left out

- Command-line handling (`Main.java:95-124`) is not modelled: the usage message, lower-casing of options, `--appendnone`, classpath collection and the unchecked `args[++i]`. The tag sanitisation of line 116 is modelled as `SourceTag`. `gameName` and `appendNone` are parameters, so the default tag `missing` (line 106) is only a possible argument.
- Opening the mapping file and `MappingsProvider.readTinyMappings` (lines 127-132) are I/O and a foreign library. The parsed table is a `Mappings` value. What `entry.get(ns)` does for an absent namespace is not visible, so the model reports it as a `MissingNamespace` error.
- Projection.TinyReader.Read: after a failure, the partly written mapping set is not specified. `main` discards it by throwing.
- Reading the game JAR (lines 138-150) is not modelled: entry enumeration, the `.class` filter and ASM's `ClassReader`/`ClassNode`. They are replaced by a sequence of `RefClass` values, one per class file, in enumeration order.
- Lorenz's `MappingSet` internals are not modelled. These include inner-class splitting on `$`, signature and type objects, and object identity. Class and member records are values in flat maps keyed by exact strings, so aliasing between record objects is not captured.
- The Mercury classpath setup, the directory checks and `mercury.rewrite` (lines 182-210) are file-system work and a foreign rewrite engine.
- Exception wrapping into `RuntimeException`, the empty `close()` and the progress messages (lines 89-92, 130-131, 137, 177-178, 182) are not modelled.
- Augmentation.CreatedClassesHaveNoMembers: the lemma needs distinct reference class names. If the same name comes twice, the second occurrence finds the class mapped and fills its members.
