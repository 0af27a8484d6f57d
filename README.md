# ArchAnalyzer core in Dafny

ArchAnalyzer checks the architecture of a PHP code base. The configuration
names **components**; each has root paths, excluded paths and restrictions.
Analysing a component walks the files under its roots and creates a
**unit of code** for every class, interface, trait or file it finds. The
**dependencies finder** parses each file's imports and type references and
gives the names that unit depends on. The units are then linked: every unit
records its output dependencies (what it uses) and its input dependencies
(what uses it). Every unit belongs to exactly one component, so the links
between units induce dependency and dependent components.

On that graph the analyser computes the metrics of Robert C. Martin's
package principles: instability, abstractness, distance from the main
sequence, and primitiveness. It then checks:
- the acyclic dependencies principle (ADP, no cycle between components);
- the stable dependencies principle (SDP, depend only on components at
  least as stable);
- illegal dependencies;
- dependencies on units that are not public;
- the maximal allowed distance.

An **allowed state** records existing dependencies so that a later check
ignores them. Filtering by allowed paths keeps only the units under those
paths. A component left with neither a dependency nor a dependent component
is dropped from the check.

The model is written in the source's own form:
- value objects and pure helpers are datatypes and functions;
- the registries of components and units (`Component::$instances` and
  `UnitOfCode::$instances`), the memo map of `CachingTrait`, the type cache,
  the component analyser and the facade are classes;
- the loops of the source are methods with loop invariants. Each method is
  proved against a specification function, and the properties of that
  function are lemmas.

`CachingTrait` is modelled in two places. The `Caching.Cache` class
models the trait on its own, as a memo map with `null` as the miss
sentinel. The registry does not use that class: each component keeps its
cache as a `Graph.Caches` value with one field per key family, filled
through `Graph.WithCache`. The class and the registry's caches obey the
same hit-or-miss rule, but no lemma connects the two.

The outside world is passed in as parameters:
- the file system, class loading and reflection are a `Host` value
  (`Environment.Host`);
- the listing of files under a root path is the `listing` parameter;
- the rules of `Restrictions` are answer functions in a `Policy` value;
- the contents of the allowed-state storage file are the `state` parameter.

Three behaviours of the code worth knowing:
- a type name that is neither imported nor declared in the file's namespace
  is dropped, not reported by its literal name;
- duplicate root paths are removed by object identity (`in_array(…, true)`),
  not by value;
- creating again a unit that already exists does not move it to another
  component, whatever its path.

## Model

| member | source | states |
|---|---|---|
| UidGenerator.GenerateUid | src/Service/Report/DefaultReport/UidGenerator.php:9-12 | the uid has the name's length, has no space, `/`, `\` or ASCII upper-case letter, and character i is the lower-cased name character, turned into `-` when it is a separator |
| UidGenerator.GenerateUidIdempotent | src/Service/Report/DefaultReport/UidGenerator.php:11 | generating the uid of a uid changes nothing |
| UidGenerator.GenerateUidExamples | src/Service/Report/DefaultReport/UidGenerator.php:11 | `A\B`, `a/b` and `a b` all map to `a-b` |
| StringHelper.RemoveSpaces | src/Service/Helper/StringHelper.php:9-12 | the result has no space, every other character is in the result exactly when it was in the input, and a string without spaces is returned unchanged |
| StringHelper.RemoveSpacesAppend | src/Service/Helper/StringHelper.php:11 | deleting spaces distributes over concatenation, so the characters kept stay in order |
| StringHelper.RemoveSpacesIdempotent | src/Service/Helper/StringHelper.php:11 | deleting spaces twice is deleting them once |
| StringHelper.RemoveDoubleSpaces | src/Service/Helper/StringHelper.php:14-17 | the result has no two adjacent spaces, is no longer than the input, has the same characters as the input, and equals the input when that has no double space |
| StringHelper.RemoveDoubleSpacesIdempotent | src/Service/Helper/StringHelper.php:16 | collapsing space runs twice is collapsing them once |
| StringHelper.RemoveSpacesAfterRemoveDoubleSpaces | src/Service/Helper/StringHelper.php:11-16 | `removeSpaces(removeDoubleSpaces(s)) == removeSpaces(s)` |
| StringHelper.EscapeBackslashes | src/Service/Helper/StringHelper.php:19-22 | the length grows by the number of backslashes, and a string without backslashes is unchanged |
| StringHelper.EscapeIsReplace | src/Service/Helper/StringHelper.php:21 | the recursive doubling is the same as `str_replace('\\', '\\\\', s)` |
| StringHelper.UnescapeEscape | src/Service/Helper/StringHelper.php:21 | halving every pair of backslashes restores the input |
| PathHelper.RemoveDoubleSlashes | src/Service/Helper/PathHelper.php:9-12 | the result has no `//`, is no longer than the input, has the same characters as the input, and equals the input when it has no `//` |
| PathHelper.RemoveDoubleSlashesIdempotent | src/Service/Helper/PathHelper.php:11 | collapsing slash runs twice is collapsing them once |
| PathHelper.RemoveDoubleSlashesKeepsOthers | src/Service/Helper/PathHelper.php:11 | the characters other than `/` survive in order |
| PathHelper.RemoveDoubleBackslashes | src/Service/Helper/PathHelper.php:14-17 | the same four properties with `\` in place of `/` |
| PathHelper.RemoveDoubleBackslashesIdempotent | src/Service/Helper/PathHelper.php:16 | collapsing backslash runs twice is collapsing them once |
| PathHelper.RemoveDoubleBackslashesKeepsOthers | src/Service/Helper/PathHelper.php:16 | the characters other than `\` survive in order |
| PathHelper.PathToNamespaceChars | src/Service/Helper/PathHelper.php:19-22 | the namespace has no `/`, and every character in it other than `\` comes from the path |
| PathHelper.PathToNamespaceOfFile | src/Service/Helper/PathHelper.php:21 | `/A/B.php` becomes `\A\B` for any segments without `/` and `.` |
| Exclusion.IsExclusionExactly | src/Service/Analysis/DependenciesFinder/ExclusionChecker.php:9-12 | a token is an exclusion exactly when it is `self`, `static`, `parent` or `void` |
| Exclusion.IsExclusionExamples | src/Service/Analysis/DependenciesFinder/ExclusionChecker.php:11 | the four names are exclusions; `Self`, `STATIC`, `null`, `mixed`, `int` and the empty string are not |
| Paths.Path.constructor | src/Model/Path.php:21-29 | the namespace is stored verbatim, a falsy path stays as given, and any other path becomes its `realpath` when that succeeds with a truthy result, else stays as given |
| Paths.CanonicalPath | src/Model/Path.php:27 | a truthy path never becomes falsy |
| Paths.ConstructorKeepsTruthiness | src/Model/Path.php:21-29 | the stored path is falsy exactly when the given path was |
| Paths.FromStringArgs | src/Model/Path.php:34-45 | a declared class, trait or interface gives its declaring file (or `''`) with the name as namespace; anything else gives an empty namespace, and a value that is not an existing file is taken literally |
| Paths.FromString | src/Model/Path.php:34-45 | the new path object holds what the constructor makes of those arguments |
| Paths.IsPartOfPathIgnoresSegments | src/Model/Path.php:62-65 | `/foo/ba` is part of `/foo/bar/x` |
| Paths.IsPartOfPathExtends | src/Model/Path.php:62-65 | a path that is part of a full path is part of every extension of it |
| Paths.RelativePathOfPrefix | src/Model/Path.php:57-60 | a full path that begins with the root, which occurs nowhere else in it, yields the remaining suffix |
| Paths.IsContainsByPath | src/Model/Path.php:72-79 | for a unit with a path, `isContains` is the path test and does not depend on the unit's name |
| Types.IsAbstract | src/Model/Type/Type.php:48 | `isAbstract` is defined exactly for classes and interfaces; it is true for an interface and the class's flag for a class, and null otherwise |
| Types.Classify | src/Model/UnitOfCode.php:69-101 | a new unit is an Interface iff the interface oracle accepts it; a Class iff not an interface and the class oracle accepts it, with reflection's abstract flag (false when reflection fails); then Trait, then Primitive; Undefined exactly when no recogniser accepts it |
| Types.UndefinedIsComplement | src/Model/Type/TypeUndefined.php:14-20 | a name is undefined exactly when none of the other four recognisers accepts it |
| Types.PrimitiveLexiconIsExact | src/Model/Type/TypePrimitive.php:9-42 | the lexicon has 16 names and is case-sensitive and exact: `int`, `null`, `callback` are primitive; `Int`, `\int`, `int[]` and `''` are not |
| Types.PrimitiveIgnoresOracle | src/Model/Type/TypePrimitive.php:36-42 | a primitive name that no host declares is classified Primitive whatever the declaration oracle |
| Types.Construct | src/Model/Type/Type.php:19-42 | an object is made exactly for the five supported subclasses |
| Types.TypeRegistry.constructor | src/Model/Type/Type.php:12 | the shared cache starts empty |
| Types.TypeRegistry.GetInstance | src/Model/Type/Type.php:14-46 | a cached subclass returns its cached object with the cache unchanged; a supported one not yet cached is constructed and stored; an unsupported one fails with `Unsupported type: …` and stores nothing; a returned object is the one of the subclass asked for |
| Types.TypeRegistry.GetClassInstance | src/Model/Type/TypeClass.php:19-27 | the result is the class object with the requested flag, stored under that flag's key |
| Types.ClassKeysAgree | src/Model/Type/TypeClass.php:19-21 | the key of `getInstance(false)` is the plain class key, so it shares the object `Type::getInstance` gives; the keys of true and false differ |
| Caching.Lookup | src/Model/CachingTrait.php:17-20 | `get` on an absent key is null |
| Caching.SetOnlyOwnKey | src/Model/CachingTrait.php:17-28 | after `set`, the key reads back the value and every other key reads as before |
| Caching.MemoizeHitOrMiss | src/Model/CachingTrait.php:33-42 | on a miss the callable is called and its result stored and returned; on a hit the stored value is returned, the cache is unchanged and the callable is not called |
| Caching.MemoizeStable | src/Model/CachingTrait.php:33-42 | once a non-null result is stored, the next call returns it without calling the callable |
| Caching.MemoizeNullRecomputes | src/Model/CachingTrait.php:36 | a null result is never effectively cached: the next call calls the callable again |
| Caching.Cache.Get | src/Model/CachingTrait.php:17-20 | returns the stored value, or null for an absent key |
| Caching.Cache.Set | src/Model/CachingTrait.php:25-28 | only the given key changes |
| Caching.Cache.ExecWithCache | src/Model/CachingTrait.php:33-42 | returned value, new cache and whether the callable ran are those the memo function gives |
| Graph.UnitInstability | src/Model/UnitOfCode.php:326-333 | a unit's instability, outputs over inputs plus outputs, is a rate in [0, 1], and 0 for a unit without dependencies |
| Graph.UnitPrimitiveness | src/Model/UnitOfCode.php:338-357 | a unit's primitiveness is a rate in [0, 1], and 1 for a primitive unit |
| Graph.Instability | src/Model/Component.php:520-553 | a component's instability, fan-out over fan-in plus fan-out, is a rate in [0, 1] |
| Graph.Abstractness | src/Model/Component.php:487-508 | a component's abstractness, abstract units over units with a definite abstractness, is a rate in [0, 1] |
| Graph.WithCache | src/Model/CachingTrait.php:25-28 | filling one component's cache changes no other component and nothing of that component outside its cache |
| Graph.FirstClaiming | src/Model/Component.php:143-149 | the answer is the first component, in registration order, whose roots locate the unit and whose excluded paths do not; none when no component claims it |
| Graph.Adjacency | src/Model/Component.php:365-383 | the dependency-component graph lists, for every component, what `getDependencyComponents` answers for it |
| Graph.FilteredUnit | src/Model/UnitOfCode.php:362-392 | filtering keeps a unit's name, path, type and owner; an input stays exactly when it lies under an allowed path and is not in allowed state (when the flag is on); an output stays exactly when it is not in allowed state; nothing changes when no path is allowed |
| Graph.FilteredUnits | src/Model/Component.php:598-623 | filtering a component's units changes only the units it lists, and keeps every unit's name, path and owner |
| Graph.KeptUnits | src/Model/Component.php:598-623 | a component lists after filtering only units it listed before |
| Registries.NewComponent | src/Model/Component.php:65-75 | a new component is enabled, owns no unit, has an empty cache, and has the given restrictions or empty ones |
| Registries.AddedOutput | src/Model/UnitOfCode.php:260-272 | recording an output dependency keeps the number of units |
| Registries.AddedInput | src/Model/UnitOfCode.php:220-232 | recording an input dependency keeps the number of units |
| Registries.UnitsRelabelled | src/Model/UnitOfCode.php:111-113 | changing a unit's path or dependency lists within bounds keeps the registry consistent |
| Registries.ComponentsRelabelled | src/Model/Component.php:105-107 | changing a component's paths, flag or restrictions keeps the registry consistent |
| Registries.AddedOutputConsistent | src/Model/UnitOfCode.php:260-272 | `addOutputDependency` keeps the registry consistent |
| Registries.AddedInputConsistent | src/Model/UnitOfCode.php:220-232 | `addInputDependency` keeps the registry consistent |
| Registries.CachesRelabelled | src/Model/CachingTrait.php:33-42 | filling caches with values a cache may hold keeps the registry consistent |
| Registries.DependencyComponentsCached | src/Model/Component.php:365-383 | caching a list of other components as a component's dependency components keeps the registry consistent |
| Registries.InstabilityCached | src/Model/Component.php:520-553 | caching a rate as a component's instability keeps the registry consistent |
| Registries.DependentUnitsCached | src/Model/Component.php:390-406 | caching units under any key of `getDependentUnitsOfCode` keeps the registry consistent |
| Registries.DependencyUnitsCached | src/Model/Component.php:413-429 | caching units under any key of `getDependencyUnitsOfCode` keeps the registry consistent |
| Registries.IndexedNamesDistinct | src/Model/Component.php:87-94 | a registry keyed by name holds no two components of one name |
| Registries.LocatedInOneOf | src/Model/Component.php:122-141 | the loop answers whether the unit is located, by namespace or by file path, in one of the paths |
| Registries.FindClaiming | src/Model/Component.php:143-149 | the loop finds the first claiming component |
| Registries.Placing | src/Model/Component.php:112-152 | primitives go to the primitives component, global names to the global one, others to the first claiming component or the undefined one |
| Registries.UnderAllowed | src/Model/Component.php:604-612 | the loop answers whether the path lies under one of the allowed paths, with a null path under none |
| Registries.KeepInputs | src/Model/UnitOfCode.php:368-385 | the loop keeps exactly the inputs under an allowed path and not in allowed state |
| Registries.KeepOutputs | src/Model/UnitOfCode.php:387-391 | the loop keeps exactly the outputs not in allowed state |
| Registries.ComponentUnitsShrunk | src/Model/Component.php:614-620 | a component listing fewer of its units, each once, keeps the registry consistent |
| Registries.CountAbstractness | src/Model/Component.php:487-508 | the loop counts the abstract units and the concrete ones; units of undefined abstractness count on neither side |
| Registries.CollectExternalNames | src/Model/Component.php:520-553 | the loop collects the distinct names of the external inputs and outputs of the listed units |
| Registries.UnitPrimitivenessRate | src/Model/UnitOfCode.php:338-357 | the loop computes the unit's primitiveness rate |
| Registries.SumPrimitiveness | src/Model/Component.php:580-593 | the loop adds up the primitiveness rates of the listed units |
| Registries.ListedStep | src/Model/Component.php:604-621 | one turn of the filtering loop filters the next listed unit and records whether it is kept |
| Registries.Registry.constructor | src/Model/Component.php:81-110 | both registries start empty and consistent |
| Registries.Registry.AddRootPath | src/Model/Component.php:250-257 | a root path is added once, by object identity; nothing else changes |
| Registries.Registry.AddExcludedPath | src/Model/Component.php:272-279 | an excluded path is added once, by object identity; nothing else changes |
| Registries.Registry.ExcludeFromAnalyze | src/Model/Component.php:183-188 | the component is switched off for analysis; nothing else changes |
| Registries.Registry.IsExcluded | src/Model/Component.php:203-212 | a path is excluded exactly when one of the component's excluded paths is part of it |
| Registries.Registry.AddRootPaths | src/Model/Component.php:97-99 | each given root path is added once, in order |
| Registries.Registry.AddExcludedPaths | src/Model/Component.php:101-103 | each given excluded path is added once, in order |
| Registries.Registry.SetRestrictions | src/Model/Component.php:105-107 | the component's restrictions are replaced; nothing else changes |
| Registries.Registry.AppendComponent | src/Model/Component.php:65-75 | a new component is registered under its name at the next position |
| Registries.Registry.CreateComponent | src/Model/Component.php:81-110 | `Component::create` is create-or-get by name: a new name registers a new component, a known one answers the existing one with its paths extended and its restrictions replaced when given |
| Registries.Registry.AddUnitOfCode | src/Model/Component.php:323-328 | the owner lists the unit once |
| Registries.Registry.RemoveUnitOfCode | src/Model/Component.php:333-338 | the component no longer lists the unit |
| Registries.Registry.SetComponent | src/Model/UnitOfCode.php:137-145 | a unit changing owner leaves its old owner's list and joins the new owner's; the registry stays consistent |
| Registries.Registry.ResolveComponent | src/Model/Component.php:112-152 | `createByUnitOfCode` places the unit and registers the reserved component it needs |
| Registries.Registry.AppendUnit | src/Model/UnitOfCode.php:54-60 | a new unit is registered under its name at the next position |
| Registries.Registry.SetPath | src/Model/UnitOfCode.php:111-113 | the unit's path is replaced; nothing else changes |
| Registries.Registry.Rehome | src/Model/UnitOfCode.php:107-113 | a given component becomes the owner, then a non-falsy path replaces the old one |
| Registries.Registry.Construct | src/Model/UnitOfCode.php:67-104 | a new name is classified, given its owner (the given component or the resolved one) and its path, and registered |
| Registries.Registry.CreateUnit | src/Model/UnitOfCode.php:62-116 | `UnitOfCode::create` trims backslashes and is create-or-get by name: a new name is constructed, a known one keeps its position and is re-homed |
| Registries.Registry.AddOutputDependency | src/Model/UnitOfCode.php:260-272 | both directions of the edge are recorded; the registry stays consistent |
| Registries.Registry.AddInputDependency | src/Model/UnitOfCode.php:220-232 | both directions of the edge are recorded; the registry stays consistent |
| Registries.Registry.InputDependencies | src/Model/UnitOfCode.php:201-215 | every input, or only the inputs the given component owns |
| Registries.Registry.OutputDependencies | src/Model/UnitOfCode.php:241-255 | every output, or only the outputs the given component owns |
| Registries.Registry.GetDependentComponents | src/Model/Component.php:345-358 | the loop computes the dependent components (characterised in `GraphProperties.DependentComponentsSpec`) |
| Registries.Registry.CollectDependencyComponents | src/Model/Component.php:365-383 | the loop computes the dependency components (characterised in `GraphProperties.DependencyComponentsSpec`) |
| Registries.Registry.CollectDependentUnits | src/Model/Component.php:390-406 | the loop computes the dependent units of another component |
| Registries.Registry.CollectDependencyUnits | src/Model/Component.php:413-429 | the loop computes the dependency units in another component |
| Registries.Registry.ComputeInstability | src/Model/Component.php:520-553 | the loop computes the instability rate |
| Registries.Registry.GetDependencyComponents | src/Model/Component.php:365-383 | the answer is the cached list or the computed one, the cache is filled, and no answer of any component changes |
| Registries.Registry.GetDependentUnitsOfCode | src/Model/Component.php:390-406 | the answer is the cached list or the computed one under a key ending in the other component's name, and no answer changes |
| Registries.Registry.GetDependencyUnitsOfCode | src/Model/Component.php:413-429 | the answer is the cached list or the computed one, and no answer changes |
| Registries.Registry.CalculateInstabilityRate | src/Model/Component.php:520-553 | the answer is the cached or computed rate, in [0, 1], and no answer changes |
| Registries.Registry.CyclicDependencies | src/Model/Component.php:464-478 | the recursive search answers the cycle search on the dependency-component graph, whose edges all lead to other components |
| Registries.Registry.GetCyclicDependencies | src/Model/Component.php:464-478 | the answer holds exactly the cycles through the component: simple paths of dependency components from it, closed by an edge back to it |
| Registries.Registry.FilterDependenciesByPaths | src/Model/UnitOfCode.php:362-392 | only the given unit changes, into its filtered form |
| Registries.Registry.FilterListedUnit | src/Model/Component.php:604-621 | a listed unit is filtered and kept exactly when it lies under an allowed path and has a dependency left |
| Registries.Registry.FilterByPaths | src/Model/Component.php:598-623 | with no allowed path nothing changes; otherwise the listed units are filtered and only the kept ones stay listed |
| Registries.Registry.FilterListedNext | src/Model/Component.php:604-621 | one turn of the filtering loop |
| Registries.Registry.FilterListedUnits | src/Model/Component.php:604-621 | the filtering loop filters every listed unit and keeps those with an allowed path and a dependency left |
| Registries.Registry.CalculateAbstractnessRate | src/Model/Component.php:487-508 | the method computes the abstractness rate |
| Registries.Registry.CalculateDistanceRate | src/Model/Component.php:564-567 | the distance from the main sequence, with the instability taken through the cache, is in [0, 1] |
| Registries.Registry.CalculatePrimitivenessRate | src/Model/Component.php:580-593 | the mean primitiveness of the component's units is in [0, 1] |
| RegistryProperties.CreatedExisting | src/Model/Component.php:87-94 | creating a registered name answers that component and registers nothing |
| RegistryProperties.CreatedIndex | src/Model/Component.php:87-94 | after create the registry still maps each name to its component, and the answer bears the name |
| RegistryProperties.CreatedTwice | src/Model/Component.php:81-110 | creating one name twice answers the same component both times |
| RegistryProperties.CreatedRoots | src/Model/Component.php:97-99 | the old root paths come first and stay; a given path is added only when that very object is missing |
| RegistryProperties.CreatedExcluded | src/Model/Component.php:101-103 | the same for excluded paths |
| RegistryProperties.CreatedRestrictions | src/Model/Component.php:105-107 | restrictions are replaced only when given; a new component without them gets empty ones |
| RegistryProperties.AddedOutputEdges | src/Model/UnitOfCode.php:260-272 | `u` lists `d` once more as an output and `d` lists `u` as an input, no third unit changes, and on itself nothing changes |
| RegistryProperties.AddedInputEdges | src/Model/UnitOfCode.php:220-232 | the mirror image for an input |
| RegistryProperties.AddedOutputSymmetric | src/Model/UnitOfCode.php:260-272 | recording an output keeps the two directions of the graph in step |
| RegistryProperties.AddedInputSymmetric | src/Model/UnitOfCode.php:220-232 | recording an input keeps the two directions of the graph in step |
| RegistryProperties.DoubleOutputEdge | src/Model/UnitOfCode.php:260-272 | adding one output twice lists it twice among the outputs but lists the other unit's input once |
| RegistryProperties.MovedOwned | src/Model/UnitOfCode.php:137-145 | changing owner keeps every unit listed by its owner and each owner listing only its own units, once |
| RegistryProperties.AppendedOwned | src/Model/UnitOfCode.php:103-109 | a new unit listed by its owner keeps the registry owned |
| RegistryProperties.NullPathTypeError | src/Model/Component.php:607 | under strict types, a unit without a path makes the allowed-path loop fail as soon as one path is allowed |
| RegistryProperties.AllowedAsWrittenAgrees | src/Model/UnitOfCode.php:376 | on a unit with a path, the loop as written and the intended test agree |
| GraphProperties.DependentComponentsSpec | src/Model/Component.php:345-358 | the dependent components are exactly the owners, other than the component, of the units depending on its units, each once |
| GraphProperties.DependencyComponentsSpec | src/Model/Component.php:365-383 | the dependency components are exactly the owners of the external outputs of the component's units, each once |
| GraphProperties.FanInSpec | src/Model/Component.php:526-531 | fan-in is exactly the distinct names of the units outside the component depending on its units |
| GraphProperties.FanOutSpec | src/Model/Component.php:533-541 | fan-out is exactly the distinct names of the external units its units depend on |
| GraphProperties.DependencyComponentsBounds | src/Model/Component.php:365-383 | no component is its own dependency component, and every one exists |
| GraphProperties.DependencyUnitsSpec | src/Model/Component.php:413-429 | the dependency units are exactly the units the other component owns that this component's units depend on, each once |
| GraphProperties.DependentUnitsSpec | src/Model/Component.php:390-406 | the dependent units are exactly this component's units with an output the other component owns, each once |
| GraphProperties.DependentUnitsBounds | src/Model/Component.php:390-406 | every dependent unit exists |
| GraphProperties.DependencyUnitsBounds | src/Model/Component.php:413-429 | every dependency unit exists |
| GraphProperties.SameCores | src/Model/CachingTrait.php:33-42 | components alike except for their caches compute the same answers |
| GraphProperties.SameAnswersReflexive | src/Model/CachingTrait.php:33-42 | a state answers like itself |
| GraphProperties.SameAnswersTransitive | src/Model/CachingTrait.php:33-42 | answering alike is transitive |
| GraphProperties.SameAnswersNames | src/Model/CachingTrait.php:33-42 | states answering alike keep the components' names and unit lists |
| GraphProperties.CacheDependencyComponents | src/Model/Component.php:365-383 | filling the dependency-component cache with the computed list changes no answer |
| GraphProperties.CacheInstability | src/Model/Component.php:520-553 | filling the instability cache with the computed rate changes no answer |
| GraphProperties.CacheDependentUnits | src/Model/Component.php:390-406 | filling the dependent-unit cache under the other component's name changes no answer |
| GraphProperties.CacheDependencyUnits | src/Model/Component.php:413-429 | filling the dependency-unit cache under the other component's name changes no answer |
| GraphProperties.SameAnswersAdjacency | src/Model/Component.php:365-383 | states answering alike have the same dependency-component graph |
| GraphProperties.AdjacencySound | src/Model/Component.php:365-383 | in a consistent registry every edge leads to another existing component |
| GraphProperties.PrimitivenessSumBounds | src/Model/Component.php:580-593 | the sum of the primitiveness rates lies between 0 and the number of units |
| GraphProperties.PrimitivenessBounds | src/Model/Component.php:580-593 | a component's primitiveness is a rate in [0, 1] |
| GraphProperties.DistanceBounds | src/Model/Component.php:564-567 | the distance from the main sequence lies in [0, 1] |
| GraphProperties.CyclesShape | src/Model/Component.php:464-478 | everything the search reports is a cycle through where the search started |
| GraphProperties.CyclicDependenciesShape | src/Model/Component.php:464-478 | every reported cycle passes through the component |
| GraphProperties.CyclesGrow | src/Model/Component.php:464-478 | the search keeps what was already in the result |
| GraphProperties.CycleFound | src/Model/Component.php:464-478 | a simple path closed back to its start is found by the search from its last component |
| GraphProperties.CyclicDependenciesComplete | src/Model/Component.php:464-478 | every cycle through the component is reported |
| GraphProperties.CyclicDependenciesExact | src/Model/Component.php:464-478 | exactly the cycles through the component are reported |
| FilterProperties.FilteredUnitCongruent | src/Model/UnitOfCode.php:362-392 | filtering reads only the paths and owners of other units |
| FilterProperties.FilteredUnitIdempotent | src/Model/UnitOfCode.php:362-392 | filtering a unit a second time with the same arguments changes nothing |
| FilterProperties.FilteredUnitsStep | src/Model/Component.php:604-621 | each turn replaces the next listed unit by its filtered form when its path is allowed |
| FilterProperties.FilteredUnitsIdempotent | src/Model/Component.php:598-623 | filtering a component's units a second time changes nothing |
| FilterProperties.KeptUnitsSpec | src/Model/Component.php:598-623 | the units still listed are exactly those under an allowed path with a dependency left |
| FilterProperties.FilteredInputsAllowed | src/Model/UnitOfCode.php:368-385 | after filtering every input of a filtered unit lies under an allowed path and is not in allowed state |
| FilterProperties.NothingAllowed | src/Model/Component.php:600-602 | with no allowed path filtering changes nothing |
| Analysis.KeepsTransitive | src/Service/Analysis/ComponentAnalyzer.php:42-71 | a registry that only grows, step after step, only grows overall |
| Analysis.SettledTransitive | src/Service/Analysis/ComponentAnalyzer.php:42-71 | components whose paths and flags stay put, step after step, stay put overall |
| Analysis.ResolvedSettled | src/Model/Component.php:112-152 | placing a unit changes no component's paths or flag |
| Analysis.KeepsAnalyzed | src/Service/Analysis/ComponentAnalyzer.php:63-67 | an analysed file stays analysed while the registry only grows |
| Analysis.RootFiles | src/Service/Analysis/ComponentAnalyzer.php:44-58 | every file kept under a root is paired with that root and has a truthy real path that no excluded path covers |
| Analysis.KeepsLinked | src/Service/Analysis/ComponentAnalyzer.php:65-67 | a recorded dependency survives while the registry only grows |
| Analysis.EdgeKeeps | src/Service/Analysis/ComponentAnalyzer.php:66 | recording an output edge only grows the registry and links the unit to its dependency's name |
| Analysis.AddDependency | src/Service/Analysis/ComponentAnalyzer.php:66 | the new state is the old one with the dependency created as `UnitOfCode::create` gives it and one output edge from the unit to it; the unit is linked to the trimmed name and the registry only grows |
| Analysis.LinkedToStep | src/Service/Analysis/ComponentAnalyzer.php:65-67 | each turn of the dependency loop keeps the earlier links and adds the next |
| Analysis.AddDependencies | src/Service/Analysis/ComponentAnalyzer.php:65-67 | the new state is the one linking the unit to every reported name in order, whose edges AnalysisProperties.FileAnalysisEdges and Analysis.DependenciesLinked state exactly; the unit is linked to every reported name |
| Analysis.DependencyCreated | src/Model/UnitOfCode.php:62-116 | `UnitOfCode::create($dependency)` without component or path only grows the registry and changes no component's paths |
| Analysis.CreateDependency | src/Model/UnitOfCode.php:62-116 | the new state and the unit answered are exactly those `UnitOfCode::create` gives for the name with neither component nor path; the trimmed name is registered as that unit and the registry only grows |
| Analysis.FileUnitCreated | src/Service/Analysis/ComponentAnalyzer.php:63 | the unit of a file ends up in the analysed component, registered under its name, with the file's path |
| Analysis.UnitMovedKeeps | src/Model/UnitOfCode.php:107-113 | an existing unit moved into the component with a new path changes nothing else |
| Analysis.AnalyzeFile | src/Service/Analysis/ComponentAnalyzer.php:60-67 | the new state is the file analysis of the old one: the file's unit, named from its root's namespace and relative path, created in the component, then linked to each reported name in order |
| Analysis.AllDoneStep | src/Service/Analysis/ComponentAnalyzer.php:44-70 | files already analysed stay analysed and one more joins them |
| Analysis.RootFilesStep | src/Service/Analysis/ComponentAnalyzer.php:44-58 | the files of a root, one listed file at a time |
| Analysis.ComponentAnalyzer.constructor | src/Service/Analysis/ComponentAnalyzer.php:27-31 | the analyser keeps the finder it is given |
| Analysis.ComponentAnalyzer.Analyze | src/Service/Analysis/ComponentAnalyzer.php:33-72 | a disabled component changes nothing; otherwise the new state is the analysis of every kept file of each root, root by root in listing order, of the old state; the registry only grows and no component's paths change |
| Analysis.ComponentAnalyzer.AnalyzeListed | src/Service/Analysis/ComponentAnalyzer.php:44-70 | a listed file without a truthy real path or under an excluded path leaves the state as it was; any other is analysed, and the new state is that file's analysis of the old one |
| Analysis.ComponentAnalyzer.AnalyzeRoot | src/Service/Analysis/ComponentAnalyzer.php:44-70 | the new state is the analysis of the kept files of one root, one after the other in listing order, of the old state |
| Analysis.UnitCreated | src/Model/UnitOfCode.php:62-116 | `UnitOfCode::create` on values: the state keeps both indexes and every registered name's unit, registers the trimmed name, and answers its unit |
| Analysis.UnitAppended | src/Model/UnitOfCode.php:68-105 | a new name becomes the next unit, registered under that name, and both indexes still hold |
| Analysis.Owner | src/Model/UnitOfCode.php:59 | the owner of a new unit is a registered component, the given one or the one `createByUnitOfCode` places it in |
| Analysis.UnitUpdated | src/Model/UnitOfCode.php:107-113 | a registered name keeps its unit, which may move and take a new path, and both indexes still hold |
| Analysis.CreateUnitState | src/Model/UnitOfCode.php:62-116 | the state `Registry.CreateUnit` promises is the one `UnitCreated` gives |
| Analysis.DependencyRegistered | src/Model/UnitOfCode.php:62-116 | creating a registered name without component or path changes no unit; creating a new one appends a unit of that name without edges and keeps the others |
| Analysis.Targets | src/Model/UnitOfCode.php:260-266 | the targets of a unit never include the unit itself, as `addOutputDependency` skips the unit |
| Analysis.TargetsKept | src/Service/Analysis/ComponentAnalyzer.php:65-67 | registering more names changes no target of a name already registered |
| Analysis.TargetsSnoc | src/Service/Analysis/ComponentAnalyzer.php:65-67 | one more name adds its unit to the targets, unless that is the unit itself |
| Analysis.DependencyLinked | src/Service/Analysis/ComponentAnalyzer.php:66 | creating the dependency and the edge to it keeps both indexes and every registered name's unit, and registers the trimmed name |
| Analysis.DependencyLinkedStep | src/Service/Analysis/ComponentAnalyzer.php:65-67 | one more name linked appends its unit to the targets, unless it is the unit itself |
| Analysis.LinkedAppend | src/Model/UnitOfCode.php:260-271 | an output edge to the dependency's unit keeps the exact account of the edges so far and extends it by that edge |
| Analysis.RegisteringKeeps | src/Model/UnitOfCode.php:62-116 | registering a name keeps every old unit as it was |
| Analysis.OutputsAppend | src/Model/UnitOfCode.php:260-266 | the edge appends the dependency's unit to the outputs of the unit alone, and new units stay without outputs |
| Analysis.InputsAppend | src/Model/UnitOfCode.php:219-229 | each target lists the unit among its inputs, and no other old unit gains an input |
| Analysis.OthersAppend | src/Model/UnitOfCode.php:62-116 | old units change in their edges at most, and each new unit is a reported name's |
| Analysis.DependenciesLinked | src/Service/Analysis/ComponentAnalyzer.php:65-67 | after the first k names the unit's outputs are its old outputs followed by the units of those names in order, leaving out the unit itself; each of those lists the unit among its inputs; every other old unit keeps its outputs and all but its edges; each new unit is a reported name's without outputs |
| Analysis.LinkedSnoc | src/Service/Analysis/ComponentAnalyzer.php:65-67 | that account of the edges survives one more turn of the loop |
| Analysis.FileAnalysis | src/Service/Analysis/ComponentAnalyzer.php:60-67 | one file's analysis keeps both indexes and every component |
| Analysis.FilesAnalysis | src/Service/Analysis/ComponentAnalyzer.php:44-70 | the files analysed one after the other keep both indexes and every component |
| Analysis.ComponentAnalysis | src/Service/Analysis/ComponentAnalyzer.php:33-72 | a component's analysis keeps both indexes and every component |
| Analysis.FilesAnalysisStep | src/Service/Analysis/ComponentAnalyzer.php:44-70 | analysing some files and then one more is analysing them all in that order |
| Analysis.FilesAnalysisAppend | src/Service/Analysis/ComponentAnalyzer.php:42-71 | analysing two lists one after the other is analysing their concatenation |
| Analysis.RootFilesAnalysisStep | src/Service/Analysis/ComponentAnalyzer.php:44-70 | one more listed file adds its analysis when it is kept and nothing otherwise |
| AnalysisProperties.RootFilesMembers | src/Service/Analysis/ComponentAnalyzer.php:44-58 | a file is analysed under a root exactly when the listing gives it and it has a truthy real path that no excluded path covers |
| AnalysisProperties.RootFilesInOrder | src/Service/Analysis/ComponentAnalyzer.php:44-58 | the files of a root come in listing order, one entry per kept file and none for the others |
| AnalysisProperties.FileUnitMade | src/Service/Analysis/ComponentAnalyzer.php:63 | a file's unit is owned by the component and named from the file; a new one has no outputs, an existing one keeps them, and no other unit's outputs change |
| AnalysisProperties.FileEdgesCombined | src/Service/Analysis/ComponentAnalyzer.php:63-67 | a file's unit created and then linked: its outputs are its old ones followed by the targets, the others' outputs stay, and new units are reported names' without outputs |
| AnalysisProperties.FileAnalysisEdges | src/Service/Analysis/ComponentAnalyzer.php:60-67 | after one file the unit of the file belongs to the component, and its outputs are its old outputs followed by the units of the reported names in order; every other old unit keeps its outputs; each unit created is a reported name's, without outputs |
| AnalysisProperties.FileAnalysedTwice | src/Model/UnitOfCode.php:260-266 | a file analysed a second time lists the units of its reported names once more after the ones it already had |
| DependenciesFinders.Results | src/Service/Analysis/DependenciesFinder/CompositeDependenciesFinder.php:23-26 | the composite collects one answer per finder |
| DependenciesFinders.Find | src/Service/Analysis/DependenciesFinder/CompositeDependenciesFinder.php:21-29 | the method answers what the finder's definition says |
| DependenciesFinders.DependenciesNoDup | src/Service/Analysis/DependenciesFinder/CompositeDependenciesFinder.php:28 | every finder reports each name once |
| DependenciesFinders.CompositeMembers | src/Service/Analysis/DependenciesFinder/CompositeDependenciesFinder.php:21-29 | a composite reports exactly the names some of its finders report; with no finders, nothing |
| DependenciesFinders.FirstFinderFirst | src/Service/Analysis/DependenciesFinder/CompositeDependenciesFinder.php:28 | the first finder's names come first, in its order |
| DependenciesFinders.SingleFinder | src/Service/Analysis/DependenciesFinder/CompositeDependenciesFinder.php:21-29 | a composite of one finder answers like that finder |
| Patterns.StaticAt | src/Service/Analysis/DependenciesFinder/CodeParsing/Strategy/ClassesCalledStaticallyParsingStrategy.php:14 | a match of `([\w\\]*)\s*::` advances and captures only class characters |
| Patterns.NewAt | src/Service/Analysis/DependenciesFinder/CodeParsing/Strategy/ClassesCreatedThroughNewParsingStrategy.php:14 | a match of `new\s*([^(]*)` exists exactly where `new` occurs up to case, and captures no `(` |
| Patterns.InstanceOfAt | src/Service/Analysis/DependenciesFinder/CodeParsing/Strategy/ClassesFromInstanceofConstructionParsingStrategy.php:14 | a match starts at a `$` and captures a non-empty run of class characters as the class operand |
| Patterns.TagToDollarAt | src/Service/Analysis/DependenciesFinder/CodeParsing/Strategy/ParamAnnotationsParsingStrategy.php:16 | a tag match starts at the tag, up to case, and captures no `$` |
| Patterns.ParamAt | src/Service/Analysis/DependenciesFinder/CodeParsing/Strategy/ParamAnnotationsParsingStrategy.php:16 | a `@param` match starts at the tag and captures no `$` |
| Patterns.PropertyAt | src/Service/Analysis/DependenciesFinder/CodeParsing/Strategy/PropertyAnnotationsParsingStrategy.php:16 | a `@property` match, in any of its three spellings, starts with `@property` and captures no `$` |
| Patterns.TagRunAt | src/Service/Analysis/DependenciesFinder/CodeParsing/Strategy/ReturnAnnotationsParsingStrategy.php:16 | a tag match captures only characters of the pattern's class |
| Patterns.VarAt | src/Service/Analysis/DependenciesFinder/CodeParsing/Strategy/VarAnnotationsParsingStrategy.php:22-23 | a `@var` match captures two runs of type-list characters |
| Patterns.MethodTailAt | src/Service/Analysis/DependenciesFinder/CodeParsing/Strategy/MethodAnnotationsParsingStrategy.php:16 | the part of a `@method` match after the name captures argument and type characters only |
| Patterns.MethodBodyAt | src/Service/Analysis/DependenciesFinder/CodeParsing/Strategy/MethodAnnotationsParsingStrategy.php:16 | the part after the annotation captures type, name, argument and type groups |
| Patterns.MethodAt | src/Service/Analysis/DependenciesFinder/CodeParsing/Strategy/MethodAnnotationsParsingStrategy.php:16 | a `@method` match starts at the tag and captures five groups of the right character classes |
| Patterns.NamespaceAt | src/Service/Analysis/DependenciesFinder/CodeParsing/CodeParsingDependenciesFinder.php:36 | a `namespace N;` match captures a non-empty run of class characters |
| Patterns.UseAt | src/Service/Analysis/DependenciesFinder/CodeParsing/CodeParsingDependenciesFinder.php:84 | a `use ...;` match starts a line and captures no `;` |
| Patterns.MatchAt | src/Service/Analysis/DependenciesFinder/CodeParsing/CodeParsingDependenciesFinder.php:84 | every match of every pattern advances and satisfies what the pattern guarantees |
| Patterns.FindAll | src/Service/Analysis/DependenciesFinder/CodeParsing/CodeParsingDependenciesFinder.php:84 | `preg_match_all` reports non-overlapping matches in order, each well formed |
| Patterns.Column | src/Service/Analysis/DependenciesFinder/CodeParsing/CodeParsingDependenciesFinder.php:85 | column `g` holds group `g` of every match, in order |
| Patterns.FindAllNone | src/Service/Analysis/DependenciesFinder/CodeParsing/CodeParsingDependenciesFinder.php:84 | where no match starts, nothing is found |
| Patterns.FindAllFirst | src/Service/Analysis/DependenciesFinder/CodeParsing/CodeParsingDependenciesFinder.php:84 | a match at the start is the first one reported, and the search resumes after it |
| Patterns.FindAllSkip | src/Service/Analysis/DependenciesFinder/CodeParsing/CodeParsingDependenciesFinder.php:84 | positions where no match starts are passed over |
| Strategies.ColumnOf | src/Service/Analysis/DependenciesFinder/CodeParsing/Strategy/ClassesCalledStaticallyParsingStrategy.php:14-15 | what every match guarantees of a group holds of that group's column |
| Strategies.DedupeItems | src/Service/Analysis/DependenciesFinder/CodeParsing/Strategy/ClassesCalledStaticallyParsingStrategy.php:17 | `array_unique` keeps the same members, once each |
| Strategies.ParseStatic | src/Service/Analysis/DependenciesFinder/CodeParsing/Strategy/ClassesCalledStaticallyParsingStrategy.php:12-18 | the names before `::`, each once, exactly the captured ones, all class characters |
| Strategies.ParseNew | src/Service/Analysis/DependenciesFinder/CodeParsing/Strategy/ClassesCreatedThroughNewParsingStrategy.php:12-18 | the texts after `new`, each once, exactly the captured ones, none holding `(` |
| Strategies.ParseInstanceof | src/Service/Analysis/DependenciesFinder/CodeParsing/Strategy/ClassesFromInstanceofConstructionParsingStrategy.php:12-17 | the class operands of `instanceof`, each once, exactly the captured ones, non-empty class names |
| Strategies.SplitTypes | src/Service/Analysis/DependenciesFinder/CodeParsing/Strategy/ParamAnnotationsParsingStrategy.php:21 | spaces removed, `[]` deleted, split at each bar: no piece holds a space or a bar |
| Strategies.SplitExceptions | src/Service/Analysis/DependenciesFinder/CodeParsing/Strategy/ThrowsAnnotationsParsingStrategy.php:20 | spaces removed and split at each bar: no piece holds a space or a bar |
| Strategies.SplitTypesKeepsOut | src/Service/Analysis/DependenciesFinder/CodeParsing/Strategy/ParamAnnotationsParsingStrategy.php:21 | a character missing from a type list is in none of its pieces |
| Strategies.SplitExceptionsKeepsOut | src/Service/Analysis/DependenciesFinder/CodeParsing/Strategy/ThrowsAnnotationsParsingStrategy.php:20 | a character missing from an exception list is in none of its pieces |
| Strategies.KeysOfNoDup | src/Service/Analysis/DependenciesFinder/CodeParsing/Strategy/ParamAnnotationsParsingStrategy.php:19-26 | the keys of `$dependencies` are distinct |
| Strategies.KeysOfMember | src/Service/Analysis/DependenciesFinder/CodeParsing/Strategy/ParamAnnotationsParsingStrategy.php:19-26 | a name is a key exactly when some capture contributes it |
| Strategies.CollectKeys | src/Service/Analysis/DependenciesFinder/CodeParsing/Strategy/ParamAnnotationsParsingStrategy.php:19-26 | the nested loops compute the keys |
| Strategies.ParseParam | src/Service/Analysis/DependenciesFinder/CodeParsing/Strategy/ParamAnnotationsParsingStrategy.php:14-27 | the loops compute the `@param` types |
| Strategies.ParseProperty | src/Service/Analysis/DependenciesFinder/CodeParsing/Strategy/PropertyAnnotationsParsingStrategy.php:14-27 | the loops compute the `@property` types |
| Strategies.ParseReturn | src/Service/Analysis/DependenciesFinder/CodeParsing/Strategy/ReturnAnnotationsParsingStrategy.php:14-27 | the loops compute the `@return` types |
| Strategies.ParseThrows | src/Service/Analysis/DependenciesFinder/CodeParsing/Strategy/ThrowsAnnotationsParsingStrategy.php:14-26 | the loops compute the `@throws` types |
| Strategies.FilterVarTokens | src/Service/Analysis/DependenciesFinder/CodeParsing/Strategy/VarAnnotationsParsingStrategy.php:16-20 | the filter keeps exactly the tokens that are truthy, not numeric and hold no `$` |
| Strategies.ParseVar | src/Service/Analysis/DependenciesFinder/CodeParsing/Strategy/VarAnnotationsParsingStrategy.php:14-34 | the loops compute the `@var` types |
| Strategies.ArgumentType | src/Service/Analysis/DependenciesFinder/CodeParsing/Strategy/MethodAnnotationsParsingStrategy.php:25-30 | an argument contributes at most one type |
| Strategies.AppendArgumentTypes | src/Service/Analysis/DependenciesFinder/CodeParsing/Strategy/MethodAnnotationsParsingStrategy.php:22-31 | the inner loop appends the type of each argument |
| Strategies.AppendArgumentListTypes | src/Service/Analysis/DependenciesFinder/CodeParsing/Strategy/MethodAnnotationsParsingStrategy.php:21-32 | the outer loop appends the types of every argument list |
| Strategies.ParseMethod | src/Service/Analysis/DependenciesFinder/CodeParsing/Strategy/MethodAnnotationsParsingStrategy.php:14-42 | the method computes the `@method` types |
| Strategies.Parse | src/Service/Analysis/DependenciesFinder/CodeParsing/Strategy/CodeParsingStrategyInterface.php:12 | `parse` of each strategy answers its definition |
| StrategyProperties.ParsedNoDup | src/Service/Analysis/DependenciesFinder/CodeParsing/Strategy/CodeParsingStrategyInterface.php:12 | every strategy returns each name once |
| StrategyProperties.NoAnnotationWithoutAt | src/Service/Analysis/DependenciesFinder/CodeParsing/Strategy/ParamAnnotationsParsingStrategy.php:16 | the annotation patterns find nothing in text without `@` |
| StrategyProperties.ParamNeedsTag | src/Service/Analysis/DependenciesFinder/CodeParsing/Strategy/ParamAnnotationsParsingStrategy.php:16-17 | text without `@param`, in any case, yields no `@param` types |
| StrategyProperties.NewNeedsKeyword | src/Service/Analysis/DependenciesFinder/CodeParsing/Strategy/ClassesCreatedThroughNewParsingStrategy.php:14 | text without `new`, in any case, yields nothing from the `new` strategy |
| StrategyProperties.NoInstanceofWithoutDollar | src/Service/Analysis/DependenciesFinder/CodeParsing/Strategy/ClassesFromInstanceofConstructionParsingStrategy.php:14 | no `instanceof` match starts after the last `$` |
| StrategyProperties.ParamAndPropertyTypesClean | src/Service/Analysis/DependenciesFinder/CodeParsing/Strategy/PropertyAnnotationsParsingStrategy.php:16-24 | no `@param` or `@property` type holds `$`, a space or a bar |
| StrategyProperties.ParamTypesClean | src/Service/Analysis/DependenciesFinder/CodeParsing/Strategy/ParamAnnotationsParsingStrategy.php:16-24 | no `@param` type holds `$`, a space or a bar |
| StrategyProperties.PropertyTypesClean | src/Service/Analysis/DependenciesFinder/CodeParsing/Strategy/PropertyAnnotationsParsingStrategy.php:16-24 | no `@property` type holds `$`, a space or a bar |
| StrategyProperties.ThrowsTypesHaveNoBrackets | src/Service/Analysis/DependenciesFinder/CodeParsing/Strategy/ThrowsAnnotationsParsingStrategy.php:16-23 | no `@throws` name holds a bracket, a space or a bar |
| StrategyProperties.VarTypesHaveNoDollar | src/Service/Analysis/DependenciesFinder/CodeParsing/Strategy/VarAnnotationsParsingStrategy.php:16-31 | no `@var` name holds `$` |
| StrategyProperties.MethodTypeGroupsContribute | src/Service/Analysis/DependenciesFinder/CodeParsing/Strategy/MethodAnnotationsParsingStrategy.php:19 | non-empty left and right `@method` type groups both reach the type list |
| StrategyProperties.ArgumentDefaultIgnored | src/Service/Analysis/DependenciesFinder/CodeParsing/Strategy/MethodAnnotationsParsingStrategy.php:25 | an argument's default value after `=` is ignored |
| StrategyProperties.TypedArgumentContributesType | src/Service/Analysis/DependenciesFinder/CodeParsing/Strategy/MethodAnnotationsParsingStrategy.php:26-30 | an argument `Type $name` contributes `Type` |
| StrategyProperties.UntypedArgumentContributesNothing | src/Service/Analysis/DependenciesFinder/CodeParsing/Strategy/MethodAnnotationsParsingStrategy.php:28 | a lone `$name` contributes nothing |
| StrategyProperties.TypedArgumentWithDefault | src/Service/Analysis/DependenciesFinder/CodeParsing/Strategy/MethodAnnotationsParsingStrategy.php:25-30 | an argument `Type $name =default` contributes exactly `Type`: the default is cut at `=` and the name is dropped |
| StrategyProperties.StaticMethodMatch | src/Service/Analysis/DependenciesFinder/CodeParsing/Strategy/MethodAnnotationsParsingStrategy.php:16 | any text laid out as `@method static L N(A)` and a line break, with `L`, `N` and `A` of the pattern's character classes, is one match whose groups are the annotation `@method static`, `L`, `N`, `A` and empty right-hand types |
| StrategyProperties.StaticMethodHit | src/Service/Analysis/DependenciesFinder/CodeParsing/Strategy/MethodAnnotationsParsingStrategy.php:16 | the line `@method static L N(A)` is matched from its start to its end with those five groups |
| StrategyProperties.StaticMethodTypes | src/Service/Analysis/DependenciesFinder/CodeParsing/Strategy/MethodAnnotationsParsingStrategy.php:14-42 | the types of a static `@method` line are the keys of its left-hand types followed by its arguments' types, each split at the union bar with `[]` removed |
| StrategyProperties.MethodLineTypes | src/Service/Analysis/DependenciesFinder/CodeParsing/Strategy/MethodAnnotationsParsingStrategy.php:14-42 | a static `@method` line whose left-hand types are the array union of `Foo` and `Bar`, named `name`, with the argument `Baz $x = 1`, yields exactly `Foo`, `Bar`, `Baz`, in that order |
| StrategyProperties.NewFindsName | src/Service/Analysis/DependenciesFinder/CodeParsing/Strategy/ClassesCreatedThroughNewParsingStrategy.php:14-17 | in `new Foo(` the name is the first one reported |
| StrategyProperties.StaticFindsName | src/Service/Analysis/DependenciesFinder/CodeParsing/Strategy/ClassesCalledStaticallyParsingStrategy.php:14-17 | in `Foo::bar()` the class is the first one reported |
| StrategyProperties.InstanceofFindsClass | src/Service/Analysis/DependenciesFinder/CodeParsing/Strategy/ClassesFromInstanceofConstructionParsingStrategy.php:14-16 | in `$x instanceof Foo` the class operand is the first one reported |
| StrategyProperties.InstanceofFirst | src/Service/Analysis/DependenciesFinder/CodeParsing/Strategy/ClassesFromInstanceofConstructionParsingStrategy.php:14-16 | a match at the start reports its class operand first |
| StrategyProperties.PropertyOperandNotMatched | src/Service/Analysis/DependenciesFinder/CodeParsing/Strategy/ClassesFromInstanceofConstructionParsingStrategy.php:14 | `$this->x instanceof Foo` is not matched, since a blank must follow the variable |
| StrategyProperties.ParamOneTag | src/Service/Analysis/DependenciesFinder/CodeParsing/Strategy/ParamAnnotationsParsingStrategy.php:16-26 | one `@param` tag yields its types split and each once, or nothing for a falsy capture |
| StrategyProperties.SplitTypesOfUnion | src/Service/Analysis/DependenciesFinder/CodeParsing/Strategy/ParamAnnotationsParsingStrategy.php:21 | the union of `Foo` and `Bar`, with a trailing space, splits into `Foo` and `Bar` |
| StrategyProperties.ParamUnion | src/Service/Analysis/DependenciesFinder/CodeParsing/Strategy/ParamAnnotationsParsingStrategy.php:14-27 | a `@param` tag with the union of `Foo` and `Bar` declares `Foo` and `Bar`, in order |
| StrategyProperties.VarTypeBeforeVariable | src/Service/Analysis/DependenciesFinder/CodeParsing/Strategy/VarAnnotationsParsingStrategy.php:22-33 | `@var Foo $x` declares `Foo` |
| StrategyProperties.VarTypeAfterVariable | src/Service/Analysis/DependenciesFinder/CodeParsing/Strategy/VarAnnotationsParsingStrategy.php:22-33 | `@var $x Foo` declares `Foo` |
| StrategyProperties.VarPairCaptures | src/Service/Analysis/DependenciesFinder/CodeParsing/Strategy/VarAnnotationsParsingStrategy.php:27 | the captured tokens are those of the two words the filter keeps |
| StrategyProperties.SplitTypesOfArray | src/Service/Analysis/DependenciesFinder/CodeParsing/Strategy/ParamAnnotationsParsingStrategy.php:21 | `Foo[] ` splits into `Foo` |
| StrategyProperties.ParamArray | src/Service/Analysis/DependenciesFinder/CodeParsing/Strategy/ParamAnnotationsParsingStrategy.php:14-27 | `@param Foo[] $x` declares `Foo` |
| StrategyProperties.ReturnOneTag | src/Service/Analysis/DependenciesFinder/CodeParsing/Strategy/ReturnAnnotationsParsingStrategy.php:16-26 | one `@return` tag ending the text yields its types split, each once |
| StrategyProperties.SplitTypesOfUnionArray | src/Service/Analysis/DependenciesFinder/CodeParsing/Strategy/ReturnAnnotationsParsingStrategy.php:21 | the union of `Foo` and `Bar[]` splits into `Foo` and `Bar` |
| StrategyProperties.ReturnUnionOfArray | src/Service/Analysis/DependenciesFinder/CodeParsing/Strategy/ReturnAnnotationsParsingStrategy.php:14-27 | a `@return` tag with the union of `Foo` and `Bar[]` declares `Foo` and `Bar` |
| StrategyProperties.ReturnKeepsVariable | src/Service/Analysis/DependenciesFinder/CodeParsing/Strategy/ReturnAnnotationsParsingStrategy.php:16-26 | `@return $this` keeps `$this`, since this strategy filters nothing |
| StrategyProperties.SplitTypesOfWord | src/Service/Analysis/DependenciesFinder/CodeParsing/Strategy/ParamAnnotationsParsingStrategy.php:21 | a plain name splits into itself |
| StrategyProperties.SplitExceptionsOfUnion | src/Service/Analysis/DependenciesFinder/CodeParsing/Strategy/ThrowsAnnotationsParsingStrategy.php:20 | the union of `A` and `B` splits into `A` and `B` |
| StrategyProperties.ThrowsOneTag | src/Service/Analysis/DependenciesFinder/CodeParsing/Strategy/ThrowsAnnotationsParsingStrategy.php:16-25 | one `@throws` tag ending the text yields its names split, each once |
| StrategyProperties.ThrowsUnion | src/Service/Analysis/DependenciesFinder/CodeParsing/Strategy/ThrowsAnnotationsParsingStrategy.php:14-26 | a `@throws` tag with the union of `A` and `B` declares `A` and `B` |
| StrategyProperties.PropertySecondSpelling | src/Service/Analysis/DependenciesFinder/CodeParsing/Strategy/PropertyAnnotationsParsingStrategy.php:16 | when `@property` fails and `@property-read` matches, the longer spelling is the match |
| StrategyProperties.PropertyFirstSpellingFails | src/Service/Analysis/DependenciesFinder/CodeParsing/Strategy/PropertyAnnotationsParsingStrategy.php:16 | `@property` followed by `-` is not the short spelling |
| StrategyProperties.PropertyReadOneTag | src/Service/Analysis/DependenciesFinder/CodeParsing/Strategy/PropertyAnnotationsParsingStrategy.php:16-26 | one `@property-read` tag yields its types split, each once, or nothing for a falsy capture |
| StrategyProperties.PropertyReadUnion | src/Service/Analysis/DependenciesFinder/CodeParsing/Strategy/PropertyAnnotationsParsingStrategy.php:14-27 | a `@property-read` tag with the union of `Foo` and `Bar` declares `Foo` and `Bar` |
| CodeParsing.CurrentNamespace | src/Service/Analysis/DependenciesFinder/CodeParsing/CodeParsingDependenciesFinder.php:36-37 | the namespace is `''` or a run of class characters |
| CodeParsing.UseRows | src/Service/Analysis/DependenciesFinder/CodeParsing/CodeParsingDependenciesFinder.php:84-85 | no captured `use` row holds `;` |
| CodeParsing.NormalizeFrom | src/Service/Analysis/DependenciesFinder/CodeParsing/CodeParsingDependenciesFinder.php:88 | a normalised row holds no line feed |
| CodeParsing.LastBefore | src/Service/Analysis/DependenciesFinder/CodeParsing/CodeParsingDependenciesFinder.php:90 | the last position before a bound holding a character, or none |
| CodeParsing.GroupBraces | src/Service/Analysis/DependenciesFinder/CodeParsing/CodeParsingDependenciesFinder.php:90 | a row has a brace group exactly when some `{` precedes some `}`; the greedy match takes the last of each |
| CodeParsing.GroupParts | src/Service/Analysis/DependenciesFinder/CodeParsing/CodeParsingDependenciesFinder.php:90-99 | a row yields at least one import row |
| CodeParsing.ImportName | src/Service/Analysis/DependenciesFinder/CodeParsing/CodeParsingDependenciesFinder.php:102-103 | an imported name holds no space |
| CodeParsing.ImportNames | src/Service/Analysis/DependenciesFinder/CodeParsing/CodeParsingDependenciesFinder.php:101-110 | one name per import row |
| CodeParsing.SplitGroup | src/Service/Analysis/DependenciesFinder/CodeParsing/CodeParsingDependenciesFinder.php:90-99 | the loop builds the import rows of a use statement |
| CodeParsing.SortRows | src/Service/Analysis/DependenciesFinder/CodeParsing/CodeParsingDependenciesFinder.php:101-110 | the inner loop files each name as an existing class or a namespace part |
| CodeParsing.ParseUses | src/Service/Analysis/DependenciesFinder/CodeParsing/CodeParsingDependenciesFinder.php:79-113 | `parseUses` computes the two key lists |
| CodeParsing.StrategyResults | src/Service/Analysis/DependenciesFinder/CodeParsing/CodeParsingDependenciesFinder.php:121-123 | one answer per strategy |
| CodeParsing.ParseCode | src/Service/Analysis/DependenciesFinder/CodeParsing/CodeParsingDependenciesFinder.php:118-142 | `parseCode` computes the full names and the names to resolve |
| CodeParsing.TrimBackslashes | src/Service/Analysis/DependenciesFinder/CodeParsing/CodeParsingDependenciesFinder.php:69-71 | trimming keeps the number of entries |
| CodeParsing.ResolveName | src/Service/Analysis/DependenciesFinder/CodeParsing/CodeParsingDependenciesFinder.php:47-66 | one turn of the outer loop appends the guesses for one name |
| CodeParsing.TrimEach | src/Service/Analysis/DependenciesFinder/CodeParsing/CodeParsingDependenciesFinder.php:69-71 | the by-reference loop trims every entry |
| CodeParsing.ResolveNames | src/Service/Analysis/DependenciesFinder/CodeParsing/CodeParsingDependenciesFinder.php:46-67 | the outer loop appends the guesses for every name |
| CodeParsing.DependenciesOfText | src/Service/Analysis/DependenciesFinder/CodeParsing/CodeParsingDependenciesFinder.php:27-74 | on a readable, truthy text the dependencies are the collected names trimmed, each once |
| CodeParsing.Find | src/Service/Analysis/DependenciesFinder/CodeParsing/CodeParsingDependenciesFinder.php:27-74 | `find` computes the dependencies of the unit |
| CodeParsingProperties.NamespaceOfFirstDeclaration | src/Service/Analysis/DependenciesFinder/CodeParsing/CodeParsingDependenciesFinder.php:36-37 | the first `namespace` declaration gives the namespace |
| CodeParsingProperties.NamespaceWithoutDeclaration | src/Service/Analysis/DependenciesFinder/CodeParsing/CodeParsingDependenciesFinder.php:37 | without a declaration the namespace is `''` |
| CodeParsingProperties.NamespaceAtStart | src/Service/Analysis/DependenciesFinder/CodeParsing/CodeParsingDependenciesFinder.php:36-37 | a text opening with `namespace N;` is in namespace `N` |
| CodeParsingProperties.NormalizeKeeps | src/Service/Analysis/DependenciesFinder/CodeParsing/CodeParsingDependenciesFinder.php:88 | a row without line feeds or double spaces is left alone |
| CodeParsingProperties.GroupBracesAt | src/Service/Analysis/DependenciesFinder/CodeParsing/CodeParsingDependenciesFinder.php:90 | the only braces of a row are where it splits |
| CodeParsingProperties.GroupPartsOfBraces | src/Service/Analysis/DependenciesFinder/CodeParsing/CodeParsingDependenciesFinder.php:90-96 | the common part is joined to each comma-separated detail |
| CodeParsingProperties.ImportNameOfWord | src/Service/Analysis/DependenciesFinder/CodeParsing/CodeParsingDependenciesFinder.php:102-103 | a name without spaces is imported as it is |
| CodeParsingProperties.ImportNameOfSpaced | src/Service/Analysis/DependenciesFinder/CodeParsing/CodeParsingDependenciesFinder.php:103 | a name with one space loses it |
| CodeParsingProperties.GroupRowParts | src/Service/Analysis/DependenciesFinder/CodeParsing/CodeParsingDependenciesFinder.php:90-96 | `P{B, C}` yields the rows `PB` and `P C` |
| CodeParsingProperties.ExplodePair | src/Service/Analysis/DependenciesFinder/CodeParsing/CodeParsingDependenciesFinder.php:93 | `B, C` explodes at the comma into `B` and ` C` |
| CodeParsingProperties.GroupedImport | src/Service/Analysis/DependenciesFinder/CodeParsing/CodeParsingDependenciesFinder.php:87-110 | `use P{B, C};` imports `PB` and `PC` |
| CodeParsingProperties.AliasedImport | src/Service/Analysis/DependenciesFinder/CodeParsing/CodeParsingDependenciesFinder.php:102 | `use X as Y;` imports `X` |
| CodeParsingProperties.PlainImport | src/Service/Analysis/DependenciesFinder/CodeParsing/CodeParsingDependenciesFinder.php:98-103 | `use X;` imports `X` |
| CodeParsingProperties.SortImportsSpec | src/Service/Analysis/DependenciesFinder/CodeParsing/CodeParsingDependenciesFinder.php:105-112 | a name is an existing class exactly when it is declared, a namespace part exactly when it is not, each once |
| CodeParsingProperties.ImportsDisjoint | src/Service/Analysis/DependenciesFinder/CodeParsing/CodeParsingDependenciesFinder.php:105-112 | no name is both an existing class and a namespace part |
| CodeParsingProperties.CodeTokensSpec | src/Service/Analysis/DependenciesFinder/CodeParsing/CodeParsingDependenciesFinder.php:121-127 | the tokens are exactly what some strategy found, once each |
| CodeParsingProperties.SplitTokensSpec | src/Service/Analysis/DependenciesFinder/CodeParsing/CodeParsingDependenciesFinder.php:127-139 | exclusions are dropped; primitive or declared tokens are full names; the others are to be resolved |
| CodeParsingProperties.ViaImportsSpec | src/Service/Analysis/DependenciesFinder/CodeParsing/CodeParsingDependenciesFinder.php:56-66 | one guess per import whose last segment is the name's first segment |
| CodeParsingProperties.ResolveSpec | src/Service/Analysis/DependenciesFinder/CodeParsing/CodeParsingDependenciesFinder.php:50-66 | a name declared in the namespace is taken there; otherwise the import guesses |
| CodeParsingProperties.UnmatchedNameDropped | src/Service/Analysis/DependenciesFinder/CodeParsing/CodeParsingDependenciesFinder.php:50-66 | a name neither declared in the namespace nor matched by an import is dropped |
| CodeParsingProperties.ResolveAllSpec | src/Service/Analysis/DependenciesFinder/CodeParsing/CodeParsingDependenciesFinder.php:46-67 | the resolved names are what the undeclared names resolve to |
| CodeParsingProperties.TrimmedOfTrim | src/Service/Analysis/DependenciesFinder/CodeParsing/CodeParsingDependenciesFinder.php:70 | a trimmed name neither starts nor ends with `\` |
| CodeParsingProperties.TrimmedMembers | src/Service/Analysis/DependenciesFinder/CodeParsing/CodeParsingDependenciesFinder.php:69-73 | the result is exactly the trimmed entries, each once |
| CodeParsingProperties.DependenciesShape | src/Service/Analysis/DependenciesFinder/CodeParsing/CodeParsingDependenciesFinder.php:27-74 | nothing without a path or a readable, truthy text; otherwise trimmed names, each once |
| CodeParsingProperties.DependencyMembers | src/Service/Analysis/DependenciesFinder/CodeParsing/CodeParsingDependenciesFinder.php:27-74 | the dependencies are exactly the trimmed collected names |
| CodeParsingProperties.CollectedReported | src/Service/Analysis/DependenciesFinder/CodeParsing/CodeParsingDependenciesFinder.php:27-74 | every collected name is reported, trimmed |
| CodeParsingProperties.ExistingImportReported | src/Service/Analysis/DependenciesFinder/CodeParsing/CodeParsingDependenciesFinder.php:39-40 | a declared imported name is reported |
| CodeParsingProperties.KnownNameReported | src/Service/Analysis/DependenciesFinder/CodeParsing/CodeParsingDependenciesFinder.php:128-135 | a primitive or declared name a strategy finds is reported, unless it is an exclusion |
| CodeParsingProperties.NamespaceGuessReported | src/Service/Analysis/DependenciesFinder/CodeParsing/CodeParsingDependenciesFinder.php:50-53 | an undeclared name whose guess in the namespace is declared is reported there |
| CodeParsingProperties.ImportGuessReported | src/Service/Analysis/DependenciesFinder/CodeParsing/CodeParsingDependenciesFinder.php:56-66 | an undeclared name matched by an import is reported through it |
| Checks.Existing | src/Model/Component.php:436-439 | the positions a restriction names that are existing components, in order |
| Checks.SameAnswersCores | src/Model/Component.php:436-454 | states answering alike keep every component's name, restrictions and units |
| Checks.IllegalComponents | src/Model/Component.php:436-439 | every illegal dependency component exists |
| Checks.EffDependentUnitsBelow | src/Model/Component.php:390-406 | a cached or computed list of dependent units names units only |
| Checks.DependentComponentsBelow | src/Model/Component.php:345-358 | every dependent component exists |
| Checks.AdpAlike | src/ArchAnalyzerFacade.php:180-186 | states answering alike give the same ADP messages |
| Checks.UnstableAlike | src/ArchAnalyzerFacade.php:189-195 | states answering alike give the same SDP comparison |
| Checks.SdpAlike | src/ArchAnalyzerFacade.php:188-196 | states answering alike give the same SDP messages |
| Checks.UnitPairsAlike | src/ArchAnalyzerFacade.php:200-206 | states answering alike give the same dependent-unit lines |
| Checks.IllegalAlike | src/ArchAnalyzerFacade.php:198-208 | states answering alike give the same illegal-dependency messages |
| Checks.NonPublicAlike | src/ArchAnalyzerFacade.php:210-216 | states answering alike give the same non-public messages |
| Checks.DistanceAlike | src/ArchAnalyzerFacade.php:218-220 | states answering alike give the same distance and distance message |
| Checks.ComponentMessagesAlike | src/ArchAnalyzerFacade.php:179-221 | the messages of a component are the same in every state the queries lead to |
| Checks.CheckMessagesAlike | src/ArchAnalyzerFacade.php:179-221 | the messages of all analysed components are the same in every state the queries lead to |
| Checks.CycleMessagesOf | src/ArchAnalyzerFacade.php:181-185 | one message per cycle, naming its components in order |
| Checks.AdpMessagesOf | src/ArchAnalyzerFacade.php:180-186 | the ADP messages of the state before the query, and no answer changes |
| Checks.UnstableMessageOf | src/ArchAnalyzerFacade.php:190-194 | the dependent's rate and the component's rate, asked in that order, compared as in the state before |
| Checks.RatesCompared | src/ArchAnalyzerFacade.php:190-192 | the two rates asked in turn are those of the state before either query |
| Checks.SdpMessagesOf | src/ArchAnalyzerFacade.php:188-196 | one comparison per dependent component, in order |
| Checks.UnstableStep | src/ArchAnalyzerFacade.php:189-195 | one turn of the SDP loop gives the message of the first state |
| Checks.UnitPairsOf | src/ArchAnalyzerFacade.php:201-205 | the lines of one dependent unit: its outputs owned by the illegal component, unless in allowed state |
| Checks.IllegalMessageOf | src/ArchAnalyzerFacade.php:199-207 | the message for one illegal dependency component |
| Checks.IllegalPairsOf | src/ArchAnalyzerFacade.php:200-206 | the lines of the dependent units, each unit's in turn |
| Checks.IllegalMessagesOf | src/ArchAnalyzerFacade.php:198-208 | one message per illegal dependency component |
| Checks.IllegalMessagesFor | src/ArchAnalyzerFacade.php:198-208 | the messages for the listed components, in order |
| Checks.NonPublicMessageOf | src/ArchAnalyzerFacade.php:211-215 | the message for one non-public unit, naming its inputs the component owns |
| Checks.NonPublicMessagesOf | src/ArchAnalyzerFacade.php:210-216 | one message per non-public dependency unit |
| Checks.DistanceMessagesOf | src/ArchAnalyzerFacade.php:218-220 | a distance message exactly when the overage is not zero |
| Checks.ComponentMessagesOf | src/ArchAnalyzerFacade.php:179-221 | the messages of one analysed component, kind after kind, ADP and SDP only when switched on |
| Checks.MessagesCollected | src/ArchAnalyzerFacade.php:179-221 | each kind collected in the state the earlier queries left is the kind of the first state |
| Checks.ComponentStep | src/ArchAnalyzerFacade.php:179-221 | one more component's messages, collected after earlier queries, are those of the first state |
| CheckProperties.AdpMessagesSpec | src/ArchAnalyzerFacade.php:180-186 | one message per reported cycle, naming its components in order |
| CheckProperties.AdpMessageCycles | src/ArchAnalyzerFacade.php:180-186 | a cycle is reported exactly when it is a cycle through the component, and each such cycle has its message |
| CheckProperties.SdpMessagesSpec | src/ArchAnalyzerFacade.php:188-196 | a message for a dependent component exactly when it depends on the component and its instability rate is below the component's |
| CheckProperties.IllegalMessagesSpec | src/ArchAnalyzerFacade.php:198-208 | exactly one message per illegal dependency component, in order, even when it lists no line |
| CheckProperties.IllegalComponentsSpec | src/Model/Component.php:436-439 | the illegal components are the existing ones the restrictions name |
| CheckProperties.UnitPairsSpec | src/ArchAnalyzerFacade.php:201-205 | a line for an output owned by the illegal component exactly when the pair is not in allowed state |
| CheckProperties.IllegalElementsSpec | src/ArchAnalyzerFacade.php:200-206 | the lines of a message are exactly the pairs of a dependent unit and its dependency in the illegal component not in allowed state |
| CheckProperties.NonPublicMessagesSpec | src/ArchAnalyzerFacade.php:210-216 | exactly one message per non-public dependency unit, in order, naming it |
| CheckProperties.NonPublicDependentsSpec | src/ArchAnalyzerFacade.php:212-214 | a non-public message lists the inputs of the unit that the component owns, one name each |
| CheckProperties.DistanceMessagesSpec | src/ArchAnalyzerFacade.php:218-220 | a distance message exactly when the overage is not zero, carrying the overage and the distance |
| CheckProperties.MessageKinds | src/ArchAnalyzerFacade.php:179-221 | each loop emits only its own kind of message |
| CheckProperties.UnstableKinds | src/ArchAnalyzerFacade.php:188-196 | the SDP loop emits SDP messages only |
| CheckProperties.IllegalKinds | src/ArchAnalyzerFacade.php:198-208 | the illegal-dependency loop emits its kind only |
| CheckProperties.NonPublicKinds | src/ArchAnalyzerFacade.php:210-216 | the non-public loop emits its kind only |
| CheckProperties.CycleKinds | src/ArchAnalyzerFacade.php:180-186 | the ADP loop emits cycle messages only |
| CheckProperties.SwitchedOff | src/ArchAnalyzerFacade.php:180-196 | a principle switched off contributes no message, and the other kinds do not depend on the switches |
| CheckProperties.CheckMessagesSpec | src/ArchAnalyzerFacade.php:179-223 | a message of `check` is exactly a message of one of the analysed components |
| FacadeConfig.SwitchDefault | src/ArchAnalyzerFacade.php:68-69 | a principle check the configuration leaves out is on; a given one is taken as given |
| FacadeConfig.IdsOf | src/ArchAnalyzerFacade.php:117 | one position per name, the one the name is registered at |
| FacadeConfig.IdsOfKept | src/ArchAnalyzerFacade.php:70-121 | registered names keep their positions while the registry grows |
| FacadeConfig.IdsOfAppend | src/ArchAnalyzerFacade.php:117 | the positions of two lists of names, one after the other |
| FacadeConfig.HasPathKept | src/ArchAnalyzerFacade.php:72-79 | a path found among some paths is found among any paths holding all of them |
| FacadeConfig.GrownTransitive | src/ArchAnalyzerFacade.php:70-121 | a registry that grows, step after step, grows overall |
| FacadeConfig.CreatedGrown | src/ArchAnalyzerFacade.php:92-95 | `Component::create` grows the registry and changes no restrictions but the answered component's |
| FacadeConfig.RegisterAll | src/ArchAnalyzerFacade.php:91-96 | each allowed or forbidden dependency name is created in turn, and its position recorded |
| FacadeConfig.RegisteredOne | src/ArchAnalyzerFacade.php:91-96 | one more name created keeps the earlier positions and records the new one |
| FacadeConfig.MakeRoots | src/ArchAnalyzerFacade.php:72-74 | one root path per entry, made from its path and namespace |
| FacadeConfig.MakeExcluded | src/ArchAnalyzerFacade.php:77-79 | one excluded path per entry, with an empty namespace |
| FacadeConfig.MakeElements | src/ArchAnalyzerFacade.php:84-89 | one path per public or private element, made by `Path::fromString` |
| FacadeConfig.CreateConfigured | src/ArchAnalyzerFacade.php:71-113 | one entry becomes a component with the entry's paths and restrictions: elements, dependency components, allowed state only when stored under its name, and the entry's distance or the common one |
| FacadeConfig.EntryCreated | src/ArchAnalyzerFacade.php:108-113 | `Component::create` with the entry's paths and restrictions makes the entry's component |
| Facade.EnabledNames | src/ArchAnalyzerFacade.php:115-120 | the analysed names are at most the entries |
| Facade.EnabledNamesSpec | src/ArchAnalyzerFacade.php:115-120 | a name is analysed exactly when some entry of that name leaves the analysis on |
| Facade.EnabledNamesStep | src/ArchAnalyzerFacade.php:115-120 | the analysed names, one entry at a time |
| Facade.ConfiguredKept | src/ArchAnalyzerFacade.php:81-106 | restrictions built against a registry stay as they were while names keep their positions |
| Facade.PathsKept | src/ArchAnalyzerFacade.php:108-113 | an entry's paths stay among a component's paths while those only grow |
| Facade.EntryStep | src/ArchAnalyzerFacade.php:70-121 | an earlier entry stays loaded when the next one is read |
| Facade.LoadedStep | src/ArchAnalyzerFacade.php:70-121 | reading an entry keeps the earlier ones loaded and loads it |
| Facade.LoadEntry | src/ArchAnalyzerFacade.php:71-120 | one entry is created as a configured component, and switched off for analysis when its flag is false |
| Facade.AnalyzedNext | src/ArchAnalyzerFacade.php:115-120 | after an entry, the analysed components are those before it plus its component when enabled |
| Facade.LoadComponents | src/ArchAnalyzerFacade.php:70-121 | every entry is loaded, and the analysed components are the enabled entries' components, in order |
| Facade.IdsOfBelow | src/ArchAnalyzerFacade.php:117 | the analysed positions are components |
| Facade.DoneLinked | src/ArchAnalyzerFacade.php:236 | the files of an analysed component are linked to their dependencies, whichever component owns their units |
| Facade.AllLinkedKept | src/ArchAnalyzerFacade.php:234-238 | links survive the analysis of any later component |
| Facade.AnalyzedStep | src/ArchAnalyzerFacade.php:234-238 | one more component analysed keeps the earlier ones analysed |
| Facade.AnalyzeEach | src/ArchAnalyzerFacade.php:234-238 | the new state is the analysis of each analysed component in turn, in order, of the old state; every analysed component's files are linked and no component's paths change |
| Facade.ComponentsAnalysis | src/ArchAnalyzerFacade.php:234-238 | analysing the components one after the other keeps both indexes and every component |
| Facade.ComponentsAnalysisStep | src/ArchAnalyzerFacade.php:234-238 | analysing the first components and then the next is analysing one more of them |
| Facade.ComponentFiltered | src/ArchAnalyzerFacade.php:258 | filtering one component keeps the number of components |
| Facade.FilteredAll | src/ArchAnalyzerFacade.php:257-259 | the first loop keeps the number of components |
| Facade.FilteredAllStep | src/ArchAnalyzerFacade.php:257-259 | the first loop, one component at a time |
| Facade.NothingFiltered | src/ArchAnalyzerFacade.php:253-259 | with no allowed path the first loop changes nothing |
| Facade.FilterEach | src/ArchAnalyzerFacade.php:257-259 | the loop filters each analysed component in turn |
| Facade.ConnectedSpec | src/ArchAnalyzerFacade.php:261-265 | a component stays exactly when it was analysed and has a dependency or a dependent component |
| Facade.ConnectedOf | src/ArchAnalyzerFacade.php:262 | the test answers whether the component has a dependency or a dependent component, and changes no answer |
| Facade.KeptNext | src/ArchAnalyzerFacade.php:261-265 | the second loop, one component at a time |
| Facade.KeepConnected | src/ArchAnalyzerFacade.php:261-265 | the second loop keeps exactly the connected components, in order |
| Facade.MakeAllowed | src/ArchAnalyzerFacade.php:253-255 | one path per allowed path string, with an empty namespace |
| Facade.CheckEach | src/ArchAnalyzerFacade.php:179-221 | the loop over the analysed components collects their messages, and changes no answer |
| Facade.ConnectedAlike | src/ArchAnalyzerFacade.php:262 | whether a component is connected is the same in states answering alike |
| Facade.Remaining | src/ArchAnalyzerFacade.php:261-265 | the components kept are those connected in any state answering alike |
| Facade.AllowedStateReadBack | src/ArchAnalyzerFacade.php:98-100 | what `allowCurrentState` stores is read back by the constructor as exactly the component's current triples |
| Facade.ArchAnalyzerFacade.constructor | src/ArchAnalyzerFacade.php:48-128 | both principle checks default to on, every entry is created as a component, and the analysed components are the enabled ones, in order |
| Facade.ArchAnalyzerFacade.Analyze | src/ArchAnalyzerFacade.php:229-244 | the first call leaves the analysis of each analysed component in turn of the old state; a later call changes nothing |
| Facade.ArchAnalyzerFacade.FilterByPaths | src/ArchAnalyzerFacade.php:251-266 | each analysed component is filtered by the allowed paths, then those with neither dependency nor dependent components stop being analysed; with no allowed path the units stay as they were |
| Facade.ArchAnalyzerFacade.Check | src/ArchAnalyzerFacade.php:174-224 | the snapshot taken after the analysis is the analysed state on the first call and the old state afterwards; the units left are those the filtering of that snapshot by the allowed paths gives, the analysed components are exactly its connected ones, and the messages are those of each remaining component, in order |
| Facade.ArchAnalyzerFacade.GenerateReport | src/ArchAnalyzerFacade.php:160-167 | the snapshot taken after the analysis is the analysed state on the first call and the old state afterwards; the units left are those the filtering of that snapshot gives, and the report is rendered for exactly the connected analysed components, in order |
| Facade.ArchAnalyzerFacade.AllowCurrentState | src/ArchAnalyzerFacade.php:133-151 | after the analysis, the triples of every analysed component |
| FacadeState.UnitTriplesSpec | src/ArchAnalyzerFacade.php:141-146 | a dependent unit records one triple per output the dependency component owns |
| FacadeState.ViaTriplesSpec | src/ArchAnalyzerFacade.php:140-147 | the triples through a dependency component are those of the component's units depending on it |
| FacadeState.ComponentTriplesSpec | src/ArchAnalyzerFacade.php:139-148 | a component records a triple for every dependency on a unit of another component |
| FacadeState.CurrentStateSpec | src/ArchAnalyzerFacade.php:137-150 | a name holds a triple exactly when some analysed component of that name has it, and the name appears exactly when it has some |
| FacadeState.RecordedSpec | src/ArchAnalyzerFacade.php:142-146 | recording triples under a name adds exactly them, and the key appears only with a first triple |
| FacadeState.StateReadBack | src/ArchAnalyzerFacade.php:137-150 | the entry read back for an analysed component is exactly its triples |
| FacadeState.TriplesAlike | src/ArchAnalyzerFacade.php:139-148 | the triples are the same in states answering alike |
| FacadeState.CurrentStateAlike | src/ArchAnalyzerFacade.php:137-150 | the snapshot is the same in every state the queries lead to |
| FacadeState.CurrentStateStep | src/ArchAnalyzerFacade.php:138-149 | the snapshot, one analysed component at a time |
| FacadeState.StateStep | src/ArchAnalyzerFacade.php:138-149 | one more component recorded, its triples answered in a state the queries led to |
| FacadeState.UnitTriplesOf | src/ArchAnalyzerFacade.php:141-146 | the innermost loop collects the triples of one dependent unit |
| FacadeState.DependentTriplesOf | src/ArchAnalyzerFacade.php:140-147 | the middle loop collects the triples of each dependent unit in turn |
| FacadeState.ViaTriplesOf | src/ArchAnalyzerFacade.php:140-147 | the triples through one dependency component, its dependent units taken through the cache |
| FacadeState.ViaTriplesFor | src/ArchAnalyzerFacade.php:139-148 | the loop over the dependency components |
| FacadeState.ComponentTriplesOf | src/ArchAnalyzerFacade.php:139-148 | the triples of one analysed component, taken through the cache, and no answer changes |
| FacadeState.CurrentStateOf | src/ArchAnalyzerFacade.php:138-150 | the outer loop builds the snapshot, and no answer changes |
| Environment.DetectPath | src/Service/Helper/PathHelper.php:24-37 | the declaring file is never a falsy name; a failing reflection or a falsy file name gives null |
| Caching.Cache.constructor | src/Model/CachingTrait.php:12 | a cache starts empty |
| Text.Lower | src/Service/Analysis/DependenciesFinder/CodeParsing/CodeParsingDependenciesFinder.php:36 | lower-casing, as the `i` flag compares, keeps the length and maps each character |
| Text.LowerIdempotent | src/Service/Analysis/DependenciesFinder/CodeParsing/CodeParsingDependenciesFinder.php:36 | lower-casing twice is lower-casing once |
| Text.Squeeze | src/Service/Helper/StringHelper.php:14-17 | a run of the character becomes one copy: never longer, same first character |
| Text.SqueezeNoDoubled | src/Service/Helper/StringHelper.php:14-17 | after squeezing the character never occurs twice in a row |
| Text.SqueezeKeepsOthers | src/Service/Helper/StringHelper.php:14-17 | squeezing drops only copies of the character, and keeps the others in order |
| Text.Explode | src/Service/Analysis/DependenciesFinder/CodeParsing/CodeParsingDependenciesFinder.php:47 | `explode` always yields at least one piece |
| Text.ImplodeExplode | src/Service/Analysis/DependenciesFinder/CodeParsing/CodeParsingDependenciesFinder.php:57-59 | `implode` undoes `explode` |
| Text.ExplodeCharPieces | src/Service/Analysis/DependenciesFinder/CodeParsing/CodeParsingDependenciesFinder.php:93 | with a one-character separator no piece holds the separator |
| Text.ExplodeCharSplit | src/Service/Analysis/DependenciesFinder/CodeParsing/CodeParsingDependenciesFinder.php:93 | the first separator ends the first piece |
| Text.TrimSpec | src/Model/UnitOfCode.php:65 | `trim` removes exactly a prefix and a suffix of the given characters, and stops at any other character |
| Text.TrimIdempotent | src/Model/UnitOfCode.php:65 | trimming twice is trimming once |
| Text.FilterTruthy | src/Model/UnitOfCode.php:160 | `array_filter` keeps exactly the truthy strings, in order |
| Text.FilterTruthyAppend | src/Model/UnitOfCode.php:160 | filtering a concatenation filters each part |
| Text.RunEnd | src/Service/Analysis/DependenciesFinder/CodeParsing/CodeParsingDependenciesFinder.php:36 | a run of a character class ends at the first character outside it |
| Collections.AddUnique | src/Model/Component.php:250-257 | adding by identity keeps what was there, in order, and adds the value only when missing |
| Collections.DedupeSpec | src/Service/Analysis/DependenciesFinder/CompositeDependenciesFinder.php:28 | `array_unique` keeps exactly the same values, each once |
| Collections.DedupeIdempotent | src/Service/Analysis/DependenciesFinder/CompositeDependenciesFinder.php:28 | removing duplicates twice is removing them once |
| Collections.DedupeOrder | src/Service/Analysis/DependenciesFinder/CompositeDependenciesFinder.php:28 | `array_unique` keeps first occurrences in their order |
| Collections.Filter | src/Model/Component.php:333-338 | filtering keeps exactly the elements that pass |
| Registries.Registry.Reassign | src/Model/UnitOfCode.php:137-145 | a unit no component lists changes owner without any list changing |
| Registries.Registry.RehomeNew | src/Model/UnitOfCode.php:107-113 | on a unit just constructed the steps after the lookup change nothing |

## Left out

- File system and reflection effects are not executed: `realpath`, `file_exists`, `file_get_contents`, `class_exists`/`interface_exists`/`trait_exists` and `ReflectionClass` answers come from the `Host` value, a snapshot that treats autoloading as already done.
- Reading the allowed-state storage file (`require` in src/ArchAnalyzerFacade.php:59-64) is the `state` parameter; writing it with `var_export` and `file_put_contents` (lines 152-153) is left out, and `AllowCurrentState` returns the state that would be written.
- Report rendering (src/ArchAnalyzerFacade.php:165) is left out: `GenerateReport` returns the components the report is rendered for.
- Events and the event manager (src/ArchAnalyzerFacade.php:162, 166 and 232-240) are left out; they carry no data back into the analysis.
- Components created from the vendor directory (`VendorBasedComponentsCreationService`, src/ArchAnalyzerFacade.php:50-55) are left out; that service is not part of this model.
- The factory closures of the facade (src/ArchAnalyzerFacade.php:123-127) are left out: the finder, registry and policy are given to the constructor instead.
- Walking directories and detecting shebang files (`getFiles`) are left out: the files under a root are the `listing` parameter.
- src/Model/Restrictions.php is not part of this model: its answers (allowed state enabled, unit dependency in allowed state, illegal dependency components and units, distance overage) are the functions of a `Policy`.
- The reflection-based dependencies finder is left out; only the code-parsing finder and the composite finder are modelled.
- Message texts are abstract `Message` values naming the components and units involved; the wording and the formatting of numbers are left out.
- Metrics are exact reals: `round(…, 3)` and floating-point arithmetic are left out.
- The unit-level caches of `isDependencyInAllowedState` and `isAccessibleFromOutside`, and the component-level caches of `isDependencyAllowed` and `isDependencyInAllowedState` (src/Model/Component.php:284-303), are left out: the answers come from the `Policy` each time, which is what a cache of a pure answer returns.
- A component's cache is not invalidated when filtering changes its units. The model keeps that behaviour: `Registries.Registry.FilterByPaths` leaves each component's `cache` as it was, and the answer functions (`EffInstability`, `EffDependencyComponents` and the rest) return a filled entry before computing afresh, so a second `check()` or `generateReport()` answers from what the first one cached.
- Patterns: `\w`, `\s` and case-insensitive matching are ASCII only; Unicode mode and PCRE features other than those of the strategies' patterns are left out.
- Strategies.KeysOf and CodeParsing.SplitTokens keep every name a string. In PHP, `array_keys` returns a numeric token such as `1` as the integer `1`, and under `strict_types` passing it to `ExclusionChecker::isExclusion(string $value)` (src/Service/Analysis/DependenciesFinder/CodeParsing/CodeParsingDependenciesFinder.php:128) throws a `TypeError`; the model instead carries on with the string `"1"`.
- The `TypeError` that `Path::fromString` raises when `realpath` fails on an existing file or directory (src/Model/Path.php:40-44) is not modelled: the value is then kept as given.
- Analysis.RootFiles: its own contract states only that each analysed file is kept; that every kept file is analysed, in listing order, is AnalysisProperties.RootFilesMembers and AnalysisProperties.RootFilesInOrder.
- Analysis.DependenciesLinked: states that each target lists the unit among its inputs, not a target's exact input sequence, to which `addOutputDependency` appends the unit only when it is not listed yet (src/Model/UnitOfCode.php:267-269).
- Facade.ArchAnalyzerFacade.FilterByPaths: also returns the allowed `Path` objects it makes, which the source does not, so that its contract and those of its callers can state the filtering.

## Findings

| source | as written | input that shows it | evidently intended | confidence | as-written member | corrected member |
|---|---|---|---|---|---|---|
| src/Model/Component.php:607 and src/Model/UnitOfCode.php:376 | with `strict_types`, the unit's path is passed to `Path::isPartOfPath(string $fullPath)` even when it is null | a unit created without a path (a name reflection cannot place in a file) and a non-empty list of allowed paths: the call throws a `TypeError` | a unit without a path lies under no allowed path, so it is filtered out | not executed | RegistryProperties.NullPathTypeError | Registries.UnderAllowed |
