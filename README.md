# gitflow-helper-maven-plugin: property expansion and Maven coordinates, in Dafny

This project models two parts of the gitflow helper Maven plugin and proves properties of them.

**Property expansion (`PropertyResolver.resolveValue`).**
- The input string may contain `${key}` placeholders.
- Each key is looked up in three tiers, in order:
  - the explicit properties;
  - the system properties;
  - for keys starting with `env.`, the environment, with the four-character prefix removed.
- A value is spliced into the buffer and scanned again, so placeholders inside values are expanded too.
- A cycle guard stops a key that re-enters its own expansion with a circular-definition error.

`ExpansionBuffer` and `CircularDefinitionPreventer` are not part of the repository files this model is based on. They are reconstructed here as classes:
- **The buffer** holds the text before its cursor (final) and the text after it (still to scan).
- **The guard** holds a path of frames. Each frame is a key whose expansion is in progress. The frame also records where that key's value ends, counted from the end of the buffer.

Termination of the loop is proved with a measure: a weighted count of the characters still to be scanned. The weight depends on how many keys are open above a character.

**Coordinates (`DefaultGavCoordinateHelper`).**
- The coordinate string is `groupId:artifactId[:extension][:classifier]:version`. It is built with a colon joiner that skips nulls.
- A null group id, artifact id or version is an error. These are checked in that order.
- Repository (Aether) artifacts:
  - empty parts count as absent;
  - the version written is the base version.
- Project (Maven) artifacts:
  - the version written is the project's;
  - the classifier is written only when the artifact says it has one;
  - the extension comes from the type registry, unless the artifact's file name does not end with it (ignoring case). In that case the extension is the part of the file name after its last dot.

Modules:
- `Wrappers`: the `Option` and `Result` types.
- `PropertyLookup`: the three-tier lookup.
- `Placeholders`: placeholder syntax and the scan.
- `CycleGuard`: the guard.
- `ExpansionBuffers`: the buffer.
- `Termination`: the measure.
- `PropertyResolver`: the loop and the entry point.
- `ResolverProperties`: end-to-end properties of resolution.
- `GavCoordinates`: the coordinate helper.

Java's `null` is `None`. A thrown exception is an `Err` value.

## Model

| member | source | states |
|---|---|---|
| PropertyLookup.FromPropertiesThenSystemThenEnvironment | src/main/java/com/e_gineering/maven/gitflowhelper/properties/PropertyResolver.java:47-61 | a value found is one of the values held by some tier |
| PropertyLookup.FirstHit | src/main/java/com/e_gineering/maven/gitflowhelper/properties/PropertyResolver.java:47-61 | reference definition: null iff no tier holds its key; otherwise the value of a tier that holds it |
| PropertyLookup.LookupIsFirstHit | src/main/java/com/e_gineering/maven/gitflowhelper/properties/PropertyResolver.java:47-61 | the lookup equals "first tier that has the key wins" over properties, system, then env (prefix stripped) |
| PropertyLookup.PropertiesTierWins | src/main/java/com/e_gineering/maven/gitflowhelper/properties/PropertyResolver.java:48-53 | a key in `properties` gets that value, whatever the system properties and environment hold |
| PropertyLookup.SystemTierWhenPropertiesMiss | src/main/java/com/e_gineering/maven/gitflowhelper/properties/PropertyResolver.java:51-53 | when `properties` lacks the key and the system properties have it, that value is returned, whatever the environment holds |
| PropertyLookup.EnvironmentTierConditions | src/main/java/com/e_gineering/maven/gitflowhelper/properties/PropertyResolver.java:56-58 | the environment supplies the value iff both earlier tiers miss, the key starts with `env.`, the environment is given and it has the key minus its first four characters |
| PropertyLookup.MissingEverywhereIsNull | src/main/java/com/e_gineering/maven/gitflowhelper/properties/PropertyResolver.java:47-61 | the lookup returns null exactly for keys no tier resolves |
| Placeholders.IndexOf | src/main/java/com/e_gineering/maven/gitflowhelper/properties/PropertyResolver.java:34-35 | the first position at or after `from` holding the character, or -1 when there is none |
| Placeholders.IndexOfOpen | src/main/java/com/e_gineering/maven/gitflowhelper/properties/PropertyResolver.java:34-35 | the first `${` at or after `from`, or -1 when there is none |
| Placeholders.NextLegal | src/main/java/com/e_gineering/maven/gitflowhelper/properties/PropertyResolver.java:34-35 | the first legal placeholder (non-empty key, first `}` after `${`); none exists before it; None only when there is no legal placeholder at all |
| Placeholders.NextLegalFindsAny | src/main/java/com/e_gineering/maven/gitflowhelper/properties/PropertyResolver.java:34 | the scan finds a placeholder exactly when the text holds a legal one |
| Placeholders.CloseIsUnique | src/main/java/com/e_gineering/maven/gitflowhelper/properties/PropertyResolver.java:35 | a placeholder's closing `}` is determined by its `${` |
| Placeholders.SplitAround | src/main/java/com/e_gineering/maven/gitflowhelper/properties/PropertyResolver.java:35 | cutting out `${key}` and putting it back gives the original text |
| Placeholders.Extract | src/main/java/com/e_gineering/maven/gitflowhelper/properties/PropertyResolver.java:35 | text = before + `${key}` + after, the key is valid, and no legal placeholder starts in the text before |
| Placeholders.ExtractAfterLiteral | src/main/java/com/e_gineering/maven/gitflowhelper/properties/PropertyResolver.java:35 | after text free of `$`, the placeholder `${key}` is the one extracted, with exactly that before and after text |
| Placeholders.NoDollarNoPlaceholder | src/main/java/com/e_gineering/maven/gitflowhelper/properties/PropertyResolver.java:34 | text without `$` holds no legal placeholder |
| Placeholders.LegalShift | src/main/java/com/e_gineering/maven/gitflowhelper/properties/PropertyResolver.java:34-35 | behind a prefix, the placeholders of the whole text are exactly those of the rest, shifted by the prefix length |
| Placeholders.LegalAfterLiteral | src/main/java/com/e_gineering/maven/gitflowhelper/properties/PropertyResolver.java:34 | after text free of `$`, the whole text holds a placeholder iff the rest does |
| Placeholders.ExtractAfterLiteralPrefix | src/main/java/com/e_gineering/maven/gitflowhelper/properties/PropertyResolver.java:35 | after text free of `$`, the key extracted is the rest's, the text after it is the rest's, and the prefix joins the text before it |
| ExpansionBuffers.ExpansionBuffer.constructor | src/main/java/com/e_gineering/maven/gitflowhelper/properties/PropertyResolver.java:30 | a new buffer has nothing before the cursor and the whole value after it |
| ExpansionBuffers.ExpansionBuffer.HasMoreLegalPlaceholders | src/main/java/com/e_gineering/maven/gitflowhelper/properties/PropertyResolver.java:34 | true iff a legal placeholder lies after the cursor |
| ExpansionBuffers.ExpansionBuffer.ExtractPropertyKey | src/main/java/com/e_gineering/maven/gitflowhelper/properties/PropertyResolver.java:35 | returns the first placeholder's key; the text before it moves behind the cursor; the placeholder is removed |
| ExpansionBuffers.ExpansionBuffer.Add | src/main/java/com/e_gineering/maven/gitflowhelper/properties/PropertyResolver.java:40 | a value goes right after the cursor, to be scanned next; a missing value writes `${key}` back behind the cursor |
| ExpansionBuffers.ExpansionBuffer.Content | src/main/java/com/e_gineering/maven/gitflowhelper/properties/PropertyResolver.java:43 | the buffer's text is the final text followed by exactly the text still to scan |
| CycleGuard.Retire | src/main/java/com/e_gineering/maven/gitflowhelper/properties/PropertyResolver.java:38 | never adds frames; every frame kept ended after the placeholder's start, and ends no earlier than where the placeholder's value will end |
| CycleGuard.Enter | src/main/java/com/e_gineering/maven/gitflowhelper/properties/PropertyResolver.java:38 | fails iff the key has a frame whose value extends past the placeholder's start |
| CycleGuard.RetiredKeys | src/main/java/com/e_gineering/maven/gitflowhelper/properties/PropertyResolver.java:38 | a key stays open after retiring exactly when one of its frames ends after the placeholder's start |
| CycleGuard.RetirePreservesDistinct | src/main/java/com/e_gineering/maven/gitflowhelper/properties/PropertyResolver.java:38 | closing frames keeps keys distinct and adds no key |
| CycleGuard.EnterKeepsPathDistinct | src/main/java/com/e_gineering/maven/gitflowhelper/properties/PropertyResolver.java:38 | the path never holds a key twice; only the visited key is added, and only when it has a value |
| CycleGuard.EnterOpens | src/main/java/com/e_gineering/maven/gitflowhelper/properties/PropertyResolver.java:38 | a key with no frame, inside all open expansions, is let through; a frame is pushed iff it has a value |
| CycleGuard.EnterReenters | src/main/java/com/e_gineering/maven/gitflowhelper/properties/PropertyResolver.java:38 | a key met inside its own expansion is a circular definition |
| CycleGuard.EnterClosesFinished | src/main/java/com/e_gineering/maven/gitflowhelper/properties/PropertyResolver.java:38 | once the buffer is past every open expansion, all frames close and the key may be visited again |
| CycleGuard.CircularDefinitionPreventer.constructor | src/main/java/com/e_gineering/maven/gitflowhelper/properties/PropertyResolver.java:30 | a new guard has seen nothing and has nothing open |
| CycleGuard.CircularDefinitionPreventer.Visited | src/main/java/com/e_gineering/maven/gitflowhelper/properties/PropertyResolver.java:38 | fails (and changes nothing) iff `Enter` fails; otherwise records the key and value and moves to `Enter`'s path |
| PropertyResolver.ValueBoundHolds | src/main/java/com/e_gineering/maven/gitflowhelper/properties/PropertyResolver.java:36 | no looked-up value is longer than a bound fixed by the sources |
| PropertyResolver.StepKeepsPathOk | src/main/java/com/e_gineering/maven/gitflowhelper/properties/PropertyResolver.java:36-38 | after a visit, the path holds each key at most once and only keys that resolve |
| PropertyResolver.StepDecreases | src/main/java/com/e_gineering/maven/gitflowhelper/properties/PropertyResolver.java:34-41 | splicing a value (or writing back a missing key) makes the termination measure drop |
| PropertyResolver.Advance | src/main/java/com/e_gineering/maven/gitflowhelper/properties/PropertyResolver.java:35-40 | an iteration the guard lets through keeps the path sound and decreases the measure |
| PropertyResolver.OnlyOpenKeysAreCircular | src/main/java/com/e_gineering/maven/gitflowhelper/properties/PropertyResolver.java:36-38 | the guard only fails on keys that have a value |
| PropertyResolver.Step | src/main/java/com/e_gineering/maven/gitflowhelper/properties/PropertyResolver.java:34-41 | one iteration: continuing keeps the path sound, lowers the measure and only extends the final text; failing names a key that has a value |
| PropertyResolver.Run | src/main/java/com/e_gineering/maven/gitflowhelper/properties/PropertyResolver.java:33-45 | text already behind the cursor is a prefix of any successful result; a circular-definition error always names a key that has a value |
| PropertyResolver.Resolve | src/main/java/com/e_gineering/maven/gitflowhelper/properties/PropertyResolver.java:29-45 | a value without a legal placeholder comes back unchanged; a circular-definition error names a key that has a value |
| PropertyResolver.ResolveValueWith | src/main/java/com/e_gineering/maven/gitflowhelper/properties/PropertyResolver.java:33-45 | the loop over a buffer and a guard returns what `Run` gives from their initial state; it terminates |
| PropertyResolver.ResolveValue | src/main/java/com/e_gineering/maven/gitflowhelper/properties/PropertyResolver.java:29-31 | the result depends only on the value and the sources (a fresh buffer and guard per call): it is `Resolve(value, src)` |
| ResolverProperties.RunDone | src/main/java/com/e_gineering/maven/gitflowhelper/properties/PropertyResolver.java:34-43 | with no legal placeholder after the cursor, the result is the buffer's content |
| ResolverProperties.StepAt | src/main/java/com/e_gineering/maven/gitflowhelper/properties/PropertyResolver.java:35-40 | the iteration on `pre${key}rest` (no `$` in `pre`): fails iff the guard refuses the key, otherwise splices the value or writes the key back |
| ResolverProperties.RunStep | src/main/java/com/e_gineering/maven/gitflowhelper/properties/PropertyResolver.java:34-41 | with a placeholder left, the result is the error of the step or the result from where the step leads |
| ResolverProperties.StepsTo | src/main/java/com/e_gineering/maven/gitflowhelper/properties/PropertyResolver.java:35-40 | `pre${key}rest` with `key` bound to `v` continues as `v` + `rest` after `pre` |
| ResolverProperties.ExpandsTo | src/main/java/com/e_gineering/maven/gitflowhelper/properties/PropertyResolver.java:35-40 | `${key}` with a value continues as that value |
| ResolverProperties.KeepsLiteral | src/main/java/com/e_gineering/maven/gitflowhelper/properties/PropertyResolver.java:35-40 | `${key}` without a value moves behind the cursor unchanged |
| ResolverProperties.FailsOn | src/main/java/com/e_gineering/maven/gitflowhelper/properties/PropertyResolver.java:38 | `${key}` for a key the guard refuses ends in a circular-definition error naming it, with no further substitution |
| ResolverProperties.Opens | src/main/java/com/e_gineering/maven/gitflowhelper/properties/PropertyResolver.java:29-40 | a call on `${key}` with a value continues with that value and the key as the only open frame |
| ResolverProperties.Nests | src/main/java/com/e_gineering/maven/gitflowhelper/properties/PropertyResolver.java:34-41 | inside `a`'s expansion, a value `${b}` continues as `b`'s value with both keys open |
| ResolverProperties.SingleLookup | src/main/java/com/e_gineering/maven/gitflowhelper/properties/PropertyResolver.java:29-45 | `${key}` resolves to a placeholder-free value of the key |
| ResolverProperties.UnresolvedKeyIsKept | src/main/java/com/e_gineering/maven/gitflowhelper/properties/PropertyResolver.java:29-45 | `${key}` for a key no tier resolves stays `${key}` in the output |
| ResolverProperties.SelfReferenceIsCircular | src/main/java/com/e_gineering/maven/gitflowhelper/properties/PropertyResolver.java:29-45 | a key whose value is its own placeholder is a circular definition |
| ResolverProperties.ExpandsTwice | src/main/java/com/e_gineering/maven/gitflowhelper/properties/PropertyResolver.java:34-41 | `${a}` with value `${b}` continues as `b`'s value with both keys open |
| ResolverProperties.MutualReferenceIsCircular | src/main/java/com/e_gineering/maven/gitflowhelper/properties/PropertyResolver.java:29-45 | two keys referring to each other are a circular definition, reported for the first |
| ResolverProperties.NestedResolution | src/main/java/com/e_gineering/maven/gitflowhelper/properties/PropertyResolver.java:29-45 | a key whose value refers to a second key resolves to the second key's value |
| ResolverProperties.FinishedGuardIsFresh | src/main/java/com/e_gineering/maven/gitflowhelper/properties/PropertyResolver.java:34-41 | a guard whose open expansions all ended before the text still to scan gives the same result as a fresh guard |
| ResolverProperties.RunShift | src/main/java/com/e_gineering/maven/gitflowhelper/properties/PropertyResolver.java:34-43 | literal text free of `$` at the head of the unscanned text gives the same result as that text already behind the cursor |
| ResolverProperties.RunPrepend | src/main/java/com/e_gineering/maven/gitflowhelper/properties/PropertyResolver.java:34-43 | text behind the cursor plays no part in the run: it is prepended to a success and leaves an error unchanged |
| ResolverProperties.LiteralPrefix | src/main/java/com/e_gineering/maven/gitflowhelper/properties/PropertyResolver.java:29-45 | `lit` + `t` (no `$` in `lit`) resolves to `lit` followed by what `t` resolves to, or to `t`'s error |
| ResolverProperties.SequentialUse | src/main/java/com/e_gineering/maven/gitflowhelper/properties/PropertyResolver.java:29-45 | `${k}` + `t`, with `k` bound to a `$`-free value `v`, resolves to `v` followed by what `t` resolves to alone, whatever keys `t` uses, `k` included |
| ResolverProperties.RepeatedReferenceIsNotCircular | src/main/java/com/e_gineering/maven/gitflowhelper/properties/PropertyResolver.java:29-45 | `${k}${k}` resolves to the value twice: reuse after an expansion is finished is not circular (the general case is `SequentialUse`) |
| ResolverProperties.SeparatedReuse | src/main/java/com/e_gineering/maven/gitflowhelper/properties/PropertyResolver.java:29-45 | `${k}sep${k}` (no `$` in the value or `sep`) resolves to value, `sep`, value |
| GavCoordinates.SplitJoin | src/main/java/com/e_gineering/maven/gitflowhelper/DefaultGavCoordinateHelper.java:20 | splitting at colons undoes the colon joiner when no part holds a colon |
| GavCoordinates.JoinSkipNulls | src/main/java/com/e_gineering/maven/gitflowhelper/DefaultGavCoordinateHelper.java:20 | when at least one part is present and none holds a colon, the joined string reads back as exactly the present parts, in order |
| GavCoordinates.PresentMembers | src/main/java/com/e_gineering/maven/gitflowhelper/DefaultGavCoordinateHelper.java:20 | the joiner keeps a part iff it is non-null |
| GavCoordinates.PresentOrder | src/main/java/com/e_gineering/maven/gitflowhelper/DefaultGavCoordinateHelper.java:95 | the five joined arguments give group, artifact, present extension, present classifier, version |
| GavCoordinates.Coordinates | src/main/java/com/e_gineering/maven/gitflowhelper/DefaultGavCoordinateHelper.java:87-96 | an error iff group id, artifact id or version is null, naming the first null in that order; otherwise the parts joined in catalog order |
| GavCoordinates.CoordinatesSplit | src/main/java/com/e_gineering/maven/gitflowhelper/DefaultGavCoordinateHelper.java:90-95 | the coordinates read back as group, artifact, extension if given, classifier if given, version: no empty segment for a null |
| GavCoordinates.EmptyToNull | src/main/java/com/e_gineering/maven/gitflowhelper/DefaultGavCoordinateHelper.java:49-53 | absent iff the string is empty, otherwise the string itself |
| GavCoordinates.AetherCoordinates | src/main/java/com/e_gineering/maven/gitflowhelper/DefaultGavCoordinateHelper.java:47-55 | an error iff group id, artifact id or base version is empty (the first, in that order); otherwise the coordinates with base version, empty extension and classifier omitted |
| GavCoordinates.AetherCoordinatesSplit | src/main/java/com/e_gineering/maven/gitflowhelper/DefaultGavCoordinateHelper.java:47-55 | repository coordinates read back as the non-empty parts with the base version last; the artifact's own version is not written |
| GavCoordinates.ResultCoordinates | src/main/java/com/e_gineering/maven/gitflowhelper/DefaultGavCoordinateHelper.java:42-44 | a resolution result's coordinates are its artifact's; with no artifact it is an error |
| GavCoordinates.NewHelper | src/main/java/com/e_gineering/maven/gitflowhelper/DefaultGavCoordinateHelper.java:35-39 | succeeds iff session, project and log are given, keeping them; otherwise names the first missing one in that order |
| GavCoordinates.ToLower | src/main/java/com/e_gineering/maven/gitflowhelper/DefaultGavCoordinateHelper.java:65 | same length, every character lower-cased |
| GavCoordinates.AfterLastDot | src/main/java/com/e_gineering/maven/gitflowhelper/DefaultGavCoordinateHelper.java:67 | a dot-free suffix of the name that is either the whole name or preceded by a dot |
| GavCoordinates.NoDotTakesWholeName | src/main/java/com/e_gineering/maven/gitflowhelper/DefaultGavCoordinateHelper.java:67 | a file name without a dot becomes the extension whole |
| GavCoordinates.TakesAfterLastDot | src/main/java/com/e_gineering/maven/gitflowhelper/DefaultGavCoordinateHelper.java:67 | `stem.ext` with a dot-free `ext` gives `ext`, however many dots `stem` holds |
| GavCoordinates.EffectiveExtension | src/main/java/com/e_gineering/maven/gitflowhelper/DefaultGavCoordinateHelper.java:62-77 | the registry extension is kept without a file or when the file name ends with it (ignoring case); otherwise what follows the name's last dot |
| GavCoordinates.EffectiveExtensionNoColon | src/main/java/com/e_gineering/maven/gitflowhelper/DefaultGavCoordinateHelper.java:65-77 | an extension taken from a colon-free file name holds no colon |
| GavCoordinates.MavenCoordinates | src/main/java/com/e_gineering/maven/gitflowhelper/DefaultGavCoordinateHelper.java:58-85 | an unregistered type is an error; otherwise the coordinates of the artifact's ids, the project's version, the effective extension and the classifier only when `hasClassifier`; success iff the type is registered and the ids and project version are non-null |
| GavCoordinates.MavenCoordinatesSplit | src/main/java/com/e_gineering/maven/gitflowhelper/DefaultGavCoordinateHelper.java:79-84 | project coordinates read back as group, artifact, effective extension, classifier only when the artifact has one, and the project's version |

## Left out

- `System.getProperty` (PropertyResolver.java line 52) reads the running JVM. Here it is a read-only map in `Sources`.
- PropertyLookup.FromPropertiesThenSystemThenEnvironment consults the system-properties map for every key. Java's `System.getProperty` throws `IllegalArgumentException` for the empty key, which the model does not reproduce. The resolver never looks up the empty key: an extracted key is always non-empty.
- Java `Properties` default chains, and a null `properties` argument (a `NullPointerException` in Java), are not modelled. A null `environment` is modelled.
- `ExpansionBuffer` and `CircularDefinitionPreventer` are not part of the repository files this model is based on. The choices made in reconstructing them:
  - A key with no value is written back literally as `${key}`, behind the cursor, and is not scanned again. It is not replaced by an empty string.
  - An empty `${}` and an unterminated `${` stay as literal text.
- CycleGuard.CircularDefinitionPreventer.Visited takes one argument more than the Java `visited(key, value)`: the number of characters after the placeholder. A flat loop has no other way to tell the guard that an expansion is complete. With it, the guard fails only on a key met inside its own expansion, not on a key merely used twice.
- The guard's `seen` map records visits. No result depends on it.
- All `log.debug` and `log.warn` calls are left out (DefaultGavCoordinateHelper.java lines 59 and 68-75). They do not affect results.
- GavCoordinates.ToLower lower-cases ASCII letters only. Java's `toLowerCase` is locale-dependent and covers all of Unicode.
- The artifact type registry is a map from type to extension. A type it does not know is an error, where Java throws a `NullPointerException`. Each extension is assumed non-null.
- `hasClassifier()` is an input of the project artifact. Its definition lives in Maven, which is not part of this model.
- Exceptions are `Err` values: `checkNotNull` gives `NullArgument` with the argument's name, and the guard gives `CircularDefinition`. Exception message texts are not modelled.
- `ScmUtils.java` and `OtherBranchIT.java` are not part of this model. They are SCM plumbing and an integration test that runs full builds.
