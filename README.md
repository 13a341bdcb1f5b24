# Forced-module notation parser (Gradle `ForcedModuleBuilder`)

This project models Gradle's `ForcedModuleBuilder`, the piece of dependency
configuration that turns the notations a build script gives for *forced
modules* into a set of module identifiers. Each identifier is a
(group, name, version) triple. The builder:

- passes a notation that already is a module identifier through unchanged;
- splits a string notation on `:` the way Java's `String.split(":")` does,
  and accepts it only when exactly three parts come out, taken positionally
  as group, name and version;
- raises `InvalidDependencyFormat`, whose message quotes the notation, for
  any other string;
- collects the identifiers in a `LinkedHashSet`: duplicates are dropped,
  first occurrences keep their input order, and one invalid notation
  aborts the whole build.

Two modules:

- `JavaStrings` (`JavaStrings.dfy`) models Java's `split` for a single
  separator character: the raw pieces of a string (`Pieces`), their inverse
  (`Join`), the removal of trailing empty pieces, and the special case that a
  string without a separator comes back whole (so `""` splits into one empty
  part, and `"a::c"` keeps its empty middle part).
- `ForcedModules` (`ForcedModules.dfy`) holds the data model (`ModuleId`,
  `Notation`, the `InvalidDependencyFormat` error and a `Result` type), the
  parse functions, the specification function `Built` of `build`, and the
  method `Build`, whose loop appends to a duplicate-free sequence standing for
  the `LinkedHashSet` and is proved to return exactly `Built`.

`ModuleId` is a datatype with structural equality: two identifiers are the
same set element exactly when group, name and version agree. The input of
`Build` is the already-normalised sequence of notations, each an identifier
(`Id`) or a string (`Str`).

## Model

| member | source | states |
|---|---|---|
| JavaStrings.Pieces | subprojects/core/src/main/groovy/org/gradle/api/internal/artifacts/configurations/ForcedModuleBuilder.java:62 | the raw pieces of a string are at least one, contain no separator, and joined with the separator give back the string |
| JavaStrings.PiecesOfJoin | subprojects/core/src/main/groovy/org/gradle/api/internal/artifacts/configurations/ForcedModuleBuilder.java:62 | cutting a join of separator-free strings gives back exactly those strings (the inverse half of the round trip) |
| JavaStrings.DropTrailingEmpty | subprojects/core/src/main/groovy/org/gradle/api/internal/artifacts/configurations/ForcedModuleBuilder.java:62 | the result is a prefix of the input, ends in a non-empty string (or is empty), and everything removed is an empty string |
| JavaStrings.Split | subprojects/core/src/main/groovy/org/gradle/api/internal/artifacts/configurations/ForcedModuleBuilder.java:62 | no part of a Java split contains the separator |
| JavaStrings.SplitOfJoin | subprojects/core/src/main/groovy/org/gradle/api/internal/artifacts/configurations/ForcedModuleBuilder.java:62 | separator-free parts with a non-empty last one, joined and followed by any number of separators, split back into exactly those parts: interior empty parts are kept, trailing separators dropped |
| JavaStrings.SplitJoinsBack | subprojects/core/src/main/groovy/org/gradle/api/internal/artifacts/configurations/ForcedModuleBuilder.java:62 | a non-empty split result joins back to the string minus some trailing separators, and its last part is non-empty whenever the separator occurs |
| ForcedModules.InvalidFormatMessage | subprojects/core/src/main/groovy/org/gradle/api/internal/artifacts/configurations/ForcedModuleBuilder.java:64-66 | the error message contains the offending notation |
| ForcedModules.Identifier | subprojects/core/src/main/groovy/org/gradle/api/internal/artifacts/configurations/ForcedModuleBuilder.java:74-76 | the identifier's group, name and version are the three arguments, in that order |
| ForcedModules.ParseString | subprojects/core/src/main/groovy/org/gradle/api/internal/artifacts/configurations/ForcedModuleBuilder.java:61-72 | succeeds if and only if the Java split has exactly three parts, then with group, name and version equal to parts 0, 1 and 2; otherwise fails with `InvalidDependencyFormat` whose message contains the notation |
| ForcedModules.ParseSingleNotation | subprojects/core/src/main/groovy/org/gradle/api/internal/artifacts/configurations/ForcedModuleBuilder.java:45-52 | an identifier notation is returned unchanged; a string notation is parsed by `ParseString` |
| ForcedModules.ParseFormatWithTrailing | subprojects/core/src/main/groovy/org/gradle/api/internal/artifacts/configurations/ForcedModuleBuilder.java:62-71 | for colon-free fields and a non-empty version, `group:name:version` followed by any number of `:` parses back to that identifier |
| ForcedModules.ParseFormat | subprojects/core/src/main/groovy/org/gradle/api/internal/artifacts/configurations/ForcedModuleBuilder.java:62-71 | round trip: for colon-free fields and a non-empty version, `group:name:version` parses to exactly `(group, name, version)` |
| ForcedModules.ParseStringAccepts | subprojects/core/src/main/groovy/org/gradle/api/internal/artifacts/configurations/ForcedModuleBuilder.java:61-72 | a string parses to `m` if and only if `m` has colon-free fields and a non-empty version and the string is `m`'s `group:name:version` followed by zero or more `:` |
| ForcedModules.ParseStringAcceptedExamples | subprojects/core/src/main/groovy/org/gradle/api/internal/artifacts/configurations/ForcedModuleBuilder.java:62-71 | `"a:b:c"` gives `(a,b,c)`, `"a::c"` gives `(a,"",c)`, `"a:b:c:"` gives `(a,b,c)` |
| ForcedModules.ParseStringRejectsEmpty | subprojects/core/src/main/groovy/org/gradle/api/internal/artifacts/configurations/ForcedModuleBuilder.java:62-66 | `""` is rejected |
| ForcedModules.ParseStringRejectsTwoParts | subprojects/core/src/main/groovy/org/gradle/api/internal/artifacts/configurations/ForcedModuleBuilder.java:62-66 | `"a:b"` and `"a:b:"` are rejected |
| ForcedModules.ParseStringRejectsFourParts | subprojects/core/src/main/groovy/org/gradle/api/internal/artifacts/configurations/ForcedModuleBuilder.java:62-66 | `"a:b:c:d"` is rejected |
| ForcedModules.ParseAllSpec | subprojects/core/src/main/groovy/org/gradle/api/internal/artifacts/configurations/ForcedModuleBuilder.java:38-40 | parsing the notations in order succeeds exactly when every notation is valid, and then gives each notation's identifier at its position; otherwise it fails with the error of the first invalid notation |
| ForcedModules.Distinct | subprojects/core/src/main/groovy/org/gradle/api/internal/artifacts/configurations/ForcedModuleBuilder.java:36-39 | the insertion-ordered set has no duplicates, holds exactly the elements added, and is no longer than the input |
| ForcedModules.DistinctOrder | subprojects/core/src/main/groovy/org/gradle/api/internal/artifacts/configurations/ForcedModuleBuilder.java:36-39 | elements appear in the order of their first occurrence in the input |
| ForcedModules.DistinctRepeat | subprojects/core/src/main/groovy/org/gradle/api/internal/artifacts/configurations/ForcedModuleBuilder.java:36-39 | adding an element that was already added changes nothing |
| ForcedModules.Built | subprojects/core/src/main/groovy/org/gradle/api/internal/artifacts/configurations/ForcedModuleBuilder.java:34-43 | `build` succeeds if and only if every notation is valid; the result then has no duplicates, is no longer than the input and holds exactly the parses of the notations; if any notation is invalid the build fails, with the error of the first invalid one, even when earlier ones were valid |
| ForcedModules.BuiltOrder | subprojects/core/src/main/groovy/org/gradle/api/internal/artifacts/configurations/ForcedModuleBuilder.java:36-42 | the identifiers come out in the order of the first notation that names each of them |
| ForcedModules.RepeatedNotation | subprojects/core/src/main/groovy/org/gradle/api/internal/artifacts/configurations/ForcedModuleBuilder.java:36-42 | inserting another copy of a notation after its first occurrence does not change the result, on success and on failure |
| ForcedModules.Build | subprojects/core/src/main/groovy/org/gradle/api/internal/artifacts/configurations/ForcedModuleBuilder.java:34-43 | the loop that adds each parsed notation to the insertion-ordered set, or stops at the first invalid one, returns exactly `Built` of its input |

## Left out

- The map notation branch (`parseMap`, ForcedModuleBuilder.java:48-49 and 55-59): it sets properties by reflection through `ConfigureUtil.configureByMap`, which is not part of this model.
- `GUtil.normalize` (line 37), which flattens the argument of `build` into a collection, is not part of this model: `Build` takes the already-flattened sequence.
- `toString()` of arbitrary objects (line 51): only identifier and string notations are modelled, and the string of a string notation is itself.
- The null check on the argument of `build` (line 35): a Dafny sequence cannot be null, so the precondition holds by typing; a null element inside the collection (a `NullPointerException` in the source) is not modelled.
- The exact wording of the error message is kept, but only its containing the notation is stated.
- `DefaultResolvedModuleId` is not part of this model; its equality is taken to compare group, name and version.
- Java's `split` takes a regular expression; `:` is not a metacharacter, so the model treats it as a plain separator character.
