# Manifest checkers of the package self-tests

This project models the two manifest checkers in Meteor's package
self-tests, `tools/tests/package-tests.js`. It proves what each of them
accepts.

- `checkPackages` reads an app's `.meteor/packages` file and splits it on
  newlines. It skips empty lines. The i-th remaining line must match the
  i-th expected entry. A `name@version` entry must equal the whole line. A
  bare `name` must equal the line's text before its first `@`. Finally the
  number of non-empty lines must equal the number of entries.
- `checkVersions` reads `.meteor/versions` into a dictionary `depend`. Each
  non-empty line sets `split('@')[0]` to `split('@')[1]`, and a later line
  overwrites an earlier one. Every expected `name@version` needs
  `depend[name]` to equal `version`. Every bare `name` needs only the key.

Each checker is a method with the source's loops (the counter `i`, and the
map `depend` for `checkVersions`). Each method is proved equal to a pure
predicate over the manifest's lines (`PackagesOk`, `VersionsOk`). Lemmas
then state what those predicates accept.

JavaScript's `String.prototype.split` with a one-character separator is
modelled as `JsString.Split`. Joining its pieces with `Array.prototype.join`
gives back the string. Splitting undoes `join` for a non-empty list of
pieces none of which contains the separator.

The file contents that the source reads with `sand.read(...)` are a
`content` parameter. The assertions made through `selftest.expectEqual` are
folded into one `Pass`/`Fail` outcome. Whether `expectEqual` throws at the
first mismatch or records it and carries on, the overall verdict is the
same. The TypeError raised when the packages file has more non-empty lines
than entries (`packages[i]` is `undefined`) is a `Fail`.

The dictionary is a `map<string, Option<string>>`. `None` stands for the
`undefined` that `split('@')[1]` gives for a line without `@`.

Some consequences of the code that the model keeps:

- In `checkVersions`, a bare entry `a` is satisfied by a bare line `a`,
  because only the key is checked.
- In `checkVersions`, an entry `b@1.0.0` is satisfied by the line
  `b@1.0.0@x`, because only the piece after the first `@` is compared. The
  last line for `b` decides.
- For an expected entry `a@1@2`, `checkVersions` compares only `1`, while
  `checkPackages` requires the whole line `a@1@2`.

## Model

| member | source | states |
|---|---|---|
| `JsString.Split` | tools/tests/package-tests.js:19 | `split` always gives at least one piece, and no piece contains the separator |
| `JsString.JoinSplit` | tools/tests/package-tests.js:19 | joining the pieces of `s.split(c)` with `c` gives back `s`, so splitting loses no text |
| `JsString.SplitJoin` | tools/tests/package-tests.js:60 | splitting a join of a non-empty list of separator-free pieces gives back exactly those pieces |
| `JsString.SplitNoSeparator` | tools/tests/package-tests.js:28 | a string without the separator splits into itself alone |
| `JsString.SplitAfterPrefix` | tools/tests/package-tests.js:60-62 | for `name@rest` with no `@` in `name`, the first piece is `name` and the rest is split on its own |
| `JsString.SplitLengthIff` | tools/tests/package-tests.js:25 | `s.split(c).length > 1` holds exactly when `s` contains `c` |
| `JsString.SplitAppendSeparator` | tools/tests/package-tests.js:19 | a trailing separator adds exactly one empty piece at the end |
| `JsString.FirstPiece` | tools/tests/package-tests.js:28 | `split(c)[0]` is the whole string when there is no `c`, otherwise the text before the first `c` |
| `PackageTests.CheckPackages` | tools/tests/package-tests.js:18-34 | passes exactly when `PackagesOk` holds of the file's lines: same count of non-empty lines as entries, and each matches its entry by position; a surplus line (the TypeError) or a mismatch fails |
| `PackageTests.NonEmptyMembers` | tools/tests/package-tests.js:21-22 | the lines the checkers look at are exactly the lines that are not empty |
| `PackageTests.NonEmptyAppend` | tools/tests/package-tests.js:21-22 | skipping empty lines keeps the order of the rest and works part by part |
| `PackageTests.EmptyLineIgnored` | tools/tests/package-tests.js:21-31 | inserting an empty line anywhere in the packages file does not change the verdict |
| `PackageTests.TrailingNewlineIgnored` | tools/tests/package-tests.js:19-22 | a final newline in the packages file does not change the verdict |
| `PackageTests.PinnedEntryExact` | tools/tests/package-tests.js:25-26 | an entry containing `@` accepts exactly the line equal to it |
| `PackageTests.BareEntryAnyVersion` | tools/tests/package-tests.js:27-29 | a bare entry accepts exactly the line equal to the name, or the name followed by `@` and any text |
| `PackageTests.LeadingBlankNotTrimmed` | tools/tests/package-tests.js:28-29 | lines are not trimmed, so `" say-something"` does not match the bare entry `say-something` |
| `PackageTests.OrderMatters` | tools/tests/package-tests.js:20-31 | a file that passes for `[a, b]` fails for `[b, a]` when `a` and `b` are different bare names |
| `PackageTests.TwoEntryExample` | tools/tests/package-tests.js:18-34 | `["a", "b@1.0.0"]` passes exactly for two non-empty lines, the first named `a` and the second exactly `b@1.0.0` |
| `PackageTests.CheckVersions` | tools/tests/package-tests.js:53-76 | passes exactly when `VersionsOk` holds, meaning every entry is satisfied by the dictionary that the first loop builds; an empty entry list always passes, and the closing count comparison always holds |
| `PackageTests.DependencyKeys` | tools/tests/package-tests.js:56-63 | a name is a key of `depend` exactly when some non-empty line has that name |
| `PackageTests.LastOccurrenceWins` | tools/tests/package-tests.js:56-63 | the last non-empty line that has a given name sets that name's version |
| `PackageTests.DependencyValue` | tools/tests/package-tests.js:56-63 | every key's value is the version of the last line that has that name |
| `PackageTests.DependenciesAppend` | tools/tests/package-tests.js:56-63 | the dictionary for two parts of a file is the first part's dictionary overridden by the second part's |
| `PackageTests.BareVersionEntryIff` | tools/tests/package-tests.js:69-71 | a bare entry passes exactly when some non-empty line has that name, with or without a version |
| `PackageTests.PinnedVersionEntryIff` | tools/tests/package-tests.js:66-68 | for a `name` without `@`, the entry `name@rest` passes exactly when the last line for `name` has as its version the text of `rest` before any further `@` (all of `ver` when `rest` is a plain `ver`); an absent name fails |
| `PackageTests.ExpectedOrderIrrelevant` | tools/tests/package-tests.js:64-74 | the order and repetition of the expected entries do not change the verdict |
| `PackageTests.ManifestOrderIrrelevant` | tools/tests/package-tests.js:56-63 | reordering the versions file does not change the dictionary or the verdict, provided repeated names agree on their version |
| `PackageTests.UnrelatedLinesIrrelevant` | tools/tests/package-tests.js:56-74 | inserting lines anywhere whose names no entry mentions does not change the verdict |

## Left out

- The test scenarios "change packages" and "add packages" (`selftest.define`, lines 80-225). They launch the build tool as a subprocess and match its live output under wall-clock deadlines. That is process I/O and timing, and the harness behind it (`Sandbox`, `Run`) lives in `tools/selftest.js`, which is not part of this model.
- The sandbox file operations (`createApp`, `cd`, `write`, `cp`, `set`, `read`) and `files.mkdtemp`. These are filesystem plumbing in files that are not part of this model. The text that `sand.read` returns is a parameter.
- The internals of `selftest.expectEqual`: its report format, and whether it throws or records the failure. Only the overall pass/fail outcome is modelled.
- The JavaScript object-key quirks of `depend`, such as prototype names like `__proto__` or `hasOwnProperty`, and the exact semantics of underscore's `_.each` and `_.has`. The dictionary is a plain `map`.
- Strings are sequences of characters. JavaScript's UTF-16 code units and the file's byte encoding are not modelled; `split` on `"\n"` and `'@'` does not depend on them.
- PackageTests.CheckPackages: returns only `Pass` or `Fail`. It does not carry the expected and actual values that `expectEqual` reports, because the report format belongs to `tools/selftest.js`.
- PackageTests.CheckVersions: returns only `Pass` or `Fail`, for the same reason.
