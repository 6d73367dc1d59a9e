# packages_info: a model of the packages-file catalog

A Native Client packages file is a JSON document that may carry `#`
comments at the end of its lines. It says which package targets each host
platform and architecture uses (`package_targets`), which packages belong to
each package target (`packages`), and which packages all hosts share
(`shared`). `packages_info.py` has two parts. `LoadJSONStripComments` strips
the comments and parses the text. The `PackagesInfo` class keeps the three
fields and answers four read-only queries about them.

The model has these modules:

- `Wrappers` (wrappers.dfy): `Option` and `Result`.
- `JsonValue` (json_value.dfy): the parsed document as a `Json` datatype. An
  object is a sequence of (key, value) members in document order. `Lookup` is
  `dict.get` on such an association list.
- `CommentStripper` (comment_stripper.dfy): `LoadJSONStripComments` as a
  method with the source's loop. It is proved against the pure `StrippedText`,
  and the lemmas there say what that text is. The JSON parser is the parameter
  `loads`, which gives `None` where `json.loads` raises.
- `PackagesCatalog` (packages_catalog.dfy): the catalog as an immutable
  `PackagesInfo` value. Construction is `FromDocument` (on the parsed
  document) and `Create` (on the constructor argument). The four queries are
  functions.
- `PackagesDocument` (packages_document.dfy): each query's answer stated
  against the parsed document rather than the catalog's fields.
- `PackagesScenarios` (scenarios.dfy): small concrete packages files and the
  answers the catalog gives for them.

## Model

| member | source | states |
|---|---|---|
| JsonValue.Lookup | src/native_client/build/package_version/packages_info.py:40-42 | `dict.get`: `None` exactly when no member has the key; otherwise a member's value; with unique keys, the value of the one member that has the key |
| CommentStripper.RStrip | src/native_client/build/package_version/packages_info.py:14 | `rstrip` gives a prefix of the line that is empty or ends in a non-whitespace character, and everything removed is whitespace |
| CommentStripper.Find | src/native_client/build/package_version/packages_info.py:15 | `find('#')` is -1 exactly when there is no `#`; otherwise it is the index of a `#` with none before it |
| CommentStripper.StripLine | src/native_client/build/package_version/packages_info.py:14-19 | a processed line has no `#` and is a prefix of the right-stripped line; when shorter, it stops just before a `#` |
| CommentStripper.StripLineUnique | src/native_client/build/package_version/packages_info.py:14-19 | those three facts determine the processed line: any string that meets them is `StripLine` of the line |
| CommentStripper.CutAtFirstHash | src/native_client/build/package_version/packages_info.py:14-17 | a line `code#comment` with no `#` in `code` becomes `code`, whatever the comment holds (trailing whitespace after it included), and trailing whitespace of `code` stays |
| CommentStripper.HashInsideStringIsCut | src/native_client/build/package_version/packages_info.py:15-17 | a `#` inside a JSON string literal cuts the line as well |
| CommentStripper.PlainLineUnchanged | src/native_client/build/package_version/packages_info.py:14-19 | a line with no `#` and no trailing whitespace comes out unchanged |
| CommentStripper.StrippedLines | src/native_client/build/package_version/packages_info.py:13-19 | the loop produces one processed line per input line, at the same position |
| CommentStripper.JoinLines | src/native_client/build/package_version/packages_info.py:21 | `'\n'.join(lines)`; it has no contract of its own: `JoinThenSplit`, `SplitThenJoin` and `JoinedNewlines` state that it is undone by splitting at newlines and puts one newline between consecutive lines |
| CommentStripper.StrippedText | src/native_client/build/package_version/packages_info.py:13-21 | the text passed to `json.loads`, the joined processed lines; it has no contract of its own: `StrippedTextLines` states its newline count and lines, and `LoadJSONStripComments` is proved to compute it |
| CommentStripper.JoinThenSplit | src/native_client/build/package_version/packages_info.py:21 | splitting the joined text at newlines gives back the newline-free lines that were joined |
| CommentStripper.SplitThenJoin | src/native_client/build/package_version/packages_info.py:21 | joining the newline-split pieces of any text gives back that text |
| CommentStripper.JoinedNewlines | src/native_client/build/package_version/packages_info.py:21 | joining n newline-free lines produces exactly n - 1 newlines |
| CommentStripper.StrippedLineHasNoNewline | src/native_client/build/package_version/packages_info.py:13-14 | a line as `readlines` yields it has no newline left after `rstrip` |
| CommentStripper.StrippedTextLines | src/native_client/build/package_version/packages_info.py:13-21 | the text from n read lines has n - 1 newlines, and splitting it gives back the processed lines in input order |
| CommentStripper.LoadJSONStripComments | src/native_client/build/package_version/packages_info.py:11-22 | the result is the parser applied to the joined, comment-stripped lines |
| PackagesCatalog.StringsOfStringArray | src/native_client/build/package_version/packages_info.py:40-42 | reading a JSON array of strings back into a list of names gives the list that was written |
| PackagesCatalog.FromDocument | src/native_client/build/package_version/packages_info.py:37-42 | a document that is not an object fails with a config error; otherwise the catalog has unique keys everywhere, and each absent field is empty |
| PackagesCatalog.Create | src/native_client/build/package_version/packages_info.py:27-42 | any other argument kind fails with an invalid-input error; a path and an open file both give the parse error or the catalog of the parsed, stripped lines |
| PackagesCatalog.IsSharedPackage | src/native_client/build/package_version/packages_info.py:44-52 | membership in the shared set; it has no contract of its own: `SharedPackageIff` states that it holds exactly when the document's `shared` array holds the name |
| PackagesCatalog.GetPackageTargets | src/native_client/build/package_version/packages_info.py:54-63 | the list stored under (platform, arch) when both keys exist; `[]` when no entry has both keys |
| PackagesCatalog.GetPackages | src/native_client/build/package_version/packages_info.py:65-73 | `None` exactly when the package target is not a key; otherwise `Some` of the stored list, even when it is empty |
| PackagesCatalog.GetPackageTargetsForPackage | src/native_client/build/package_version/packages_info.py:75-86 | exactly the package targets whose list holds the package, as a subsequence of the key order, and with no duplicates when the catalog's keys are unique |
| PackagesCatalog.TargetsListing | src/native_client/build/package_version/packages_info.py:83-86 | exactly the keys whose list holds the package, as a subsequence of the keys, with no duplicates when the keys are unique |
| PackagesDocument.StringsHold | src/native_client/build/package_version/packages_info.py:41 | a name is among a string array's names exactly when the array holds that string |
| PackagesDocument.SharedPackageIff | src/native_client/build/package_version/packages_info.py:41-52 | `IsSharedPackage(p)` holds exactly when the document's `shared` array holds `p` |
| PackagesDocument.PackageTargetsFound | src/native_client/build/package_version/packages_info.py:63 | `GetPackageTargets(plat, arch)` is exactly the array at `package_targets[plat][arch]` |
| PackagesDocument.PackageTargetsMissing | src/native_client/build/package_version/packages_info.py:63 | without `package_targets[plat][arch]`, whether the platform or the arch is missing, the answer is `[]` |
| PackagesDocument.PackagesFound | src/native_client/build/package_version/packages_info.py:73 | `GetPackages(t)` is `Some` of exactly the array at `packages[t]` |
| PackagesDocument.PackagesNotFound | src/native_client/build/package_version/packages_info.py:65-73 | `GetPackages(t)` is `None` exactly when the document has no `packages[t]` |
| PackagesDocument.TargetsForPackageExact | src/native_client/build/package_version/packages_info.py:75-86 | the answer holds exactly the targets of `packages` whose array holds the package, each once, in document key order |
| PackagesScenarios.SharedAndPackages | src/native_client/build/package_version/packages_info.py:41-73 | with shared `["foo"]` and `t1: ["foo","bar"]`: foo is shared, bar is not, `t1` gives its list, an unknown target gives `None` |
| PackagesScenarios.TwoLevelTargets | src/native_client/build/package_version/packages_info.py:63 | a listed (platform, arch) gives its list; an unknown arch or an unknown platform gives `[]` |
| PackagesScenarios.TrailingComment | src/native_client/build/package_version/packages_info.py:14-17 | a trailing comment is removed before parsing |
| PackagesScenarios.CommentEndingInBlanks | src/native_client/build/package_version/packages_info.py:13-17 | a comment followed by blanks and the newline kept by `readlines` is removed in full; the blank before the `#` stays |
| PackagesScenarios.ArrayDocument | src/native_client/build/package_version/packages_info.py:37-38 | a top-level array is refused with a config error |
| PackagesScenarios.EmptyTargetIsDefined | src/native_client/build/package_version/packages_info.py:65-86 | a target with an empty list gives `Some([])`, and only the target that lists `x` is returned for `x` |

## Left out

- `json.loads` is a library parser. It is the parameter `loads` of `LoadJSONStripComments` and `Create`, and a parse failure is its `None`.
- Opening and reading the file (`open`, `with`, `readlines`) is I/O. Both `PackagesFile.PathName` and `PackagesFile.OpenFile` carry the lines `readlines` would return. An `IOError` from `open` is not modelled.
- The Python 2 `isinstance` dispatch on `basestring` and `file` becomes the three constructors of `PackagesFile`. The message of the `RuntimeError` and of the `assert` is not modelled; the errors are the constructors of `LoadError`.
- `IsWhitespace` is the set that Python 2's `str.rstrip()` removes from a byte string: space, tab, newline, vertical tab, form feed and carriage return. Unicode whitespace is not modelled.
- JSON numbers are kept as their lexeme. Nothing here looks at them.
- FromDocument: requires each present field to have its shape. The source checks no shapes, and a malformed field behaves in ways the model leaves out. `shared` goes through `set(...)` inside `__init__`, so some malformed values fail or change meaning at construction time. A `null`, a number, a bool, or a list that holds a list or an object raises `TypeError` during construction. A string becomes the set of its characters, so `"shared": "foo"` makes `IsSharedPackage("f")` true. An object becomes the set of its keys. A malformed `package_targets` or `packages` is only stored, and it misbehaves when it is queried. A `null` stored under `packages[t]` makes `GetPackages(t)` return `None` as if `t` were missing. A string in place of a list turns `package in packages` into a substring test.
- JsonValue.UniqueKeys: an object with a repeated key is outside the model. `json.loads` keeps the last value for such a key.
- TargetsListing: the model iterates `packages` in document order. Python 2's `dict.iteritems()` follows the dict's hash table, not insertion order. What `TargetsForPackageExact` says about membership and duplicates holds for any order; the subsequence statement is about the model's order.
- The queries return the stored lists themselves, so a caller could mutate the catalog through them. The model works on values and does not capture that aliasing.
