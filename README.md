# remote2oss path derivation in Dafny

remote2oss downloads one URL into a local cache file and uploads that file to
an object-storage bucket. This project models the part of `main.go` that
decides the names involved, and proves properties of those names:

- the `-l` argument check: the URL is trimmed of white space, and an empty
  result fails with `missing argument '-l'`;
- `sanitizePath`: every rune outside `[0-9a-zA-Z._/-]` becomes `_`, then the
  text is lower-cased;
- the local cache file `filepath.Join(workspace, sanitizePath(path.Base(path)))`;
- the object key `path.Join(host, sanitizePath(path))`;
- the public URL that is logged:
  `TrimSuffix(publicURL, "/") + "/" + TrimPrefix(key, "/")`.

The Go library calls these lines depend on are modelled as well:
- `strings.TrimSpace` with `unicode.IsSpace`;
- `strings.TrimPrefix` and `strings.TrimSuffix`;
- `strings.LastIndex`;
- `strings.ToLower` on ASCII input;
- `path.Base`;
- two-element `path.Join` and `filepath.Join`, which compute the same thing
  when the separator is `/`;
- `path.Clean`.

Modules:
- `GoStrings` (`go_strings.dfy`): the string functions.
- `GoPath` (`go_path.dfy`): `Base`, `Join` and `Clean`. `Clean` follows its
  documented rules on path elements:
  - empty and `.` elements are dropped;
  - `..` removes the element before it;
  - a `..` at the root is dropped;
  - an empty result is `.`.
- `Sanitize` (`sanitize.dfy`): `sanitizePath`.
- `Remote2Oss` (`remote2oss.dfy`): the `-l` check, the cache file, the key,
  the public URL, and `Derive`, which chains them the way `main` does.

The URL is taken already parsed: its host and its path are parameters. Go
strings are modelled as sequences of runes.

Behaviour of `main.go` that the model makes visible:

- Both joins finish by cleaning the joined path. `path.Join` calls
  `path.Clean`. `filepath.Join` calls `filepath.Clean`, which computes the
  same thing when the separator is `/`, as this model assumes. So repeated
  slashes and `..` elements are resolved.
  - A path ending in `/..` names the workspace's parent as the cache file
    (`LocalFilenameEscapesWorkspace`).
  - A path starting with `/../` drops the host from the key
    (`StorageKeyEscapesHost`).
- An empty path, or one whose last element is `.`, has base `.`. A path of
  slashes only has base `/`. In all these cases the cache file is the
  cleaned workspace. With an empty workspace it is `.` or `/` instead
  (`LocalFilenameNoElement`).
- The key for `http://cdn.example.com/Assets/My File.PNG` is
  `cdn.example.com/assets/my_file.png` (`ExampleKey`). The sanitizer keeps
  `/`, and the key is sanitized as a whole path (`SanitizeKeepsSeparators`,
  `StorageKeyUnderHost`).
- The public URL removes at most one slash on each side of the joint. A
  prefix ending in `//` therefore leaves two slashes in the URL
  (`PublicUrlDoubleSlashPrefix`). Exactly one slash is guaranteed only under
  the conditions of `PublicUrlOneSeparator`.
- Lengths in the model count runes. `sanitizePath` keeps the number of
  runes. It can shorten the text in bytes, as Go's `len` counts it, because
  each non-ASCII rune becomes a one-byte `_`.

## Model

| member | source | states |
|---|---|---|
| GoStrings.TrimSpace | main.go:74 | the trimmed `-l` value starts after the leading white space and is non-empty only with no white space at either end |
| GoStrings.TrimSpaceSlice | main.go:74 | the trimmed value is the slice of the argument that starts right after its leading white space |
| GoStrings.TrimSpaceDropsSpace | main.go:74 | everything trimming drops, before and after, is white space in the sense of `unicode.IsSpace` |
| GoStrings.TrimSpaceEmptyIff | main.go:74-76 | trimming leaves `""` exactly when the argument is all white space |
| GoStrings.TrimSpaceIdempotent | main.go:74 | trimming a trimmed value changes nothing |
| GoStrings.TrimPrefix | main.go:146 | with the prefix present, the key is the prefix followed by the result; otherwise the key is unchanged |
| GoStrings.TrimSuffix | main.go:146 | with the suffix present, the URL prefix is the result followed by the suffix; otherwise it is unchanged |
| GoStrings.ToLower | main.go:26 | on ASCII input, the only input `sanitizePath` gives it: same number of runes; each `A`-`Z` becomes its lower-case letter and every other rune stays |
| GoStrings.LowerChangesOnlyUpper | main.go:26 | lower-casing changes a rune exactly when it is an upper-case ASCII letter |
| Sanitize.ReplaceBad | main.go:22-26 | same length; rune `i` is kept when it matches `[0-9a-zA-Z._/-]` and is `_` otherwise |
| Sanitize.SanitizeChar | main.go:22-26 | what one rune becomes is always in `[0-9a-z._/-]` |
| Sanitize.SanitizePath | main.go:25-27 | as many runes as the input (bytes can be fewer); rune `i` of the output depends only on input rune `i`; only `[0-9a-z._/-]` remains |
| Sanitize.SanitizeKeepsSeparators | main.go:22-27 | `/`, `.` and `-` keep their positions, and no other rune becomes one of them |
| Sanitize.SanitizeFixesSafe | main.go:22-27 | a name made only of `[0-9a-z._/-]` is left unchanged |
| Sanitize.SanitizeSlashFree | main.go:22-27 | the output holds a `/` exactly when the input does |
| Sanitize.SanitizeDotNames | main.go:22-27 | `""`, `.` and `..` stay as they are, and no other name becomes one of them |
| Sanitize.SanitizeConcat | main.go:22-27 | sanitizing a concatenation sanitizes each part |
| Sanitize.SanitizeIdempotent | main.go:22-27 | sanitizing twice is sanitizing once |
| Sanitize.ReplaceBadAscii | main.go:26 | after the replacement only ASCII runes remain |
| Sanitize.LowerSeesOnlyAscii | main.go:26 | `ToLower` sees only ASCII and changes exactly the upper-case letters of the original name |
| GoPath.Base | main.go:112 | `.` for an empty path, `/` for slashes only, otherwise the last element once trailing slashes are dropped: non-empty, without `/`, ending the trimmed path, and either all of it or preceded by `/` |
| GoPath.BaseIgnoresTrailingSlash | main.go:112 | a trailing slash does not change the base, so `a/b/` has base `b` |
| GoPath.BaseLastElement | main.go:112 | the base of `a/e` is `e` when `e` is a non-empty run without slashes |
| GoPath.Join | main.go:112 | joining gives `""` exactly when both parts are empty |
| GoPath.JoinSplit | main.go:145 | joining the elements `Clean` splits a path into gives the path back |
| GoPath.SplitJoin | main.go:145 | splitting a join of slash-free elements gives the elements back |
| GoPath.ResolveIsCanonical | main.go:145 | the cleaned elements are named, with every `..` before all others and none in a rooted path |
| GoPath.CleanShape | main.go:145 | a cleaned path is non-empty, has no doubled slash, ends in `/` only when it is `/`, and is rooted exactly when its input is |
| GoPath.CleanIdempotent | main.go:145 | cleaning a cleaned path changes nothing |
| GoPath.CleanAppendNamed | main.go:112 | appending a named element to a path appends it to the cleaned path |
| GoPath.CleanAppendDot | main.go:112 | appending an empty or `.` element does not change the cleaned path |
| GoPath.CleanAppendDoubleSlash | main.go:112 | appending `//` does not change the cleaned path |
| GoPath.CleanAppendNamedDotDot | main.go:112 | `a/e/..` cleans to what `a` cleans to |
| GoPath.CleanUnderHead | main.go:145 | a named head joined with a path without `..` stays in front, followed by that path's named elements |
| GoPath.CleanEscapesHead | main.go:145 | `h//../r` cleans to `r` cleaned, with no trace of `h` |
| Remote2Oss.CheckLocation | main.go:74-79 | the error is returned exactly when `-l` is all white space, and its message is `missing argument '-l'`; otherwise the trimmed value, non-empty and without white space at either end |
| Remote2Oss.CheckLocationStable | main.go:74-79 | an accepted value is accepted unchanged when checked again |
| Remote2Oss.LocalFilename | main.go:112 | the cache file name is never empty |
| Remote2Oss.BaseSegment | main.go:112 | the sanitized base is `.` for an empty path and holds a `/` exactly when the path is slashes only |
| Remote2Oss.LocalFilenameNoElement | main.go:112 | a path whose base is `.` (empty, or ending in a `.` element) or made of slashes only names the cleaned workspace; with an empty workspace, the base `.` or `/` |
| Remote2Oss.LocalFilenameInWorkspace | main.go:112 | a path ending in a named element gives that element, sanitized, directly inside the cleaned workspace |
| Remote2Oss.LocalFilenameDotDot | main.go:112 | a path whose last element is `..` gives the workspace joined with `..` |
| Remote2Oss.LocalFilenameEscapesWorkspace | main.go:112 | with workspace `d/e`, a path ending in `..` gives `d` cleaned, outside the workspace |
| Remote2Oss.ExampleFilename | main.go:112 | `/Assets/My File.PNG` is cached as `my_file.png` directly inside the workspace |
| Remote2Oss.ExampleKey | main.go:145 | `http://cdn.example.com/Assets/My File.PNG` is stored under the key `cdn.example.com/assets/my_file.png` |
| Remote2Oss.StorageKey | main.go:145 | the key is empty exactly when host and path both are |
| Remote2Oss.SplitSanitize | main.go:145 | sanitizing the path commutes with cutting it into elements |
| Remote2Oss.StorageKeyUnderHost | main.go:145 | with a named host and no `..` in the path, the key is the host, unchanged and not lower-cased, followed by the path's named elements, sanitized |
| Remote2Oss.StorageKeyShape | main.go:145 | the key has no doubled slash, ends in `/` only when it is `/`, and starts with `/` exactly when the host does (or the path, with no host) |
| Remote2Oss.KeyUnderNamedHostNotRooted | main.go:145 | under a named host the key is non-empty and starts with neither `/` nor `//` |
| Remote2Oss.StorageKeyEscapesHost | main.go:145 | a path starting with `/../` gives a key made of the rest of the path, with the host gone |
| Remote2Oss.PublicUrl | main.go:146 | the URL is the prefix without its trailing `/` when it has one, then `/`, then the key without its leading `/` when it has one |
| Remote2Oss.PublicUrlOneSeparator | main.go:146 | unless the prefix ends in `//` or the key starts with `//`, exactly one `/` separates the two texts |
| Remote2Oss.PublicUrlDoubleSlashPrefix | main.go:146 | for every prefix ending in `//` and every key, the prefix keeps one of its slashes, so two stand at the joint |
| Remote2Oss.PublicUrlUnderNamedHost | main.go:145-146 | with a named host and a prefix not ending in `//`, exactly one `/` stands between the prefix and the key |
| Remote2Oss.Derive | main.go:74-146 | the derivation fails exactly when `-l` is all white space, with `missing argument '-l'` |
| Remote2Oss.DeriveEndToEnd | main.go:74-146 | with a named host, the result holds the trimmed `-l` value, the cache file, the key, and the prefix without one trailing `/` followed by `/` and the key |

## Left out

- Downloading, `fileExists`, file creation and the copy to disk are I/O and
  are not modelled. The model does not capture that the cache file is
  downloaded only when it does not exist yet.
- The deferred `os.Remove` deletes the cache file on every return after the
  download starts, including success. This is I/O and is not modelled.
- The upload (`PutObjectFromFile`), the storage client and bucket set-up, and
  the logging are foreign calls. They are not modelled.
- Reading the configuration file, `json.Unmarshal`, `flag.Parse` and
  `os.UserHomeDir` are I/O. The `Options` record is taken as given.
- `url.Parse` is not modelled: the URL's host and its decoded path are
  parameters, and a parse error is not a case of `Derive`.
- The order of the failures in `main` is not modelled: the configuration,
  client, bucket and URL errors happen between the `-l` check and the
  derived names.
- `os.Exit` and the error logging in `exit` are process control and are not
  modelled.
- GoStrings.ToLower: models only Go's ASCII path, and requires ASCII input.
  `Sanitize.ReplaceBadAscii` shows that this is the only path `sanitizePath`
  reaches.
- GoPath.Clean: modelled by the element rules Go documents, not by its
  byte-level loop.
- GoPath.Join: modelled for exactly two elements, the only arity `main.go`
  uses.
- Strings are sequences of runes. The byte offsets Go works with, and
  invalid UTF-8, are not modelled.
- Remote2Oss.ExampleFilename: states the example for any non-empty workspace
  rather than a fixed directory.
