# Resource name parsing, URI dispatch, archive filesystem cache and hash rendering

A Dafny model of the core of the `uoxx3.io` resource utilities:

- **Name parsing** (`UResourceActions.resourceWithoutSlashes` and the `String`/`ZipEntry`
  overloads of `UResource.basename`, `extensions` and `extension`). A location is normalised:
  - every run of `/`, `|` or `\` becomes one `/`;
  - the result is `trim`med;
  - trailing `/` are stripped;
  - only the last segment is kept.

  The partial basename is the text before the first `.`. The extensions are the pieces of the
  `.`-split segment that differ from the partial basename. The extension is the last of them.
- **URI decoding**:
  - `extractJarLocation` reads the entry path after the last `!`.
  - `extractJrtInfo` splits a runtime-image URI on `/` into an optional module name and a
    resource path.
  - `pathOf` dispatches on the scheme and rebuilds `jrt:` URIs.
- **The archive filesystem cache** (`UFilesystem`). This is a mutable set of mounted archive
  filesystems.
  - `filesystem(uri)` mounts a `jar:` archive afresh on every call. When an equal filesystem is
    already cached, it closes the new one and hands out the cached one.
  - `closeFilesystemsIf` walks the set with an iterator. It closes and removes every
    filesystem the predicate selects.
- **Hash rendering** (`UResourceHash.hashStr(byte[])`): `%02x` of each byte after widening it
  to a sign-extended `int`.

## Layout

| file | module | what |
|---|---|---|
| `outcomes.dfy` | `Outcomes` | `Option`, the exceptions (`Error`), `Result` |
| `fs_constants.dfy` | `FsConstants` | `.`, `/`, `!` and the `jrt:/` prefix of `UFSConstants` |
| `uris.dfy` | `Uris` | the scheme and string form of a `java.net.URI`; the scheme switch |
| `java_text.dfy` | `JavaText` | `String.trim`, `isBlank`, `indexOf`, `lastIndexOf`, `split` (limit 0), `String.join` |
| `resource_actions.dfy` | `ResourceActions` | `resourceWithoutSlashes`, `extractJarLocation`, `extractJrtInfo`, `resourceTypeError` |
| `resource.dfy` | `Resource` | `basename`, `extensions`, `extension`, their `ZipEntry` overloads, `pathOf` |
| `filesystem.dfy` | `Filesystem` | the `FilesystemCache` class: `filesystem`, `closeFilesystemsIf`, `closeFilesystems` |
| `resource_hash.dfy` | `ResourceHash` | `hashStr(byte[])`, and the two-digit rendering |

## How the model is built

- **Pure code becomes functions.** The name queries, the URI decoders and `hashStr` are
  expressions in the source, so they are functions. Lemmas state their properties.
- **`resourceWithoutSlashes`** reassigns `cleanLocation` in a loop. It is the method
  `ResourceActions.ResourceWithoutSlashes`, and its loop is proved equal to the function
  `WithoutSlashes`, which every query uses.
- **`UFilesystem`** is a class whose fields the methods update:
  - `filesystems` is a `seq` in iterator order.
  - `isOpen` records the open state of every filesystem ever mounted.
  - `nextId` gives each mount a fresh identity.
- **Filesystem identity and equality.** A filesystem is a `Handle`, an identity plus the
  archive it mounts. The model assumes a provider whose `equals` compares the archive, so
  that two mounts of one archive are equal. Nothing in the source fixes this: it only calls
  `fs::equals`. The "equal cached filesystem" path of `filesystem(uri)` and
  `Filesystem.MountSameArchiveTwice` describe a provider that behaves so.
- **Foreign outcomes are parameters.** Whether mounting succeeds (`opens`) and whether a close
  throws (`closeFails`) are inputs.
- **Where the code and its description disagree, the model follows the code:**
  - `".bashrc"` has the extension list `["bashrc"]` and the partial name `""`. The split
    yields an empty first piece, and that piece is the partial name, so the filter removes it
    (`Resource.HiddenFileExtension`).
  - `"jrt:/java.base/x"` yields no module name, because the section contains a `.`
    (`ResourceActions.IsModuleSection`).
  - `extractJarLocation` returns `"!"` for a URI that ends in `!`.
  - `extractJrtInfo` does fail, but only on a non-empty string made of `/` alone.
    `Arrays.copyOfRange(sections, 1, 0)` then throws `IllegalArgumentException("1 > 0")`. No
    `jrt:` URI has that form.
  - "The partial name equals the full name exactly when there are no extensions" does not
    hold.
    - `"a.a"` has no extensions, because the filter also removes an extension spelled like
      the partial name (`Resource.RepeatedStemNoExtension`).
    - `"a."` has no extensions either (`Resource.TrailingDotNoExtension`).
    - Only the direction "equal names ⇒ no extensions" holds (`Resource.SameNamesNoExtensions`).
  - `hashStr` renders a negative byte as eight chars, not two (see Findings).

## Model

| member | source | states |
|---|---|---|
| Uris.SchemeOf | library/src/main/java/uoxx3/io/UResource.java:366-368 | the scheme switch is an exact match: the result is `file`, `jar` or `jrt` exactly when the scheme is that text, no scheme exactly when `getScheme()` is null, and any other name otherwise |
| JavaText.Trim | library/src/main/java/uoxx3/io/internal/UResourceActions.java:40-41 | `String.trim`: neither end of the result is a char ≤ U+0020; the result is empty exactly when every char is ≤ U+0020; a string whose ends are kept is unchanged |
| JavaText.IsBlank | library/src/main/java/uoxx3/io/internal/UResourceActions.java:95 | `String.isBlank`: the empty string is blank; a string with a visible char below U+1680 is not; a blank string holds no `/`, `.` or `!` |
| JavaText.TrimKeepsAbsent | library/src/main/java/uoxx3/io/internal/UResourceActions.java:40-41 | trimming only removes chars, so it never introduces a char |
| JavaText.TrimAppend | library/src/main/java/uoxx3/io/internal/UResourceActions.java:40-41 | appending a kept char after a kept last char appends it to the trim |
| JavaText.IndexOf | library/src/main/java/uoxx3/io/UResource.java:91 | `indexOf(char)`: -1 exactly when the char is absent; otherwise its first position |
| JavaText.LastIndexOf | library/src/main/java/uoxx3/io/internal/UResourceActions.java:49 | `lastIndexOf`: -1 exactly when the char is absent; otherwise its last position |
| JavaText.LastIndexOfBeforeTail | library/src/main/java/uoxx3/io/internal/UResourceActions.java:49 | the last occurrence of a char is the one before a tail that does not contain it |
| JavaText.Split | library/src/main/java/uoxx3/io/UResource.java:208 | `split` with limit 0: no piece holds the separator; a string without it gives itself alone; the last piece is non-empty unless the string is empty |
| JavaText.DropTrailingEmpty | library/src/main/java/uoxx3/io/internal/UResourceActions.java:91 | the result is a prefix of the pieces that ends in a non-empty piece; every piece it drops is empty |
| JavaText.JoinSplitAll | library/src/main/java/uoxx3/io/internal/UResourceActions.java:91-100 | joining all pieces, empty ones included, with the separator gives back the string |
| JavaText.Join | library/src/main/java/uoxx3/io/internal/UResourceActions.java:100 | `String.join`: the result starts with the first part, and the separator follows it when there are two parts or more; `SplitJoin` and `JoinSplitAll` make it the inverse of the split |
| JavaText.SplitJoin | library/src/main/java/uoxx3/io/internal/UResourceActions.java:91-100 | separator-free pieces whose last one is non-empty split back out of their join |
| JavaText.SplitEmpty | library/src/main/java/uoxx3/io/internal/UResourceActions.java:91-100 | the split has no piece at all exactly when the string is non-empty and made of the separator only |
| JavaText.SplitAfterHead | library/src/main/java/uoxx3/io/internal/UResourceActions.java:91 | for a separator-free head and at least one separator-free piece whose last one is non-empty, the head, a separator and the join of the pieces split into the head and the pieces |
| JavaText.DropTrailingEmptyCons | library/src/main/java/uoxx3/io/UResource.java:208 | dropping the trailing empty pieces after a head keeps the head followed by the kept pieces, unless the head and every later piece are empty |
| JavaText.SplitPieces | library/src/main/java/uoxx3/io/UResource.java:208 | for a separator-free head and any separator-free pieces (empty ones included), the head, a separator and the join split into the head and the pieces with the trailing empty ones dropped |
| JavaText.SplitTrailingSeparator | library/src/main/java/uoxx3/io/UResource.java:208 | one separator at the end of a non-empty, separator-free text only ends that piece: the split is the text alone |
| JavaText.SplitLastPiece | library/src/main/java/uoxx3/io/UResource.java:208 | for any text `a` and a non-empty, separator-free `t`, the split of `a`, a separator and `t` has at least two pieces and its last piece is `t` |
| JavaText.JoinNotBlank | library/src/main/java/uoxx3/io/internal/UResourceActions.java:100 | a join whose first piece is not blank is not blank and starts with that piece's first char |
| ResourceActions.ResourceTypeError | library/src/main/java/uoxx3/io/internal/UResourceActions.java:24-27 | the failure is an `IllegalArgumentException` |
| ResourceActions.CollapseRunsCanonical | library/src/main/java/uoxx3/io/internal/UResourceActions.java:40 | the replacement leaves no pipe and no backslash, and changes nothing in a string without separators |
| ResourceActions.ReplaceSeparators | library/src/main/java/uoxx3/io/internal/UResourceActions.java:40 | the replacement of every run of separators by `/`: no pipe, no backslash and no two `/` in a row are left, and a location without separators is unchanged |
| ResourceActions.CollapseRunsSingle | library/src/main/java/uoxx3/io/internal/UResourceActions.java:40 | every run of separators becomes a single `/`: no two `/` stand next to each other |
| ResourceActions.StripTrailingSlashes | library/src/main/java/uoxx3/io/internal/UResourceActions.java:44-46 | the result is a prefix that does not end in `/`, and only `/` were removed |
| ResourceActions.LastSegment | library/src/main/java/uoxx3/io/internal/UResourceActions.java:49-50 | the result is a `/`-free suffix preceded by a `/` unless it is the whole string |
| ResourceActions.WithoutSlashes | library/src/main/java/uoxx3/io/internal/UResourceActions.java:36-51 | the normalised location holds no slash, backslash or pipe |
| ResourceActions.ResourceWithoutSlashes | library/src/main/java/uoxx3/io/internal/UResourceActions.java:36-51 | the loop that strips trailing `/` one at a time, followed by the last-segment cut, computes `WithoutSlashes` |
| ResourceActions.WithoutSlashesPlain | library/src/main/java/uoxx3/io/internal/UResourceActions.java:40-50 | a location without separators is only trimmed |
| ResourceActions.WithoutSlashesTrailingSeparators | library/src/main/java/uoxx3/io/internal/UResourceActions.java:40-46 | appending any run of separators to a location whose last char is not ≤ U+0020 does not change the result |
| ResourceActions.CollapseAppend | library/src/main/java/uoxx3/io/internal/UResourceActions.java:40 | replacing separators in a concatenation replaces them in each part, the second part continuing the run state of the first |
| ResourceActions.CollapseSeparatorRun | library/src/main/java/uoxx3/io/internal/UResourceActions.java:40 | a run of separators becomes one `/`, or nothing when it continues a run |
| ResourceActions.WithoutSlashesAfterSeparator | library/src/main/java/uoxx3/io/internal/UResourceActions.java:36-51 | a directory part ending in a separator followed by a separator-free name gives the name, when neither end of the location is ≤ U+0020 |
| ResourceActions.LastSegmentAfterSlash | library/src/main/java/uoxx3/io/internal/UResourceActions.java:49-50 | for a `/`-free `name`, the last segment of `front + "/" + name` is `name` |
| ResourceActions.ExtractJarLocation | library/src/main/java/uoxx3/io/internal/UResourceActions.java:60-74 | `"/"` without `!`; `"!"` when `!` ends the URI; otherwise the non-empty, `!`-free text after the last `!` |
| ResourceActions.JarLocationRoundTrip | library/src/main/java/uoxx3/io/internal/UResourceActions.java:64-71 | joining an archive location and a non-empty, `!`-free entry with `!` and extracting gives the entry back |
| ResourceActions.ExtractJrtInfo | library/src/main/java/uoxx3/io/internal/UResourceActions.java:83-102 | the decoding into a `JrtResourceInfo` (the resource path and the optional module name of the record in JrtResourceInfo.java, lines 8-11) fails exactly when the URI string is non-empty and all `/`; a module name is never blank and holds no `.` or `/` |
| ResourceActions.IsModuleSection | library/src/main/java/uoxx3/io/internal/UResourceActions.java:94-96 | section 1 is a module name only when there is one, it is non-empty and it holds no `.`: a dotted name such as `java.base` never is |
| ResourceActions.JrtInfoLossless | library/src/main/java/uoxx3/io/internal/UResourceActions.java:91-101 | the sections after the scheme, joined with `/`, are the module name followed by the resource path; the resource path alone when there is no module |
| Resource.Stem | library/src/main/java/uoxx3/io/UResource.java:91-92 | the partial name is a `.`-free prefix followed by a `.` unless it is everything; it is shorter than the segment exactly when the segment has a `.` |
| Resource.Basename | library/src/main/java/uoxx3/io/UResource.java:77-93 | a directory, or a file asked for its full name, gives the normalised location; a file asked for its partial name gives the text before its first `.` |
| Resource.BasenamePartial | library/src/main/java/uoxx3/io/UResource.java:103-105 | the normalised location for a directory; for a file, the text before the first `.` of the normalised location |
| Resource.EntryBasename | library/src/main/java/uoxx3/io/UResource.java:167-172 | the entry's name goes through `basename(name, isDirectory, partialResult)`: a directory entry, or a full name, gives the normalised name and keeps its `.`; a file entry's partial name is the text before the first `.` of the normalised name; no result holds a separator |
| Resource.EntryBasenamePartial | library/src/main/java/uoxx3/io/UResource.java:181-183 | the normalised name for a directory entry; for a file entry, the text before the first `.` of the normalised name |
| Resource.RemoveAll | library/src/main/java/uoxx3/io/UResource.java:209-211 | no part left by the filter equals the filtered-out text; `RemoveAllAppend` gives the order |
| Resource.RemoveAllAppend | library/src/main/java/uoxx3/io/UResource.java:209-211 | the filter keeps order and duplicates: filtering a concatenation filters each part in turn |
| Resource.RemoveAllMembers | library/src/main/java/uoxx3/io/UResource.java:209-211 | the filter keeps exactly the parts other than the given text |
| Resource.RemoveAllHead | library/src/main/java/uoxx3/io/UResource.java:209-211 | when no element of the tail equals `x`, filtering `x` out of `[x]` followed by the tail leaves the tail, in order |
| Resource.NameExtensions | library/src/main/java/uoxx3/io/UResource.java:202-213 | a segment without `.` has no extensions; no extension equals the partial name |
| Resource.NameExtensionsMembers | library/src/main/java/uoxx3/io/UResource.java:200-211 | the extensions are exactly the `.`-split pieces other than the partial name, and none holds a `.` |
| Resource.StemBeforeDot | library/src/main/java/uoxx3/io/UResource.java:91-92 | the partial name of `stem + "." + rest` is `stem` when `stem` has no `.` |
| Resource.NameExtensionsOfJoin | library/src/main/java/uoxx3/io/UResource.java:200-211 | a `.`-free stem followed by `.`-joined extensions (the last non-empty, none equal to the stem) has exactly those extensions, in order |
| Resource.NameExtensionsOfPieces | library/src/main/java/uoxx3/io/UResource.java:200-211 | for a `.`-free stem followed by `.` and any `.`-free pieces joined by `.`, the extensions are the pieces in order, duplicates kept, after dropping the trailing empty pieces (`"a.b."` gives `["b"]`) and every piece spelled like the stem; when the last piece is non-empty, that is all the pieces minus those spelled like the stem |
| Resource.HiddenFileExtension | library/src/main/java/uoxx3/io/UResource.java:200-211 | for a non-empty, `.`-free `rest`, `"." + rest` has the empty partial name and the one extension `rest` |
| Resource.TrailingDotNoExtension | library/src/main/java/uoxx3/io/UResource.java:208-211 | for a non-empty, `.`-free stem, `stem + "."` has no extensions |
| Resource.RepeatedStemNoExtension | library/src/main/java/uoxx3/io/UResource.java:208-211 | for a non-empty, `.`-free stem, `stem + "." + stem` has no extensions though its partial and full names differ |
| Resource.RepeatedStemKeepsOrder | library/src/main/java/uoxx3/io/UResource.java:208-211 | `a.b.a.c` has the extensions `b`, `c` in that order: the second `a` goes with the stem |
| Resource.Extensions | library/src/main/java/uoxx3/io/UResource.java:196-214 | no extensions when the last segment has no `.`; no extension equals the partial basename |
| Resource.NameExtension | library/src/main/java/uoxx3/io/UResource.java:280-282 | empty exactly when there are no extensions; never the partial name |
| Resource.Extension | library/src/main/java/uoxx3/io/UResource.java:278-283 | empty exactly when `extensions` is empty; a present extension is never the partial basename |
| Resource.ExtensionsArePieces | library/src/main/java/uoxx3/io/UResource.java:208-211 | every extension is a `.`-free piece of the last segment, and the extension is one of the extensions |
| Resource.LastNameExtension | library/src/main/java/uoxx3/io/UResource.java:278-282 | the non-empty, `.`-free text after the last `.` is the last extension unless it is the partial name |
| Resource.LastExtension | library/src/main/java/uoxx3/io/UResource.java:278-283 | `extension(location)` is the text after the last `.` of the last segment, under the same conditions |
| Resource.SameNamesNoExtensions | library/src/main/java/uoxx3/io/UResource.java:200-213 | when the partial and the full name agree, there are no extensions and no extension |
| Resource.EntryExtensions | library/src/main/java/uoxx3/io/UResource.java:258-265 | fails exactly for a directory entry, with the "Regular File"/"Directory" type error; otherwise it is `extensions(entry.getName())`, so no extension equals the entry's partial name |
| Resource.EntryExtension | library/src/main/java/uoxx3/io/UResource.java:327-334 | fails exactly for a directory entry, with the type error; otherwise it is `extension(entry.getName())`: empty exactly when there are no extensions, and never the partial name |
| Resource.JrtRebuild | library/src/main/java/uoxx3/io/UResource.java:378-392 | the rebuilt URI starts with `jrt:/`, then the module name when present; no module and a blank resource give `jrt:/` alone |
| Resource.JrtSections | library/src/main/java/uoxx3/io/internal/UResourceActions.java:91 | for at least one `/`-free segment, the last one non-empty, `jrt:/` followed by the `/`-joined segments splits into `"jrt:"` and the segments |
| Resource.JrtInfoOf | library/src/main/java/uoxx3/io/internal/UResourceActions.java:94-101 | with at least two sections, the module is section 1 when it qualifies and the resource is the rest joined with `/` |
| Resource.JrtSchemeOnly | library/src/main/java/uoxx3/io/internal/UResourceActions.java:91-101 | `jrt:/` alone decodes to the empty resource and no module |
| Resource.JrtRebuildModule | library/src/main/java/uoxx3/io/UResource.java:381-392 | a module and a non-blank resource that does not start with `/` are joined with exactly one `/` |
| Resource.JrtRebuildModuleOnly | library/src/main/java/uoxx3/io/UResource.java:381-392 | a module with an empty resource gives `jrt:/` and the module |
| Resource.JrtRebuildPlain | library/src/main/java/uoxx3/io/UResource.java:390-392 | without a module, a non-blank resource follows `jrt:/` directly |
| Resource.JrtRebuildModulePath | library/src/main/java/uoxx3/io/UResource.java:381-392 | for at least two segments whose segment 1 is non-blank and `/`-free, the module (segment 0) and the `/`-joined remaining segments are rebuilt as `jrt:/` plus all the segments joined |
| Resource.JrtRebuildRoundTrip | library/src/main/java/uoxx3/io/UResource.java:376-395 | decoding `jrt:/` + segments joined with `/` succeeds, and rebuilding gives the same string, whenever every segment is non-blank and `/`-free; no segment at all (`jrt:/`) included |
| Resource.PathOf | library/src/main/java/uoxx3/io/UResource.java:365-398 | `file` gives the native location and leaves the cache alone. `jar` changes the cache as `filesystem(uri)` does: a failed mount leaves it alone; otherwise the fresh mount is cached and handed out, or, when an equal one is cached, the fresh one is closed and the cached one handed out, the close failing with an IOException; the location is that filesystem and the entry after the last `!`. `jrt` gives the rebuilt URI or the decoding error and leaves the cache alone. Any other scheme gives IOException, a null scheme NullPointerException |
| Resource.ExampleLastSegment | library/src/test/java/uoxx3/io/UResourceTest.java:39-46 | the last segment of `/opt/info/example.local.txt` is `example.local.txt` |
| Resource.ExampleNameParts | library/src/test/java/uoxx3/io/UResourceTest.java:41-58 | `example.local.txt` has the partial name `example` and the extensions `local`, `txt` |
| Resource.ExampleLocalTxt | library/src/test/java/uoxx3/io/UResourceTest.java:37-82 | the unit tests' location has partial basename `example`, full name `example.local.txt`, extensions `["local", "txt"]` and extension `txt` |
| Filesystem.FindEqual | library/src/main/java/uoxx3/io/UFilesystem.java:69-71 | nothing is found exactly when no cached filesystem equals the new one; what is found is cached and equal to it |
| Filesystem.Unselected | library/src/main/java/uoxx3/io/UFilesystem.java:102-111 | the filesystems left are exactly those the predicate rejects |
| Filesystem.UnselectedDistinct | library/src/main/java/uoxx3/io/UFilesystem.java:105-111 | removing filesystems keeps the cache free of equal pairs |
| Filesystem.UnselectedAll | library/src/main/java/uoxx3/io/UFilesystem.java:118-120 | the always-true predicate leaves nothing |
| Filesystem.ClosedAmong | library/src/main/java/uoxx3/io/UFilesystem.java:105-109 | a selected filesystem is closed unless its close throws; every other one keeps its state |
| Filesystem.CloseStep | library/src/main/java/uoxx3/io/UFilesystem.java:103-111 | one more iterator step extends the closed filesystems by the visited one |
| Filesystem.FilesystemCache.constructor | library/src/main/java/uoxx3/io/UFilesystem.java:18 | the cache starts empty |
| Filesystem.FilesystemCache.Filesystem | library/src/main/java/uoxx3/io/UFilesystem.java:60-83 | `file` gives the default filesystem and changes nothing. For `jar`, each call opens a new filesystem; an equal cached one is returned and the new one is closed, or the new one is cached and returned. A failed mount or close is an IOException. Any other scheme is an IOException. No two cached filesystems are ever equal |
| Filesystem.FilesystemCache.CloseFilesystemsIf | library/src/main/java/uoxx3/io/UFilesystem.java:95-113 | the cache keeps exactly the filesystems the predicate rejects, in order, and their states. Every selected one that was open is closed unless its close throws, and it is removed either way. The invariant is preserved |
| Filesystem.FilesystemCache.CloseNext | library/src/main/java/uoxx3/io/UFilesystem.java:103-111 | one iteration: a selected filesystem is closed if open and removed in place; a rejected one is stepped over |
| Filesystem.FilesystemCache.CloseFilesystems | library/src/main/java/uoxx3/io/UFilesystem.java:118-120 | the cache is empty afterwards, and every formerly cached filesystem is closed unless its close threw |
| Filesystem.MountSameArchiveTwice | library/src/main/java/uoxx3/io/UFilesystem.java:66-80 | mounting the same archive twice gives the same filesystem both times; it is the only one cached and the only one open |
| ResourceHash.HexChar | library/src/main/java/uoxx3/io/UResourceHash.java:175 | `%x` digits are lower-case hex, decimal exactly below 10 |
| ResourceHash.HexValue | library/src/main/java/uoxx3/io/UResourceHash.java:175 | reading a digit is the inverse of writing it |
| ResourceHash.HexDigitsShift | library/src/main/java/uoxx3/io/UResourceHash.java:175 | for `q >= 1` and a digit `d < 16`, the digits of `16q + d` are those of `q` followed by the digit of `d` |
| ResourceHash.HexDigitsBound | library/src/main/java/uoxx3/io/UResourceHash.java:175 | a value below 16^k has at most k digits |
| ResourceHash.Format02x | library/src/main/java/uoxx3/io/UResourceHash.java:175 | `%02x` of an `int` is two to eight lower-case hex digits |
| ResourceHash.FormatNonNegative | library/src/main/java/uoxx3/io/UResourceHash.java:175 | `%02x` of a byte in 0..127 is two digits, high nibble first |
| ResourceHash.SixF | library/src/main/java/uoxx3/io/UResourceHash.java:175 | the sign extension of a byte renders as `ffffff` |
| ResourceHash.FormatNegative | library/src/main/java/uoxx3/io/UResourceHash.java:175 | `%02x` of a negative byte widened to `int` is `ffffff` followed by the two digits of `b + 256` |
| ResourceHash.RenderByte | library/src/main/java/uoxx3/io/UResourceHash.java:174-175 | one byte as `hashStr` renders it: a non-negative byte is two digits, high nibble first; a negative one is `ffffff` and then the two digits of `b + 256` |
| ResourceHash.HashStr | library/src/main/java/uoxx3/io/UResourceHash.java:171-177 | the rendering is empty exactly for an empty array, and every char is a lower-case hex digit |
| ResourceHash.HashStrLength | library/src/main/java/uoxx3/io/UResourceHash.java:173-176 | the length is twice the byte count plus six per negative byte |
| ResourceHash.HashStrAppend | library/src/main/java/uoxx3/io/UResourceHash.java:173-176 | the renderings are joined in index order: rendering a concatenation concatenates the renderings |
| ResourceHash.SignExtendedByte | library/src/main/java/uoxx3/io/UResourceHash.java:174-175 | the byte -1 renders as `ffffffff`, eight chars |
| ResourceHash.RenderUnsigned | library/src/main/java/uoxx3/io/UResourceHash.java:175 | the corrected rendering of a byte is exactly two hex digits |
| ResourceHash.UnsignedHashStr | library/src/main/java/uoxx3/io/UResourceHash.java:171-177 | the corrected rendering has exactly two hex digits per byte |
| ResourceHash.UnsignedAgrees | library/src/main/java/uoxx3/io/UResourceHash.java:174-175 | both renderings agree on a non-negative byte; on a negative one the source's rendering is `ffffff` followed by the corrected one |
| ResourceHash.HashStrAgrees | library/src/main/java/uoxx3/io/UResourceHash.java:173-176 | on arrays without negative bytes, both renderings agree |
| ResourceHash.DecodeHex | library/src/main/java/uoxx3/io/UResourceHash.java:175 | a decoded array has half as many entries as the text has chars |
| ResourceHash.UnsignedHashStrRoundTrip | library/src/main/java/uoxx3/io/UResourceHash.java:171-177 | decoding the corrected rendering gives the array back |

## Left out

- `userDirectory` reads a system property. That is environment I/O.
- The `Path` and `File` overloads of `basename`, `extensions` and `extension` are left out.
  They ask the filesystem whether the path is a directory, and the `ZipEntry` overloads cover
  the same logic given a name and a directory flag.
- The `file`, `jar` and `jrt` branches do not build real paths. `Path.of`,
  `FileSystem.getPath`, `Paths.get` and `URI.create` are library calls, and `Resource.PathOf`
  returns an abstract `Location` instead. A rebuilt `jrt` URI that `URI.create` rejects, and a
  missing runtime-image filesystem, are not modelled.
- The `URL` overloads of `pathOf` and `filesystem` are left out. They only convert to a URI and
  wrap `URISyntaxException`.
- The `hash(...)` overloads of `UResourceHash` are left out. They are digest computation and
  stream reading in library code, and the default algorithm depends on the architecture.
- The `synchronizedSet` is modelled as a sequential object. Thread safety is not modelled.
- `FileSystems.newFileSystem` is an abstract fresh handle with an identity and an archive key.
  Its success is the `opens` parameter.
  - Filesystem equality is modelled as equality of archive keys. This is an assumption about
    the provider, not a property of the JDK's zip filesystem.
  - The JDK's zip provider refuses a second mount of an archive that is still open with
    `FileSystemAlreadyExistsException`, an unchecked exception. It escapes `filesystem(uri)`
    before the scan of the cache. The model does not have this outcome: with `opens` true the
    mount succeeds, and with `opens` false it is an `IOException`.
- `Filesystem.FilesystemCache.CloseFilesystemsIf`: the iteration order of the `HashSet` is
  modelled as the order of the `seq`, and the model does not say that the order is arbitrary.
- `Filesystem.ClosedAmong`: a close that throws leaves the filesystem's open flag as it was.
  The real state after a failed close is not specified.
- The `UAssert` null checks are not modelled. Every reference is non-null in the model, except
  the scheme, whose `null` reaches the `switch` and is modelled as `NullPointer`.
- Strings are sequences of Unicode scalar values, not UTF-16 code units. A surrogate pair is
  one char here.
- `ResourceActions.ResourceTypeError`: the contract states only that the failure is an
  `IllegalArgumentException`. The message text is fixed by the function body alone.
- `Resource.JrtRebuildRoundTrip`: proved only for segments that are non-blank and `/`-free
  (no segment at all, `jrt:/` itself, included). Other URIs are not covered, and some do not come back unchanged: `jrt:/a/` loses its
  trailing `/`, and `jrt:/a//b` becomes `jrt:/a/b`.
- The private throwing constructors are left out. So are the build files and the module
  descriptor.

## Findings

| source | as written | input that shows it | evidently intended | confidence | as-written member | corrected member |
|---|---|---|---|---|---|---|
| library/src/main/java/uoxx3/io/UResourceHash.java:174-175 | `.map(i -> hash[i])` widens each byte to a sign-extended `int`. `%02x` then prints all 32 bits of a negative value. | the one-byte array `{-1}` renders as `"ffffffff"` (eight chars), and a 64-byte SHA-512 digest with a negative byte is longer than 128 chars | two lower-case hex digits per byte, `b & 0xff`, so a digest of n bytes has 2n chars and can be read back | high; not executed | ResourceHash.SignExtendedByte | ResourceHash.UnsignedHashStr |

`ResourceHash.HashStr` models the source as written. `ResourceHash.HashStrLength` gives its
length for every input: 2n plus 6 per negative byte. `ResourceHash.UnsignedHashStr` is the
corrected rendering. Its contract gives exactly 2n chars, and
`ResourceHash.UnsignedHashStrRoundTrip` proves that it decodes back to the array.
`ResourceHash.UnsignedAgrees` states how the two differ: six `f`s before each negative byte.
