/**
  `UResource`: the name queries on a location string (`basename`, `extensions`, `extension`),
  their `ZipEntry` overloads, and `pathOf`, which turns a URI into a location according to its
  scheme and rebuilds runtime-image URIs.
 */
module Resource {
  import opened Outcomes
  import opened JavaText
  import opened FsConstants
  import opened ResourceActions
  import opened Filesystem
  import opened Uris

  /* -----------------------------------------------------------------
   * basename
   * ----------------------------------------------------------------- */

  /** The partial name of a last segment: the text before its first '.', or all of it. */
  function Stem(name: string): (r: string)
    ensures StartsWith(name, r) && ExtensionIdentifier !in r
    ensures |r| == |name| || name[|r|] == ExtensionIdentifier
    ensures ExtensionIdentifier in name <==> |r| < |name|
  {
    var index := IndexOf(name, ExtensionIdentifier);
    if index == -1 then name else name[..index]
  }

  /**
    `basename(location, isDirectory, partialResult)`: the last segment of the location; for a
    file asked for its partial name, only the text before the first '.'.
   */
  function Basename(location: string, isDirectory: bool, partialResult: bool): (r: string)
    ensures isDirectory || !partialResult ==> r == WithoutSlashes(location)
    ensures !isDirectory && partialResult ==> r == Stem(WithoutSlashes(location))
  {
    var name := WithoutSlashes(location);
    if isDirectory then name
    else if !partialResult then name
    else Stem(name)
  }

  /** `basename(location, isDirectory)`: the partial form. */
  function BasenamePartial(location: string, isDirectory: bool): (r: string)
    ensures isDirectory ==> r == WithoutSlashes(location)
    ensures !isDirectory ==> r == Stem(WithoutSlashes(location))
    ensures !isDirectory ==> ExtensionIdentifier !in r && StartsWith(WithoutSlashes(location), r)
  {
    Basename(location, isDirectory, true)
  }

  /* -----------------------------------------------------------------
   * ZipEntry overloads of basename
   * ----------------------------------------------------------------- */

  /** A `ZipEntry` as the name queries see it: its name and whether it is a directory. */
  datatype ZipEntry = ZipEntry(name: string, isDirectory: bool)

  /** `basename(entry, partialResult)`: a directory entry is accepted and never loses its '.'. */
  function EntryBasename(entry: ZipEntry, partialResult: bool): (r: string)
    ensures entry.isDirectory || !partialResult ==> r == WithoutSlashes(entry.name)
    ensures !entry.isDirectory && partialResult ==> r == Stem(WithoutSlashes(entry.name))
    ensures !entry.isDirectory && partialResult ==> ExtensionIdentifier !in r
    ensures forall i :: 0 <= i < |r| ==> !IsSeparator(r[i])
  {
    Basename(entry.name, entry.isDirectory, partialResult)
  }

  /** `basename(entry)`: the partial form. */
  function EntryBasenamePartial(entry: ZipEntry): (r: string)
    ensures entry.isDirectory ==> r == WithoutSlashes(entry.name)
    ensures !entry.isDirectory ==> r == Stem(WithoutSlashes(entry.name))
    ensures !entry.isDirectory ==> ExtensionIdentifier !in r
  {
    EntryBasename(entry, true)
  }

  /* -----------------------------------------------------------------
   * extensions and extension
   * ----------------------------------------------------------------- */

  /** The stream `filter(e -> !x.contentEquals(e))`: every part except those equal to `x`, in order. */
  function RemoveAll(parts: seq<string>, x: string): (r: seq<string>)
    ensures |r| <= |parts|
    ensures forall i :: 0 <= i < |r| ==> r[i] != x
  {
    if parts == [] then []
    else
      var init := parts[..|parts| - 1];
      if parts[|parts| - 1] == x then RemoveAll(init, x) else RemoveAll(init, x) + [parts[|parts| - 1]]
  }

  /** The filter keeps exactly the parts other than `x`. */
  lemma {:induction false} RemoveAllMembers(parts: seq<string>, x: string)
    ensures forall e :: e in RemoveAll(parts, x) <==> e in parts && e != x
  {
    if parts != [] {
      var init := parts[..|parts| - 1];
      RemoveAllMembers(init, x);
      assert parts == init + [parts[|parts| - 1]];
    }
  }

  /** Filtering out a head that occurs nowhere else leaves the tail. */
  lemma {:induction false} RemoveAllHead(x: string, rest: seq<string>)
    requires forall i :: 0 <= i < |rest| ==> rest[i] != x
    ensures RemoveAll([x] + rest, x) == rest
  {
    var parts := [x] + rest;
    if rest == [] {
      assert parts[..0] == [];
    } else {
      var n := |rest|;
      var init := rest[..n - 1];
      assert parts[..|parts| - 1] == [x] + init;
      RemoveAllHead(x, init);
      assert init + [rest[n - 1]] == rest;
    }
  }

  /** The filter keeps order: filtering a concatenation filters each part in turn. */
  lemma {:induction false} RemoveAllAppend(a: seq<string>, b: seq<string>, x: string)
    ensures RemoveAll(a + b, x) == RemoveAll(a, x) + RemoveAll(b, x)
    decreases |b|
  {
    if b == [] {
      assert a + b == a;
    } else {
      var n := |b|;
      var init := b[..n - 1];
      var last := b[n - 1];
      assert (a + b)[..|a + b| - 1] == a + init;
      assert (a + b)[|a + b| - 1] == last;
      RemoveAllAppend(a, init, x);
      var tail := if last == x then [] else [last];
      assert RemoveAll(a + b, x) == RemoveAll(a + init, x) + tail;
      assert RemoveAll(b, x) == RemoveAll(init, x) + tail;
      AppendAssociative(RemoveAll(a, x), RemoveAll(init, x), tail);
    }
  }

  /** A last part that is kept stays last. */
  lemma RemoveAllKeepsLast(parts: seq<string>, x: string)
    requires parts != [] && parts[|parts| - 1] != x
    ensures var r := RemoveAll(parts, x);
            r != [] && r[|r| - 1] == parts[|parts| - 1]
  {
  }

  /**
    The extensions of a last segment `name`: its '.'-separated pieces that are not its partial
    name `Stem(name)`, in order; none when it has no '.'.
   */
  function NameExtensions(name: string): (r: seq<string>)
    ensures ExtensionIdentifier !in name ==> r == []
    ensures forall i :: 0 <= i < |r| ==> r[i] != Stem(name)
  {
    var index := IndexOf(name, ExtensionIdentifier);
    if index == -1 then [] else RemoveAll(Split(name, ExtensionIdentifier), Stem(name))
  }

  /**
    The extensions of a segment with a '.' are its '.'-free pieces other than the partial
    name, and only those.
   */
  lemma NameExtensionsMembers(name: string)
    ensures forall e :: e in NameExtensions(name) <==>
              ExtensionIdentifier in name && e in Split(name, ExtensionIdentifier) && e != Stem(name)
    ensures forall e :: e in NameExtensions(name) ==> ExtensionIdentifier !in e
  {
    if ExtensionIdentifier in name {
      var parts := Split(name, ExtensionIdentifier);
      RemoveAllMembers(parts, Stem(name));
      assert forall e :: e in parts ==> ExtensionIdentifier !in e;
    }
  }

  /** The partial name of a segment is the text before its first '.'. */
  lemma StemBeforeDot(stem: string, rest: string)
    requires ExtensionIdentifier !in stem
    ensures Stem(stem + [ExtensionIdentifier] + rest) == stem
  {
    var name := stem + [ExtensionIdentifier] + rest;
    var r := Stem(name);
    assert name[|stem|] == ExtensionIdentifier;
    assert forall j :: 0 <= j < |r| ==> r[j] == name[j];
    assert forall j :: 0 <= j < |stem| ==> name[j] == stem[j];
  }

  /**
    A segment built as a '.'-free stem and '.'-separated extensions, none of them empty at
    the end or equal to the stem, has exactly those extensions, in order.
   */
  lemma NameExtensionsOfJoin(stem: string, extensions: seq<string>)
    requires ExtensionIdentifier !in stem
    requires |extensions| >= 1 && extensions[|extensions| - 1] != []
    requires forall i :: 0 <= i < |extensions| ==>
               ExtensionIdentifier !in extensions[i] && extensions[i] != stem
    ensures NameExtensions(stem + [ExtensionIdentifier] + Join(extensions, ExtensionIdentifier)) == extensions
  {
    var name := stem + [ExtensionIdentifier] + Join(extensions, ExtensionIdentifier);
    StemBeforeDot(stem, Join(extensions, ExtensionIdentifier));
    SplitAfterHead(stem, extensions, ExtensionIdentifier);
    assert name[|stem|] == ExtensionIdentifier;
    RemoveAllHead(stem, extensions);
  }

  /**
    A '.'-free stem followed by '.'-separated pieces, empty ones included: the extensions are
    those pieces in order, duplicates kept, with the empty pieces at the end (which the split
    drops) and every piece spelled like the stem left out.
   */
  lemma NameExtensionsOfPieces(stem: string, pieces: seq<string>)
    requires ExtensionIdentifier !in stem
    requires forall i :: 0 <= i < |pieces| ==> ExtensionIdentifier !in pieces[i]
    ensures NameExtensions(stem + [ExtensionIdentifier] + Join(pieces, ExtensionIdentifier))
            == RemoveAll(DropTrailingEmpty(pieces), stem)
    ensures pieces != [] && pieces[|pieces| - 1] != [] ==>
              NameExtensions(stem + [ExtensionIdentifier] + Join(pieces, ExtensionIdentifier)) == RemoveAll(pieces, stem)
  {
    var name := stem + [ExtensionIdentifier] + Join(pieces, ExtensionIdentifier);
    var kept := DropTrailingEmpty(pieces);
    StemBeforeDot(stem, Join(pieces, ExtensionIdentifier));
    SplitPieces(stem, pieces, ExtensionIdentifier);
    assert name[|stem|] == ExtensionIdentifier;
    DropTrailingEmptyCons(stem, pieces);
    if !(stem == [] && kept == []) {
      RemoveAllAppend([stem], kept, stem);
      assert RemoveAll([stem], stem) == RemoveAll([], stem);
    }
  }

  /**
    A hidden file: the empty text before the leading '.' is the partial name, and the rest of
    the name is its one extension.
   */
  lemma HiddenFileExtension(rest: string)
    requires rest != [] && ExtensionIdentifier !in rest
    ensures Stem([ExtensionIdentifier] + rest) == []
    ensures NameExtensions([ExtensionIdentifier] + rest) == [rest]
  {
    NameExtensionsOfJoin([], [rest]);
    assert [] + [ExtensionIdentifier] + rest == [ExtensionIdentifier] + rest;
    StemBeforeDot([], rest);
  }

  /** A trailing '.' adds no extension: the empty piece after it is dropped by the split. */
  lemma TrailingDotNoExtension(stem: string)
    requires stem != [] && ExtensionIdentifier !in stem
    ensures NameExtensions(stem + [ExtensionIdentifier]) == []
  {
    var name := stem + [ExtensionIdentifier];
    assert name == stem + [ExtensionIdentifier] + [];
    assert name[|stem|] == ExtensionIdentifier;
    SplitTrailingSeparator(stem, ExtensionIdentifier);
    StemBeforeDot(stem, []);
    assert RemoveAll([stem], stem) == RemoveAll([], stem);
  }

  /**
    An extension spelled like the partial name is filtered out with it, so a name such as
    "a.a" has no extension although its partial and full names differ.
   */
  lemma RepeatedStemNoExtension(stem: string)
    requires stem != [] && ExtensionIdentifier !in stem
    ensures var name := stem + [ExtensionIdentifier] + stem;
            NameExtensions(name) == [] && Stem(name) != name
  {
    var name := stem + [ExtensionIdentifier] + stem;
    assert Join([stem], ExtensionIdentifier) == stem;
    SplitAfterHead(stem, [stem], ExtensionIdentifier);
    StemBeforeDot(stem, stem);
    assert name[|stem|] == ExtensionIdentifier;
    var parts := [stem] + [stem];
    assert parts[..1] == [stem];
    assert RemoveAll([stem], stem) == RemoveAll([], stem);
  }

  /** "a.b.a.c": the second "a" is filtered out with the stem, and "b", "c" keep their order. */
  lemma RepeatedStemKeepsOrder()
    ensures NameExtensions("a.b.a.c") == ["b", "c"]
  {
    var pieces := ["b", "a", "c"];
    OrderPiecesJoin(pieces);
    assert "a" + [ExtensionIdentifier] + "b.a.c" == "a.b.a.c";
    NameExtensionsOfPieces("a", pieces);
    OrderPiecesFilter(pieces);
  }

  /** The pieces of the order example, joined. */
  lemma OrderPiecesJoin(pieces: seq<string>)
    requires pieces == ["b", "a", "c"]
    ensures Join(pieces, ExtensionIdentifier) == "b.a.c"
  {
    var tail := pieces[1..];
    assert tail == ["a", "c"] && tail[1..] == ["c"];
    assert Join(tail, ExtensionIdentifier) == "a" + [ExtensionIdentifier] + "c";
    assert "b" + [ExtensionIdentifier] + ("a" + [ExtensionIdentifier] + "c") == "b.a.c";
  }

  /** The pieces of the order example, with "a" filtered out. */
  lemma OrderPiecesFilter(pieces: seq<string>)
    requires pieces == ["b", "a", "c"]
    ensures RemoveAll(pieces, "a") == ["b", "c"]
  {
    var two: seq<string> := ["b", "a"];
    var one: seq<string> := ["b"];
    assert pieces[..2] == two && two[..1] == one && one[..0] == [];
    assert RemoveAll(one, "a") == RemoveAll([], "a") + one;
    assert RemoveAll(two, "a") == RemoveAll(one, "a");
    assert RemoveAll(pieces, "a") == RemoveAll(two, "a") + ["c"];
  }

  /**
    `extensions(location)`: the extensions of the last segment. The partial basename the
    source filters with is `Stem` of that same segment.
   */
  function Extensions(location: string): (r: seq<string>)
    ensures ExtensionIdentifier !in WithoutSlashes(location) ==> r == []
    ensures forall i :: 0 <= i < |r| ==> r[i] != Basename(location, false, true)
  {
    NameExtensions(WithoutSlashes(location))
  }

  /** The last extension of a last segment, if it has one. */
  function NameExtension(name: string): (r: Option<string>)
    ensures r.None? <==> NameExtensions(name) == []
    ensures r.Some? ==> r.value != Stem(name)
  {
    var extensions := NameExtensions(name);
    if |extensions| == 0 then None else Some(extensions[|extensions| - 1])
  }

  /** `extension(location)`: the last of the extensions, if there is one. */
  function Extension(location: string): (r: Option<string>)
    ensures r.None? <==> Extensions(location) == []
    ensures r.Some? ==> r.value != Basename(location, false, true)
  {
    NameExtension(WithoutSlashes(location))
  }

  /** Every extension, and so the last one, is a '.'-free piece of the last segment. */
  lemma ExtensionsArePieces(location: string)
    ensures var name := WithoutSlashes(location);
            forall e :: e in Extensions(location) ==>
              e in Split(name, ExtensionIdentifier) && ExtensionIdentifier !in e
    ensures Extension(location).Some? ==> Extension(location).value in Extensions(location)
  {
    NameExtensionsMembers(WithoutSlashes(location));
  }

  /**
    A segment that ends in '.' and a non-empty, '.'-free text has that text as its last
    extension, unless it is the partial name itself.
   */
  lemma LastNameExtension(front: string, last: string)
    requires last != [] && ExtensionIdentifier !in last
    requires last != Stem(front + [ExtensionIdentifier] + last)
    ensures var r := NameExtensions(front + [ExtensionIdentifier] + last);
            r != [] && r[|r| - 1] == last
  {
    var name := front + [ExtensionIdentifier] + last;
    assert name[|front|] == ExtensionIdentifier;
    SplitLastPiece(front, ExtensionIdentifier, last);
    var parts := Split(name, ExtensionIdentifier);
    RemoveAllKeepsLast(parts, Stem(name));
    assert IndexOf(name, ExtensionIdentifier) != -1;
    assert NameExtensions(name) == RemoveAll(parts, Stem(name));
  }

  /** `extension(location)` read off the last segment: the text after its last '.'. */
  lemma LastExtension(location: string, front: string, last: string)
    requires WithoutSlashes(location) == front + [ExtensionIdentifier] + last
    requires last != [] && ExtensionIdentifier !in last && last != Basename(location, false, true)
    ensures Extension(location) == Some(last)
  {
    LastNameExtension(front, last);
  }

  /** A location whose partial and full names agree has no extension. */
  lemma SameNamesNoExtensions(location: string)
    requires Basename(location, false, true) == Basename(location, false, false)
    ensures Extensions(location) == [] && Extension(location).None?
  {
  }

  /* -----------------------------------------------------------------
   * ZipEntry overloads of extensions and extension
   * ----------------------------------------------------------------- */

  /** The error every extension query raises for a directory. */
  const DirectoryError: Error := ResourceTypeError("Regular File", "Directory")

  /** `extensions(entry)`: refused for a directory, the extensions of the name otherwise. */
  function EntryExtensions(entry: ZipEntry): (r: Result<seq<string>>)
    ensures r.Err? <==> entry.isDirectory
    ensures r.Err? ==> r.error == DirectoryError
    ensures !entry.isDirectory ==> r == Ok(Extensions(entry.name))
    ensures r.Ok? ==> forall i :: 0 <= i < |r.value| ==> r.value[i] != EntryBasename(entry, true)
  {
    if entry.isDirectory then Err(DirectoryError) else Ok(Extensions(entry.name))
  }

  /** `extension(entry)`: refused for a directory, the last extension of the name otherwise. */
  function EntryExtension(entry: ZipEntry): (r: Result<Option<string>>)
    ensures r.Err? <==> entry.isDirectory
    ensures r.Err? ==> r.error == DirectoryError
    ensures !entry.isDirectory ==> r == Ok(Extension(entry.name))
    ensures r.Ok? ==> (r.value.None? <==> Extensions(entry.name) == [])
    ensures r.Ok? && r.value.Some? ==> r.value.value != EntryBasename(entry, true)
  {
    if entry.isDirectory then Err(DirectoryError) else Ok(Extension(entry.name))
  }

  /* -----------------------------------------------------------------
   * pathOf
   * ----------------------------------------------------------------- */

  /** The runtime-image URI string the `jrt` branch of `pathOf` builds from the decoded parts. */
  function JrtRebuild(info: JrtResourceInfo): (r: string)
    ensures StartsWith(r, JrtSchemePrefix)
    ensures info.moduleName.None? && IsBlank(info.resource) ==> r == JrtSchemePrefix
    ensures info.moduleName.Some? ==> StartsWith(r, JrtSchemePrefix + info.moduleName.value)
  {
    var resource := info.resource;
    var prefix :=
      match info.moduleName
      case None => JrtSchemePrefix
      case Some(m) =>
        JrtSchemePrefix + m
        + (if !IsBlank(resource) && !StartsWith(resource, [FileSeparator]) then [FileSeparator] else []);
    assert prefix[..|JrtSchemePrefix|] == JrtSchemePrefix;
    var r := prefix + (if !IsBlank(resource) then resource else []);
    assert r[..|prefix|] == prefix;
    r
  }

  /** A runtime-image URI splits into the scheme text "jrt:" and its path segments. */
  lemma JrtSections(segments: seq<string>)
    requires |segments| >= 1 && segments[|segments| - 1] != []
    requires forall i :: 0 <= i < |segments| ==> FileSeparator !in segments[i]
    ensures Split(JrtSchemePrefix + Join(segments, FileSeparator), FileSeparator) == ["jrt:"] + segments
  {
    var head := "jrt:";
    assert FileSeparator !in head;
    assert head + [FileSeparator] == JrtSchemePrefix;
    SplitAfterHead(head, segments, FileSeparator);
  }

  /** `jrt:/` alone: one section, so no module and the empty resource. */
  lemma JrtSchemeOnly()
    ensures ExtractJrtInfo(JrtSchemePrefix) == Ok(JrtResourceInfo([], None))
  {
    var head := "jrt:";
    assert FileSeparator !in head;
    assert head + [FileSeparator] == JrtSchemePrefix;
    SplitTrailingSeparator(head, FileSeparator);
  }

  /** What `extractJrtInfo` returns once the URI is known to split into at least two sections. */
  lemma JrtInfoOf(uri: string, sections: seq<string>)
    requires Split(uri, FileSeparator) == sections && |sections| >= 2
    ensures ExtractJrtInfo(uri) ==
              if IsModuleSection(sections)
              then Ok(JrtResourceInfo(Join(sections[2..], FileSeparator), Some(sections[1])))
              else Ok(JrtResourceInfo(Join(sections[1..], FileSeparator), None))
  {
  }

  /** A module and a non-blank resource that does not start with '/' are rebuilt with one '/' between. */
  lemma JrtRebuildModule(m: string, resource: string)
    requires !IsBlank(resource) && resource[0] != FileSeparator
    ensures JrtRebuild(JrtResourceInfo(resource, Some(m))) == JrtSchemePrefix + (m + [FileSeparator] + resource)
  {
  }

  /** A module with an empty resource is rebuilt as the module alone. */
  lemma JrtRebuildModuleOnly(m: string)
    ensures JrtRebuild(JrtResourceInfo([], Some(m))) == JrtSchemePrefix + m
  {
    assert IsBlank([]);
  }

  /** Without a module, a non-blank resource follows the scheme directly. */
  lemma JrtRebuildPlain(resource: string)
    requires !IsBlank(resource)
    ensures JrtRebuild(JrtResourceInfo(resource, None)) == JrtSchemePrefix + resource
  {
  }

  /** A module followed by at least one more segment is rebuilt as the joined segments. */
  lemma JrtRebuildModulePath(segments: seq<string>)
    requires |segments| >= 2 && !IsBlank(segments[1]) && FileSeparator !in segments[1]
    ensures JrtRebuild(JrtResourceInfo(Join(segments[1..], FileSeparator), Some(segments[0])))
            == JrtSchemePrefix + Join(segments, FileSeparator)
  {
    var rest := segments[1..];
    var resource := Join(rest, FileSeparator);
    assert !IsBlank(resource) && resource[0] != FileSeparator by {
      JoinNotBlank(rest, FileSeparator);
      assert rest[0][0] in rest[0];
    }
    JoinCons(segments[0], rest, FileSeparator);
    assert [segments[0]] + rest == segments;
    JrtRebuildModule(segments[0], resource);
  }

  /**
    Decoding a runtime-image URI and rebuilding it gives the same URI back whenever every
    path segment is non-blank and free of '/'.
   */
  lemma JrtRebuildRoundTrip(segments: seq<string>)
    requires forall i :: 0 <= i < |segments| ==> !IsBlank(segments[i]) && FileSeparator !in segments[i]
    ensures var uri := JrtSchemePrefix + Join(segments, FileSeparator);
            ExtractJrtInfo(uri).Ok? && JrtRebuild(ExtractJrtInfo(uri).value) == uri
  {
    if segments == [] {
      JrtSchemeOnly();
      assert IsBlank([]);
      assert JrtSchemePrefix + Join(segments, FileSeparator) == JrtSchemePrefix;
      return;
    }
    var path := Join(segments, FileSeparator);
    var uri := JrtSchemePrefix + path;
    assert segments[|segments| - 1] != [] by { assert !IsBlank(segments[|segments| - 1]); }
    JrtSections(segments);
    var sections := ["jrt:"] + segments;
    JrtInfoOf(uri, sections);
    assert sections[1..] == segments;
    if IsModuleSection(sections) {
      if |segments| == 1 {
        assert sections[2..] == [];
        JrtRebuildModuleOnly(segments[0]);
      } else {
        assert sections[2..] == segments[1..];
        JrtRebuildModulePath(segments);
      }
    } else {
      JoinNotBlank(segments, FileSeparator);
      JrtRebuildPlain(path);
    }
  }

  /** Where a URI leads: a native path, an entry inside a mounted archive, or a runtime-image URI. */
  datatype Location =
    | NativeLocation(uri: string)
    | ArchiveLocation(filesystem: Handle, entry: string)
    | RuntimeImageLocation(uri: string)

  /**
    `pathOf(uri)`. A `jar` URI goes through the filesystem cache (`archive`, `opens` and
    `closeFails` as in `FilesystemCache.Filesystem`) and names the entry after the last '!';
    a `jrt` URI is decoded and rebuilt; other schemes fail.
   */
  method PathOf(cache: FilesystemCache, uri: Uri, archive: ArchiveKey, opens: bool, closeFails: bool)
    returns (r: Result<Location>)
    requires cache.Valid()
    modifies cache
    ensures cache.Valid()
    ensures SchemeOf(uri) == FileScheme ==> r == Ok(NativeLocation(uri.text)) && unchanged(cache)
    ensures SchemeOf(uri) == JarScheme && !opens ==> r == Err(IOFailure) && unchanged(cache)
    ensures SchemeOf(uri) == JarScheme && opens ==>
              var mounted := Handle(old(cache.nextId), archive);
              var entry := ExtractJarLocation(uri.text);
              mounted !in old(cache.isOpen) && cache.nextId == old(cache.nextId) + 1 &&
              match FindEqual(old(cache.filesystems), mounted)
              case Some(cached) =>
                && cache.filesystems == old(cache.filesystems)
                && cache.isOpen == old(cache.isOpen)[mounted := closeFails]
                && r == (if closeFails then Err(IOFailure) else Ok(ArchiveLocation(cached, entry)))
              case None =>
                && cache.filesystems == old(cache.filesystems) + [mounted]
                && cache.isOpen == old(cache.isOpen)[mounted := true]
                && r == Ok(ArchiveLocation(mounted, entry))
    ensures SchemeOf(uri) == JarScheme && r.Ok? ==>
              r.value.ArchiveLocation? && r.value.entry == ExtractJarLocation(uri.text)
              && r.value.filesystem in cache.filesystems && r.value.filesystem.archive == archive
    ensures SchemeOf(uri) == JarScheme && r.Err? ==> r.error == IOFailure
    ensures SchemeOf(uri) == JrtScheme ==>
              unchanged(cache) &&
              match ExtractJrtInfo(uri.text)
              case Ok(info) => r == Ok(RuntimeImageLocation(JrtRebuild(info)))
              case Err(e) => r == Err(e)
    ensures SchemeOf(uri).OtherScheme? ==> r == Err(IOFailure) && unchanged(cache)
    ensures SchemeOf(uri) == NoScheme ==> r == Err(NullPointer) && unchanged(cache)
  {
    match SchemeOf(uri)
    case FileScheme =>
      r := Ok(NativeLocation(uri.text));
    case JarScheme =>
      var fs := cache.Filesystem(uri, archive, opens, closeFails);
      if fs.Err? {
        r := Err(fs.error);
        return;
      }
      r := Ok(ArchiveLocation(fs.value.handle, ExtractJarLocation(uri.text)));
    case JrtScheme =>
      var jrtInfo := ExtractJrtInfo(uri.text);
      if jrtInfo.Err? {
        r := Err(jrtInfo.error);
        return;
      }
      r := Ok(RuntimeImageLocation(JrtRebuild(jrtInfo.value)));
    case OtherScheme(_) =>
      r := Err(IOFailure);
    case NoScheme =>
      r := Err(NullPointer);
  }

  /* -----------------------------------------------------------------
   * Worked cases
   * ----------------------------------------------------------------- */

  /** The last segment of the unit tests' location is its file name. */
  lemma ExampleLastSegment()
    ensures WithoutSlashes("/opt/info/example.local.txt") == "example.local.txt"
  {
    assert "/opt/info/" + "example.local.txt" == "/opt/info/example.local.txt";
    WithoutSlashesAfterSeparator("/opt/info/", "example.local.txt");
  }

  /** The file name of the unit tests has the partial name "example" and two extensions. */
  lemma ExampleNameParts()
    ensures Stem("example.local.txt") == "example"
    ensures NameExtensions("example.local.txt") == ["local", "txt"]
  {
    var extensions := ["local", "txt"];
    assert Join(extensions, ExtensionIdentifier) == "local.txt" by {
      assert extensions[1..] == ["txt"];
    }
    assert "example" + [ExtensionIdentifier] + "local.txt" == "example.local.txt";
    NameExtensionsOfJoin("example", extensions);
    StemBeforeDot("example", "local.txt");
  }

  /** The location of the unit tests: names, extensions and extension. */
  lemma ExampleLocalTxt()
    ensures Basename("/opt/info/example.local.txt", false, true) == "example"
    ensures Basename("/opt/info/example.local.txt", false, false) == "example.local.txt"
    ensures Extensions("/opt/info/example.local.txt") == ["local", "txt"]
    ensures Extension("/opt/info/example.local.txt") == Some("txt")
  {
    ExampleLastSegment();
    ExampleNameParts();
  }
}
