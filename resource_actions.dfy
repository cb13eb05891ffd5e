/**
  `UResourceActions`: the name normaliser shared by every basename and extension query,
  and the two decoders for `jar:` and `jrt:` URIs.
 */
module ResourceActions {
  import opened Outcomes
  import opened JavaText
  import opened FsConstants

  /** The chars of the regex class `[/|\\]`: slash, pipe and backslash. */
  predicate IsSeparator(c: char) {
    c == '/' || c == '|' || c == '\\'
  }

  /** `resourceTypeError`: the IllegalArgumentException naming the expected and the given kind. */
  function ResourceTypeError(expected: string, given: string): (e: Error)
    ensures e.IllegalArgument?
  {
    IllegalArgument("The resource is not a valid \"" + expected + "\" type. \"" + given + "\" given")
  }

  /* -----------------------------------------------------------------
   * resourceWithoutSlashes
   * ----------------------------------------------------------------- */

  /**
    `replaceAll("[/|\\\\]+", "/")` read left to right: every maximal run of separators
    becomes one '/'. `afterSeparator` says that the char before `s` was a separator.
   */
  function CollapseRuns(s: string, afterSeparator: bool): string
  {
    if s == [] then []
    else if IsSeparator(s[0]) then (if afterSeparator then [] else [FileSeparator]) + CollapseRuns(s[1..], true)
    else [s[0]] + CollapseRuns(s[1..], false)
  }

  /** The replacement leaves no pipe and no backslash, and a string without separators as it is. */
  lemma {:induction false} CollapseRunsCanonical(s: string, afterSeparator: bool)
    ensures var r := CollapseRuns(s, afterSeparator);
            '\\' !in r && '|' !in r
            && ((forall i :: 0 <= i < |s| ==> !IsSeparator(s[i])) ==> r == s)
  {
    if s != [] {
      CollapseRunsCanonical(s[1..], IsSeparator(s[0]));
    }
  }

  /** No two '/' stand next to each other. */
  predicate SingleSlashes(r: string) {
    forall i :: 0 <= i < |r| - 1 ==> !(r[i] == FileSeparator && r[i + 1] == FileSeparator)
  }

  /** Each run collapses to one '/', and after a separator the result does not start with '/'. */
  lemma {:induction false} CollapseRunsSingle(s: string, afterSeparator: bool)
    ensures var r := CollapseRuns(s, afterSeparator);
            SingleSlashes(r) && (afterSeparator ==> r == [] || r[0] != FileSeparator)
  {
    if s != [] {
      var state := IsSeparator(s[0]);
      CollapseRunsSingle(s[1..], state);
      var rest := CollapseRuns(s[1..], state);
      var head := if !state then [s[0]] else if afterSeparator then [] else [FileSeparator];
      var r := head + rest;
      assert CollapseRuns(s, afterSeparator) == r;
      assert forall i :: 0 <= i < |rest| ==> r[i + |head|] == rest[i];
      assert head != [] ==> r[0] == head[0];
    }
  }

  /**
    The location with each run of separators replaced by the canonical one: no pipe, no
    backslash, no two '/' in a row, and a location without separators as it was.
   */
  function ReplaceSeparators(location: string): (r: string)
    ensures '\\' !in r && '|' !in r
    ensures SingleSlashes(r)
    ensures (forall i :: 0 <= i < |location| ==> !IsSeparator(location[i])) ==> r == location
  {
    CollapseRunsCanonical(location, false);
    CollapseRunsSingle(location, false);
    CollapseRuns(location, false)
  }

  /** What the `while (cleanLocation.endsWith("/"))` loop leaves. */
  function StripTrailingSlashes(s: string): (r: string)
    ensures |r| <= |s| && r == s[..|r|]
    ensures r == [] || r[|r| - 1] != FileSeparator
    ensures forall i :: |r| <= i < |s| ==> s[i] == FileSeparator
  {
    if s != [] && s[|s| - 1] == FileSeparator then StripTrailingSlashes(s[..|s| - 1]) else s
  }

  /** The text after the last '/', or all of it when there is none. */
  function LastSegment(s: string): (r: string)
    ensures FileSeparator !in r
    ensures |r| <= |s| && r == s[|s| - |r|..]
    ensures |r| < |s| ==> s[|s| - |r| - 1] == FileSeparator
    ensures FileSeparator !in s ==> r == s
  {
    var slashIdx := LastIndexOf(s, FileSeparator);
    s[if slashIdx == -1 then 0 else slashIdx + 1..]
  }

  /** What follows the separator replacement: trim, strip the trailing '/', keep the last segment. */
  function TrimmedLastSegment(replaced: string): string {
    LastSegment(StripTrailingSlashes(Trim(replaced)))
  }

  /** The last segment of a location once separators are unified, trimmed and stripped. */
  function WithoutSlashes(location: string): (r: string)
    ensures forall i :: 0 <= i < |r| ==> !IsSeparator(r[i])
  {
    var replaced := ReplaceSeparators(location);
    LastSegmentHasNoSeparators(replaced);
    TrimmedLastSegment(replaced)
  }

  /** Once pipes and backslashes are gone, no step after the replacement brings one back. */
  lemma LastSegmentHasNoSeparators(replaced: string)
    requires '\\' !in replaced && '|' !in replaced
    ensures var r := TrimmedLastSegment(replaced);
            forall i :: 0 <= i < |r| ==> !IsSeparator(r[i])
  {
    var trimmed := Trim(replaced);
    TrimKeepsAbsent(replaced, '\\');
    TrimKeepsAbsent(replaced, '|');
    var stripped := StripTrailingSlashes(trimmed);
    assert stripped == trimmed[..|stripped|];
    assert '\\' !in stripped && '|' !in stripped;
    var r := LastSegment(stripped);
    assert r == stripped[|stripped| - |r|..];
    assert '\\' !in r && '|' !in r && FileSeparator !in r;
  }

  /** `resourceWithoutSlashes`, with its loop that strips the trailing '/' one at a time. */
  method ResourceWithoutSlashes(location: string) returns (r: string)
    ensures r == WithoutSlashes(location)
  {
    var commonSeparator := FileSeparator;
    var cleanLocation := Trim(ReplaceSeparators(location));
    ghost var trimmed := cleanLocation;
    while cleanLocation != [] && cleanLocation[|cleanLocation| - 1] == commonSeparator
      invariant StripTrailingSlashes(cleanLocation) == StripTrailingSlashes(trimmed)
      decreases |cleanLocation|
    {
      assert StripTrailingSlashes(cleanLocation) == StripTrailingSlashes(cleanLocation[..|cleanLocation| - 1]);
      cleanLocation := cleanLocation[..|cleanLocation| - 1];
    }
    assert StripTrailingSlashes(cleanLocation) == cleanLocation;
    var slashIdx := LastIndexOf(cleanLocation, commonSeparator);
    r := cleanLocation[if slashIdx == -1 then 0 else slashIdx + 1..];
  }

  /** A string of separators alone collapses to one '/', or to nothing after a separator. */
  lemma {:induction false} CollapseSeparatorRun(seps: string, afterSeparator: bool)
    requires forall i :: 0 <= i < |seps| ==> IsSeparator(seps[i])
    ensures CollapseRuns(seps, afterSeparator) ==
            if seps == [] || afterSeparator then [] else [FileSeparator]
  {
    if seps != [] {
      CollapseSeparatorRun(seps[1..], true);
    }
  }

  /** Collapsing a concatenation: the second part continues the run state of the first. */
  lemma {:induction false} CollapseAppend(s: string, t: string, afterSeparator: bool)
    ensures CollapseRuns(s + t, afterSeparator) ==
            CollapseRuns(s, afterSeparator)
            + CollapseRuns(t, if s == [] then afterSeparator else IsSeparator(s[|s| - 1]))
  {
    if s == [] {
      assert s + t == t;
    } else {
      var rest := s[1..];
      var state := IsSeparator(s[0]);
      assert (s + t)[1..] == rest + t;
      CollapseAppend(rest, t, state);
      CollapseStep(s, t, afterSeparator);
      var front := CollapseRuns(rest, state);
      var back := CollapseRuns(t, IsSeparator(s[|s| - 1]));
      assert rest != [] ==> rest[|rest| - 1] == s[|s| - 1];
      var head := if !state then [s[0]] else if afterSeparator then [] else [FileSeparator];
      assert CollapseRuns(rest + t, state) == front + back;
      assert CollapseRuns(s + t, afterSeparator) == head + (front + back);
      assert CollapseRuns(s, afterSeparator) == head + front;
      AppendAssociative(head, front, back);
    }
  }

  /** One step of the collapse, the same on `s` and on `s + t`. */
  lemma CollapseStep(s: string, t: string, afterSeparator: bool)
    requires s != []
    ensures var head := if !IsSeparator(s[0]) then [s[0]] else if afterSeparator then [] else [FileSeparator];
            CollapseRuns(s, afterSeparator) == head + CollapseRuns(s[1..], IsSeparator(s[0]))
            && CollapseRuns(s + t, afterSeparator) == head + CollapseRuns(s[1..] + t, IsSeparator(s[0]))
  {
    assert (s + t)[0] == s[0];
    assert (s + t)[1..] == s[1..] + t;
  }

  /** A location without separators is only trimmed. */
  lemma WithoutSlashesPlain(location: string)
    requires forall i :: 0 <= i < |location| ==> !IsSeparator(location[i])
    ensures WithoutSlashes(location) == Trim(location)
  {
    CollapseRunsCanonical(location, false);
    var trimmed := Trim(location);
    TrimKeepsAbsent(location, FileSeparator);
    assert StripTrailingSlashes(trimmed) == trimmed;
  }

  /**
    Separators appended to a location that does not end in whitespace change nothing:
    they collapse into one trailing '/' that the loop strips again.
   */
  lemma WithoutSlashesTrailingSeparators(location: string, seps: string)
    requires location == [] || !IsTrimmable(location[|location| - 1])
    requires forall i :: 0 <= i < |seps| ==> IsSeparator(seps[i])
    ensures WithoutSlashes(location + seps) == WithoutSlashes(location)
  {
    if seps == [] {
      assert location + seps == location;
    } else {
      var collapsed := ReplaceSeparators(location);
      CollapseAppend(location, seps, false);
      var after := if location == [] then false else IsSeparator(location[|location| - 1]);
      CollapseSeparatorRun(seps, after);
      if after {
        assert ReplaceSeparators(location + seps) == collapsed + [];
        assert collapsed + [] == collapsed;
      } else {
        assert ReplaceSeparators(location + seps) == collapsed + [FileSeparator];
        if location != [] {
          var n := |location|;
          CollapseAppend(location[..n - 1], [location[n - 1]], false);
          assert location[..n - 1] + [location[n - 1]] == location;
        }
        TrailingSlashDropped(collapsed);
      }
    }
  }

  /** The loop strips one appended '/' first and then goes on as on the text before it. */
  lemma StripAppendedSlash(t: string)
    ensures StripTrailingSlashes(t + [FileSeparator]) == StripTrailingSlashes(t)
  {
    var s := t + [FileSeparator];
    assert s[|s| - 1] == FileSeparator;
    assert s[..|s| - 1] == t;
  }

  /** One '/' after a string that ends in a kept char is stripped again. */
  lemma TrailingSlashDropped(replaced: string)
    requires replaced == [] || !IsTrimmable(replaced[|replaced| - 1])
    ensures TrimmedLastSegment(replaced + [FileSeparator]) == TrimmedLastSegment(replaced)
  {
    var trimmed := Trim(replaced);
    TrimAppend(replaced, FileSeparator);
    StripAppendedSlash(trimmed);
    assert StripTrailingSlashes(Trim(replaced + [FileSeparator])) == StripTrailingSlashes(trimmed);
  }

  /** A location that ends in a separator, replaced from the start, ends in '/'. */
  lemma {:induction false} CollapseEndsInSlash(s: string)
    requires s != [] && IsSeparator(s[|s| - 1])
    ensures var r := CollapseRuns(s, false);
            r != [] && r[|r| - 1] == FileSeparator
  {
    var n := |s|;
    var last := [s[n - 1]];
    assert CollapseRuns(last, true) == [];
    assert CollapseRuns(last, false) == [FileSeparator];
    if n > 1 {
      var front := s[..n - 1];
      CollapseAppend(front, last, false);
      assert front + last == s;
      var collapsed := CollapseRuns(front, false);
      if IsSeparator(front[n - 2]) {
        CollapseEndsInSlash(front);
        assert CollapseRuns(s, false) == collapsed + [];
      } else {
        assert CollapseRuns(s, false) == collapsed + [FileSeparator];
      }
    }
  }

  /** The replacement keeps a first char that is not a separator and turns a separator into '/'. */
  lemma CollapseFirst(s: string)
    requires s != []
    ensures var r := CollapseRuns(s, false);
            r != [] && r[0] == if IsSeparator(s[0]) then FileSeparator else s[0]
  {
  }

  /** Only the text after the last '/' is kept. */
  lemma LastSegmentAfterSlash(front: string, name: string)
    requires FileSeparator !in name
    ensures LastSegment(front + [FileSeparator] + name) == name
  {
    var s := front + [FileSeparator] + name;
    LastIndexOfBeforeTail(front, FileSeparator, name);
    assert s[|front| + 1..] == name;
  }

  /** Trimming and stripping leave a text alone whose ends are kept chars; the last segment stays. */
  lemma TrimmedLastSegmentAfterSlash(front: string, name: string)
    requires name != [] && !IsTrimmable(name[|name| - 1]) && name[|name| - 1] != FileSeparator
    requires FileSeparator !in name
    requires !IsTrimmable((front + [FileSeparator] + name)[0])
    ensures TrimmedLastSegment(front + [FileSeparator] + name) == name
  {
    var replaced := front + [FileSeparator] + name;
    assert Trim(replaced) == replaced;
    assert StripTrailingSlashes(replaced) == replaced;
    LastSegmentAfterSlash(front, name);
  }

  /**
    A location made of a directory part that ends in a separator and a name without any:
    the name alone is left, when neither end of the location is whitespace.
   */
  lemma WithoutSlashesAfterSeparator(directory: string, name: string)
    requires directory != [] && !IsTrimmable(directory[0]) && IsSeparator(directory[|directory| - 1])
    requires name != [] && !IsTrimmable(name[|name| - 1])
    requires forall i :: 0 <= i < |name| ==> !IsSeparator(name[i])
    ensures WithoutSlashes(directory + name) == name
  {
    var collapsed := CollapseRuns(directory, false);
    CollapseAppend(directory, name, false);
    CollapseRunsCanonical(name, true);
    CollapseEndsInSlash(directory);
    CollapseFirst(directory);
    var front := collapsed[..|collapsed| - 1];
    assert collapsed == front + [FileSeparator];
    assert forall i :: 0 <= i < |name| ==> name[i] != FileSeparator;
    TrimmedLastSegmentAfterSlash(front, name);
  }

  /* -----------------------------------------------------------------
   * extractJarLocation
   * ----------------------------------------------------------------- */

  /** The entry path of a `jar:` URI string: the text after its last '!'. */
  function ExtractJarLocation(uri: string): (r: string)
    ensures JarResourceSeparator !in uri ==> r == [FileSeparator]
    ensures uri != [] && uri[|uri| - 1] == JarResourceSeparator ==> r == [JarResourceSeparator]
    ensures JarResourceSeparator in uri && uri[|uri| - 1] != JarResourceSeparator ==>
              r != [] && JarResourceSeparator !in r && |r| < |uri|
              && r == uri[|uri| - |r|..] && uri[|uri| - |r| - 1] == JarResourceSeparator
  {
    var index := LastIndexOf(uri, JarResourceSeparator);
    if index == -1 then [FileSeparator]
    else
      var startIdx := index + 1;
      if startIdx >= |uri| then uri[index..] else uri[startIdx..]
  }

  /** Joining an archive location and an entry path with '!' and extracting gives the entry back. */
  lemma JarLocationRoundTrip(archive: string, entry: string)
    requires entry != [] && JarResourceSeparator !in entry
    ensures ExtractJarLocation(archive + [JarResourceSeparator] + entry) == entry
  {
    var uri := archive + [JarResourceSeparator] + entry;
    var index := LastIndexOf(uri, JarResourceSeparator);
    assert uri[|archive|] == JarResourceSeparator;
    assert uri[index + 1..] == entry;
  }

  /* -----------------------------------------------------------------
   * extractJrtInfo
   * ----------------------------------------------------------------- */

  /** `JrtResourceInfo`: a resource path and the module that may hold it. */
  datatype JrtResourceInfo = JrtResourceInfo(resource: string, moduleName: Option<string>)

  /**
    Section 1 is taken as a module name only when it is non-blank and dot-free: a dotted
    module name such as "java.base" is not one, nor is an empty section.
   */
  predicate IsModuleSection(sections: seq<string>): (r: bool)
    ensures |sections| <= 1 ==> !r
    ensures |sections| > 1 && ExtensionIdentifier in sections[1] ==> !r
    ensures r ==> sections[1] != []
  {
    |sections| > 1 && ExtensionIdentifier !in sections[1] && !IsBlank(sections[1])
  }

  /**
    `extractJrtInfo` on the URI's string form. `Arrays.copyOfRange` rejects a start index
    past the end, which happens only when splitting left no section at all.
   */
  function ExtractJrtInfo(uri: string): (r: Result<JrtResourceInfo>)
    ensures r.Err? <==> uri != [] && forall i :: 0 <= i < |uri| ==> uri[i] == FileSeparator
    ensures r.Ok? && r.value.moduleName.Some? ==>
              var m := r.value.moduleName.value;
              !IsBlank(m) && ExtensionIdentifier !in m && FileSeparator !in m
  {
    var uriSections := Split(uri, FileSeparator);
    var moduleName := if IsModuleSection(uriSections) then Some(uriSections[1]) else None;
    var fromIndex := if moduleName.None? then 1 else 2;
    SplitEmpty(uri, FileSeparator);
    if fromIndex > |uriSections| then Err(IllegalArgument("1 > 0"))
    else Ok(JrtResourceInfo(Join(uriSections[fromIndex..], FileSeparator), moduleName))
  }

  /**
    The decoding loses nothing: the sections after the scheme, joined again, are the module
    name followed by the resource path.
   */
  lemma JrtInfoLossless(uri: string)
    requires ExtractJrtInfo(uri).Ok?
    ensures var info := ExtractJrtInfo(uri).value;
            var tail := Split(uri, FileSeparator)[1..];
            Join(tail, FileSeparator) ==
              match info.moduleName
              case None => info.resource
              case Some(m) => if |tail| == 1 then m else m + [FileSeparator] + info.resource
  {
    var sections := Split(uri, FileSeparator);
    SplitEmpty(uri, FileSeparator);
    var tail := sections[1..];
    if IsModuleSection(sections) && |tail| > 1 {
      assert tail[1..] == sections[2..];
    }
  }
}
