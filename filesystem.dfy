/**
  `UFilesystem`: the process-wide cache of mounted archive filesystems. A `jar:` URI is
  mounted afresh on every call; a fresh handle equal to a cached one is closed again and
  the cached one is handed out, so the cache never holds two equal handles.
 */
module Filesystem {
  import opened Outcomes
  import opened Uris

  /** The backing archive of a mount, which the model takes the provider's `equals` to compare. */
  type ArchiveKey = string

  /** A filesystem handle: the identity of the object and the archive it mounts. */
  datatype Handle = Handle(id: nat, archive: ArchiveKey)

  /** `FileSystem.equals` as the model assumes it for mounted archives: both mount the same archive. */
  predicate SameFilesystem(a: Handle, b: Handle) {
    a.archive == b.archive
  }

  /** What `filesystem(uri)` returns: the platform's default filesystem or a mounted archive. */
  datatype FileSystemRef = DefaultFileSystem | Mounted(handle: Handle)

  /** No two handles are equal: the sequence is a set under `equals`. */
  predicate DistinctFilesystems(hs: seq<Handle>) {
    forall i, j :: 0 <= i < j < |hs| ==> !SameFilesystem(hs[i], hs[j])
  }

  /** `filesystems.stream().filter(fs::equals).findFirst()`. */
  function FindEqual(hs: seq<Handle>, fs: Handle): (r: Option<Handle>)
    ensures r.None? <==> forall i :: 0 <= i < |hs| ==> !SameFilesystem(fs, hs[i])
    ensures r.Some? ==> r.value in hs && SameFilesystem(fs, r.value)
  {
    if hs == [] then None
    else if SameFilesystem(fs, hs[0]) then Some(hs[0])
    else FindEqual(hs[1..], fs)
  }

  /** The handles `closeFilesystemsIf` leaves in place: those `action` rejects, in order. */
  function Unselected(hs: seq<Handle>, action: Handle -> bool): (r: seq<Handle>)
    ensures forall h :: h in r <==> h in hs && !action(h)
    ensures |r| <= |hs|
  {
    if hs == [] then []
    else (if action(hs[0]) then [] else [hs[0]]) + Unselected(hs[1..], action)
  }

  /** Filtering a concatenation filters each part. */
  lemma {:induction false} UnselectedAppend(a: seq<Handle>, b: seq<Handle>, action: Handle -> bool)
    ensures Unselected(a + b, action) == Unselected(a, action) + Unselected(b, action)
  {
    if a != [] {
      assert (a + b)[1..] == a[1..] + b;
      UnselectedAppend(a[1..], b, action);
    } else {
      assert a + b == b;
    }
  }

  /** Filtering keeps handles pairwise unequal. */
  lemma {:induction false} UnselectedDistinct(hs: seq<Handle>, action: Handle -> bool)
    requires DistinctFilesystems(hs)
    ensures DistinctFilesystems(Unselected(hs, action))
  {
    if hs != [] {
      var tail := hs[1..];
      UnselectedDistinct(tail, action);
      var rest := Unselected(tail, action);
      forall h | h in rest ensures !SameFilesystem(hs[0], h) {
        var k :| 0 <= k < |tail| && tail[k] == h;
        assert h == hs[k + 1];
      }
    }
  }

  /** The action of `closeFilesystems`: select every handle. */
  function Always(h: Handle): bool {
    true
  }

  /** Selecting every handle leaves none. */
  lemma UnselectedAll(hs: seq<Handle>)
    ensures Unselected(hs, Always) == []
  {
    if Unselected(hs, Always) != [] {
      assert Unselected(hs, Always)[0] in Unselected(hs, Always);
    }
  }

  /**
    The open states once the selected handles among `processed` have been closed, a
    close that fails leaving its handle as it was.
   */
  function ClosedAmong(isOpen: map<Handle, bool>, processed: seq<Handle>,
                       action: Handle -> bool, closeFails: Handle -> bool): (r: map<Handle, bool>)
    ensures r.Keys == isOpen.Keys
    ensures forall h :: h in r ==>
              r[h] == if h in processed && action(h) then isOpen[h] && closeFails(h) else isOpen[h]
  {
    map h | h in isOpen :: if h in processed && action(h) then isOpen[h] && closeFails(h) else isOpen[h]
  }

  /** `current` is `isOpen` once the selected handles among `processed` have been closed. */
  ghost predicate ClosedState(current: map<Handle, bool>, isOpen: map<Handle, bool>, processed: seq<Handle>,
                              action: Handle -> bool, closeFails: Handle -> bool) {
    && current.Keys == isOpen.Keys
    && forall h :: h in current ==>
         current[h] == if h in processed && action(h) then isOpen[h] && closeFails(h) else isOpen[h]
  }

  /**
    Closing one more handle, if selected and still open, extends the closed handles by it.
    A handle met twice changes nothing the second time: a failed close leaves it open
    and it is closed again with the same outcome.
   */
  lemma CloseStep(isOpen: map<Handle, bool>, processed: seq<Handle>, fs: Handle,
                  current: map<Handle, bool>, next: map<Handle, bool>,
                  action: Handle -> bool, closeFails: Handle -> bool)
    requires ClosedState(current, isOpen, processed, action, closeFails)
    requires fs in current
    requires next == if action(fs) && current[fs] then current[fs := closeFails(fs)] else current
    ensures ClosedState(next, isOpen, processed + [fs], action, closeFails)
  {
    forall h | h in next
      ensures next[h] == if h in processed + [fs] && action(h) then isOpen[h] && closeFails(h) else isOpen[h]
    {
      assert h in processed + [fs] <==> h in processed || h == fs;
    }
  }

  /** Once every handle is processed the state is the one `ClosedAmong` describes. */
  lemma CloseDone(isOpen: map<Handle, bool>, processed: seq<Handle>, current: map<Handle, bool>,
                  action: Handle -> bool, closeFails: Handle -> bool)
    requires ClosedState(current, isOpen, processed, action, closeFails)
    ensures current == ClosedAmong(isOpen, processed, action, closeFails)
  {
  }

  /**
    The state of the iterator loop: the original set is the handles visited so far followed
    by those from the cursor `i` on, and before the cursor stand the visited ones kept.
   */
  ghost predicate Scanned(current: seq<Handle>, i: nat, original: seq<Handle>, visited: seq<Handle>,
                          action: Handle -> bool) {
    && i <= |current|
    && original == visited + current[i..]
    && current[..i] == Unselected(visited, action)
  }

  /** A selected handle at the cursor is removed; the cursor stays. */
  lemma ScanRemove(current: seq<Handle>, i: nat, original: seq<Handle>, visited: seq<Handle>,
                   action: Handle -> bool)
    requires Scanned(current, i, original, visited, action) && i < |current| && action(current[i])
    ensures Scanned(current[..i] + current[i + 1..], i, original, visited + [current[i]], action)
  {
    var fs := current[i];
    var next := current[..i] + current[i + 1..];
    assert next[..i] == current[..i];
    assert next[i..] == current[i + 1..];
    assert current[i..] == [fs] + current[i + 1..];
    assert original == (visited + [fs]) + next[i..];
    UnselectedAppend(visited, [fs], action);
    assert Unselected([fs], action) == [];
  }

  /** A handle at the cursor that is not selected is stepped over. */
  lemma ScanSkip(current: seq<Handle>, i: nat, original: seq<Handle>, visited: seq<Handle>,
                 action: Handle -> bool)
    requires Scanned(current, i, original, visited, action) && i < |current| && !action(current[i])
    ensures Scanned(current, i + 1, original, visited + [current[i]], action)
  {
    var fs := current[i];
    assert current[i..] == [fs] + current[i + 1..];
    assert original == (visited + [fs]) + current[i + 1..];
    UnselectedAppend(visited, [fs], action);
    assert Unselected([fs], action) == [fs];
    assert current[..i + 1] == current[..i] + [fs];
  }

  /** When the iterator is exhausted the set is the kept handles of the original one. */
  lemma ScanDone(current: seq<Handle>, i: nat, original: seq<Handle>, visited: seq<Handle>, action: Handle -> bool)
    requires Scanned(current, i, original, visited, action) && i == |current|
    ensures visited == original && current == Unselected(original, action)
  {
    assert current[..i] == current;
    assert current[i..] == [];
  }

  /** The cache of mounted archives, with the open state of every handle it has opened. */
  class FilesystemCache {
    /** The `filesystems` set, in the order its iterator visits it. */
    var filesystems: seq<Handle>
    /** `isOpen()` of every handle opened so far. */
    var isOpen: map<Handle, bool>
    /** The identity the next opened handle receives. */
    var nextId: nat

    /** No two cached handles are equal; every cached handle has been opened; identities are fresh. */
    ghost predicate Valid()
      reads this
    {
      && DistinctFilesystems(filesystems)
      && (forall h :: h in filesystems ==> h in isOpen)
      && (forall h :: h in isOpen ==> h.id < nextId)
    }

    constructor ()
      ensures Valid()
      ensures filesystems == [] && isOpen == map[]
    {
      filesystems := [];
      isOpen := map[];
      nextId := 0;
    }

    /**
      `filesystem(uri)`. For `jar` the provider mounts `archive` afresh (`opens` says whether
      that succeeds); a fresh handle equal to a cached one is closed again (`closeFails` says
      whether that close throws) and the cached one is returned.
     */
    method Filesystem(uri: Uri, archive: ArchiveKey, opens: bool, closeFails: bool)
      returns (r: Result<FileSystemRef>)
      requires Valid()
      modifies this
      ensures Valid()
      ensures SchemeOf(uri) == FileScheme ==> r == Ok(DefaultFileSystem) && unchanged(this)
      ensures SchemeOf(uri) == JrtScheme || SchemeOf(uri).OtherScheme? ==> r == Err(IOFailure) && unchanged(this)
      ensures SchemeOf(uri) == NoScheme ==> r == Err(NullPointer) && unchanged(this)
      ensures SchemeOf(uri) == JarScheme && !opens ==> r == Err(IOFailure) && unchanged(this)
      ensures SchemeOf(uri) == JarScheme && opens ==>
                var mounted := Handle(old(nextId), archive);
                mounted !in old(isOpen) && nextId == old(nextId) + 1 &&
                match FindEqual(old(filesystems), mounted)
                case Some(cached) =>
                  && filesystems == old(filesystems)
                  && isOpen == old(isOpen)[mounted := closeFails]
                  && r == (if closeFails then Err(IOFailure) else Ok(Mounted(cached)))
                case None =>
                  && filesystems == old(filesystems) + [mounted]
                  && isOpen == old(isOpen)[mounted := true]
                  && r == Ok(Mounted(mounted))
      ensures r.Ok? && r.value.Mounted? ==>
                r.value.handle in filesystems && r.value.handle.archive == archive
    {
      match SchemeOf(uri)
      case FileScheme =>
        r := Ok(DefaultFileSystem);
      case JarScheme =>
        if !opens {
          r := Err(IOFailure);
          return;
        }
        var fs := Handle(nextId, archive);
        nextId := nextId + 1;
        isOpen := isOpen[fs := true];
        var found := FindEqual(filesystems, fs);
        if found.Some? {
          // fs.close(): a failure propagates and leaves the fresh handle open
          if closeFails {
            r := Err(IOFailure);
            return;
          }
          isOpen := isOpen[fs := false];
          r := Ok(Mounted(found.value));
          return;
        }
        filesystems := filesystems + [fs];
        r := Ok(Mounted(fs));
      case JrtScheme =>
        r := Err(IOFailure);
      case OtherScheme(_) =>
        r := Err(IOFailure);
      case NoScheme =>
        r := Err(NullPointer);
    }

    /**
      `closeFilesystemsIf(action)`: every cached handle `action` selects is closed if still
      open (a failing close, `closeFails`, is ignored) and removed through the iterator.
     */
    method CloseFilesystemsIf(action: Handle -> bool, closeFails: Handle -> bool)
      requires Valid()
      modifies this
      ensures Valid()
      ensures filesystems == Unselected(old(filesystems), action)
      ensures isOpen == ClosedAmong(old(isOpen), old(filesystems), action, closeFails)
      ensures nextId == old(nextId)
    {
      ghost var original, states := filesystems, isOpen;
      var i: nat := 0;
      ghost var visited: seq<Handle> := [];
      assert filesystems[0..] == filesystems;
      while i < |filesystems|
        invariant Scanned(filesystems, i, original, visited, action)
        invariant ClosedState(isOpen, states, visited, action, closeFails)
        invariant forall h :: h in original ==> h in states
        invariant nextId == old(nextId)
        decreases |filesystems| - i
      {
        ghost var fs := filesystems[i];
        i := CloseNext(i, original, states, visited, action, closeFails);
        visited := visited + [fs];
      }
      ScanDone(filesystems, i, original, visited, action);
      CloseDone(states, original, isOpen, action, closeFails);
      UnselectedDistinct(original, action);
    }

    /**
      One turn of the iterator loop of `closeFilesystemsIf`: the handle at `i`, if `action`
      selects it, is closed when still open and removed; otherwise the iterator moves past it.
     */
    method CloseNext(i: nat, ghost original: seq<Handle>, ghost states: map<Handle, bool>, ghost visited: seq<Handle>,
                     action: Handle -> bool, closeFails: Handle -> bool) returns (next: nat)
      requires Scanned(filesystems, i, original, visited, action) && i < |filesystems|
      requires ClosedState(isOpen, states, visited, action, closeFails)
      requires forall h :: h in original ==> h in states
      modifies this
      ensures Scanned(filesystems, next, original, visited + [old(filesystems)[i]], action)
      ensures ClosedState(isOpen, states, visited + [old(filesystems)[i]], action, closeFails)
      ensures nextId == old(nextId)
      ensures |filesystems| - next < |old(filesystems)| - i
    {
      var fs := filesystems[i];
      assert fs in original;
      ghost var openBefore := isOpen;
      next := i;
      if action(fs) {
        ScanRemove(filesystems, i, original, visited, action);
        if isOpen[fs] {
          // fs.close(); an IOException is swallowed
          isOpen := isOpen[fs := closeFails(fs)];
        }
        filesystems := filesystems[..i] + filesystems[i + 1..];
      } else {
        ScanSkip(filesystems, i, original, visited, action);
        next := i + 1;
      }
      CloseStep(states, visited, fs, openBefore, isOpen, action, closeFails);
    }

    /** `closeFilesystems`: close and remove every cached handle. */
    method CloseFilesystems(closeFails: Handle -> bool)
      requires Valid()
      modifies this
      ensures Valid()
      ensures filesystems == []
      ensures nextId == old(nextId) && isOpen.Keys == old(isOpen).Keys
      ensures forall h :: h in isOpen ==>
                isOpen[h] == if h in old(filesystems) then old(isOpen)[h] && closeFails(h) else old(isOpen)[h]
    {
      CloseFilesystemsIf(Always, closeFails);
      UnselectedAll(old(filesystems));
    }
  }

  /**
    Two `jar:` URIs that name the same archive, mounted one after the other on an empty
    cache: both calls return the same handle, and it is the only cached and open one.
   */
  method MountSameArchiveTwice(first: Uri, second: Uri, archive: ArchiveKey)
    returns (cache: FilesystemCache, a: Result<FileSystemRef>, b: Result<FileSystemRef>)
    requires SchemeOf(first) == JarScheme && SchemeOf(second) == JarScheme
    ensures fresh(cache) && cache.Valid()
    ensures a.Ok? && a.value.Mounted? && b == a
    ensures cache.filesystems == [a.value.handle]
    ensures forall h :: h in cache.isOpen ==> (cache.isOpen[h] <==> h == a.value.handle)
  {
    cache := new FilesystemCache();
    a := cache.Filesystem(first, archive, true, false);
    b := cache.Filesystem(second, archive, true, false);
  }
}
