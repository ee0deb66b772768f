/**
 * The in-memory filesystem: a map of nodes with a cached byte total, handles,
 * one-shot stream readers and write sinks. Every operation is tied to the path
 * it is given, says exactly when it succeeds, and keeps the quotas.
 */
module MemFs {
  import opened Wrappers
  import opened Paths
  import opened Utf8
  import opened FsSpec

  datatype FsError =
    | NotFound(path: string) | AlreadyExists(path: string) | NotADirectory(path: string)
    | IsADirectory(path: string) | PermissionDenied(path: string)
    | InodeLimit | FileSizeLimit | QuotaExceeded | TooManyLinks | DirectoryNotEmpty | InvalidHandle

  datatype Source = Path(path: string) | Virtual(content: seq<Byte>)

  datatype OpenFile = OpenFile(source: Source, opts: OpenOptions)

  /** The nodes once a sink is ready: the file is there, and empty unless it is appended to. */
  ghost function Sunk(m: Nodes, p: string, append: bool): (r: Nodes) {
    if p !in m then WithDirs(m, Ancestors(p))[p := File([])]
    else if append then m
    else m[p := File([])]
  }

  // ----- why an operation fails -----

  ghost function FileFailure(m: Nodes, p: string, create: bool): (e: FsError) {
    if p in m then if m[p].Dir? then IsADirectory(p) else PermissionDenied(p)
    else if create then InodeLimit else NotFound(p)
  }

  ghost function OpenFailure(m: Nodes, path: string, create: bool): (e: FsError) {
    if Resolves(m, path) then FileFailure(m, Target(m, path), create) else TooManyLinks
  }

  function ChunkFailure(m: Nodes, path: string, append: bool, data: seq<Byte>): (e: FsError) {
    if path !in m || !m[path].File? then NotFound(path)
    else if (if append then |m[path].data| else 0) + |data| > MAX_FILE_SIZE then FileSizeLimit
    else QuotaExceeded
  }

  ghost predicate ExplainsParents(e: FsError, m: Nodes, parts: seq<string>) {
    match e
    case NotADirectory(q) => q in ProperPrefixes(parts) && q in m && !m[q].Dir?
    case InodeLimit => |m.Keys + ProperPrefixes(parts)| > MAX_INODES
    case _ => false
  }

  /** The first `i` directories are there and nothing else stood in the way, or the outcome says what did. */
  ghost predicate LinkPrepared(before: Nodes, now: Nodes, parts: seq<string>, i: nat, r: Result<(), FsError>)
    requires i <= |parts|
  {
    if r.Ok? then AllDirs(before, PrefixPaths(parts, i)) && now == WithDirs(before, PrefixPaths(parts, i))
    else AddsDirs(before, now) && LinkBlocked(before, parts) && ExplainsParents(r.error, before, parts)
  }

  function InstallFailure(m: Nodes, p: string): (e: FsError) {
    if p in m && m[p].Dir? then IsADirectory(p) else InodeLimit
  }

  /** A link is refused for what stands at its path, for an ancestor that is no directory, or for want of room. */
  ghost predicate ExplainsLink(e: FsError, m: Nodes, p: string) {
    match e
    case AlreadyExists(q) => q == p && p in m
    case NotADirectory(q) => p !in m && q in Ancestors(p) && q in m && !m[q].Dir?
    case InodeLimit => p !in m && !Room(m, p)
    case _ => false
  }

  class MemoryFs {
    var nodes: Nodes
    var modes: map<string, nat>
    var virtualReaders: map<string, seq<Byte>>
    var handles: map<nat, OpenFile>
    var nextHandle: nat
    var totalBytes: nat

    ghost predicate Valid()
      reads this
    {
      WithinQuota(nodes, totalBytes) && forall h :: h in handles ==> h < nextHandle
    }

    /** How much more the cached total charges than the files hold. */
    ghost function Drift(): (d: int)
      reads this
    {
      totalBytes - Sum(nodes)
    }

    constructor ()
      ensures Valid() && Drift() == 0 && nodes == map["/" := Dir]
      ensures modes == map[] && virtualReaders == map[] && handles == map[]
    {
      nodes := map["/" := Dir];
      modes, virtualReaders, handles := map[], map[], map[];
      nextHandle, totalBytes := 1, 0;
      new;
      SumPut(map[], "/", Dir);
      assert nodes == map[]["/" := Dir];
    }

    // ----- helpers -----

    /** Follows links until something that is no link, at most 40 times. */
    method ResolveNormalized(norm: string) returns (r: Result<string, FsError>)
      ensures r.Ok? ==>
                && !IsLink(nodes, r.value)
                && exists n: nat :: n < MAX_SYMLINK_DEPTH && r.value == Follow(nodes, norm, n)
      ensures r.Err? <==> forall n: nat :: n < MAX_SYMLINK_DEPTH ==> IsLink(nodes, Follow(nodes, norm, n))
      ensures r.Err? ==> r.error == TooManyLinks
    {
      var current := norm;
      for i := 0 to MAX_SYMLINK_DEPTH
        invariant current == Follow(nodes, norm, i)
        invariant forall n: nat :: n < i ==> IsLink(nodes, Follow(nodes, norm, n))
      {
        if current !in nodes || !nodes[current].Symlink? { return Ok(current); }
        current := NextPath(current, nodes[current].target);
      }
      return Err(TooManyLinks);
    }

    method NextPath(link: string, target: string) returns (path: string)
      ensures path == LinkTarget(link, target)
    {
      if target != [] && target[0] == '/' {
        path := NormalizePath(target);
      } else {
        path := NormalizePath(ParentText(link) + "/" + target);
      }
    }

    /** The place a path leads to. */
    method Locate(path: string) returns (r: Result<string, FsError>)
      ensures r.Ok? <==> Resolves(nodes, path)
      ensures r.Ok? ==> r.value == Target(nodes, path)
      ensures r.Err? ==> r.error == TooManyLinks
    {
      var norm := NormalizePath(path);
      r := ResolveNormalized(norm);
      if r.Ok? {
        ghost var n: nat :| n < MAX_SYMLINK_DEPTH && r.value == Follow(nodes, norm, n);
        ResolvesWithinLimit(nodes, path, n);
      } else {
        assert IsLink(nodes, Follow(nodes, norm, MAX_SYMLINK_DEPTH - 1));
      }
    }

    method AllocHandle(f: OpenFile) returns (h: nat)
      requires Valid()
      modifies this`handles, this`nextHandle
      ensures Valid() && h !in old(handles) && handles == old(handles)[h := f]
    {
      h := nextHandle;
      nextHandle := nextHandle + 1;
      handles := handles[h := f];
    }

    /** Adds one directory to those already added, unless it is there or no inode is left. */
    method AddDir(dir: string, ghost before: Nodes, ghost dirs: set<string>) returns (ok: bool)
      requires Valid() && nodes == WithDirs(before, dirs)
      modifies this`nodes
      ensures Valid() && Drift() == old(Drift())
      ensures ok <==> |before.Keys + (dirs + {dir})| <= MAX_INODES
      ensures nodes == if ok then WithDirs(before, dirs + {dir}) else old(nodes)
    {
      if dir in nodes {
        AddingKnownDir(before, dirs, dir);
        assert before.Keys + (dirs + {dir}) == nodes.Keys;
        return true;
      }
      CountNewDir(before.Keys, dirs, dir);
      if |nodes| >= MAX_INODES { return false; }
      AddingNewDir(before, dirs, dir);
      PutKeepsQuota(nodes, totalBytes, dir, Dir);
      nodes := nodes[dir := Dir];
      return true;
    }

    /** Creates the missing directories above `path`; fails exactly when they do not fit. */
    method EnsureParents(path: string) returns (ok: bool)
      requires Valid()
      modifies this`nodes
      ensures Valid() && Drift() == old(Drift())
      ensures ok <==> |old(nodes).Keys + Ancestors(path)| <= MAX_INODES
      ensures ok ==> nodes == WithDirs(old(nodes), Ancestors(path))
      ensures !ok ==> AddsDirs(old(nodes), nodes)
    {
      var parts := NonEmpty(Split(path));
      ok := EnsurePrefixes(parts);
    }

    /** The directory of the first `i + 1` parts, when those before it are there. */
    method AddPrefix(dir: string, ghost parts: seq<string>, ghost i: nat, ghost before: Nodes) returns (ok: bool)
      requires Valid() && i + 1 < |parts| && dir == PrefixPath(parts, i + 1)
      requires Prepared(before, nodes, parts, i, true)
      modifies this`nodes
      ensures Valid() && Drift() == old(Drift())
      ensures Prepared(before, nodes, parts, i + 1, ok)
    {
      PrefixPathsGrow(parts, i);
      ok := AddDir(dir, before, PrefixPaths(parts, i));
      if !ok {
        AddingDirs(before, PrefixPaths(parts, i));
        PrefixesCount(before, parts, i + 1);
      }
    }

    method EnsurePrefixes(parts: seq<string>) returns (ok: bool)
      requires Valid()
      modifies this`nodes
      ensures Valid() && Drift() == old(Drift())
      ensures ok <==> |old(nodes).Keys + ProperPrefixes(parts)| <= MAX_INODES
      ensures ok ==> nodes == WithDirs(old(nodes), ProperPrefixes(parts))
      ensures !ok ==> AddsDirs(old(nodes), nodes)
    {
      ghost var before := nodes;
      var i: nat;
      ok, i := AddPrefixes(parts);
      AllPrepared(before, nodes, parts, i, ok);
    }

    method AddPrefixes(parts: seq<string>) returns (ok: bool, i: nat)
      requires Valid()
      modifies this`nodes
      ensures Valid() && Drift() == old(Drift())
      ensures (i == 0 || i < |parts|) && (ok ==> |parts| <= i + 1) && Prepared(old(nodes), nodes, parts, i, ok)
    {
      ghost var before, drift := nodes, Drift();
      var current := "";
      i, ok := 0, true;
      StartPrepared(nodes, parts);
      while ok && i + 1 < |parts|
        invariant i == 0 || i < |parts|
        invariant Valid() && Drift() == drift
        invariant current == PrefixPath(parts, i)
        invariant Prepared(before, nodes, parts, i, ok)
        decreases ok, |parts| - i
      {
        current := current + "/" + parts[i];
        ok := AddPrefix(current, parts, i, before);
        i := i + 1;
      }
    }

    /** Creates an empty file at an unused path. */
    method CreateFile(norm: string) returns (ok: bool)
      requires Valid() && norm !in nodes
      modifies this`nodes
      ensures Valid() && Drift() == old(Drift())
      ensures ok <==> Room(old(nodes), norm)
      ensures ok ==> nodes == WithDirs(old(nodes), Ancestors(norm))[norm := File([])]
      ensures !ok ==> AddsDirs(old(nodes), nodes)
    {
      ok := EnsureParents(norm);
      if ok {
        AddingDirs(old(nodes), Ancestors(norm));
        ok := |nodes| < MAX_INODES;
        if ok {
          assert SizeAt(nodes, norm) == 0;
          PutKeepsQuota(nodes, totalBytes, norm, File([]));
          nodes := nodes[norm := File([])];
        }
      }
    }

    /** Empties an existing file and gives its bytes back. */
    method Truncate(norm: string)
      requires Valid() && norm in nodes && nodes[norm].File?
      modifies this`nodes, this`totalBytes
      ensures Valid() && Drift() == old(Drift())
      ensures nodes == old(nodes)[norm := File([])] && totalBytes == old(totalBytes) - SizeAt(old(nodes), norm)
    {
      PutKeepsQuota(nodes, totalBytes, norm, File([]));
      totalBytes := Minus(totalBytes, |nodes[norm].data|);
      nodes := nodes[norm := File([])];
    }

    /** Hands a stream reader over to a new handle; its placeholder disappears, and stays charged. */
    method OpenVirtual(norm: string, opts: OpenOptions) returns (h: nat)
      requires Valid() && norm in virtualReaders
      modifies this`nodes, this`virtualReaders, this`handles, this`nextHandle
      ensures Valid() && Drift() == old(Drift()) + SizeAt(old(nodes), norm)
      ensures nodes == old(nodes) - {norm} && virtualReaders == old(virtualReaders) - {norm}
      ensures h !in old(handles)
      ensures handles == old(handles)[h := OpenFile(Virtual(old(virtualReaders)[norm]), opts)]
    {
      var content := virtualReaders[norm];
      virtualReaders := virtualReaders - {norm};
      DropKeepsQuota(nodes, totalBytes, norm);
      nodes := nodes - {norm};
      h := AllocHandle(OpenFile(Virtual(content), opts));
    }

    // ----- operations -----

    /** Makes the file at `norm`, which is no link, ready to be used as asked: created, emptied or as it is. */
    method ReadyFile(norm: string, opts: OpenOptions) returns (r: Result<(), FsError>)
      requires Valid() && !IsLink(nodes, norm)
      modifies this`nodes, this`totalBytes
      ensures Valid() && Drift() == old(Drift())
      ensures r.Ok? <==> FileOpens(old(nodes), modes, norm, opts)
      ensures r.Err? ==> AddsDirs(old(nodes), nodes) && r.error == FileFailure(old(nodes), norm, opts.create)
      ensures r.Ok? ==>
                && nodes == Opened(old(nodes), norm, opts)
                && totalBytes == old(totalBytes) - (if Truncates(opts) then SizeAt(old(nodes), norm) else 0)
    {
      r := Ok(());
      if norm in nodes {
        if nodes[norm].Dir? {
          r := Err(IsADirectory(norm));
        } else if !Permits(modes, norm, opts) {
          r := Err(PermissionDenied(norm));
        } else if Truncates(opts) {
          Truncate(norm);
        }
      } else if !opts.create {
        r := Err(NotFound(norm));
      } else {
        var ok := CreateFile(norm);
        if !ok { r := Err(InodeLimit); }
      }
    }

    /** What a successful `Open` gives: the reader waiting at the target, or the file there. */
    ghost function OpenedSource(path: string, opts: OpenOptions): (s: Source)
      reads this
    {
      var p := Target(nodes, path);
      if ReadsOnly(opts) && p in virtualReaders then Virtual(virtualReaders[p]) else Path(p)
    }

    /**
     * Opens what the path leads to. It succeeds exactly when the path can be
     * opened; the total drifts only when a reader's placeholder held bytes.
     */
    method Open(path: string, opts: OpenOptions) returns (r: Result<nat, FsError>)
      requires Valid()
      modifies this`nodes, this`virtualReaders, this`handles, this`nextHandle, this`totalBytes
      ensures Valid()
      ensures r.Ok? <==> CanOpen(old(nodes), modes, old(virtualReaders).Keys, path, opts)
      ensures r.Err? ==>
                && AddsDirs(old(nodes), nodes) && virtualReaders == old(virtualReaders)
                && handles == old(handles) && Drift() == old(Drift())
                && r.error == OpenFailure(old(nodes), path, opts.create)
      ensures r.Ok? ==>
                && r.value !in old(handles)
                && handles == old(handles)[r.value := OpenFile(old(OpenedSource(path, opts)), opts)]
      ensures r.Ok? && old(OpenedSource(path, opts)).Virtual? ==>
                var p := Target(old(nodes), path);
                && nodes == old(nodes) - {p} && virtualReaders == old(virtualReaders) - {p}
                && Drift() == old(Drift()) + SizeAt(old(nodes), p)
      ensures r.Ok? && old(OpenedSource(path, opts)).Path? ==>
                var p := Target(old(nodes), path);
                && nodes == Opened(old(nodes), p, opts) && virtualReaders == old(virtualReaders)
                && totalBytes == old(totalBytes) - (if Truncates(opts) then SizeAt(old(nodes), p) else 0)
                && Drift() == old(Drift())
    {
      var located := Locate(path);
      if located.Err? {
        r := Err(located.error);
      } else {
        var norm := located.value;
        if ReadsOnly(opts) && norm in virtualReaders {
          var h := OpenVirtual(norm, opts);
          r := Ok(h);
        } else {
          var ready := ReadyFile(norm, opts);
          if ready.Err? {
            r := Err(ready.error);
          } else {
            var h := AllocHandle(OpenFile(Path(norm), opts));
            r := Ok(h);
          }
        }
      }
    }

    /** Reads a file whole, and drains a reader: a second read of it gives nothing. */
    method ReadFile(h: nat) returns (r: Result<seq<Byte>, FsError>)
      requires Valid()
      modifies this`handles
      ensures Valid()
      ensures r.Ok? <==>
                && h in old(handles) && old(handles)[h].opts.read
                && var s := old(handles)[h].source; s.Path? ==> s.path in nodes && nodes[s.path].File?
      ensures r.Ok? && old(handles)[h].source.Path? ==>
                nodes[old(handles)[h].source.path] == File(r.value) && handles == old(handles)
      ensures r.Ok? && old(handles)[h].source.Virtual? ==>
                && r.value == old(handles)[h].source.content
                && handles == old(handles)[h := OpenFile(Virtual([]), old(handles)[h].opts)]
      ensures r.Err? ==>
                && handles == old(handles)
                && r.error == if h !in handles then InvalidHandle
                              else if !handles[h].opts.read then PermissionDenied("")
                              else NotFound(handles[h].source.path)
    {
      if h !in handles { return Err(InvalidHandle); }
      if !handles[h].opts.read { return Err(PermissionDenied("")); }
      match handles[h].source
      case Path(p) =>
        if p in nodes && nodes[p].File? { return Ok(nodes[p].data); }
        return Err(NotFound(p));
      case Virtual(content) =>
        handles := handles[h := OpenFile(Virtual([]), handles[h].opts)];
        return Ok(content);
    }

    /** Whether a chunk fits into the file at `path`. */
    ghost predicate Fits(path: string, append: bool, data: seq<Byte>)
      reads this
    {
      && path in nodes && nodes[path].File?
      && var size := (if append then |nodes[path].data| else 0) + |data|;
         && size <= MAX_FILE_SIZE
         && totalBytes - |nodes[path].data| + size <= MAX_TOTAL_BYTES
    }

    /** The nodes after a chunk went into the file at `path`. */
    ghost function Written(path: string, append: bool, data: seq<Byte>): (r: Nodes)
      requires path in nodes && nodes[path].File?
      reads this
    {
      nodes[path := File((if append then nodes[path].data else []) + data)]
    }

    /** One chunk into the file at `path`: it is stored exactly if it fits, otherwise nothing changes. */
    method WriteChunk(path: string, append: bool, data: seq<Byte>) returns (r: Result<(), FsError>)
      requires Valid()
      modifies this`nodes, this`totalBytes
      ensures Valid() && Drift() == old(Drift())
      ensures r.Ok? <==> old(Fits(path, append, data))
      ensures r.Err? ==>
                && nodes == old(nodes) && totalBytes == old(totalBytes)
                && r.error == ChunkFailure(nodes, path, append, data)
      ensures r.Ok? ==> nodes == old(Written(path, append, data))
    {
      if path !in nodes || !nodes[path].File? { return Err(NotFound(path)); }
      var contents := nodes[path].data;
      var combined := if append then contents + data else data;
      DropKeepsQuota(nodes, totalBytes, path);
      if |combined| > MAX_FILE_SIZE { return Err(FileSizeLimit); }
      var projected := Minus(totalBytes, |contents|) + |combined|;
      if projected > MAX_TOTAL_BYTES { return Err(QuotaExceeded); }
      PutKeepsQuota(nodes, totalBytes, path, File(combined));
      assert !append ==> [] + data == data;
      nodes := nodes[path := File(combined)];
      totalBytes := projected;
      return Ok(());
    }

    /** Writes through a handle to a file opened for writing. */
    method WriteFile(h: nat, data: seq<Byte>) returns (r: Result<(), FsError>)
      requires Valid()
      modifies this`nodes, this`totalBytes
      ensures Valid() && Drift() == old(Drift())
      ensures r.Ok? <==>
                && h in handles && handles[h].opts.write && handles[h].source.Path?
                && old(Fits(handles[h].source.path, handles[h].opts.append, data))
      ensures r.Err? ==>
                && nodes == old(nodes) && totalBytes == old(totalBytes)
                && r.error == if h !in handles then InvalidHandle
                              else if !handles[h].opts.write || handles[h].source.Virtual? then PermissionDenied("")
                              else ChunkFailure(nodes, handles[h].source.path, handles[h].opts.append, data)
      ensures r.Ok? ==> nodes == old(Written(handles[h].source.path, handles[h].opts.append, data))
    {
      if h !in handles { return Err(InvalidHandle); }
      if !handles[h].opts.write { return Err(PermissionDenied("")); }
      if handles[h].source.Virtual? { return Err(PermissionDenied("")); }
      r := WriteChunk(handles[h].source.path, handles[h].opts.append, data);
    }

    /** When a sink can be had for a path. */
    ghost predicate CanSink(path: string)
      reads this
    {
      Resolves(nodes, path) && var p := Target(nodes, path); if p in nodes then nodes[p].File? else Room(nodes, p)
    }

    /** Makes the file at `norm`, which is no link, ready to be written. */
    method PrepareFile(norm: string, append: bool) returns (r: Result<(), FsError>)
      requires Valid() && !IsLink(nodes, norm)
      modifies this`nodes, this`totalBytes
      ensures Valid() && Drift() == old(Drift())
      ensures r.Ok? <==> if norm in old(nodes) then old(nodes)[norm].File? else Room(old(nodes), norm)
      ensures r.Err? ==> AddsDirs(old(nodes), nodes) && r.error == FileFailure(old(nodes), norm, true)
      ensures r.Ok? ==> nodes == Sunk(old(nodes), norm, append)
    {
      r := Ok(());
      if norm !in nodes {
        var ok := CreateFile(norm);
        if !ok { r := Err(InodeLimit); }
      } else if nodes[norm].Dir? {
        r := Err(IsADirectory(norm));
      }
      if r.Ok? && !append {
        ghost var before := nodes;
        Truncate(norm);
        assert before[norm] == File([]) ==> nodes == before;
      }
    }

    /** A sink for the file a path leads to; a reader waiting there is dropped. */
    method OpenWriteSink(path: string, append: bool) returns (r: Result<MemoryWriteSink, FsError>)
      requires Valid()
      modifies this`nodes, this`totalBytes, this`virtualReaders
      ensures Valid() && Drift() == old(Drift())
      ensures r.Ok? <==> old(CanSink(path))
      ensures r.Err? ==> AddsDirs(old(nodes), nodes) && r.error == OpenFailure(old(nodes), path, true)
      ensures r.Ok? ==>
                && fresh(r.value) && r.value.fs == this && r.value.append == append
                && r.value.path == Target(old(nodes), path)
                && nodes == Sunk(old(nodes), Target(old(nodes), path), append)
                && virtualReaders == old(virtualReaders) - {r.value.path}
    {
      var located := Locate(path);
      if located.Err? { r := Err(located.error); } else { r := SinkAt(located.value, append); }
    }

    /** A sink for the file at `norm`, which is no link. */
    method SinkAt(norm: string, append: bool) returns (r: Result<MemoryWriteSink, FsError>)
      requires Valid() && !IsLink(nodes, norm)
      modifies this`nodes, this`totalBytes, this`virtualReaders
      ensures Valid() && Drift() == old(Drift())
      ensures r.Ok? <==> if norm in old(nodes) then old(nodes)[norm].File? else Room(old(nodes), norm)
      ensures r.Err? ==> AddsDirs(old(nodes), nodes) && r.error == FileFailure(old(nodes), norm, true)
      ensures r.Ok? ==>
                && fresh(r.value) && r.value.fs == this && r.value.append == append && r.value.path == norm
                && nodes == Sunk(old(nodes), norm, append) && virtualReaders == old(virtualReaders) - {norm}
    {
      virtualReaders := virtualReaders - {norm};
      var ready := PrepareFile(norm, append);
      if ready.Err? {
        r := Err(ready.error);
      } else {
        var sink := NewSink(norm, append);
        r := Ok(sink);
      }
    }

    method NewSink(norm: string, append: bool) returns (sink: MemoryWriteSink)
      ensures fresh(sink) && sink.fs == this && sink.path == norm && sink.append == append
    {
      sink := new MemoryWriteSink(this, norm, append);
    }

    /** A one-shot reader takes the place of whatever file or link was there; its bytes are given back. */
    method InstallStreamReader(path: string, content: seq<Byte>) returns (r: Result<(), FsError>)
      requires Valid()
      modifies this`nodes, this`totalBytes, this`virtualReaders
      ensures Valid() && Drift() == old(Drift())
      ensures r.Ok? <==> CanInstall(old(nodes), Normalize(path))
      ensures r.Err? ==>
                && AddsDirs(old(nodes), nodes) && virtualReaders == old(virtualReaders)
                && r.error == InstallFailure(old(nodes), Normalize(path))
      ensures r.Ok? ==>
                var p := Normalize(path);
                && nodes == WithDirs(old(nodes), Ancestors(p))[p := File([])]
                && virtualReaders == old(virtualReaders)[p := content]
    {
      var norm := NormalizePath(path);
      r := PlacePlaceholder(norm);
      if r.Ok? { virtualReaders := virtualReaders[norm := content]; }
    }

    method PlacePlaceholder(norm: string) returns (r: Result<(), FsError>)
      requires Valid()
      modifies this`nodes, this`totalBytes
      ensures Valid() && Drift() == old(Drift())
      ensures r.Ok? <==> CanInstall(old(nodes), norm)
      ensures r.Err? ==> AddsDirs(old(nodes), nodes) && r.error == InstallFailure(old(nodes), norm)
      ensures r.Ok? ==> nodes == WithDirs(old(nodes), Ancestors(norm))[norm := File([])]
    {
      r := Ok(());
      var preExists := norm in nodes;
      if preExists && nodes[norm].Dir? {
        r := Err(IsADirectory(norm));
      } else {
        var ok := EnsureParents(norm);
        if ok {
          AddingDirs(old(nodes), Ancestors(norm));
          ok := preExists || |nodes| < MAX_INODES;
        }
        if ok { ReplaceByPlaceholder(norm); } else { r := Err(InodeLimit); }
      }
    }

    method ReplaceByPlaceholder(norm: string)
      requires Valid() && (norm in nodes || |nodes| < MAX_INODES)
      modifies this`nodes, this`totalBytes
      ensures Valid() && Drift() == old(Drift()) && nodes == old(nodes)[norm := File([])]
    {
      PutKeepsQuota(nodes, totalBytes, norm, File([]));
      if norm in nodes && nodes[norm].File? {
        totalBytes := Minus(totalBytes, |nodes[norm].data|);
      }
      nodes := nodes[norm := File([])];
    }

    method Close(h: nat)
      requires Valid()
      modifies this`handles
      ensures Valid() && handles == old(handles) - {h}
    {
      handles := handles - {h};
    }

    /** Adds a link at an unused path whose existing ancestors are directories. */
    method CreateSymlink(target: string, linkPath: string) returns (r: Result<(), FsError>)
      requires Valid()
      modifies this`nodes
      ensures Valid() && Drift() == old(Drift())
      ensures var p := Normalize(linkPath);
              r.Ok? <==> p !in old(nodes) && AllDirs(old(nodes), Ancestors(p)) && Room(old(nodes), p)
      ensures r.Err? ==> AddsDirs(old(nodes), nodes) && ExplainsLink(r.error, old(nodes), Normalize(linkPath))
      ensures r.Ok? ==>
                var p := Normalize(linkPath); nodes == WithDirs(old(nodes), Ancestors(p))[p := Symlink(target)]
    {
      var norm := NormalizePath(linkPath);
      if norm in nodes { return Err(AlreadyExists(norm)); }
      var parts := NonEmpty(Split(norm));
      var ok := LinkParents(parts);
      if ok.Err? { return ok; }
      AddingDirs(old(nodes), Ancestors(norm));
      if |nodes| >= MAX_INODES { return Err(InodeLimit); }
      assert SizeAt(nodes, norm) == 0;
      PutKeepsQuota(nodes, totalBytes, norm, Symlink(target));
      nodes := nodes[norm := Symlink(target)];
      return Ok(());
    }

    /** Like `EnsurePrefixes`, but anything other than a directory in the way is an error. */
    method LinkParents(parts: seq<string>) returns (r: Result<(), FsError>)
      requires Valid()
      modifies this`nodes
      ensures Valid() && Drift() == old(Drift())
      ensures r.Err? <==> LinkBlocked(old(nodes), parts)
      ensures r.Err? ==> ExplainsParents(r.error, old(nodes), parts)
      ensures r.Ok? ==> nodes == WithDirs(old(nodes), ProperPrefixes(parts))
      ensures r.Err? ==> AddsDirs(old(nodes), nodes)
    {
      ghost var before, drift := nodes, Drift();
      var parent := "";
      var i: nat := 0;
      r := Ok(());
      NoDirsYet(nodes, parts);
      while r.Ok? && i + 1 < |parts|
        invariant i == 0 || i < |parts|
        invariant Valid() && Drift() == drift
        invariant parent == PrefixPath(parts, i)
        invariant LinkPrepared(before, nodes, parts, i, r)
        decreases r.Ok?, |parts| - i
      {
        parent := parent + "/" + parts[i];
        r := LinkPrefix(parent, parts, i, before);
        i := i + 1;
      }
      if r.Ok? { AllPrefixes(before, parts, i); }
    }

    method LinkPrefix(dir: string, ghost parts: seq<string>, ghost i: nat, ghost before: Nodes)
      returns (r: Result<(), FsError>)
      requires Valid() && i + 1 < |parts| && dir == PrefixPath(parts, i + 1)
      requires LinkPrepared(before, nodes, parts, i, Ok(()))
      modifies this`nodes
      ensures Valid() && Drift() == old(Drift()) && LinkPrepared(before, nodes, parts, i + 1, r)
    {
      DirsSoFar(before, parts, i);
      r := Ok(());
      if dir in nodes && !nodes[dir].Dir? {
        PrefixesCount(before, parts, i + 1);
        r := Err(NotADirectory(dir));
      } else {
        var ok := AddPrefix(dir, parts, i, before);
        if !ok { r := Err(InodeLimit); }
      }
    }

    method CreateDir(path: string) returns (r: Result<(), FsError>)
      requires Valid()
      modifies this`nodes
      ensures Valid() && Drift() == old(Drift())
      ensures r.Ok? <==> Normalize(path) !in old(nodes) && Room(old(nodes), Normalize(path))
      ensures r.Err? ==>
                && AddsDirs(old(nodes), nodes)
                && r.error == if Normalize(path) in old(nodes) then AlreadyExists(Normalize(path)) else InodeLimit
      ensures r.Ok? ==> var p := Normalize(path); nodes == WithDirs(old(nodes), Ancestors(p))[p := Dir]
    {
      var norm := NormalizePath(path);
      if norm in nodes { return Err(AlreadyExists(norm)); }
      var ok := EnsureParents(norm);
      if !ok { return Err(InodeLimit); }
      AddingDirs(old(nodes), Ancestors(norm));
      if |nodes| >= MAX_INODES { return Err(InodeLimit); }
      PutKeepsQuota(nodes, totalBytes, norm, Dir);
      nodes := nodes[norm := Dir];
      return Ok(());
    }

    method Forget(p: string)
      requires Valid() && p in nodes
      modifies this`nodes, this`modes, this`totalBytes
      ensures Valid() && Drift() == old(Drift())
      ensures nodes == old(nodes) - {p} && modes == old(modes) - {p}
    {
      DropKeepsQuota(nodes, totalBytes, p);
      totalBytes := Minus(totalBytes, SizeAt(nodes, p));
      nodes := nodes - {p};
      modes := modes - {p};
    }

    /** Removes the file or link at a path; a link is removed itself, not followed. */
    method RemoveFile(path: string) returns (r: Result<(), FsError>)
      requires Valid()
      modifies this`nodes, this`modes, this`totalBytes, this`virtualReaders
      ensures Valid() && Drift() == old(Drift())
      ensures r.Ok? <==> Normalize(path) in old(nodes) && !old(nodes)[Normalize(path)].Dir?
      ensures r.Err? ==>
                && nodes == old(nodes) && modes == old(modes) && virtualReaders == old(virtualReaders)
                && var p := Normalize(path); r.error == if p in nodes then IsADirectory(p) else NotFound(p)
      ensures r.Ok? ==>
                var p := Normalize(path);
                && nodes == old(nodes) - {p} && modes == old(modes) - {p}
                && virtualReaders == if IsLink(old(nodes), p) then old(virtualReaders) else old(virtualReaders) - {p}
    {
      var norm := NormalizePath(path);
      if norm in nodes && nodes[norm].Symlink? {
        Forget(norm);
        return Ok(());
      }
      PlainPathIsItsTarget(nodes, path);
      var resolved := Locate(path);
      var p := resolved.value;
      if p !in nodes { return Err(NotFound(norm)); }
      if nodes[p].Dir? { return Err(IsADirectory(p)); }
      virtualReaders := virtualReaders - {p};
      Forget(p);
      return Ok(());
    }

    /** Removes a directory below which nothing is left. */
    method RemoveDir(path: string) returns (r: Result<(), FsError>)
      requires Valid()
      modifies this`nodes, this`modes, this`totalBytes
      ensures Valid() && Drift() == old(Drift())
      ensures r.Ok? <==>
                var p := Normalize(path);
                && p in old(nodes) && old(nodes)[p].Dir?
                && forall q <- old(nodes) :: !((if p == "/" then p else p + "/") <= q)
      ensures r.Err? ==>
                var p := Normalize(path);
                && nodes == old(nodes) && modes == old(modes)
                && r.error == if p !in nodes then NotFound(p)
                              else if !nodes[p].Dir? then NotADirectory(p) else DirectoryNotEmpty
      ensures r.Ok? ==> nodes == old(nodes) - {Normalize(path)} && modes == old(modes) - {Normalize(path)}
    {
      var norm := NormalizePath(path);
      if norm !in nodes { return Err(NotFound(norm)); }
      if !nodes[norm].Dir? { return Err(NotADirectory(norm)); }
      var prefix := if norm == "/" then "/" else norm + "/";
      if exists k :: k in nodes && prefix <= k { return Err(DirectoryNotEmpty); }
      Forget(norm);
      return Ok(());
    }

    method SetMode(path: string, mode: nat) returns (r: Result<(), FsError>)
      requires Valid()
      modifies this`modes
      ensures Valid() && r.Ok? == (Normalize(path) in nodes)
      ensures r.Err? ==> r.error == NotFound(Normalize(path))
      ensures modes == if r.Ok? then old(modes)[Normalize(path) := mode % 512] else old(modes)
    {
      var norm := NormalizePath(path);
      if norm !in nodes { return Err(NotFound(norm)); }
      modes := modes[norm := mode % 512];
      return Ok(());
    }
  }

  // ----- write sinks -----

  /** The chunks whose flag is set. */
  function Chosen(chunks: seq<seq<Byte>>, flags: seq<bool>): (r: seq<seq<Byte>>)
    requires |chunks| == |flags|
  {
    if chunks == [] then []
    else (if flags[0] then [chunks[0]] else []) + Chosen(chunks[1..], flags[1..])
  }

  class MemoryWriteSink {
    const fs: MemoryFs
    const path: string
    var append: bool

    constructor (fs: MemoryFs, path: string, append: bool)
      ensures this.fs == fs && this.path == path && this.append == append
    {
      this.fs, this.path, this.append := fs, path, append;
    }

    /** The first write of a non-appending sink replaces, every later one appends. */
    method Write(data: seq<Byte>) returns (r: Result<(), FsError>)
      requires fs.Valid()
      modifies this`append, fs`nodes, fs`totalBytes
      ensures fs.Valid() && fs.Drift() == old(fs.Drift())
      ensures r.Ok? <==> old(fs.Fits(path, append, data))
      ensures r.Err? ==>
                && fs.nodes == old(fs.nodes) && fs.totalBytes == old(fs.totalBytes) && append == old(append)
                && r.error == ChunkFailure(fs.nodes, path, append, data)
      ensures r.Ok? ==> append && fs.nodes == old(fs.Written(path, append, data))
    {
      r := fs.WriteChunk(path, append, data);
      if r.Ok? { append := true; }
    }

    /** Any run of writes: the file holds what it started with, then the accepted chunks in order. */
    method WriteAll(chunks: seq<seq<Byte>>) returns (accepted: seq<bool>)
      requires fs.Valid() && path in fs.nodes && fs.nodes[path].File?
      modifies this`append, fs`nodes, fs`totalBytes
      ensures fs.Valid() && fs.Drift() == old(fs.Drift())
      ensures |accepted| == |chunks|
      ensures var base := if old(append) then old(fs.nodes)[path].data else [];
              var kept := Chosen(chunks, accepted);
              fs.nodes == if kept == [] then old(fs.nodes) else old(fs.nodes)[path := File(base + Flatten(kept))]
      decreases |chunks|
    {
      if chunks == [] { return []; }
      ghost var base := if append then fs.nodes[path].data else [];
      var r := Write(chunks[0]);
      var more := WriteAll(chunks[1..]);
      accepted := [r.Ok?] + more;
      ghost var rest := Chosen(chunks[1..], more);
      assert accepted[1..] == more;
      assert Chosen(chunks, accepted) == if r.Ok? then [chunks[0]] + rest else rest;
      if r.Ok? { FlattenCons(base, chunks[0], rest); }
    }
  }

  lemma FlattenCons(base: seq<Byte>, chunk: seq<Byte>, rest: seq<seq<Byte>>)
    ensures base + Flatten([chunk] + rest) == base + chunk + Flatten(rest)
    ensures rest == [] ==> base + Flatten([chunk] + rest) == base + chunk
  {
    assert ([chunk] + rest)[1..] == rest;
    assert rest == [] ==> Flatten(rest) == [];
  }

  // ----- across operations -----

  const FOR_WRITING := OpenOptions(false, true, false, true, true)
  const FOR_READING := OpenOptions(true, false, false, false, false)

  /**
   * Writing a file by its path and reading the same path gives the data back,
   * through any links; only a reader that waits at the target comes first.
   */
  method WriteThenRead(fs: MemoryFs, path: string, data: seq<Byte>) returns (r: Result<seq<Byte>, FsError>)
    requires fs.Valid()
    modifies fs
    ensures fs.Valid()
    ensures r.Ok? ==>
              var p := Target(old(fs.nodes), path);
              r.value == if p in old(fs.virtualReaders) then old(fs.virtualReaders)[p] else data
    ensures r.Ok? <==>
              var p := Target(old(fs.nodes), path);
              && WritableByPath(old(fs.nodes), old(fs.modes), old(fs.totalBytes), path, data)
              && (p in old(fs.virtualReaders) || Permits(old(fs.modes), p, FOR_READING))
  {
    ghost var before := fs.nodes;
    var written := WriteByPath(fs, path, data);
    if written.Err? {
      r := Err(written.error);
    } else {
      TargetSame(before, fs.nodes, path);
      var h := fs.Open(path, FOR_READING);
      if h.Err? { r := Err(h.error); } else { r := fs.ReadFile(h.value); }
    }
  }

  /** Opens a path for writing, creating or emptying the file, and writes it. */
  method WriteByPath(fs: MemoryFs, path: string, data: seq<Byte>) returns (r: Result<(), FsError>)
    requires fs.Valid()
    modifies fs`nodes, fs`virtualReaders, fs`handles, fs`nextHandle, fs`totalBytes
    ensures fs.Valid() && fs.virtualReaders == old(fs.virtualReaders) && fs.Drift() == old(fs.Drift())
    ensures r.Ok? <==> WritableByPath(old(fs.nodes), fs.modes, old(fs.totalBytes), path, data)
    ensures r.Ok? ==>
              var p := Target(old(fs.nodes), path);
              SameLinks(old(fs.nodes), fs.nodes) && p in fs.nodes && fs.nodes[p] == File(data)
  {
    ghost var p := Target(fs.nodes, path);
    var w := fs.Open(path, FOR_WRITING);
    if w.Err? {
      r := Err(w.error);
    } else {
      OpeningKeepsLinks(old(fs.nodes), p, FOR_WRITING);
      assert fs.nodes[p] == File([]) && [] + data == data;
      r := fs.WriteFile(w.value, data);
    }
  }

  /** The path can be opened for writing and the data fits in place of what is there. */
  ghost predicate WritableByPath(m: Nodes, modes: map<string, nat>, total: nat, path: string, data: seq<Byte>) {
    && CanOpen(m, modes, {}, path, FOR_WRITING)
    && |data| <= MAX_FILE_SIZE && total - SizeAt(m, Target(m, path)) + |data| <= MAX_TOTAL_BYTES
  }

  /** Chunks sent to a sink for a path end up, in order, in the file the path leads to. */
  method WriteVia(fs: MemoryFs, path: string, append: bool, chunks: seq<seq<Byte>>)
    returns (accepted: Option<seq<bool>>)
    requires fs.Valid()
    modifies fs
    ensures fs.Valid() && fs.Drift() == old(fs.Drift())
    ensures accepted.Some? <==> old(fs.CanSink(path))
    ensures accepted.Some? ==>
              var p := Target(old(fs.nodes), path);
              && |accepted.value| == |chunks|
              && p in fs.nodes
              && fs.nodes[p] == File((if append && p in old(fs.nodes) then old(fs.nodes)[p].data else [])
                                     + Flatten(Chosen(chunks, accepted.value)))
  {
    var sink := fs.OpenWriteSink(path, append);
    if sink.Err? { return None; }
    ghost var base := fs.nodes[sink.value.path].data;
    var flags := sink.value.WriteAll(chunks);
    assert base + Flatten([]) == base;
    return Some(flags);
  }

  /**
   * The one way the total drifts: a reader is installed, its placeholder is
   * written to, and opening the reader removes the file without giving the
   * bytes back.
   */
  method ReaderLeavesBytesCharged(data: seq<Byte>) returns (fs: MemoryFs)
    requires |data| <= MAX_FILE_SIZE
    ensures fs.Valid() && Sum(fs.nodes) == 0 && fs.totalBytes == |data| && fs.Drift() == |data|
  {
    fs := NewWithReader();
    WriteOver(fs, data);
    PlainPathIsItsTarget(fs.nodes, "/a");
    var h := fs.Open("/a", FOR_READING);
    assert fs.nodes == map["/" := Dir];
    SumPut(map[], "/", Dir);
  }

  method WriteOver(fs: MemoryFs, data: seq<Byte>)
    requires fs.Valid() && fs.Drift() == 0 && fs.totalBytes == 0 && fs.modes == map[] && |data| <= MAX_FILE_SIZE
    requires fs.nodes == map["/" := Dir, "/a" := File([])] && fs.virtualReaders == map["/a" := []]
    requires Normalize("/a") == "/a"
    modifies fs
    ensures fs.Valid() && fs.Drift() == 0 && fs.virtualReaders == map["/a" := []]
    ensures fs.nodes == map["/" := Dir, "/a" := File(data)]
  {
    PlainPathIsItsTarget(fs.nodes, "/a");
    var w := fs.Open("/a", OpenOptions(false, true, false, false, false));
    var written := fs.WriteFile(w.value, data);
    assert [] + data == data;
  }

  method NewWithReader() returns (fs: MemoryFs)
    ensures fresh(fs) && fs.Valid() && fs.Drift() == 0 && fs.totalBytes == 0 && fs.modes == map[]
    ensures fs.nodes == map["/" := Dir, "/a" := File([])] && fs.virtualReaders == map["/a" := []]
    ensures Normalize("/a") == "/a"
  {
    fs := new MemoryFs();
    NormalA();
    var installed := fs.InstallStreamReader("/a", []);
    assert fs.nodes == map["/" := Dir, "/a" := File([])];
    SumPut(map[], "/", Dir);
    SumPut(map["/" := Dir], "/a", File([]));
  }

  lemma NormalA()
    ensures Normalize("/a") == "/a" && Ancestors("/a") == {}
  {
    SplitPlain("a");
    assert "/a"[1..] == "a";
    assert Split("/a") == ["", "a"];
    assert Fold([], ["", "a"]) == ["a"];
    assert NonEmpty(["a"]) == ["a"];
    assert NonEmpty(["", "a"]) == ["a"];
  }
}
