/**
 * What the in-memory filesystem keeps and where paths lead: a map of nodes, the
 * real number of bytes in it, the quotas, symbolic links and parent directories.
 */
module FsSpec {
  import opened Paths
  import opened Utf8

  const MAX_FILE_SIZE: nat := 64 * 1024 * 1024
  const MAX_TOTAL_BYTES: nat := 256 * 1024 * 1024
  const MAX_INODES: nat := 100_000
  const MAX_SYMLINK_DEPTH: nat := 40
  const DEFAULT_FILE_MODE: nat := 0x1A4

  datatype Node = File(data: seq<Byte>) | Dir | Symlink(target: string)

  type Nodes = map<string, Node>

  datatype OpenOptions = OpenOptions(read: bool, write: bool, append: bool, create: bool, truncate: bool)

  // ----- accounting -----

  function Size(n: Node): (s: nat) { if n.File? then |n.data| else 0 }

  /** The number of bytes in all files. */
  ghost function Sum(m: Nodes): (s: nat)
    decreases |m|, 1
  {
    if m == map[] then 0 else SumStep(m)
  }

  ghost function SumStep(m: Nodes): (s: nat)
    requires m != map[]
    decreases |m|, 0
  {
    var k :| k in m;
    Size(m[k]) + Sum(m - {k})
  }

  lemma {:induction false} SumWithout(m: Nodes, k: string)
    requires k in m
    ensures Sum(m) == Size(m[k]) + Sum(m - {k})
    decreases |m|
  {
    assert Sum(m) == SumStep(m);
    var j :| j in m && SumStep(m) == Size(m[j]) + Sum(m - {j});
    if j != k {
      SumWithout(m - {j}, k);
      SumWithout(m - {k}, j);
      assert m - {j} - {k} == m - {k} - {j};
    }
  }

  function SizeAt(m: Nodes, k: string): (s: nat) { if k in m then Size(m[k]) else 0 }

  lemma SumDrop(m: Nodes, k: string)
    ensures Sum(m - {k}) + SizeAt(m, k) == Sum(m)
  {
    if k in m { SumWithout(m, k); } else { assert m - {k} == m; }
  }

  lemma SumPut(m: Nodes, k: string, v: Node)
    ensures Sum(m[k := v]) + SizeAt(m, k) == Sum(m) + Size(v)
  {
    SumWithout(m[k := v], k);
    SumDrop(m, k);
    assert m[k := v] - {k} == m - {k};
  }

  function Minus(a: nat, b: nat): nat { if a < b then 0 else a - b }

  /** The quotas: inodes, bytes in total and per file; the total never undercounts. */
  ghost predicate WithinQuota(m: Nodes, total: nat) {
    && |m| <= MAX_INODES
    && Sum(m) <= total <= MAX_TOTAL_BYTES
    && forall p :: p in m ==> Size(m[p]) <= MAX_FILE_SIZE
  }

  /** Storing `v` at `k` keeps the books, and the drift of the total, if the total is adjusted. */
  lemma PutKeepsQuota(m: Nodes, total: nat, k: string, v: Node)
    requires WithinQuota(m, total) && (k in m || |m| < MAX_INODES) && Size(v) <= MAX_FILE_SIZE
    requires Minus(total, SizeAt(m, k)) + Size(v) <= MAX_TOTAL_BYTES
    ensures SizeAt(m, k) <= total
    ensures WithinQuota(m[k := v], Minus(total, SizeAt(m, k)) + Size(v))
    ensures Minus(total, SizeAt(m, k)) + Size(v) - Sum(m[k := v]) == total - Sum(m)
  {
    SumPut(m, k, v);
    SumDrop(m, k);
    assert m[k := v].Keys == m.Keys + {k};
  }

  /** Removing a node keeps the books whether or not its bytes are given back; if not, the total drifts by them. */
  lemma DropKeepsQuota(m: Nodes, total: nat, k: string)
    requires WithinQuota(m, total)
    ensures SizeAt(m, k) <= total
    ensures WithinQuota(m - {k}, total) && WithinQuota(m - {k}, Minus(total, SizeAt(m, k)))
    ensures Minus(total, SizeAt(m, k)) - Sum(m - {k}) == total - Sum(m)
    ensures total - Sum(m - {k}) == total - Sum(m) + SizeAt(m, k)
  {
    SumDrop(m, k);
    assert (m - {k}).Keys == m.Keys - {k};
    assert |m.Keys - {k}| <= |m.Keys|;
  }

  /** `m'` is `m` with some directories added. */
  ghost predicate AddsDirs(m: Nodes, m': Nodes) {
    && (forall p :: p in m ==> p in m' && m'[p] == m[p])
    && (forall p :: p in m' && p !in m ==> m'[p] == Dir)
  }

  // ----- symbolic links -----

  /** The text before the last `/`, or nothing. */
  function ParentText(path: string): (r: string) {
    if path == [] then ""
    else if path[|path| - 1] == '/' then path[..|path| - 1]
    else ParentText(path[..|path| - 1])
  }

  /** Where the link at `at` points. */
  function LinkTarget(at: string, target: string): (r: string) {
    if target != [] && target[0] == '/' then Normalize(target)
    else Normalize(ParentText(at) + "/" + target)
  }

  predicate IsLink(m: Nodes, p: string) { p in m && m[p].Symlink? }

  /** The path reached from `p` by following `n` links. */
  ghost function Follow(m: Nodes, p: string, n: nat): (r: string) {
    if n == 0 then p
    else
      var q := Follow(m, p, n - 1);
      if IsLink(m, q) then LinkTarget(q, m[q].target) else q
  }

  lemma {:induction false} ParentOf(dir: string, name: string)
    requires '/' !in name
    ensures ParentText(dir + "/" + name) == dir
    decreases |name|
  {
    var path := dir + "/" + name;
    if name == [] {
      assert path[..|path| - 1] == dir;
    } else {
      var k := |name| - 1;
      assert path[|path| - 1] == name[k] && path[..|path| - 1] == dir + "/" + name[..k];
      ParentOf(dir, name[..k]);
    }
  }

  /** A link leads to its target, read from the directory the link is in unless it starts with `/`. */
  lemma LinksLeadFromTheirDirectory(m: Nodes, dir: string, name: string)
    requires '/' !in name && IsLink(m, dir + "/" + name)
    ensures var target := m[dir + "/" + name].target;
            Follow(m, dir + "/" + name, 1) ==
            if target != [] && target[0] == '/' then Normalize(target) else Normalize(dir + "/" + target)
  {
    ParentOf(dir, name);
    assert Follow(m, dir + "/" + name, 0) == dir + "/" + name;
  }

  lemma {:induction false} FollowStops(m: Nodes, p: string, n: nat, k: nat)
    requires !IsLink(m, Follow(m, p, n))
    ensures Follow(m, p, n + k) == Follow(m, p, n)
    decreases k
  {
    if k > 0 { FollowStops(m, p, n, k - 1); }
  }

  /** The end of a path's links, if it is reached within the limit. */
  ghost function Target(m: Nodes, path: string): (r: string) { Follow(m, Normalize(path), MAX_SYMLINK_DEPTH - 1) }

  ghost predicate Resolves(m: Nodes, path: string) { !IsLink(m, Target(m, path)) }

  /** Resolution fails only when the limit is used up by links, and finds the one place they lead to. */
  lemma ResolvesWithinLimit(m: Nodes, path: string, n: nat)
    requires n < MAX_SYMLINK_DEPTH && !IsLink(m, Follow(m, Normalize(path), n))
    ensures Resolves(m, path) && Target(m, path) == Follow(m, Normalize(path), n)
  {
    FollowStops(m, Normalize(path), n, MAX_SYMLINK_DEPTH - 1 - n);
  }

  lemma PlainPathIsItsTarget(m: Nodes, path: string)
    requires !IsLink(m, Normalize(path))
    ensures Resolves(m, path) && Target(m, path) == Normalize(path)
  {
    ResolvesWithinLimit(m, path, 0);
  }

  /** Both maps hold the same links. */
  ghost predicate SameLinks(m: Nodes, m': Nodes) {
    forall q :: IsLink(m, q) == IsLink(m', q) && (IsLink(m, q) ==> m[q] == m'[q])
  }

  lemma {:induction false} FollowSame(m: Nodes, m': Nodes, p: string, n: nat)
    requires SameLinks(m, m')
    ensures Follow(m, p, n) == Follow(m', p, n)
  {
    if n > 0 { FollowSame(m, m', p, n - 1); }
  }

  /** Paths lead where they led as long as no link changes. */
  lemma TargetSame(m: Nodes, m': Nodes, path: string)
    requires SameLinks(m, m')
    ensures Target(m, path) == Target(m', path) && Resolves(m, path) == Resolves(m', path)
  {
    FollowSame(m, m', Normalize(path), MAX_SYMLINK_DEPTH - 1);
  }

  // ----- parent directories -----

  function NonEmpty(parts: seq<string>): (r: seq<string>) {
    if parts == [] then []
    else (if parts[0] == [] then [] else [parts[0]]) + NonEmpty(parts[1..])
  }

  /** The absolute path of the first `k` parts. */
  function PrefixPath(parts: seq<string>, k: nat): (r: string)
    requires k <= |parts|
  {
    if k == 0 then "" else PrefixPath(parts, k - 1) + "/" + parts[k - 1]
  }

  ghost function PrefixPaths(parts: seq<string>, n: nat): (r: set<string>)
    requires n <= |parts|
  {
    set k | 1 <= k <= n :: PrefixPath(parts, k)
  }

  lemma PrefixPathsGrow(parts: seq<string>, n: nat)
    requires n < |parts|
    ensures PrefixPaths(parts, n + 1) == PrefixPaths(parts, n) + {PrefixPath(parts, n + 1)}
  {
    var before, after := PrefixPaths(parts, n), PrefixPaths(parts, n + 1);
    forall p <- after ensures p in before + {PrefixPath(parts, n + 1)} {
      var k :| 1 <= k <= n + 1 && p == PrefixPath(parts, k);
    }
  }

  lemma PrefixPathsMonotone(parts: seq<string>, m: nat, n: nat)
    requires m <= n <= |parts|
    ensures PrefixPaths(parts, m) <= PrefixPaths(parts, n)
  {
    var small, large := PrefixPaths(parts, m), PrefixPaths(parts, n);
    forall p <- small ensures p in large {
      var k :| 1 <= k <= m && p == PrefixPath(parts, k);
    }
  }

  /** The directories above a path. */
  ghost function Ancestors(path: string): (r: set<string>) { ProperPrefixes(NonEmpty(Split(path))) }

  ghost function ProperPrefixes(parts: seq<string>): (r: set<string>) {
    if parts == [] then {} else PrefixPaths(parts, |parts| - 1)
  }

  /** The ancestors of an absolute path are the paths of its first components, itself left out. */
  lemma AncestorsArePrefixes(cs: seq<string>)
    requires AllProper(cs)
    ensures Ancestors("/" + Join(cs)) == set k | 1 <= k < |cs| :: "/" + Join(cs[..k])
  {
    if cs == [] {
      assert Split("/") == [""] + Split("") && Split("") == [""];
      assert NonEmpty([""]) == [] && NonEmpty(["", ""]) == [];
    } else {
      SplitOfJoined(cs);
      assert ("/" + Join(cs))[1..] == Join(cs);
      assert Split("/" + Join(cs)) == [""] + cs && ([""] + cs)[1..] == cs;
      NonEmptyOfProper(cs);
      assert [] + cs == cs;
      forall k | 1 <= k <= |cs| ensures PrefixPath(cs, k) == "/" + Join(cs[..k]) { PrefixPathIsJoin(cs, k); }
    }
  }

  lemma {:induction false} NonEmptyOfProper(cs: seq<string>)
    requires AllProper(cs)
    ensures NonEmpty(cs) == cs
  {
    if cs != [] {
      assert Proper(cs[0]);
      NonEmptyOfProper(cs[1..]);
      assert cs == [cs[0]] + cs[1..];
    }
  }

  lemma {:induction false} PrefixPathIsJoin(cs: seq<string>, k: nat)
    requires 1 <= k <= |cs|
    ensures PrefixPath(cs, k) == "/" + Join(cs[..k])
    decreases k
  {
    if k == 1 {
      assert cs[..1] == [cs[0]] && PrefixPath(cs, 0) == "";
      assert "" + "/" + cs[0] == "/" + cs[0];
    } else {
      PrefixPathIsJoin(cs, k - 1);
      JoinSnoc(cs[..k - 1], cs[k - 1]);
      assert cs[..k] == cs[..k - 1] + [cs[k - 1]];
      assert "/" + Join(cs[..k - 1]) + "/" + cs[k - 1] == "/" + (Join(cs[..k - 1]) + "/" + cs[k - 1]);
    }
  }

  lemma {:induction false} JoinSnoc(cs: seq<string>, c: string)
    requires cs != []
    ensures Join(cs + [c]) == Join(cs) + "/" + c
    decreases |cs|
  {
    if |cs| == 1 {
      assert cs + [c] == [cs[0], c] && [cs[0], c][1..] == [c];
    } else {
      assert (cs + [c])[1..] == cs[1..] + [c];
      JoinSnoc(cs[1..], c);
      var a, b := cs[0] + "/", Join(cs[1..]);
      assert a + (b + "/" + c) == a + b + "/" + c;
    }
  }

  /** The nodes with the missing ones of some directories added. */
  ghost function WithDirs(m: Nodes, dirs: set<string>): (r: Nodes)
    ensures r.Keys == m.Keys + dirs
    ensures forall k <- r :: r[k] == if k in m then m[k] else Dir
  {
    map k | k in m.Keys + dirs :: if k in m then m[k] else Dir
  }

  lemma NoDirsYet(m: Nodes, parts: seq<string>)
    ensures PrefixPaths(parts, 0) == {} && WithDirs(m, PrefixPaths(parts, 0)) == m
  {
    assert m.Keys + {} == m.Keys;
  }

  /** What does not fit with the prefixes met on the way does not fit at all. */
  lemma PrefixesCount(m: Nodes, parts: seq<string>, i: nat)
    requires 0 < i < |parts|
    ensures |m.Keys + PrefixPaths(parts, i)| <= |m.Keys + ProperPrefixes(parts)|
    ensures PrefixPath(parts, i) in ProperPrefixes(parts)
  {
    PrefixPathsMonotone(parts, i, |parts| - 1);
    CountMonotone(m.Keys + PrefixPaths(parts, i), m.Keys + ProperPrefixes(parts));
    assert PrefixPath(parts, i) in PrefixPaths(parts, i);
  }

  /** The first `i` directories are there, or there was no room for all. */
  ghost predicate Prepared(before: Nodes, now: Nodes, parts: seq<string>, i: nat, ok: bool)
    requires i <= |parts|
  {
    if ok then now == WithDirs(before, PrefixPaths(parts, i))
    else AddsDirs(before, now) && |before.Keys + ProperPrefixes(parts)| > MAX_INODES
  }

  lemma AllPrefixes(m: Nodes, parts: seq<string>, i: nat)
    requires i <= |parts| <= i + 1 && (i == 0 || i < |parts|)
    ensures PrefixPaths(parts, i) == ProperPrefixes(parts)
    ensures |WithDirs(m, PrefixPaths(parts, i))| == |m.Keys + ProperPrefixes(parts)|
  {
    var m' := WithDirs(m, PrefixPaths(parts, i));
    assert |m'| == |m'.Keys|;
  }

  lemma StartPrepared(m: Nodes, parts: seq<string>)
    ensures Prepared(m, m, parts, 0, true)
  {
    NoDirsYet(m, parts);
  }

  lemma AllPrepared(before: Nodes, now: Nodes, parts: seq<string>, i: nat, ok: bool)
    requires i <= |parts| && (i == 0 || i < |parts|) && (ok ==> |parts| <= i + 1) && |now| <= MAX_INODES
    requires Prepared(before, now, parts, i, ok)
    ensures ok <==> |before.Keys + ProperPrefixes(parts)| <= MAX_INODES
    ensures ok ==> now == WithDirs(before, ProperPrefixes(parts))
    ensures !ok ==> AddsDirs(before, now)
  {
    if ok { AllPrefixes(before, parts, i); }
  }

  /** None of these paths is taken by anything but a directory. */
  ghost predicate AllDirs(m: Nodes, dirs: set<string>) { forall d <- dirs :: d in m ==> m[d].Dir? }

  /** Why a link cannot be put below these parts: something in the way, or too many new directories. */
  ghost predicate LinkBlocked(m: Nodes, parts: seq<string>) {
    !AllDirs(m, ProperPrefixes(parts)) || |m.Keys + ProperPrefixes(parts)| > MAX_INODES
  }

  /** The next prefix decides whether all so far are directories. */
  lemma DirsSoFar(m: Nodes, parts: seq<string>, i: nat)
    requires i + 1 < |parts| && AllDirs(m, PrefixPaths(parts, i))
    ensures var p, m' := PrefixPath(parts, i + 1), WithDirs(m, PrefixPaths(parts, i));
            && AddsDirs(m, m')
            && (p in m' && !m'[p].Dir? ==> !AllDirs(m, ProperPrefixes(parts)))
            && (p in m' && !m'[p].Dir? <==> !AllDirs(m, PrefixPaths(parts, i + 1)))
  {
    PrefixPathsGrow(parts, i);
    PrefixesCount(m, parts, i + 1);
    AddingDirs(m, PrefixPaths(parts, i));
  }

  /** Whether a new node fits next to the missing directories above it. */
  ghost predicate Room(m: Nodes, path: string) { |m.Keys + Ancestors(path)| < MAX_INODES }

  lemma AddingDirs(m: Nodes, dirs: set<string>)
    ensures AddsDirs(m, WithDirs(m, dirs)) && SameLinks(m, WithDirs(m, dirs))
  {
  }

  lemma AddingKnownDir(m: Nodes, dirs: set<string>, d: string)
    requires d in WithDirs(m, dirs)
    ensures WithDirs(m, dirs + {d}) == WithDirs(m, dirs)
  {
    assert m.Keys + (dirs + {d}) == m.Keys + dirs;
  }

  lemma AddingNewDir(m: Nodes, dirs: set<string>, d: string)
    requires d !in WithDirs(m, dirs)
    ensures WithDirs(m, dirs + {d}) == WithDirs(m, dirs)[d := Dir]
  {
    var a, b := WithDirs(m, dirs + {d}), WithDirs(m, dirs)[d := Dir];
    assert a.Keys == m.Keys + (dirs + {d}) == b.Keys;
  }

  lemma CountNewDir(keys: set<string>, dirs: set<string>, d: string)
    requires d !in keys + dirs
    ensures |keys + (dirs + {d})| == |keys + dirs| + 1
  {
    assert keys + (dirs + {d}) == keys + dirs + {d};
  }

  lemma CountMonotone(a: set<string>, b: set<string>)
    requires a <= b
    ensures |a| <= |b|
  {
    assert a + (b - a) == b;
  }

  /** When a reader can be put at a path: anything but a directory is replaced, and new nodes fit. */
  ghost predicate CanInstall(m: Nodes, p: string) {
    if p in m then !m[p].Dir? && |m.Keys + Ancestors(p)| <= MAX_INODES else Room(m, p)
  }

  // ----- opening -----

  /** The owner's read and write bits, from the mode that was set or the default. */
  predicate Permits(modes: map<string, nat>, p: string, opts: OpenOptions) {
    var mode := if p in modes then modes[p] else DEFAULT_FILE_MODE;
    && !(opts.read && mode / 256 % 2 == 0)
    && !((opts.write || opts.append || opts.truncate) && mode / 128 % 2 == 0)
  }

  /** A file whose mode was never set can be opened in every way. */
  lemma UnsetModePermits(modes: map<string, nat>, p: string, opts: OpenOptions)
    requires p !in modes
    ensures Permits(modes, p, opts)
  {
  }

  /** Octal modes: reading needs the 4 of the first digit, writing its 2. */
  lemma OwnerDigitDecides(modes: map<string, nat>, p: string, u: nat, g: nat, o: nat, opts: OpenOptions)
    requires u < 8 && g < 8 && o < 8
    ensures Permits(modes[p := (u * 64 + g * 8 + o) % 512], p, opts) <==>
            && (opts.read ==> u >= 4)
            && (opts.write || opts.append || opts.truncate ==> u in {2, 3, 6, 7})
  {
    var mode := u * 64 + g * 8 + o;
    assert mode / 64 == u;
    assert mode / 256 == u / 4 && mode / 128 == u / 2;
  }

  predicate ReadsOnly(opts: OpenOptions) {
    opts.read && !opts.write && !opts.append && !opts.create && !opts.truncate
  }

  predicate Truncates(opts: OpenOptions) { opts.write && opts.truncate && !opts.append }

  /** When a file at `p` can be opened: its mode allows it, or it is to be created and there is room. */
  ghost predicate FileOpens(m: Nodes, modes: map<string, nat>, p: string, opts: OpenOptions) {
    if p in m then m[p].File? && Permits(modes, p, opts) else opts.create && Room(m, p)
  }

  /** When a path can be opened: a reader waits where it leads, or the file there can be opened. */
  ghost predicate CanOpen(m: Nodes, modes: map<string, nat>, readers: set<string>, path: string, opts: OpenOptions) {
    && Resolves(m, path)
    && var p := Target(m, path);
       (ReadsOnly(opts) && p in readers) || FileOpens(m, modes, p, opts)
  }

  /** The nodes after a file at `p` was opened: created, emptied or as it was. */
  ghost function Opened(m: Nodes, p: string, opts: OpenOptions): (r: Nodes) {
    if p !in m then WithDirs(m, Ancestors(p))[p := File([])]
    else if Truncates(opts) then m[p := File([])]
    else m
  }

  lemma OpeningKeepsLinks(m: Nodes, p: string, opts: OpenOptions)
    requires !IsLink(m, p)
    ensures SameLinks(m, Opened(m, p, opts))
  {
    AddingDirs(m, Ancestors(p));
  }
}
