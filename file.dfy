/** The file helpers of `core/file.go`: counting lines, reading with a line
    limit, counting and sizing directories, and removing and creating
    entries. */
module Files {
  import opened Wrappers
  import opened Paths
  import opened FsModel

  /** The most lines `ReadFile` accepts. */
  const LINE_LIMIT: nat := 10000

  /** The mode `ioutil.WriteFile` creates a missing file with. */
  const WRITE_PERM: nat := 0x1A4  // 0644

  /** The number of '\n' bytes in `s`. */
  function Newlines(s: seq<Byte>): (r: nat)
    ensures r <= |s|
  {
    if s == [] then 0
    else Newlines(s[..|s| - 1]) + (if s[|s| - 1] == NEWLINE then 1 else 0)
  }

  lemma {:induction false} NewlinesAppend(a: seq<Byte>, b: seq<Byte>)
    ensures Newlines(a + b) == Newlines(a) + Newlines(b)
    decreases |b|
  {
    if b != [] {
      var b' := b[..|b| - 1];
      assert (a + b)[..|a + b| - 1] == a + b';
      NewlinesAppend(a, b');
    } else {
      assert a + b == a;
    }
  }

  /** However the bytes are split into chunks, the count is the number of
      newline bytes in the whole sequence. */
  lemma {:induction false} NewlinesCountsOccurrences(s: seq<Byte>)
    ensures Newlines(s) == multiset(s)[NEWLINE]
    decreases |s|
  {
    if s != [] {
      var s' := s[..|s| - 1];
      assert s == s' + [s[|s| - 1]];
      NewlinesCountsOccurrences(s');
    }
  }

  /** A count over a prefix never exceeds the count over the whole. */
  lemma NewlinesPrefix(s: seq<Byte>, k: nat)
    requires k <= |s|
    ensures Newlines(s[..k]) <= Newlines(s)
  {
    NewlinesAppend(s[..k], s[k..]);
    assert s[..k] + s[k..] == s;
  }

  /** What `CountLinesInFile` returns: the newlines among the bytes the
      reads delivered, and the error that ended the reads, if any. */
  function LinesRead(t: Tree, env: Env, p: Path): (nat, Option<Error>)
  {
    match Open(t, env, p)
    case Fail(e) => (0, Some(e))
    case Pass =>
      var read := ReadContent(t, env, p);
      (Newlines(read.bytes), read.error)
  }

  /** The path can be opened and read to the end. */
  predicate Readable(t: Tree, env: Env, p: Path)
  {
    Open(t, env, p).Pass? && ReadContent(t, env, p).error.None?
  }

  /** A SHA-256 digest in hex.  The digest function is a parameter: the
      model relies only on equal bytes giving equal digests. */
  type Digest = string

  /** `GetHash`: the digest of everything read from the file. */
  function GetHash(t: Tree, env: Env, hash: seq<Byte> -> Digest, p: Path): (r: Result<Digest, Error>)
    ensures r.Ok? <==> Readable(t, env, p)
    ensures r.Ok? ==> r.value == hash(t[p].data)
  {
    match Open(t, env, p)
    case Fail(e) => Err(e)
    case Pass =>
      var read := ReadContent(t, env, p);
      if read.error.Some? then Err(read.error.value) else Ok(hash(read.bytes))
  }

  /** A fault inside the chunk that starts at `k * CHUNK` lets exactly the
      chunks before it through. */
  lemma ChunkStart(k: nat, fault: nat)
    requires k * CHUNK <= fault < k * CHUNK + CHUNK
    ensures Delivered(fault) == k * CHUNK
  {
    assert fault / CHUNK == k;
  }

  /** `CountLinesInFile`: reads the file through a 32 KiB buffer and adds up
      the newlines of each chunk. */
  method CountLinesInFile(fs: FileSystem, p: Path) returns (count: nat, err: Option<Error>)
    requires fs.Valid()
    ensures (count, err) == LinesRead(fs.tree, fs.env, p)
    ensures err.None? ==> count == multiset(fs.tree[p].data)[NEWLINE]
  {
    var access := Open(fs.tree, fs.env, p);
    if access.Fail? {
      return 0, Some(access.error);
    }
    var node := fs.tree[p];
    if !node.File? {
      return 0, Some(ReadFailed(p));
    }
    var data := node.data;
    var fault := if p in fs.env.brokenAt && fs.env.brokenAt[p] < |data| then fs.env.brokenAt[p] else |data|;
    var failed;
    count, failed := CountChunks(data, fault);
    if failed {
      return count, Some(ReadFailed(p));
    }
    NewlinesCountsOccurrences(data);
    return count, None;
  }

  /** The read loop of `CountLinesInFile` over a file whose reads run
      cleanly up to offset `fault` (|data| for a file with no fault): one
      32 KiB chunk at a time, adding up the newlines of each. */
  method CountChunks(data: seq<Byte>, fault: nat) returns (count: nat, failed: bool)
    requires fault <= |data|
    ensures failed <==> fault < |data|
    ensures failed ==> count == Newlines(data[..Delivered(fault)])
    ensures !failed ==> count == Newlines(data)
  {
    var offset := 0;
    ghost var chunks := 0;
    count := 0;
    while true
      invariant offset <= fault
      invariant offset == chunks * CHUNK || offset == |data|
      invariant count == Newlines(data[..offset])
      decreases |data| - offset
    {
      var n := if |data| - offset < CHUNK then |data| - offset else CHUNK;
      if fault < offset + n {
        ChunkStart(chunks, fault);
        return count, true;
      }
      if n == 0 {
        assert data[..offset] == data;
        return count, false;
      }
      assert n == CHUNK || offset + n == |data|;
      assert (chunks + 1) * CHUNK == chunks * CHUNK + CHUNK;
      var chunk := data[offset..offset + n];
      NewlinesAppend(data[..offset], chunk);
      assert data[..offset + n] == data[..offset] + chunk;
      count := count + Newlines(chunk);
      offset := offset + n;
      chunks := chunks + 1;
    }
  }

  /** The running count never goes down: a read error reports no more lines
      than the whole file holds. */
  lemma PartialCountBounded(t: Tree, env: Env, p: Path)
    requires p in t && t[p].File?
    ensures LinesRead(t, env, p).0 <= Newlines(t[p].data)
  {
    if Open(t, env, p).Pass? && ReadContent(t, env, p).error.Some? {
      NewlinesPrefix(t[p].data, Delivered(env.brokenAt[p]));
    }
  }

  /** `ReadFile`: the content, unless counting fails or finds too many lines. */
  function ReadFileSpec(t: Tree, env: Env, p: Path): Result<seq<Byte>, Error>
  {
    var (lines, err) := LinesRead(t, env, p);
    if err.Some? then Err(err.value)
    else if lines > LINE_LIMIT then Err(TooManyLines(p, lines))
    else
      // `os.ReadFile` now reads the same file, which the count has just
      // read to the end without error.
      Ok(t[p].data)
  }

  method ReadFile(fs: FileSystem, p: Path) returns (r: Result<seq<Byte>, Error>)
    requires fs.Valid()
    ensures r == ReadFileSpec(fs.tree, fs.env, p)
  {
    var lines, err := CountLinesInFile(fs, p);
    if err.Some? {
      return Err(err.value);
    }
    if lines > LINE_LIMIT {
      return Err(TooManyLines(p, lines));
    }
    return Ok(fs.tree[p].data);
  }

  /** A readable file is returned whole exactly when it has at most
      LINE_LIMIT newlines; otherwise the error gives its line count. */
  lemma ReadFileLimit(t: Tree, env: Env, p: Path)
    requires Readable(t, env, p)
    ensures ReadFileSpec(t, env, p).Ok? <==> Newlines(t[p].data) <= LINE_LIMIT
    ensures ReadFileSpec(t, env, p).Ok? ==> ReadFileSpec(t, env, p).value == t[p].data
    ensures Newlines(t[p].data) > LINE_LIMIT ==>
              ReadFileSpec(t, env, p) == Err(TooManyLines(p, Newlines(t[p].data)))
  {
  }

  /** `GetNumberOfFiles`: how many entries `ioutil.ReadDir` lists. */
  function GetNumberOfFiles(t: Tree, env: Env, p: Path): (r: Result<nat, Error>)
    ensures r.Ok? <==> ReadDir(t, env, p).Ok?
    ensures r.Ok? ==> r.value == |ChildNames(t, p)|
  {
    match ReadDir(t, env, p)
    case Err(e) => Err(e)
    case Ok(entries) => Ok(|entries|)
  }

  /** Only direct children count: an entry further down changes nothing. */
  lemma NumberOfFilesIgnoresGrandchildren(t: Tree, env: Env, p: Path, q: Path, n: Node)
    requires WellFormed(t) && p in t && t[p].Dir? && Within(q, p) && |q| > |p| + 1 && q !in t
    requires (ReadDirCall, p) !in env.denied
    ensures GetNumberOfFiles(t[q := n], env, p) == GetNumberOfFiles(t, env, p)
  {
    assert ChildNames(t[q := n], p) == ChildNames(t, p) by {
      forall m: Name ensures m in ChildNames(t[q := n], p) <==> m in ChildNames(t, p) {
        assert p + [m] != q;
      }
    }
  }

  /** What a walk entry adds to the directory size. */
  function EntrySize(t: Tree, q: Path): nat
  {
    if q in t && !t[q].Dir? then SizeOf(t[q]) else 0
  }

  function SumSizes(t: Tree, qs: seq<Path>): nat
  {
    if qs == [] then 0 else SumSizes(t, qs[..|qs| - 1]) + EntrySize(t, qs[|qs| - 1])
  }

  lemma {:induction false} SumSizesAppend(t: Tree, a: seq<Path>, b: seq<Path>)
    ensures SumSizes(t, a + b) == SumSizes(t, a) + SumSizes(t, b)
    decreases |b|
  {
    if b == [] {
      assert a + b == a;
    } else {
      assert (a + b)[..|a + b| - 1] == a + b[..|b| - 1];
      SumSizesAppend(t, a, b[..|b| - 1]);
    }
  }

  /** `GetDirectorySize`: the sizes of the non-directories the walk reaches,
      or the error that stopped the walk. */
  function DirectorySize(t: Tree, env: Env, p: Path): Result<nat, Error>
    requires WellFormed(t)
  {
    var w := WalkTree(t, env, p);
    if w.error.Some? then Err(w.error.value) else Ok(SumSizes(t, w.visited))
  }

  method GetDirectorySize(fs: FileSystem, p: Path) returns (r: Result<nat, Error>)
    requires fs.Valid()
    ensures r == DirectorySize(fs.tree, fs.env, p)
  {
    var w := WalkTree(fs.tree, fs.env, p);
    if w.error.Some? {
      return Err(w.error.value);
    }
    var size := 0;
    var i := 0;
    while i < |w.visited|
      invariant i <= |w.visited|
      invariant size == SumSizes(fs.tree, w.visited[..i])
    {
      var q := w.visited[i];
      if !fs.tree[q].Dir? {
        size := size + SizeOf(fs.tree[q]);
      }
      assert w.visited[..i + 1][..i] == w.visited[..i];
      i := i + 1;
    }
    assert w.visited[..i] == w.visited;
    return Ok(size);
  }

  /** No `lstat` or directory listing fails anywhere below `p`. */
  ghost predicate NoWalkFaults(t: Tree, env: Env, p: Path)
  {
    forall q :: q in t && Within(q, p) ==> (StatCall, q) !in env.denied && (ReadDirCall, q) !in env.denied
  }

  /** Paths appear at most once. */
  ghost predicate Distinct(qs: seq<Path>)
  {
    forall i, j :: 0 <= i < j < |qs| ==> qs[i] != qs[j]
  }

  /** Without faults the walk visits every entry below `p` exactly once, so
      the directory size is the total over the whole subtree. */
  lemma {:induction false} WalkVisitsSubtree(t: Tree, env: Env, p: Path)
    requires WellFormed(t) && p in t && NoWalkFaults(t, env, p)
    ensures WalkFrom(t, env, p).error.None?
    ensures Distinct(WalkFrom(t, env, p).visited)
    ensures forall q :: q in WalkFrom(t, env, p).visited <==> q in t && Within(q, p)
    decreases |Subtree(t, p)|, 1
  {
    var w := WalkFrom(t, env, p);
    if !t[p].Dir? {
      forall q | q in t && Within(q, p) ensures q == p {
        if q != p {
          BelowIsDir(t, p, q);
          assert false;
        }
      }
    } else {
      var names := Listing(t, p);
      SortedDistinct(names);
      WalkEntriesVisit(t, env, p, names);
      var rest := WalkEntries(t, env, p, names);
      assert w.visited == [p] + rest.visited;
      forall q | q in t && Within(q, p) && q != p
        ensures q in rest.visited
      {
        ChildOnTheWay(t, p, q);
      }
    }
  }

  /** An entry strictly below `p` lies below one of `p`'s children. */
  lemma ChildOnTheWay(t: Tree, p: Path, q: Path)
    requires WellFormed(t) && q in t && Within(q, p) && q != p
    ensures |q| > |p| && p + [q[|p|]] in t
  {
    var n := q[|p|];
    WithinChild(q, p, n);
    AncestorsExist(t, q, |p + [n]|);
  }

  /** Only a directory has entries below it. */
  lemma BelowIsDir(t: Tree, p: Path, q: Path)
    requires WellFormed(t) && q in t && Within(q, p) && q != p
    ensures p in t && t[p].Dir?
  {
    AncestorsExist(t, q, |p|);
  }

  lemma {:induction false} WalkEntriesVisit(t: Tree, env: Env, p: Path, names: seq<Name>)
    requires WellFormed(t) && p in t && NoWalkFaults(t, env, p)
    requires forall n :: n in names ==> p + [n] in t
    requires forall i, j :: 0 <= i < j < |names| ==> names[i] != names[j]
    ensures WalkEntries(t, env, p, names).error.None?
    ensures Distinct(WalkEntries(t, env, p, names).visited)
    ensures forall q :: q in WalkEntries(t, env, p, names).visited <==>
                        q in t && Within(q, p) && |q| > |p| && q[|p|] in names
    decreases |Subtree(t, p)|, 0, |names|
  {
    if names != [] {
      var n := names[0];
      var child := p + [n];
      SubtreeShrinks(t, p, n);
      NoWalkFaultsBelow(t, env, p, child);
      WalkVisitsSubtree(t, env, child);
      WalkEntriesVisit(t, env, p, names[1..]);
      WalkEntriesStep(t, env, p, names);
      var first := WalkFrom(t, env, child).visited;
      var rest := WalkEntries(t, env, p, names[1..]).visited;
      forall q ensures q in first <==> q in t && Within(q, p) && |q| > |p| && q[|p|] == n {
        WithinChild(q, p, n);
      }
      assert n !in names[1..];
      DistinctConcat(first, rest);
    }
  }

  /** One step of a fault-free walk over a directory's entries: the first
      entry's walk, then the walk of the rest. */
  lemma WalkEntriesStep(t: Tree, env: Env, p: Path, names: seq<Name>)
    requires WellFormed(t) && p in t && names != []
    requires forall n :: n in names ==> p + [n] in t
    requires (StatCall, p + [names[0]]) !in env.denied
    requires WalkFrom(t, env, p + [names[0]]).error.None?
    ensures WalkEntries(t, env, p, names)
         == var rest := WalkEntries(t, env, p, names[1..]);
            Walked(WalkFrom(t, env, p + [names[0]]).visited + rest.visited, rest.error)
  {
    assert p + [names[0]] in t;
  }

  lemma NoWalkFaultsBelow(t: Tree, env: Env, p: Path, q: Path)
    requires NoWalkFaults(t, env, p) && Within(q, p)
    ensures NoWalkFaults(t, env, q)
  {
    forall r | r in t && Within(r, q) ensures Within(r, p) {
      WithinTransitive(r, q, p);
    }
  }

  lemma DistinctConcat(a: seq<Path>, b: seq<Path>)
    requires Distinct(a) && Distinct(b) && forall x :: x in a ==> x !in b
    ensures Distinct(a + b)
  {
    forall i, j | 0 <= i < j < |a + b| ensures (a + b)[i] != (a + b)[j] {
      if i < |a| <= j {
        assert (a + b)[i] in a && (a + b)[j] in b;
      }
    }
  }

  /** `Remove`: a directory goes with everything below it, a regular file
      alone; anything else is refused. */
  function RemoveSpec(t: Tree, env: Env, p: Path): (r: (Tree, Outcome<Error>))
    requires WellFormed(t)
    ensures WellFormed(r.0)
  {
    match Stat(t, env, p)
    case Err(e) => (t, Fail(e))
    case Ok(n) =>
      if n.Dir? then RemoveAllT(t, env, p)
      else if n.File? then
        match RemoveT(t, env, p)
        case Ok(t1) => (t1, Pass)
        case Err(e) => (t, Fail(e))
      else (t, Fail(Unsupported(p)))
  }

  method Remove(fs: FileSystem, p: Path) returns (o: Outcome<Error>)
    requires fs.Valid()
    modifies fs
    ensures fs.Valid()
    ensures (fs.tree, o) == RemoveSpec(old(fs.tree), fs.env, p)
  {
    var st := Stat(fs.tree, fs.env, p);
    if st.Err? {
      return Fail(st.error);
    }
    if st.value.Dir? {
      var (t, out) := RemoveAllT(fs.tree, fs.env, p);
      fs.tree := t;
      return out;
    }
    if st.value.File? {
      o := fs.Apply(RemoveT(fs.tree, fs.env, p));
      return;
    }
    return Fail(Unsupported(p));
  }

  /** What `Remove` does to each kind of entry it can see. */
  lemma RemoveByKind(t: Tree, env: Env, p: Path)
    requires WellFormed(t) && p in t && (StatCall, p) !in env.denied && (RemoveCall, p) !in env.denied
    ensures t[p].Dir? && p != [] ==> RemoveSpec(t, env, p) == (Prune(t, p), Pass)
    ensures t[p].File? ==> RemoveSpec(t, env, p) == (t - {p}, Pass)
    ensures t[p].Symlink? ==> RemoveSpec(t, env, p) == (t, Fail(Unsupported(p)))
  {
  }

  /** `CreateFile`: create or truncate, then set the mode, then the owner. */
  function CreateFileSpec(t: Tree, env: Env, p: Path, perm: nat, uid: int, gid: int): (r: (Tree, Outcome<Error>))
    requires WellFormed(t)
    ensures WellFormed(r.0)
    ensures r.1.Pass? ==> r.0 == t[p := File([], perm, uid, gid)]
  {
    match CreateT(t, env, p, CREATE_PERM)
    case Err(e) => (t, Fail(e))
    case Ok(t1) =>
      match ChmodT(t1, env, p, perm)
      case Err(e) => (t1, Fail(e))
      case Ok(t2) =>
        match ChownT(t2, env, p, uid, gid)
        case Err(e) => (t2, Fail(e))
        case Ok(t3) => (t3, Pass)
  }

  method CreateFile(fs: FileSystem, p: Path, perm: nat, uid: int, gid: int) returns (o: Outcome<Error>)
    requires fs.Valid()
    modifies fs
    ensures fs.Valid()
    ensures (fs.tree, o) == CreateFileSpec(old(fs.tree), fs.env, p, perm, uid, gid)
  {
    o := fs.Apply(CreateT(fs.tree, fs.env, p, CREATE_PERM));
    if o.Fail? {
      return;
    }
    o := fs.Apply(ChmodT(fs.tree, fs.env, p, perm));
    if o.Fail? {
      return;
    }
    o := fs.Apply(ChownT(fs.tree, fs.env, p, uid, gid));
  }

  /** `WriteToFile` (`ioutil.WriteFile` with mode 0644): truncate or create,
      then write the whole content in one call. */
  function WriteToFileSpec(t: Tree, env: Env, p: Path, content: seq<Byte>): (r: (Tree, Outcome<Error>))
    requires WellFormed(t)
    ensures WellFormed(r.0)
    ensures r.1.Pass? ==> p in r.0 && r.0[p].File? && r.0[p].data == content
    ensures r.1.Pass? && p in t && t[p].File? ==>
              r.0 == t[p := File(content, t[p].perm, t[p].uid, t[p].gid)]
  {
    match CreateT(t, env, p, WRITE_PERM)
    case Err(e) => (t, Fail(e))
    case Ok(t1) =>
      if (WriteCall, p) in env.denied then (t1, Fail(Refused(WriteCall, p)))
      else
        match WriteT(t1, env, p, content)
        case Err(e) => (t1, Fail(e))
        case Ok(t2) => (t2, Pass)
  }

  /** `CreateFileWithMessage`: `CreateFile`, then `WriteToFile`. */
  function CreateFileWithMessageSpec(t: Tree, env: Env, p: Path, message: seq<Byte>, perm: nat, uid: int, gid: int)
    : (r: (Tree, Outcome<Error>))
    requires WellFormed(t)
    ensures WellFormed(r.0)
    ensures r.1.Pass? ==> r.0 == t[p := File(message, perm, uid, gid)]
  {
    var created := CreateFileSpec(t, env, p, perm, uid, gid);
    if created.1.Fail? then created
    else WriteToFileSpec(created.0, env, p, message)
  }

  method CreateFileWithMessage(fs: FileSystem, p: Path, message: seq<Byte>, perm: nat, uid: int, gid: int)
    returns (o: Outcome<Error>)
    requires fs.Valid()
    modifies fs
    ensures fs.Valid()
    ensures (fs.tree, o) == CreateFileWithMessageSpec(old(fs.tree), fs.env, p, message, perm, uid, gid)
  {
    o := CreateFile(fs, p, perm, uid, gid);
    if o.Fail? {
      return;
    }
    o := fs.Apply(CreateT(fs.tree, fs.env, p, WRITE_PERM));
    if o.Fail? {
      return;
    }
    if (WriteCall, p) in fs.env.denied {
      return Fail(Refused(WriteCall, p));
    }
    o := fs.Apply(WriteT(fs.tree, fs.env, p, message));
  }

  /** Reading back what `CreateFileWithMessage` wrote gives the message,
      as long as it is within the line limit and nothing fails. */
  lemma MessageReadsBack(t: Tree, env: Env, p: Path, message: seq<Byte>, perm: nat, uid: int, gid: int)
    requires WellFormed(t)
    requires CreateFileWithMessageSpec(t, env, p, message, perm, uid, gid).1.Pass?
    requires (OpenCall, p) !in env.denied && (p !in env.brokenAt || env.brokenAt[p] >= |message|)
    requires Newlines(message) <= LINE_LIMIT
    ensures ReadFileSpec(CreateFileWithMessageSpec(t, env, p, message, perm, uid, gid).0, env, p) == Ok(message)
  {
    var t' := CreateFileWithMessageSpec(t, env, p, message, perm, uid, gid).0;
    assert p in t' && PathLen(p) <= MAX_PATH_LEN;
    ReadFileLimit(t', env, p);
  }

  /** `CreateDirectory`: `os.Mkdir`, then `os.Chown`. */
  function CreateDirectorySpec(t: Tree, env: Env, p: Path, perm: nat, uid: int, gid: int): (r: (Tree, Outcome<Error>))
    requires WellFormed(t)
    ensures WellFormed(r.0)
    ensures r.1.Pass? ==> p !in t && r.0 == t[p := Dir(perm, uid, gid)]
  {
    match MkdirT(t, env, p, perm)
    case Err(e) => (t, Fail(e))
    case Ok(t1) =>
      match ChownT(t1, env, p, uid, gid)
      case Err(e) => (t1, Fail(e))
      case Ok(t2) => (t2, Pass)
  }

  method CreateDirectory(fs: FileSystem, p: Path, perm: nat, uid: int, gid: int) returns (o: Outcome<Error>)
    requires fs.Valid()
    modifies fs
    ensures fs.Valid()
    ensures (fs.tree, o) == CreateDirectorySpec(old(fs.tree), fs.env, p, perm, uid, gid)
  {
    o := fs.Apply(MkdirT(fs.tree, fs.env, p, perm));
    if o.Fail? {
      return;
    }
    o := fs.Apply(ChownT(fs.tree, fs.env, p, uid, gid));
  }

  /** `Remove` undoes a `CreateFile` of a path that did not exist. */
  lemma RemoveUndoesCreateFile(t: Tree, env: Env, p: Path, perm: nat, uid: int, gid: int)
    requires WellFormed(t) && p !in t
    requires CreateFileSpec(t, env, p, perm, uid, gid).1.Pass?
    requires (StatCall, p) !in env.denied && (RemoveCall, p) !in env.denied
    ensures RemoveSpec(CreateFileSpec(t, env, p, perm, uid, gid).0, env, p) == (t, Pass)
  {
    var t' := CreateFileSpec(t, env, p, perm, uid, gid).0;
    assert p in t' && PathLen(p) <= MAX_PATH_LEN;
    assert t' - {p} == t;
  }

  /** `Remove` undoes a `CreateDirectory`. */
  lemma RemoveUndoesCreateDirectory(t: Tree, env: Env, p: Path, perm: nat, uid: int, gid: int)
    requires WellFormed(t)
    requires CreateDirectorySpec(t, env, p, perm, uid, gid).1.Pass?
    requires (StatCall, p) !in env.denied && (RemoveCall, p) !in env.denied
    ensures RemoveSpec(CreateDirectorySpec(t, env, p, perm, uid, gid).0, env, p) == (t, Pass)
  {
    var t' := CreateDirectorySpec(t, env, p, perm, uid, gid).0;
    assert p in t' && PathLen(p) <= MAX_PATH_LEN;
    assert p != [];
    forall q | q in t && Within(q, p) ensures false {
      NothingBelowMissing(t, p, q);
    }
    assert Prune(t', p) == t;
  }
}
