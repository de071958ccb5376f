/** The operating system as the core sees it: an in-memory tree of files,
    directories and symbolic links keyed by path, the system calls the core
    makes on it, and the faults those calls may meet.  Every operation of
    the core is written against this module instead of package `os`. */
module FsModel {
  import opened Wrappers
  import opened Paths

  newtype Byte = x: int | 0 <= x < 256

  const NEWLINE: Byte := 10

  /** Size of the buffer through which `io.Copy` and the line counter read. */
  const CHUNK: nat := 32 * 1024

  /** Permission bits `os.Create` asks for before the umask. */
  const CREATE_PERM: nat := 0x1B6  // 0666

  /** Permission bits a symbolic link reports. */
  const LINK_PERM: nat := 0x1FF  // 0777

  /** A filesystem node.  `perm` holds the permission and special bits,
      the part of a mode that `chmod` sets. */
  datatype Node =
    | File(data: seq<Byte>, perm: nat, uid: int, gid: int)
    | Dir(perm: nat, uid: int, gid: int)
    | Symlink(target: string, uid: int, gid: int)

  datatype Kind = Regular | Directory | Link

  /** Go's `os.FileMode`: the type bits together with the permission bits. */
  datatype FileMode = FileMode(kind: Kind, perm: nat)

  function ModeOf(n: Node): FileMode
  {
    match n
    case File(_, perm, _, _) => FileMode(Regular, perm)
    case Dir(perm, _, _) => FileMode(Directory, perm)
    case Symlink(_, _, _) => FileMode(Link, LINK_PERM)
  }

  /** `FileInfo.Size()` as reported by `lstat`; directories are never summed. */
  function SizeOf(n: Node): nat
  {
    match n
    case File(data, _, _, _) => |data|
    case Dir(_, _, _) => 0
    case Symlink(target, _, _) => |target|
  }

  /** The system calls whose failure the model distinguishes. */
  datatype Syscall =
    | StatCall | OpenCall | CreateCall | WriteCall | ChmodCall | ChownCall | MkdirCall | ReadDirCall | RemoveCall

  /** Error kinds.  The source returns formatted messages; the model keeps
      which check failed and on which path. */
  datatype Error =
    | NotFound(path: Path)                 // ENOENT: `os.IsNotExist` holds
    | Refused(call: Syscall, path: Path)   // any other failure of a system call
    | ReadFailed(path: Path)               // a read error part-way through a file
    | IsADirectory(path: Path)
    | NotRegular(path: Path)
    | NotADirectory(path: Path)
    | AlreadyExists(path: Path)
    | Unsupported(path: Path)
    | HashMismatch(path: Path, other: Path)
    | UidMismatch(path: Path, other: Path)
    | GidMismatch(path: Path, other: Path)
    | ModeMismatch(path: Path, other: Path)
    | CountMismatch(path: Path, other: Path)
    | SizeMismatch(path: Path, other: Path)
    | TooManyLines(path: Path, lines: nat)
    | InArchive(input: Path, cause: Error)

  /** What the model does not compute but takes as given: the calls the
      system refuses (permissions, quotas, a failing `chown`), the offset at
      which reading a file fails, and the identity new entries are owned by. */
  datatype Env = Env(denied: set<(Syscall, Path)>, brokenAt: map<Path, nat>, uid: int, gid: int)

  type Tree = map<Path, Node>

  /** A tree the kernel could hold: the root is a directory, every other
      entry sits in a directory, and every path fits in PATH_MAX. */
  ghost predicate WellFormed(t: Tree)
  {
    && [] in t && t[[]].Dir?
    && (forall p :: p in t && p != [] ==> Parent(p) in t && t[Parent(p)].Dir?)
    && (forall p :: p in t ==> PathLen(p) <= MAX_PATH_LEN)
  }

  lemma {:induction false} AncestorsExist(t: Tree, p: Path, k: nat)
    requires WellFormed(t) && p in t && k <= |p|
    ensures p[..k] in t && (k < |p| ==> t[p[..k]].Dir?)
    decreases |p| - k
  {
    if k < |p| {
      AncestorsExist(t, p, k + 1);
      assert Parent(p[..k + 1]) == p[..k];
    } else {
      assert p[..k] == p;
    }
  }

  /** Nothing lies below a path that does not exist. */
  lemma NothingBelowMissing(t: Tree, p: Path, q: Path)
    requires WellFormed(t) && p !in t && Within(q, p)
    ensures q !in t
  {
    if q in t {
      AncestorsExist(t, q, |p|);
    }
  }

  /** What path resolution finds: the node, or that the path is missing with
      its parent a directory (it may be created), missing further up, or
      blocked (a non-directory on the way, or longer than PATH_MAX). */
  datatype Lookup = Found(node: Node) | Creatable | Missing | Blocked

  function Resolve(t: Tree, p: Path): (r: Lookup)
    ensures r.Found? <==> p in t && PathLen(p) <= MAX_PATH_LEN
    ensures r.Found? ==> r.node == t[p]
    ensures r.Creatable? ==>
              p != [] && p !in t && Parent(p) in t && t[Parent(p)].Dir? && PathLen(p) <= MAX_PATH_LEN
    decreases |p|
  {
    if PathLen(p) > MAX_PATH_LEN then Blocked
    else if p in t then Found(t[p])
    else if p == [] then Missing
    else
      match Resolve(t, Parent(p))
      case Found(n) => if n.Dir? then Creatable else Blocked
      case Creatable => Missing
      case Missing => Missing
      case Blocked => Blocked
  }

  /** `os.Stat` (and `os.Lstat`: links are not followed). */
  function Stat(t: Tree, env: Env, p: Path): (r: Result<Node, Error>)
    ensures r.Ok? ==> p in t && r.value == t[p]
    ensures WellFormed(t) && p in t && (StatCall, p) !in env.denied ==> r == Ok(t[p])
  {
    if (StatCall, p) in env.denied then Err(Refused(StatCall, p))
    else
      match Resolve(t, p)
      case Found(n) => Ok(n)
      case Creatable => Err(NotFound(p))
      case Missing => Err(NotFound(p))
      case Blocked => Err(Refused(StatCall, p))
  }

  /** `os.Open` for reading. */
  function Open(t: Tree, env: Env, p: Path): (r: Outcome<Error>)
    ensures r.Pass? ==> p in t
  {
    if (OpenCall, p) in env.denied then Fail(Refused(OpenCall, p))
    else
      match Resolve(t, p)
      case Found(_) => Pass
      case Creatable => Fail(NotFound(p))
      case Missing => Fail(NotFound(p))
      case Blocked => Fail(Refused(OpenCall, p))
  }

  /** The bytes a sequence of reads delivers before a read error, and the error. */
  datatype Read = Read(bytes: seq<Byte>, error: Option<Error>)

  /** How many bytes whole-chunk reads deliver before the one that fails at
      offset `fault`. */
  function Delivered(fault: nat): nat
  {
    (fault / CHUNK) * CHUNK
  }

  /** Reading an opened path to the end, a chunk at a time.  A read that
      covers the broken offset fails and delivers nothing; a directory or a
      link (never followed) cannot be read. */
  function ReadContent(t: Tree, env: Env, p: Path): (r: Read)
    requires p in t
    ensures r.error.None? <==> t[p].File? && (p !in env.brokenAt || env.brokenAt[p] >= |t[p].data|)
    ensures r.error.None? ==> r.bytes == t[p].data
  {
    match t[p]
    case File(data, _, _, _) =>
      if p in env.brokenAt && env.brokenAt[p] < |data| then
        Read(data[..Delivered(env.brokenAt[p])], Some(ReadFailed(p)))
      else
        Read(data, None)
    case Dir(_, _, _) => Read([], Some(ReadFailed(p)))
    case Symlink(_, _, _) => Read([], Some(ReadFailed(p)))
  }

  /** Opening `p` for writing with O_CREAT|O_TRUNC: an existing file is
      truncated and keeps its mode and owner, a missing one is created
      empty with `perm` and owned by the process.  `os.Create` passes
      CREATE_PERM. */
  function CreateT(t: Tree, env: Env, p: Path, perm: nat): (r: Result<Tree, Error>)
    requires WellFormed(t)
    ensures r.Ok? ==> WellFormed(r.value) && p in r.value && r.value[p].File? && r.value[p].data == []
    ensures r.Ok? && p in t ==> t[p].File? && r.value == t[p := File([], t[p].perm, t[p].uid, t[p].gid)]
    ensures r.Ok? && p !in t ==> r.value == t[p := File([], perm, env.uid, env.gid)]
  {
    if (CreateCall, p) in env.denied then Err(Refused(CreateCall, p))
    else
      match Resolve(t, p)
      case Found(n) =>
        if n.File? then Ok(t[p := File([], n.perm, n.uid, n.gid)])
        else if n.Dir? then Err(IsADirectory(p))
        else Err(Refused(CreateCall, p))
      case Creatable => Ok(t[p := File([], perm, env.uid, env.gid)])
      case Missing => Err(NotFound(p))
      case Blocked => Err(Refused(CreateCall, p))
  }

  /** Writing `bytes` at the end of the file open at `p`; writing nothing
      makes no call. */
  function WriteT(t: Tree, env: Env, p: Path, bytes: seq<Byte>): (r: Result<Tree, Error>)
    requires WellFormed(t)
    ensures r.Ok? ==> WellFormed(r.value)
    ensures r.Ok? && bytes == [] ==> r.value == t
    ensures r.Ok? && bytes != [] ==>
              p in t && t[p].File? && r.value == t[p := File(t[p].data + bytes, t[p].perm, t[p].uid, t[p].gid)]
  {
    if bytes == [] then Ok(t)
    else if (WriteCall, p) in env.denied then Err(Refused(WriteCall, p))
    else if p in t && t[p].File? then Ok(t[p := File(t[p].data + bytes, t[p].perm, t[p].uid, t[p].gid)])
    else Err(Refused(WriteCall, p))
  }

  /** `n` with its permission bits replaced; a link has none to replace. */
  function WithPerm(n: Node, perm: nat): (r: Node)
    ensures r.File? == n.File? && r.Dir? == n.Dir? && r.Symlink? == n.Symlink?
    ensures !n.Symlink? ==> ModeOf(r) == ModeOf(n).(perm := perm)
  {
    match n
    case File(data, _, uid, gid) => File(data, perm, uid, gid)
    case Dir(_, uid, gid) => Dir(perm, uid, gid)
    case Symlink(_, _, _) => n
  }

  /** `n` with a new owner. */
  function WithOwner(n: Node, uid: int, gid: int): (r: Node)
    ensures ModeOf(r) == ModeOf(n) && SizeOf(r) == SizeOf(n) && r.uid == uid && r.gid == gid
  {
    match n
    case File(data, perm, _, _) => File(data, perm, uid, gid)
    case Dir(perm, _, _) => Dir(perm, uid, gid)
    case Symlink(target, _, _) => Symlink(target, uid, gid)
  }

  /** `os.Chmod`: set the permission bits; the type bits are kept. */
  function ChmodT(t: Tree, env: Env, p: Path, perm: nat): (r: Result<Tree, Error>)
    requires WellFormed(t)
    ensures r.Ok? ==> WellFormed(r.value) && p in t && !t[p].Symlink?
                      && r.value == t[p := WithPerm(t[p], perm)]
  {
    if (ChmodCall, p) in env.denied then Err(Refused(ChmodCall, p))
    else
      match Resolve(t, p)
      case Found(n) => if n.Symlink? then Err(Refused(ChmodCall, p)) else Ok(t[p := WithPerm(n, perm)])
      case Creatable => Err(NotFound(p))
      case Missing => Err(NotFound(p))
      case Blocked => Err(Refused(ChmodCall, p))
  }

  /** `os.Chown`. */
  function ChownT(t: Tree, env: Env, p: Path, uid: int, gid: int): (r: Result<Tree, Error>)
    requires WellFormed(t)
    ensures r.Ok? ==> WellFormed(r.value) && p in t && !t[p].Symlink?
                      && r.value == t[p := WithOwner(t[p], uid, gid)]
  {
    if (ChownCall, p) in env.denied then Err(Refused(ChownCall, p))
    else
      match Resolve(t, p)
      case Found(n) => if n.Symlink? then Err(Refused(ChownCall, p)) else Ok(t[p := WithOwner(n, uid, gid)])
      case Creatable => Err(NotFound(p))
      case Missing => Err(NotFound(p))
      case Blocked => Err(Refused(ChownCall, p))
  }

  /** `os.Mkdir`: a new directory owned by the process. */
  function MkdirT(t: Tree, env: Env, p: Path, perm: nat): (r: Result<Tree, Error>)
    requires WellFormed(t)
    ensures r.Ok? ==> WellFormed(r.value) && p !in t && r.value == t[p := Dir(perm, env.uid, env.gid)]
  {
    if (MkdirCall, p) in env.denied then Err(Refused(MkdirCall, p))
    else
      match Resolve(t, p)
      case Found(_) => Err(AlreadyExists(p))
      case Creatable => Ok(t[p := Dir(perm, env.uid, env.gid)])
      case Missing => Err(NotFound(p))
      case Blocked => Err(Refused(MkdirCall, p))
  }

  /** The entries at or below `p`. */
  function Subtree(t: Tree, p: Path): set<Path>
  {
    set q | q in t && Within(q, p)
  }

  /** `t` without the subtree at `p`. */
  function Prune(t: Tree, p: Path): (r: Tree)
    ensures forall q :: q in r <==> q in t && !Within(q, p)
    ensures forall q :: q in r ==> r[q] == t[q]
  {
    map q | q in t && !Within(q, p) :: t[q]
  }

  lemma PruneWellFormed(t: Tree, p: Path)
    requires WellFormed(t) && p != []
    ensures WellFormed(Prune(t, p))
  {
    var r := Prune(t, p);
    assert [] in r;
    forall q | q in r && q != []
      ensures Parent(q) in r && r[Parent(q)].Dir?
    {
      if Within(Parent(q), p) {
        WithinTransitive(q, Parent(q), p);
      }
    }
  }

  /** `os.RemoveAll`.  A missing path is not an error.  The root cannot be
      removed, but everything below it is removed before that fails. */
  function RemoveAllT(t: Tree, env: Env, p: Path): (r: (Tree, Outcome<Error>))
    requires WellFormed(t)
    ensures WellFormed(r.0)
    ensures r.1.Pass? && p in t ==> r.0 == Prune(t, p)
  {
    match Resolve(t, p)
    case Found(_) =>
      if (RemoveCall, p) in env.denied then (t, Fail(Refused(RemoveCall, p)))
      else if p == [] then
        var r := t - (Subtree(t, []) - {[]});
        assert forall q :: q in r ==> q == [];
        (r, Fail(Refused(RemoveCall, p)))
      else
        PruneWellFormed(t, p);
        (Prune(t, p), Pass)
    case Creatable => (t, Pass)
    case Missing => (t, Pass)
    case Blocked => (t, Fail(Refused(RemoveCall, p)))
  }

  /** `os.Remove` of a file or link. */
  function RemoveT(t: Tree, env: Env, p: Path): (r: Result<Tree, Error>)
    requires WellFormed(t)
    ensures r.Ok? ==> WellFormed(r.value) && p in t && r.value == t - {p}
  {
    if (RemoveCall, p) in env.denied then Err(Refused(RemoveCall, p))
    else
      match Resolve(t, p)
      case Found(n) =>
        if n.Dir? then Err(Refused(RemoveCall, p))
        else
          assert forall q :: q in t - {p} && q != [] ==> Parent(q) != p;
          Ok(t - {p})
      case Creatable => Err(NotFound(p))
      case Missing => Err(NotFound(p))
      case Blocked => Err(Refused(RemoveCall, p))
  }

  /** The names of the entries directly inside `p`. */
  function ChildNames(t: Tree, p: Path): (r: set<Name>)
    ensures forall n: Name :: n in r <==> p + [n] in t
  {
    var r := set q | q in t && |q| == |p| + 1 && q[..|p|] == p :: q[|p|];
    assert forall q :: q in t && |q| == |p| + 1 && q[..|p|] == p ==> q == p + [q[|p|]];
    assert forall n: Name :: p + [n] in t ==> (p + [n])[..|p|] == p && (p + [n])[|p|] == n;
    r
  }

  /** The names of the entries directly inside `p`, in listing order. */
  function Listing(t: Tree, p: Path): (r: seq<Name>)
    ensures StrictlySorted(r)
    ensures forall n: Name :: n in r <==> p + [n] in t
    ensures |r| == |ChildNames(t, p)|
  {
    SortedNames(ChildNames(t, p))
  }

  /** `readDirNames`, the listing `filepath.Walk` reads. */
  function ReadDirNames(t: Tree, env: Env, p: Path): (r: Result<seq<Name>, Error>)
    ensures r.Ok? ==> p in t && t[p].Dir? && r.value == Listing(t, p)
  {
    if (ReadDirCall, p) in env.denied then Err(Refused(ReadDirCall, p))
    else
      match Resolve(t, p)
      case Found(n) => if n.Dir? then Ok(Listing(t, p)) else Err(Refused(ReadDirCall, p))
      case Creatable => Err(NotFound(p))
      case Missing => Err(NotFound(p))
      case Blocked => Err(Refused(ReadDirCall, p))
  }

  /** One entry of `ioutil.ReadDir`: a name and what `lstat` saw there. */
  datatype DirEntry = DirEntry(name: Name, node: Node)

  /** `ioutil.ReadDir`: the entries of a directory, sorted by name. */
  function ReadDir(t: Tree, env: Env, p: Path): (r: Result<seq<DirEntry>, Error>)
    ensures r.Ok? ==> p in t && t[p].Dir?
    ensures r.Ok? ==> |r.value| == |Listing(t, p)|
    ensures r.Ok? ==> forall i :: 0 <= i < |r.value| ==>
                        r.value[i].name == Listing(t, p)[i] && p + [r.value[i].name] in t
                        && r.value[i].node == t[p + [r.value[i].name]]
  {
    match ReadDirNames(t, env, p)
    case Err(e) => Err(e)
    case Ok(names) =>
      Ok(seq(|names|, i requires 0 <= i < |names| => DirEntry(names[i], t[p + [names[i]]])))
  }

  lemma SubtreeShrinks(t: Tree, p: Path, n: Name)
    requires p in t
    ensures |Subtree(t, p + [n])| < |Subtree(t, p)|
  {
    var big, small := Subtree(t, p), Subtree(t, p + [n]);
    forall q | q in small ensures q in big {
      WithinTransitive(q, p + [n], p);
    }
    assert p in big && p !in small;
    assert big == small + (big - small);
  }

  /** What `filepath.Walk` hands its callback: the paths reached without
      error, in order, then the error that stopped the walk, if any. */
  datatype Walked = Walked(visited: seq<Path>, error: Option<Error>)

  /** `filepath.Walk(root, fn)` for a callback that returns every error it
      is given and none of its own. */
  function WalkTree(t: Tree, env: Env, root: Path): (w: Walked)
    requires WellFormed(t)
    ensures forall q :: q in w.visited ==> q in t && Within(q, root)
  {
    match Stat(t, env, root)
    case Err(e) => Walked([], Some(e))
    case Ok(_) => WalkFrom(t, env, root)
  }

  /** The walk below an existing path: the path itself, then, for a
      directory, each entry in listing order. */
  function WalkFrom(t: Tree, env: Env, p: Path): (w: Walked)
    requires WellFormed(t) && p in t
    ensures forall q :: q in w.visited ==> q in t && Within(q, p)
    decreases |Subtree(t, p)|, 1, 0
  {
    if !t[p].Dir? then Walked([p], None)
    else
      match ReadDirNames(t, env, p)
      case Err(e) => Walked([], Some(e))
      case Ok(names) =>
        var rest := WalkEntries(t, env, p, names);
        Walked([p] + rest.visited, rest.error)
  }

  function WalkEntries(t: Tree, env: Env, p: Path, names: seq<Name>): (w: Walked)
    requires WellFormed(t) && p in t
    requires forall n :: n in names ==> p + [n] in t
    ensures forall q :: q in w.visited ==> q in t && Within(q, p)
    decreases |Subtree(t, p)|, 0, |names|
  {
    if names == [] then Walked([], None)
    else
      var child := p + [names[0]];
      match Stat(t, env, child)
      case Err(e) => Walked([], Some(e))
      case Ok(_) =>
        SubtreeShrinks(t, p, names[0]);
        var first := WalkFrom(t, env, child);
        assert forall q :: q in first.visited ==> Within(q, p) by {
          forall q | q in first.visited ensures Within(q, p) {
            WithinTransitive(q, child, p);
          }
        }
        if first.error.Some? then first
        else
          var rest := WalkEntries(t, env, p, names[1..]);
          Walked(first.visited + rest.visited, rest.error)
  }

  /** The running system: the tree, which the core's operations change in
      place, and the environment, which they do not. */
  class FileSystem {
    var tree: Tree
    const env: Env

    ghost predicate Valid()
      reads this
    {
      WellFormed(tree)
    }

    constructor (t: Tree, e: Env)
      requires WellFormed(t)
      ensures Valid() && tree == t && env == e
    {
      tree := t;
      env := e;
    }

    /** Applies an atomic system call: its new tree, or no change and its error. */
    method Apply(r: Result<Tree, Error>) returns (o: Outcome<Error>)
      requires r.Ok? ==> WellFormed(r.value)
      requires Valid()
      modifies this
      ensures Valid()
      ensures r.Ok? ==> tree == r.value && o == Pass
      ensures r.Err? ==> tree == old(tree) && o == Fail(r.error)
    {
      match r
      case Ok(t) =>
        tree := t;
        o := Pass;
      case Err(e) =>
        o := Fail(e);
    }

    /** `os.MkdirAll`: create `p` and any missing parent, each with `perm`. */
    method MkdirAll(p: Path, perm: nat) returns (o: Outcome<Error>)
      requires Valid()
      modifies this
      ensures Valid()
      ensures (tree, o) == MkdirAllT(old(tree), env, p, perm)
      decreases |p|
    {
      var st := Stat(tree, env, p);
      if st.Ok? {
        o := if st.value.Dir? then Pass else Fail(Refused(MkdirCall, p));
        return;
      }
      if |p| > 1 {
        o := MkdirAll(Parent(p), perm);
        if o.Fail? {
          return;
        }
      }
      var made := MkdirT(tree, env, p, perm);
      if made.Err? {
        var again := Stat(tree, env, p);
        o := if again.Ok? && again.value.Dir? then Pass else Fail(made.error);
        return;
      }
      o := Apply(made);
    }
  }

  /** `os.MkdirAll`, as a transformation of the tree: on failure the
      parents already made stay. */
  function MkdirAllT(t: Tree, env: Env, p: Path, perm: nat): (r: (Tree, Outcome<Error>))
    requires WellFormed(t)
    ensures WellFormed(r.0)
    ensures r.1.Pass? ==> p in r.0 && r.0[p].Dir?
    ensures forall q :: q in t ==> q in r.0 && r.0[q] == t[q]
    ensures forall q :: q in r.0 && q !in t ==> Within(p, q) && r.0[q] == Dir(perm, env.uid, env.gid)
    decreases |p|
  {
    match Stat(t, env, p)
    case Ok(n) => if n.Dir? then (t, Pass) else (t, Fail(Refused(MkdirCall, p)))
    case Err(_) =>
      var parent := if |p| > 1 then MkdirAllT(t, env, Parent(p), perm) else (t, Pass);
      if parent.1.Fail? then parent
      else
        var t1 := parent.0;
        match MkdirT(t1, env, p, perm)
        case Ok(t2) => (t2, Pass)
        case Err(e) =>
          var again := Stat(t1, env, p);
          if again.Ok? && again.value.Dir? then (t1, Pass) else (t1, Fail(e))
  }
}
