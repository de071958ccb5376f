/** The checks of `core/check.go`: read-only comparisons of two files, or of
    two directories, that report the first difference they find. */
module Check {
  import opened Wrappers
  import opened Paths
  import opened FsModel
  import opened Files

  /** `CheckIfIsFile`: `(true, nil)` for a regular file, `(false, err)` otherwise. */
  function CheckIfIsFile(t: Tree, env: Env, p: Path): (r: Result<bool, Error>)
    ensures r.Ok? ==> r.value
    ensures r.Ok? <==> Stat(t, env, p).Ok? && Stat(t, env, p).value.File?
  {
    match Stat(t, env, p)
    case Err(e) => Err(e)
    case Ok(n) => if n.File? then Ok(true) else Err(NotRegular(p))
  }

  /** What `CheckIfIsFile` reports for each kind of path. */
  lemma CheckIfIsFileCases(t: Tree, env: Env, p: Path)
    requires WellFormed(t) && (StatCall, p) !in env.denied
    ensures p in t && t[p].File? ==> CheckIfIsFile(t, env, p) == Ok(true)
    ensures p in t && !t[p].File? ==> CheckIfIsFile(t, env, p) == Err(NotRegular(p))
    ensures p !in t ==> CheckIfIsFile(t, env, p) in {Err(NotFound(p)), Err(Refused(StatCall, p))}
  {
  }

  /** `CheckHash`: both digests can be computed and they are equal. */
  function CheckHash(t: Tree, env: Env, hash: seq<Byte> -> Digest, a: Path, b: Path): (r: Outcome<Error>)
    ensures r.Pass? <==> Readable(t, env, a) && Readable(t, env, b) && hash(t[a].data) == hash(t[b].data)
  {
    match GetHash(t, env, hash, a)
    case Err(e) => Fail(e)
    case Ok(ha) =>
      match GetHash(t, env, hash, b)
      case Err(e) => Fail(e)
      case Ok(hb) => if ha != hb then Fail(HashMismatch(a, b)) else Pass
  }

  /** Two readable files with the same bytes always pass, whatever the digest. */
  lemma SameBytesSameHash(t: Tree, env: Env, hash: seq<Byte> -> Digest, a: Path, b: Path)
    requires Readable(t, env, a) && Readable(t, env, b) && t[a].data == t[b].data
    ensures CheckHash(t, env, hash, a, b) == Pass
  {
  }

  /** `CheckOwner`: the uids are compared before the gids. */
  function CheckOwner(t: Tree, env: Env, a: Path, b: Path): (r: Outcome<Error>)
    ensures r.Pass? <==> Stat(t, env, a).Ok? && Stat(t, env, b).Ok? && t[a].uid == t[b].uid && t[a].gid == t[b].gid
    ensures r == Fail(UidMismatch(a, b)) <==> Stat(t, env, a).Ok? && Stat(t, env, b).Ok? && t[a].uid != t[b].uid
    ensures r == Fail(GidMismatch(a, b)) <==>
              Stat(t, env, a).Ok? && Stat(t, env, b).Ok? && t[a].uid == t[b].uid && t[a].gid != t[b].gid
  {
    match Stat(t, env, a)
    case Err(e) => Fail(e)
    case Ok(na) =>
      match Stat(t, env, b)
      case Err(e) => Fail(e)
      case Ok(nb) =>
        if na.uid != nb.uid then Fail(UidMismatch(a, b))
        else if na.gid != nb.gid then Fail(GidMismatch(a, b))
        else Pass
  }

  /** `CheckPermissions`: the whole mode, type bits included. */
  function CheckPermissions(t: Tree, env: Env, a: Path, b: Path): (r: Outcome<Error>)
    ensures r.Pass? <==> Stat(t, env, a).Ok? && Stat(t, env, b).Ok? && ModeOf(t[a]) == ModeOf(t[b])
    ensures r.Fail? && Stat(t, env, a).Ok? && Stat(t, env, b).Ok? ==> r.error == ModeMismatch(a, b)
  {
    match Stat(t, env, a)
    case Err(e) => Fail(e)
    case Ok(na) =>
      match Stat(t, env, b)
      case Err(e) => Fail(e)
      case Ok(nb) => if ModeOf(na) != ModeOf(nb) then Fail(ModeMismatch(a, b)) else Pass
  }

  /** The type bits count: a file and a directory never have the same mode,
      whatever their permission bits. */
  lemma PermissionsSeeType(t: Tree, env: Env, a: Path, b: Path)
    requires Stat(t, env, a).Ok? && Stat(t, env, b).Ok?
    requires t[a].File? && t[b].Dir? && t[a].perm == t[b].perm
    ensures CheckPermissions(t, env, a, b) == Fail(ModeMismatch(a, b))
  {
  }

  /** The loop of `CheckIfFilesMatch` over its two paths: the error of the
      first that is not a regular file. */
  function FirstNonFile(t: Tree, env: Env, paths: seq<Path>): (r: Option<Error>)
    ensures r.None? <==> forall i :: 0 <= i < |paths| ==> CheckIfIsFile(t, env, paths[i]).Ok?
  {
    if paths == [] then None
    else
      match CheckIfIsFile(t, env, paths[0])
      case Err(e) => Some(e)
      case Ok(_) =>
        var r := FirstNonFile(t, env, paths[1..]);
        assert forall i :: 1 <= i < |paths| ==> paths[i] == paths[1..][i - 1];
        r
  }

  /** `CheckIfFilesMatch`: both regular files, then hash, owner and mode,
      in that order; `(true, nil)` or `(false, err)`. */
  function CheckIfFilesMatch(t: Tree, env: Env, hash: seq<Byte> -> Digest, a: Path, b: Path): (r: Result<bool, Error>)
    ensures r.Ok? ==> r.value
  {
    match FirstNonFile(t, env, [a, b])
    case Some(e) => Err(e)
    case None =>
      match CheckHash(t, env, hash, a, b)
      case Fail(e) => Err(e)
      case Pass =>
        match CheckOwner(t, env, a, b)
        case Fail(e) => Err(e)
        case Pass =>
          match CheckPermissions(t, env, a, b)
          case Fail(e) => Err(e)
          case Pass => Ok(true)
  }

  /** Success means every check passes; a failure is the error of the first
      check that failed. */
  lemma FilesMatchMeaning(t: Tree, env: Env, hash: seq<Byte> -> Digest, a: Path, b: Path)
    ensures CheckIfFilesMatch(t, env, hash, a, b).Ok? <==>
              && CheckIfIsFile(t, env, a).Ok? && CheckIfIsFile(t, env, b).Ok?
              && CheckHash(t, env, hash, a, b).Pass?
              && CheckOwner(t, env, a, b).Pass?
              && CheckPermissions(t, env, a, b).Pass?
    ensures CheckIfIsFile(t, env, a).Err? ==>
              CheckIfFilesMatch(t, env, hash, a, b) == Err(CheckIfIsFile(t, env, a).error)
    ensures CheckIfIsFile(t, env, a).Ok? && CheckIfIsFile(t, env, b).Err? ==>
              CheckIfFilesMatch(t, env, hash, a, b) == Err(CheckIfIsFile(t, env, b).error)
    ensures CheckIfIsFile(t, env, a).Ok? && CheckIfIsFile(t, env, b).Ok? && CheckHash(t, env, hash, a, b).Fail? ==>
              CheckIfFilesMatch(t, env, hash, a, b) == Err(CheckHash(t, env, hash, a, b).error)
    ensures CheckIfIsFile(t, env, a).Ok? && CheckIfIsFile(t, env, b).Ok? && CheckHash(t, env, hash, a, b).Pass?
            && CheckOwner(t, env, a, b).Fail? ==>
              CheckIfFilesMatch(t, env, hash, a, b) == Err(CheckOwner(t, env, a, b).error)
    ensures CheckIfIsFile(t, env, a).Ok? && CheckIfIsFile(t, env, b).Ok? && CheckHash(t, env, hash, a, b).Pass?
            && CheckOwner(t, env, a, b).Pass? && CheckPermissions(t, env, a, b).Fail? ==>
              CheckIfFilesMatch(t, env, hash, a, b) == Err(CheckPermissions(t, env, a, b).error)
  {
    assert [a, b][0] == a && [a, b][1..] == [b] && [b][1..] == [];
    assert FirstNonFile(t, env, [b]) == if CheckIfIsFile(t, env, b).Err? then Some(CheckIfIsFile(t, env, b).error) else None;
  }

  /** `CheckIfDirectoriesMatch`: both directories, the same number of direct
      entries, the same total size; contents are never compared. */
  function CheckIfDirectoriesMatch(t: Tree, env: Env, a: Path, b: Path): (r: Outcome<Error>)
    requires WellFormed(t)
    ensures r.Pass? ==> a in t && b in t && t[a].Dir? && t[b].Dir?
    ensures r.Pass? ==> |ChildNames(t, a)| == |ChildNames(t, b)|
    ensures r.Pass? ==> DirectorySize(t, env, a).Ok? && DirectorySize(t, env, a) == DirectorySize(t, env, b)
    ensures BothDirectories(t, env, a, b) && SameCount(t, env, a, b)
            && DirectorySize(t, env, a).Ok? && DirectorySize(t, env, a) == DirectorySize(t, env, b) ==>
              r == Pass
  {
    match Stat(t, env, a)
    case Err(e) => Fail(e)
    case Ok(na) =>
      match Stat(t, env, b)
      case Err(e) => Fail(e)
      case Ok(nb) =>
        if !na.Dir? || !nb.Dir? then Fail(NotADirectory(a))
        else
          match GetNumberOfFiles(t, env, a)
          case Err(e) => Fail(e)
          case Ok(ca) =>
            match GetNumberOfFiles(t, env, b)
            case Err(e) => Fail(e)
            case Ok(cb) =>
              if ca != cb then Fail(CountMismatch(a, b))
              else
                match DirectorySize(t, env, a)
                case Err(e) => Fail(e)
                case Ok(sa) =>
                  match DirectorySize(t, env, b)
                  case Err(e) => Fail(e)
                  case Ok(sb) => if sa != sb then Fail(SizeMismatch(a, b)) else Pass
  }

  /** Both paths stat as directories. */
  predicate BothDirectories(t: Tree, env: Env, a: Path, b: Path)
  {
    Stat(t, env, a).Ok? && Stat(t, env, b).Ok? && Stat(t, env, a).value.Dir? && Stat(t, env, b).value.Dir?
  }

  /** Both directories list the same number of entries. */
  predicate SameCount(t: Tree, env: Env, a: Path, b: Path)
  {
    GetNumberOfFiles(t, env, a).Ok? && GetNumberOfFiles(t, env, a) == GetNumberOfFiles(t, env, b)
  }

  /** A failed directory check reports the first step that failed: the
      stat of `a`, the stat of `b`, the directory test, the listing of `a`,
      then of `b`, the entry counts, the size of `a`, then of `b`, and last
      the sizes. */
  lemma DirectoriesMatchOrder(t: Tree, env: Env, a: Path, b: Path)
    requires WellFormed(t)
    ensures Stat(t, env, a).Err? ==> CheckIfDirectoriesMatch(t, env, a, b) == Fail(Stat(t, env, a).error)
    ensures Stat(t, env, a).Ok? && Stat(t, env, b).Err? ==>
              CheckIfDirectoriesMatch(t, env, a, b) == Fail(Stat(t, env, b).error)
    ensures Stat(t, env, a).Ok? && Stat(t, env, b).Ok? && !BothDirectories(t, env, a, b) ==>
              CheckIfDirectoriesMatch(t, env, a, b) == Fail(NotADirectory(a))
    ensures BothDirectories(t, env, a, b) && GetNumberOfFiles(t, env, a).Err? ==>
              CheckIfDirectoriesMatch(t, env, a, b) == Fail(GetNumberOfFiles(t, env, a).error)
    ensures BothDirectories(t, env, a, b) && GetNumberOfFiles(t, env, a).Ok? && GetNumberOfFiles(t, env, b).Err? ==>
              CheckIfDirectoriesMatch(t, env, a, b) == Fail(GetNumberOfFiles(t, env, b).error)
    ensures BothDirectories(t, env, a, b) && GetNumberOfFiles(t, env, a).Ok? && GetNumberOfFiles(t, env, b).Ok?
            && GetNumberOfFiles(t, env, a) != GetNumberOfFiles(t, env, b) ==>
              CheckIfDirectoriesMatch(t, env, a, b) == Fail(CountMismatch(a, b))
    ensures BothDirectories(t, env, a, b) && SameCount(t, env, a, b) && DirectorySize(t, env, a).Err? ==>
              CheckIfDirectoriesMatch(t, env, a, b) == Fail(DirectorySize(t, env, a).error)
    ensures BothDirectories(t, env, a, b) && SameCount(t, env, a, b) && DirectorySize(t, env, a).Ok?
            && DirectorySize(t, env, b).Err? ==>
              CheckIfDirectoriesMatch(t, env, a, b) == Fail(DirectorySize(t, env, b).error)
    ensures BothDirectories(t, env, a, b) && SameCount(t, env, a, b) && DirectorySize(t, env, a).Ok?
            && DirectorySize(t, env, b).Ok? && DirectorySize(t, env, a) != DirectorySize(t, env, b) ==>
              CheckIfDirectoriesMatch(t, env, a, b) == Fail(SizeMismatch(a, b))
  {
  }

  /** Two nodes a shallow comparison cannot tell apart. */
  predicate Alike(n: Node, m: Node)
  {
    n.Dir? == m.Dir? && (!n.Dir? ==> SizeOf(n) == SizeOf(m))
  }

  /** The subtrees at `a` and `b` have the same names at the same relative
      paths, with nodes of the same kind and size. */
  ghost predicate SameShape(t: Tree, a: Path, b: Path)
  {
    forall rel: Path ::
      (a + rel in t <==> b + rel in t) && (a + rel in t ==> Alike(t[a + rel], t[b + rel]))
  }

  lemma SameShapeChild(t: Tree, a: Path, b: Path, n: Name)
    requires SameShape(t, a, b)
    ensures SameShape(t, a + [n], b + [n])
  {
    forall rel: Path ensures (a + [n] + rel in t <==> b + [n] + rel in t)
                             && (a + [n] + rel in t ==> Alike(t[a + [n] + rel], t[b + [n] + rel]))
    {
      assert a + [n] + rel == a + ([n] + rel);
      assert b + [n] + rel == b + ([n] + rel);
    }
  }

  lemma SameShapeListing(t: Tree, a: Path, b: Path)
    requires SameShape(t, a, b)
    ensures ChildNames(t, a) == ChildNames(t, b)
    ensures Listing(t, a) == Listing(t, b)
  {
    forall n: Name ensures n in ChildNames(t, a) <==> n in ChildNames(t, b) {
      assert (a + [n] in t) == (b + [n] in t);
    }
  }

  /** Walks of two same-shaped fault-free subtrees add up to the same size. */
  lemma {:induction false} WalkSizesAgree(t: Tree, env: Env, a: Path, b: Path)
    requires WellFormed(t) && a in t && b in t && SameShape(t, a, b)
    requires NoWalkFaults(t, env, a) && NoWalkFaults(t, env, b)
    ensures WalkFrom(t, env, a).error.None? && WalkFrom(t, env, b).error.None?
    ensures SumSizes(t, WalkFrom(t, env, a).visited) == SumSizes(t, WalkFrom(t, env, b).visited)
    decreases |Subtree(t, a)|, 1
  {
    WalkVisitsSubtree(t, env, a);
    WalkVisitsSubtree(t, env, b);
    assert a + [] == a && b + [] == b;
    assert Alike(t[a], t[b]);
    if t[a].Dir? {
      var names := Listing(t, a);
      SameShapeListing(t, a, b);
      WalkEntriesSizesAgree(t, env, a, b, names);
      var ra := WalkEntries(t, env, a, names);
      var rb := WalkEntries(t, env, b, names);
      assert WalkFrom(t, env, a).visited == [a] + ra.visited;
      assert WalkFrom(t, env, b).visited == [b] + rb.visited;
      SumSizesAppend(t, [a], ra.visited);
      SumSizesAppend(t, [b], rb.visited);
      assert [a][..0] == [] && [b][..0] == [];
    } else {
      assert [a][..0] == [] && [b][..0] == [];
    }
  }

  lemma {:induction false} WalkEntriesSizesAgree(t: Tree, env: Env, a: Path, b: Path, names: seq<Name>)
    requires WellFormed(t) && a in t && b in t && SameShape(t, a, b)
    requires NoWalkFaults(t, env, a) && NoWalkFaults(t, env, b)
    requires forall n :: n in names ==> a + [n] in t && b + [n] in t
    ensures WalkEntries(t, env, a, names).error.None? && WalkEntries(t, env, b, names).error.None?
    ensures SumSizes(t, WalkEntries(t, env, a, names).visited) == SumSizes(t, WalkEntries(t, env, b, names).visited)
    decreases |Subtree(t, a)|, 0, |names|
  {
    if names != [] {
      var n := names[0];
      SubtreeShrinks(t, a, n);
      SameShapeChild(t, a, b, n);
      NoWalkFaultsBelow(t, env, a, a + [n]);
      NoWalkFaultsBelow(t, env, b, b + [n]);
      WalkSizesAgree(t, env, a + [n], b + [n]);
      WalkEntriesSizesAgree(t, env, a, b, names[1..]);
      WalkEntriesStep(t, env, a, names);
      WalkEntriesStep(t, env, b, names);
      var fa, fb := WalkFrom(t, env, a + [n]), WalkFrom(t, env, b + [n]);
      var ra, rb := WalkEntries(t, env, a, names[1..]), WalkEntries(t, env, b, names[1..]);
      SumSizesAppend(t, fa.visited, ra.visited);
      SumSizesAppend(t, fb.visited, rb.visited);
    }
  }

  /** The directory check is shallow: two same-shaped directories pass
      whatever bytes their files hold. */
  lemma ShapeIsEnough(t: Tree, env: Env, a: Path, b: Path)
    requires WellFormed(t) && a in t && b in t && t[a].Dir? && SameShape(t, a, b)
    requires NoWalkFaults(t, env, a) && NoWalkFaults(t, env, b)
    ensures CheckIfDirectoriesMatch(t, env, a, b) == Pass
  {
    assert a + [] == a && b + [] == b;
    assert Stat(t, env, a) == Ok(t[a]) && Stat(t, env, b) == Ok(t[b]);
    SameShapeListing(t, a, b);
    assert ReadDirNames(t, env, a).Ok? && ReadDirNames(t, env, b).Ok?;
    assert GetNumberOfFiles(t, env, a) == GetNumberOfFiles(t, env, b);
    WalkSizesAgree(t, env, a, b);
    assert DirectorySize(t, env, a) == Ok(SumSizes(t, WalkFrom(t, env, a).visited));
    assert DirectorySize(t, env, b) == Ok(SumSizes(t, WalkFrom(t, env, b).visited));
  }
}
