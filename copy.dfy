/** `core/copy.go`: copying a regular file, a directory tree, or either.
    The copies change the filesystem in place; each method is proved equal
    to a function that describes the same steps on the tree, and the
    lemmas state what those steps achieve. */
module Copy {
  import opened Wrappers
  import opened Paths
  import opened FsModel
  import opened Files
  import opened Check

  /** Where `CopyFile` writes: inside `dst`, under the source's name, when
      `dst` is an existing directory; `dst` itself otherwise. */
  function CopyTarget(t: Tree, env: Env, src: Path, dst: Path): (r: Path)
    ensures Stat(t, env, dst).Ok? && Stat(t, env, dst).value.Dir? ==> r == dst + [Base(src)]
    ensures !(Stat(t, env, dst).Ok? && Stat(t, env, dst).value.Dir?) ==> r == dst
  {
    match Stat(t, env, dst)
    case Ok(n) => if n.Dir? then dst + [Base(src)] else dst
    case Err(_) => dst
  }

  /** `b` is `a` with only the entry at `p` set, created or replaced. */
  predicate Touched(a: Tree, b: Tree, p: Path)
  {
    p in b && b == a[p := b[p]]
  }

  /** `CopyFile`: stat and open the source, resolve the target, create (or
      truncate) it, copy the bytes, then give it the source's mode and
      owner.  Returns the new tree and the number of bytes copied. */
  function CopyFileSpec(t: Tree, env: Env, src: Path, dst: Path): (r: (Tree, Result<nat, Error>))
    requires WellFormed(t)
    ensures WellFormed(r.0)
    ensures r.0 == t || Touched(t, r.0, CopyTarget(t, env, src, dst))
    ensures Stat(t, env, src).Err? ==> r == (t, Err(Stat(t, env, src).error))
    ensures Stat(t, env, src).Ok? && t[src].Dir? ==> r == (t, Err(IsADirectory(src)))
    ensures Stat(t, env, src).Ok? && t[src].Symlink? ==> r == (t, Err(NotRegular(src)))
  {
    match Stat(t, env, src)
    case Err(e) => (t, Err(e))
    case Ok(info) =>
      if info.Dir? then (t, Err(IsADirectory(src)))
      else if !info.File? then (t, Err(NotRegular(src)))
      else
        match Open(t, env, src)
        case Fail(e) => (t, Err(e))
        case Pass =>
          var dstInfo := Stat(t, env, dst);
          if dstInfo.Err? && !dstInfo.error.NotFound? then (t, Err(dstInfo.error))
          else
            var target := CopyTarget(t, env, src, dst);
            match CreateT(t, env, target, CREATE_PERM)
            case Err(e) => (t, Err(e))
            case Ok(t1) =>
              var r := Transfer(t1, env, src, target, info.perm, info.uid, info.gid);
              TouchedTwice(t, t1, r.0, target);
              r
  }

  /** The part of `CopyFile` after the target is created: copy the bytes,
      then set the mode and owner of `info` on the target.  The source was
      opened before the target was truncated, so copying a file onto itself
      reads the truncated file. */
  function Transfer(t: Tree, env: Env, src: Path, target: Path, perm: nat, uid: int, gid: int): (r: (Tree, Result<nat, Error>))
    requires WellFormed(t) && src in t
    ensures WellFormed(r.0)
    ensures r.0 == t || Touched(t, r.0, target)
  {
    var read := ReadContent(t, env, src);
    match WriteT(t, env, target, read.bytes)
    case Err(e) => (t, Err(e))
    case Ok(t2) =>
      if read.error.Some? then (t2, Err(read.error.value))
      else
        match ChmodT(t2, env, target, perm)
        case Err(e) => (t2, Err(e))
        case Ok(t3) =>
          TouchedAgain(t, t2, target, t3[target]);
          match ChownT(t3, env, target, uid, gid)
          case Err(e) => (t3, Err(e))
          case Ok(t4) =>
            TouchedAgain(t, t3, target, t4[target]);
            (t4, Ok(|read.bytes|))
  }

  lemma TouchedTwice(a: Tree, b: Tree, c: Tree, p: Path)
    requires Touched(a, b, p) && (c == b || Touched(b, c, p))
    ensures Touched(a, c, p)
  {
    assert c == a[p := c[p]];
  }

  lemma TouchedAgain(a: Tree, b: Tree, p: Path, n: Node)
    requires b == a || Touched(a, b, p)
    ensures Touched(a, b[p := n], p)
  {
    assert b[p := n] == a[p := n];
  }

  /** A transfer that succeeds onto a freshly emptied file leaves there the
      source's bytes with the given mode and owner. */
  lemma TransferSuccess(t: Tree, env: Env, src: Path, target: Path, perm: nat, uid: int, gid: int)
    requires WellFormed(t) && src in t
    requires target in t && t[target].File? && t[target].data == []
    requires Transfer(t, env, src, target, perm, uid, gid).1.Ok?
    ensures ReadContent(t, env, src).error.None?
    ensures Transfer(t, env, src, target, perm, uid, gid).0 == t[target := File(t[src].data, perm, uid, gid)]
    ensures Transfer(t, env, src, target, perm, uid, gid).1 == Ok(|t[src].data|)
  {
    var read := ReadContent(t, env, src);
    var t2 := WriteT(t, env, target, read.bytes).value;
    var n := t[target];
    if read.bytes == [] {
      assert t2 == t[target := File(read.bytes, n.perm, n.uid, n.gid)];
    } else {
      assert n.data + read.bytes == read.bytes;
    }
    var t3 := ChmodT(t2, env, target, perm).value;
    assert t3 == t[target := File(read.bytes, perm, n.uid, n.gid)];
  }

  method CopyFile(fs: FileSystem, src: Path, dst: Path) returns (r: Result<nat, Error>)
    requires fs.Valid()
    modifies fs
    ensures fs.Valid()
    ensures (fs.tree, r) == CopyFileSpec(old(fs.tree), fs.env, src, dst)
  {
    var st := Stat(fs.tree, fs.env, src);
    if st.Err? {
      return Err(st.error);
    }
    var info := st.value;
    if info.Dir? {
      return Err(IsADirectory(src));
    }
    if !info.File? {
      return Err(NotRegular(src));
    }
    var access := Open(fs.tree, fs.env, src);
    if access.Fail? {
      return Err(access.error);
    }
    var target := dst;
    var dstInfo := Stat(fs.tree, fs.env, dst);
    if dstInfo.Err? && !dstInfo.error.NotFound? {
      return Err(dstInfo.error);
    }
    if dstInfo.Ok? && dstInfo.value.Dir? {
      target := dst + [Base(src)];
    }
    var o := fs.Apply(CreateT(fs.tree, fs.env, target, CREATE_PERM));
    if o.Fail? {
      return Err(o.error);
    }
    var read := ReadContent(fs.tree, fs.env, src);
    o := fs.Apply(WriteT(fs.tree, fs.env, target, read.bytes));
    if o.Fail? {
      return Err(o.error);
    }
    if read.error.Some? {
      return Err(read.error.value);
    }
    o := fs.Apply(ChmodT(fs.tree, fs.env, target, info.perm));
    if o.Fail? {
      return Err(o.error);
    }
    o := fs.Apply(ChownT(fs.tree, fs.env, target, info.uid, info.gid));
    if o.Fail? {
      return Err(o.error);
    }
    return Ok(|read.bytes|);
  }

  /** A successful copy to a target other than the source leaves the target
      equal to the source (bytes, mode and owner) and changes nothing else;
      it reports the source's length. */
  lemma CopyFileSuccess(t: Tree, env: Env, src: Path, dst: Path)
    requires WellFormed(t)
    requires CopyFileSpec(t, env, src, dst).1.Ok?
    requires CopyTarget(t, env, src, dst) != src
    ensures src in t && t[src].File?
    ensures CopyFileSpec(t, env, src, dst).0 == t[CopyTarget(t, env, src, dst) := t[src]]
    ensures CopyFileSpec(t, env, src, dst).1 == Ok(|t[src].data|)
  {
    var target := CopyTarget(t, env, src, dst);
    CopyFileCreates(t, env, src, dst);
    var info := t[src];
    var t1 := CreateT(t, env, target, CREATE_PERM).value;
    TransferSuccess(t1, env, src, target, info.perm, info.uid, info.gid);
    assert t1[src] == info;
  }

  /** A `CopyFile` that succeeds got past the checks on the source, created
      the target and then ran the transfer. */
  lemma CopyFileCreates(t: Tree, env: Env, src: Path, dst: Path)
    requires WellFormed(t)
    requires CopyFileSpec(t, env, src, dst).1.Ok?
    ensures src in t && t[src].File?
    ensures CreateT(t, env, CopyTarget(t, env, src, dst), CREATE_PERM).Ok?
    ensures var t1 := CreateT(t, env, CopyTarget(t, env, src, dst), CREATE_PERM).value;
            CopyFileSpec(t, env, src, dst)
              == Transfer(t1, env, src, CopyTarget(t, env, src, dst), t[src].perm, t[src].uid, t[src].gid)
  {
  }

  /** Copying a file onto itself (the same path, or its own directory) as
      written: the target is truncated before the source is read, so the
      file ends up empty and the copy reports zero bytes. */
  lemma CopyFileOntoItself(t: Tree, env: Env, src: Path, dst: Path)
    requires WellFormed(t)
    requires CopyFileSpec(t, env, src, dst).1.Ok?
    requires CopyTarget(t, env, src, dst) == src
    ensures src in t && t[src].File?
    ensures CopyFileSpec(t, env, src, dst).0 == t[src := File([], t[src].perm, t[src].uid, t[src].gid)]
    ensures CopyFileSpec(t, env, src, dst).1 == Ok(0)
  {
    var target := CopyTarget(t, env, src, dst);
    var info := Stat(t, env, src).value;
    var t1 := CreateT(t, env, target, CREATE_PERM).value;
    assert CopyFileSpec(t, env, src, dst) == Transfer(t1, env, src, target, info.perm, info.uid, info.gid);
    TransferSuccess(t1, env, src, target, info.perm, info.uid, info.gid);
    assert t1 == t[src := File([], info.perm, info.uid, info.gid)];
    assert t1[src := File([], info.perm, info.uid, info.gid)] == t1;
  }

  /** After a successful copy, `CheckIfFilesMatch` accepts the pair, provided
      neither file is refused to stat or open and neither has a read fault. */
  lemma CopyFileThenFilesMatch(t: Tree, env: Env, hash: seq<Byte> -> Digest, src: Path, dst: Path)
    requires WellFormed(t)
    requires CopyFileSpec(t, env, src, dst).1.Ok?
    requires CopyTarget(t, env, src, dst) != src
    requires forall p :: p in {src, CopyTarget(t, env, src, dst)} ==>
               (StatCall, p) !in env.denied && (OpenCall, p) !in env.denied && p !in env.brokenAt
    ensures CheckIfFilesMatch(CopyFileSpec(t, env, src, dst).0, env, hash, src, CopyTarget(t, env, src, dst)) == Ok(true)
  {
    var target := CopyTarget(t, env, src, dst);
    var t' := CopyFileSpec(t, env, src, dst).0;
    CopyFileSuccess(t, env, src, dst);
    assert t'[src] == t'[target] == t[src];
    FilesMatchMeaning(t', env, hash, src, target);
  }

  /** `CopyDirectory`: check the source and that the destination is new,
      create the destination with the source's mode, then copy each entry
      of the source in listing order, stopping at the first failure. */
  function CopyDirSpec(t: Tree, env: Env, src: Path, dst: Path): (r: (Tree, Outcome<Error>))
    requires WellFormed(t)
    ensures WellFormed(r.0)
    ensures forall q :: q in t ==> q in r.0
    ensures !(Stat(t, env, src).Ok? && t[src].Dir? && Stat(t, env, dst).Err? && Stat(t, env, dst).error.NotFound?) ==>
              r.0 == t && r.1.Fail?
    ensures r.1.Pass? ==> src in t && t[src].Dir? && dst !in t
    decreases MAX_PATH_LEN - PathLen(dst), 2, 0
  {
    match Stat(t, env, src)
    case Err(e) => (t, Fail(e))
    case Ok(info) =>
      if !info.Dir? then (t, Fail(NotADirectory(src)))
      else
        match Stat(t, env, dst)
        case Ok(_) => (t, Fail(AlreadyExists(dst)))
        case Err(e) =>
          if !e.NotFound? then (t, Fail(e))
          else
            var made := MkdirAllT(t, env, dst, info.perm);
            if made.1.Fail? then made
            else
              match ReadDir(made.0, env, src)
              case Err(e) => (made.0, Fail(e))
              case Ok(entries) => CopyEntriesSpec(made.0, env, src, dst, entries)
  }

  /** The loop of `CopyDirectory` over the listed entries, in order,
      stopping at the first failure. */
  function CopyEntriesSpec(t: Tree, env: Env, src: Path, dst: Path, entries: seq<DirEntry>): (r: (Tree, Outcome<Error>))
    requires WellFormed(t) && dst in t
    ensures WellFormed(r.0)
    ensures forall q :: q in t ==> q in r.0
    decreases MAX_PATH_LEN - PathLen(dst), 1, |entries|
  {
    if entries == [] then (t, Pass)
    else
      var step := CopyEntrySpec(t, env, src, dst, entries[0]);
      if step.1.Fail? then step
      else CopyEntriesSpec(step.0, env, src, dst, entries[1..])
  }

  /** One turn of that loop: a subdirectory is copied recursively, a link
      skipped, anything else copied as a file. */
  function CopyEntrySpec(t: Tree, env: Env, src: Path, dst: Path, e: DirEntry): (r: (Tree, Outcome<Error>))
    requires WellFormed(t) && dst in t
    ensures WellFormed(r.0)
    ensures forall q :: q in t ==> q in r.0
    decreases MAX_PATH_LEN - PathLen(dst), 0, 0
  {
    PathLenAppend(dst, e.name);
    if e.node.Dir? then CopyDirSpec(t, env, src + [e.name], dst + [e.name])
    else if e.node.Symlink? then (t, Pass)
    else
      var step := CopyFileSpec(t, env, src + [e.name], dst + [e.name]);
      (step.0, if step.1.Err? then Fail(step.1.error) else Pass)
  }

  method CopyDirectory(fs: FileSystem, src: Path, dst: Path) returns (o: Outcome<Error>)
    requires fs.Valid()
    modifies fs
    ensures fs.Valid()
    ensures (fs.tree, o) == CopyDirSpec(old(fs.tree), fs.env, src, dst)
    decreases MAX_PATH_LEN - PathLen(dst), 2, 0
  {
    var st := Stat(fs.tree, fs.env, src);
    if st.Err? {
      return Fail(st.error);
    }
    if !st.value.Dir? {
      return Fail(NotADirectory(src));
    }
    var dstInfo := Stat(fs.tree, fs.env, dst);
    if dstInfo.Err? && !dstInfo.error.NotFound? {
      return Fail(dstInfo.error);
    }
    if dstInfo.Ok? {
      return Fail(AlreadyExists(dst));
    }
    o := fs.MkdirAll(dst, st.value.perm);
    if o.Fail? {
      return;
    }
    var listing := ReadDir(fs.tree, fs.env, src);
    if listing.Err? {
      return Fail(listing.error);
    }
    o := CopyEntries(fs, src, dst, listing.value);
  }

  /** The loop of `CopyDirectory` over the listed entries. */
  method CopyEntries(fs: FileSystem, src: Path, dst: Path, entries: seq<DirEntry>) returns (o: Outcome<Error>)
    requires fs.Valid() && dst in fs.tree
    modifies fs
    ensures fs.Valid()
    ensures (fs.tree, o) == CopyEntriesSpec(old(fs.tree), fs.env, src, dst, entries)
    decreases MAX_PATH_LEN - PathLen(dst), 1, |entries|
  {
    var i := 0;
    while i < |entries|
      invariant i <= |entries|
      invariant fs.Valid() && dst in fs.tree
      invariant CopyEntriesSpec(old(fs.tree), fs.env, src, dst, entries)
             == CopyEntriesSpec(fs.tree, fs.env, src, dst, entries[i..])
    {
      assert entries[i..][0] == entries[i] && entries[i..][1..] == entries[i + 1..];
      o := CopyEntry(fs, src, dst, entries[i]);
      if o.Fail? {
        return;
      }
      i := i + 1;
    }
    assert entries[i..] == [];
    return Pass;
  }

  method CopyEntry(fs: FileSystem, src: Path, dst: Path, e: DirEntry) returns (o: Outcome<Error>)
    requires fs.Valid() && dst in fs.tree
    modifies fs
    ensures fs.Valid()
    ensures (fs.tree, o) == CopyEntrySpec(old(fs.tree), fs.env, src, dst, e)
    decreases MAX_PATH_LEN - PathLen(dst), 0, 0
  {
    PathLenAppend(dst, e.name);
    if e.node.Dir? {
      o := CopyDirectory(fs, src + [e.name], dst + [e.name]);
    } else if e.node.Symlink? {
      o := Pass;
    } else {
      var r := CopyFile(fs, src + [e.name], dst + [e.name]);
      o := if r.Err? then Fail(r.error) else Pass;
    }
  }

  /** `Copy`: a directory goes to `CopyDirectory`, a regular file to
      `CopyFile`; anything else is refused. */
  method Copy(fs: FileSystem, src: Path, dst: Path) returns (o: Outcome<Error>)
    requires fs.Valid()
    modifies fs
    ensures fs.Valid()
    ensures Stat(old(fs.tree), fs.env, src).Err? ==>
              fs.tree == old(fs.tree) && o == Fail(Stat(old(fs.tree), fs.env, src).error)
    ensures Stat(old(fs.tree), fs.env, src).Ok? && old(fs.tree)[src].Dir? ==>
              (fs.tree, o) == CopyDirSpec(old(fs.tree), fs.env, src, dst)
    ensures Stat(old(fs.tree), fs.env, src).Ok? && old(fs.tree)[src].File? ==>
              var (t, r) := CopyFileSpec(old(fs.tree), fs.env, src, dst);
              fs.tree == t && o == (if r.Ok? then Pass else Fail(r.error))
    ensures Stat(old(fs.tree), fs.env, src).Ok? && old(fs.tree)[src].Symlink? ==>
              fs.tree == old(fs.tree) && o == Fail(Unsupported(src))
  {
    var st := Stat(fs.tree, fs.env, src);
    if st.Err? {
      return Fail(st.error);
    }
    if st.value.Dir? {
      o := CopyDirectory(fs, src, dst);
      return;
    }
    if st.value.File? {
      var r := CopyFile(fs, src, dst);
      o := if r.Ok? then Pass else Fail(r.error);
      return;
    }
    return Fail(Unsupported(src));
  }

  /** How a source entry looks in the copy: a file is reproduced exactly,
      bytes, mode and owner; a directory gets the source's mode and is owned
      by the process. */
  function Copied(n: Node, env: Env): Node
  {
    if n.Dir? then Dir(n.perm, env.uid, env.gid) else n
  }

  /** Nothing in `a` changes in `b`; `b` may have more. */
  ghost predicate Grows(a: Tree, b: Tree)
  {
    forall q :: q in a ==> q in b && b[q] == a[q]
  }

  /** `t` holds at `dst` a copy of the subtree of `s` at `src`: every entry
      but a link reappears at the same relative path, and nothing else is
      there. */
  ghost predicate Image(s: Tree, t: Tree, src: Path, dst: Path, env: Env)
  {
    && (forall rel: Path :: src + rel in s && !s[src + rel].Symlink? ==>
          dst + rel in t && t[dst + rel] == Copied(s[src + rel], env))
    && (forall rel: Path :: dst + rel in t ==> src + rel in s && !s[src + rel].Symlink?)
  }

  /** Source and destination lie on different branches of the tree. */
  predicate Apart(src: Path, dst: Path)
  {
    !Within(src, dst) && !Within(dst, src)
  }

  /** A path at or above `dst` is not inside a source apart from it. */
  lemma OutsideSource(q: Path, src: Path, dst: Path)
    requires Apart(src, dst) && (Within(q, dst) || Within(dst, q))
    ensures !Within(q, src)
  {
    if Within(q, src) {
      if Within(q, dst) {
        WithinComparable(q, src, dst);
      } else {
        WithinTransitive(dst, q, src);
      }
    }
  }

  lemma ApartChild(src: Path, dst: Path, n: Name)
    requires Apart(src, dst)
    ensures Apart(src + [n], dst + [n])
  {
    WithinDrop(src, dst, n);
    WithinDrop(dst, src, n);
  }

  /** Copying one regular-file entry to a fresh name adds exactly that file. */
  lemma CopyFileEntryFacts(t: Tree, env: Env, a: Path, b: Path)
    requires WellFormed(t) && a in t && t[a].File? && b !in t && a != b
    ensures var r := CopyFileSpec(t, env, a, b);
            && Grows(t, r.0)
            && (forall q :: q in r.0 && q !in t ==> q == b)
            && (r.1.Ok? ==> Image(t, r.0, a, b, env))
  {
    var r := CopyFileSpec(t, env, a, b);
    assert CopyTarget(t, env, a, b) == b;
    if r.1.Ok? {
      CopyFileSuccess(t, env, a, b);
      forall rel: Path | a + rel in t
        ensures rel == []
      {
        if rel != [] {
          assert (a + rel)[..|a|] == a;
          AncestorsExist(t, a + rel, |a|);
        }
      }
      forall rel: Path | b + rel in r.0
        ensures rel == []
      {
        if rel != [] {
          assert b + rel in t;
          NothingBelowMissing(t, b, b + rel);
        }
      }
      assert a + [] == a && b + [] == b;
    }
  }

  /** Keeps an image when the tree only grows outside its destination. */
  lemma ImageKept(s: Tree, t: Tree, r: Tree, a: Path, b: Path, env: Env)
    requires Image(s, t, a, b, env) && Grows(t, r)
    requires forall q :: q in r && q !in t ==> !Within(q, b)
    ensures Image(s, r, a, b, env)
  {
    forall rel: Path | b + rel in r
      ensures b + rel in t
    {
      assert (b + rel)[..|b|] == b;
    }
  }

  /** Moves an image back to an earlier tree that differs only outside its
      source. */
  lemma ImageFromEarlier(s: Tree, t: Tree, r: Tree, a: Path, b: Path, env: Env)
    requires Image(t, r, a, b, env) && Grows(s, t)
    requires forall q :: q in t && q !in s ==> !Within(q, a)
    ensures Image(s, r, a, b, env)
  {
    forall rel: Path | a + rel in t
      ensures a + rel in s
    {
      assert (a + rel)[..|a|] == a;
    }
  }

  /** The names of the entries that are copied: all but the links. */
  function CopiedNames(entries: seq<DirEntry>): set<Name>
  {
    set e | e in entries && !e.node.Symlink? :: e.name
  }

  /** What one turn of the loop does: it adds entries only under the
      entry's own name, never changes an existing one, and on success
      leaves a copy there of anything but a link. */
  lemma {:induction false} CopyEntryFacts(t: Tree, env: Env, src: Path, dst: Path, e: DirEntry)
    requires WellFormed(t) && dst in t && Apart(src, dst)
    requires src + [e.name] in t && t[src + [e.name]] == e.node && dst + [e.name] !in t
    ensures var r := CopyEntrySpec(t, env, src, dst, e);
            && Grows(t, r.0)
            && (forall q :: q in r.0 && q !in t ==> Within(q, dst + [e.name]) && !e.node.Symlink?)
            && (r.1.Pass? && !e.node.Symlink? ==> Image(t, r.0, src + [e.name], dst + [e.name], env))
    decreases MAX_PATH_LEN - PathLen(dst), 0, 0
  {
    var a, b := src + [e.name], dst + [e.name];
    PathLenAppend(dst, e.name);
    ApartChild(src, dst, e.name);
    if e.node.Dir? {
      CopyDirFacts(t, env, a, b);
      var r := CopyDirSpec(t, env, a, b);
      forall q | q in r.0 && q !in t
        ensures Within(q, b)
      {
        if !Within(q, b) {
          assert Within(b, q) && q != b;
          assert dst[..|q|] == q;
          AncestorsExist(t, dst, |q|);
        }
      }
    } else if !e.node.Symlink? {
      CopyFileEntryFacts(t, env, a, b);
      var r := CopyFileSpec(t, env, a, b);
      assert b + [] == b;
    }
  }

  /** The loop over the entries: it adds only under the names it copies,
      never changes an existing entry, and on success leaves a copy of
      every entry but the links. */
  lemma {:induction false} CopyEntriesFacts(t: Tree, env: Env, src: Path, dst: Path, entries: seq<DirEntry>)
    requires WellFormed(t) && dst in t && Apart(src, dst)
    requires forall e :: e in entries ==> src + [e.name] in t && t[src + [e.name]] == e.node && dst + [e.name] !in t
    requires forall i, j :: 0 <= i < j < |entries| ==> entries[i].name != entries[j].name
    ensures var r := CopyEntriesSpec(t, env, src, dst, entries);
            && Grows(t, r.0)
            && (forall q :: q in r.0 && q !in t ==> Within(q, dst) && |q| > |dst| && q[|dst|] in CopiedNames(entries))
            && (r.1.Pass? ==> forall e :: e in entries && !e.node.Symlink? ==>
                  Image(t, r.0, src + [e.name], dst + [e.name], env))
    decreases MAX_PATH_LEN - PathLen(dst), 1, |entries|
  {
    if entries != [] {
      var e, rest := entries[0], entries[1..];
      CopyEntryFacts(t, env, src, dst, e);
      var step := CopyEntrySpec(t, env, src, dst, e);
      FirstEntryAdds(t, step.0, dst, entries);
      if step.1.Pass? {
        CopyEntriesFacts(step.0, env, src, dst, rest);
        var r := CopyEntriesSpec(step.0, env, src, dst, rest);
        assert CopyEntriesSpec(t, env, src, dst, entries) == r;
        EntriesKeysCombine(t, step.0, r.0, dst, entries);
        if r.1.Pass? {
          LaterNamesDiffer(entries, rest);
          EntriesImagesCombine(t, step.0, r.0, env, src, dst, entries);
        }
      }
    }
  }

  /** After the first entry is copied, the later names are still free and
      everything new lies under the first name. */
  lemma FirstEntryAdds(t: Tree, t1: Tree, dst: Path, entries: seq<DirEntry>)
    requires entries != []
    requires forall e :: e in entries ==> dst + [e.name] !in t
    requires forall i, j :: 0 <= i < j < |entries| ==> entries[i].name != entries[j].name
    requires forall q :: q in t1 && q !in t ==> Within(q, dst + [entries[0].name]) && !entries[0].node.Symlink?
    ensures forall e :: e in entries[1..] ==> dst + [e.name] !in t1
    ensures forall q :: q in t1 && q !in t ==> Within(q, dst) && |q| > |dst| && q[|dst|] == entries[0].name
  {
    forall q | q in t1 && q !in t
      ensures Within(q, dst) && |q| > |dst| && q[|dst|] == entries[0].name
    {
      WithinChild(q, dst, entries[0].name);
    }
    forall e | e in entries[1..]
      ensures dst + [e.name] !in t1
    {
      var j :| 0 <= j < |entries[1..]| && entries[1..][j] == e;
      assert entries[j + 1] == e;
      assert (dst + [e.name])[|dst|] == e.name;
    }
  }

  /** The names copied after the first entry differ from its name. */
  lemma LaterNamesDiffer(entries: seq<DirEntry>, later: seq<DirEntry>)
    requires entries != [] && forall i, j :: 0 <= i < j < |entries| ==> entries[i].name != entries[j].name
    requires forall e :: e in later ==> e in entries[1..]
    ensures entries[0].name !in CopiedNames(later)
  {
    forall e | e in later
      ensures e.name != entries[0].name
    {
      var j :| 0 <= j < |entries[1..]| && entries[1..][j] == e;
      assert entries[j + 1] == e;
    }
  }

  lemma EntriesKeysCombine(t: Tree, t1: Tree, r: Tree, dst: Path, entries: seq<DirEntry>)
    requires entries != []
    requires Grows(t, t1) && Grows(t1, r)
    requires forall q :: q in t1 && q !in t ==>
               |q| > |dst| && Within(q, dst) && q[|dst|] == entries[0].name && !entries[0].node.Symlink?
    requires forall q :: q in r && q !in t1 ==> Within(q, dst) && |q| > |dst| && q[|dst|] in CopiedNames(entries[1..])
    ensures Grows(t, r)
    ensures forall q :: q in r && q !in t ==> Within(q, dst) && |q| > |dst| && q[|dst|] in CopiedNames(entries)
  {
    assert entries[0] in entries;
    forall q | q in r && q !in t1
      ensures q[|dst|] in CopiedNames(entries)
    {
      var e :| e in entries[1..] && !e.node.Symlink? && e.name == q[|dst|];
      assert e in entries;
    }
  }

  lemma EntriesImagesCombine(t: Tree, t1: Tree, r: Tree, env: Env, src: Path, dst: Path, entries: seq<DirEntry>)
    requires entries != [] && Apart(src, dst)
    requires Grows(t, t1) && Grows(t1, r)
    requires forall q :: q in t1 && q !in t ==> Within(q, dst) && |q| > |dst| && q[|dst|] == entries[0].name
    requires forall q :: q in r && q !in t1 ==> |q| > |dst| && q[|dst|] != entries[0].name
    requires !entries[0].node.Symlink? ==>
               Image(t, t1, src + [entries[0].name], dst + [entries[0].name], env)
    requires forall e :: e in entries[1..] && !e.node.Symlink? ==> Image(t1, r, src + [e.name], dst + [e.name], env)
    ensures forall e :: e in entries && !e.node.Symlink? ==> Image(t, r, src + [e.name], dst + [e.name], env)
  {
    var first := entries[0];
    forall e | e in entries && !e.node.Symlink?
      ensures Image(t, r, src + [e.name], dst + [e.name], env)
    {
      if e == first {
        forall q | q in r && q !in t1
          ensures !Within(q, dst + [first.name])
        {
          WithinChild(q, dst, first.name);
        }
        ImageKept(t, t1, r, src + [first.name], dst + [first.name], env);
      } else {
        var i :| 0 <= i < |entries| && entries[i] == e;
        assert e in entries[1..];
        forall q | q in t1 && q !in t
          ensures !Within(q, src + [e.name])
        {
          OutsideSource(q, src, dst);
          WithinChild(q, src, e.name);
        }
        ImageFromEarlier(t, t1, r, src + [e.name], dst + [e.name], env);
      }
    }
  }

  /** Every entry of `es` but the links has its copy in `r`. */
  ghost predicate AllCopied(t: Tree, r: Tree, env: Env, src: Path, dst: Path, es: seq<DirEntry>)
  {
    forall e :: e in es && !e.node.Symlink? ==> Image(t, r, src + [e.name], dst + [e.name], env)
  }

  /** The loop stopped at entry `k`: the entries before it have their
      copies, and everything added lies under the names copied up to and
      including it. */
  ghost predicate StoppedAt(t: Tree, r: Tree, env: Env, src: Path, dst: Path, entries: seq<DirEntry>, k: nat)
  {
    && k < |entries|
    && AllCopied(t, r, env, src, dst, entries[..k])
    && forall q :: q in r && q !in t ==> Within(q, dst) && |q| > |dst| && q[|dst|] in CopiedNames(entries[..k + 1])
  }

  /** No rollback: when the loop stops at a failing entry, the entries
      before it keep their copies, and nothing is added for the entries
      after it. */
  lemma {:induction false} CopyEntriesAborts(t: Tree, env: Env, src: Path, dst: Path, entries: seq<DirEntry>)
    requires WellFormed(t) && dst in t && Apart(src, dst)
    requires forall e :: e in entries ==> src + [e.name] in t && t[src + [e.name]] == e.node && dst + [e.name] !in t
    requires forall i, j :: 0 <= i < j < |entries| ==> entries[i].name != entries[j].name
    ensures var r := CopyEntriesSpec(t, env, src, dst, entries);
            r.1.Fail? ==> exists k: nat :: StoppedAt(t, r.0, env, src, dst, entries, k)
    decreases |entries|
  {
    if entries != [] {
      var e, rest := entries[0], entries[1..];
      CopyEntryFacts(t, env, src, dst, e);
      var step := CopyEntrySpec(t, env, src, dst, e);
      var t1 := step.0;
      FirstEntryAdds(t, t1, dst, entries);
      if step.1.Fail? {
        AbortFirst(t, t1, env, src, dst, entries);
      } else {
        CopyEntriesFacts(t1, env, src, dst, rest);
        CopyEntriesAborts(t1, env, src, dst, rest);
        var r := CopyEntriesSpec(t1, env, src, dst, rest);
        assert CopyEntriesSpec(t, env, src, dst, entries) == r;
        if r.1.Fail? {
          var k': nat :| StoppedAt(t1, r.0, env, src, dst, rest, k');
          AbortStepImages(t, t1, r.0, env, src, dst, entries, k');
          AbortStepKeys(t, t1, r.0, dst, entries, k');
          assert StoppedAt(t, r.0, env, src, dst, entries, k' + 1);
        }
      }
    }
  }

  lemma AbortFirst(t: Tree, t1: Tree, env: Env, src: Path, dst: Path, entries: seq<DirEntry>)
    requires entries != []
    requires forall q :: q in t1 && q !in t ==>
               Within(q, dst) && |q| > |dst| && q[|dst|] == entries[0].name && !entries[0].node.Symlink?
    ensures StoppedAt(t, t1, env, src, dst, entries, 0)
  {
    assert entries[..0] == [];
    assert entries[0] in entries[..1];
  }

  lemma AbortStepImages(t: Tree, t1: Tree, r: Tree, env: Env, src: Path, dst: Path, entries: seq<DirEntry>, k': nat)
    requires Apart(src, dst) && k' + 1 < |entries|
    requires forall i, j :: 0 <= i < j < |entries| ==> entries[i].name != entries[j].name
    requires Grows(t, t1) && Grows(t1, r)
    requires forall q :: q in t1 && q !in t ==> Within(q, dst) && |q| > |dst| && q[|dst|] == entries[0].name
    requires !entries[0].node.Symlink? ==> Image(t, t1, src + [entries[0].name], dst + [entries[0].name], env)
    requires StoppedAt(t1, r, env, src, dst, entries[1..], k')
    ensures AllCopied(t, r, env, src, dst, entries[..k' + 1])
  {
    var done := entries[..k' + 1];
    assert done[1..] == entries[1..][..k'];
    assert forall e :: e in entries[1..][..k' + 1] ==> e in entries[1..];
    LaterNamesDiffer(entries, entries[1..][..k' + 1]);
    EntriesImagesCombine(t, t1, r, env, src, dst, done);
  }

  lemma AbortStepKeys(t: Tree, t1: Tree, r: Tree, dst: Path, entries: seq<DirEntry>, k': nat)
    requires k' + 1 < |entries| && Grows(t, t1)
    requires forall q :: q in t1 && q !in t ==>
               Within(q, dst) && |q| > |dst| && q[|dst|] == entries[0].name && !entries[0].node.Symlink?
    requires forall q :: q in r && q !in t1 ==>
               Within(q, dst) && |q| > |dst| && q[|dst|] in CopiedNames(entries[1..][..k' + 1])
    ensures forall q :: q in r && q !in t ==> Within(q, dst) && |q| > |dst| && q[|dst|] in CopiedNames(entries[..k' + 2])
  {
    assert entries[0] in entries[..k' + 2];
    forall q | q in r && q !in t1
      ensures q[|dst|] in CopiedNames(entries[..k' + 2])
    {
      var e :| e in entries[1..][..k' + 1] && !e.node.Symlink? && e.name == q[|dst|];
      assert entries[1..][..k' + 1] == entries[..k' + 2][1..];
      assert e in entries[..k' + 2];
    }
  }

  /** What `CopyDirectory` does to a tree when the destination is not
      inside the source: it never changes an existing entry, adds only at,
      below or above the destination, and on success leaves there a copy
      of the source. */
  lemma {:induction false} CopyDirFacts(t: Tree, env: Env, src: Path, dst: Path)
    requires WellFormed(t) && !Within(dst, src)
    ensures var r := CopyDirSpec(t, env, src, dst);
            && Grows(t, r.0)
            && (forall q :: q in r.0 && q !in t ==> Within(q, dst) || Within(dst, q))
            && (r.1.Pass? ==> Image(t, r.0, src, dst, env))
    decreases MAX_PATH_LEN - PathLen(dst), 2, 0
  {
    var st, sd := Stat(t, env, src), Stat(t, env, dst);
    if st.Ok? && st.value.Dir? && sd.Err? && sd.error.NotFound? {
      assert dst !in t;
      assert !Within(src, dst) by {
        if Within(src, dst) {
          NothingBelowMissing(t, dst, src);
        }
      }
      var made := MkdirAllT(t, env, dst, st.value.perm);
      if made.1.Pass? {
        var listing := ReadDir(made.0, env, src);
        if listing.Ok? {
          ListedEntries(t, made.0, env, src, dst);
          CopyEntriesFacts(made.0, env, src, dst, listing.value);
          var r := CopyEntriesSpec(made.0, env, src, dst, listing.value);
          assert CopyDirSpec(t, env, src, dst) == r;
          if r.1.Pass? {
            DirImageForward(t, made.0, r.0, env, src, dst, listing.value);
            DirImageBackward(t, made.0, r.0, env, src, dst, listing.value);
          }
        }
      }
    }
  }

  /** The listing `CopyDirectory` reads after creating the destination:
      the source's children, under distinct names that are still free in
      the destination. */
  lemma ListedEntries(t: Tree, m: Tree, env: Env, src: Path, dst: Path)
    requires WellFormed(t) && src in t && dst !in t && Apart(src, dst)
    requires Grows(t, m) && forall q :: q in m && q !in t ==> Within(dst, q)
    requires ReadDir(m, env, src).Ok?
    ensures var entries := ReadDir(m, env, src).value;
            && (forall e :: e in entries ==>
                  src + [e.name] in t && m[src + [e.name]] == e.node && dst + [e.name] !in m)
            && (forall i, j :: 0 <= i < j < |entries| ==> entries[i].name != entries[j].name)
            && (forall n: Name :: src + [n] in t ==> DirEntry(n, t[src + [n]]) in entries)
  {
    ListedEntriesFresh(t, m, env, src, dst);
    ListedEntriesComplete(t, m, env, src);
  }

  lemma ListedEntriesFresh(t: Tree, m: Tree, env: Env, src: Path, dst: Path)
    requires WellFormed(t) && dst !in t && Apart(src, dst)
    requires Grows(t, m) && forall q :: q in m && q !in t ==> Within(dst, q)
    requires ReadDir(m, env, src).Ok?
    ensures var entries := ReadDir(m, env, src).value;
            && (forall e :: e in entries ==>
                  src + [e.name] in t && m[src + [e.name]] == e.node && dst + [e.name] !in m)
            && (forall i, j :: 0 <= i < j < |entries| ==> entries[i].name != entries[j].name)
  {
    var entries := ReadDir(m, env, src).value;
    SortedDistinct(Listing(m, src));
    forall e | e in entries
      ensures src + [e.name] in t && dst + [e.name] !in m
    {
      var q := src + [e.name];
      assert q[..|src|] == src;
      if q !in t {
        OutsideSource(q, src, dst);
      }
      NothingBelowMissing(t, dst, dst + [e.name]);
    }
  }

  lemma ListedEntriesComplete(t: Tree, m: Tree, env: Env, src: Path)
    requires Grows(t, m) && ReadDir(m, env, src).Ok?
    ensures forall n: Name :: src + [n] in t ==> DirEntry(n, t[src + [n]]) in ReadDir(m, env, src).value
  {
    var entries := ReadDir(m, env, src).value;
    var names := Listing(m, src);
    forall n: Name | src + [n] in t
      ensures DirEntry(n, t[src + [n]]) in entries
    {
      var i :| 0 <= i < |names| && names[i] == n;
      assert entries[i] == DirEntry(n, t[src + [n]]);
    }
  }

  /** Every source entry but a link reappears at its place in the copy. */
  lemma DirImageForward(t: Tree, m: Tree, r: Tree, env: Env, src: Path, dst: Path, entries: seq<DirEntry>)
    requires WellFormed(t) && src in t && t[src].Dir? && dst !in t
    requires Grows(t, m) && Grows(m, r)
    requires dst in m && m[dst] == Copied(t[src], env)
    requires forall n: Name :: src + [n] in t ==> DirEntry(n, t[src + [n]]) in entries
    requires forall e :: e in entries && !e.node.Symlink? ==> Image(m, r, src + [e.name], dst + [e.name], env)
    ensures forall rel: Path :: src + rel in t && !t[src + rel].Symlink? ==>
              dst + rel in r && r[dst + rel] == Copied(t[src + rel], env)
  {
    forall rel: Path | src + rel in t && !t[src + rel].Symlink?
      ensures dst + rel in r && r[dst + rel] == Copied(t[src + rel], env)
    {
      if rel == [] {
        assert src + rel == src && dst + rel == dst;
      } else {
        DirImageForwardAt(t, m, r, env, src, dst, entries, rel);
      }
    }
  }

  /** One entry strictly below the source reappears through the image of
      the child it lies under. */
  lemma DirImageForwardAt(t: Tree, m: Tree, r: Tree, env: Env, src: Path, dst: Path, entries: seq<DirEntry>, rel: Path)
    requires WellFormed(t) && Grows(t, m)
    requires forall n: Name :: src + [n] in t ==> DirEntry(n, t[src + [n]]) in entries
    requires forall e :: e in entries && !e.node.Symlink? ==> Image(m, r, src + [e.name], dst + [e.name], env)
    requires rel != [] && src + rel in t && !t[src + rel].Symlink?
    ensures dst + rel in r && r[dst + rel] == Copied(t[src + rel], env)
  {
    var n, rest := rel[0], rel[1..];
    StepBelow(src, rel);
    StepBelow(dst, rel);
    ChildOfEntry(t, src, rel);
    var e := DirEntry(n, t[src + [n]]);
    assert e in entries;
    if rest == [] {
      assert (src + [n]) + rest == src + [n];
    }
    assert !e.node.Symlink?;
  }

  /** The first step below `src` on the way to `src + rel` is an entry,
      and a directory when the way goes on below it. */
  lemma ChildOfEntry(t: Tree, src: Path, rel: Path)
    requires WellFormed(t) && rel != [] && src + rel in t
    ensures src + [rel[0]] in t && (|rel| > 1 ==> t[src + [rel[0]]].Dir?)
  {
    assert (src + rel)[..|src| + 1] == src + [rel[0]];
    AncestorsExist(t, src + rel, |src| + 1);
  }

  /** Nothing is in the copy but the images of source entries. */
  lemma DirImageBackward(t: Tree, m: Tree, r: Tree, env: Env, src: Path, dst: Path, entries: seq<DirEntry>)
    requires WellFormed(t) && src in t && t[src].Dir? && dst !in t && Apart(src, dst)
    requires Grows(t, m) && Grows(m, r)
    requires forall q :: q in m && q !in t ==> Within(dst, q)
    requires forall q :: q in r && q !in m ==> Within(q, dst) && |q| > |dst| && q[|dst|] in CopiedNames(entries)
    requires forall e :: e in entries && !e.node.Symlink? ==> Image(m, r, src + [e.name], dst + [e.name], env)
    ensures forall rel: Path :: dst + rel in r ==> src + rel in t && !t[src + rel].Symlink?
  {
    forall rel: Path | dst + rel in r
      ensures src + rel in t && !t[src + rel].Symlink?
    {
      if rel == [] {
        assert src + rel == src;
      } else {
        DirImageBackwardAt(t, m, r, env, src, dst, entries, rel);
      }
    }
  }

  /** One entry strictly below the destination is the image of a source
      entry, reached through the image of a copied child. */
  lemma DirImageBackwardAt(t: Tree, m: Tree, r: Tree, env: Env, src: Path, dst: Path, entries: seq<DirEntry>, rel: Path)
    requires WellFormed(t) && dst !in t && Apart(src, dst)
    requires Grows(t, m)
    requires forall q :: q in m && q !in t ==> Within(dst, q)
    requires forall q :: q in r && q !in m ==> Within(q, dst) && |q| > |dst| && q[|dst|] in CopiedNames(entries)
    requires forall e :: e in entries && !e.node.Symlink? ==> Image(m, r, src + [e.name], dst + [e.name], env)
    requires rel != [] && dst + rel in r
    ensures src + rel in t && !t[src + rel].Symlink?
  {
    var q := dst + rel;
    var n, rest := rel[0], rel[1..];
    NewBelowDestination(t, m, dst, rel);
    assert q[|dst|] == n;
    assert n in CopiedNames(entries);
    var e :| e in entries && !e.node.Symlink? && e.name == n;
    StepBelow(src, rel);
    StepBelow(dst, rel);
    assert src + rel in m && !m[src + rel].Symlink?;
    assert (src + rel)[..|src|] == src;
    if src + rel !in t {
      OutsideSource(src + rel, src, dst);
    }
  }

  /** Nothing strictly below a destination that did not exist was there
      once its ancestors had been made. */
  lemma NewBelowDestination(t: Tree, m: Tree, dst: Path, rel: Path)
    requires WellFormed(t) && dst !in t
    requires forall q :: q in m && q !in t ==> Within(dst, q)
    requires rel != []
    ensures dst + rel !in m
  {
    var q := dst + rel;
    assert q[..|dst|] == dst;
    NothingBelowMissing(t, dst, q);
  }

  /** A copy of a source without links has the source's shape. */
  lemma CopyHasSameShape(t: Tree, r: Tree, env: Env, src: Path, dst: Path)
    requires Apart(src, dst) && Image(t, r, src, dst, env) && Grows(t, r)
    requires forall q :: q in r && q !in t ==> Within(q, dst) || Within(dst, q)
    requires forall q :: q in t && Within(q, src) ==> !t[q].Symlink?
    ensures SameShape(r, src, dst)
  {
    forall rel: Path
      ensures (src + rel in r <==> dst + rel in r) && (src + rel in r ==> Alike(r[src + rel], r[dst + rel]))
    {
      assert (src + rel)[..|src|] == src;
      if src + rel in r && src + rel !in t {
        OutsideSource(src + rel, src, dst);
      }
    }
  }

  /** The property the copy is checked by: a successful copy of a directory
      without links passes `CheckIfDirectoriesMatch`, provided no stat or
      listing is refused. */
  lemma CopyThenDirectoriesMatch(t: Tree, env: Env, src: Path, dst: Path)
    requires WellFormed(t) && !Within(dst, src)
    requires CopyDirSpec(t, env, src, dst).1.Pass?
    requires forall q :: q in t && Within(q, src) ==> !t[q].Symlink?
    requires forall q :: (StatCall, q) !in env.denied && (ReadDirCall, q) !in env.denied
    ensures CheckIfDirectoriesMatch(CopyDirSpec(t, env, src, dst).0, env, src, dst) == Pass
  {
    var r := CopyDirSpec(t, env, src, dst).0;
    CopyDirFacts(t, env, src, dst);
    assert !Within(src, dst) by {
      if Within(src, dst) {
        NothingBelowMissing(t, dst, src);
      }
    }
    ImageThenDirectoriesMatch(t, r, env, src, dst);
  }

  /** Any tree that grew from `t` only around `dst` and holds there an
      image of a source without links passes `CheckIfDirectoriesMatch`. */
  lemma ImageThenDirectoriesMatch(t: Tree, r: Tree, env: Env, src: Path, dst: Path)
    requires WellFormed(r) && Apart(src, dst) && src in t && t[src].Dir?
    requires Image(t, r, src, dst, env) && Grows(t, r)
    requires forall q :: q in r && q !in t ==> Within(q, dst) || Within(dst, q)
    requires forall q :: q in t && Within(q, src) ==> !t[q].Symlink?
    requires forall q :: (StatCall, q) !in env.denied && (ReadDirCall, q) !in env.denied
    ensures CheckIfDirectoriesMatch(r, env, src, dst) == Pass
  {
    CopyHasSameShape(t, r, env, src, dst);
    assert dst + [] == dst && src + [] == src;
    ShapeIsEnough(r, env, src, dst);
  }
}
