/** `core/archive.go`: packing files and directory trees into a tar stream.
    The tar writer is an object that collects entries; its gzip compression
    and the bytes it puts into the archive file are not modelled. */
module Archive {
  import opened Wrappers
  import opened Paths
  import opened FsModel
  import Files

  /** The fields of a `tar.Header` the core sets or reads. */
  datatype Header = Header(name: Path, mode: FileMode, size: nat, uid: int, gid: int, linkname: string)

  /** One archive member: its header and the bytes written after it. */
  datatype Entry = Entry(header: Header, content: seq<Byte>)

  /** `tar.Writer`: the members written so far, the last one still open
      for content. */
  class TarWriter {
    var entries: seq<Entry>

    constructor ()
      ensures entries == []
    {
      entries := [];
    }

    /** `WriteHeader`: starts a new member. */
    method WriteHeader(h: Header)
      modifies this
      ensures entries == old(entries) + [Entry(h, [])]
    {
      entries := entries + [Entry(h, [])];
    }

    /** `Write`: appends bytes to the member whose header came last. */
    method Write(bytes: seq<Byte>)
      requires entries != []
      modifies this
      ensures var last := old(entries)[|old(entries)| - 1];
              entries == old(entries)[..|old(entries)| - 1] + [last.(content := last.content + bytes)]
    {
      var last := entries[|entries| - 1];
      entries := entries[..|entries| - 1] + [last.(content := last.content + bytes)];
    }
  }

  /** `tar.FileInfoHeader(info, info.Name())` with the member's final name:
      a regular file records its length; a link records the name passed as
      its target, which is the link's own name. */
  function HeaderOf(name: Path, q: Path, n: Node): Header
  {
    Header(name, ModeOf(n), if n.File? then |n.data| else 0, n.uid, n.gid,
           if n.Symlink? then Base(q) else "")
  }

  /** The name a walked path `q` gets in the archive.  Below a directory
      input it is the input's base name joined with the rest of `q` (for
      the root input the rest is all of `q`); any other input keeps its base
      name. */
  function EntryName(input: Path, inputIsDir: bool, q: Path): Path
    requires Within(q, input)
  {
    if !inputIsDir then [Base(q)]
    else if input == [] then q
    else [Base(input)] + q[|input|..]
  }

  /** The archive keeps each path relative to the directory holding the
      input: joining that directory and the member name gives back the path. */
  lemma EntryNameRoundTrip(input: Path, inputIsDir: bool, q: Path)
    requires Within(q, input) && input != []
    requires inputIsDir || q == input
    ensures Parent(input) + EntryName(input, inputIsDir, q) == q
  {
    var name := EntryName(input, inputIsDir, q);
    assert input == Parent(input) + [Base(input)];
    if inputIsDir {
      assert name == [Base(input)] + q[|input|..];
      assert q == input + q[|input|..];
    } else {
      assert name == [Base(input)];
    }
  }

  /** The walk callback on one path `q`: the header, then, for anything
      but a directory, the bytes `io.Copy` moves before it stops. */
  function VisitSpec(t: Tree, env: Env, input: Path, inputIsDir: bool, q: Path): (seq<Entry>, Outcome<Error>)
    requires q in t && Within(q, input)
  {
    var h := HeaderOf(EntryName(input, inputIsDir, q), q, t[q]);
    if t[q].Dir? then ([Entry(h, [])], Pass)
    else
      match Open(t, env, q)
      case Fail(e) => ([Entry(h, [])], Fail(e))
      case Pass =>
        var rd := ReadContent(t, env, q);
        ([Entry(h, rd.bytes)], if rd.error.Some? then Fail(rd.error.value) else Pass)
  }

  /** The callback over the walked paths in order, up to the first that
      fails. */
  function VisitsSpec(t: Tree, env: Env, input: Path, inputIsDir: bool, qs: seq<Path>): (seq<Entry>, Outcome<Error>)
    requires forall q :: q in qs ==> q in t && Within(q, input)
  {
    if qs == [] then ([], Pass)
    else
      var prev := VisitsSpec(t, env, input, inputIsDir, qs[..|qs| - 1]);
      if prev.1.Fail? then prev
      else
        var last := VisitSpec(t, env, input, inputIsDir, qs[|qs| - 1]);
        (prev.0 + last.0, last.1)
  }

  /** `addToArchive`: open the input (a failure is an error), `stat` it (a
      failure ends silently), then walk it; the first callback failure is
      returned, and otherwise the error that stopped the walk. */
  function AddSpec(t: Tree, env: Env, input: Path): (seq<Entry>, Outcome<Error>)
    requires WellFormed(t)
  {
    match Open(t, env, input)
    case Fail(e) => ([], Fail(e))
    case Pass =>
      match Stat(t, env, input)
      case Err(_) => ([], Pass)
      case Ok(n) =>
        var w := WalkTree(t, env, input);
        var v := VisitsSpec(t, env, input, n.Dir?, w.visited);
        if v.1.Fail? then v
        else (v.0, if w.error.Some? then Fail(w.error.value) else Pass)
  }

  /** The walk callback on one path. */
  method Visit(fs: FileSystem, tw: TarWriter, input: Path, inputIsDir: bool, q: Path) returns (o: Outcome<Error>)
    requires q in fs.tree && Within(q, input)
    modifies tw
    ensures tw.entries == old(tw.entries) + VisitSpec(fs.tree, fs.env, input, inputIsDir, q).0
    ensures o == VisitSpec(fs.tree, fs.env, input, inputIsDir, q).1
  {
    var n := fs.tree[q];
    tw.WriteHeader(HeaderOf(EntryName(input, inputIsDir, q), q, n));
    if n.Dir? {
      return Pass;
    }
    o := Open(fs.tree, fs.env, q);
    if o.Fail? {
      return;
    }
    var rd := ReadContent(fs.tree, fs.env, q);
    ghost var before := tw.entries;
    tw.Write(rd.bytes);
    assert before[..|before| - 1] == old(tw.entries);
    assert [] + rd.bytes == rd.bytes;
    o := if rd.error.Some? then Fail(rd.error.value) else Pass;
  }

  /** Once the callback has failed, later paths change nothing. */
  lemma {:induction false} VisitsStopped(t: Tree, env: Env, input: Path, inputIsDir: bool, qs: seq<Path>, k: nat)
    requires forall q :: q in qs ==> q in t && Within(q, input)
    requires k <= |qs| && VisitsSpec(t, env, input, inputIsDir, qs[..k]).1.Fail?
    ensures VisitsSpec(t, env, input, inputIsDir, qs) == VisitsSpec(t, env, input, inputIsDir, qs[..k])
    decreases |qs| - k
  {
    if k < |qs| {
      assert qs[..k + 1][..k] == qs[..k];
      VisitsStopped(t, env, input, inputIsDir, qs, k + 1);
    } else {
      assert qs[..k] == qs;
    }
  }

  /** One more callback: appended to what an archive held after the first
      `i` paths, its entries give what it holds after `i + 1`. */
  lemma VisitsStep(t: Tree, env: Env, input: Path, inputIsDir: bool, qs: seq<Path>, i: nat, base: seq<Entry>, cur: seq<Entry>)
    requires forall q :: q in qs ==> q in t && Within(q, input)
    requires i < |qs| && VisitsSpec(t, env, input, inputIsDir, qs[..i]).1 == Pass
    requires cur == base + VisitsSpec(t, env, input, inputIsDir, qs[..i]).0
    ensures cur + VisitSpec(t, env, input, inputIsDir, qs[i]).0 == base + VisitsSpec(t, env, input, inputIsDir, qs[..i + 1]).0
    ensures VisitsSpec(t, env, input, inputIsDir, qs[..i + 1]).1 == VisitSpec(t, env, input, inputIsDir, qs[i]).1
  {
    assert qs[..i + 1][..i] == qs[..i];
  }

  /** The loop `filepath.Walk` runs the callback in, over the paths it
      reaches. */
  method VisitAll(fs: FileSystem, tw: TarWriter, input: Path, inputIsDir: bool, qs: seq<Path>) returns (o: Outcome<Error>)
    requires forall q :: q in qs ==> q in fs.tree && Within(q, input)
    modifies tw
    ensures tw.entries == old(tw.entries) + VisitsSpec(fs.tree, fs.env, input, inputIsDir, qs).0
    ensures o == VisitsSpec(fs.tree, fs.env, input, inputIsDir, qs).1
  {
    o := Pass;
    var i := 0;
    while i < |qs|
      invariant i <= |qs|
      invariant tw.entries == old(tw.entries) + VisitsSpec(fs.tree, fs.env, input, inputIsDir, qs[..i]).0
      invariant VisitsSpec(fs.tree, fs.env, input, inputIsDir, qs[..i]).1 == Pass == o
    {
      ghost var before := tw.entries;
      o := Visit(fs, tw, input, inputIsDir, qs[i]);
      VisitsStep(fs.tree, fs.env, input, inputIsDir, qs, i, old(tw.entries), before);
      if o.Fail? {
        VisitsStopped(fs.tree, fs.env, input, inputIsDir, qs, i + 1);
        return;
      }
      i := i + 1;
    }
    assert qs[..i] == qs;
  }

  /** `addToArchive`, writing into `tw`. */
  method AddToArchive(fs: FileSystem, tw: TarWriter, input: Path) returns (o: Outcome<Error>)
    requires fs.Valid()
    modifies tw
    ensures tw.entries == old(tw.entries) + AddSpec(fs.tree, fs.env, input).0
    ensures o == AddSpec(fs.tree, fs.env, input).1
  {
    o := Open(fs.tree, fs.env, input);
    if o.Fail? {
      return;
    }
    var st := Stat(fs.tree, fs.env, input);
    if st.Err? {
      return Pass;
    }
    var w := WalkTree(fs.tree, fs.env, input);
    o := VisitAll(fs, tw, input, st.value.Dir?, w.visited);
    if o.Pass? && w.error.Some? {
      o := Fail(w.error.value);
    }
  }

  /** The inputs in order, up to the first that fails; its error is wrapped
      with the input's path. */
  function AddAllSpec(t: Tree, env: Env, inputs: seq<Path>): (seq<Entry>, Outcome<Error>)
    requires WellFormed(t)
  {
    if inputs == [] then ([], Pass)
    else
      var prev := AddAllSpec(t, env, inputs[..|inputs| - 1]);
      if prev.1.Fail? then prev
      else
        var input := inputs[|inputs| - 1];
        var r := AddSpec(t, env, input);
        (prev.0 + r.0, if r.1.Fail? then Fail(InArchive(input, r.1.error)) else Pass)
  }

  /** `CreateArchive`: create (or truncate) the archive file, then add each
      input.  Returns the new tree, the members written and the error. */
  function CreateArchiveSpec(t: Tree, env: Env, archive: Path, inputs: seq<Path>): (Tree, seq<Entry>, Outcome<Error>)
    requires WellFormed(t)
  {
    match CreateT(t, env, archive, CREATE_PERM)
    case Err(e) => (t, [], Fail(e))
    case Ok(t1) =>
      var r := AddAllSpec(t1, env, inputs);
      (t1, r.0, r.1)
  }

  lemma {:induction false} AddAllStopped(t: Tree, env: Env, inputs: seq<Path>, k: nat)
    requires WellFormed(t)
    requires k <= |inputs| && AddAllSpec(t, env, inputs[..k]).1.Fail?
    ensures AddAllSpec(t, env, inputs) == AddAllSpec(t, env, inputs[..k])
    decreases |inputs| - k
  {
    if k < |inputs| {
      assert inputs[..k + 1][..k] == inputs[..k];
      AddAllStopped(t, env, inputs, k + 1);
    } else {
      assert inputs[..k] == inputs;
    }
  }

  /** `CreateArchive`. */
  method CreateArchive(fs: FileSystem, archive: Path, inputs: seq<Path>) returns (o: Outcome<Error>, written: seq<Entry>)
    requires fs.Valid()
    modifies fs
    ensures fs.Valid()
    ensures (fs.tree, written, o) == CreateArchiveSpec(old(fs.tree), fs.env, archive, inputs)
  {
    o := fs.Apply(CreateT(fs.tree, fs.env, archive, CREATE_PERM));
    if o.Fail? {
      return o, [];
    }
    var tw := new TarWriter();
    var i := 0;
    while i < |inputs|
      invariant fs.Valid() && fs.tree == CreateT(old(fs.tree), fs.env, archive, CREATE_PERM).value
      invariant i <= |inputs|
      invariant AddAllSpec(fs.tree, fs.env, inputs[..i]) == (tw.entries, Pass)
    {
      var r := AddToArchive(fs, tw, inputs[i]);
      assert inputs[..i + 1][..i] == inputs[..i];
      if r.Fail? {
        AddAllStopped(fs.tree, fs.env, inputs, i + 1);
        return Fail(InArchive(inputs[i], r.error)), tw.entries;
      }
      i := i + 1;
    }
    assert inputs[..i] == inputs;
    return Pass, tw.entries;
  }

  /** The bytes an archive member of `n` should carry: a regular file's
      data, nothing for anything else. */
  function ContentOf(n: Node): seq<Byte>
  {
    if n.File? then n.data else []
  }

  /** `e` is the member that archives `q`. */
  predicate Describes(t: Tree, input: Path, inputIsDir: bool, q: Path, e: Entry)
    requires q in t && Within(q, input)
  {
    e == Entry(HeaderOf(EntryName(input, inputIsDir, q), q, t[q]), ContentOf(t[q]))
  }

  /** Two walked paths never share a member name. */
  lemma EntryNameInjective(input: Path, inputIsDir: bool, q: Path, q': Path)
    requires Within(q, input) && Within(q', input)
    requires inputIsDir || q == q' == input
    ensures EntryName(input, inputIsDir, q) == EntryName(input, inputIsDir, q') ==> q == q'
  {
    if input != [] {
      EntryNameRoundTrip(input, inputIsDir, q);
      EntryNameRoundTrip(input, inputIsDir, q');
    }
  }

  /** One callback: it writes exactly one member, whose content never
      exceeds the size in its header; it succeeds exactly when `q` is a
      directory, or a regular file that opens and reads to the end, and
      then the member archives `q` exactly. */
  lemma VisitMeaning(t: Tree, env: Env, input: Path, inputIsDir: bool, q: Path)
    requires q in t && Within(q, input)
    ensures var r := VisitSpec(t, env, input, inputIsDir, q);
            && |r.0| == 1 && |r.0[0].content| <= r.0[0].header.size
            && (r.1.Pass? <==> t[q].Dir? || (t[q].File? && Open(t, env, q).Pass? && ReadContent(t, env, q).error.None?))
            && (r.1.Pass? ==> Describes(t, input, inputIsDir, q, r.0[0]))
  {
    if t[q].File? && q in env.brokenAt && env.brokenAt[q] < |t[q].data| {
      assert Delivered(env.brokenAt[q]) <= env.brokenAt[q];
    }
  }

  /** The callback run over the walk succeeds exactly when it succeeds on
      every path. */
  lemma {:induction false} VisitsPassIff(t: Tree, env: Env, input: Path, inputIsDir: bool, qs: seq<Path>)
    requires forall q :: q in qs ==> q in t && Within(q, input)
    ensures VisitsSpec(t, env, input, inputIsDir, qs).1.Pass?
            <==> forall i :: 0 <= i < |qs| ==> VisitSpec(t, env, input, inputIsDir, qs[i]).1.Pass?
  {
    if qs != [] {
      var init := qs[..|qs| - 1];
      VisitsPassIff(t, env, input, inputIsDir, init);
      assert forall i :: 0 <= i < |init| ==> init[i] == qs[i];
    }
  }

  /** A successful run writes one member per walked path, in walk order,
      each archiving its path. */
  lemma {:induction false} VisitsDescribe(t: Tree, env: Env, input: Path, inputIsDir: bool, qs: seq<Path>)
    requires forall q :: q in qs ==> q in t && Within(q, input)
    requires VisitsSpec(t, env, input, inputIsDir, qs).1.Pass?
    ensures var es := VisitsSpec(t, env, input, inputIsDir, qs).0;
            |es| == |qs| && forall i :: 0 <= i < |qs| ==> Describes(t, input, inputIsDir, qs[i], es[i])
  {
    if qs != [] {
      var init := qs[..|qs| - 1];
      VisitsDescribe(t, env, input, inputIsDir, init);
      VisitMeaning(t, env, input, inputIsDir, qs[|qs| - 1]);
      assert forall i :: 0 <= i < |init| ==> init[i] == qs[i];
    }
  }

  /** No member ever carries more bytes than its header announces, so the
      tar writer never rejects a write. */
  lemma {:induction false} VisitsFit(t: Tree, env: Env, input: Path, inputIsDir: bool, qs: seq<Path>)
    requires forall q :: q in qs ==> q in t && Within(q, input)
    ensures forall e :: e in VisitsSpec(t, env, input, inputIsDir, qs).0 ==> |e.content| <= e.header.size
  {
    if qs != [] {
      VisitsFit(t, env, input, inputIsDir, qs[..|qs| - 1]);
      VisitMeaning(t, env, input, inputIsDir, qs[|qs| - 1]);
    }
  }

  /** The run stops at the first path whose callback fails, with that
      callback's error. */
  lemma {:induction false} VisitsFailFirst(t: Tree, env: Env, input: Path, inputIsDir: bool, qs: seq<Path>)
    requires forall q :: q in qs ==> q in t && Within(q, input)
    requires VisitsSpec(t, env, input, inputIsDir, qs).1.Fail?
    ensures exists k: nat :: k < |qs|
              && VisitsSpec(t, env, input, inputIsDir, qs).1 == VisitSpec(t, env, input, inputIsDir, qs[k]).1
              && forall j :: 0 <= j < k ==> VisitSpec(t, env, input, inputIsDir, qs[j]).1.Pass?
  {
    var init := qs[..|qs| - 1];
    assert forall i :: 0 <= i < |init| ==> init[i] == qs[i];
    if VisitsSpec(t, env, input, inputIsDir, init).1.Fail? {
      VisitsFailFirst(t, env, input, inputIsDir, init);
      var k: nat :| k < |init|
              && VisitsSpec(t, env, input, inputIsDir, init).1 == VisitSpec(t, env, input, inputIsDir, init[k]).1
              && forall j :: 0 <= j < k ==> VisitSpec(t, env, input, inputIsDir, init[j]).1.Pass?;
      assert qs[k] == init[k];
    } else {
      VisitsPassIff(t, env, input, inputIsDir, init);
      assert VisitsSpec(t, env, input, inputIsDir, qs).1 == VisitSpec(t, env, input, inputIsDir, qs[|qs| - 1]).1;
    }
  }

  /** `addToArchive` succeeds exactly when the input opens and then either
      cannot be `stat`ed (the input is skipped without error) or is walked
      to the end with every callback succeeding. */
  lemma AddPassIff(t: Tree, env: Env, input: Path)
    requires WellFormed(t)
    ensures AddSpec(t, env, input).1.Pass? <==>
              && Open(t, env, input).Pass?
              && (|| Stat(t, env, input).Err?
                  || (var w := WalkTree(t, env, input);
                      && w.error.None?
                      && forall i :: 0 <= i < |w.visited| ==>
                           VisitSpec(t, env, input, t[input].Dir?, w.visited[i]).1.Pass?))
    ensures Open(t, env, input).Pass? && Stat(t, env, input).Err? ==> AddSpec(t, env, input) == ([], Pass)
  {
    if Open(t, env, input).Pass? && Stat(t, env, input).Ok? {
      var w := WalkTree(t, env, input);
      VisitsPassIff(t, env, input, t[input].Dir?, w.visited);
    }
  }

  /** Whatever `addToArchive` writes, no member exceeds its header's size. */
  lemma AddFits(t: Tree, env: Env, input: Path)
    requires WellFormed(t)
    ensures forall e :: e in AddSpec(t, env, input).0 ==> |e.content| <= e.header.size
  {
    if Open(t, env, input).Pass? && Stat(t, env, input).Ok? {
      VisitsFit(t, env, input, t[input].Dir?, WalkTree(t, env, input).visited);
    }
  }

  /** Nothing below `input` fails to be listed, `stat`ed, opened or read,
      and no link lies there. */
  ghost predicate Archivable(t: Tree, env: Env, input: Path)
  {
    && Files.NoWalkFaults(t, env, input)
    && forall q :: q in t && Within(q, input) ==>
         (OpenCall, q) !in env.denied && q !in env.brokenAt && !t[q].Symlink?
  }

  lemma ArchivableVisitsPass(t: Tree, env: Env, input: Path, inputIsDir: bool, qs: seq<Path>)
    requires WellFormed(t) && Archivable(t, env, input)
    requires forall q :: q in qs ==> q in t && Within(q, input)
    ensures forall i :: 0 <= i < |qs| ==> VisitSpec(t, env, input, inputIsDir, qs[i]).1.Pass?
  {
    forall i | 0 <= i < |qs| ensures VisitSpec(t, env, input, inputIsDir, qs[i]).1.Pass? {
      assert qs[i] in qs;
      VisitMeaning(t, env, input, inputIsDir, qs[i]);
    }
  }

  /** Without faults, `addToArchive` succeeds and writes every path below
      the input exactly once, in walk order, each member archiving its
      path: directories as empty members, files with all their data. */
  lemma AddArchivesSubtree(t: Tree, env: Env, input: Path)
    requires WellFormed(t) && input in t && Archivable(t, env, input)
    ensures var r := AddSpec(t, env, input);
            var qs := WalkFrom(t, env, input).visited;
            && r.1 == Pass && |r.0| == |qs| && Files.Distinct(qs)
            && (forall q :: q in qs <==> q in t && Within(q, input))
            && (forall i :: 0 <= i < |qs| ==> Describes(t, input, t[input].Dir?, qs[i], r.0[i]))
  {
    assert Within(input, input);
    assert Stat(t, env, input) == Ok(t[input]);
    var qs := WalkFrom(t, env, input).visited;
    Files.WalkVisitsSubtree(t, env, input);
    ArchivableVisitsPass(t, env, input, t[input].Dir?, qs);
    VisitsPassIff(t, env, input, t[input].Dir?, qs);
    VisitsDescribe(t, env, input, t[input].Dir?, qs);
  }

  /** Without faults, no two members of one input share a name. */
  lemma AddNamesDistinct(t: Tree, env: Env, input: Path)
    requires WellFormed(t) && input in t && Archivable(t, env, input)
    ensures var es := AddSpec(t, env, input).0;
            forall i, j :: 0 <= i < j < |es| ==> es[i].header.name != es[j].header.name
  {
    AddArchivesSubtree(t, env, input);
    var es := AddSpec(t, env, input).0;
    var qs := WalkFrom(t, env, input).visited;
    forall i, j | 0 <= i < j < |es| ensures es[i].header.name != es[j].header.name {
      assert qs[i] in qs && qs[j] in qs;
      if t[input].Dir? {
        EntryNameInjective(input, true, qs[i], qs[j]);
      }
    }
  }

  /** Adding the inputs succeeds exactly when every input is added
      without error. */
  lemma {:induction false} AddAllPassIff(t: Tree, env: Env, inputs: seq<Path>)
    requires WellFormed(t)
    ensures AddAllSpec(t, env, inputs).1.Pass? <==> forall i :: 0 <= i < |inputs| ==> AddSpec(t, env, inputs[i]).1.Pass?
  {
    if inputs != [] {
      var init := inputs[..|inputs| - 1];
      AddAllPassIff(t, env, init);
      assert forall i :: 0 <= i < |init| ==> init[i] == inputs[i];
    }
  }

  /** A failure names the first input that could not be added, wrapping
      that input's own error; every earlier input was added. */
  lemma {:induction false} AddAllFailFirst(t: Tree, env: Env, inputs: seq<Path>)
    requires WellFormed(t) && AddAllSpec(t, env, inputs).1.Fail?
    ensures exists k: nat :: k < |inputs|
              && AddSpec(t, env, inputs[k]).1.Fail?
              && AddAllSpec(t, env, inputs).1 == Fail(InArchive(inputs[k], AddSpec(t, env, inputs[k]).1.error))
              && forall j :: 0 <= j < k ==> AddSpec(t, env, inputs[j]).1.Pass?
  {
    var init := inputs[..|inputs| - 1];
    assert forall i :: 0 <= i < |init| ==> init[i] == inputs[i];
    if AddAllSpec(t, env, init).1.Fail? {
      AddAllFailFirst(t, env, init);
      var k: nat :| k < |init|
              && AddSpec(t, env, init[k]).1.Fail?
              && AddAllSpec(t, env, init).1 == Fail(InArchive(init[k], AddSpec(t, env, init[k]).1.error))
              && forall j :: 0 <= j < k ==> AddSpec(t, env, init[j]).1.Pass?;
      assert inputs[k] == init[k];
    } else {
      AddAllPassIff(t, env, init);
      assert AddAllSpec(t, env, inputs).1 == Fail(InArchive(inputs[|inputs| - 1], AddSpec(t, env, inputs[|inputs| - 1]).1.error));
    }
  }

  /** `CreateArchive` changes nothing but the archive file, which it
      leaves empty (the compressed stream is not modelled); it succeeds
      exactly when the archive can be created and every input is added. */
  lemma CreateArchiveMeaning(t: Tree, env: Env, archive: Path, inputs: seq<Path>)
    requires WellFormed(t)
    ensures var r := CreateArchiveSpec(t, env, archive, inputs);
            && (r.0 == t || (archive in r.0 && r.0[archive].File? && r.0[archive].data == []
                             && r.0 == t[archive := r.0[archive]]))
            && (r.2.Pass? <==> CreateT(t, env, archive, CREATE_PERM).Ok?
                               && forall i :: 0 <= i < |inputs| ==> AddSpec(r.0, env, inputs[i]).1.Pass?)
  {
    var c := CreateT(t, env, archive, CREATE_PERM);
    if c.Ok? {
      AddAllPassIff(c.value, env, inputs);
    }
  }
}
