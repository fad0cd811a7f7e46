/** The offline extraction script: every image entry of the archive is written below an
    output directory, creating the entry's parent directory first when it is missing. */
module BatchExtraction {
  import opened Archive
  import opened Extensions
  import opened NodeFs

  /** `path.join` and `path.dirname`, kept abstract. */
  datatype PathOps = PathOps(join: (Path, string) -> Path, dirname: Path -> Path)

  /** The script's test: not a directory, and the name passes the case-sensitive regex. */
  predicate Selected(e: Entry) {
    !e.isDirectory && IsBatchImageName(e.name)
  }

  /** `path.join(outputDir, entryName)`: the entry's own directory segments are kept. */
  function Target(ops: PathOps, outDir: Path, e: Entry): Path {
    ops.join(outDir, e.name)
  }

  function Parent(ops: PathOps, outDir: Path, e: Entry): Path {
    ops.dirname(Target(ops, outDir, e))
  }

  /** The file system after a run, and whether the run got to its end without a throw. */
  datatype Run = Run(fs: FsState, ok: bool)

  /** `if (!fs.existsSync(d)) fs.mkdirSync(d, { recursive: true })` */
  function EnsureDirSpec(s: FsState, d: Path): (r: FsState)
    ensures ExistsIn(r, d)
    ensures r.files == s.files && s.dirs <= r.dirs
    ensures forall x :: x in r.dirs && x !in s.dirs ==> x == d && !ExistsIn(s, d)
  {
    if ExistsIn(s, d) then s else s.(dirs := s.dirs + {d})
  }

  /** Setting up a directory twice is setting it up once. */
  lemma EnsureDirIdempotent(s: FsState, d: Path)
    ensures EnsureDirSpec(EnsureDirSpec(s, d), d) == EnsureDirSpec(s, d)
    ensures ExistsIn(s, d) ==> EnsureDirSpec(s, d) == s
  {
  }

  /** One iteration of the entry loop. An entry that is not selected changes nothing; a
      selected one gets its parent directory, then its bytes are written at its target,
      unless reading it fails, where the loop throws after the directory was made. */
  function StepSpec(s: FsState, ops: PathOps, outDir: Path, e: Entry): (r: Run)
    ensures r.ok <==> !Selected(e) || e.content.Some?
    ensures !Selected(e) ==> r.fs == s
    ensures Selected(e) ==> ExistsIn(r.fs, Parent(ops, outDir, e))
    ensures s.dirs <= r.fs.dirs && s.files.Keys <= r.fs.files.Keys
    ensures forall d :: d in r.fs.dirs && d !in s.dirs ==>
              Selected(e) && d == Parent(ops, outDir, e) && !ExistsIn(s, d)
    ensures forall p :: p in r.fs.files && p != Target(ops, outDir, e) ==> p in s.files && r.fs.files[p] == s.files[p]
    ensures Selected(e) && e.content.Some? ==> r.fs.files == s.files[Target(ops, outDir, e) := e.content.value]
    ensures !(Selected(e) && e.content.Some?) ==> r.fs.files == s.files
  {
    if !Selected(e) then Run(s, true)
    else
      var s1 := EnsureDirSpec(s, Parent(ops, outDir, e));
      match e.content
      case None => Run(s1, false)
      case Some(data) => Run(s1.(files := s1.files[Target(ops, outDir, e) := data]), true)
  }

  /** The entry loop, entry by entry, stopping at the first throw. */
  function RunSpec(s: FsState, ops: PathOps, outDir: Path, es: seq<Entry>): Run
    decreases |es|
  {
    if es == [] then Run(s, true)
    else
      var r := StepSpec(s, ops, outDir, es[0]);
      if !r.ok then r else RunSpec(r.fs, ops, outDir, es[1..])
  }

  function SelectedEntries(es: seq<Entry>): seq<Entry>
    decreases |es|
  {
    if es == [] then []
    else if Selected(es[0]) then [es[0]] + SelectedEntries(es[1..])
    else SelectedEntries(es[1..])
  }

  /** Every selected entry can be read. */
  predicate AllSelectedReadable(es: seq<Entry>) {
    forall i :: 0 <= i < |es| && Selected(es[i]) ==> es[i].content.Some?
  }

  /** The output paths of the selected entries. */
  function Targets(ops: PathOps, outDir: Path, es: seq<Entry>): set<Path> {
    set i | 0 <= i < |es| && Selected(es[i]) :: Target(ops, outDir, es[i])
  }

  /** No later selected entry is written at the same path as entry `i`. */
  predicate LastWithTarget(ops: PathOps, outDir: Path, es: seq<Entry>, i: nat)
    requires i < |es|
  {
    forall j :: i < j < |es| && Selected(es[j]) ==> Target(ops, outDir, es[j]) != Target(ops, outDir, es[i])
  }

  // ---------------------------------------------------------------------------------------
  // What a run does

  lemma TailReadable(es: seq<Entry>)
    requires es != [] && AllSelectedReadable(es)
    ensures AllSelectedReadable(es[1..])
  {
    forall i | 0 <= i < |es| - 1 && Selected(es[1..][i]) ensures es[1..][i].content.Some? {
      assert es[1..][i] == es[i + 1];
    }
  }

  lemma TargetsOfTail(ops: PathOps, outDir: Path, es: seq<Entry>)
    requires es != []
    ensures Targets(ops, outDir, es) ==
            Targets(ops, outDir, es[1..]) + (if Selected(es[0]) then {Target(ops, outDir, es[0])} else {})
  {
    var tail := es[1..];
    forall p | p in Targets(ops, outDir, es)
      ensures p in Targets(ops, outDir, tail) || (Selected(es[0]) && p == Target(ops, outDir, es[0]))
    {
      var i :| 0 <= i < |es| && Selected(es[i]) && p == Target(ops, outDir, es[i]);
      if i > 0 {
        assert tail[i - 1] == es[i];
      }
    }
    forall p | p in Targets(ops, outDir, tail) ensures p in Targets(ops, outDir, es) {
      var i :| 0 <= i < |tail| && Selected(tail[i]) && p == Target(ops, outDir, tail[i]);
      assert es[i + 1] == tail[i];
    }
  }

  /** Directories and files are only ever added. */
  lemma {:induction false} RunGrows(s: FsState, ops: PathOps, outDir: Path, es: seq<Entry>)
    ensures s.dirs <= RunSpec(s, ops, outDir, es).fs.dirs
    ensures s.files.Keys <= RunSpec(s, ops, outDir, es).fs.files.Keys
    decreases |es|
  {
    if es != [] {
      var r := StepSpec(s, ops, outDir, es[0]);
      if r.ok {
        RunGrows(r.fs, ops, outDir, es[1..]);
      }
    }
  }

  /** Entries the regex rejects, and directories, cause no change at all: running over the
      archive is running over its selected entries. */
  lemma {:induction false} RunSkipsUnselected(s: FsState, ops: PathOps, outDir: Path, es: seq<Entry>)
    ensures RunSpec(s, ops, outDir, es) == RunSpec(s, ops, outDir, SelectedEntries(es))
    decreases |es|
  {
    if es != [] {
      var r := StepSpec(s, ops, outDir, es[0]);
      if Selected(es[0]) {
        var rest := SelectedEntries(es[1..]);
        assert ([es[0]] + rest)[0] == es[0];
        assert ([es[0]] + rest)[1..] == rest;
        if r.ok {
          RunSkipsUnselected(r.fs, ops, outDir, es[1..]);
        }
      } else {
        RunSkipsUnselected(s, ops, outDir, es[1..]);
      }
    }
  }

  /** The run reaches `zip.close()` exactly when every selected entry can be read. */
  lemma {:induction false} RunOkIffReadable(s: FsState, ops: PathOps, outDir: Path, es: seq<Entry>)
    ensures RunSpec(s, ops, outDir, es).ok <==> AllSelectedReadable(es)
    decreases |es|
  {
    if es != [] {
      var r := StepSpec(s, ops, outDir, es[0]);
      RunOkIffReadable(r.fs, ops, outDir, es[1..]);
      if AllSelectedReadable(es) {
        TailReadable(es);
      }
      if r.ok && AllSelectedReadable(es[1..]) {
        forall i | 0 <= i < |es| && Selected(es[i]) ensures es[i].content.Some? {
          if i > 0 {
            assert es[1..][i - 1] == es[i];
          }
        }
      }
    }
  }

  /** A run over `xs + ys` is a run over `xs` followed, if that did not throw, by a run over
      `ys`: a failure ends the run where it happens. */
  lemma {:induction false} RunStopsAtFirstFailure(s: FsState, ops: PathOps, outDir: Path, xs: seq<Entry>, ys: seq<Entry>)
    ensures RunSpec(s, ops, outDir, xs + ys) ==
            var r := RunSpec(s, ops, outDir, xs);
            if r.ok then RunSpec(r.fs, ops, outDir, ys) else r
    decreases |xs|
  {
    if xs == [] {
      assert xs + ys == ys;
    } else {
      assert (xs + ys)[0] == xs[0];
      assert (xs + ys)[1..] == xs[1..] + ys;
      var r := StepSpec(s, ops, outDir, xs[0]);
      if r.ok {
        RunStopsAtFirstFailure(r.fs, ops, outDir, xs[1..], ys);
      }
    }
  }

  /** With every selected entry readable, the files afterwards are the files before plus one
      at each selected entry's target, and every other file keeps its bytes. */
  lemma {:induction false} RunWritesExactlyTheTargets(s: FsState, ops: PathOps, outDir: Path, es: seq<Entry>)
    requires AllSelectedReadable(es)
    ensures RunSpec(s, ops, outDir, es).fs.files.Keys == s.files.Keys + Targets(ops, outDir, es)
    ensures forall p :: p in s.files && p !in Targets(ops, outDir, es) ==>
              RunSpec(s, ops, outDir, es).fs.files[p] == s.files[p]
    decreases |es|
  {
    if es != [] {
      var r := StepSpec(s, ops, outDir, es[0]);
      assert r.ok;
      TailReadable(es);
      TargetsOfTail(ops, outDir, es);
      RunWritesExactlyTheTargets(r.fs, ops, outDir, es[1..]);
    }
  }

  /** The file at a selected entry's target holds exactly that entry's bytes, unless a later
      entry of the archive is written at the same path and replaces them. */
  lemma {:induction false} RunWritesEachEntrysBytes(s: FsState, ops: PathOps, outDir: Path, es: seq<Entry>)
    requires AllSelectedReadable(es)
    ensures forall i :: 0 <= i < |es| && Selected(es[i]) && LastWithTarget(ops, outDir, es, i) ==>
              Target(ops, outDir, es[i]) in RunSpec(s, ops, outDir, es).fs.files &&
              RunSpec(s, ops, outDir, es).fs.files[Target(ops, outDir, es[i])] == es[i].content.value
    decreases |es|
  {
    if es != [] {
      var r := StepSpec(s, ops, outDir, es[0]);
      var tail := es[1..];
      TailReadable(es);
      RunWritesEachEntrysBytes(r.fs, ops, outDir, tail);
      RunWritesExactlyTheTargets(r.fs, ops, outDir, tail);
      forall i | 0 <= i < |es| && Selected(es[i]) && LastWithTarget(ops, outDir, es, i)
        ensures Target(ops, outDir, es[i]) in RunSpec(s, ops, outDir, es).fs.files
        ensures RunSpec(s, ops, outDir, es).fs.files[Target(ops, outDir, es[i])] == es[i].content.value
      {
        if i == 0 {
          var t := Target(ops, outDir, es[0]);
          assert t !in Targets(ops, outDir, tail) by {
            forall j | 0 <= j < |tail| && Selected(tail[j]) ensures Target(ops, outDir, tail[j]) != t {
              assert tail[j] == es[j + 1];
            }
          }
        } else {
          assert tail[i - 1] == es[i];
          assert LastWithTarget(ops, outDir, tail, i - 1) by {
            forall j | i - 1 < j < |tail| && Selected(tail[j])
              ensures Target(ops, outDir, tail[j]) != Target(ops, outDir, tail[i - 1])
            {
              assert tail[j] == es[j + 1];
            }
          }
        }
      }
    }
  }

  /** Once a selected entry has been reached, something, its directory or a file in the way,
      exists at its parent path, whether or not its bytes could then be read. */
  lemma {:induction false} RunLeavesEveryParent(s: FsState, ops: PathOps, outDir: Path, es: seq<Entry>)
    ensures forall i :: 0 <= i < |es| && Selected(es[i]) && AllSelectedReadable(es[..i]) ==>
              ExistsIn(RunSpec(s, ops, outDir, es).fs, Parent(ops, outDir, es[i]))
    decreases |es|
  {
    if es != [] {
      var r := StepSpec(s, ops, outDir, es[0]);
      var tail := es[1..];
      RunLeavesEveryParent(r.fs, ops, outDir, tail);
      RunGrows(r.fs, ops, outDir, tail);
      forall i | 0 <= i < |es| && Selected(es[i]) && AllSelectedReadable(es[..i])
        ensures ExistsIn(RunSpec(s, ops, outDir, es).fs, Parent(ops, outDir, es[i]))
      {
        if i > 0 {
          assert es[..i][0] == es[0];
          assert r.ok;
          assert tail[i - 1] == es[i];
          assert AllSelectedReadable(tail[..i - 1]) by {
            var before := tail[..i - 1];
            forall k | 0 <= k < i - 1 && Selected(before[k]) ensures before[k].content.Some? {
              assert before[k] == es[..i][k + 1];
            }
          }
        }
      }
    }
  }

  /** A directory is created only where nothing existed, and only as the parent of a
      selected entry; directories that existed are kept. */
  lemma {:induction false} RunCreatesOnlyMissingParents(s: FsState, ops: PathOps, outDir: Path, es: seq<Entry>)
    ensures s.dirs <= RunSpec(s, ops, outDir, es).fs.dirs
    ensures forall d :: d in RunSpec(s, ops, outDir, es).fs.dirs && d !in s.dirs ==>
              !ExistsIn(s, d) && exists i :: 0 <= i < |es| && Selected(es[i]) && d == Parent(ops, outDir, es[i])
    decreases |es|
  {
    RunGrows(s, ops, outDir, es);
    if es != [] {
      var r := StepSpec(s, ops, outDir, es[0]);
      var tail := es[1..];
      if r.ok {
        RunCreatesOnlyMissingParents(r.fs, ops, outDir, tail);
        forall d | d in RunSpec(s, ops, outDir, es).fs.dirs && d !in s.dirs
          ensures !ExistsIn(s, d) && exists i :: 0 <= i < |es| && Selected(es[i]) && d == Parent(ops, outDir, es[i])
        {
          if d !in r.fs.dirs {
            var i :| 0 <= i < |tail| && Selected(tail[i]) && d == Parent(ops, outDir, tail[i]);
            assert tail[i] == es[i + 1];
          }
        }
      }
    }
  }

  function ThreeEntries(a: Bytes, b: Bytes, c: Bytes): seq<Entry> {
    [Entry("a.png", false, Some(a)), Entry("b.webp", false, Some(b)), Entry("c.jpg", false, Some(c))]
  }

  lemma ThreeEntrySelection(a: Bytes, b: Bytes, c: Bytes)
    ensures SelectedEntries(ThreeEntries(a, b, c)) == [ThreeEntries(a, b, c)[0], ThreeEntries(a, b, c)[2]]
  {
    var es := ThreeEntries(a, b, c);
    BatchTestExamples();
    WebpDiverges();
    assert es[1..][1..] == [es[2]];
    assert SelectedEntries(es[1..][1..]) == [es[2]] + SelectedEntries([]);
  }

  lemma ThreeEntryTargets(ops: PathOps, outDir: Path, a: Bytes, b: Bytes, c: Bytes)
    ensures Targets(ops, outDir, ThreeEntries(a, b, c)) == {ops.join(outDir, "a.png"), ops.join(outDir, "c.jpg")}
  {
    var es := ThreeEntries(a, b, c);
    BatchTestExamples();
    WebpDiverges();
    TargetsOfTail(ops, outDir, es);
    TargetsOfTail(ops, outDir, es[1..]);
    TargetsOfTail(ops, outDir, es[1..][1..]);
    assert es[1..][1..][1..] == [];
  }

  /** The script on `["a.png", "b.webp", "c.jpg"]`: only the first and the last are written,
      and the run reaches its end. */
  lemma ThreeEntryExample(s: FsState, ops: PathOps, outDir: Path, a: Bytes, b: Bytes, c: Bytes)
    ensures RunSpec(s, ops, outDir, ThreeEntries(a, b, c)).ok
    ensures RunSpec(s, ops, outDir, ThreeEntries(a, b, c)).fs.files.Keys ==
            s.files.Keys + {ops.join(outDir, "a.png"), ops.join(outDir, "c.jpg")}
  {
    var es := ThreeEntries(a, b, c);
    assert AllSelectedReadable(es) by {
      forall i | 0 <= i < |es| ensures es[i].content.Some? {
      }
    }
    RunOkIffReadable(s, ops, outDir, es);
    RunWritesExactlyTheTargets(s, ops, outDir, es);
    ThreeEntryTargets(ops, outDir, a, b, c);
  }

  // ---------------------------------------------------------------------------------------
  // The script

  /** A `node-stream-zip` archive handle; `entries` is `None` when the archive cannot be read,
      where `zip.entries()` rejects. */
  class StreamZip {
    const entries: Option<seq<Entry>>
    var closeCount: nat

    constructor (entries: Option<seq<Entry>>)
      ensures this.entries == entries && closeCount == 0
    {
      this.entries := entries;
      closeCount := 0;
    }

    /** `zip.close()` */
    method Close()
      modifies this
      ensures closeCount == old(closeCount) + 1
    {
      closeCount := closeCount + 1;
    }
  }

  /** `if (!fs.existsSync(d)) fs.mkdirSync(d, { recursive: true })` */
  method EnsureDir(fs: FileSystem, d: Path)
    modifies fs
    ensures fs.State() == EnsureDirSpec(old(fs.State()), d)
  {
    var present := fs.ExistsSync(d);
    if !present {
      var made := fs.MkdirSync(d);
    }
  }

  /** `extractCbz`. `ok` is false where the returned promise rejects. The archive is closed
      once, after the last entry, and only when no entry failed. */
  method ExtractCbz(zip: StreamZip, fs: FileSystem, ops: PathOps, outDir: Path) returns (ok: bool)
    modifies zip, fs
    ensures zip.entries.None? ==> !ok && fs.State() == old(fs.State()) && zip.closeCount == old(zip.closeCount)
    ensures zip.entries.Some? ==>
      var r := RunSpec(old(fs.State()), ops, outDir, zip.entries.value);
      && fs.State() == r.fs
      && ok == r.ok
      && zip.closeCount == old(zip.closeCount) + (if ok then 1 else 0)
  {
    if zip.entries.None? {
      return false;
    }
    var entries := zip.entries.value;
    var i := 0;
    while i < |entries|
      invariant 0 <= i <= |entries|
      invariant RunSpec(old(fs.State()), ops, outDir, entries) == RunSpec(fs.State(), ops, outDir, entries[i..])
      invariant zip.closeCount == old(zip.closeCount)
    {
      var e := entries[i];
      assert entries[i..][0] == e && entries[i..][1..] == entries[i + 1..];
      if Selected(e) {
        var target := ops.join(outDir, e.name);
        EnsureDir(fs, ops.dirname(target));
        if e.content.None? {
          return false;
        }
        fs.WriteFile(target, e.content.value);
      }
      i := i + 1;
    }
    zip.Close();
    ok := true;
  }

  /** The script's top level: create the output directory when it is missing, then extract.
      The archive and output paths, and the console messages, are not part of this model. */
  method RunScript(zip: StreamZip, fs: FileSystem, ops: PathOps, outDir: Path) returns (ok: bool)
    modifies zip, fs
    ensures
      var s1 := EnsureDirSpec(old(fs.State()), outDir);
      && (zip.entries.None? ==> !ok && fs.State() == s1 && zip.closeCount == old(zip.closeCount))
      && (zip.entries.Some? ==>
            var r := RunSpec(s1, ops, outDir, zip.entries.value);
            && fs.State() == r.fs
            && ok == r.ok
            && zip.closeCount == old(zip.closeCount) + (if ok then 1 else 0))
  {
    EnsureDir(fs, outDir);
    ok := ExtractCbz(zip, fs, ops, outDir);
  }
}
