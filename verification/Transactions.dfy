/**
 * The transaction that rewrites many files: prepare every replacement beside its file, then move each
 * original aside and install its replacement, and on any failure put the originals back.
 *
 * Every operation on the file system may fail, and the process may stop between any two of them, so what
 * is promised is promised of every state the files go through: `trace` records them all.
 */
module Transactions {
  import opened Bytes

  /** A journal is named after the file it holds and the place of that file in the transaction. */
  datatype Path = Named(name: string) | Temporary(id: nat) | Journal(of: Path, sequence: nat)

  datatype Node = File(content: Source) | Symlink(target: Path)

  type Files = map<Path, Node>

  datatype WritePlan = WritePlan(path: Path, original: Source, replacement: Source)

  datatype Prepared = Prepared(plan: WritePlan, temporary: Option<Path>, backup: Path)

  datatype Outcome = Done | PrepareError | RolledBack | RollbackFailed | CleanupError

  ghost predicate Holds(f: Files, p: Path, content: Source) {
    p in f && f[p] == File(content)
  }

  function Renamed(f: Files, from: Path, to: Path): Files
    requires from in f
  {
    (f - {from})[to := f[from]]
  }

  // ---- the file system ----

  /** Which operations fail, the first being operation 0. */
  type Schedule = nat -> bool

  class FileSystem {
    var files: Files
    var unused: nat
    const fails: Schedule
    /** How many operations were tried. */
    var clock: nat
    ghost var trace: seq<Files>
    /** How many operations have failed that the files gave no reason to. */
    ghost var faults: nat

    /** The trace ends in the present, and no temporary name was given out yet from `unused` on. */
    ghost predicate Valid()
      reads this
    {
      trace != [] && trace[|trace| - 1] == files && forall id: nat | id >= unused :: Temporary(id) !in files
    }

    constructor (files: Files, unused: nat, fails: Schedule)
      requires forall id: nat | id >= unused :: Temporary(id) !in files
      ensures Valid() && this.files == files && this.unused == unused && this.fails == fails
      ensures clock == 0 && trace == [files] && faults == 0
    {
      this.files, this.unused, this.fails := files, unused, fails;
      clock, trace, faults := 0, [files], 0;
    }

    /** `symlink_metadata`: whether the entry is a link; an entry that cannot be inspected looks like none. */
    method Inspect(path: Path) returns (r: Option<bool>)
      modifies this`faults, this`clock
      ensures clock == old(clock) + 1
      ensures r == if fails(old(clock)) || path !in files then None else Some(files[path].Symlink?)
      ensures faults == old(faults) + if r.None? && path in files then 1 else 0
    {
      var failed := fails(clock);
      clock := clock + 1;
      if failed && path in files { faults := faults + 1; }
      r := if failed || path !in files then None else Some(files[path].Symlink?);
    }

    /** Reads follow links; what a link leads to is not modelled. */
    method Read(path: Path) returns (r: Option<Source>)
      modifies this`faults, this`clock
      ensures clock == old(clock) + 1
      ensures r.None? <==> fails(old(clock)) || path !in files
      ensures r.Some? && files[path].File? ==> r.value == files[path].content
      ensures faults == old(faults) + if r.None? && path in files then 1 else 0
    {
      var failed := fails(clock);
      clock := clock + 1;
      if failed && path in files { faults := faults + 1; }
      if failed || path !in files { return None; }
      if files[path].File? { return Some(files[path].content); }
      var target: Source := *;
      r := Some(target);
    }

    method Rename(from: Path, to: Path) returns (ok: bool)
      requires Valid() && !to.Temporary?
      modifies this`files, this`trace, this`faults, this`clock
      ensures Valid() && trace == old(trace) + [files] && clock == old(clock) + 1
      ensures ok <==> !fails(old(clock)) && from in old(files)
      ensures faults == old(faults) + if !ok && from in old(files) then 1 else 0
      ensures ok ==> files == Renamed(old(files), from, to)
      ensures !ok ==> files == old(files)
    {
      var failed := fails(clock);
      clock := clock + 1;
      ok := !failed && from in files;
      if failed && from in files { faults := faults + 1; }
      if ok { files := Renamed(files, from, to); }
      trace := trace + [files];
    }

    method Remove(path: Path) returns (ok: bool)
      requires Valid()
      modifies this`files, this`trace, this`faults, this`clock
      ensures Valid() && trace == old(trace) + [files] && clock == old(clock) + 1
      ensures ok <==> !fails(old(clock)) && path in old(files)
      ensures faults == old(faults) + if !ok && path in old(files) then 1 else 0
      ensures ok ==> files == old(files) - {path}
      ensures !ok ==> files == old(files)
    {
      var failed := fails(clock);
      clock := clock + 1;
      ok := !failed && path in files;
      if failed && path in files { faults := faults + 1; }
      if ok { files := files - {path}; }
      trace := trace + [files];
    }

    /** Flushing a directory changes no file, and may fail. */
    method Sync() returns (ok: bool)
      modifies this`faults, this`clock
      ensures clock == old(clock) + 1 && ok == !fails(old(clock))
      ensures faults == old(faults) + if ok then 0 else 1
    {
      ok := !fails(clock);
      clock := clock + 1;
      if !ok { faults := faults + 1; }
    }

    /** Writes a temporary file, gives it its permissions and flushes it; if that fails the file is dropped. */
    method Fill(temporary: Path, content: Source) returns (ok: bool)
      requires Valid() && temporary.Temporary? && temporary.id < unused
      modifies this`files, this`trace, this`faults, this`clock
      ensures Valid() && old(trace) <= trace && old(clock) < clock && ok == !fails(old(clock))
      ensures forall k | |old(trace)| <= k < |trace| :: DiffersAt(old(files), trace[k], temporary)
      ensures DiffersAt(old(files), files, temporary)
      ensures ok ==> clock == old(clock) + 1 && faults == old(faults) && files == old(files)[temporary := File(content)]
      ensures !ok ==> faults > old(faults)
      ensures !ok && faults == old(faults) + 1 ==> temporary !in files
    {
      var written: Source := *;
      files := files[temporary := File(written)];
      trace := trace + [files];
      ok := !fails(clock);
      clock := clock + 1;
      if ok {
        files := files[temporary := File(content)];
        trace := trace + [files];
      } else {
        faults := faults + 1;
        var dropped := Remove(temporary);
      }
    }

    /** A temporary file, made and then filled; either step may fail. */
    method MakeTemporary(content: Source) returns (temporary: Option<Path>)
      requires Valid()
      modifies this
      ensures Valid() && old(unused) <= unused && old(trace) <= trace
      ensures old(clock) <= clock && (temporary.Some? ==> clock == old(clock) + 2)
      ensures temporary.Some? <==> !fails(old(clock)) && !fails(old(clock) + 1)
      ensures if temporary.Some? then faults == old(faults) else faults > old(faults)
      ensures forall k | |old(trace)| <= k < |trace| :: Extends(old(files), trace[k])
      ensures Extends(old(files), files)
      ensures temporary.Some? ==> temporary.value == Temporary(old(unused)) && unused == old(unused) + 1
      ensures temporary.Some? ==> files == old(files)[temporary.value := File(content)]
      ensures temporary.None? && faults == old(faults) + 1 ==> files == old(files)
    {
      var made := !fails(clock);
      clock := clock + 1;
      if !made {
        faults := faults + 1;
        return None;
      }
      var t := Temporary(unused);
      unused := unused + 1;
      files := files[t := File([])];
      trace := trace + [files];
      var ok := Fill(t, content);
      temporary := if ok then Some(t) else None;
      if !ok && faults == old(faults) + 1 { SameEverywhere(old(files), files); }
    }
  }

  lemma {:induction false} SameEverywhere(f: Files, g: Files)
    requires forall p: Path :: SameAt(f, g, p)
    ensures f == g
  {
    forall p: Path
      ensures p in f <==> p in g
      ensures p in f ==> f[p] == g[p]
    {
      assert SameAt(f, g, p);
    }
  }

  /** The `n` operations from `from` on succeed. */
  ghost predicate Quiet(fails: Schedule, from: nat, n: nat) {
    forall t | from <= t < from + n :: !fails(t)
  }

  /** The two are alike but for one entry. */
  ghost predicate DiffersAt(f: Files, g: Files, but: Path) {
    forall p: Path | p != but :: (p in f <==> p in g) && (p in f ==> f[p] == g[p])
  }

  /** `f` has everything `base` has, and temporary files besides. */
  ghost predicate Extends(base: Files, f: Files) {
    && (forall p | p in base :: p in f && f[p] == base[p])
    && (forall p | p in f && p !in base :: p.Temporary?)
  }

  // ---- how far one file has come ----

  /** `Doubled`: untouched, with an old journal beside it that holds the very same. */
  datatype Stage = Untouched | Doubled | Aside | Installed | Finished

  function BackupOf(plans: seq<WritePlan>, i: nat): Path
    requires i < |plans|
  {
    Journal(plans[i].path, i)
  }

  ghost predicate At(f: Files, plan: WritePlan, backup: Path, s: Stage) {
    match s
    case Untouched => Holds(f, plan.path, plan.original) && backup !in f
    case Doubled => Holds(f, plan.path, plan.original) && Holds(f, backup, plan.original)
    case Aside => plan.path !in f && Holds(f, backup, plan.original)
    case Installed => Holds(f, plan.path, plan.replacement) && Holds(f, backup, plan.original)
    case Finished => Holds(f, plan.path, plan.replacement) && backup !in f
  }

  /** No file is planned twice, or is another's journal, or a temporary one. */
  ghost predicate Separate(plans: seq<WritePlan>) {
    && (forall i, j | 0 <= i < j < |plans| :: plans[i].path != plans[j].path)
    && (forall i, j | 0 <= i < |plans| && 0 <= j < |plans| :: plans[i].path != BackupOf(plans, j))
    && (forall i | 0 <= i < |plans| :: !plans[i].path.Temporary?)
  }

  /** The transaction has to do with `p`. */
  ghost predicate Concerns(plans: seq<WritePlan>, p: Path) {
    p.Temporary? || exists i :: 0 <= i < |plans| && (p == plans[i].path || p == BackupOf(plans, i))
  }

  ghost predicate SameAt(f: Files, g: Files, p: Path) {
    (p in f <==> p in g) && (p in f ==> f[p] == g[p])
  }

  /** Every planned file has come as far as its stage says, and nothing else has changed. */
  ghost predicate Staged(f: Files, base: Files, plans: seq<WritePlan>, stages: seq<Stage>) {
    && |stages| == |plans|
    && (forall i | 0 <= i < |plans| :: At(f, plans[i], BackupOf(plans, i), stages[i]))
    && (forall p | !Concerns(plans, p) :: SameAt(base, f, p))
  }

  ghost predicate NoneFinished(stages: seq<Stage>) {
    forall i | 0 <= i < |stages| :: !stages[i].Finished?
  }

  /** Every original is in its place or in its journal. */
  ghost predicate Recoverable(f: Files, plans: seq<WritePlan>) {
    forall i | 0 <= i < |plans| ::
      Holds(f, plans[i].path, plans[i].original) || Holds(f, BackupOf(plans, i), plans[i].original)
  }

  ghost predicate AllReplaced(f: Files, plans: seq<WritePlan>) {
    forall i | 0 <= i < |plans| :: Holds(f, plans[i].path, plans[i].replacement)
  }

  ghost predicate RecoverableFrom(trace: seq<Files>, from: nat, to: nat, plans: seq<WritePlan>) {
    forall k | from <= k < to <= |trace| :: Recoverable(trace[k], plans)
  }

  lemma {:induction false} StagedIsRecoverable(f: Files, base: Files, plans: seq<WritePlan>, stages: seq<Stage>)
    requires Staged(f, base, plans, stages) && NoneFinished(stages)
    ensures Recoverable(f, plans)
  {
    forall i | 0 <= i < |plans|
      ensures Holds(f, plans[i].path, plans[i].original) || Holds(f, BackupOf(plans, i), plans[i].original)
    {
      assert At(f, plans[i], BackupOf(plans, i), stages[i]);
    }
  }

  /** `g` is `f` but for two entries and the temporary files. */
  ghost predicate AgreeBut(f: Files, g: Files, a: Path, b: Path) {
    forall p | p != a && p != b && !p.Temporary? :: SameAt(f, g, p)
  }

  /** A step that concerns one file moves that file to another stage, and no other. */
  lemma {:induction false} MoveStage(f: Files, g: Files, base: Files, plans: seq<WritePlan>, stages: seq<Stage>, i: nat,
                                     s: Stage)
    requires Separate(plans) && Staged(f, base, plans, stages) && i < |plans|
    requires AgreeBut(f, g, plans[i].path, BackupOf(plans, i)) && At(g, plans[i], BackupOf(plans, i), s)
    ensures Staged(g, base, plans, stages[i := s])
  {
    forall j | 0 <= j < |plans|
      ensures At(g, plans[j], BackupOf(plans, j), stages[i := s][j])
    {
      if j != i {
        assert SameAt(f, g, plans[j].path) && SameAt(f, g, BackupOf(plans, j));
        assert At(f, plans[j], BackupOf(plans, j), stages[j]);
      }
    }
    forall p | !Concerns(plans, p)
      ensures SameAt(base, g, p)
    {
      assert SameAt(f, g, p);
    }
  }

  lemma {:induction false} StagedTemporaries(f: Files, g: Files, base: Files, plans: seq<WritePlan>, stages: seq<Stage>)
    requires Separate(plans) && Staged(f, base, plans, stages)
    requires forall p: Path | !p.Temporary? :: SameAt(f, g, p)
    ensures Staged(g, base, plans, stages)
  {
    forall j | 0 <= j < |plans|
      ensures At(g, plans[j], BackupOf(plans, j), stages[j])
    {
      assert SameAt(f, g, plans[j].path) && SameAt(f, g, BackupOf(plans, j));
    }
  }

  // ---- one commit ----

  method RejectSymlink(fs: FileSystem, path: Path) returns (ok: bool)
    modifies fs`faults, fs`clock
    ensures fs.faults == old(fs.faults) || (!ok && fs.faults == old(fs.faults) + 1)
    ensures !ok && path in fs.files && fs.files[path].File? ==> fs.faults > old(fs.faults)
    ensures ok <==> !fs.fails(old(fs.clock)) && path in fs.files && fs.files[path].File?
    ensures fs.clock == old(fs.clock) + 1
  {
    var link := fs.Inspect(path);
    ok := link.Some? && !link.value;
  }

  /** What holds while a transaction runs on files that were sound when it began. */
  ghost predicate Running(f: Files, base: Files, plans: seq<WritePlan>, stages: seq<Stage>) {
    Separate(plans) && Staged(f, base, plans, stages) && NoneFinished(stages)
  }

  /** The step that renames a file aside, installs a replacement, removes one or puts an original back. */
  lemma {:induction false} RunningStep(f: Files, g: Files, base: Files, plans: seq<WritePlan>, stages: seq<Stage>,
                                       i: nat, s: Stage)
    requires Running(f, base, plans, stages) && i < |plans| && !s.Finished?
    requires AgreeBut(f, g, plans[i].path, BackupOf(plans, i)) && At(g, plans[i], BackupOf(plans, i), s)
    ensures Running(g, base, plans, stages[i := s]) && Recoverable(g, plans)
  {
    MoveStage(f, g, base, plans, stages, i, s);
    StagedIsRecoverable(g, base, plans, stages[i := s]);
  }

  /** The temporary files but for one are as they were. */
  ghost predicate TemporariesKept(f: Files, g: Files, but: Path) {
    forall p: Path | p.Temporary? && p != but :: SameAt(f, g, p)
  }

  /** The original is in its place and the replacement lies ready. */
  ghost predicate CanInstall(f: Files, item: Prepared) {
    Holds(f, item.plan.path, item.plan.original) && item.temporary.Some? && item.temporary.value in f
  }

  /**
   * Moves one original aside and installs its replacement. On failure the original may be back in place
   * or still in its journal; `stage` says which.
   */
  method CommitOne(fs: FileSystem, item: Prepared, ghost base: Files, ghost plans: seq<WritePlan>,
                   ghost stages: seq<Stage>, ghost index: nat, ghost sound: bool)
    returns (ok: bool, temporary: Option<Path>, ghost stage: Stage)
    requires fs.Valid() && index < |plans| == |stages| && item.plan == plans[index]
             && item.backup == BackupOf(plans, index)
    requires !item.plan.path.Temporary?
    requires item.temporary.Some? && item.temporary.value.Temporary?
    requires sound ==> Running(fs.files, base, plans, stages)
    requires sound ==> stages[index] == Untouched || stages[index] == Doubled
    requires sound ==> Holds(fs.files, item.temporary.value, item.plan.replacement)
    modifies fs`files, fs`trace, fs`faults, fs`clock
    ensures old(fs.faults) <= fs.faults
    ensures fs.Valid() && old(fs.trace) <= fs.trace
    ensures sound ==> Running(fs.files, base, plans, stages[index := stage])
    ensures sound && stage == Doubled ==> stages[index] == Doubled
    ensures sound && ok ==> stage == Installed
    ensures sound && !ok ==> fs.faults > old(fs.faults)
    ensures sound ==> RecoverableFrom(fs.trace, |old(fs.trace)|, |fs.trace|, plans)
    ensures TemporariesKept(old(fs.files), fs.files, item.temporary.value)
    ensures ok ==> temporary.None? && item.temporary.value !in fs.files
    ensures temporary.Some? ==> temporary == item.temporary
    ensures fs.fails(old(fs.clock)) ==> !ok && fs.files == old(fs.files) && fs.clock == old(fs.clock) + 1
    ensures ok <==> Quiet(fs.fails, old(fs.clock), 5) && CanInstall(old(fs.files), item)
    ensures ok ==> fs.faults == old(fs.faults)
    ensures !ok && temporary.None? && fs.faults == old(fs.faults) + 1 ==> item.temporary.value !in fs.files
    ensures ok ==>
              && fs.clock == old(fs.clock) + 5
              && fs.files == Renamed(Renamed(old(fs.files), item.plan.path, item.backup), item.temporary.value,
                                     item.plan.path)
  {
    ok, temporary, stage := false, item.temporary, stages[index];
    assert stages[index := stage] == stages;
    if sound { assert At(fs.files, plans[index], BackupOf(plans, index), stages[index]); }
    var plain := RejectSymlink(fs, item.plan.path);
    if !plain { return; }
    var current := fs.Read(item.plan.path);
    if current.None? || current.value != item.plan.original { return; }
    ghost var f0 := fs.files;
    var aside := fs.Rename(item.plan.path, item.backup);
    if !aside {
      if sound { StagedIsRecoverable(fs.files, base, plans, stages); }
      return;
    }
    stage := Aside;
    if sound { RunningStep(f0, fs.files, base, plans, stages, index, Aside); }
    ok, temporary, stage := Install(fs, item, base, plans, stages[index := Aside], index, sound);
  }

  /** Removes a temporary file, if that can be done. */
  method Drop(fs: FileSystem, temporary: Path, ghost base: Files, ghost plans: seq<WritePlan>, ghost stages: seq<Stage>,
              ghost sound: bool)
    requires fs.Valid() && temporary.Temporary?
    requires sound ==> Running(fs.files, base, plans, stages)
    modifies fs`files, fs`trace, fs`faults, fs`clock
    ensures old(fs.faults) <= fs.faults
    ensures fs.Valid() && old(fs.trace) <= fs.trace
    ensures sound ==> Running(fs.files, base, plans, stages)
    ensures sound ==> RecoverableFrom(fs.trace, |old(fs.trace)|, |fs.trace|, plans)
    ensures TemporariesKept(old(fs.files), fs.files, temporary)
    ensures fs.faults == old(fs.faults) || temporary !in old(fs.files) ==> temporary !in fs.files
  {
    ghost var f := fs.files;
    var dropped := fs.Remove(temporary);
    if sound {
      StagedTemporaries(f, fs.files, base, plans, stages);
      StagedIsRecoverable(fs.files, base, plans, stages);
    }
  }

  /** Installs the replacement, the original being aside. */
  method Install(fs: FileSystem, item: Prepared, ghost base: Files, ghost plans: seq<WritePlan>,
                 ghost stages: seq<Stage>, ghost index: nat, ghost sound: bool)
    returns (ok: bool, temporary: Option<Path>, ghost stage: Stage)
    requires fs.Valid() && index < |plans| == |stages| && item.plan == plans[index]
             && item.backup == BackupOf(plans, index)
    requires !item.plan.path.Temporary?
    requires item.temporary.Some? && item.temporary.value.Temporary?
    requires sound ==> Running(fs.files, base, plans, stages) && stages[index] == Aside
                       && Holds(fs.files, item.temporary.value, item.plan.replacement)
    modifies fs`files, fs`trace, fs`faults, fs`clock
    ensures old(fs.faults) <= fs.faults
    ensures fs.Valid() && old(fs.trace) <= fs.trace
    ensures sound ==> Running(fs.files, base, plans, stages[index := stage]) && stage != Doubled
    ensures sound && ok ==> stage == Installed
    ensures sound && !ok ==> fs.faults > old(fs.faults)
    ensures sound ==> RecoverableFrom(fs.trace, |old(fs.trace)|, |fs.trace|, plans)
    ensures TemporariesKept(old(fs.files), fs.files, item.temporary.value)
    ensures temporary.None? && (ok ==> item.temporary.value !in fs.files)
    ensures ok <==> Quiet(fs.fails, old(fs.clock), 2) && item.temporary.value in old(fs.files)
    ensures ok ==> fs.faults == old(fs.faults)
    ensures fs.faults == old(fs.faults) + 1 ==> item.temporary.value !in fs.files
    ensures ok ==>
              && fs.clock == old(fs.clock) + 2
              && fs.files == Renamed(old(fs.files), item.temporary.value, item.plan.path)
  {
    ghost var f0 := fs.files;
    ok, temporary, stage := false, None, Aside;
    var persisted := fs.Rename(item.temporary.value, item.plan.path);
    if !persisted {
      if sound { StagedIsRecoverable(fs.files, base, plans, stages); }
      stage := PutBack(fs, item, base, plans, stages, index, sound);
      Drop(fs, item.temporary.value, base, plans, stages[index := stage], sound);
      return;
    }
    stage := Installed;
    if sound { RunningStep(f0, fs.files, base, plans, stages, index, Installed); }
    ok := fs.Sync();
    if !ok { stage := Undo(fs, item, base, plans, stages[index := Installed], index, sound); }
  }

  /** Takes an installed replacement away again and puts the original back, as far as that can be done. */
  method Undo(fs: FileSystem, item: Prepared, ghost base: Files, ghost plans: seq<WritePlan>, ghost stages: seq<Stage>,
              ghost index: nat, ghost sound: bool)
    returns (ghost stage: Stage)
    requires fs.Valid() && index < |plans| == |stages| && item.plan == plans[index]
             && item.backup == BackupOf(plans, index)
    requires !item.plan.path.Temporary?
    requires sound ==> Running(fs.files, base, plans, stages) && stages[index] == Installed
    modifies fs`files, fs`trace, fs`faults, fs`clock
    ensures old(fs.faults) <= fs.faults
    ensures fs.Valid() && old(fs.trace) <= fs.trace
    ensures sound ==> Running(fs.files, base, plans, stages[index := stage]) && stage != Doubled
    ensures sound ==> RecoverableFrom(fs.trace, |old(fs.trace)|, |fs.trace|, plans)
    ensures forall p: Path | p.Temporary? :: SameAt(old(fs.files), fs.files, p)
    ensures Quiet(fs.fails, old(fs.clock), 2) && item.backup in old(fs.files) && item.plan.path in old(fs.files) ==>
              fs.files == Renamed(old(fs.files) - {item.plan.path}, item.backup, item.plan.path)
  {
    JournalIsAnother(item.plan.path, index);
    ghost var f := fs.files;
    var removed := fs.Remove(item.plan.path);
    stage := if removed then Aside else Installed;
    if sound { RunningStep(f, fs.files, base, plans, stages, index, stage); }
    stage := PutBack(fs, item, base, plans, stages[index := stage], index, sound);
  }

  /** Tries to put an original back from its journal, over whatever is in its place. */
  method PutBack(fs: FileSystem, item: Prepared, ghost base: Files, ghost plans: seq<WritePlan>,
                 ghost stages: seq<Stage>, ghost index: nat, ghost sound: bool)
    returns (ghost stage: Stage)
    requires fs.Valid() && index < |plans| == |stages| && item.plan == plans[index]
             && item.backup == BackupOf(plans, index)
    requires !item.plan.path.Temporary?
    requires sound ==> Running(fs.files, base, plans, stages) && (stages[index] == Aside || stages[index] == Installed)
    modifies fs`files, fs`trace, fs`faults, fs`clock
    ensures old(fs.faults) <= fs.faults
    ensures fs.Valid() && old(fs.trace) <= fs.trace
    ensures sound ==> Running(fs.files, base, plans, stages[index := stage]) && stage != Doubled
    ensures sound ==> RecoverableFrom(fs.trace, |old(fs.trace)|, |fs.trace|, plans)
    ensures forall p: Path | p.Temporary? :: SameAt(old(fs.files), fs.files, p)
    ensures fs.files == if fs.fails(old(fs.clock)) || item.backup !in old(fs.files) then old(fs.files)
                        else Renamed(old(fs.files), item.backup, item.plan.path)
    ensures fs.clock == old(fs.clock) + 1
  {
    ghost var f0 := fs.files;
    var restored := fs.Rename(item.backup, item.plan.path);
    stage := if restored then Untouched else if sound then stages[index] else Untouched;
    if sound { RunningStep(f0, fs.files, base, plans, stages, index, stage); }
  }

  // ---- preparing ----

  ghost predicate ExtendsFrom(base: Files, trace: seq<Files>, from: nat) {
    forall k | from <= k < |trace| :: Extends(base, trace[k])
  }

  lemma {:induction false} ExtendsFurther(a: Files, b: Files, c: Files)
    requires Extends(a, b) && Extends(b, c)
    ensures Extends(a, c)
  {
  }

  /** Of the five operations that prepare a file the one fails that looks for an old journal. */
  ghost predicate Overlooks(fails: Schedule, from: nat) {
    Quiet(fails, from, 4) && fails(from + 4)
  }

  ghost predicate OverlooksAt(fails: Schedule, from: nat, j: nat) {
    Overlooks(fails, from + 5 * j)
  }

  /** Of the five operations that prepare file `j` only the one may fail, unseen, that looks for an old journal. */
  ghost predicate PreparesAt(fails: Schedule, from: nat, base: Files, plans: seq<WritePlan>, j: nat)
    requires j < |plans|
  {
    Quiet(fails, from + 5 * j, 4) && (BackupOf(plans, j) !in base || fails(from + 5 * j + 4))
  }

  ghost predicate PreparesUpTo(fails: Schedule, from: nat, base: Files, plans: seq<WritePlan>, n: nat)
    requires n <= |plans|
  {
    forall j: nat | j < n :: PreparesAt(fails, from, base, plans, j)
  }

  ghost predicate OverlooksAll(fails: Schedule, from: nat, n: nat) {
    forall j: nat | j < n :: OverlooksAt(fails, from, j)
  }

  /** `told`: the journal's name was found free, or it was found to be taken. */
  method PrepareOne(fs: FileSystem, plan: WritePlan, sequence: nat) returns (item: Option<Prepared>, ghost told: bool)
    requires fs.Valid()
    modifies fs
    ensures fs.Valid() && old(fs.trace) <= fs.trace && old(fs.unused) <= fs.unused
    ensures Extends(old(fs.files), fs.files) && ExtendsFrom(old(fs.files), fs.trace, |old(fs.trace)|)
    ensures item.Some? ==>
              && Holds(old(fs.files), plan.path, plan.original)
              && item.value == Prepared(plan, Some(Temporary(old(fs.unused))), Journal(plan.path, sequence))
              && fs.unused == old(fs.unused) + 1
              && fs.files == old(fs.files)[Temporary(old(fs.unused)) := File(plan.replacement)]
              && (told ==> Journal(plan.path, sequence) !in old(fs.files))
    ensures Journal(plan.path, sequence) !in old(fs.files) ==> told
    ensures old(fs.faults) <= fs.faults
    ensures item.None? && Holds(old(fs.files), plan.path, plan.original)
            && Journal(plan.path, sequence) !in old(fs.files) ==>
              fs.faults > old(fs.faults)
    ensures item.Some? <==>
              && Holds(old(fs.files), plan.path, plan.original) && Quiet(fs.fails, old(fs.clock), 4)
              && (Journal(plan.path, sequence) !in old(fs.files) || fs.fails(old(fs.clock) + 4))
    ensures item.Some? ==> fs.clock == old(fs.clock) + 5
    ensures item.Some? && Journal(plan.path, sequence) !in old(fs.files) ==> fs.faults == old(fs.faults)
    ensures item.None? && (fs.faults == old(fs.faults)
                           || (fs.faults == old(fs.faults) + 1 && Journal(plan.path, sequence) !in old(fs.files))) ==>
              fs.files == old(fs.files)
  {
    item, told := None, true;
    var plain := RejectSymlink(fs, plan.path);
    if !plain { return; }
    var current := fs.Read(plan.path);
    if current.None? || current.value != plan.original { return; }
    var temporary := fs.MakeTemporary(plan.replacement);
    if temporary.None? { return; }
    var backup := Journal(plan.path, sequence);
    var taken := fs.Inspect(backup);
    told := taken.Some? || backup !in fs.files;
    if taken.Some? {
      var dropped := fs.Remove(temporary.value);
      return;
    }
    item := Some(Prepared(plan, temporary, backup));
  }

  /** The plans up to `n` are prepared: each file was read as expected, and its replacement lies ready. */
  ghost predicate Ready(f: Files, base: Files, plans: seq<WritePlan>, prepared: seq<Prepared>, from: nat, unused: nat) {
    && |prepared| <= |plans| && Extends(base, f)
    && (forall i | 0 <= i < |prepared| ::
          && Holds(base, plans[i].path, plans[i].original)
          && prepared[i] == Prepared(plans[i], Some(Temporary(from + i)), BackupOf(plans, i))
          && Holds(f, Temporary(from + i), plans[i].replacement))
    && from + |prepared| == unused
    && (forall p | p in f && p !in base :: p.Temporary? && p.id >= from)
    && (forall id: nat | id >= from :: Temporary(id) !in base)
    && (forall id: nat | id >= unused :: Temporary(id) !in f)
  }

  ghost predicate JournalsFree(base: Files, plans: seq<WritePlan>, n: nat)
    requires n <= |plans|
  {
    forall i | 0 <= i < n :: BackupOf(plans, i) !in base
  }

  /** Every file is as it was read. */
  ghost predicate Originals(f: Files, plans: seq<WritePlan>) {
    forall i | 0 <= i < |plans| :: Holds(f, plans[i].path, plans[i].original)
  }

  /** Every file is as it was read, and no journal is in the way. */
  ghost predicate CleanStart(base: Files, plans: seq<WritePlan>) {
    Originals(base, plans) && JournalsFree(base, plans, |plans|)
  }

  ghost function TemporariesOf(prepared: seq<Prepared>): set<Path> {
    set i | 0 <= i < |prepared| && prepared[i].temporary.Some? :: prepared[i].temporary.value
  }

  ghost predicate DifferIn(f: Files, g: Files, places: set<Path>) {
    forall p: Path | p !in places :: SameAt(f, g, p)
  }

  ghost predicate AllDifferIn(f: Files, trace: seq<Files>, from: nat, places: set<Path>) {
    forall k | from <= k < |trace| :: DifferIn(f, trace[k], places)
  }

  /** Removes the temporary files that are left, as far as that can be done. */
  method DropAll(fs: FileSystem, prepared: seq<Prepared>)
    requires fs.Valid()
    modifies fs`files, fs`trace, fs`faults, fs`clock
    ensures old(fs.faults) <= fs.faults
    ensures fs.Valid() && old(fs.trace) <= fs.trace
    ensures DifferIn(old(fs.files), fs.files, TemporariesOf(prepared))
    ensures AllDifferIn(old(fs.files), fs.trace, |old(fs.trace)|, TemporariesOf(prepared))
    ensures fs.faults == old(fs.faults) ==> forall p | p in TemporariesOf(prepared) :: p !in fs.files
  {
    var index := 0;
    while index < |prepared|
      invariant 0 <= index <= |prepared|
      invariant fs.Valid() && old(fs.trace) <= fs.trace
      invariant DifferIn(old(fs.files), fs.files, TemporariesOf(prepared))
      invariant AllDifferIn(old(fs.files), fs.trace, |old(fs.trace)|, TemporariesOf(prepared))
      invariant old(fs.faults) <= fs.faults
      invariant fs.faults == old(fs.faults) ==>
                  forall i | 0 <= i < index && prepared[i].temporary.Some? :: prepared[i].temporary.value !in fs.files
    {
      if prepared[index].temporary.Some? {
        assert prepared[index].temporary.value in TemporariesOf(prepared);
        var dropped := fs.Remove(prepared[index].temporary.value);
      }
      index := index + 1;
    }
  }

  lemma {:induction false} ExtendsWithout(base: Files, f: Files, g: Files, dropped: set<Path>)
    requires Extends(base, f) && DifferIn(f, g, dropped)
    requires forall p | p in dropped :: p.Temporary? && p !in base
    ensures Extends(base, g)
  {
    forall p | p in base
      ensures p in g && g[p] == base[p]
    {
      assert SameAt(f, g, p);
    }
    forall p | p in g && p !in base
      ensures p.Temporary?
    {
      if p !in dropped { assert SameAt(f, g, p); }
    }
  }

  /** Prepares the next plan. */
  method PrepareNext(fs: FileSystem, plans: seq<WritePlan>, prepared: seq<Prepared>, ghost base: Files, ghost from: nat,
                     ghost start: nat)
    returns (item: Option<Prepared>, ghost told: bool)
    requires fs.Valid() && |prepared| < |plans| && !plans[|prepared|].path.Temporary?
    requires Ready(fs.files, base, plans, prepared, from, fs.unused)
    requires start <= |fs.trace| && ExtendsFrom(base, fs.trace, start)
    modifies fs
    ensures fs.Valid() && old(fs.trace) <= fs.trace && old(fs.faults) <= fs.faults
    ensures Extends(base, fs.files) && ExtendsFrom(base, fs.trace, start)
    ensures item.Some? ==> Ready(fs.files, base, plans, prepared + [item.value], from, fs.unused)
                           && (told ==> BackupOf(plans, |prepared|) !in base)
    ensures BackupOf(plans, |prepared|) !in base ==> told
    ensures item.None? && Holds(base, plans[|prepared|].path, plans[|prepared|].original) ==>
              BackupOf(plans, |prepared|) in base || fs.faults > old(fs.faults)
    ensures item.Some? <==>
              && Holds(base, plans[|prepared|].path, plans[|prepared|].original) && Quiet(fs.fails, old(fs.clock), 4)
              && (BackupOf(plans, |prepared|) !in base || fs.fails(old(fs.clock) + 4))
    ensures item.Some? ==> fs.clock == old(fs.clock) + 5
    ensures item.Some? && BackupOf(plans, |prepared|) !in base ==> fs.faults == old(fs.faults)
    ensures item.None? && (fs.faults == old(fs.faults)
                           || (fs.faults == old(fs.faults) + 1 && BackupOf(plans, |prepared|) !in base)) ==>
              fs.files == old(fs.files)
  {
    ghost var before, mark := fs.files, |fs.trace|;
    item, told := PrepareOne(fs, plans[|prepared|], |prepared|);
    ExtendsFurther(base, before, fs.files);
    TraceExtends(base, before, fs.trace, start, mark);
    if item.Some? { ReadyNext(before, base, plans, prepared, from, fs.unused - 1); }
  }

  /** Prepares every plan, or gives up and drops what was prepared. */
  method Prepare(fs: FileSystem, plans: seq<WritePlan>) returns (ok: bool, prepared: seq<Prepared>, ghost told: bool)
    requires fs.Valid() && forall i | 0 <= i < |plans| :: !plans[i].path.Temporary?
    modifies fs
    ensures fs.Valid() && old(fs.trace) <= fs.trace
    ensures Extends(old(fs.files), fs.files) && ExtendsFrom(old(fs.files), fs.trace, |old(fs.trace)|)
    ensures ok ==> |prepared| == |plans|
                   && Ready(fs.files, old(fs.files), plans, prepared, old(fs.unused), fs.unused)
                   && (told ==> JournalsFree(old(fs.files), plans, |plans|))
    ensures JournalsFree(old(fs.files), plans, |plans|) ==> told
    ensures old(fs.faults) <= fs.faults
    ensures !ok && CleanStart(old(fs.files), plans) ==> fs.faults > old(fs.faults)
    ensures ok <==> Originals(old(fs.files), plans)
                    && PreparesUpTo(fs.fails, old(fs.clock), old(fs.files), plans, |plans|)
    ensures ok ==> fs.clock == old(fs.clock) + 5 * |plans|
    ensures CleanStart(old(fs.files), plans) && ok ==> fs.faults == old(fs.faults)
    ensures !ok && (fs.faults == old(fs.faults)
                    || (CleanStart(old(fs.files), plans) && fs.faults == old(fs.faults) + 1)) ==>
              fs.files == old(fs.files)
  {
    hide Holds, SameAt, Quiet;
    prepared, told, ok := [], true, true;
    ghost var base, from := fs.files, fs.unused;
    while |prepared| < |plans|
      invariant |prepared| <= |plans| && fs.Valid() && old(fs.trace) <= fs.trace
      invariant Ready(fs.files, base, plans, prepared, from, fs.unused)
      invariant ExtendsFrom(base, fs.trace, |old(fs.trace)|)
      invariant told ==> JournalsFree(base, plans, |prepared|)
      invariant JournalsFree(base, plans, |plans|) ==> told
      invariant old(fs.faults) <= fs.faults
      invariant fs.clock == old(fs.clock) + 5 * |prepared|
      invariant PreparesUpTo(fs.fails, old(fs.clock), base, plans, |prepared|)
      invariant CleanStart(base, plans) ==> fs.faults == old(fs.faults)
      decreases |plans| - |prepared|
    {
      ghost var held := fs.files;
      var item, honest := PrepareNext(fs, plans, prepared, base, from, |old(fs.trace)|);
      told := told && honest;
      if item.None? {
        ghost var before, mark := fs.files, |fs.trace|;
        DropAll(fs, prepared);
        DroppedExtends(base, before, fs.files, fs.trace, |old(fs.trace)|, mark, prepared, plans, from);
        if before == held && forall p | p in TemporariesOf(prepared) :: p !in fs.files {
          AllDropped(base, before, fs.files, plans, prepared, from);
        }
        assert !PreparesAt(fs.fails, old(fs.clock), base, plans, |prepared|)
            || !Holds(base, plans[|prepared|].path, plans[|prepared|].original);
        ok := false;
        return;
      }
      prepared := prepared + [item.value];
    }
  }

  /** With the temporary files dropped everything is as it was. */
  lemma {:induction false} AllDropped(base: Files, f: Files, g: Files, plans: seq<WritePlan>, prepared: seq<Prepared>,
                                      from: nat)
    requires Ready(f, base, plans, prepared, from, from + |prepared|) && DifferIn(f, g, TemporariesOf(prepared))
    requires forall p | p in TemporariesOf(prepared) :: p !in g
    ensures g == base
  {
    forall p: Path
      ensures SameAt(base, g, p)
    {
      NewIsReady(base, f, plans, prepared, from, p);
      assert SameAt(f, g, p) || p in TemporariesOf(prepared);
    }
    SameEverywhere(base, g);
  }

  lemma {:induction false} NewIsReady(base: Files, f: Files, plans: seq<WritePlan>, prepared: seq<Prepared>, from: nat,
                                      p: Path)
    requires Ready(f, base, plans, prepared, from, from + |prepared|)
    ensures p in TemporariesOf(prepared) ==> p !in base
    ensures p in f ==> p in base || p in TemporariesOf(prepared)
    ensures p in base ==> p in f && f[p] == base[p]
  {
    if p in f && p !in base { assert prepared[p.id - from].temporary == Some(p); }
  }

  lemma {:induction false} TraceExtends(base: Files, f: Files, trace: seq<Files>, from: nat, mark: nat)
    requires Extends(base, f) && from <= mark <= |trace|
    requires ExtendsFrom(base, trace[..mark], from) && ExtendsFrom(f, trace, mark)
    ensures ExtendsFrom(base, trace, from)
  {
    forall k | from <= k < |trace|
      ensures Extends(base, trace[k])
    {
      if k < mark { assert trace[..mark][k] == trace[k]; } else { ExtendsFurther(base, f, trace[k]); }
    }
  }

  lemma {:induction false} DroppedExtends(base: Files, f: Files, g: Files, trace: seq<Files>, from: nat, mark: nat,
                                          prepared: seq<Prepared>, plans: seq<WritePlan>, unused: nat)
    requires |prepared| <= |plans| && Extends(base, f) && DifferIn(f, g, TemporariesOf(prepared))
    requires forall i | 0 <= i < |prepared| :: prepared[i].temporary == Some(Temporary(unused + i))
    requires forall id: nat | id >= unused :: Temporary(id) !in base
    requires from <= mark <= |trace| && ExtendsFrom(base, trace[..mark], from)
    requires AllDifferIn(f, trace, mark, TemporariesOf(prepared))
    ensures Extends(base, g) && ExtendsFrom(base, trace, from)
  {
    ExtendsWithout(base, f, g, TemporariesOf(prepared));
    forall k | from <= k < |trace|
      ensures Extends(base, trace[k])
    {
      if k < mark { assert trace[..mark][k] == trace[k]; }
      else { ExtendsWithout(base, f, trace[k], TemporariesOf(prepared)); }
    }
  }

  lemma {:induction false} ReadyNext(f: Files, base: Files, plans: seq<WritePlan>, prepared: seq<Prepared>, from: nat,
                                     unused: nat)
    requires Ready(f, base, plans, prepared, from, unused) && |prepared| < |plans|
    requires Holds(f, plans[|prepared|].path, plans[|prepared|].original) && !plans[|prepared|].path.Temporary?
    ensures var n := |prepared|;
            Ready(f[Temporary(unused) := File(plans[n].replacement)], base, plans,
                  prepared + [Prepared(plans[n], Some(Temporary(unused)), BackupOf(plans, n))], from, unused + 1)
  {
  }

  lemma {:induction false} OverlookedIsPrepared(fails: Schedule, from: nat, base: Files, plans: seq<WritePlan>, n: nat)
    requires n <= |plans| && OverlooksAll(fails, from, n)
    ensures PreparesUpTo(fails, from, base, plans, n)
  {
    forall j: nat | j < n
      ensures PreparesAt(fails, from, base, plans, j)
    {
      assert OverlooksAt(fails, from, j);
    }
  }

  // ---- rolling back ----

  /** The items carry the plans and the journals that go with them. */
  ghost predicate Carries(prepared: seq<Prepared>, plans: seq<WritePlan>) {
    && |prepared| == |plans|
    && forall i | 0 <= i < |plans| :: prepared[i].plan == plans[i] && prepared[i].backup == BackupOf(plans, i)
                                      && !plans[i].path.Temporary?
  }

  /** The files once an original is put back from its journal. */
  function PutBackFiles(f: Files, path: Path, backup: Path): Files {
    if backup in f && backup != path then Renamed(f - {path}, backup, path) else f
  }

  lemma {:induction false} JournalIsAnother(path: Path, sequence: nat)
    ensures Journal(path, sequence) != path
    decreases path
  {
    if path.Journal? { JournalIsAnother(path.of, path.sequence); }
  }

  /** A rename succeeds, and the directory cannot be flushed behind it. */
  ghost predicate StopsBehindRename(fails: Schedule, at: nat) {
    !fails(at) && fails(at + 1)
  }

  /** A journal is seen and renamed back over its file, and then the directory cannot be flushed. */
  ghost predicate StopsBehindOne(fails: Schedule, from: nat) {
    Quiet(fails, from, 3) && StopsBehindRename(fails, from + 3)
  }

  ghost predicate PutsBackOnly(fails: Schedule, from: nat, f: Files, item: Prepared) {
    StopsBehindOne(fails, from) && item.backup in f && item.plan.path in f
  }

  /** An entry is there, and inspecting it at `t` does not fail. */
  ghost predicate Seen(fails: Schedule, t: nat, f: Files, path: Path) {
    path in f && !fails(t)
  }

  /** The operations one original takes: a journal that is seen is looked at, and renamed and flushed in the end. */
  ghost function RestoreTakes(fails: Schedule, t: nat, f: Files, item: Prepared): nat {
    if !Seen(fails, t, f, item.backup) then 1 else if Seen(fails, t + 1, f, item.plan.path) then 5 else 4
  }

  /** None of them fails but an inspection. */
  ghost predicate Restores(fails: Schedule, t: nat, f: Files, item: Prepared) {
    Seen(fails, t, f, item.backup) ==> Quiet(fails, t + 2, RestoreTakes(fails, t, f, item) - 2)
  }

  ghost function RestoredFiles(fails: Schedule, t: nat, f: Files, item: Prepared): Files {
    if Seen(fails, t, f, item.backup) then PutBackFiles(f, item.plan.path, item.backup) else f
  }

  /**
   * Where putting back the first `n` originals, the last first, comes to an end: behind the original at which an
   * operation fails that is no inspection, or at 0.
   */
  ghost function StopsAt(fails: Schedule, t: nat, f: Files, items: seq<Prepared>, n: nat): (stop: nat)
    requires n <= |items|
    ensures stop <= n
    decreases n
  {
    if n == 0 || !Restores(fails, t, f, items[n - 1]) then n
    else
      StopsAt(fails, t + RestoreTakes(fails, t, f, items[n - 1]), RestoredFiles(fails, t, f, items[n - 1]), items,
              n - 1)
  }

  /** Puts one original back, if its journal is seen. `skipped`: it is there and was not seen. */
  method RestoreOne(fs: FileSystem, item: Prepared, ghost base: Files, ghost plans: seq<WritePlan>,
                    ghost stages: seq<Stage>, ghost index: nat, ghost sound: bool)
    returns (ok: bool, ghost stage: Stage, ghost skipped: bool)
    requires fs.Valid() && index < |plans| == |stages| && item.plan == plans[index]
             && item.backup == BackupOf(plans, index)
    requires !item.plan.path.Temporary?
    requires sound ==> Running(fs.files, base, plans, stages)
    modifies fs`files, fs`trace, fs`faults, fs`clock
    ensures old(fs.faults) <= fs.faults
    ensures fs.Valid() && old(fs.trace) <= fs.trace
    ensures sound ==> Running(fs.files, base, plans, stages[index := stage])
    ensures sound ==> RecoverableFrom(fs.trace, |old(fs.trace)|, |fs.trace|, plans)
    ensures sound && ok ==> if skipped then stage == stages[index] != Untouched else stage == Untouched
    ensures sound && stage == Doubled ==> stages[index] == Doubled
    ensures sound && (!ok || skipped) ==> fs.faults > old(fs.faults)
    ensures forall p: Path | p.Temporary? :: SameAt(old(fs.files), fs.files, p)
    ensures skipped <==> item.backup in old(fs.files) && fs.fails(old(fs.clock))
    ensures ok <==> Restores(fs.fails, old(fs.clock), old(fs.files), item)
    ensures ok ==> fs.files == RestoredFiles(fs.fails, old(fs.clock), old(fs.files), item)
                   && fs.clock == old(fs.clock) + RestoreTakes(fs.fails, old(fs.clock), old(fs.files), item)
    ensures PutsBackOnly(fs.fails, old(fs.clock), old(fs.files), item) ==>
              !ok && fs.files == PutBackFiles(old(fs.files), item.plan.path, item.backup)
  {
    JournalIsAnother(item.plan.path, index);
    ok, stage, skipped := true, stages[index], false;
    var journal := fs.Inspect(item.backup);
    if journal.None? {
      skipped := item.backup in fs.files;
      if sound {
        assert At(fs.files, plans[index], BackupOf(plans, index), stages[index]);
        assert stages[index := stage] == stages;
      }
      return;
    }
    if sound { assert At(fs.files, plans[index], BackupOf(plans, index), stages[index]); }
    var present := fs.Inspect(item.plan.path);
    if present.Some? {
      ghost var f0 := fs.files;
      var removed := fs.Remove(item.plan.path);
      stage := if removed then Aside else stages[index];
      if sound { RunningStep(f0, fs.files, base, plans, stages, index, stage); }
      if !removed { ok := false; return; }
    } else {
      assert stages[index := stage] == stages;
    }
    ok, stage := RenameBack(fs, item, base, plans, stages[index := stage], index, sound);
  }

  /** Renames a journal back and flushes the directory. */
  method RenameBack(fs: FileSystem, item: Prepared, ghost base: Files, ghost plans: seq<WritePlan>,
                    ghost stages: seq<Stage>, ghost index: nat, ghost sound: bool)
    returns (ok: bool, ghost stage: Stage)
    requires fs.Valid() && index < |plans| == |stages| && item.plan == plans[index]
             && item.backup == BackupOf(plans, index)
    requires !item.plan.path.Temporary?
    requires sound ==> Running(fs.files, base, plans, stages) && stages[index] != Untouched
    modifies fs`files, fs`trace, fs`faults, fs`clock
    ensures old(fs.faults) <= fs.faults
    ensures fs.Valid() && old(fs.trace) <= fs.trace
    ensures sound ==> Running(fs.files, base, plans, stages[index := stage])
    ensures sound ==> RecoverableFrom(fs.trace, |old(fs.trace)|, |fs.trace|, plans)
    ensures stage == Untouched || stage == stages[index]
    ensures !ok && item.backup in old(fs.files) ==> fs.faults > old(fs.faults)
    ensures ok <==> Quiet(fs.fails, old(fs.clock), 2) && item.backup in old(fs.files)
    ensures ok ==> fs.clock == old(fs.clock) + 2
    ensures forall p: Path | p.Temporary? :: SameAt(old(fs.files), fs.files, p)
    ensures ok ==> stage == Untouched && item.backup in old(fs.files)
                   && fs.files == Renamed(old(fs.files), item.backup, item.plan.path)
    ensures StopsBehindRename(fs.fails, old(fs.clock)) && item.backup in old(fs.files) ==>
              !ok && fs.files == Renamed(old(fs.files), item.backup, item.plan.path)
  {
    if sound { assert At(fs.files, plans[index], BackupOf(plans, index), stages[index]); }
    ghost var f := fs.files;
    ok := fs.Rename(item.backup, item.plan.path);
    stage := if ok then Untouched else stages[index];
    if sound { RunningStep(f, fs.files, base, plans, stages, index, stage); }
    if ok { ok := fs.Sync(); }
  }

  /** Of the first `count` files all but those skipped are as they were; the others are where they stood. */
  ghost predicate Restored(stages: seq<Stage>, after: seq<Stage>, index: int, count: nat, skipped: set<nat>) {
    && |after| == |stages| && 0 <= index <= count <= |stages|
    && (forall i | 0 <= i < |stages| && !(index <= i < count) :: after[i] == stages[i])
    && (forall i | index <= i < count :: if i in skipped then after[i] == stages[i] != Untouched
        else after[i] == Untouched)
  }

  /** Puts back the first `count` originals, the last first. */
  method Rollback(fs: FileSystem, prepared: seq<Prepared>, count: nat, ghost base: Files, ghost plans: seq<WritePlan>,
                  ghost stages: seq<Stage>, ghost sound: bool)
    returns (ok: bool, ghost after: seq<Stage>, ghost skipped: set<nat>)
    requires fs.Valid() && count <= |plans| == |stages| && Carries(prepared, plans)
    requires sound ==> Running(fs.files, base, plans, stages)
    modifies fs`files, fs`trace, fs`faults, fs`clock
    ensures old(fs.faults) <= fs.faults
    ensures fs.Valid() && old(fs.trace) <= fs.trace && |after| == |plans|
    ensures sound ==> Running(fs.files, base, plans, after)
    ensures sound ==> RecoverableFrom(fs.trace, |old(fs.trace)|, |fs.trace|, plans)
    ensures sound && ok ==> Restored(stages, after, 0, count, skipped)
    ensures sound && (!ok || skipped != {}) ==> fs.faults > old(fs.faults)
    ensures ok <==> StopsAt(fs.fails, old(fs.clock), old(fs.files), prepared, count) == 0
    ensures forall i | 0 <= i < StopsAt(fs.fails, old(fs.clock), old(fs.files), prepared, count) - 1 ::
              after[i] == stages[i]
    ensures forall p: Path | p.Temporary? :: SameAt(old(fs.files), fs.files, p)
    ensures count > 0 && PutsBackOnly(fs.fails, old(fs.clock), old(fs.files), prepared[count - 1]) ==>
              && !ok
              && fs.files == PutBackFiles(old(fs.files), prepared[count - 1].plan.path, prepared[count - 1].backup)
  {
    hide Restores, RestoredFiles, RestoreTakes, Running, PutsBackOnly;
    ok, after, skipped := true, stages, {};
    var index := count;
    ghost var only := count > 0 && PutsBackOnly(fs.fails, fs.clock, fs.files, prepared[count - 1]);
    while index > 0
      invariant 0 <= index <= count && |after| == |plans|
      invariant fs.Valid() && old(fs.trace) <= fs.trace
      invariant sound ==> Running(fs.files, base, plans, after)
      invariant sound ==> RecoverableFrom(fs.trace, |old(fs.trace)|, |fs.trace|, plans)
      invariant sound ==> Restored(stages, after, index, count, skipped) && forall i | i in skipped :: index <= i
      invariant old(fs.faults) <= fs.faults && (sound && skipped != {} ==> fs.faults > old(fs.faults))
      invariant only ==> index == count && fs.files == old(fs.files) && fs.clock == old(fs.clock)
      invariant ok && StopsAt(fs.fails, old(fs.clock), old(fs.files), prepared, count)
                      == StopsAt(fs.fails, fs.clock, fs.files, prepared, index)
      invariant forall i | 0 <= i < index :: after[i] == stages[i]
      invariant forall p: Path | p.Temporary? :: SameAt(old(fs.files), fs.files, p)
    {
      index := index - 1;
      ghost var mark := |fs.trace|;
      ghost var before := fs.trace;
      var done, stage, skip := RestoreOne(fs, prepared[index], base, plans, after, index, sound);
      if sound { RecoverableOn(before, fs.trace, |old(fs.trace)|, plans); }
      after := after[index := stage];
      if skip { skipped := skipped + {index}; }
      if !done { ok := false; return; }
    }
  }

  lemma {:induction false} RecoverableOn(before: seq<Files>, trace: seq<Files>, from: nat, plans: seq<WritePlan>)
    requires before <= trace && from <= |before|
    requires RecoverableFrom(before, from, |before|, plans) && RecoverableFrom(trace, |before|, |trace|, plans)
    ensures RecoverableFrom(trace, from, |trace|, plans)
  {
    forall k | from <= k < |trace|
      ensures Recoverable(trace[k], plans)
    {
      if k < |before| { assert trace[k] == before[k]; }
    }
  }

  // ---- committing every file, and cleaning up ----

  ghost function AllAt(plans: seq<WritePlan>, s: Stage): seq<Stage> {
    seq(|plans|, i => s)
  }

  /** The replacements from `n` on lie ready; no other temporary file is different from before. */
  ghost predicate Pending(f: Files, base: Files, plans: seq<WritePlan>, from: nat, n: nat) {
    && (forall i | n <= i < |plans| :: Holds(f, Temporary(from + i), plans[i].replacement))
    && (forall p: Path | p.Temporary? && !(from + n <= p.id < from + |plans|) :: SameAt(base, f, p))
  }

  /** A journal of other content bears the name that the journal of file `i` is to have. */
  ghost predicate JournalInTheWay(base: Files, plans: seq<WritePlan>, i: nat)
    requires i < |plans|
  {
    BackupOf(plans, i) in base && base[BackupOf(plans, i)] != File(plans[i].original)
  }

  /** Every old journal there is holds just what its file holds. */
  ghost predicate NoneInTheWay(base: Files, plans: seq<WritePlan>) {
    forall i: nat | i < |plans| :: !JournalInTheWay(base, plans, i)
  }

  /** The stages the files begin in. */
  ghost function StartStages(base: Files, plans: seq<WritePlan>): seq<Stage> {
    seq(|plans|, i requires 0 <= i < |plans| => if BackupOf(plans, i) in base then Doubled else Untouched)
  }

  /** Where no journal was overlooked the files are as separate as the file system keeps them. */
  lemma {:induction false} FreeIsSeparate(base: Files, plans: seq<WritePlan>)
    requires Originals(base, plans) && JournalsFree(base, plans, |plans|)
    requires forall i, j | 0 <= i < j < |plans| :: plans[i].path != plans[j].path
    requires forall i | 0 <= i < |plans| :: !plans[i].path.Temporary?
    ensures Separate(plans) && NoneInTheWay(base, plans)
  {
    forall i, j | 0 <= i < |plans| && 0 <= j < |plans|
      ensures plans[i].path != BackupOf(plans, j)
    {
      assert Holds(base, plans[i].path, plans[i].original) && BackupOf(plans, j) !in base;
    }
  }

  /** Once every file is prepared, with none but harmless journals in the way, the transaction is under way. */
  lemma {:induction false} ReadyIsRunning(f: Files, base: Files, plans: seq<WritePlan>, prepared: seq<Prepared>,
                                          from: nat, unused: nat)
    requires Ready(f, base, plans, prepared, from, unused) && |prepared| == |plans|
    requires Separate(plans) && NoneInTheWay(base, plans)
    ensures Running(f, base, plans, StartStages(base, plans))
  {
    forall i | 0 <= i < |plans|
      ensures At(f, plans[i], BackupOf(plans, i), StartStages(base, plans)[i])
    {
      assert Holds(base, plans[i].path, plans[i].original) && !JournalInTheWay(base, plans, i);
    }
  }

  lemma {:induction false} ReadyIsPending(f: Files, base: Files, plans: seq<WritePlan>, prepared: seq<Prepared>,
                                          from: nat, unused: nat)
    requires Ready(f, base, plans, prepared, from, unused) && |prepared| == |plans|
    ensures Pending(f, base, plans, from, 0) && Loaded(prepared, plans, from, 0)
  {
  }

  /** The items from `n` on still hold their temporary file. */
  ghost predicate Loaded(prepared: seq<Prepared>, plans: seq<WritePlan>, from: nat, n: nat) {
    && |prepared| == |plans|
    && (forall i | 0 <= i < |plans| :: prepared[i].plan == plans[i] && prepared[i].backup == BackupOf(plans, i))
    && (forall i | n <= i < |plans| :: prepared[i].temporary == Some(Temporary(from + i)))
    && Numbered(prepared, from)
  }

  /** What is left of the temporary files has the names it was given. */
  ghost predicate Numbered(prepared: seq<Prepared>, from: nat) {
    forall i | 0 <= i < |prepared| && prepared[i].temporary.Some? ::
      prepared[i].temporary.value == Temporary(from + i)
  }

  lemma {:induction false} LoadedItem(prepared: seq<Prepared>, plans: seq<WritePlan>, from: nat, n: nat)
    requires Carries(prepared, plans) && Loaded(prepared, plans, from, n) && n < |plans|
    ensures prepared[n].plan == plans[n] && prepared[n].backup == BackupOf(plans, n) && !plans[n].path.Temporary?
    ensures prepared[n].temporary == Some(Temporary(from + n))
  {
  }

  lemma {:induction false} LoadedNext(prepared: seq<Prepared>, plans: seq<WritePlan>, from: nat, n: nat,
                                      temporary: Option<Path>)
    requires Carries(prepared, plans) && Loaded(prepared, plans, from, n) && n < |plans|
    requires temporary.Some? ==> temporary.value == Temporary(from + n)
    ensures var next := prepared[n := prepared[n].(temporary := temporary)];
            Carries(next, plans) && Loaded(next, plans, from, n + 1)
  {
  }

  lemma {:induction false} LoadedIsNumbered(prepared: seq<Prepared>, plans: seq<WritePlan>, from: nat, n: nat)
    requires Loaded(prepared, plans, from, n)
    ensures Numbered(prepared, from) && |prepared| == |plans|
  {
  }

  lemma {:induction false} HeldIsThere(f: Files, p: Path, content: Source)
    requires Holds(f, p, content)
    ensures p in f
  {
  }

  lemma {:induction false} FirstPending(f: Files, base: Files, plans: seq<WritePlan>, from: nat, n: nat)
    requires Pending(f, base, plans, from, n) && n < |plans|
    ensures Holds(f, Temporary(from + n), plans[n].replacement)
  {
  }

  lemma {:induction false} PendingNext(f: Files, g: Files, base: Files, plans: seq<WritePlan>, from: nat, n: nat)
    requires Pending(f, base, plans, from, n) && n < |plans|
    requires TemporariesKept(f, g, Temporary(from + n)) && Temporary(from + n) !in g && Temporary(from + n) !in base
    ensures Pending(g, base, plans, from, n + 1)
  {
    forall i | n + 1 <= i < |plans|
      ensures Holds(g, Temporary(from + i), plans[i].replacement)
    {
      assert SameAt(f, g, Temporary(from + i));
    }
    forall p: Path | p.Temporary? && !(from + n + 1 <= p.id < from + |plans|)
      ensures SameAt(base, g, p)
    {
      if p != Temporary(from + n) { assert SameAt(base, f, p) && SameAt(f, g, p); }
    }
  }

  ghost function InstalledUpTo(start: seq<Stage>, n: nat): seq<Stage> {
    seq(|start|, i requires 0 <= i < |start| => if i < n then Installed else start[i])
  }

  lemma {:induction false} NextInstalled(start: seq<Stage>, n: nat)
    requires n < |start|
    ensures InstalledUpTo(start, n)[n := Installed] == InstalledUpTo(start, n + 1)
  {
  }

  /** No file stands beside an old journal. */
  ghost predicate NoneDoubled(stages: seq<Stage>) {
    forall i | 0 <= i < |stages| :: stages[i] != Doubled
  }

  /** The first `stop` files are committed without a failure, and the next is not even looked at. */
  ghost predicate FailsAt(fails: Schedule, from: nat, f: Files, plans: seq<WritePlan>, stop: nat) {
    && stop < |plans| && Separate(plans) && Originals(f, plans)
    && (forall j: nat | j < stop :: QuietAt(fails, from, j)) && fails(from + 5 * stop)
  }

  ghost predicate QuietAt(fails: Schedule, from: nat, j: nat) {
    Quiet(fails, from + 5 * j, 5)
  }

  /** The files from `n` on are in their places, and file `stop` and its journal are as they were. */
  ghost predicate LeftFrom(f: Files, g: Files, plans: seq<WritePlan>, n: nat, stop: nat)
    requires stop < |plans|
  {
    && (forall j | n <= j < |plans| :: Holds(g, plans[j].path, plans[j].original))
    && SameAt(f, g, plans[stop].path) && SameAt(f, g, BackupOf(plans, stop))
  }

  lemma {:induction false} FatedStep(fails: Schedule, from: nat, base: Files, f: Files, plans: seq<WritePlan>,
                                     stop: nat, n: nat, item: Prepared)
    requires FailsAt(fails, from, base, plans, stop) && n <= stop && LeftFrom(base, f, plans, n, stop)
    requires item.plan == plans[n] && item.temporary.Some? && item.temporary.value in f
    ensures n == stop ==> fails(from + 5 * n)
    ensures n < stop ==> Quiet(fails, from + 5 * n, 5) && CanInstall(f, item) && item.plan.path in f
    ensures SameAt(base, f, plans[stop].path) && SameAt(base, f, BackupOf(plans, stop))
  {
    if n < stop { assert QuietAt(fails, from, n); }
  }

  lemma {:induction false} FatedStart(fails: Schedule, from: nat, f: Files, plans: seq<WritePlan>, stop: nat)
    requires FailsAt(fails, from, f, plans, stop)
    ensures stop < |plans| && Separate(plans) && LeftFrom(f, f, plans, 0, stop) && plans[stop].path in f
  {
    assert FailsAt(fails, from, f, plans, stop) ==> Holds(f, plans[stop].path, plans[stop].original);
  }

  lemma {:induction false} LeftNext(base: Files, f: Files, g: Files, plans: seq<WritePlan>, n: nat, stop: nat,
                                    plan: WritePlan, temporary: Path)
    requires n < stop < |plans| && Separate(plans) && LeftFrom(base, f, plans, n, stop)
    requires plan == plans[n] && plan.path in f && temporary in f && temporary.Temporary?
    requires g == Renamed(Renamed(f, plan.path, BackupOf(plans, n)), temporary, plan.path)
    ensures LeftFrom(base, g, plans, n + 1, stop)
  {
    JournalsDiffer(plans, n, stop);
    forall j | n + 1 <= j < |plans|
      ensures Holds(g, plans[j].path, plans[j].original)
    {
      assert Holds(f, plans[j].path, plans[j].original);
    }
  }

  lemma {:induction false} JournalsDiffer(plans: seq<WritePlan>, i: nat, j: nat)
    requires Separate(plans) && i < |plans| && j < |plans| && i != j
    ensures BackupOf(plans, i) != BackupOf(plans, j)
    ensures plans[i].path != plans[j].path && plans[j].path != BackupOf(plans, i) && plans[i].path != BackupOf(plans, j)
  {
  }

  lemma {:induction false} QuietNone(fails: Schedule, from: nat)
    ensures Quiet(fails, from, 0)
  {
  }

  lemma {:induction false} QuietJoin(fails: Schedule, from: nat, n: nat, m: nat)
    ensures Quiet(fails, from, n) && Quiet(fails, from + n, m) <==> Quiet(fails, from, n + m)
  {
  }

  /** A commit that does not succeed on a file that can be installed had an operation fail. */
  lemma {:induction false} NotQuiet(fails: Schedule, from: nat, f: Files, base: Files, plans: seq<WritePlan>,
                                    stages: seq<Stage>, index: nat, item: Prepared)
    requires Running(f, base, plans, stages) && index < |plans|
    requires stages[index] == Untouched || stages[index] == Doubled
    requires item.plan == plans[index] && item.temporary.Some? && item.temporary.value in f
    requires !(Quiet(fails, from + 5 * index, 5) && CanInstall(f, item))
    ensures !Quiet(fails, from, 5 * |plans|)
  {
    assert At(f, plans[index], BackupOf(plans, index), stages[index]);
    QuietJoin(fails, from, 5 * index, 5);
    QuietJoin(fails, from, 5 * index + 5, 5 * (|plans| - index - 1));
  }

  /** No temporary file is left but those that are still to be dropped. */
  ghost predicate NoneLeftOver(base: Files, g: Files, prepared: seq<Prepared>) {
    forall p: Path | p.Temporary? && p !in TemporariesOf(prepared) :: SameAt(base, g, p)
  }

  ghost predicate AllNew(base: Files, prepared: seq<Prepared>) {
    forall p | p in TemporariesOf(prepared) :: p !in base
  }

  lemma {:induction false} LoadedIsNew(base: Files, prepared: seq<Prepared>, from: nat)
    requires forall id: nat | id >= from :: Temporary(id) !in base
    requires Numbered(prepared, from)
    ensures AllNew(base, prepared)
  {
  }

  lemma {:induction false} LeftOver(base: Files, f: Files, g: Files, plans: seq<WritePlan>, from: nat, n: nat,
                                    prepared: seq<Prepared>, temporary: Option<Path>)
    requires Pending(f, base, plans, from, n) && Loaded(prepared, plans, from, n) && n < |plans|
    requires TemporariesKept(f, g, Temporary(from + n)) && Temporary(from + n) !in base
    requires temporary.Some? ==> temporary.value == Temporary(from + n)
    requires temporary.None? ==> Temporary(from + n) !in g
    ensures NoneLeftOver(base, g, prepared[n := prepared[n].(temporary := temporary)])
  {
    var left := prepared[n := prepared[n].(temporary := temporary)];
    forall p: Path | p.Temporary? && p !in TemporariesOf(left)
      ensures SameAt(base, g, p)
    {
      StillToDrop(left, plans, from, n, p);
      if p != Temporary(from + n) { assert SameAt(base, f, p) && SameAt(f, g, p); }
    }
  }

  lemma {:induction false} StillToDrop(left: seq<Prepared>, plans: seq<WritePlan>, from: nat, n: nat, p: Path)
    requires n < |left| == |plans| && p.Temporary? && p !in TemporariesOf(left)
    requires forall i | n < i < |plans| :: left[i].temporary == Some(Temporary(from + i))
    requires left[n].temporary.Some? ==> left[n].temporary.value == Temporary(from + n)
    ensures p == Temporary(from + n) ==> left[n].temporary.None?
    ensures p == Temporary(from + n) || !(from + n <= p.id < from + |plans|)
  {
    if from + n <= p.id < from + |plans| { assert left[p.id - from].temporary != Some(p); }
  }

  /** Commits the files in order, up to the first that fails. */
  method CommitAll(fs: FileSystem, items: seq<Prepared>, ghost base: Files, ghost plans: seq<WritePlan>,
                   ghost from: nat, ghost sound: bool, ghost stop: nat)
    returns (failed: Option<nat>, prepared: seq<Prepared>, ghost stages: seq<Stage>)
    requires fs.Valid() && Carries(items, plans) && Loaded(items, plans, from, 0)
    requires Pending(fs.files, base, plans, from, 0) && forall id: nat | id >= from :: Temporary(id) !in base
    requires sound ==> Running(fs.files, base, plans, StartStages(base, plans))
    modifies fs`files, fs`trace, fs`faults, fs`clock
    ensures old(fs.faults) <= fs.faults
    ensures fs.Valid() && old(fs.trace) <= fs.trace && |stages| == |plans|
    ensures Carries(prepared, plans)
    ensures Numbered(prepared, from)
    ensures sound ==> Running(fs.files, base, plans, stages)
    ensures sound ==> RecoverableFrom(fs.trace, |old(fs.trace)|, |fs.trace|, plans)
    ensures sound && failed.None? ==> stages == AllAt(plans, Installed)
    ensures failed.None? ==> Pending(fs.files, base, plans, from, |plans|)
    ensures failed.Some? ==> failed.value < |plans|
    ensures sound && failed.Some? ==> forall i | failed.value < i < |plans| :: stages[i] == StartStages(base, plans)[i]
    ensures sound && JournalsFree(base, plans, |plans|) ==> NoneDoubled(stages)
    ensures sound && failed.Some? ==> fs.faults > old(fs.faults)
    ensures failed.None? ==>
              && Quiet(fs.fails, old(fs.clock), 5 * |plans|) && fs.clock == old(fs.clock) + 5 * |plans|
              && fs.faults == old(fs.faults)
    ensures sound && failed.Some? ==> !Quiet(fs.fails, old(fs.clock), 5 * |plans|)
    ensures failed.Some? && fs.faults == old(fs.faults) + 1 ==> NoneLeftOver(base, fs.files, prepared)
    ensures FailsAt(fs.fails, old(fs.clock), old(fs.files), plans, stop) ==>
              && failed == Some(stop) && fs.clock == old(fs.clock) + 5 * stop + 1
              && SameAt(old(fs.files), fs.files, plans[stop].path)
              && SameAt(old(fs.files), fs.files, BackupOf(plans, stop))
  {
    hide FailsAt, LeftFrom, Quiet, CanInstall, Separate, Recoverable, Staged, SameAt, TemporariesKept, Pending,
         NoneLeftOver, Holds, Loaded, Carries, Numbered;
    failed, prepared, stages := None, items, StartStages(base, plans);
    ghost var start := stages;
    assert stages == InstalledUpTo(start, 0);
    var index := 0;
    ghost var fated := FailsAt(fs.fails, fs.clock, fs.files, plans, stop);
    if fated { FatedStart(fs.fails, fs.clock, fs.files, plans, stop); }
    QuietNone(fs.fails, fs.clock);
    LoadedIsNumbered(prepared, plans, from, 0);
    while index < |prepared|
      invariant 0 <= index <= |prepared| == |plans| == |stages|
      invariant fs.Valid() && old(fs.trace) <= fs.trace
      invariant Carries(prepared, plans) && Loaded(prepared, plans, from, index) && Numbered(prepared, from)
      invariant Pending(fs.files, base, plans, from, index)
      invariant sound ==> Running(fs.files, base, plans, stages)
      invariant sound ==> RecoverableFrom(fs.trace, |old(fs.trace)|, |fs.trace|, plans)
      invariant sound ==> stages == InstalledUpTo(start, index)
      invariant fs.faults == old(fs.faults)
      invariant fs.clock == old(fs.clock) + 5 * index && Quiet(fs.fails, old(fs.clock), 5 * index)
      invariant fated ==>
                  && index <= stop && fs.clock == old(fs.clock) + 5 * index
                  && LeftFrom(old(fs.files), fs.files, plans, index, stop)
    {
      ghost var f, before := fs.files, fs.trace;
      ghost var held, was := prepared, stages;
      LoadedItem(prepared, plans, from, index);
      FirstPending(f, base, plans, from, index);
      HeldIsThere(f, Temporary(from + index), plans[index].replacement);
      if fated { FatedStep(fs.fails, old(fs.clock), old(fs.files), f, plans, stop, index, prepared[index]); }
      var ok, temporary, stage := CommitOne(fs, prepared[index], base, plans, stages, index, sound);
      if sound { RecoverableOn(before, fs.trace, |old(fs.trace)|, plans); }
      prepared := prepared[index := prepared[index].(temporary := temporary)];
      LoadedNext(held, plans, from, index, temporary);
      LoadedIsNumbered(prepared, plans, from, index + 1);
      NextInstalled(start, index);
      stages := stages[index := stage];
      if !ok {
        failed := Some(index);
        if sound { NotQuiet(fs.fails, old(fs.clock), f, base, plans, was, index, held[index]); }
        if fs.faults == old(fs.faults) + 1 { LeftOver(base, f, fs.files, plans, from, index, held, temporary); }
        return;
      }
      QuietJoin(fs.fails, old(fs.clock), 5 * index, 5);
      PendingNext(f, fs.files, base, plans, from, index);
      if fated {
        LeftNext(old(fs.files), f, fs.files, plans, index, stop, prepared[index].plan, Temporary(from + index));
      }
      index := index + 1;
    }
  }

  /** Removes the journals, in order, up to the first that cannot be removed. */
  method CleanUp(fs: FileSystem, prepared: seq<Prepared>, ghost base: Files, ghost plans: seq<WritePlan>,
                 ghost sound: bool)
    returns (ok: bool, ghost stages: seq<Stage>)
    requires fs.Valid() && Carries(prepared, plans)
    requires sound ==> Running(fs.files, base, plans, AllAt(plans, Installed))
    modifies fs`files, fs`trace, fs`faults, fs`clock
    ensures old(fs.faults) <= fs.faults
    ensures fs.Valid() && old(fs.trace) <= fs.trace && |stages| == |plans|
    ensures sound ==> Staged(fs.files, base, plans, stages)
    ensures forall i | 0 <= i < |plans| :: stages[i] == Installed || stages[i] == Finished
    ensures sound && ok ==> stages == AllAt(plans, Finished)
    ensures if ok then fs.faults == old(fs.faults) else sound ==> fs.faults > old(fs.faults)
    ensures ok ==> Quiet(fs.fails, old(fs.clock), 2 * |plans|) && fs.clock == old(fs.clock) + 2 * |plans|
    ensures sound && Quiet(fs.fails, old(fs.clock), 2 * |plans|) ==> ok
    ensures sound ==> forall k | |old(fs.trace)| <= k < |fs.trace| :: AllReplaced(fs.trace[k], plans)
    ensures forall p: Path | p.Temporary? :: SameAt(old(fs.files), fs.files, p)
  {
    ok, stages := true, AllAt(plans, Installed);
    var index := 0;
    while index < |prepared|
      invariant 0 <= index <= |prepared| == |plans| == |stages|
      invariant fs.Valid() && old(fs.trace) <= fs.trace
      invariant sound ==> Separate(plans) && Staged(fs.files, base, plans, stages)
      invariant forall i | 0 <= i < |plans| :: stages[i] == if i < index then Finished else Installed
      invariant sound ==> forall k | |old(fs.trace)| <= k < |fs.trace| :: AllReplaced(fs.trace[k], plans)
      invariant forall p: Path | p.Temporary? :: SameAt(old(fs.files), fs.files, p)
      invariant fs.faults == old(fs.faults)
      invariant fs.clock == old(fs.clock) + 2 * index && Quiet(fs.fails, old(fs.clock), 2 * index)
    {
      ghost var f := fs.files;
      if sound { assert At(f, plans[index], BackupOf(plans, index), stages[index]); }
      var removed := fs.Remove(prepared[index].backup);
      if !removed {
        if sound { ReplacedAtLeast(fs.files, base, plans, stages); }
        ok := false;
        return;
      }
      if sound {
        assert At(f, plans[index], BackupOf(plans, index), stages[index]);
        MoveStage(f, fs.files, base, plans, stages, index, Finished);
        ReplacedAtLeast(fs.files, base, plans, stages[index := Finished]);
      }
      stages := stages[index := Finished];
      var synced := fs.Sync();
      if !synced { ok := false; return; }
      index := index + 1;
    }
  }

  lemma {:induction false} ReplacedAtLeast(f: Files, base: Files, plans: seq<WritePlan>, stages: seq<Stage>)
    requires Staged(f, base, plans, stages)
    requires forall i | 0 <= i < |plans| :: stages[i] == Installed || stages[i] == Finished
    ensures AllReplaced(f, plans)
  {
    forall i | 0 <= i < |plans|
      ensures Holds(f, plans[i].path, plans[i].replacement)
    {
      assert At(f, plans[i], BackupOf(plans, i), stages[i]);
    }
  }

  // ---- the whole transaction ----

  /** Every planned file holds its replacement, and nothing else is different. */
  ghost predicate Rewritten(f: Files, base: Files, plans: seq<WritePlan>) {
    && AllReplaced(f, plans)
    && forall p: Path | (forall i | 0 <= i < |plans| :: p != plans[i].path) :: SameAt(base, f, p)
  }

  /** Everything but temporary files is as it was, save for the planned files that were skipped. */
  ghost predicate PutBackBut(f: Files, base: Files, plans: seq<WritePlan>, skipped: set<nat>) {
    && (forall p | !Concerns(plans, p) :: SameAt(base, f, p))
    && forall i | 0 <= i < |plans| ::
         if i in skipped
         then Holds(f, BackupOf(plans, i), plans[i].original)
              && (plans[i].path !in f || Holds(f, plans[i].path, plans[i].replacement))
         else Holds(f, plans[i].path, plans[i].original) && BackupOf(plans, i) !in f
  }

  lemma {:induction false} FinishedIsRewritten(f: Files, base: Files, plans: seq<WritePlan>, from: nat)
    requires Staged(f, base, plans, AllAt(plans, Finished)) && JournalsFree(base, plans, |plans|)
    requires Pending(f, base, plans, from, |plans|)
    ensures Rewritten(f, base, plans)
  {
    ReplacedAtLeast(f, base, plans, AllAt(plans, Finished));
    forall p: Path | (forall i | 0 <= i < |plans| :: p != plans[i].path)
      ensures SameAt(base, f, p)
    {
      if !p.Temporary? && Concerns(plans, p) {
        var i :| 0 <= i < |plans| && p == BackupOf(plans, i);
        assert At(f, plans[i], BackupOf(plans, i), AllAt(plans, Finished)[i]);
      }
    }
  }

  lemma {:induction false} FinishedIsFree(f: Files, base: Files, plans: seq<WritePlan>)
    requires Staged(f, base, plans, AllAt(plans, Finished))
    ensures JournalsFree(f, plans, |plans|)
  {
    forall i | 0 <= i < |plans|
      ensures BackupOf(plans, i) !in f
    {
      assert At(f, plans[i], BackupOf(plans, i), AllAt(plans, Finished)[i]);
    }
  }

  lemma {:induction false} RestoredIsPutBack(f: Files, base: Files, plans: seq<WritePlan>, stages: seq<Stage>,
                                             after: seq<Stage>, count: nat, skipped: set<nat>)
    requires Running(f, base, plans, after) && Restored(stages, after, 0, count, skipped) && |stages| == |plans|
    requires forall i | count <= i < |plans| :: stages[i] == Untouched && i !in skipped
    requires NoneDoubled(stages)
    ensures PutBackBut(f, base, plans, skipped)
  {
    forall i | 0 <= i < |plans|
      ensures if i in skipped
              then Holds(f, BackupOf(plans, i), plans[i].original)
                   && (plans[i].path !in f || Holds(f, plans[i].path, plans[i].replacement))
              else Holds(f, plans[i].path, plans[i].original) && BackupOf(plans, i) !in f
    {
      assert At(f, plans[i], BackupOf(plans, i), after[i]);
    }
  }

  lemma {:induction false} DroppedStages(f: Files, g: Files, trace: seq<Files>, from: nat, base: Files,
                                         plans: seq<WritePlan>, stages: seq<Stage>, dropped: set<Path>)
    requires Running(f, base, plans, stages) && forall p | p in dropped :: p.Temporary?
    requires DifferIn(f, g, dropped) && AllDifferIn(f, trace, from, dropped) && from <= |trace|
    ensures Running(g, base, plans, stages) && RecoverableFrom(trace, from, |trace|, plans)
  {
    StagedTemporaries(f, g, base, plans, stages);
    forall k | from <= k < |trace|
      ensures Recoverable(trace[k], plans)
    {
      StagedTemporaries(f, trace[k], base, plans, stages);
      StagedIsRecoverable(trace[k], base, plans, stages);
    }
  }

  /** The journal of file `i` has taken the place of the file. */
  ghost predicate CostsTheFile(f: Files, g: Files, plans: seq<WritePlan>, i: nat)
    requires i < |plans|
  {
    var path, backup := plans[i].path, BackupOf(plans, i);
    backup in f && backup !in g && path in g && g[path] == f[backup]
  }

  lemma {:induction false} PutBackCosts(f: Files, g: Files, h: Files, plans: seq<WritePlan>, i: nat, dropped: set<Path>)
    requires i < |plans| && !plans[i].path.Temporary? && BackupOf(plans, i) in f
    requires g == PutBackFiles(f, plans[i].path, BackupOf(plans, i)) && DifferIn(g, h, dropped)
    requires forall p | p in dropped :: p.Temporary?
    ensures CostsTheFile(f, h, plans, i)
  {
    JournalIsAnother(plans[i].path, i);
    assert SameAt(g, h, plans[i].path) && SameAt(g, h, BackupOf(plans, i));
  }

  /** Put back, and with the temporary files dropped, everything is as it was. */
  lemma {:induction false} NothingIsLeft(base: Files, e: Files, f: Files, g: Files, plans: seq<WritePlan>,
                                         prepared: seq<Prepared>)
    requires PutBackBut(g, base, plans, {}) && CleanStart(base, plans)
    requires NoneLeftOver(base, e, prepared) && forall p: Path | p.Temporary? :: SameAt(e, f, p)
    requires DifferIn(f, g, TemporariesOf(prepared))
    requires AllNew(base, prepared) && forall p | p in TemporariesOf(prepared) :: p !in g
    ensures g == base
  {
    forall p: Path
      ensures SameAt(base, g, p)
    {
      if p.Temporary? {
        if p !in TemporariesOf(prepared) { assert SameAt(base, e, p) && SameAt(e, f, p) && SameAt(f, g, p); }
      } else if i :| 0 <= i < |plans| && (p == plans[i].path || p == BackupOf(plans, i)) {
        assert Holds(g, plans[i].path, plans[i].original) && Holds(base, plans[i].path, plans[i].original);
      }
    }
    SameEverywhere(base, g);
  }

  /** Rolls back after the commit of file `failed`, and drops the temporary files that are left. */
  method Abandon(fs: FileSystem, prepared: seq<Prepared>, failed: nat, ghost base: Files, ghost plans: seq<WritePlan>,
                 ghost stages: seq<Stage>, ghost sound: bool)
    returns (outcome: Outcome, ghost skipped: set<nat>)
    requires fs.Valid() && failed < |plans| == |stages| && Carries(prepared, plans)
    requires forall i | 0 <= i < |plans| && prepared[i].temporary.Some? :: prepared[i].temporary.value.Temporary?
    requires sound ==> Running(fs.files, base, plans, stages)
    requires sound ==> forall i | failed < i < |plans| :: stages[i] == StartStages(base, plans)[i]
    requires sound && JournalsFree(base, plans, |plans|) ==> NoneDoubled(stages)
    requires Originals(base, plans)
    modifies fs`files, fs`trace, fs`faults, fs`clock
    ensures old(fs.faults) <= fs.faults
    ensures fs.Valid() && old(fs.trace) <= fs.trace
    ensures sound ==> RecoverableFrom(fs.trace, |old(fs.trace)|, |fs.trace|, plans)
    ensures outcome == RolledBack || outcome == RollbackFailed
    ensures outcome == RolledBack <==> StopsAt(fs.fails, old(fs.clock), old(fs.files), prepared, failed + 1) == 0
    ensures sound && JournalsFree(base, plans, |plans|) && outcome == RolledBack ==>
              PutBackBut(fs.files, base, plans, skipped)
    ensures sound ==> Recoverable(fs.files, plans)
    ensures sound && (outcome == RollbackFailed || skipped != {}) ==> fs.faults > old(fs.faults)
    ensures sound && JournalsFree(base, plans, |plans|) && fs.faults == old(fs.faults)
            && NoneLeftOver(base, old(fs.files), prepared) && AllNew(base, prepared) ==>
              fs.files == base
    ensures PutsBackOnly(fs.fails, old(fs.clock), old(fs.files), prepared[failed]) ==>
              CostsTheFile(old(fs.files), fs.files, plans, failed)
  {
    hide StopsAt, RecoverableFrom, Recoverable;
    ghost var only := PutsBackOnly(fs.fails, fs.clock, fs.files, prepared[failed]);
    var ok, after, missed := Rollback(fs, prepared, failed + 1, base, plans, stages, sound);
    ghost var f, before := fs.files, fs.trace;
    skipped := set i | i in missed && i <= failed;
    DropAll(fs, prepared);
    if sound {
      DroppedStages(f, fs.files, fs.trace, |before|, base, plans, after, TemporariesOf(prepared));
      RecoverableOn(before, fs.trace, |old(fs.trace)|, plans);
      StagedIsRecoverable(fs.files, base, plans, after);
      if ok && JournalsFree(base, plans, |plans|) {
        RestoredIsPutBack(fs.files, base, plans, stages, after, failed + 1, skipped);
        if fs.faults == old(fs.faults) && NoneLeftOver(base, old(fs.files), prepared) && AllNew(base, prepared) {
          NothingIsLeft(base, old(fs.files), f, fs.files, plans, prepared);
        }
      }
    }
    if only { PutBackCosts(old(fs.files), f, fs.files, plans, failed, TemporariesOf(prepared)); }
    outcome := if ok then RolledBack else RollbackFailed;
  }

  /** Commits what was prepared, and cleans up behind it or rolls back. */
  method Commit(fs: FileSystem, items: seq<Prepared>, ghost plans: seq<WritePlan>, ghost base: Files, ghost from: nat,
                ghost sound: bool, ghost stop: nat)
    returns (outcome: Outcome, ghost cut: nat, ghost skipped: set<nat>)
    requires fs.Valid() && Carries(items, plans) && Loaded(items, plans, from, 0)
    requires Pending(fs.files, base, plans, from, 0) && forall id: nat | id >= from :: Temporary(id) !in base
    requires sound ==> Running(fs.files, base, plans, StartStages(base, plans))
    requires Originals(base, plans)
    modifies fs`files, fs`trace, fs`faults, fs`clock
    ensures old(fs.faults) <= fs.faults
    ensures outcome == Done ==> Quiet(fs.fails, old(fs.clock), 7 * |plans|) && fs.clock == old(fs.clock) + 7 * |plans|
    ensures sound ==> (outcome == Done <==> Quiet(fs.fails, old(fs.clock), 7 * |plans|))
    ensures sound ==> (outcome == Done || outcome == CleanupError <==> Quiet(fs.fails, old(fs.clock), 5 * |plans|))
    ensures sound && JournalsFree(base, plans, |plans|) && fs.faults == old(fs.faults) + 1 ==>
              outcome == CleanupError || (outcome == RolledBack && fs.files == base)
    ensures fs.Valid() && old(fs.trace) <= fs.trace && |old(fs.trace)| <= cut <= |fs.trace|
    ensures outcome != PrepareError && (outcome == RollbackFailed || outcome == RolledBack ==> cut == |fs.trace|)
    ensures sound ==> RecoverableFrom(fs.trace, |old(fs.trace)|, cut, plans)
    ensures sound ==> forall k | cut <= k < |fs.trace| :: AllReplaced(fs.trace[k], plans)
    ensures sound && outcome == Done ==> AllReplaced(fs.files, plans) && JournalsFree(fs.files, plans, |plans|)
    ensures sound && JournalsFree(base, plans, |plans|) && outcome == Done ==> Rewritten(fs.files, base, plans)
    ensures sound && JournalsFree(base, plans, |plans|) && outcome == RolledBack ==>
              PutBackBut(fs.files, base, plans, skipped)
    ensures sound && outcome == CleanupError ==> AllReplaced(fs.files, plans)
    ensures sound && outcome != Done ==> fs.faults > old(fs.faults)
    ensures sound && (outcome == RollbackFailed || skipped != {}) ==> fs.faults >= old(fs.faults) + 2
    ensures FailsAt(fs.fails, old(fs.clock), old(fs.files), plans, stop) && BackupOf(plans, stop) in old(fs.files)
            && StopsBehindOne(fs.fails, old(fs.clock) + 5 * stop + 1) ==>
              CostsTheFile(old(fs.files), fs.files, plans, stop)
  {
    hide Recoverable, Separate, Quiet, AllReplaced, Rewritten, PutBackBut, NoneLeftOver, AllNew, Pending, Loaded,
         JournalsFree, Originals, FailsAt, Staged, StopsBehindOne;
    if FailsAt(fs.fails, fs.clock, fs.files, plans, stop) {
      FatedStart(fs.fails, fs.clock, fs.files, plans, stop);
    }
    var failed, prepared, stages := CommitAll(fs, items, base, plans, from, sound, stop);
    ghost var before := fs.trace;
    skipped := {};
    if failed.Some? {
      LoadedIsNew(base, prepared, from);
      outcome, skipped := Abandon(fs, prepared, failed.value, base, plans, stages, sound);
      if sound { RecoverableOn(before, fs.trace, |old(fs.trace)|, plans); }
      QuietJoin(fs.fails, old(fs.clock), 5 * |plans|, 2 * |plans|);
      cut := |fs.trace|;
      return;
    }
    cut := |before|;
    ghost var f := fs.files;
    var clean, after := CleanUp(fs, prepared, base, plans, sound);
    outcome := if clean then Done else CleanupError;
    QuietJoin(fs.fails, old(fs.clock), 5 * |plans|, 2 * |plans|);
    if sound {
      PendingStays(f, fs.files, base, plans, from);
      ReplacedAtLeast(fs.files, base, plans, after);
      if clean {
        FinishedIsFree(fs.files, base, plans);
        if JournalsFree(base, plans, |plans|) { FinishedIsRewritten(fs.files, base, plans, from); }
      }
      KeptTrace(before, fs.trace, |old(fs.trace)|, plans);
    }
  }

  lemma {:induction false} PendingStays(f: Files, g: Files, base: Files, plans: seq<WritePlan>, from: nat)
    requires Pending(f, base, plans, from, |plans|) && forall p: Path | p.Temporary? :: SameAt(f, g, p)
    ensures Pending(g, base, plans, from, |plans|)
  {
    forall p: Path | p.Temporary? && !(from + |plans| <= p.id < from + |plans|)
      ensures SameAt(base, g, p)
    {
      assert SameAt(base, f, p) && SameAt(f, g, p);
    }
  }

  lemma {:induction false} KeptTrace(before: seq<Files>, trace: seq<Files>, from: nat, plans: seq<WritePlan>)
    requires before <= trace && RecoverableFrom(before, from, |before|, plans)
    ensures RecoverableFrom(trace, from, |before|, plans)
  {
    forall k | from <= k < |before|
      ensures Recoverable(trace[k], plans)
    {
      assert trace[k] == before[k];
    }
  }

  lemma {:induction false} PreparingIsRecoverable(trace: seq<Files>, from: nat, base: Files, plans: seq<WritePlan>)
    requires ExtendsFrom(base, trace, from)
    requires forall i | 0 <= i < |plans| :: Holds(base, plans[i].path, plans[i].original)
    ensures RecoverableFrom(trace, from, |trace|, plans)
  {
    forall k | from <= k < |trace|
      ensures Recoverable(trace[k], plans)
    {
      forall i | 0 <= i < |plans|
        ensures Holds(trace[k], plans[i].path, plans[i].original)
      {
        assert Holds(base, plans[i].path, plans[i].original);
      }
    }
  }

  lemma {:induction false} WholeTrace(before: seq<Files>, trace: seq<Files>, from: nat, cut: nat, plans: seq<WritePlan>)
    requires before <= trace && from <= |before| <= cut <= |trace|
    requires RecoverableFrom(before, from, |before|, plans) && RecoverableFrom(trace, |before|, cut, plans)
    ensures RecoverableFrom(trace, from, cut, plans)
  {
    forall k | from <= k < cut
      ensures Recoverable(trace[k], plans)
    {
      if k < |before| { assert trace[k] == before[k]; }
    }
  }

  /**
   * A run in which the operations fail that look for old journals, the one that looks at file `i` again
   * before it is moved aside, and, once a journal of other content is back in its place, the flush.
   */
  ghost predicate Loses(fails: Schedule, from: nat, base: Files, plans: seq<WritePlan>, i: nat) {
    && i < |plans| && JournalInTheWay(base, plans, i)
    && OverlooksAll(fails, from, |plans|)
    && FailsAt(fails, from + 5 * |plans|, base, plans, i)
    && StopsBehindOne(fails, from + 5 * |plans| + 5 * i + 1)
  }

  lemma {:induction false} LosesMeans(fails: Schedule, from: nat, base: Files, plans: seq<WritePlan>, i: nat)
    requires Loses(fails, from, base, plans, i)
    ensures i < |plans| && JournalInTheWay(base, plans, i) && Originals(base, plans) && BackupOf(plans, i) in base
    ensures OverlooksAll(fails, from, |plans|) && FailsAt(fails, from + 5 * |plans|, base, plans, i)
    ensures StopsBehindOne(fails, from + 5 * |plans| + 5 * i + 1)
  {
  }

  /** Preparing changes nothing that was there. */
  lemma {:induction false} FailsAtStill(fails: Schedule, from: nat, base: Files, f: Files, plans: seq<WritePlan>,
                                        i: nat)
    requires FailsAt(fails, from, base, plans, i) && Extends(base, f)
    ensures FailsAt(fails, from, f, plans, i)
  {
    forall j | 0 <= j < |plans|
      ensures Holds(f, plans[j].path, plans[j].original)
    {
      assert Holds(base, plans[j].path, plans[j].original);
    }
  }

  lemma {:induction false} CostIsLoss(base: Files, f: Files, g: Files, plans: seq<WritePlan>, i: nat)
    requires i < |plans| && JournalInTheWay(base, plans, i) && Extends(base, f) && CostsTheFile(f, g, plans, i)
    ensures !Recoverable(g, plans)
  {
    assert !Holds(g, plans[i].path, plans[i].original) && !Holds(g, BackupOf(plans, i), plans[i].original);
  }

  lemma {:induction false} NothingPlanned(f: Files, trace: seq<Files>, fails: Schedule, at: nat)
    requires trace != []
    ensures Originals(f, []) && JournalsFree(f, [], 0) && PreparesUpTo(fails, at, f, [], 0) && Quiet(fails, at, 0)
    ensures Rewritten(f, f, []) && RecoverableFrom(trace, |trace| - 1, |trace|, [])
  {
  }

  /** What is known to be recoverable: no journal in the way was overlooked, or none holds anything else. */
  ghost predicate Sound(base: Files, plans: seq<WritePlan>, told: bool) {
    told || (Separate(plans) && NoneInTheWay(base, plans))
  }

  /**
   * Rewrites every planned file or none. Files that are as they were read, with no journal in the way, are
   * rewritten unless an operation fails; and one failure never costs more than a rollback. An old journal that
   * holds just what its file holds costs nothing, overlooked or not.
   *
   * `told`: no journal in the way was overlooked; it is so whenever none was in the way. `cut`: the state
   * from which on journals are removed. `skipped`: the files whose journal the rollback did not see.
   */
  method ApplyTransaction(fs: FileSystem, plans: seq<WritePlan>)
    returns (outcome: Outcome, ghost told: bool, ghost cut: nat, ghost skipped: set<nat>)
    requires fs.Valid()
    requires forall i, j | 0 <= i < j < |plans| :: plans[i].path != plans[j].path
    requires forall i | 0 <= i < |plans| :: !plans[i].path.Temporary?
    modifies fs
    ensures fs.Valid() && old(fs.trace) <= fs.trace
    ensures JournalsFree(old(fs.files), plans, |plans|) ==> told
    ensures outcome == PrepareError ==> ExtendsFrom(old(fs.files), fs.trace, |old(fs.trace)| - 1)
    ensures Sound(old(fs.files), plans, told) && outcome != PrepareError ==>
              && |old(fs.trace)| <= cut <= |fs.trace|
              && RecoverableFrom(fs.trace, |old(fs.trace)| - 1, cut, plans)
              && forall k | cut <= k < |fs.trace| :: AllReplaced(fs.trace[k], plans)
    ensures Sound(old(fs.files), plans, told) && outcome == Done ==>
              AllReplaced(fs.files, plans) && JournalsFree(fs.files, plans, |plans|)
    ensures told && outcome == Done ==> Rewritten(fs.files, old(fs.files), plans)
    ensures told && outcome == RolledBack ==> PutBackBut(fs.files, old(fs.files), plans, skipped)
    ensures Sound(old(fs.files), plans, told) && (outcome == RolledBack || outcome == RollbackFailed) ==>
              cut == |fs.trace|
    ensures Sound(old(fs.files), plans, told) && outcome == CleanupError ==> AllReplaced(fs.files, plans)
    ensures outcome == PrepareError <==>
              !(Originals(old(fs.files), plans)
                && PreparesUpTo(fs.fails, old(fs.clock), old(fs.files), plans, |plans|))
    ensures outcome == Done ==>
              && Quiet(fs.fails, old(fs.clock) + 5 * |plans|, 7 * |plans|)
              && fs.clock == old(fs.clock) + 12 * |plans|
    ensures Sound(old(fs.files), plans, told) && outcome != PrepareError ==>
              && (outcome == Done <==> Quiet(fs.fails, old(fs.clock) + 5 * |plans|, 7 * |plans|))
              && (outcome == Done || outcome == CleanupError
                  <==> Quiet(fs.fails, old(fs.clock) + 5 * |plans|, 5 * |plans|))
    ensures old(fs.faults) <= fs.faults
    ensures CleanStart(old(fs.files), plans) && fs.faults <= old(fs.faults) + 1 ==>
              outcome == Done || outcome == CleanupError || fs.files == old(fs.files)
    ensures outcome == PrepareError && fs.faults == old(fs.faults) ==> fs.files == old(fs.files)
    ensures CleanStart(old(fs.files), plans) && outcome != Done ==> fs.faults > old(fs.faults)
    ensures Sound(old(fs.files), plans, told) && (outcome == RollbackFailed || skipped != {}) ==>
              fs.faults >= old(fs.faults) + 2
    ensures (exists i: nat :: Loses(fs.fails, old(fs.clock), old(fs.files), plans, i)) ==> !Recoverable(fs.files, plans)
  {
    hide Recoverable, OverlooksAll, FailsAt, StopsBehindOne, JournalInTheWay, Loses, CostsTheFile, PutBackBut, Running,
         Separate, SameAt, PreparesUpTo, Quiet, AllReplaced, Rewritten, Originals, Holds, JournalsFree;
    ghost var base, from, start, at := fs.files, fs.unused, fs.trace, fs.clock;
    ghost var stop: nat := if j: nat :| Loses(fs.fails, at, base, plans, j) then j else 0;
    ghost var loses := Loses(fs.fails, at, base, plans, stop);
    if loses {
      LosesMeans(fs.fails, at, base, plans, stop);
      OverlookedIsPrepared(fs.fails, at, base, plans, |plans|);
    }
    outcome, told, cut, skipped := Done, true, |fs.trace|, {};
    if plans == [] {
      NothingPlanned(base, fs.trace, fs.fails, at);
      return;
    }
    var ok, prepared, honest := Prepare(fs, plans);
    told := honest;
    cut := |fs.trace|;
    if !ok {
      outcome := PrepareError;
      return;
    }
    ReadyIsPending(fs.files, base, plans, prepared, from, fs.unused);
    ghost var sound := Sound(base, plans, told);
    if sound {
      if told { FreeIsSeparate(base, plans); }
      ReadyIsRunning(fs.files, base, plans, prepared, from, fs.unused);
      PreparingIsRecoverable(fs.trace, |start| - 1, base, plans);
    }
    ghost var before := fs.trace;
    ghost var f := fs.files;
    if loses { FailsAtStill(fs.fails, at + 5 * |plans|, base, f, plans, stop); }
    outcome, cut, skipped := Commit(fs, prepared, plans, base, from, sound, stop);
    if sound { WholeTrace(before, fs.trace, |start| - 1, cut, plans); }
    if loses { CostIsLoss(base, f, fs.files, plans, stop); }
  }

  /** The schedule at which `n` prepared files come to lose file `i`. */
  function LosingSchedule(n: nat, i: nat): Schedule {
    (t: nat) => if t < 5 * n then t % 5 == 4 else t == 5 * n + 5 * i || t == 5 * n + 5 * i + 5
  }

  lemma {:induction false} ScheduleLoses(base: Files, plans: seq<WritePlan>, i: nat)
    requires i < |plans| && Separate(plans) && Originals(base, plans) && JournalInTheWay(base, plans, i)
    ensures Loses(LosingSchedule(|plans|, i), 0, base, plans, i)
  {
    var fails, n := LosingSchedule(|plans|, i), |plans|;
    forall j: nat | j < n
      ensures OverlooksAt(fails, 0, j)
    {
      assert (5 * j) % 5 == 0 && (5 * j + 1) % 5 == 1 && (5 * j + 2) % 5 == 2 && (5 * j + 3) % 5 == 3
             && (5 * j + 4) % 5 == 4;
      assert !fails(5 * j) && !fails(5 * j + 1) && !fails(5 * j + 2) && !fails(5 * j + 3) && fails(5 * j + 4);
    }
    forall j: nat | j < i
      ensures QuietAt(fails, 5 * n, j)
    {
    }
  }

  /**
   * The promise ends at a journal of other content that is in the way of any of the files: there are failures
   * at which it is overlooked while the files are prepared and put back over its file by the rollback, and
   * then the original is nowhere.
   */
  method OverlookedJournalCostsTheFile(base: Files, unused: nat, plans: seq<WritePlan>, i: nat)
    returns (after: Files, outcome: Outcome)
    requires forall id: nat | id >= unused :: Temporary(id) !in base
    requires i < |plans| && Separate(plans) && Originals(base, plans) && JournalInTheWay(base, plans, i)
    ensures !Recoverable(after, plans)
  {
    ScheduleLoses(base, plans, i);
    var fs := new FileSystem(base, unused, LosingSchedule(|plans|, i));
    ghost var told, cut, skipped;
    outcome, told, cut, skipped := ApplyTransaction(fs, plans);
    after := fs.files;
  }
}
