/**
  `apply_postgres_fixes`, `check_patches_status` and the commit and
  rollback wrappers.

  Two modules carry their own copy of the installer, each with its own
  flag and its own saved originals, and both install into the same
  database class.  The state is therefore the class's three methods plus
  one record per copy.
 */
module PatchState {
  import opened Wrappers
  import opened DbErrors

  /** The module that holds an installer copy. */
  datatype Copy = DatabasePatches | PostgresFix

  datatype Role = Sql | Commit | Rollback

  /** A routine that can sit in one of the class's method slots: one
      present before any patching, or a copy's wrapper for a role. */
  datatype Routine = Builtin(id: nat) | Wrapper(copy: Copy, role: Role)

  /** The class's `sql`, `commit` and `rollback`. */
  datatype Methods = Methods(sql: Routine, commit: Routine, rollback: Routine)

  /** One copy's module globals: the saved originals (None until the first
      install) and the "applied" flag. */
  datatype CopyState = CopyState(saved: Option<Methods>, applied: bool)

  datatype World = World(cls: Methods, patches: CopyState, fix: CopyState)

  /** A copy's own wrappers. */
  function WrappersOf(c: Copy): Methods {
    Methods(Wrapper(c, Sql), Wrapper(c, Commit), Wrapper(c, Rollback))
  }

  function StateOf(w: World, c: Copy): CopyState {
    match c
    case DatabasePatches => w.patches
    case PostgresFix => w.fix
  }

  function WithState(w: World, c: Copy, st: CopyState): (r: World)
    ensures StateOf(r, c) == st && r.cls == w.cls
    ensures forall d :: d != c ==> StateOf(r, d) == StateOf(w, d)
  {
    match c
    case DatabasePatches => w.(patches := st)
    case PostgresFix => w.(fix := st)
  }

  /** `apply_postgres_fixes` of copy `c`.  With the flag set, nothing
      happens.  Otherwise the methods in the class right now are saved,
      the copy's wrappers take their places, and the flag is set.  The
      other copy's globals are left alone. */
  function Apply(w: World, c: Copy): (r: World)
    ensures StateOf(w, c).applied ==> r == w
    ensures !StateOf(w, c).applied ==>
      && r.cls == WrappersOf(c)
      && StateOf(r, c) == CopyState(Some(w.cls), true)
    ensures StateOf(r, c).applied
    ensures forall d :: d != c ==> StateOf(r, d) == StateOf(w, d)
  {
    if StateOf(w, c).applied then w
    else WithState(w, c, CopyState(Some(w.cls), true)).(cls := WrappersOf(c))
  }

  /** Once a copy has installed, installing it again changes nothing. */
  lemma ApplyIdempotent(w: World, c: Copy)
    ensures Apply(Apply(w, c), c) == Apply(w, c)
  {
  }

  /** The four fields `check_patches_status` reports. */
  datatype Status = Status(applied: bool, sqlPatched: bool, commitPatched: bool, rollbackPatched: bool)

  /** `check_patches_status`, which only `database_patches.py` defines,
      read against the state of copy `c`: each slot reports whether it
      holds the copy's own wrapper, and only while the flag is set.  For
      the `postgres_fix.py` copy, which has no status function, this is
      the same test applied to that copy's flag and wrappers, an extension
      of the model's own. */
  function CheckStatus(w: World, c: Copy): (r: Status)
    ensures !StateOf(w, c).applied ==> r == Status(false, false, false, false)
    ensures r.applied ==> (r.sqlPatched <==> w.cls.sql == Wrapper(c, Sql))
    ensures r.applied ==> (r.commitPatched <==> w.cls.commit == Wrapper(c, Commit))
    ensures r.applied ==> (r.rollbackPatched <==> w.cls.rollback == Wrapper(c, Rollback))
  {
    var on := StateOf(w, c).applied;
    Status(on,
      if on then w.cls.sql == Wrapper(c, Sql) else false,
      if on then w.cls.commit == Wrapper(c, Commit) else false,
      if on then w.cls.rollback == Wrapper(c, Rollback) else false)
  }

  /** Right after a copy's first install, every field reports true. */
  lemma StatusAfterFirstApply(w: World, c: Copy)
    requires !StateOf(w, c).applied
    ensures CheckStatus(Apply(w, c), c) == Status(true, true, true, true)
  {
  }

  /** The start of the process: nothing installed, nothing saved. */
  function Initial(builtins: Methods): World {
    World(builtins, CopyState(None, false), CopyState(None, false))
  }

  /** When both copies install, the second one saves the first one's
      wrappers as its "originals", and the first copy's status then
      reports its flag set but none of its wrappers in place. */
  lemma BothCopiesInstall(builtins: Methods)
    ensures var w := Apply(Apply(Initial(builtins), DatabasePatches), PostgresFix);
      && w.cls == WrappersOf(PostgresFix)
      && w.fix.saved == Some(WrappersOf(DatabasePatches))
      && w.patches.saved == Some(builtins)
      && CheckStatus(w, DatabasePatches) == Status(true, false, false, false)
  {
  }

  // ---------------------------------------------------------------------
  // The commit and rollback wrappers
  // ---------------------------------------------------------------------

  /** What a call of a commit or rollback routine does: return a value
      (None standing for Python's None), or raise. */
  datatype CallResult = Returned(value: Option<nat>) | Failed(error: DbError)

  /** What the commit wrapper writes to the error log. */
  datatype CommitLog = CommitLog(logged: seq<DbError>)

  /** `patched_commit`: the saved commit's result, an error re-raised as it
      was, after one log entry for it. */
  function PatchedCommit(original: CallResult): (r: (CallResult, CommitLog))
    ensures r.0 == original
    ensures original.Failed? ==> r.1.logged == [original.error]
    ensures original.Returned? <==> |r.1.logged| == 0
  {
    match original
    case Returned(_) => (original, CommitLog([]))
    case Failed(e) => (original, CommitLog([e]))
  }

  /** `patched_rollback`: the saved rollback's result when it returns; an
      error is swallowed and None returned instead, without logging. */
  function PatchedRollback(original: CallResult): (r: CallResult)
    ensures r.Returned?
    ensures original.Returned? ==> r == original
    ensures original.Failed? ==> r == Returned(None)
  {
    match original
    case Returned(_) => original
    case Failed(_) => Returned(None)
  }
}
