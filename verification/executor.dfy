/**
  `patched_sql`: translate the query once, then try the database up to
  three times, rolling back and retrying after an aborted-transaction
  error.

  The collaborators the executor cannot see are parameters.  `prepare` is
  what Frappe's `modify_query` and `modify_values` make of the translation:
  the text handed on, or the error one of them raised.  `db(q, k)` is what
  the `k`-th call of the underlying `Database.sql` does with the query
  `q`.  `rollback(k)` is what the `k`-th call of the installed rollback
  does.
 */
module Executor {
  import opened Wrappers
  import opened DbErrors
  import opened Pipeline
  import PatchState

  /** What one call of the underlying `Database.sql` does. */
  datatype Reply = Rows(rows: seq<string>) | Fail(error: DbError)

  /** What an attempt's preparation gives: the rewritten text, or the error
      `modify_query` or `modify_values` raised inside the `try`. */
  datatype Prepared = Ready(query: Query) | Refused(error: DbError)

  datatype Env = Env(
    prepare: (Query -> Prepared),
    db: ((Query, nat) -> Reply),
    rollback: (nat -> Option<DbError>))

  /** What `patched_sql` ends with: rows, a raised error, or the None a
      Python function returns when it falls off its end. */
  datatype Outcome = Returned(rows: seq<string>) | Raised(error: DbError) | ReturnedNone

  /** The error-log entries the executor writes. */
  datatype LogEntry =
    | RolledBack(retry: nat)
    | RollbackFailed(rollbackError: DbError, original: DbError)
    | SyntaxErrorReport
    | MissingFunctionReport

  /** A whole call: the outcome, how many attempts were made, the queries
      handed to the database in order, how many rollbacks were made, the
      log, and whether the loop was left through its condition. */
  datatype Run = Run(outcome: Outcome, attempts: nat, sent: seq<Query>, rollbacks: nat, log: seq<LogEntry>, leftLoop: bool)

  const MaxRetries := 3

  /** The three tests the handler applies to a caught error. */
  datatype Tests = Tests(abort: DbError -> bool, syntax: DbError -> bool, missing: DbError -> bool)

  /** The tests `patched_sql` makes. */
  function ErrorTests(): Tests {
    Tests(IsAbort, IsSyntax, IsMissingFunction)
  }

  /** The reports written before an error is re-raised. */
  function Reports(tests: Tests, e: DbError): seq<LogEntry> {
    (if tests.syntax(e) then [SyntaxErrorReport] else [])
    + (if tests.missing(e) then [MissingFunctionReport] else [])
  }

  /** The bare `raise` after the reports: the error caught by the
      enclosing handler, whatever the reports say. */
  function Reraise(tests: Tests, e: DbError, attempts: nat, sent: seq<Query>, rollbacks: nat, log: seq<LogEntry>): Run {
    Run(Raised(e), attempts, sent, rollbacks, log + Reports(tests, e), false)
  }

  /** What attempt `k` comes to: the database's reply to the prepared
      text, or the error the preparation raised. */
  function Answer(env: Env, prep: Prepared, k: nat): Reply {
    match prep
    case Ready(pg) => env.db(pg, k)
    case Refused(e) => Fail(e)
  }

  /** The queries handed to the database after `n` attempts. */
  function Handed(prep: Prepared, n: nat): seq<Query> {
    if prep.Ready? then seq(n, _ => prep.query) else []
  }

  /** The retry loop with `retry` retries used so far, which is also the
      number of attempts made; `tq` is the translated query, `last` the
      last error caught.  Each attempt prepares the translation afresh,
      inside the `try`. */
  function Loop(env: Env, tests: Tests, tq: Query, retry: nat, sent: seq<Query>, rollbacks: nat, log: seq<LogEntry>, last: Option<DbError>): Run
    requires retry <= MaxRetries
    decreases MaxRetries - retry
  {
    if retry >= MaxRetries then
      Run(if last.Some? then Raised(last.value) else ReturnedNone, retry, sent, rollbacks, log, true)
    else
      var prep := env.prepare(tq);
      var sent' := if prep.Ready? then sent + [prep.query] else sent;
      match Answer(env, prep, retry)
      case Rows(rows) => Run(Returned(rows), retry + 1, sent', rollbacks, log, false)
      case Fail(e) =>
        if tests.abort(e) then
          var retry' := retry + 1;
          match env.rollback(rollbacks)
          case None =>
            var log' := log + [RolledBack(retry')];
            if retry' < MaxRetries then Loop(env, tests, tq, retry', sent', rollbacks + 1, log', Some(e))
            else Reraise(tests, e, retry', sent', rollbacks + 1, log')
          case Some(re) => Reraise(tests, e, retry', sent', rollbacks + 1, log + [RollbackFailed(re, e)])
        else Reraise(tests, e, retry + 1, sent', rollbacks, log)
  }

  /** The loop run from the start on the translated query `tq`. */
  function Execute(env: Env, tq: Query): Run {
    Loop(env, ErrorTests(), tq, 0, [], 0, [], None)
  }

  /** `patched_sql`: translate once, then run the loop. */
  function PatchedSql(env: Env, query: Query): Run {
    Execute(env, ApplyAll(query))
  }

  /** Every attempt before `n` failed with an error the abort test
      accepts, and was followed by a rollback that returned. */
  ghost predicate AbortedAndRolledBack(env: Env, abort: DbError -> bool, prep: Prepared, n: nat) {
    forall k: nat :: k < n ==> Answer(env, prep, k).Fail? && abort(Answer(env, prep, k).error) && env.rollback(k).None?
  }

  /** What `patched_sql` guarantees, stated for the run `r` of the query
      whose translation prepares to `prep`: there are one to three
      attempts; every attempt hands the database that same prepared text,
      or nothing when the preparation raised; every attempt but the last
      was an abort followed by a successful rollback; rows come from the
      last attempt; a raised error is the last attempt's own error (the
      database's, or the preparation's; never a rollback error, and the
      same whatever is logged); and the code after the loop is never
      reached.  The last attempt also decides why the loop stopped: an
      abort there was rolled back, and the loop stopped after it only
      because the rollback raised or no retry was left; any other error
      was not rolled back. */
  ghost predicate RunSpec(env: Env, abort: DbError -> bool, prep: Prepared, r: Run) {
    var n := r.attempts;
    && 1 <= n <= MaxRetries
    && !r.leftLoop
    && r.sent == Handed(prep, n)
    && AbortedAndRolledBack(env, abort, prep, n - 1)
    && (r.rollbacks == n - 1 || r.rollbacks == n)
    && (r.outcome.Returned? ==> Answer(env, prep, n - 1) == Rows(r.outcome.rows) && r.rollbacks == n - 1)
    && (r.outcome.Raised? ==> Answer(env, prep, n - 1) == Fail(r.outcome.error))
    && !r.outcome.ReturnedNone?
    && (LastAborted(env, abort, prep, n) ==> r.rollbacks == n)
    && (LastAborted(env, abort, prep, n) && n < MaxRetries ==> env.rollback(n - 1).Some?)
    && (Answer(env, prep, n - 1).Fail? && !abort(Answer(env, prep, n - 1).error) ==> r.rollbacks == n - 1)
  }

  /** Attempt `n - 1` failed with an error the abort test accepts. */
  ghost predicate LastAborted(env: Env, abort: DbError -> bool, prep: Prepared, n: nat)
    requires n >= 1
  {
    Answer(env, prep, n - 1).Fail? && abort(Answer(env, prep, n - 1).error)
  }

  /** The loop keeps its guarantee from any point it can reach. */
  lemma {:induction false} LoopSpec(env: Env, tests: Tests, tq: Query, retry: nat, sent: seq<Query>, log: seq<LogEntry>, last: Option<DbError>)
    requires retry < MaxRetries
    requires sent == Handed(env.prepare(tq), retry)
    requires AbortedAndRolledBack(env, tests.abort, env.prepare(tq), retry)
    ensures var r := Loop(env, tests, tq, retry, sent, retry, log, last);
      RunSpec(env, tests.abort, env.prepare(tq), r) && retry < r.attempts
    decreases MaxRetries - retry
  {
    var prep := env.prepare(tq);
    var sent' := if prep.Ready? then sent + [prep.query] else sent;
    assert sent' == Handed(prep, retry + 1);
    match Answer(env, prep, retry)
    case Rows(_) =>
    case Fail(e) =>
      if tests.abort(e) && env.rollback(retry).None? && retry + 1 < MaxRetries {
        LoopSpec(env, tests, tq, retry + 1, sent', log + [RolledBack(retry + 1)], Some(e));
      }
  }

  /** The loop run on a translated query meets `RunSpec`. */
  lemma ExecuteSpec(env: Env, tq: Query)
    ensures RunSpec(env, IsAbort, env.prepare(tq), Execute(env, tq))
  {
    LoopSpec(env, ErrorTests(), tq, 0, [], [], None);
  }

  /** `patched_sql` as a whole: the query is translated once, and every
      attempt prepares that one translation with Frappe's rewriting. */
  lemma PatchedSqlSpec(env: Env, query: Query)
    ensures RunSpec(env, IsAbort, env.prepare(ApplyAll(query)), PatchedSql(env, query))
  {
    ExecuteSpec(env, ApplyAll(query));
  }

  /** A preparation that raises goes through the same handler as a
      database error: nothing reaches the database, and an error other
      than an abort is re-raised from the first attempt with no
      rollback. */
  lemma PrepareFailureFirst(env: Env, tq: Query, e: DbError)
    requires env.prepare(tq) == Refused(e) && !IsAbort(e)
    ensures var r := Execute(env, tq);
      r.outcome == Raised(e) && r.attempts == 1 && r.sent == [] && r.rollbacks == 0
  {
    assert !ErrorTests().abort(e);
  }

  /** Two aborts, then success: the rows come back after three attempts
      and two rollbacks. */
  lemma TwoAbortsThenSuccess(env: Env, tq: Query, e0: DbError, e1: DbError, rows: seq<string>)
    requires var prep := env.prepare(tq);
      && Answer(env, prep, 0) == Fail(e0) && IsAbort(e0)
      && Answer(env, prep, 1) == Fail(e1) && IsAbort(e1)
      && Answer(env, prep, 2) == Rows(rows)
    requires env.rollback(0).None? && env.rollback(1).None?
    ensures var r := Execute(env, tq);
      r.outcome == Returned(rows) && r.attempts == 3 && r.rollbacks == 2
  {
    TwoAbortsWith(env, ErrorTests(), tq, e0, e1, rows);
  }

  lemma TwoAbortsWith(env: Env, tests: Tests, tq: Query, e0: DbError, e1: DbError, rows: seq<string>)
    requires var prep := env.prepare(tq);
      && Answer(env, prep, 0) == Fail(e0) && tests.abort(e0)
      && Answer(env, prep, 1) == Fail(e1) && tests.abort(e1)
      && Answer(env, prep, 2) == Rows(rows)
    requires env.rollback(0).None? && env.rollback(1).None?
    ensures var r := Loop(env, tests, tq, 0, [], 0, [], None);
      r.outcome == Returned(rows) && r.attempts == 3 && r.rollbacks == 2
  {
    var prep := env.prepare(tq);
    var s1 := Handed(prep, 1);
    var s2 := Handed(prep, 2);
    assert Loop(env, tests, tq, 2, s2, 2, [RolledBack(1), RolledBack(2)], Some(e1))
      == Run(Returned(rows), 3, Handed(prep, 3), 2, [RolledBack(1), RolledBack(2)], false);
    assert Loop(env, tests, tq, 1, s1, 1, [RolledBack(1)], Some(e0))
      == Loop(env, tests, tq, 2, s2, 2, [RolledBack(1)] + [RolledBack(2)], Some(e1));
    assert Loop(env, tests, tq, 0, [], 0, [], None)
      == Loop(env, tests, tq, 1, s1, 1, [RolledBack(1)], Some(e0));
  }

  /** A database that always aborts: three attempts, three rollbacks, and
      the third attempt's error raised. */
  lemma AlwaysAborts(env: Env, tq: Query)
    requires forall k: nat :: Answer(env, env.prepare(tq), k).Fail?
    requires forall k: nat :: IsAbort(Answer(env, env.prepare(tq), k).error)
    requires forall k: nat :: env.rollback(k).None?
    ensures var r := Execute(env, tq);
      && r.attempts == 3 && r.rollbacks == 3
      && r.outcome == Raised(Answer(env, env.prepare(tq), 2).error)
  {
    var prep := env.prepare(tq);
    var e0, e1, e2 := Answer(env, prep, 0).error, Answer(env, prep, 1).error, Answer(env, prep, 2).error;
    assert IsAbort(e0) && IsAbort(e1) && IsAbort(e2);
    AlwaysAbortsWith(env, ErrorTests(), tq, e0, e1, e2);
  }

  lemma AlwaysAbortsWith(env: Env, tests: Tests, tq: Query, e0: DbError, e1: DbError, e2: DbError)
    requires var prep := env.prepare(tq);
      && Answer(env, prep, 0) == Fail(e0) && tests.abort(e0)
      && Answer(env, prep, 1) == Fail(e1) && tests.abort(e1)
      && Answer(env, prep, 2) == Fail(e2) && tests.abort(e2)
    requires env.rollback(0).None? && env.rollback(1).None? && env.rollback(2).None?
    ensures var r := Loop(env, tests, tq, 0, [], 0, [], None);
      && r.attempts == 3 && r.rollbacks == 3 && r.outcome == Raised(e2)
  {
    var prep := env.prepare(tq);
    var s1 := Handed(prep, 1);
    var s2 := Handed(prep, 2);
    var r2 := Loop(env, tests, tq, 2, s2, 2, [RolledBack(1), RolledBack(2)], Some(e1));
    assert r2.outcome == Raised(e2) && r2.attempts == 3 && r2.rollbacks == 3;
    assert Loop(env, tests, tq, 1, s1, 1, [RolledBack(1)], Some(e0))
      == Loop(env, tests, tq, 2, s2, 2, [RolledBack(1)] + [RolledBack(2)], Some(e1));
    assert Loop(env, tests, tq, 0, [], 0, [], None)
      == Loop(env, tests, tq, 1, s1, 1, [RolledBack(1)], Some(e0));
  }

  /** Any other error is re-raised as it is from the first attempt, with
      no rollback. */
  lemma OtherErrorFirst(env: Env, tq: Query, e: DbError)
    requires Answer(env, env.prepare(tq), 0) == Fail(e) && !IsAbort(e)
    ensures var r := Execute(env, tq);
      r.outcome == Raised(e) && r.attempts == 1 && r.rollbacks == 0
  {
    assert !ErrorTests().abort(e);
  }

  /** A rollback that raises ends the call: no further attempt, and the
      error raised is the abort that caused the rollback, not the
      rollback's own error. */
  lemma RollbackFailureEndsCall(env: Env, tq: Query, e: DbError, re: DbError)
    requires Answer(env, env.prepare(tq), 0) == Fail(e) && IsAbort(e)
    requires env.rollback(0) == Some(re)
    ensures var r := Execute(env, tq);
      && r.outcome == Raised(e) && r.attempts == 1 && r.rollbacks == 1
      && RollbackFailed(re, e) in r.log
  {
    assert ErrorTests().abort(e);
  }

  /** What a rollback call raises, if anything. */
  function RollbackRaises(c: PatchState.CallResult): Option<DbError> {
    match c
    case Returned(_) => None
    case Failed(e) => Some(e)
  }

  /** With the rollback wrapper installed, a rollback never raises (it
      swallows whatever the saved rollback raises), so the log never
      records a failed rollback, whatever the error tests are. */
  lemma WrappedRollbackNeverFails(env: Env, tests: Tests, tq: Query, saved: nat -> PatchState.CallResult)
    requires forall k: nat :: env.rollback(k) == RollbackRaises(PatchState.PatchedRollback(saved(k)))
    ensures NoFailedRollback(Loop(env, tests, tq, 0, [], 0, [], None).log)
  {
    WrappedRollbackReturns(env, saved);
    NoRollbackFailure(env, tests, tq, 0, [], 0, [], None);
  }

  /** The installed wrapper as the executor's rollback: it never raises. */
  lemma WrappedRollbackReturns(env: Env, saved: nat -> PatchState.CallResult)
    requires forall k: nat :: env.rollback(k) == RollbackRaises(PatchState.PatchedRollback(saved(k)))
    ensures forall k: nat :: env.rollback(k).None?
  {
    forall k: nat ensures env.rollback(k).None? {
      assert env.rollback(k) == RollbackRaises(PatchState.PatchedRollback(saved(k)));
    }
  }

  /** No entry of the log records a failed rollback. */
  predicate NoFailedRollback(log: seq<LogEntry>) {
    forall i :: 0 <= i < |log| ==> !log[i].RollbackFailed?
  }

  lemma NoFailedRollbackConcat(a: seq<LogEntry>, b: seq<LogEntry>)
    ensures NoFailedRollback(a + b) <==> NoFailedRollback(a) && NoFailedRollback(b)
  {
    if NoFailedRollback(a) && NoFailedRollback(b) {
      forall i | 0 <= i < |a + b| ensures !(a + b)[i].RollbackFailed? {
        if i >= |a| { assert (a + b)[i] == b[i - |a|]; } else { assert (a + b)[i] == a[i]; }
      }
    }
    if NoFailedRollback(a + b) {
      forall i | 0 <= i < |a| ensures !a[i].RollbackFailed? {
        assert (a + b)[i] == a[i];
      }
      forall i | 0 <= i < |b| ensures !b[i].RollbackFailed? {
        assert (a + b)[|a| + i] == b[i];
      }
    }
  }

  /** From any point of the loop, with a rollback that never raises, the
      log gains no failed-rollback entry. */
  lemma {:induction false} NoRollbackFailure(env: Env, tests: Tests, tq: Query, retry: nat, sent: seq<Query>, rollbacks: nat, log: seq<LogEntry>, last: Option<DbError>)
    requires retry <= MaxRetries
    requires forall k: nat :: env.rollback(k).None?
    requires NoFailedRollback(log)
    ensures NoFailedRollback(Loop(env, tests, tq, retry, sent, rollbacks, log, last).log)
    decreases MaxRetries - retry, 1
  {
    if retry < MaxRetries {
      var prep := env.prepare(tq);
      var sent' := if prep.Ready? then sent + [prep.query] else sent;
      var r := Loop(env, tests, tq, retry, sent, rollbacks, log, last);
      match Answer(env, prep, retry)
      case Rows(_) =>
        assert r.log == log;
      case Fail(e) =>
        NoFailedRollbackConcat(log, Reports(tests, e));
        if tests.abort(e) {
          assert env.rollback(rollbacks).None?;
          var log' := log + [RolledBack(retry + 1)];
          NoFailedRollbackConcat(log, [RolledBack(retry + 1)]);
          AfterRolledBack(env, tests, tq, retry, sent', rollbacks, log', e);
          assert r.log == Loop(env, tests, tq, retry + 1, sent', rollbacks + 1, log', Some(e)).log
            || r.log == Reraise(tests, e, retry + 1, sent', rollbacks + 1, log').log;
        } else {
          assert r == Reraise(tests, e, retry + 1, sent', rollbacks, log);
        }
    }
  }

  /** After a rollback that returned, the log gains no failed-rollback
      entry, whether the loop goes on or re-raises. */
  lemma {:induction false} AfterRolledBack(env: Env, tests: Tests, tq: Query, retry: nat, sent: seq<Query>, rollbacks: nat, log: seq<LogEntry>, e: DbError)
    requires retry < MaxRetries
    requires forall k: nat :: env.rollback(k).None?
    requires NoFailedRollback(log)
    ensures retry + 1 < MaxRetries ==> NoFailedRollback(Loop(env, tests, tq, retry + 1, sent, rollbacks + 1, log, Some(e)).log)
    ensures NoFailedRollback(Reraise(tests, e, retry + 1, sent, rollbacks + 1, log).log)
    decreases MaxRetries - retry, 0
  {
    NoFailedRollbackConcat(log, Reports(tests, e));
    if retry + 1 < MaxRetries {
      NoRollbackFailure(env, tests, tq, retry + 1, sent, rollbacks + 1, log, Some(e));
    }
  }
}
