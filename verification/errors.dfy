/**
  Database errors as the retry executor sees them: a type (the psycopg2
  exception classes it tests for, or anything else) and the message that
  `str(e)` gives.
 */
module DbErrors {
  import opened Text

  datatype ErrorType = InFailedSqlTransaction | SyntaxError | OtherError

  datatype DbError = DbError(kind: ErrorType, message: string)

  /** `sub in str(e).lower()`, as a scan. */
  predicate In(message: string, sub: string) {
    ContainsFrom(Lower(message), sub, 0)
  }

  /** An aborted-transaction error: the lower-cased message names it, or
      the exception is of the aborted-transaction type. */
  predicate IsAbort(e: DbError) {
    || In(e.message, "transaction is aborted")
    || In(e.message, "infailedsqltransaction")
    || e.kind == InFailedSqlTransaction
  }

  /** The test for the syntax-error report. */
  predicate IsSyntax(e: DbError) {
    In(e.message, "syntax error") || e.kind == SyntaxError
  }

  /** The test for the missing-function report. */
  predicate IsMissingFunction(e: DbError) {
    In(e.message, "function") && In(e.message, "does not exist")
  }

  /** The classification is Python's: a substring test on the lower-cased
      message for either phrase, or the exception type. */
  lemma IsAbortMeans(e: DbError)
    ensures IsAbort(e) <==>
      || Contains(Lower(e.message), "transaction is aborted")
      || Contains(Lower(e.message), "infailedsqltransaction")
      || e.kind == InFailedSqlTransaction
  {
    ContainsScan(Lower(e.message), "transaction is aborted");
    ContainsScan(Lower(e.message), "infailedsqltransaction");
  }

  /** The message test ignores case: an error of another type whose
      message is the psycopg2 class name, in any mixture of upper and
      lower case, is an abort. */
  lemma AbortByClassName(e: DbError)
    requires e.kind == OtherError && Lower(e.message) == "infailedsqltransaction"
    ensures IsAbort(e)
  {
    var lowered := Lower(e.message);
    assert lowered[0..|lowered|] == lowered;
    ContainsAt(lowered, "infailedsqltransaction", 0);
    IsAbortMeans(e);
  }

  /** The class name as psycopg2 spells it is one such message. */
  lemma ClassNameLowered()
    ensures Lower("InFailedSqlTransaction") == "infailedsqltransaction"
  {
    var s, t := "InFailedSqlTransaction", "infailedsqltransaction";
    forall i | 0 <= i < |s| ensures LowerChar(s[i]) == t[i] { }
  }

  /** An error of another type whose message is too short to hold either
      phrase is not an abort. */
  lemma ShortMessageIsNotAbort(e: DbError)
    requires e.kind != InFailedSqlTransaction && |e.message| < 22
    ensures !IsAbort(e)
  {
    var lowered := Lower(e.message);
    ContainsScan(lowered, "transaction is aborted");
    ContainsScan(lowered, "infailedsqltransaction");
    forall i: nat | i <= |lowered|
      ensures !LiteralAt(lowered, i, "transaction is aborted")
      ensures !LiteralAt(lowered, i, "infailedsqltransaction")
    {
      LiteralAtIsSlice(lowered, i, "transaction is aborted");
      LiteralAtIsSlice(lowered, i, "infailedsqltransaction");
    }
  }
}
