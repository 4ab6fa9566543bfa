/**
  `apply_all_query_transformations`: the four rewriters in a fixed order,
  for queries that are strings; anything else passes through.
 */
module Pipeline {
  import opened Text
  import opened Regex
  import opened RegexPatterns
  import opened IfRewriter
  import opened Rewriters

  /** What a caller may hand in as the query: SQL text, or some other
      Python object, which the pipeline does not look into. */
  datatype Query = SqlText(text: string) | NotText(id: nat)

  /** The four rewriters in the order the pipeline applies them. */
  function Translate(q: string): string {
    ConvertDateFormat(IfNullToCoalesce(ConvertIfToCase(RemoveIndexHints(q))))
  }

  /** `apply_all_query_transformations`. */
  function ApplyAll(q: Query): (r: Query)
    ensures q.NotText? ==> r == q
    ensures q.SqlText? ==> r == SqlText(Translate(q.text))
  {
    match q
    case NotText(_) => q
    case SqlText(t) => SqlText(Translate(t))
  }

  /** The condition under which the pipeline reports a left-over `IF(`:
      the upper-cased result contains it literally. */
  predicate HasResidualIf(t: string) {
    Contains(Upper(t), "IF(")
  }

  /** The pipeline's result together with whether it would report a
      left-over `IF(`. */
  datatype Report = Report(result: Query, residual: bool)

  /** `apply_all_query_transformations` with its diagnostic block: the
      report is computed on the translated text and the query returned is
      the translated one, whatever the report says. */
  function ApplyAllReporting(q: Query): (r: Report)
    ensures r.result == ApplyAll(q)
    ensures r.residual <==> q.SqlText? && HasResidualIf(Translate(q.text))
  {
    match q
    case NotText(_) => Report(q, false)
    case SqlText(t) =>
      var out := Translate(t);
      Report(SqlText(out), HasResidualIf(out))
  }

  /** A query in which none of the four patterns matches comes out of the
      pipeline exactly as it went in. */
  lemma NothingToTranslate(q: string)
    requires |FindAllPatternPositions(ForceIndex, q)| == 0
    requires |FindAllPatternPositions(UseIndex, q)| == 0
    requires |FindAllPatternPositions(IgnoreIndex, q)| == 0
    requires FirstIf(q).None?
    requires |FindAllPatternPositions(IfNullCall, q)| == 0
    requires |FindAllPatternPositions(DateFormatCall, q)| == 0
    ensures Translate(q) == q
  {
  }
}
