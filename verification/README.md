# frappe_pg core, modelled in Dafny

frappe_pg lets ERPNext run on PostgreSQL by patching Frappe's
`PostgresDatabase` class at run time. This project models four parts of
it and proves properties of the model:

1. **The SQL translator.** It turns MySQL-only syntax into PostgreSQL.
   - The index-hint stripper removes `FORCE INDEX (…)`, `USE INDEX (…)` and `IGNORE INDEX (…)`.
   - The rewriter turns `IF(c, t, f)` into `CASE WHEN c THEN t ELSE f END`. It is built on a quote- and depth-aware parenthesis scanner and comma splitter, uses two sentinels, and is capped at 100 turns.
   - `IFNULL(` is renamed to `COALESCE(`.
   - `DATE_FORMAT(x, '%Y-%m-%d')` becomes `TO_CHAR(x, 'YYYY-MM-DD')`.
   - The fixed-order pipeline `apply_all_query_transformations` combines them.
   - The compiled patterns are written out as matchers, with `finditer`, `findall` and `sub` over them.
2. **The retry executor `patched_sql`.** It translates once, then tries the
   database at most three times. It rolls back and retries after an
   aborted-transaction error.
3. **The patch state.** This is `apply_postgres_fixes` with its flag and
   saved originals, in both modules that carry a copy. It also covers
   `check_patches_status` and the commit and rollback wrappers.
4. **The trends GROUP BY adjuster.** This is
   `patched_based_wise_columns_query`, in both of its copies.

Modules, one per file:

| Module | What it holds |
|---|---|
| `Wrappers` | `Option` |
| `Text` | Character classes, case mapping, literal search (`Contains`, and `ContainsFrom`, which reads as Python's `in`), `strip`, `str.replace` |
| `Regex` | A generic leftmost-search, `finditer`, `findall` and `sub` layer over any matcher, with reference definitions |
| `RegexPatterns` | The six compiled patterns as matchers, with shape predicates for their languages |
| `Scanner` | The balanced-parenthesis scanner and `split_by_comma` |
| `IfRewriter` | `convert_if_to_case` |
| `Rewriters` | The index-hint, `IFNULL` and `DATE_FORMAT` rewriters |
| `Pipeline` | `apply_all_query_transformations` |
| `DbErrors` | Error kinds and the abort, syntax and missing-function tests |
| `Executor` | `patched_sql` |
| `PatchState` | The installer, status and wrappers |
| `Trends` | The GROUP BY adjuster |
| `DocExamples` | The docstring examples of `split_by_comma` and `convert_if_to_case`, evaluated step by step |
| `RewriterExamples` | The docstring examples of `remove_index_hints`, `convert_ifnull_to_coalesce` and `convert_date_format`, through one-match lemmas about `finditer` and `sub` |

Character classes follow Python on ASCII text:
- `\s` and `str.isspace` are code points 9–13 and 28–32;
- `\w` is `[A-Za-z0-9_]`;
- `re.IGNORECASE`, `upper()` and `lower()` fold only ASCII letters.

The translator exists twice in the source, in
`frappe_pg/postgres/query_transformers.py` and in
`frappe_pg/patches/postgres_fix.py`. The two copies have identical code,
so one model covers both and a row may cite either copy. One
difference from the docstring: `postgres_fix.py` says `IF` calls are
rewritten "from innermost to outermost". The code always takes the
leftmost match, so an outer call is rewritten before the calls nested in
it. The model follows the code.

## Model

| member | source | states |
|---|---|---|
| Scanner.NextQuote | frappe_pg/postgres/query_transformers.py:47-53 | A quote mark opens a quoted span when outside one. Inside a span, it closes the span exactly when it is the span's own mark and is not preceded by a backslash. Any other mark leaves the span as it is. |
| Scanner.ScanStep | frappe_pg/patches/postgres_fix.py:119-136 | One step of the balanced scanner moves the depth by at most one. The depth drops exactly when the character is `)` outside quotes. |
| Scanner.FindClose | frappe_pg/patches/postgres_fix.py:111-138 | The scan from an opening parenthesis stops at the first position where the running depth reaches 0. The character before it is `)`, and the depth is positive at every earlier position. The result is None exactly when the depth never reaches 0 before the end of the text, which is the malformed case. |
| Scanner.TopLevelCommas | frappe_pg/postgres/query_transformers.py:63 | Its result lists, in increasing order, exactly the positions of commas that are outside quotes and at depth 0. |
| Scanner.SplitLoopSpec | frappe_pg/postgres/query_transformers.py:40-72 | The splitter's loop, run from any state that satisfies the splitting invariant, returns a splitting of the text. Joined with commas, the parts give back the text, and their commas sit exactly at the top-level commas. |
| Scanner.SplitByComma | frappe_pg/postgres/query_transformers.py:23-72 | Joining the parts with `,` reproduces the text exactly. The joining commas are exactly the top-level commas, so no comma inside quotes or parentheses is ever cut at. The parts are not stripped. An empty last part is dropped, so a trailing top-level comma is lost and the empty text gives no parts. |
| IfRewriter.ScannerAgreesWithSplitter | frappe_pg/patches/postgres_fix.py:123-134 | The balanced scanner and the comma splitter apply the same quote rule to a call's interior. At every position of the interior, their quote states agree and their depths differ by exactly the opening parenthesis. |
| IfRewriter.InteriorBalanced | frappe_pg/patches/postgres_fix.py:189-195 | The interior of a call whose closing parenthesis the scanner found leaves the splitter unquoted at depth 0 at its end, and never below depth 0. |
| RegexPatterns.CallMatch | frappe_pg/utils/regex_patterns.py:45-55 | The `\bNAME\s*\(` matcher, used for IF and IFNULL, returns an end position exactly when the text from the start position is in the pattern's language. That means a word boundary, the name in any case, a whitespace run, then `(`. |
| RegexPatterns.IfCallExamples | frappe_pg/utils/regex_patterns.py:45-48 | The IF pattern matches `if (`. It matches nowhere in `IFNULL(`, and nowhere in `DIF(`. |
| RegexPatterns.HintMatchSpec | frappe_pg/utils/regex_patterns.py:18-35 | The index-hint matcher finds a match exactly when the pattern matches. The match requires a whitespace run before the keyword (consumed with the match), whitespace before `INDEX`, and a non-empty list free of `)`. |
| RegexPatterns.FormatMatchSpec | frappe_pg/utils/regex_patterns.py:60 | The tail `,\s*['"]%Y-%m-%d['"]\s*\)` matches in exactly one way or not at all. Each quote is independently `'` or `"`. |
| RegexPatterns.DateMatchSpec | frappe_pg/utils/regex_patterns.py:59-62 | The DATE_FORMAT matcher finds a match exactly when the pattern matches. The first argument is non-empty and comma-free, and the second is `%Y-%m-%d`. |
| RegexPatterns.ArgGroup | frappe_pg/utils/regex_patterns.py:60 | The group `\s*([^,]+?)\s*` captures a non-empty slice with only whitespace around it. When the argument is not all whitespace, the capture is the stripped argument. |
| Regex.Search | frappe_pg/postgres/query_transformers.py:106-116 | Leftmost search returns a matching position with no match before it, or None when nothing matches anywhere. |
| Regex.FindAll | frappe_pg/utils/regex_patterns.py:108 | `finditer` returns matches in order and non-overlapping, each with its text. No match starts in any gap between them, which makes the list the leftmost non-overlapping one. |
| Regex.Count | frappe_pg/utils/regex_patterns.py:124 | `len(findall(...))` equals the number of `finditer` matches. |
| Regex.Sub | frappe_pg/postgres/query_transformers.py:213-258 | `sub` equals the reference stitch: the text between the `finditer` matches is kept, and each match is replaced. |
| Regex.SubWithoutMatch | frappe_pg/postgres/query_transformers.py:236 | A `sub` whose pattern matches nowhere returns the text unchanged. |
| Regex.StitchLength | frappe_pg/postgres/query_transformers.py:213-236 | With a fixed-length replacement, the result's length is the text's length minus the matched length plus the replacement length per match. |
| RegexPatterns.FindAllPatternPositions | frappe_pg/utils/regex_patterns.py:96-110 | Its result holds `(start, end, text)` triples where each `text` is the slice of the input. The triples are ordered by start, do not overlap, and are each a match of the pattern, with no match in between. |
| RegexPatterns.CountPatternOccurrences | frappe_pg/utils/regex_patterns.py:113-124 | The count equals the length of the position list. |
| IfRewriter.FirstIf | frappe_pg/postgres/query_transformers.py:116-120 | It returns the leftmost match of `\bIF\s*\(`, with no match before it, or None when there is none. |
| IfRewriter.Classify | frappe_pg/postgres/query_transformers.py:124-174 | An occurrence is "inside a word" exactly when the character before it is alphanumeric or `_`. Otherwise it is unterminated exactly when the scanner finds no matching `)`. A convertible occurrence carries the scanner's `)` and the splitter's parts of the interior, of which there are exactly three. |
| IfRewriter.ConvertibleWhen | frappe_pg/postgres/query_transformers.py:124-174 | Conversely, an occurrence not inside a word whose `)` the scanner finds and whose interior splits into three parts is classified convertible, with that `)` and those parts. |
| IfRewriter.NeverInsideWord | frappe_pg/postgres/query_transformers.py:124-130 | The "inside a word" test repeats what `\b` already checked, so a found occurrence is never hidden behind `___NOTIF___(`. |
| IfRewriter.ConvertStep | frappe_pg/postgres/query_transformers.py:132-184 | A converting turn replaces exactly the span from `IF` through the matching `)` with `CASE WHEN c THEN t ELSE f END` over the stripped parts of the split interior. The text before and after is untouched. |
| IfRewriter.GiveUpStep | frappe_pg/postgres/query_transformers.py:159-174 | A turn that gives up puts `___BADIF___(` in place of the match and keeps everything after the `(`. The call is "unterminated" exactly when the scanner finds no matching `)`. |
| IfRewriter.RestoreAroundMark | frappe_pg/postgres/query_transformers.py:187-188 | Restoration turns a single BADIF sentinel between sentinel-free text back into `IF(` and changes nothing else. |
| IfRewriter.Loop | frappe_pg/postgres/query_transformers.py:109-184 | The loop takes at most 100 turns. When it stops before the cap, no occurrence is left. A text with no occurrence is returned after no turns. Once the cap is reached, the text is returned as it stands, with any occurrences still in it. The text in front of the leftmost occurrence is never changed. |
| IfRewriter.NextTurnIsLater | frappe_pg/postgres/query_transformers.py:115-184 | A turn at the leftmost occurrence keeps the text in front of it and writes its head there: a sentinel, or `CASE WHEN `. The next occurrence the search can find starts after that head. |
| IfRewriter.FirstOccurrenceSettled | frappe_pg/postgres/query_transformers.py:109-188 | In a text holding no sentinel of its own, after all turns and the restoring `replace` calls, a convertible first occurrence has become `CASE WHEN ` and one the rewriter gave up on is `IF(` again. The text in front of it is untouched. |
| IfRewriter.After | frappe_pg/postgres/query_transformers.py:109-184 | The text after the first `k` turns, from which the loop goes on exactly as if it had started there at iteration `k`. |
| IfRewriter.EveryTurnKept | frappe_pg/postgres/query_transformers.py:109-184 | Every turn the loop takes keeps the text in front of its occurrence and the head it wrote there (a sentinel or `CASE WHEN `) at the start of the text the loop stops with. |
| IfRewriter.EveryTurnSettled | frappe_pg/postgres/query_transformers.py:109-188 | After the restoring `replace` calls, every turn the loop took is settled: its restored front is followed by `CASE WHEN ` when it converted and by `IF(` when it gave up. |
| IfRewriter.AllTurnsSettled | frappe_pg/postgres/query_transformers.py:109-188 | The same for all turns at once. |
| IfRewriter.ConvertIfToCase | frappe_pg/postgres/query_transformers.py:106-190 | A text without an occurrence is returned unchanged. Every turn the loop takes is settled in the result: the result starts with the restored text in front of that turn's occurrence, followed by `CASE WHEN ` when the turn converted it, or by `IF(` when the rewriter gave up on it, so no given-up occurrence is ever dropped. For a sentinel-free text, the first occurrence's front is kept as written. |
| IfRewriter.NoMatchUnchanged | frappe_pg/postgres/query_transformers.py:106-107 | A text in which the word-bounded `IF\s*(` pattern matches at no position is returned unchanged. |
| Rewriters.StripHint | frappe_pg/postgres/query_transformers.py:213-215 | Each hint pass erases exactly its pattern's matches. The result is shorter by the matched length, and it equals the input exactly when nothing matched. |
| Rewriters.ErasedLength | frappe_pg/postgres/query_transformers.py:213-215 | Erasing matches shortens the text by their total length, which is positive exactly when there is a match. |
| Rewriters.RemoveIndexHints | frappe_pg/postgres/query_transformers.py:193-216 | The three passes never lengthen the query. A query with no hint of any kind comes back unchanged. |
| Rewriters.IfNullToCoalesce | frappe_pg/postgres/query_transformers.py:219-236 | Every match of `\bIFNULL\s*\(` becomes `COALESCE(` and the rest of the text is kept. The length changes by `COALESCE(`'s length minus the match length per match. |
| Rewriters.ToCharAtMatch | frappe_pg/postgres/query_transformers.py:258 | A DATE_FORMAT match is replaced by `TO_CHAR(` + the stripped first argument + `, 'YYYY-MM-DD')`. |
| Rewriters.ConvertDateFormat | frappe_pg/postgres/query_transformers.py:239-258 | The text between DATE_FORMAT matches is kept and each match is replaced by its `TO_CHAR` call. A query with no match is unchanged. |
| Rewriters.DateFormatMatchesAreCalls | frappe_pg/utils/regex_patterns.py:59-62 | Every match the rewriter replaces is a full DATE_FORMAT call of the pattern's shape. |
| Pipeline.ApplyAll | frappe_pg/postgres/query_transformers.py:285-294 | Anything other than a string is returned unchanged. Text goes through hint removal, then IF, then IFNULL, then DATE_FORMAT. |
| Pipeline.ApplyAllReporting | frappe_pg/postgres/query_transformers.py:296-320 | The residual-`IF(` diagnostic never changes the result. It is raised exactly when the query is text and the upper-cased translated text contains `IF(`. |
| Pipeline.NothingToTranslate | frappe_pg/patches/postgres_fix.py:243-256 | A query that none of the patterns matches comes out of the pipeline unchanged. |
| DbErrors.IsAbortMeans | frappe_pg/postgres/database_patches.py:80-85 | An error counts as an abort exactly when its lower-cased message contains `transaction is aborted` or `infailedsqltransaction`, or its type is `InFailedSqlTransaction`. |
| DbErrors.AbortByClassName | frappe_pg/postgres/database_patches.py:78-85 | An error of another type whose message is `InFailedSqlTransaction` in any mixture of upper and lower case (its lower-cased form is `infailedsqltransaction`) counts as an abort. |
| DbErrors.ShortMessageIsNotAbort | frappe_pg/postgres/database_patches.py:80-85 | An error of another type whose message is shorter than both phrases is not an abort. |
| Executor.LoopSpec | frappe_pg/patches/postgres_fix.py:311-381 | From any reachable point, the loop keeps the `patched_sql` guarantee stated for ExecuteSpec, in both directions: what happened before the last attempt, and why the loop stopped after it. |
| Executor.ExecuteSpec | frappe_pg/postgres/database_patches.py:56-132 | One to three attempts are made. Each attempt prepares the same translation with `modify_query` inside the `try` and hands the database the prepared text, or nothing when the preparation raised. Every attempt but the last is an abort followed by a successful rollback. Returned rows come from the last attempt, with one rollback fewer than attempts. A raised error is the last attempt's own error: the database's or the preparation's, never a rollback's. The code after the loop is never reached. Conversely, an abort in the last attempt is always rolled back, and before the third attempt the loop stops after it only when that rollback raised; any other error is not rolled back. |
| Executor.PatchedSqlSpec | frappe_pg/patches/postgres_fix.py:304-318 | The query is translated once, before the loop, and every attempt passes that same translation through `modify_query`. |
| Executor.PrepareFailureFirst | frappe_pg/patches/postgres_fix.py:311-328 | An error raised while preparing the query (inside the `try`) goes through the same handler as a database error: nothing is handed to the database, and an error that is not an abort is re-raised from the first attempt with no rollback. |
| Executor.TwoAbortsThenSuccess | frappe_pg/patches/postgres_fix.py:311-349 | Two aborts followed by rows return those rows after 3 attempts and 2 rollbacks. |
| Executor.AlwaysAborts | frappe_pg/postgres/database_patches.py:62-132 | With a database that always aborts, there are exactly 3 attempts and 3 rollbacks, and the third error is raised. |
| Executor.OtherErrorFirst | frappe_pg/postgres/database_patches.py:87-128 | A first error that is not an abort is re-raised unchanged after 1 attempt and no rollback, whatever the reports log. |
| Executor.RollbackFailureEndsCall | frappe_pg/postgres/database_patches.py:90-105 | A rollback that raises stops the retries. The original abort error is raised, not the rollback's error, and the failure is logged. |
| Executor.WrappedRollbackNeverFails | frappe_pg/postgres/database_patches.py:172-177 | While the installed rollback is the swallowing wrapper, the "rollback failed" log entry is never written. |
| Executor.NoRollbackFailure | frappe_pg/postgres/database_patches.py:90-105 | With rollbacks that always return, no run of the loop logs a failed rollback. |
| PatchState.Apply | frappe_pg/postgres/database_patches.py:184-222 | With the flag set, nothing changes. Otherwise the class's current methods are saved, the copy's wrappers are installed, and the flag is set. The other copy's state is untouched either way. |
| PatchState.ApplyIdempotent | frappe_pg/patches/postgres_fix.py:527-547 | A second install changes nothing. |
| PatchState.BothCopiesInstall | frappe_pg/patches/postgres_fix.py:538-545 | When both copies install, the second one saves the first one's wrappers as its originals. The first copy's status then reports its flag set but none of its wrappers in place. |
| PatchState.CheckStatus | frappe_pg/postgres/database_patches.py:288-293 | The status `database_patches.py` reports (for the `postgres_fix.py` copy, the same test on its own flag and wrappers, which that file does not define). Every field is false while the flag is unset. With the flag set, each method field is true exactly when the slot holds the copy's own wrapper. |
| PatchState.StatusAfterFirstApply | frappe_pg/postgres/database_patches.py:218-222 | Right after a copy's first install, every status field is true. |
| PatchState.PatchedCommit | frappe_pg/postgres/database_patches.py:148-155 | The commit wrapper returns the saved commit's result, or re-raises its error unchanged after logging that error once. It logs nothing on success. |
| PatchState.PatchedRollback | frappe_pg/patches/postgres_fix.py:398-407 | The rollback wrapper always returns. It returns the saved rollback's result, or None when that raised. |
| Trends.DimensionStep | frappe_pg/patches/erpnext_trends_fix.py:35-65 | The old group_by is a prefix of the new one. For Item, `, t2.item_name` is appended exactly when the group_by is `t2.item_code`. For Customer, Supplier and Project, the dimension's tail is appended exactly when the select mentions the guard name and the group_by does not. The Quotation guard tests `party_name`. Other dimensions are left alone. |
| Trends.CurrencyStep | frappe_pg/patches/erpnext_trends_fix.py:70-72 | The currency tail is appended exactly when the select mentions `default_currency` and the group_by does not. Afterwards the group_by mentions it whenever the select does. |
| Trends.AdjustGroupByLegacy | frappe_pg/patches/erpnext_trends_fix.py:33-72 | The model's staged form of the adjuster (dimension step, then currency step), used for this copy: the old group_by is a prefix of the new one, and the new one mentions `default_currency` whenever the select does. |
| Trends.PatchedColumnsQuery | frappe_pg/patches/v1/fix_erpnext_trends.py:78-125 | Only `based_on_group_by` is written, and every other entry is kept. The old group_by (empty when absent) is a prefix of the new one. The new one mentions `default_currency` whenever the select does. |
| Trends.CopiesAgree | frappe_pg/patches/erpnext_trends_fix.py:23-77 | The staged form computes the same group_by as the conditional both copies write out, for every input. |
| Trends.DimensionColumnsCovered | frappe_pg/patches/v1/fix_erpnext_trends.py:84-113 | After the dimension step, an Item `t2.item_code` has become `t2.item_code, t2.item_name`. For non-Quotation Customer, Supplier and Project, the group_by mentions the name column whenever the select does. |
| Trends.AdjustIdempotent | frappe_pg/patches/v1/fix_erpnext_trends.py:84-120 | Outside Customer/Quotation, adjusting an adjusted group_by again changes nothing. |
| Trends.QuotationRepeats | frappe_pg/patches/v1/fix_erpnext_trends.py:93-96 | For a Customer/Quotation whose select mentions `party_name`, the tail appended does not contain `party_name`, so adjusting the result again appends `, t1.customer_name, t1.territory` a second time. |
| Trends.CurrencySettled | frappe_pg/patches/v1/fix_erpnext_trends.py:118-120 | A second currency step changes nothing. |
| Trends.MentionsMeans | frappe_pg/patches/v1/fix_erpnext_trends.py:94-119 | The scan used for Python's `in` holds exactly when the name occurs somewhere in the text. |
| Text.Strip | frappe_pg/postgres/query_transformers.py:176-178 | `strip()` removes exactly the leading and trailing whitespace runs. What remains is a slice with whitespace only outside it, and it neither starts nor ends with whitespace. |
| Text.ReplaceAllAbsent | frappe_pg/postgres/query_transformers.py:187-188 | `str.replace` of a pattern absent from the text returns it unchanged. |
| Text.ReplaceAllConcat | frappe_pg/postgres/query_transformers.py:187-188 | `str.replace` distributes over a concatenation when no occurrence straddles the join. |
| Text.ContainsScan | frappe_pg/postgres/database_patches.py:82-83 | The left-to-right scan used for `in` agrees with "occurs at some position". |
| DocExamples.SplitByCommaExample | frappe_pg/postgres/query_transformers.py:36-38 | `split_by_comma("a > 0, SUM(x, y), 'hello, world'")` is `['a > 0', ' SUM(x, y)', " 'hello, world'"]`: neither the comma inside the nested call nor the one inside the quotes splits. |
| DocExamples.BareExample | frappe_pg/postgres/query_transformers.py:100-101 | `convert_if_to_case("SELECT IF(a > 0, 1, 0)")` is `"SELECT CASE WHEN a > 0 THEN 1 ELSE 0 END"`. |
| DocExamples.NestedExample | frappe_pg/postgres/query_transformers.py:103-104 | `convert_if_to_case("SELECT SUM(IF(status='Active', amount, 0))")` is `"SELECT SUM(CASE WHEN status='Active' THEN amount ELSE 0 END)"`. |
| DocExamples.NestedConverts | frappe_pg/postgres/query_transformers.py:103-104 | The nested example converts whatever follows its closing parenthesis, as long as every `IF` there begins a longer word such as `IFNULL`: that text is kept after the CASE expression. |
| RewriterExamples.OnlyMatch | frappe_pg/utils/regex_patterns.py:96-110 | A pattern that matches at one position, up to one end, and nowhere before it or from that end on, is reported by `finditer` with exactly that one match. |
| RewriterExamples.NoMatch | frappe_pg/utils/regex_patterns.py:96-110 | A pattern that matches at no position is reported with no match. |
| RewriterExamples.StitchOne | frappe_pg/postgres/query_transformers.py:213-258 | `sub` over a single match keeps the text before and after it and puts the replacement in its place. |
| RewriterExamples.CallAfterFront | frappe_pg/utils/regex_patterns.py:45-55 | A call name right after text that does not end in a word character, followed directly by `(`, matches `\bNAME\s*\(` up to and including the `(`. |
| RewriterExamples.NoHintInFront | frappe_pg/utils/regex_patterns.py:18-35 | No index-hint match starts in a stretch in which every whitespace character is followed by something that is neither whitespace nor the start of the keyword. |
| RewriterExamples.HintAfterFront | frappe_pg/utils/regex_patterns.py:18-35 | ` KW INDEX (list)` at the end of a text, with a non-empty list free of `)`, is a hint match from the space in front of the keyword to the end. |
| RewriterExamples.IfNullOnly | frappe_pg/postgres/query_transformers.py:219-236 | A query whose only `I` is the one of an `IFNULL(` call after a non-word character comes back with `IFNULL(` replaced by `COALESCE(` and the text on both sides unchanged. |
| RewriterExamples.DateOnly | frappe_pg/postgres/query_transformers.py:239-258 | A query ending in one `DATE_FORMAT(arg, '%Y-%m-%d')` call, with no `D` in front of it and a comma-free argument that neither starts nor ends with whitespace, comes back with that call replaced by `TO_CHAR(arg, 'YYYY-MM-DD')` and the front unchanged. |
| RewriterExamples.HintOnly | frappe_pg/postgres/query_transformers.py:213-215 | A hint pass on a query ending in one hint of its keyword, with no other place a hint could start, returns the text in front of the hint. |
| RewriterExamples.HintNone | frappe_pg/postgres/query_transformers.py:213-215 | A hint pass on a query with no place a hint of its keyword could start returns the query unchanged. |
| RewriterExamples.IfNullExample | frappe_pg/postgres/query_transformers.py:233-234 | `convert_ifnull_to_coalesce("SELECT IFNULL(amount, 0)")` is `"SELECT COALESCE(amount, 0)"`. |
| RewriterExamples.DateExample | frappe_pg/postgres/query_transformers.py:253-254 | `convert_date_format("SELECT DATE_FORMAT(posting_date, '%Y-%m-%d')")` is `"SELECT TO_CHAR(posting_date, 'YYYY-MM-DD')"`. |
| RewriterExamples.ForceHintExample | frappe_pg/postgres/query_transformers.py:207-208 | `remove_index_hints("SELECT * FROM tab FORCE INDEX (idx_name)")` is `"SELECT * FROM tab"`. |
| RewriterExamples.UseHintExample | frappe_pg/postgres/query_transformers.py:210-211 | `remove_index_hints("FROM tabGL Entry USE INDEX (posting_date)")` is `"FROM tabGL Entry"`. |
| RewriterExamples.PipelineExample | frappe_pg/patches/postgres_fix.py:243-256 | `apply_all_query_transformations("SELECT SUM(IF(status='Active', amount, 0)) FROM t FORCE INDEX (idx1) WHERE IFNULL(x,0)>0")` is `"SELECT SUM(CASE WHEN status='Active' THEN amount ELSE 0 END) FROM t WHERE COALESCE(x,0)>0"`: the hint is removed, the IF call becomes CASE, IFNULL becomes COALESCE, and the DATE_FORMAT pass changes nothing. |

## Left out

- Unicode: character classes, `isalnum`, `isspace`, `upper`, `lower` and `re.IGNORECASE` are modelled on ASCII only.
- `modify_query`, `modify_values`, `Database.sql` and the installed `rollback` are parameters of the executor (`Env`). The preparation (`modify_query` and `modify_values`) is a function of the query, so it gives the same text or the same error on every attempt. The `k`-th database call and the `k`-th rollback are oracles. Query values and extra arguments are not modelled.
- `frappe.log_error` is modelled as a list of log entries (which entry, not its text); the message strings and their truncation are left out. All `print` output, including the residual-`IF(` report's text, is left out; only the boolean that triggers it is kept.
- Python objects other than strings handed to the pipeline are modelled as opaque values (`Query.NotText`).
- Real method identity is modelled by naming routines (`Builtin`, `Wrapper(copy, role)`); `PostgresDatabase.sql == patched_sql` becomes a comparison of names.
- The trends dict (`based_on_details`) is modelled as a map from strings to strings; entries of other types are not modelled. ERPNext's original `based_wise_columns_query` is an input.
- Executor.LoopSpec: `frappe.log_error` is assumed to return. In the source, the "Rolled Back" entry is written inside the same `try` as `self.rollback()` (database_patches.py:91-100), so a raise from it would be handled as a failed rollback and end the retries; and a raise from the report calls (database_patches.py:108-125) would replace the error being re-raised. Neither path is modelled, because logging is modelled as an append to a list.
- Executor.ExecuteSpec: the same assumption. "Before the third attempt the loop stops after an abort only when the rollback raised" and "a raised error is the last attempt's own error" hold only while `frappe.log_error` returns.
- PatchState.PatchedCommit: the same assumption. "Re-raises its error unchanged" holds only while the `frappe.log_error` call at database_patches.py:151-154 returns; a raise there would replace the commit's error.
- Executor.WrappedRollbackNeverFails: the rollback in the retry path is `self.rollback()`, whatever is installed in the class. The lemma covers the case where that is this module's wrapper; the model does not follow the class's slot into the executor.
- `create_missing_functions`, `db_functions.py` and `install_db_functions.py`: DDL run against a live database, whose meaning lives in PostgreSQL.
- `api.py`, `api/patches.py`, `debug_runtime.py`: HTTP endpoints and runtime inspection, not part of this model. The flag reset in `api.py` (after which `apply_postgres_fixes` would save the wrappers as originals) is therefore not modelled.
- Hook entry points and wiring (`on_session_creation`, `after_migrate`, `boot.py`, `__init__.py`, `apply_postgres_compatibility.py`, the `apply_trends_patch` wrappers) and the import-time install with its `except` that only prints.
- `NOW_PATTERN`, `CONCAT_PATTERN` and `LIMIT_OFFSET_PATTERN`: no transformer uses them.
- Concurrency of installation and any race on the flags.
