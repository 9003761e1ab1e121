# Process-spreadsheet reconciliation engine, in Dafny

The web application reconciles two spreadsheets of legal processes: a
reference ("old") sheet and a current ("new") sheet. Pressing *process* runs
four steps on the current rows:

- it infers the column that holds the process number;
- it drops rows whose process number repeats an earlier one;
- it marks each remaining row `Pendente` = "Sim" or "Não", depending on
  whether the reference sheet knows its number, and carries over the
  reference sheet's `Responsável`;
- it assigns a responsible party to every row still without one, by
  whole-word keyword search in the row's `Texto L=100` field.

Three counters are reported at the end. This project models that engine as
pure functions over immutable data and proves what each step promises.

Modules, one per file:

- `Values` (`values.dfy`): the data model.
  - A cell is `Str | Num | Bool | Missing`, with JavaScript truthiness.
  - A row is an ordered list of `(column, cell)` pairs.
  - `Get` is `row[col]`. `Set` is the object spread `{...row, [col]: v}`,
    which overwrites in place or appends.
  - A dataset is a sequence of rows. Key sets and key distinctness are
    defined here.
- `Text` (`text.dfy`): character classes and `normalizeText`.
  - `\w` and `\s` follow JavaScript regular expressions without the `u` flag.
  - Canonical decomposition is modelled by what survives the `[^\w\s]`
    deletion.
  - ASCII lowering.
- `KeyColumn` (`key_column.dfy`): `findProcessNumberColumn`.
- `Dedup` (`dedup.dfy`): `removeDuplicates`, and the positions of first
  occurrences as its reference definition.
- `Reconcile` (`reconcile.dfy`): `compareAndAddPending`.
  - The key-to-row `Map` is built as a fold in which the last row wins.
  - `LastIndex` is the reference definition it is measured against.
- `WordMatch` (`word_match.dfy`): the `\b<kw>\b` test. It has an explicit
  word-boundary predicate and a leftmost-match search.
- `Classify` (`classify.dfy`): `assignResponsible`. The dictionary of parties
  is a parameter: a sequence of (party, keywords) pairs in iteration order.
- `Pipeline` (`pipeline.dfy`): the `processData` core.
  - Its two abort paths become the `Error` values `MissingInput` and
    `NoKeyColumn`.
  - A run that goes through yields the final rows and the three counters.

Three details of the code are easy to miss, and the model follows the code:

- Key inference also yields nothing when the first row has no columns at
  all, because `Object.keys(firstRow)[0]` is `undefined`. The run then aborts
  with `NoKeyColumn`.
- The run also aborts when the inferred column name is the empty string,
  because the code tests `!processNumberColumn`.
- "Has a responsible party" means a truthy `Responsável` cell, not merely a
  present one. `0`, `false` and `""` count as absent, at both
  src/App.jsx:196 and src/App.jsx:210.

## Model

| member | source | states |
|---|---|---|
| Values.Truthy | src/App.jsx:196 | JavaScript truthiness of a cell: it is falsy exactly when it is `""`, `0`, `false` or `undefined`, as the tests `oldRow['Responsável'] ?` (line 196), `row["Responsável"] &&` (line 210) and `if (textL100)` (line 215) use it. |
| Values.Get | src/App.jsx:189 | `row[col]`: a row without a `col` binding reads `undefined`. |
| Values.GetReadsFirstBinding | src/App.jsx:189 | `row[col]` reads the cell bound to `col` (the first binding, should a row list a column twice). |
| Values.Set | src/App.jsx:193-197 | The object spread: after `{...row, [col]: v}` the row reads `v` at `col`. Every other column reads as before. The column order is unchanged when `col` was present; otherwise `col` is appended last. |
| KeyColumn.IsKeyCandidate | src/App.jsx:163-167 | The filter test on a column name (lowercased, it contains "processo", "number" or "numero"). Every name that passes is at least six characters long. |
| KeyColumn.Candidates | src/App.jsx:163-167 | `Object.keys(firstRow).filter(...)`: the result lists only candidate names among the columns, and every candidate column appears in it. |
| KeyColumn.FindKeyColumn | src/App.jsx:160-169 | No column exactly when the dataset is empty or its first row has no columns. Otherwise the result is the first column name of row 0 that reads as a process number (lowercased, it contains "processo", "number" or "numero"), or row 0's first column when none does. |
| KeyColumn.FirstCandidateIndex | src/App.jsx:162-167 | The index of the first candidate column: every column before it is not a candidate, and it is one unless it is past the end. |
| KeyColumn.CandidatesStartAtFirst | src/App.jsx:162-168 | The filtered candidate list is non-empty exactly when some column is a candidate, and its head is the first candidate column. |
| KeyColumn.FindKeyColumnPrefersCandidates | src/App.jsx:160-169 | The inferred column is one of row 0's columns. Whenever some column reads as a process number, the inferred column is such a column. |
| KeyColumn.FirstColumnCandidateIsChosen | src/App.jsx:162-168 | A first column named "Processo" is chosen as the key column. |
| Dedup.Scan | src/App.jsx:173-181 | The `seen`-set filter run from a given seen set: it keeps only rows of its input, never two rows with the same key value, never a row whose key value was already seen, and never grows the dataset. |
| Dedup.RemoveDuplicates | src/App.jsx:172-182 | The filter never grows the dataset. Its output repeats no key value, and it keeps every key value of the input. |
| Dedup.RemoveDuplicatesKeepsFirstOccurrences | src/App.jsx:172-182 | The output is the order-preserving subsequence of first occurrences. Output row k is input row `FirstOccurrences[k]`, those positions increase, and a position is listed exactly when its row is the first with its key value. |
| Dedup.SurvivorsAreFirstOccurrences | src/App.jsx:173-181 | The seen-set filter selects exactly the first occurrences, in order. |
| Dedup.ScanSelectsFirst | src/App.jsx:173-181 | Resuming the filter at row j, with the seen set holding the keys of rows before j, selects exactly the first occurrences from j on. |
| Dedup.FirstIffUnseen | src/App.jsx:175-179 | A row is kept exactly when its key value was not seen in an earlier row. |
| Dedup.FirstOccurrenceExists | src/App.jsx:172-182 | Every row's key value has a first occurrence at or before that row. |
| Dedup.SurvivorsCoverKeys | src/App.jsx:172-182 | A selection of first occurrences repeats no key value and loses none. |
| Dedup.ScanKeepsDistinct | src/App.jsx:173-181 | A dataset with distinct key values, none of them already seen, passes the filter unchanged. |
| Dedup.RemoveDuplicatesIdempotent | src/App.jsx:172-182 | Removing duplicates twice gives the same result as removing them once. |
| Dedup.RemoveDuplicatesFixedPoints | src/App.jsx:172-182 | A dataset is left unchanged exactly when its key values are already distinct. |
| Dedup.DropsMiddleDuplicate | src/App.jsx:172-182 | Rows with keys k1, k1, k2 lose the middle row, and the other two keep their order. |
| Reconcile.BuildIndex | src/App.jsx:186 | The key-to-row map's keys are exactly the reference dataset's key values. |
| Reconcile.LastIndex | src/App.jsx:186 | The reference definition for the map: the position of the last reference row with a given key value, or -1 when no row has it. |
| Reconcile.IndexKeepsLastRow | src/App.jsx:186 | The map holds a key value exactly when some reference row has it, and it maps that key to the last such row. |
| Reconcile.CarriedResponsible | src/App.jsx:196 | The `Responsável` value a row leaves reconciliation with is truthy or `""`. A truthy value comes from the row itself or from the indexed reference row. It is falsy exactly when neither the indexed row nor the row has a truthy responsible party, so a row that had one keeps one. |
| Reconcile.Annotate | src/App.jsx:188-198 | One step of the `map` callback: `Pendente` is "Sim" exactly when the index holds the row's key value, and "Não" otherwise. `Responsável` is the carried value. Every other column reads as before, and `Pendente` then `Responsável` are appended when they were missing. |
| Reconcile.CompareAndAddPending | src/App.jsx:185-199 | Same length and order as the input; only `Pendente` and `Responsável` are set (every other column reads as before, and new columns are appended in that order). `Pendente` is "Sim" exactly when some reference row has the row's key value, and "Não" otherwise. `Responsável` is the last matching reference row's value when that is truthy; otherwise the row's own value when truthy; otherwise "". |
| Text.NormalizeString | src/App.jsx:202-205 | A normalised text contains only lowercase ASCII letters, digits, `_` and white space (never the quads U+2000 and U+2001, which decompose to U+2002 and U+2003). |
| Text.NormalizeText | src/App.jsx:202-205 | A cell that is not a string normalises to "". Any output contains only the normal characters. |
| Text.IsWordChar | src/App.jsx:204 | `\w` without the `u` flag: no character outside ASCII is a word character, even under the `i` flag. |
| Text.IsSpace | src/App.jsx:204 | `\s`: the ECMAScript white-space and line-terminator characters, none of which is a word character. |
| Text.Surviving | src/App.jsx:204 | What decomposition and the `[^\w\s]` deletion leave of one character: at most one character, and it is a word character or white space other than the two quads. |
| Text.BaseLetter | src/App.jsx:204 | A character outside `\w` and `\s` leaves at most its base letter, an ASCII letter (never a digit or `_`). |
| Text.Strip | src/App.jsx:204 | `normalize('NFD').replace(/[^\w\s]/gi, '')`: the result is no longer than the input and holds only `\w` and `\s` characters, and no quad. |
| Text.NormalCharIsFixed | src/App.jsx:204 | A normal character survives decomposition and deletion as itself, and lowering leaves it unchanged. |
| Text.NormalStringIsFixed | src/App.jsx:202-205 | Text already in normal form is its own normalisation. |
| Text.StripNormalIsIdentity | src/App.jsx:204 | The deletion leaves text in normal form unchanged. |
| Text.NormalizeIdempotent | src/App.jsx:202-205 | Normalising twice gives the same result as normalising once. |
| Text.NormalizeIgnoresCase | src/App.jsx:202-205 | Lowering a text before normalising it changes nothing, so texts that differ only in ASCII case normalise to the same text. |
| Text.SurvivingIgnoresCase | src/App.jsx:204 | For one character, lowering before or after decomposition gives the same result. |
| Text.AsciiSurvives | src/App.jsx:204 | ASCII word characters pass through decomposition and deletion unchanged. |
| Text.NormalizeConcat | src/App.jsx:204 | Normalisation works character by character: the normalisation of a concatenation is the concatenation of the normalisations. |
| Text.StripConcat | src/App.jsx:204 | Decomposition followed by deletion distributes over concatenation. |
| Text.NormalizeChar | src/App.jsx:204 | A single character normalises to what survives of it, lowercased. |
| Text.NormalizePlainText | src/App.jsx:204 | Text made of ASCII word characters and non-quad white space is only lowercased: it normalises to the text that is its lowercase form character by character. |
| Text.PunctuationVanishes | src/App.jsx:204 | Punctuation below U+00C0 that is outside `\w` and `\s` is deleted whole. |
| Text.ExampleNormalizes | src/App.jsx:202-205 | The plain texts of the worked examples normalise to their known lowercase forms: "S" to "s", "o Paulo" to "o paulo", "Resultado Final" to "resultado final", and "sul", "norte" and "caso norte" to themselves. |
| Text.NormalizesPortuguese | src/App.jsx:202-205 | "São Paulo!" normalises to "sao paulo". |
| WordMatch.IsBoundary | src/App.jsx:223 | `\b` at a position: exactly one of the two characters around it is a word character. A boundary lies between the start and the end of the text, both included. |
| WordMatch.MatchesAt | src/App.jsx:223 | `\b<kw>\b` matching at position `i`: the match lies inside the text. A keyword that starts with a word character is not preceded by one, and one that starts with another character is. The same holds at the end. |
| WordMatch.SearchFrom | src/App.jsx:223-224 | The regular-expression scan returns the leftmost position at or after `from` where the keyword occurs between two word boundaries, and none when no such position exists. |
| WordMatch.WholeWordTest | src/App.jsx:223-224 | `test` succeeds exactly when some position starts an occurrence of the keyword that has a word boundary on both sides. |
| WordMatch.WholeWordMeansDelimited | src/App.jsx:223-224 | For a keyword that starts and ends with a word character, a match is an occurrence with no word character touching it on either side. |
| WordMatch.WordStartsAtBoundary | src/App.jsx:223 | Every word character has a word boundary at or before it. |
| WordMatch.EmptyKeywordMatchesAnyWord | src/App.jsx:222-224 | An empty normalised keyword (`\b\b`) matches exactly the texts that contain a word character. |
| WordMatch.SulNotInResultado | src/App.jsx:223-224 | "sul" is not matched inside "resultado final". |
| WordMatch.CasoNorteMatches | src/App.jsx:223-224 | "caso norte" matches "norte" as a whole word and does not match "sul". |
| Classify.AnyKeywordHits | src/App.jsx:219-227 | The inner loop succeeds exactly when some keyword of the list, normalised, matches the text as a whole word. |
| Classify.FirstParty | src/App.jsx:217-228 | The outer loop finds no party exactly when no keyword of any party hits. Otherwise it returns the party of the first hit, first in dictionary order and then in keyword order. |
| Classify.FirstPartyHitsFirst | src/App.jsx:217-228 | When the first party has a matching keyword, every first hit belongs to that party. |
| Classify.ShiftHits | src/App.jsx:217-228 | When the first party has no matching keyword, the hits and first hits past it are those of the rest of the dictionary. |
| Classify.ClassifyRow | src/App.jsx:209-230 | A row with a truthy `Responsável` is returned unchanged. A row with a falsy `Texto L=100`, or with no keyword hit, is returned unchanged. Otherwise the row gets `Responsável` set to the party of the first hit. |
| Classify.AssignResponsible | src/App.jsx:208-232 | Same length and order; each row is classified on its own. |
| Classify.ClassifyRowKeepsOtherColumns | src/App.jsx:209-230 | Classification changes no column but `Responsável`, and changes that one only when it was falsy. Columns are unchanged, or `Responsável` is appended. |
| Classify.SilentPartyIsIrrelevant | src/App.jsx:217-228 | A party none of whose keywords matches can be inserted anywhere in the dictionary, or removed from it, without changing the outcome. |
| Classify.OnlyKeyword | src/App.jsx:217-228 | With one party holding one keyword, nothing hits exactly when that keyword does not match. |
| Classify.ResultadoIsNotSul | src/App.jsx:209-230 | A row whose text is "Resultado Final", with an empty `Responsável`, is left unchanged by a dictionary whose only keyword is "sul". |
| Pipeline.CountPending | src/App.jsx:147 | The pending counter is the number of positions whose row has `Pendente` = "Sim". So it is at most the number of rows; it is 0 exactly when no row has "Sim"; and it equals the number of rows exactly when every row has it. |
| Pipeline.PendingCountsKnownKeys | src/App.jsx:138-147 | When a row is pending exactly when the reference dataset has its key value, the pending counter is the number of rows whose key value the reference dataset has. |
| Pipeline.ProcessData | src/App.jsx:110-148 | The run aborts with `MissingInput` exactly when either dataset is empty. It aborts with `NoKeyColumn` exactly when both datasets are non-empty and no key column is inferred, or the inferred name is "". A run that goes through reports duplicatesRemoved + processed = the number of current rows, processed = the number of output rows, pending = the count of "Sim" rows, and pending ≤ processed. |
| Pipeline.ProcessedRowsFollowFirstOccurrences | src/App.jsx:128-141 | A run that goes through yields one row per first occurrence of a key value, in input order. Each output row agrees with its source row on every column but `Pendente` and `Responsável`, and is pending exactly when the reference dataset has its key value. A truthy responsible party on the last reference row with that key wins over classification. |
| Pipeline.SelectedRowsKeepColumns | src/App.jsx:138-141 | After reconciliation and classification, every column of the selected rows except `Pendente` and `Responsável` reads as in the source row. |
| Pipeline.SelectedRowsReconciled | src/App.jsx:138-141 | After classification, `Pendente` still reflects the reference dataset, and a carried truthy `Responsável` is kept. |
| Pipeline.ProcessedKeysAreUnique | src/App.jsx:128-147 | When the key column is not one of the two columns the run writes: the output repeats no key value, keeps every key value of the current dataset, and marks a row pending exactly when the reference dataset has its key value. |
| Pipeline.TwoProcessesRun | src/App.jsx:110-148 | The worked example. The reference sheet has process 100 assigned to Ana. The current sheet has process 100 twice and process 200 once, and "sul"→Ana, "norte"→Bruno. The run reports one duplicate removed, two rows processed and one pending. Process 100 is pending and keeps Ana; process 200 is not pending and is classified as Bruno's. |

## Left out

- Reading the spreadsheets (`readExcelFile` and the two upload handlers,
  src/App.jsx:51-107). They are FileReader/XLSX parsing and asynchronous
  I/O; the model starts from the parsed rows.
- Writing the result (`downloadProcessedFile`, src/App.jsx:233-246). It is
  an XLSX export with a clock-based file name.
- The result table (`getTableColumns`) and all rendering. This includes the
  display-only truncation of long texts.
- The step indicator, the loading flag and `resetProcess`. These are
  presentation state.
- Toast messages and `console.error`. The two aborts become `Error` values
  instead.
- The `try`/`catch` around the run. No modelled operation can fail, so the
  catch branch is unreachable in the model.
- The contents of `responsibleMap`. The module is not part of this model, so
  the dictionary is a parameter. The `for...in` order, where integer-like
  keys come first, is taken to be the given sequence order.
- `Object.keys` ordering of integer-like column names. A row's column order
  is taken as given.
- Text.NormalizeText: canonical decomposition is modelled only for the
  precomposed letters of the Latin-1 Supplement and Latin Extended-A blocks,
  for KELVIN SIGN, for ANGSTROM SIGN and for the two quads. A precomposed
  letter of another block whose base letter is ASCII (Latin Extended-B or
  Latin Extended Additional, for example) is deleted whole here instead of
  leaving its base letter.
- KeyColumn.IsKeyCandidate: column names are lowercased in ASCII only. For
  the containment test this agrees with full Unicode `toLowerCase`. No
  non-ASCII character lowercases to any letter of "processo", "number" or
  "numero", and none of their ASCII letters lowercases to anything else.
- Numeric cells are integers. Floating-point cells, `NaN` and `-0` are not
  modelled; datatype equality stands in for SameValueZero.
- Pipeline.ProcessedKeysAreUnique: requires that the key column is neither
  `Pendente` nor `Responsável`. When the fallback picks one of those, the run
  overwrites the key column itself, and uniqueness of the output keys does
  not hold.
