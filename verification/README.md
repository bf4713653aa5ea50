# Discrete HMM: a Dafny model

This project models the discrete parts of a small C++ hidden Markov model
engine (`DiscreteHmm`) and proves properties of them:

- **Log-space scores** (`LogProbs`, logprob.dfy). A probability is its natural
  log, and probability zero is `-INF`. The model covers the `-INF` rules the
  engine relies on (absorption under `+`, ordering) and the well-formedness
  of log-probabilities.
- **Containers** (`Matrices`, matrix.dfy; `ColumnMatrices`, columnmatrix.dfy).
  - `Matrix<T>` is a vector of rows. Its `Resize` never shrinks. `Reset`,
    `Clear`, `GetSize` and cell assignment are modelled.
  - `ColumnMatrix<T>` is the same storage indexed `[col][row]`.
- **Interning** (`Flyweights`, flyweight.dfy). `Flyweight<T>` gives labels dense
  integer keys through a forward and a reverse table. The model repairs
  `AddItem` and also models it as written.
- **The labelled dataset** (`Datasets`, dataset.dfy). `DiscreteHmmDataset::Build`
  is modelled over the file's lines. Each line is `<symbol>\t<state>`, both
  labels are interned, and one `(stateId, symbolId)` pair is appended per
  accepted line.
- **Text handling** (`Text`, text.dfy).
  - `_split`, as a specification (`Split`) and as the two loops of the source
    (`SplitLoop`).
  - The `,`/`;`/newline joins the writer produces.
  - `find`.
- **The model file** (`ModelFile`, modelfile.dfy).
  - `ParseModelFile` as a line dispatcher over `X=`, `Z=`, `A=`, `B=` and
    `Pi=`. Numbers are kept as their text tokens.
  - The `A=`/`B=` row loop with its `Resize`/`Reset`.
  - `_validate` and the `WriteModel` layout.
  - The write-then-read round trip.
- **Viterbi decoding** (`Viterbi`, viterbi.dfy). Max-plus dynamic programming
  with the first-index tie-break, the `-1` start pointer and backtracking. The
  model proves that the decoded path scores exactly the returned value and that
  no state path scores more. The code's departures from its recurrence are
  modelled as written, each next to its repair.
- **Supervised training** (`Training`, training.dfy). `Train` counts state
  transitions and emissions over adjacent pairs of the training sequence. The
  model stops at the integer counts, before the log normalisation.

Where the code's behaviour is easy to misread, the model follows the code as
written:

- The dataset line is `<symbol>\t<state>` (DiscreteHmmDataset.cpp:49-50 and
  73-74), not label first.
- An out-of-range Viterbi index returns the value `1.0` (Hmm.cpp:487-490); it
  does not raise an error.
- `ParseModelFile` keeps whatever it read and reports `_validate`'s verdict
  beside it (Hmm.cpp:113-120); it does not fail the load.

Undefined behaviour in the source (an out-of-range vector access) is `None`
wherever the model has a result to return. It is a precondition where the
source reads without a check:

- `Matrices.Resize` (`|m| > 0 || rows > 0`) and `ColumnMatrices.Resize`
  (`|m| > 0 || cols > 0`): resizing an empty container to zero rows or
  columns reads the missing row or column 0 (matrix.cpp:82,
  columnmatrix.cpp:72).
- `Viterbi.Decode`'s model shape for index t: at least one state, Pi and B
  covering the states, observations 0..t being symbol ids, and A covering
  the states when t >= 1. Later observations are never read and may be
  anything.
- `Train`'s first `Resize`.

## Model

| member | source | states |
|---|---|---|
| LogProbs.NegInfRules | Hmm.hpp:26-29 | `-INF + a = -INF` for finite `a`, `-INF + -INF = -INF`, `-INF < a` for finite `a`, and `-INF > a` holds for no `a` |
| LogProbs.PlusAlgebra | Hmm.hpp:19-31 | log-space product is commutative and associative with unit `log 1 = 0`, so the order of a path's factors is irrelevant |
| LogProbs.OrderFacts | Hmm.cpp:516 | the comparison the argmax loops use is a total preorder, and `<` is exactly its strict part |
| LogProbs.PlusMonotone | Hmm.cpp:515-519 | adding the same transition score preserves `<=`, the max-plus monotonicity the Viterbi optimality rests on |
| LogProbs.PlusWellFormed | Hmm.hpp:19-23 | the product of two log-probabilities (`-INF` or at most 0) is one, and is no larger than either factor |
| LogProbs.SumNegInf | Hmm.hpp:31 | a product of factors is `-INF` (probability zero) if and only if one of its factors is |
| LogProbs.SumWellFormed | Hmm.hpp:19-23 | a product of log-probabilities is a log-probability no larger than any factor |
| Matrices.GetSize | matrix.cpp:19-40 | `GetSize` reports the same pair as `NumRows`/`NumCols`, and no rows means no columns |
| Matrices.ResizeRow | matrix.cpp:84 | `vector::resize(n)` gives exactly `n` cells, keeping the old cells and value-initialising the new ones |
| Matrices.Resize | matrix.cpp:76-88 | the row count becomes max(old, rows) and never shrinks; every row is resized to `cols` (old cells kept, new ones filled) only when row 0 is narrower than `cols`, and otherwise every row is unchanged and added rows are empty |
| Matrices.ResizeCovers | matrix.cpp:76-88 | after `Resize(rows, cols)` every cell below (rows, cols) exists if and only if row 0 was narrower than `cols`, or no non-empty row had to be added and the existing rows were wide enough |
| Matrices.ResizeEmpty | matrix.cpp:76-88 | resizing a cleared matrix yields a rectangular rows x cols matrix of the fill value |
| Matrices.Reset | matrix.cpp:63-69 | every cell becomes zero and no row changes length |
| Matrices.Clear | matrix.cpp:42-50 | clearing leaves a 0 x 0 matrix |
| Matrices.Set | matrix.cpp:9-17 | `m[i][j] = v` changes cell (i, j) to `v`, and no other cell and no dimension changes |
| Matrices.ResetRowBytes | matrix.cpp:63-69 | a memset over the row's full byte size zeroes every byte of every cell |
| Matrices.ResetRowAsWrittenKeepsSecondCell | matrix.cpp:67 | the memset as written, given the element count as the byte count, leaves the second double of a two-cell row untouched and the first not fully zeroed, while the full-size reset zeroes both |
| Matrices.ResetAsWrittenBytes | matrix.cpp:63-69 | on rows of 8-byte cells, the cell-level reset as written is exactly the memset of as many bytes as the row has cells: cells wholly inside the cleared bytes become zero, cells past them keep their bytes, and the one cell the count splits loses its first bytes |
| Matrices.ResetAsWrittenKeepsRow | matrix.cpp:67 | a row of at most eight doubles loses part of its first cell (all of it at exactly eight) and keeps every other cell |
| Matrices.ClearAsWritten | matrix.cpp:44-49 | the loop bounded by row 0's width reads past the rows exactly when there are fewer rows than columns; otherwise the matrix is cleared |
| Matrices.ClearAsWrittenOneByTwo | matrix.cpp:45-46 | a 1 x 2 matrix makes the written `Clear` touch a missing row 1 |
| ColumnMatrices.GetColumn | columnmatrix.cpp:43-51 | `GetColumn(c)` is the same column as `operator[](c)`, so cells are addressed `[col][row]` |
| ColumnMatrices.GetSize | columnmatrix.cpp:22-31 | cols is the number of stored vectors and rows is column 0's length (0 without columns): the storage's pair swapped |
| ColumnMatrices.Resize | columnmatrix.cpp:66-78 | the column count becomes max(old, cols); every column is resized to `rows` (old cells kept) only when column 0 is shorter than `rows`, and otherwise nothing else changes |
| ColumnMatrices.Reset | columnmatrix.cpp:53-59 | every cell becomes zero and the size is unchanged |
| ColumnMatrices.Clear | columnmatrix.cpp:33-41 | no columns are left |
| ColumnMatrices.ResizeEmpty | columnmatrix.cpp:66-78 | a cleared lattice resized to (rows, cols) has `cols` columns of `rows` fill values |
| ColumnMatrices.ResetAsWritten | columnmatrix.cpp:53-59 | the column memset as written keeps the lattice's (cols, rows) size and every column's length |
| ColumnMatrices.ResetAsWrittenKeepsColumn | columnmatrix.cpp:57 | the memset as written leaves every cell but the first of a column of at most eight doubles unchanged, while the repaired `Reset` zeroes the whole column |
| ColumnMatrices.ClearAsWritten | columnmatrix.cpp:35-40 | the written loop, bounded by column 0's length, reads past the columns exactly when the columns are longer than there are columns; otherwise it is the repaired `Clear` |
| ColumnMatrices.ClearAfterShortSequence | columnmatrix.cpp:36-37 | a lattice resized from empty to more states than observations makes the written `Clear` touch missing columns, while the repaired `Clear` empties it |
| Flyweights.Empty | Flyweight.cpp:20-25 | an empty flyweight is consistent (the two tables are inverse bijections onto [0, numKeys)) and has no keys |
| Flyweights.Clear | Flyweight.cpp:20-25 | after `Clear` the flyweight is consistent with zero keys |
| Flyweights.NoKeysNoItems | Flyweight.cpp:36-43 | a consistent flyweight without keys answers -1 for every item |
| Flyweights.GetItemKey | Flyweight.cpp:36-43 | -1 exactly for an item never added; otherwise an issued key whose reverse entry is the item |
| Flyweights.KeyToItem | Flyweight.cpp:27-34 | only issued keys [0, numKeys) may be looked up, and the item found has that key |
| Flyweights.AddItem | Flyweight.cpp:13-18 | an item already present keeps its key and leaves the flyweight unchanged; a new item gets key `NumItems()` and is appended to the reverse table; the result is consistent, and key and item look each other up |
| Flyweights.KeyItemRoundTrip | Flyweight.cpp:13-43 | `KeyToItem(GetItemKey(x)) == x` for an added item, and `GetItemKey(KeyToItem(k)) == k` for an issued key |
| Flyweights.ValidDistinct | Flyweight.cpp:13-18 | a consistent flyweight never holds an item under two keys |
| Flyweights.ValidDeterminedByItems | Flyweight.cpp:13-18 | two consistent flyweights with the same reverse table are equal, so the key order determines the flyweight |
| Flyweights.RebuildFromItems | Hmm.cpp:53-59 | re-adding a flyweight's items in key order to a cleared flyweight rebuilds the same flyweight (what reading an `X=`/`Z=` line written from it does) |
| Flyweights.AddItemAsWritten | Flyweight.cpp:13-18 | the store at index `_numKeys` after resizing the table to `_numKeys` is never in range, so the item never reaches the reverse table |
| Flyweights.AddItemAsWrittenCollides | Flyweight.cpp:13-18 | added as written, two different items both map to key 0 and nothing is counted, whereas the repaired `AddItem` issues keys 0 and 1 |
| Flyweights.ConstructedAsWritten | Flyweight.cpp:3-6 | a flyweight built by the constructor, whose counter is uninitialised, is consistent exactly when that counter happens to be 0 |
| Flyweights.GetItemGuardNeverFires | Flyweight.cpp:29-31 | the written guard `key < 0 && key >= _numKeys` never fires for a non-negative counter, while the intended `||` guard fires on exactly the keys outside [0, numKeys) |
| Datasets.Clear | DiscreteHmmDataset.cpp:16-21 | no training pairs, no states and no symbols remain, and the dataset is consistent |
| Datasets.AddState | DiscreteHmmDataset.cpp:28-31 | only the state table changes, by the flyweight's `AddItem`, whose key is returned |
| Datasets.AddSymbol | DiscreteHmmDataset.cpp:33-36 | only the symbol table changes, by the flyweight's `AddItem`, whose key is returned |
| Datasets.GetState | DiscreteHmmDataset.cpp:95-98 | for an issued state id, the label found is interned under that id |
| Datasets.GetSymbol | DiscreteHmmDataset.cpp:90-93 | for an issued symbol id, the label found is interned under that id |
| Datasets.SymbolOf | DiscreteHmmDataset.cpp:70-74 | for an accepted line the symbol is the non-empty, tab-free text before the first tab, and the line is symbol, tab, state |
| Datasets.BuildLine | DiscreteHmmDataset.cpp:70-84 | a rejected line changes nothing; an accepted line appends one pair after the old ones, whose ids name that line's state and symbol; the tables only grow |
| Datasets.BuildAppends | DiscreteHmmDataset.cpp:52-88 | `Build` appends, without resetting, one pair per accepted line in line order; pair k names the state and symbol of accepted line k; the tables only grow |
| Datasets.BuildLabels | DiscreteHmmDataset.cpp:77-78 | after `Build` the interned states (symbols) are the earlier ones plus exactly the states (symbols) of the accepted lines |
| Datasets.LineLabels | DiscreteHmmDataset.cpp:77-78 | an accepted line adds its state label and its symbol label and no other |
| Datasets.BuildFromClear | DiscreteHmmDataset.cpp:38-88 | from a cleared dataset, `NumInstances` is the number of accepted lines, and `NumStates`/`NumSymbols` are the numbers of distinct state/symbol labels among them |
| Text.IndexOf | Hmm.cpp:50 | `find`: -1 exactly when the character is absent, otherwise the position of its first occurrence |
| Text.Split | Hmm.cpp:152-184 | `_split`: no token contains the delimiter; "" gives no tokens; there are as many tokens as delimiters, plus one when the text does not end with a delimiter; the tokens are all the fields, except that a trailing empty field is dropped while interior empty fields are kept |
| Text.FieldsCount | Hmm.cpp:168-177 | there is one more field than there are delimiters |
| Text.JoinFields | Hmm.cpp:168-177 | joining the fields of a text with the delimiter gives back the text |
| Text.FieldsJoin | Hmm.cpp:218-225 | the fields of a joined list are the list, when no item contains the delimiter |
| Text.SplitJoin | Hmm.cpp:152-184 | `_split` undoes a join, when no token contains the delimiter and the last token is not empty |
| Text.JoinSplit | Hmm.cpp:152-184 | joining `_split`'s tokens gives back the text, without its final delimiter when it ends in one |
| Text.SplitJoinTerminated | Hmm.cpp:48 | the lines `getline` delivers from newline-terminated records are exactly those records, empty ones included |
| Text.JoinLonger | Hmm.cpp:218-225 | the joined text is at least as long as each item |
| Text.DelimiterIndices | Hmm.cpp:160-165 | the first loop of `_split` collects exactly the delimiter positions, in increasing order |
| Text.CutFields | Hmm.cpp:168-172 | after the second loop the tokens cut so far, followed by the fields after `prev`, are all the fields of the text |
| Text.CutEnd | Hmm.cpp:173-177 | pushing the tail only while `prev < length` completes exactly `Split` |
| Text.SplitLoop | Hmm.cpp:152-184 | the loops of `_split` compute exactly `Split` |
| ModelFile.WriteRow | Hmm.cpp:74-80 | writing a row's tokens succeeds exactly when the row exists and is wide enough, and then only the first cells of that row change |
| ModelFile.TokenRows | Hmm.cpp:69-71 | a matrix argument becomes one row of `,`-tokens per `;`-segment |
| ModelFile.ParseMatrixFromEmpty | Hmm.cpp:67-82 | the repaired row loop, reading into a cleared matrix, never falls out of range and gives one row per segment, as wide as the widest row, each row's tokens padded with zeros |
| ModelFile.ParseRowsAsWrittenFromEmpty | Hmm.cpp:69-81 | the loop as written, with `Resize` and the byte-count `Reset` before every row, reading rows all w tokens wide into a cleared matrix, never falls out of range; the last row comes back intact, and every earlier row comes back with its cells inside the first w bytes zeroed and its cells past them kept |
| ModelFile.MatrixLineTwoRows | Hmm.cpp:70-81 | a line of two rows of eight tokens, read into a cleared matrix, comes back whole from the repaired reader, and from the loop as written with the first token of row 0 zeroed and every other token kept |
| ModelFile.MatrixLineAfterWiderLine | Hmm.cpp:70-81 | a matrix never shrinks, so after a 1 x 2 matrix a two-row line of one token each writes into an added empty row, which is undefined |
| ModelFile.Clear | Hmm.cpp:189-199 | a cleared model has no labels, no pairs, 0 x 0 matrices and no Pi |
| ModelFile.Find | Hmm.cpp:50 | `find` as a `size_t`: the first position of the character, or `npos` |
| ModelFile.Substr | Hmm.cpp:50-51 | `substr(pos, count)` takes `count` characters, or the rest of the text when fewer remain |
| ModelFile.LineParts | Hmm.cpp:50-51 | the name contains no `=`, and a line with `=` is the name, `=`, and the argument |
| ModelFile.LineWithoutEquals | Hmm.cpp:50-51 | without `=`, `npos + 1` wraps to 0, so both the name and the argument are the whole line |
| ModelFile.AddSymbols | Hmm.cpp:53-59 | the `X=` loop adds the labels to the symbol table in order, and nothing else changes |
| ModelFile.AddStates | Hmm.cpp:60-66 | the `Z=` loop adds the labels to the state table in order, and nothing else changes |
| ModelFile.ApplyLine | Hmm.cpp:49-110 | an empty line, a `#` line and a line with any other name than `X`, `Z`, `A`, `B` or `Pi` leave the model unchanged; a `Pi=` line appends its values; every line keeps the model consistent and the training pairs as they are; only an `A=` or `B=` line can fail (by writing out of range) |
| ModelFile.ApplyLines | Hmm.cpp:48-111 | applying lines in order keeps the model consistent and the training pairs unchanged |
| ModelFile.Validate | Hmm.cpp:123-149 | `_validate` holds if and only if Pi is non-empty and its size equals A's rows, A's columns and B's rows (so A is square and nothing is empty) |
| ModelFile.ParseModelFile | Hmm.cpp:30-121 | the model is cleared first, so no training pairs remain; the verdict returned is true exactly under `_validate`'s conditions |
| ModelFile.SymbolList | Hmm.cpp:217-226 | the writer emits the symbol labels in key order |
| ModelFile.StateList | Hmm.cpp:229-236 | the writer emits the state labels in key order |
| ModelFile.ListRoundTrip | Hmm.cpp:218-225 | a label list joined with `,` splits back into the same list and holds no newline |
| ModelFile.MatrixTextRows | Hmm.cpp:239-255 | the writer's `;`/`,` layout of a matrix splits back into its rows and holds no newline |
| ModelFile.MatrixRoundTrip | Hmm.cpp:239-255 | a rectangular matrix of tokens, written and read back by the repaired reader into a cleared matrix, is the same matrix |
| ModelFile.ExactParam | Hmm.cpp:50-51 | a line `name=argument`, with no `=` in the name, is read back as that name and that argument |
| ModelFile.ReadSymbols | Hmm.cpp:53-59 | reading a written `X=` line adds exactly the written labels |
| ModelFile.ReadStates | Hmm.cpp:60-66 | reading a written `Z=` line adds exactly the written labels |
| ModelFile.ReadA | Hmm.cpp:67-82 | reading a written `A=` line into an empty A installs the matrix that was written, as tokens |
| ModelFile.ReadB | Hmm.cpp:83-98 | reading a written `B=` line into an empty B installs the matrix that was written, as tokens |
| ModelFile.ReadPi | Hmm.cpp:99-109 | reading a written `Pi=` line into an empty Pi installs the values that were written, as tokens |
| ModelFile.ReadLines | Hmm.cpp:48-111 | the five written lines, applied to a cleared model, rebuild the model without its training pairs |
| ModelFile.LinesOfText | Hmm.cpp:207-294 | the written file splits, line by line, into exactly the five lines written |
| ModelFile.WriteThenParse | Hmm.cpp:207-294 | writing a model and parsing the file gives back the same labels with the same keys, the same A, B and Pi as tokens, and the same `_validate` verdict, whatever model was loaded before |
| Training.TransitionCountIsSize | Hmm.cpp:654-655 | the transition count of (p, q) is the number of positions i >= 1 with state(i-1) = p and state(i) = q |
| Training.EmissionCountIsSize | Hmm.cpp:654-656 | the emission count of (s, o) is the number of positions i >= 1 with record (s, o), so position 0 is never counted |
| Training.Bump | Hmm.cpp:655-656 | `++` on a cell adds one to that cell and to the total, and changes nothing else |
| Training.BumpTransitions | Hmm.cpp:655 | counting position i extends the transition counts from the first i records to the first i + 1 |
| Training.BumpEmissions | Hmm.cpp:656 | counting position i extends the emission counts from the first i records to the first i + 1 |
| Training.CountPairs | Hmm.cpp:654-657 | over zeroed matrices the counting loop succeeds exactly when every cell it increments exists; it then keeps the shapes, every cell holds its count, and each matrix totals n - 1 |
| Training.Train | Hmm.cpp:646-657 | A is resized to states x states and B to states x symbols and both are zeroed; training succeeds exactly when all counted cells exist; then every A cell holds its transition count, every B cell its emission count, and each totals n - 1 |
| Training.ClearedFits | Hmm.cpp:647-651 | training a model with empty matrices on a consistent dataset never meets a missing cell |
| Viterbi.ArgMax | Hmm.cpp:532-538 | the termination's argmax is the first index of a largest entry |
| Viterbi.BestPred | Hmm.cpp:512-520 | psi is the first predecessor reaching the largest `delta[t-1][k] + A[k][j]` (strict `>`) |
| Viterbi.Psi | Hmm.cpp:502 | the back pointer is -1 at t = 0, and a state id after that |
| Viterbi.Backtrack | Hmm.cpp:540-544 | the path read back from state j at time t has t + 1 state ids and ends in j |
| Viterbi.BacktrackScore | Hmm.cpp:540-546 | the path read back from (t, j) scores exactly `delta[t][j]` |
| Viterbi.DeltaBound | Hmm.cpp:505-526 | no state path ending in j at time t scores more than `delta[t][j]` |
| Viterbi.BestPathOptimal | Hmm.cpp:528-546 | the decoded path scores exactly the largest entry of the last column, no state path of the same length scores more, and that value is `-INF` exactly when every path has probability zero |
| Viterbi.BacktrackLink | Hmm.cpp:542-544 | along the read-back path, each state is the back pointer of the next: `path[i-1] = psi[i][path[i]]` |
| Viterbi.ScoreWellFormed | Hmm.cpp:487-490 | a model of log-probabilities scores every path with a log-probability, never with the rejection value 1.0 |
| Viterbi.InductionColumn | Hmm.cpp:505-526 | one induction step computes, for every state, the recurrence's delta and psi from the previous column |
| Viterbi.Lattices | Hmm.cpp:492-526 | the delta and psi columns 0..t are those of the recurrence, with column 0 of psi all -1 |
| Viterbi.Terminate | Hmm.cpp:528-538 | the termination loop finds the first state with the largest final score |
| Viterbi.ReadPath | Hmm.cpp:540-544 | `output` gets one entry per observation, and its first t + 1 entries are the path read back through psi |
| Viterbi.Decode | Hmm.cpp:481-547 | an index outside the observations returns 1.0 with `output` untouched (whatever the observations after index t hold); otherwise `output` has one entry per observation, its first t + 1 entries are the decoded path, and the result is that path's score and at least every state path's score |
| Viterbi.LaterObservationsUnread | Hmm.cpp:500-524 | decoding up to index 0 admits a sequence whose observation 1 is no symbol id, because only observations 0..t are read; decoding up to index 1 does not |
| Viterbi.GuardAsWrittenAdmitsEnd | Hmm.cpp:487-490 | the written range check admits exactly the valid indices plus t = \|obs\| |
| Viterbi.SentinelMaxAgrees | Hmm.cpp:512-519 | a running maximum started from a sentinel agrees with the first argmax when some entry beats the sentinel; otherwise it is left at the sentinel and the stale index |
| Viterbi.SentinelMaxUnreachable | Hmm.cpp:512-522 | for an unreachable state (any number of candidates, all `-INF`) the sentinel loop keeps the stale pointer and the finite sentinel, where the recurrence gives `-INF` and predecessor 0 |
| Viterbi.InductionAsWrittenKeepsLast | Hmm.cpp:505-526 | the written induction, storing results into `leftCol`, never writes column t |
| Viterbi.TerminationOverZeros | Hmm.cpp:530-538 | over a zero column the written termination returns 0.0 with state 0's pointer |
| Viterbi.ScoreAsWrittenIsZero | Hmm.cpp:492-546 | on a first call (start scores and -1 pointers in column 0, zeros elsewhere) the written code reports probability 1 (log 0.0) for every t >= 1, whatever the model |
| Viterbi.NoStartScore | Hmm.hpp:31 | a path from a state with zero initial probability has probability zero |
| Viterbi.ImpossibleModel | Hmm.cpp:499-546 | if no state can start, the recurrence gives `-INF`, while the written code gives 0.0 for every t >= 1 |
| Viterbi.BacktrackAsWritten | Hmm.cpp:541-544 | the written backtracking keeps the output's length, or reads outside the pointer lattice |
| Viterbi.TerminationAsWrittenRecordsPointer | Hmm.cpp:530-538 | when some final score beats the sentinel, the written termination returns the largest final score together with `ptrCol` of the first best state, not that state |
| Viterbi.BacktrackAsWrittenShifts | Hmm.cpp:530-544 | with pointer columns that follow a path P whose last state is the first best final state, the written termination hands over P[t-1] with the best score, and the written backtracking from it yields P shifted one place right behind a -1 |

## Left out

- `ForwardAlgorithm`, `BackwardAlgorithm` and `_logSumExp` (Hmm.cpp:327-468): floating-point `exp`/`log` numerics with no exact contract.
- `BaumWelch` (Hmm.cpp:567-576) is empty, and `_bw_UpdateChiMatrix` (Hmm.cpp:583-624) is not compilable code.
- Number conversion is not modelled. This covers `stod` and `log` when reading (Hmm.cpp:75-78, 91-94, 103-106) and `exp` with the `asLogProbs` flag when writing (Hmm.cpp:242-247 and the same in the B and Pi loops). Numbers stay text tokens, and the zero written by `Reset` is the token "0". The round trips are therefore stated on tokens. The writer's `<<` keeps 6 significant digits. A log value 0.0 is written `0` (Hmm.cpp:242, 262, 281) and read back as a probability, so it becomes log 0 = -INF (Hmm.cpp:76-77). `stod` throws on any token that does not start with a number, such as the empty middle token of `A=1,,2` or `x`; the model keeps every such token as it is.
- `LnNormalizeRows` (declared at Matrix.hpp:29) is not modelled; its definition is not part of this model.
- File and console I/O are not modelled:
  - opening files, `cout` tracing, `PrintModel` and `Print`;
  - the file becomes its text, split into lines as `getline` does.
- The IEEE-754 platform check in `Train` (Hmm.cpp:641-644) only prints.
- The draft files hmm.cpp, hmm.hpp and matrix.hpp are superseded, and the data generator is a script. floatTest.cpp and test.cpp are console drivers.
- Integer width: ids, counts and sizes are unbounded. `size_t` arithmetic is modelled explicitly only where it decides a branch: `npos + 1` in `ParseModelFile`. Writing `find`'s result into an `int` gives -1 for `npos`.
- `Viterbi.Decode`: the lattices are fresh for each call. With reused member lattices, stale cells of a longer earlier sequence would stay behind; that is not modelled.
- `Viterbi.Decode`: the doubles are unbounded reals, so rounding in `+` is not modelled.
- `Viterbi.ScoreAsWrittenIsZero`: states the written code's result on a first call, where every column but the start column is zero. Later calls read what earlier calls left behind, and that is not modelled.
- `Training.Train`: stops at the integer counts. The division and log of `LnNormalizeRows` that turn them into log-probabilities are not modelled.
- `Training.Train`: uses the repaired `Reset`, so the counts start from zero. As written, the `Reset` calls at Hmm.cpp:648 and 651 clear only as many bytes of each row as it has cells, and counts land on top of what the other cells held.
- `Training.Train`: requires that a matrix with no rows is not resized to zero rows, since `Resize` then reads a missing row 0 (matrix.cpp:82).
- `Datasets.Build`: its own contract only keeps the dataset consistent. What it computes is stated by `Datasets.BuildAppends`, `Datasets.BuildLabels` and `Datasets.BuildFromClear`.
- `ModelFile.WriteThenParse`: holds with the repaired `Clear`, `Reset` and row loop. As written, parsing over a loaded model whose B has more columns than rows runs `Clear` past the rows (Hmm.cpp:197, matrix.cpp:45), which is undefined. The as-written row loop is `ModelFile.ParseMatrixAsWritten`.
- `ModelFile.ParseModelFile`: uses the repaired `Clear` (matrix.cpp:45) and the repaired row loop (Hmm.cpp:72-73).
- `Viterbi.Decode`: requires at least one state. With no states and t = 0 the source returns -1000000, sets the last output entry (`output.back()`, index |obs| - 1) to 0 and leaves the other entries as `output.resize` left them; that path is not modelled.
- `ModelFile.MatrixRoundTrip`: covers rectangular matrices whose tokens hold no `,`, `;` or newline and are non-empty, since those are the tokens the writer can emit unambiguously. A zero-width matrix with rows does not survive, because it is written as empty segments.

## Findings

| source | as written | input that shows it | evidently intended | confidence | as-written member | corrected member |
|---|---|---|---|---|---|---|
| matrix.cpp:67 | `memset(data, 0, size())` clears `size()` bytes | a row of two doubles: only 2 of its 16 bytes are cleared | clear `size() * sizeof(T)` bytes | high, not executed | Matrices.ResetRowAsWrittenKeepsSecondCell | Matrices.ResetRowBytes |
| matrix.cpp:45 | the row loop of `Clear` is bounded by row 0's width | a 1 x 2 matrix: row 1 is cleared, and it does not exist | loop over the rows, or just `_matrix.clear()` | high, not executed | Matrices.ClearAsWritten | Matrices.Clear |
| columnmatrix.cpp:36-37 | the column loop of `Clear` is bounded by column 0's length | a lattice of 3 states over a 2-observation sequence (2 columns of 3 cells), as `Viterbi` leaves it and `Clear` meets it at Hmm.cpp:194-195: column 2 is cleared, and it does not exist | loop over the columns, or just `_matrix.clear()` | high, not executed | ColumnMatrices.ClearAfterShortSequence | ColumnMatrices.Clear |
| columnmatrix.cpp:57 | `memset(data, 0, size())` clears `size()` bytes of each column | a column of eight doubles: only its first double is cleared | clear `size() * sizeof(T)` bytes | high, not executed | ColumnMatrices.ResetAsWrittenKeepsColumn | ColumnMatrices.Reset |
| Flyweight.cpp:13-18 | `AddItem` maps the item to `_numKeys`, shrinks the table to `_numKeys`, stores one past its end, never advances the counter and returns nothing | adding "a" then "b" to a cleared flyweight: both get key 0, and no key is issued | a new item gets the next key and existing items keep theirs | high, not executed | Flyweights.AddItemAsWrittenCollides | Flyweights.AddItem |
| Flyweight.cpp:29 | the range guard is `key < 0 && key >= _numKeys` | key = numKeys: no error is reported, and the read is past the table | `key < 0 \|\| key >= _numKeys` | high, not executed | Flyweights.GetItemGuardNeverFires | Flyweights.KeyToItem |
| Flyweight.cpp:3-6 | the constructor leaves `_numKeys` uninitialised | a counter holding 5 with empty tables: the flyweight claims 5 keys it does not have, so it is inconsistent | start the counter at 0, as `Clear` does | medium, not executed | Flyweights.ConstructedAsWritten | Flyweights.Empty |
| Hmm.cpp:72-73 | `Resize` and `Reset` run inside the row loop of an `A=` line (and of a `B=` line, Hmm.cpp:88-89), and that `Reset` clears as many bytes of each row as the row has cells (matrix.cpp:67) | an `A=` line of two rows of eight tokens read into a cleared model: the first value of row 0 comes back 0 | reset once, before the first row, over the whole row | high, not executed | ModelFile.MatrixLineTwoRows | ModelFile.MatrixRoundTrip |
| Hmm.cpp:487 | the check rejects `t > observations.size()` | t = \|obs\|: accepted, then column t of the lattice, which does not exist, is read | reject `t >= observations.size()`, reading t as a column index: the loops run to `i <= t` and read column t, and `ForwardAlgorithm` documents t as the column counted from 0 and guards with `t >= size()` (Hmm.cpp:413-414, 425). The comment at Hmm.cpp:474-475 reads t as a count (t = \|obs\| in the usual call); under that reading the repair is to keep the guard and run the loops to t - 1 | high, not executed | Viterbi.GuardAsWrittenAdmitsEnd | Viterbi.Decode |
| Hmm.cpp:512 | the argmax loops start from the finite sentinels -10000000 and -1000000 (Hmm.cpp:532) | a state all of whose candidates are `-INF`: the pointer stays stale and the score is finite | start from the first candidate | high, not executed | Viterbi.SentinelMaxUnreachable | Viterbi.BestPred |
| Hmm.cpp:522-524 | the new delta is stored into `leftCol` | two observations and a model where no state can start: the written code returns 0.0 (probability 1) | store into `rightCol` | high, not executed | Viterbi.ImpossibleModel | Viterbi.Lattices |
| Hmm.cpp:536 | termination records `ptrCol[i]`, and backtracking writes `output.back()` and reads `_ptrLattice[i]` (Hmm.cpp:541-543) | pointer columns that follow a path P: the output is -1 followed by P without its last state | record `i`, write `output[t]` and read `_ptrLattice[i+1]` | high, not executed | Viterbi.BacktrackAsWrittenShifts | Viterbi.ReadPath |
