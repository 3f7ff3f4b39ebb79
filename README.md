# STATS CARTPROD, modelled in Dafny

STATS CARTPROD is an extension command for a statistics engine. It builds
a new dataset holding the cartesian product of the cases of two datasets.
VAR1 names the variables taken from the active dataset. VAR2 names the
variables taken from the dataset named by INPUT2, or from the active
dataset when INPUT2 is omitted. The command never computes the product
itself. It drives the engine through four steps:

1. Write each left case N2 times to OUTFILE, keeping VAR1 (a `LOOP` around
   `XSAVE`).
2. Write each right case N1 times to a temporary file, keeping VAR2 and a
   sequence number 1..N1.
3. Sort the temporary file by that number.
4. Open OUTFILE and merge the temporary file into it case by case
   (`MATCH FILES` without `BY`), dropping the number. The merged dataset is
   left open under its new name; it is not saved, so OUTFILE itself keeps
   only the VAR1 replica.

Without INPUT2, steps 1 and 2 run in one data pass. Before all this, a
check (`dscheck`) refuses an unnamed active dataset, overlapping variable
lists and undefined right-hand variables, and resolves the two case counts.
The command also holds a small message-table class, `NonProcPivotTable`,
that collects rows before they can be shown.

The project has seven modules:

- `Wrappers`: `Option` and `Result`.
- `Text`: ASCII lower-casing and decimal `str(n)` with its inverse.
- `Host`: an abstract engine state. It holds named datasets, each with a
  lower-case variable set, a reported case count (negative while unknown)
  and the cases.
- `Check`: `dscheck` as a pure function.
- `Replication`: the engine's primitives as list functions, and the proof
  that the plan computes the product. The primitives are replicate-each,
  replicate-with-tag, sort-by-tag and merge-by-position.
- `Cart`: `docart` as a method whose loops append to sequences, proved
  against the specification function `Cartprod`.
- `Pivot`: the `NonProcPivotTable` class.

The sort is an explicit assumption. `SortByTag` is stable by construction:
it gathers the rows of tag 1, then tag 2, and so on. This stands in for the
engine's `SORT CASES`, whose stability the command relies on.
`StableSortUnique` shows that every stable sort gives the same result, so
the plan gives the product under any stable sort (`StableSortGivesProduct`).
`UnstableSortBreaksProduct` shows a tag-ordered rearrangement for which the
merge is not the product.

## Model

| member | source | states |
|---|---|---|
| Text.Lower | src/STATS_CARTPROD.py:140-141 | same length; each character is lower-cased |
| Text.LowerCaseless | src/STATS_CARTPROD.py:135-141 | two names differ only in the case of ASCII letters (`SameUpToCase`) iff their lower-case forms are equal |
| Text.NatToString | src/STATS_CARTPROD.py:269 | non-empty; all decimal digits; no leading zero |
| Text.ParseNatToString | src/STATS_CARTPROD.py:269 | reading the decimal string back gives the number |
| Text.NatToStringInjective | src/STATS_CARTPROD.py:269 | distinct numbers get distinct strings |
| Host.CaseCountIsSize | src/STATS_CARTPROD.py:149-152 | the resolved count (reported, or re-read after a data pass) is the number of cases |
| Host.Project | src/STATS_CARTPROD.py:88-90 | one kept row per case, in case order |
| Host.DatasetHasVars | src/STATS_CARTPROD.py:157 | listed names that are dataset variables can be kept from every case |
| Check.SubsetSameSize | src/STATS_CARTPROD.py:160 | for a subset, equal size holds iff the sets are equal |
| Check.MissingIsDifference | src/STATS_CARTPROD.py:168 | the missing names are the lower-cased VAR2 set minus the variables |
| Check.Dscheck | src/STATS_CARTPROD.py:128-179 | "*" fails before anything else; an overlap fails next; success holds iff the active dataset is named, the lists are disjoint, INPUT2 exists when given and VAR2 is defined there; an INPUT2 that names no dataset fails with `NoSuchDataset` once the lists are disjoint; on success the active name is returned and stays active, count1 is the active count, count2 is the right-hand count, and count2 equals count1 without INPUT2 |
| Check.MissingNamesListed | src/STATS_CARTPROD.py:154-178 | with valid names and lists, failure holds iff some VAR2 name is missing; the error carries exactly the missing set; with INPUT2 it is the right-side message and INPUT2 stays active |
| Check.CaselessOverlap | src/STATS_CARTPROD.py:140-145 | VAR1=Age with VAR2=age is refused as overlapping |
| Check.CaselessNamesOverlap | src/STATS_CARTPROD.py:140-145 | with a named active dataset, any VAR1 name and VAR2 name that differ only in letter case make the check fail with `Overlap` |
| Check.CountsAreSizes | src/STATS_CARTPROD.py:149-166 | on success the two counts are the sizes of the two datasets |
| Check.InputOmittedSameAsActive | src/STATS_CARTPROD.py:146-178 | naming the active dataset as INPUT2 gives the same verdict and counts as omitting it; only the undefined-variable message differs |
| Replication.Repeat | src/STATS_CARTPROD.py:88-89 | n copies of the row |
| Replication.ReplicateEachRow | src/STATS_CARTPROD.py:88-90 | the left replica has N1·N2 rows; row k is left row ⌊k/N2⌋ |
| Replication.TagRunAt | src/STATS_CARTPROD.py:104-105 | copy j of the row is tagged j + 1, for j below n |
| Replication.ReplicateTaggedRow | src/STATS_CARTPROD.py:103-106 | the tagged replica has N2·N1 rows; row k is right row ⌊k/N1⌋ with tag k mod N1 + 1 |
| Replication.MaxTagBound | src/STATS_CARTPROD.py:112 | every tag is at most the largest tag |
| Replication.SortByTagIsStableSort | src/STATS_CARTPROD.py:110-112 | the result is ordered by tag; it is a permutation of the input; the rows of each tag keep their order |
| Replication.StableSortUnique | src/STATS_CARTPROD.py:110-112 | any sequence ordered by tag that keeps each tag's rows as in the input, in order, is exactly `SortByTag` of the input |
| Replication.SortedReplica | src/STATS_CARTPROD.py:110-112 | the sorted tagged replica is the right rows tagged 1, then tagged 2, up to N1 |
| Replication.SortedReplicaRow | src/STATS_CARTPROD.py:110-112 | after sorting, row k is right row k mod N2 with tag ⌊k/N2⌋ + 1 |
| Replication.MergeByPosition | src/STATS_CARTPROD.py:118-120 | row k is left row k followed by right row k, without its tag |
| Replication.ProductRow | src/STATS_CARTPROD.py:63 | the product has N1·N2 rows; row k is left ⌊k/N2⌋ followed by right k mod N2 |
| Replication.ProductPairOnce | src/STATS_CARTPROD.py:67-72 | the pair (i, j) sits at i·N2 + j and at no other position |
| Replication.PlanIsProduct | src/STATS_CARTPROD.py:67-120 | with the true counts as loop bounds, the four steps compute the product in left-major order |
| Replication.StableSortGivesProduct | src/STATS_CARTPROD.py:87-120 | with any stable sort of the tagged replica in step 3, the merge is the product |
| Replication.UnstableSortBreaksProduct | src/STATS_CARTPROD.py:110-120 | for 2 × 2 cases, a tag-ordered rearrangement of the tagged replica that swaps two rows of equal tag makes the merge differ from the product |
| Cart.LeftRows | src/STATS_CARTPROD.py:89 | one VAR1 row per active case |
| Cart.RightRows | src/STATS_CARTPROD.py:105 | one VAR2 row per right-hand case |
| Cart.WriteCopies | src/STATS_CARTPROD.py:88-90 | one case's loop writes n copies of its kept row |
| Cart.WriteTagged | src/STATS_CARTPROD.py:104-106 | one case's loop writes its kept row n times, tagged 1..n |
| Cart.SaveReplicated | src/STATS_CARTPROD.py:87-90 | the file holds each kept left case n times in a row |
| Cart.SaveTagged | src/STATS_CARTPROD.py:100-106 | the temporary file holds each kept right case n times, tagged 1..n |
| Cart.WriteBoth | src/STATS_CARTPROD.py:93-95 | one case of the fused pass gives n VAR1 copies and n tagged VAR2 copies |
| Cart.SaveBoth | src/STATS_CARTPROD.py:91-96 | the fused pass writes both files as the two separate passes would |
| Cart.Docart | src/STATS_CARTPROD.py:62-125 | the command returns `Cartprod`: the check's error, or the dataset named by DSNAME (or the generated name), opened from OUTFILE, holding the product; OUTFILE itself holds the VAR1 replica |
| Cart.CartprodPair | src/STATS_CARTPROD.py:79-120 | on success there are count1·count2 rows; row i·count2 + j is left case i's VAR1 values and then right case j's VAR2 values; the name is DSNAME when given; the dataset was opened from OUTFILE, which has count1·count2 rows, row i·count2 + j being left case i's VAR1 values alone |
| Cart.OutfileIsNotProduct | src/STATS_CARTPROD.py:87-125 | when the product has a row and VAR2 is non-empty, the rows of OUTFILE differ from the product's rows |
| Cart.InputOmittedSameAsNamed | src/STATS_CARTPROD.py:84-107 | when INPUT2 names the active dataset, the fused pass and the two-pass route succeed together, and give the same output when they succeed |
| Pivot.RowLabel | src/STATS_CARTPROD.py:268-271 | the given label, or a digit string that reads back as the row count |
| Pivot.NonProcPivotTable.constructor | src/STATS_CARTPROD.py:243-257 | all fields are set from the arguments (procName defaults to "Messages"); no rows, labels or values; invariant established |
| Pivot.NonProcPivotTable.AddRow | src/STATS_CARTPROD.py:259-272 | count goes up by one; one label is appended (given, or the new count in decimal); values are extended by cvalues (none when absent); invariant kept; nothing else changes |

## Left out

- `Run`, the `Syntax`/`Template` declarations and `processcmd`: argument parsing by a foreign module. The parser's promise that VAR1 names existing variables is the `CanRun` precondition of `Cart.Docart`.
- `helper`: opens a browser, which is I/O.
- `NonProcPivotTable.generate` and the procedure start it needs: calls into the engine's pivot-table API.
- `attributesFromDict`: reflection. The constructor assigns the fields directly.
- The syntax text and `spss.Submit`: each submitted block is the list operation it performs. The file handling around them (`GET`, `ERASE`, `DATASET CLOSE`, `DATASET NAME` and the final `DATASET ACTIVATE ... WINDOW=FRONT`) is not represented beyond the result's name, its file and that file's rows.
- The random variable name, the random dataset names and `tempfile.mktemp`: the output name is the opaque `generated` parameter. Collision-freedom is not claimed.
- Localisation (`_`) and the `TypeError` raised for an old `spssaux`: message text and module versions are not modelled. Errors carry their offending names as sets, not as the comma-joined text.
- `spssaux.VariableDict(caseless=True)`: each dataset's variables are a set of lower-case names. The `item in var2` test is read as a caseless comparison.
- `str.lower()`: only ASCII letters are lower-cased.
- Host failures other than `DATASET ACTIVATE` of an unknown INPUT2 are not modelled. That one is the `NoSuchDataset` error.
- Replication.MergeByPosition: requires the two files to have the same length. It does not model `MATCH FILES` padding a shorter file with missing values; the plan always merges equal lengths.
- Replication.SortByTag: that the engine's `SORT CASES` is stable is an assumption about the engine, not proved. `StableSortUnique` shows that `SortByTag` assumes nothing more than stability.
- Cart.Docart: requires a consistent engine. A known count is the real number of cases, and every case has its dataset's variables. The forced data pass is taken to make the count known.
- OUTFILE must not be the active file: the help text states this requirement and the code never checks it. The model has no files, only the rows OUTFILE holds, so the requirement is not represented.
- Duplicate names within VAR1 or VAR2: `Keep` keeps a value once per listed name.

The following do not change the result, so the model does not check them:

- The `if diff` test after the INPUT2 branch. It cannot fire there, and `Check.Dscheck` keeps it as written.
