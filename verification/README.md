# Homomorphic DLog lookup tables in Dafny

This project models the core of `ETsTs.py`. That module builds lookup tables of elliptic-curve
points `i·g` and truncates them to short collision-free keys. It then recovers a discrete log
from those tables with Shanks' baby-step giant-step search. The model covers five components:

- **Duplicate detection** (`Duplicates`): `checkDups`, `returnDups`, `checkNoneList`,
  `countSizes`, and the part-pair scan of `checkDupsFileparts`.
- **Truncation** (`Truncation`, `TruncVar`):
  - `truncate`, `truncateR`, `truncNomem` and `truncNomemleft`;
  - one trial of `truncHeur`, with the random draw given as input;
  - the variable-length assignment `truncVar`.
- **Algorithm 1** (`Gamma`): the cross-table pass `varTruncNew` and the self-check
  `varTruncNewB`.
- **Table building** (`TableBuild`): `lookup2File`, `lookup2FileRes`, `lookup2FileB`,
  `lookup2FileC`, `lookup2FileResB`, `concatFiles` and `concatFilesC`.
- **Search** (`Search`, `Hex`):
  - `lookup` and `babygiantstep`;
  - the truncated-key lookups `lookupelemtruncl`, `babygiantsteptrunc` and
    `lookupelemtrunclfileparts`;
  - the binary path: `hextobin`, `lookupelemtrunclbin`, `lookupelemtrunclfilepartsbin` and
    `babygiantsteptruncbin`.

Abstractions used throughout:

- **Points.** A point `i·g` is its scalar `i`, and point addition is integer addition.
  `str(point)` is a function parameter `ser: int -> string`. Where a property needs distinct
  points to print differently, `Points.Injective(ser)` is a hypothesis.
- **Files.** A file is the sequence of its line values, newline removed. Every line is taken
  to end in a newline, as all writers here produce. Where the source slices a raw line, the
  newline is put back before slicing.
- **State outside the function.** Files already on disk, the Gamma list read by `file2list`,
  random draws and the starting length of `truncVar` are all parameters.
- **Python semantics.** Slicing follows Python exactly (`PySlice`): negative indices count from
  the end and out-of-range indices clamp. Python's `None`, `ValueError` and fall-through
  returns are `Option.None`.

Two behaviours of the code are worth noting:

- **Resuming a build.** `lookup2FileResB` keeps a half-written last line: it resumes at
  `countlines + 1` and appends right after the partial text, so that line runs together with the next point and the table is shifted by one. The
  model takes every file to end in a newline and so does not cover this case (see
  "## Left out").
- **Search beyond the table.** `babygiantstep` on a table of `1..N`, with `N` giant steps,
  does find the point `N + 5`: attempt two probes `5`. `Search.BabySearchCorrect` proves that
  every `1 <= x <= s·s` is found when `s <= N`.

Truncated search is only as good as the truncation. `Search.TruncSearchCorrect` needs the keys
of the points `1 .. max(x, N)` to be distinct, not only those of the table. The reason is that
the attempts before the covering one probe points above the table, and a key collision there
is a false hit.

## Model

| member | source | states |
|---|---|---|
| Duplicates.CheckDups | ETsTs.py:64-81 | the answer is true exactly when some value occurs at two different positions |
| Duplicates.ReturnDups | ETsTs.py:400-423 | same length as the input; position `i` is `None` iff `i` is a reported index iff `l[i]` occurs earlier; kept entries equal the input and are pairwise distinct; indices reported iff the list has a duplicate |
| Dups.HasDupIffSeenBefore | ETsTs.py:400-423 | a list has a duplicate exactly when some position repeats an earlier value, so `checkDups` agrees with `returnDups` |
| Duplicates.CheckNoneList | ETsTs.py:528-541 | true exactly when some entry is `None` |
| Duplicates.CountSizes | ETsTs.py:425-442 | the keys are exactly the entry lengths that occur, each mapped to its number of occurrences |
| Duplicates.Tally | ETsTs.py:464-470 | `dupedict` has exactly the values of the list as keys, each mapped to its number of occurrences |
| Duplicates.RepeatsSound | ETsTs.py:594-621 | every reported repeat names a 1-based position holding that value which repeats an earlier one; positions increase |
| Duplicates.RepeatsComplete | ETsTs.py:594-621 | every position repeating an earlier value is reported with its counter |
| Duplicates.CheckDupsPair | ETsTs.py:594-621 | for one pair of parts, with `k` counting through both: exactly the repeats are reported, in increasing order of `k` |
| Duplicates.ScheduleCovers | ETsTs.py:588-593 | a run resumed at `(resi, resj)` visits exactly row `resi` from `resj` on and, for later rows `i`, the pairs `j > i` |
| Truncation.Truncate | ETsTs.py:244-260 | a result is the suffix list of some length below the first entry's width, has no duplicate, and every shorter suffix length collides; no result iff every length collides |
| Truncation.TruncateR | ETsTs.py:381-398 | defined iff the table is non-empty and its first entry has two characters; then every entry becomes its prefix of length `min(hexes, width)` |
| Truncation.TruncNomemKeepsSuffix | ETsTs.py:262-278 | on a newline-terminated line, `line[-tv-1:]` is the last `tv` characters of the value plus the newline |
| Truncation.TruncNomem | ETsTs.py:262-278 | one line per entry, each the raw-line slice without its newline: the last `tv` characters of the entry, or empty when `tv == 0` |
| Truncation.Key | ETsTs.py:818-826 | `elem[2:2+tv]` is at most `tv` characters and is exactly the characters after the type prefix when `elem` is wide enough |
| Truncation.LeftLines | ETsTs.py:295 | the lines one entry adds, newline-terminated, spell exactly `line[2:2+tv] + "\n"`; a wide enough entry adds its key only |
| Truncation.TruncNomemleft | ETsTs.py:280-295 | the text of the output file is exactly the concatenation of the written slices |
| Truncation.TruncNomemleftIsKey | ETsTs.py:280-295 | line `k` of the output is entry `k`'s lookup key when entries `0..k` are at least `2 + tv` wide |
| Truncation.TruncNomemleftAllWide | ETsTs.py:280-295 | when every entry is wide enough the output has one line per entry, its key |
| Truncation.InsertDesc | ETsTs.py:324 | inserting into a descending list keeps it descending and adds exactly the new element |
| Truncation.SortDesc | ETsTs.py:324 | the sorted selection is a permutation of the sample and strictly descending |
| Truncation.Project | ETsTs.py:326-331 | the projected entry has one character per selected position: the entry's character at that position, in selection order |
| Truncation.ProjectAll | ETsTs.py:325-331 | entry `k` of the test list is entry `k` of the table projected onto the selected positions, for every entry |
| Truncation.HeurTrial | ETsTs.py:319-336 | the selection is the draw sorted descending; every entry is projected onto it; success iff the projections have no duplicate |
| Truncation.TrialSuccess | ETsTs.py:323-332 | a trial succeeds exactly when its sorted draw separates every entry |
| Truncation.TruncHeur | ETsTs.py:319-336 | `None` exactly when no draw separates the entries; otherwise the reported selection is the sorted first draw that does, which fits every entry and separates all of them |
| TruncVar.UniqueBeyondMax | ETsTs.py:463-474 | with distinct entries, every prefix at least as long as the longest entry is unique, so the loop ends |
| TruncVar.FirstUniqueLeast | ETsTs.py:463-474 | the length at which an entry is fixed is the least length from the start at which its prefix is unique |
| TruncVar.FixedAt | ETsTs.py:471-473 | an entry not yet fixed is fixed at length `h` exactly when its prefix is unique there |
| TruncVar.AssignRound | ETsTs.py:464-473 | one round fixes exactly the entries whose prefix is unique at this length; fixed entries keep their value |
| TruncVar.TruncVar | ETsTs.py:444-475 | `None` iff `truncateR` fails; otherwise every entry is its prefix at the first length from the start where it is unique, and that prefix occurs once |
| Gamma.KeysFromMember | ETsTs.py:961-965 | a key is in `A2` exactly when some line that is not skipped has it as its prefix |
| Gamma.HitUpToMeaning | ETsTs.py:957-969 | a row hits exactly when some non-skipped line of some part shares its length-`T` prefix |
| Gamma.LargestCrossHitIsLargest | ETsTs.py:952-970 | a non-zero value is a colliding length and no longer length in range collides |
| Gamma.LargestCrossHitStep | ETsTs.py:952-970 | widening the range one length downwards keeps an existing hit and otherwise takes the new length if it collides |
| Gamma.CollectKeys | ETsTs.py:961-965 | the collected set is exactly the prefixes of the non-skipped lines |
| Gamma.MarkHits | ETsTs.py:966-969 | a row still at 0 whose prefix is in `A2` gets `T`; every other row is unchanged |
| Gamma.MarkAllParts | ETsTs.py:957-969 | after the sixteen parts, a row that was 0 holds `T` exactly when its length-`T` prefix collides with a non-skipped line of some part, else 0; nonzero rows are unchanged |
| Gamma.VarTruncNew | ETsTs.py:935-972 | `None` exactly when `size < 12`; otherwise every Gamma entry is the largest length in `[endTrunc, startTrunc]` at which its row collides with a non-skipped line of any part, or 0 |
| Duplicates.SharedMap | ETsTs.py:993-998 | `Bt` has exactly the prefixes as keys; a key maps to true iff it occurs at least twice |
| Gamma.SharedPrefixes | ETsTs.py:992-998 | the dictionary maps exactly the rows' length-`T` prefixes to whether two rows share them |
| Gamma.RaiseShared | ETsTs.py:999-1001 | an entry is raised to `T` exactly when its prefix is shared and it is below `T`; nothing is lowered |
| Gamma.LargestSharedIsLargest | ETsTs.py:990-1002 | a non-zero value is a shared length and no longer length in range is shared |
| Gamma.LargestSharedStep | ETsTs.py:990-1002 | widening the range one length downwards keeps an existing shared length and otherwise takes the new one |
| Gamma.SelfCheck | ETsTs.py:990-1002 | every entry ends as the maximum of its start value and its largest shared length |
| Gamma.VarTruncNewB | ETsTs.py:979-1003 | `None` iff `size < 12` or part 1 has too few rows; otherwise every entry is raised to its largest self-shared length if that is higher, and never lowered |
| TableBuild.ConcatShards | ETsTs.py:204-222 | the shards `[lo, mid)` and `[mid, hi)` joined are the shard `[lo, hi)` |
| TableBuild.AppendRange | ETsTs.py:157-162 | the running point starting at `lo·g` and advanced by `+g` appends exactly the shard `[lo, hi)` |
| TableBuild.Lookup2File | ETsTs.py:83-99 | the file holds `2^rng - 1` lines, line `k` being `str((k+1)·g)` |
| TableBuild.ResumeFrom | ETsTs.py:148-153 | the resume exponent is the largest `r` in `[7, rng)` with a table on disk; none on disk means no resume |
| TableBuild.Lookup2FileRes | ETsTs.py:137-163 | resuming copies the `2^r` table and appends `[2^r, 2^rng)`, else appends `[1, 2^rng)`; from correct smaller tables the result is the fresh table |
| TableBuild.Lookup2FileB | ETsTs.py:165-183 | the earlier content is kept and followed by `str(i·g)` for `2^fromrng <= i < 2^torng` |
| TableBuild.Lookup2FileC | ETsTs.py:185-202 | the earlier content is kept and followed by `str(i·g)` for `fromrng <= i < torng` |
| TableBuild.Lookup2FileResB | ETsTs.py:794-816 | resumes at `countlines + 1`; from any complete earlier run it yields the fresh table `[1, rng)` |
| TableBuild.ConcatFiles | ETsTs.py:204-222 | the output holds the first file's lines and then the second's |
| TableBuild.ConcatFilesB | ETsTs.py:204-222 | joining the `lookup2FileB` shards `[2^f, 2^m)` and `[2^m, 2^t)` gives `[2^f, 2^t)` |
| TableBuild.ConcatFilesC | ETsTs.py:224-242 | joining the `lookup2FileC` shards `[f, m)` and `[m, t)` gives `[f, t)` |
| Hex.DecodeEncode | ETsTs.py:858-866 | `unhexlify` of `bytes.hex()` gives the bytes back |
| Hex.EncodeDecode | ETsTs.py:874-884 | a lower-case even-length hex line decodes, and its bytes re-encode to the same line |
| Hex.HexToBin | ETsTs.py:858-866 | the conversion succeeds exactly when every line decodes as hex |
| Hex.HexToBinRecords | ETsTs.py:858-866 | for lines of hex of one even width the binary file exists and is one `width/2`-byte record per line, each re-encoding to its line |
| Search.Lookup | ETsTs.py:477-484 | a result is a position holding the value with no earlier one; no result iff the value is absent |
| Search.LookupConcat | ETsTs.py:845-856 | looking up in two files joined finds the hit in the first, else the second's hit moved past the first |
| Search.GiantStepsFirstHit | ETsTs.py:515-526 | not found iff every one of the `s` attempts misses; otherwise the answer is the first hitting attempt's hit plus attempt·s |
| Search.GiantStepsCorrect | ETsTs.py:515-526 | if some attempt hits and no hit up to it is wrong, the search returns `x` |
| Search.CoveringAttempt | ETsTs.py:515-526 | for `1 <= x <= s·s`, attempt `(x-1)/s` probes a baby step in `[1, s]`, and earlier attempts probe points in `[1, x]` |
| Search.BabyHitsCorrect | ETsTs.py:515-522 | on the full table with an injective serialisation, a hit at position `p` of attempt `i` means `(i-1)·s + p + 1 == x` |
| Search.BabySearchCorrect | ETsTs.py:486-526 | any answer is the discrete log, and for `s <= N`, `1 <= x <= s·s` the answer is `x` |
| Search.BabyGiantStep | ETsTs.py:486-526 | the loop computes the giant-step search, so its answer is the discrete log and one is found whenever `s <= N` and `x <= s·s` |
| Search.LookupTruncl | ETsTs.py:818-826 | a result is the 1-based number of the first line equal to the key; none iff no line equals it |
| Search.TruncSearchCorrect | ETsTs.py:828-843 | on a truncated table of `1..N` whose keys keep `1..max(x, N)` apart, with `2^gs <= N` and `x <= 4^gs`, the search returns `x` |
| Search.TruncShanks | ETsTs.py:828-843 | the loop with the post-incremented counter reports `res + (i-2)·2^gs`, which is the giant-step search |
| Search.BabyGiantStepTrunc | ETsTs.py:828-843 | the answer is the giant-step search over the truncated file, and is `x` under the conditions above |
| Search.PartsSearchFirst | ETsTs.py:845-856 | the search over parts misses exactly when no part hits; otherwise it reports the first hitting part's line number plus `i·2^28` for that part `i` |
| Search.LookupTrunclFileParts | ETsTs.py:845-856 | `None` exactly when the key is in no part; otherwise the first part holding the key gives its line number there plus `i·2^28` |
| Search.PartsSearchIsJoinedLookup | ETsTs.py:845-856 | from part `i` on, the search over parts is the lookup in the remaining parts joined, offset by `i·2^28` |
| Search.FilePartsIsTableLookup | ETsTs.py:845-856 | searching the sixteen parts of `2^28` lines finds the same line number as a lookup in the whole table |
| Search.BinScanAgrees | ETsTs.py:874-884 | scanning the binary image record by record finds the line the text lookup finds, counter for counter |
| Search.BinScan | ETsTs.py:876-884 | a hit lies between the starting counter and the counter past the last record; the empty key always hits; a key longer than two hex digits per record byte never hits |
| Search.LookupTrunclBin | ETsTs.py:874-884 | a hit is a record number in `1..len+1`; with an odd `truncvalue` and a line at least `2 + truncvalue` long the key never fits a `truncvalue/2`-byte record, so the lookup misses |
| Search.LookupTrunclFilePartsBin | ETsTs.py:886-898 | `None` exactly when the binary lookup misses in every part; otherwise the first hitting part gives its record number plus `i·2^28` |
| Search.BinLookupAgrees | ETsTs.py:874-884 | on the output of `hextobin`, the binary lookup returns exactly what the text lookup returns |
| Search.PartsSearchPointwise | ETsTs.py:886-898 | searches over parts whose lookups agree part by part agree |
| Search.FilePartsBinAgrees | ETsTs.py:886-898 | searching the binary parts finds what searching the text parts they came from finds |
| Search.BabyGiantStepTruncBin | ETsTs.py:900-919 | the answer is the giant-step search over the binary parts, and is `x` when they come from a correct truncated table under the conditions above |

## Left out

- The elliptic-curve library (`petlib`, `EcGroup`, `Bn`). Points are scalars and `str` is an abstract function. The curve cannot be expressed here, and the group order (wrap-around of scalars) is not modelled.
- File I/O: `open`, `seek`, `readline`, `shutil.copy`, `os.rename`, `path.exists`, and file names. Files are sequences of line values; files on disk are parameters.
- A last line without a newline is not modelled. The source's `[:-1]` would cut one character of its value.
- TableBuild.Lookup2FileResB: a partial last line left by an interrupted run is not modelled. The source appends right after it, so the line joins the next point's text and every later line is shifted by one.
- Helpers that only read or write files: `readLookFromFile`, `readLookFromFileB`, `countlines`, `checkDupsFile`, `lookupinfile`, `lookupvalue`, `cremptyfile`, `renameFileparts` and `insert2line`. Duplicate checking of a whole list is `Duplicates.CheckDups`.
- `printProgressBar`, the `Logger` class, and all printing and timing. `babygiantstep` and `varTruncNew` print their result; the model returns it.
- Truncation.TruncHeur: every drawn position must fit every entry (`ValidSample`). That always holds for tables of 66-character serialised points; otherwise the source raises `IndexError` at `elem[k]`.
- `truncTest`, `truncTestMult`, the multiprocessing events, and `random.sample`. Draws are an input. Running out of draws stands for the `quit` event.
- The `math.log` start length of `truncVar` (floating point). It is the parameter `h0`. The file read and `truncate` call before it are not repeated: `TruncVar.TruncVar` takes the table `truncate` returned.
- TruncVar.TruncVar: requires distinct entries. `truncate`'s result always has them; with duplicates the source loops forever. The source sizes `outList` as `2**rng - 1`, which is the table length; the model uses the table length.
- Truncation.Truncate: requires a non-empty table, since the source raises `IndexError` on `lookupRaw[0]`.
- `file2list` (`ast.literal_eval`). The Gamma list is the parameter `b`.
- Gamma.VarTruncNewB: the source prints only `Counter(B)` (before and after the pass) and each `T`, and neither returns nor writes the raised list `B`; the model returns `B` itself so that its contents can be stated.
- Gamma.VarTruncNewB: requires the Gamma list to have one entry per row. The source reads `B[j]` only for a row whose length-`T` prefix is shared, so a shorter list raises `IndexError` only when some row past its end is shared at a length in `[endTrunc, startTrunc]` (never when `startTrunc < endTrunc`); otherwise the source returns the short list with its entries raised. The excess of a longer list is left as it is.
- Gamma.VarTruncNewB: requires `endTrunc >= 1`. At `T == 0` every prefix is empty, so with at least two rows every row is shared and the source raises a negative initial entry to 0 (with one row, at `size == 12`, `Bt[""]` is false and nothing changes); `Raise` reads 0 as "no shared length", so that case is not modelled. Negative lengths slice from the end of the line and are not modelled either; `Gamma.VarTruncNew` takes `endTrunc` as a natural number for the same reason.
- `checkvarDupsFileparts`. It overwrites in place with `seek`, writes the same fill in both branches, and advances its reader only on a mismatch, so it states no property.
- `lookupnumtrunclbin`. Its offset `(num-1)·(truncvalue+1)` assumes a separator byte that `hextobin` never writes.
- Hex.HexToBinRecords: `hextobin` opens its output in append mode, and a line that fails to decode has already had earlier lines written. The model gives the appended bytes, or `None` on any decode error.
- `checkDupsFileparts`: the results file's text layout and the `Completed` lines. The model gives the reported repeats of one pair (`Duplicates.CheckDupsPair`) and the visiting order (`Duplicates.ScheduleCovers`).
