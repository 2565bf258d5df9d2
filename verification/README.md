# V-Phaser 2.0 pileup-column engine, modelled in Dafny

V-Phaser 2.0 calls low-frequency variants from reads aligned to a viral
reference. Its pileup-column engine (`bam_manip.cpp`) turns the alignments
that overlap one reference position into a column of observations. Each
observation records the strand, the mate, the read cycle, a quantised
quality and a short token (`dt`). The token says what the read shows at
that position:

- a substitution: the context base, then the observed base;
- a deletion seen at its first position: `<base>D<len>`;
- the base right after a deletion: `D<len><base>`;
- the base right after an insertion: `I<len><base>`, with the flanking base
  and the inserted bases stored beside it;
- a single base on its own: the read's first base on the forward strand, or
  its last base on the reverse strand.

The model covers these parts:

- the quality quantiser `qqMap`;
- CIGAR arithmetic: `calculate_aln_end` and `get_extended_cigar_string`;
- the mate registry `udpate_alnMap`;
- the CIGAR walk `get_column_x`;
- the column scan `get_aln_column`, with its early exit;
- insertion-column assembly: `add_ins_entry` and `get_ins_column`;
- column normalisation: `clean_aln_column`.

Every function is pure and works over immutable datatypes. The fatal
`abording` calls become distinct `Fault` values of a `Result`. So do the
`std::out_of_range` throws of the bounds-checked `at` reads, and the
exception `qqMap` raises when it builds a `std::vector` with a negative
count. Five things are undefined behaviour in the C++; each becomes a
precondition:

- `qq.rbegin()` on an empty map;
- `rbegin()` on an empty token;
- the read of `CigarData[i + 1]` past the last op, which the off-by-one
  guard at `bam_manip.cpp:702` lets through;
- the division `size/quantile` in `qqMap` when there are values to place
  and no bins;
- the unchecked read `aln_ends[i]` in `get_aln_column` past the end of
  `aln_ends`: the model requires `|alns| <= |ends|`, and a longer `ends`
  is accepted as in the source.

Modules, one file each:

| module | file | models |
|---|---|---|
| `Results` | results.dfy | `Option`, `Result`, `Fault`, the bounds-checked `at` |
| `Nucleotides` | nucleotides.dfy | the nucleotide test, upper-casing, base and string reverse complement |
| `Decimal` | decimal.dfy | `to_string<int>` for lengths, and its inverse |
| `Tokens` | tokens.dfy | the token grammar, rendering and parsing |
| `Cigar` | cigar.dfy | CIGAR ops, alignments, `calculate_aln_end`, `get_extended_cigar_string` |
| `Quality` | quality.dfy | `qqMap` and the quality lookup with its fallback |
| `Entries` | entries.dfy | `AlnColEntry`, and well-formedness of an observation |
| `ColumnX` | column_x.dfy | `get_column_x` |
| `WalkFacts` | walk_facts.dfy | where the walk stops, forward and reverse match facts, gap facts, the not-found condition |
| `AlnColumn` | aln_column.dfy | `get_aln_column` |
| `Insertion` | insertion.dfy | `add_ins_entry`, `get_ins_column`, `clean_aln_column` |
| `MateMap` | mate_map.dfy | `udpate_alnMap`, and the per-file registration loop |

## Model

| member | source | states |
|---|---|---|
| Results.At | tools/binaries/V-Phaser-2.0/src/bam_manip.cpp:605 | an `at` read succeeds exactly when the index lies inside the sequence, and then gives that element; otherwise it is an out-of-range fault |
| Nucleotides.ComplementInvolution | tools/binaries/V-Phaser-2.0/src/bam_manip.cpp:729-730 | complementing a base twice gives the base back |
| Nucleotides.ComplementKeepsNt | tools/binaries/V-Phaser-2.0/src/bam_manip.cpp:827-828 | the complement of a nucleotide is a nucleotide and of anything else is not, and complementing commutes with upper-casing |
| Nucleotides.RevCompInvolution | tools/binaries/V-Phaser-2.0/src/bam_manip.cpp:695-700 | reverse-complementing a string twice gives it back, and keeps an all-nucleotide string all-nucleotide |
| Decimal.ToNatFromNat | tools/binaries/V-Phaser-2.0/src/bam_manip.cpp:645 | a rendered length reads back as the same length, and the rendering has no leading zero |
| Decimal.FromNatToNat | tools/binaries/V-Phaser-2.0/src/bam_manip.cpp:791 | a canonical digit string is the rendering of its own value |
| Tokens.ParseRender | tools/binaries/V-Phaser-2.0/src/bam_manip.cpp:640-668 | every valid token (substitution, after-deletion, after-insertion, deletion) parses back to itself |
| Tokens.RenderParse | tools/binaries/V-Phaser-2.0/src/bam_manip.cpp:787-848 | every string that parses is a valid token whose rendering is that string |
| Cigar.CalculateAlnEnd | tools/binaries/V-Phaser-2.0/src/bam_manip.cpp:304-320 | the end is the start plus the summed lengths of the M, =, X, D and N ops, minus one |
| Cigar.NonRefOpsDoNotMoveEnd | tools/binaries/V-Phaser-2.0/src/bam_manip.cpp:308-317 | inserting an I, S, H or P op anywhere in a CIGAR leaves the reference span unchanged |
| Cigar.GetExtendedCigarString | tools/binaries/V-Phaser-2.0/src/bam_manip.cpp:938-945 | the output is the input string followed by each op's code repeated its length times, in op order |
| Cigar.ExpandCounts | tools/binaries/V-Phaser-2.0/src/bam_manip.cpp:938-945 | the reference-consuming characters of the expanded CIGAR number exactly the reference span |
| Cigar.AlnEndFromExpanded | tools/binaries/V-Phaser-2.0/src/bam_manip.cpp:304-320 | the alignment end can be read off the expanded CIGAR |
| Quality.QqMap | tools/binaries/V-Phaser-2.0/src/bam_manip.cpp:143-166 | fails, with a negative-length fault, exactly when the value count maxQ - minQ + 1 or the bin count is negative; otherwise every quality in [minQ, maxQ] gets `Bucket` of its rank: the rank itself when there are at least as many bins as values, else the bin of the nested fill that holds it; other keys already in the map keep their value; no other key is added |
| Quality.SpreadRemainder | tools/binaries/V-Phaser-2.0/src/bam_manip.cpp:153-160 | each bin holds size/quantile values, plus one for each of the last size mod quantile bins |
| Quality.FillBins | tools/binaries/V-Phaser-2.0/src/bam_manip.cpp:161-166 | the nested fill gives the rank-k value the bucket of the bin that holds k, and writes nothing else |
| Quality.BinStartForm | tools/binaries/V-Phaser-2.0/src/bam_manip.cpp:153-160 | bin b starts at b * avg plus one for every widened bin before it |
| Quality.BinsCover | tools/binaries/V-Phaser-2.0/src/bam_manip.cpp:153-166 | the bins, laid end to end from rank 0, cover exactly the size values |
| Quality.BinStartMonotone | tools/binaries/V-Phaser-2.0/src/bam_manip.cpp:153-160 | every bin is non-empty, so a later bin starts strictly later |
| Quality.BucketBins | tools/binaries/V-Phaser-2.0/src/bam_manip.cpp:161-166 | every value inside bin b has bucket b |
| Quality.BucketInItsBin | tools/binaries/V-Phaser-2.0/src/bam_manip.cpp:161-166 | every value's bucket is a bin in [0, quantile) that contains the value |
| Quality.BucketRangeAndOrder | tools/binaries/V-Phaser-2.0/src/bam_manip.cpp:148-166 | buckets lie in [0, min(quantile, size)) and never decrease as the quality rises; when quantile >= size, the value of rank i gets bucket i |
| Quality.TopBucket | tools/binaries/V-Phaser-2.0/src/bam_manip.cpp:148-166 | maxQ lands in the highest bucket, min(quantile, size) - 1 |
| Quality.MaxKey | tools/binaries/V-Phaser-2.0/src/bam_manip.cpp:606 | the key `rbegin` reaches is in the map and no key is larger |
| Quality.Lookup | tools/binaries/V-Phaser-2.0/src/bam_manip.cpp:605-606 | a quality in the map gets its own bucket, a missing one the bucket of the largest key; either way the result is one of the map's buckets |
| Quality.LookupFallback | tools/binaries/V-Phaser-2.0/src/bam_manip.cpp:605-606 | on a freshly built quantiser, a quality outside [minQ, maxQ] gets maxQ's bucket, which is the highest |
| ColumnX.MatchFwd | tools/binaries/V-Phaser-2.0/src/bam_manip.cpp:615-682 | forward match: past the op's first base the token is (previous base, current base), dropped iff the previous base is not a nucleotide; at the read's first base it is the base alone; at an op's first base past the read's first base, with no op before it is a no-previous-op fault and otherwise the previous op shapes the token as `BeforeOpToken` states; a kept entry is well-formed and ends with the current base |
| ColumnX.PrevOpToken | tools/binaries/V-Phaser-2.0/src/bam_manip.cpp:624-680 | the previous op shapes the token: after H it is 'A' then the base; after S the clipped base then the base, dropped iff that base is not a nucleotide; after D or N it is D, the gap length, the base, flanked by the base before; after I as `PrevInsToken` says; after any other op a wrong-previous-op fault; no flanking base or inserted bases outside D, N and I |
| ColumnX.PrevInsToken | tools/binaries/V-Phaser-2.0/src/bam_manip.cpp:653-673 | after an insertion of n bases: a fault iff the insertion starts the read; otherwise the token is I, n, the base, flanked by the base before the insertion and storing the upper-cased inserted bases, dropped iff either is not made of nucleotides |
| ColumnX.MatchRev | tools/binaries/V-Phaser-2.0/src/bam_manip.cpp:684-771 | reverse match: the cycle is renumbered from the far end of the read; inside the op the token is the reverse complement of (current, next), present iff there is a next base and dropped iff it is not a nucleotide; at the read's last base it is the complement of the base alone; at an op's last base before the read's last base a next op exists and shapes the token as `AfterOpToken` states |
| ColumnX.NextOpToken | tools/binaries/V-Phaser-2.0/src/bam_manip.cpp:697-766 | the next op shapes the reverse token: before H it is the reverse complement of (base, 'A'); before S of (base, clipped base), dropped iff that base is not a nucleotide; before D or N it is D, the gap length, the complemented base, flanked by the complement of the base after; before I it is a fault iff the insertion reaches the read's last base, else I, length, complemented base, flanked by the complement of the base after the insertion, storing the reverse complement of the inserted bases; before any other op a wrong-next-op fault |
| ColumnX.MatchObs | tools/binaries/V-Phaser-2.0/src/bam_manip.cpp:597-614 | the quality read and then the base read at the cycle fault `OutOfRange` when out of range; the cycle is the read cursor plus the offset into the op, the bucket is the lookup of that base's quality, and a non-nucleotide current base is dropped; inside the op with both bases and the quality in range the result is Ok, dropped exactly when either base of the pair is not a nucleotide: (previous, current) forward, the reverse complement of (current, next) on the reverse strand |
| ColumnX.GapObs | tools/binaries/V-Phaser-2.0/src/bam_manip.cpp:779-850 | a gap position after the first is dropped; at the first it ends as `FwdGapOutcome` or `RevGapOutcome` says; a kept forward entry is (previous base, D, length), flanked by the next base, with that base's quality; a kept reverse entry mirrors it with complemented bases and a renumbered cycle |
| ColumnX.GapFwd | tools/binaries/V-Phaser-2.0/src/bam_manip.cpp:787-808 | forward gap start, `FwdGapOutcome`: no base before the gap or a cursor past the read is `OutOfRange`, a cursor at the read's end is `NoBaseAfterDeletion`; otherwise dropped exactly when either neighbour is not a nucleotide, and a kept entry fails `OutOfRange` exactly when the quality after the gap is missing; a kept entry is (base before the gap, D, length), flanked by the base after it, with that base's quality bucket and the cycle of the base before |
| ColumnX.GapRev | tools/binaries/V-Phaser-2.0/src/bam_manip.cpp:814-842 | reverse gap start, `RevGapOutcome`: a cursor past the read is `NextCycleOutOfRange`, one at the read's end `OutOfRange`, one at its start `NoBaseBeforeDeletion`; otherwise `OutOfRange` exactly when the quality before the gap is missing, else Ok and dropped exactly when either complemented neighbour is not a nucleotide; a kept entry is (complement of the base after the gap, D, length), flanked by the complement of the base before it, with that base's bucket and the cycle renumbered from the far end |
| ColumnX.Walk | tools/binaries/V-Phaser-2.0/src/bam_manip.cpp:590-865 | every entry the walk keeps is well-formed and carries the read's strand and mate flags |
| ColumnX.Seek | tools/binaries/V-Phaser-2.0/src/bam_manip.cpp:589-865 | the cursor walk stops only at a reference-consuming op reaching the position, with the cursors at that op's prefix spans, and otherwise fails with "not found" or an unknown-code fault |
| ColumnX.GetColumnX | tools/binaries/V-Phaser-2.0/src/bam_manip.cpp:582-866 | a kept observation has a non-empty token in the grammar, built only from nucleotides, with the read's strand and mate flags |
| WalkFacts.WalkPasses | tools/binaries/V-Phaser-2.0/src/bam_manip.cpp:776-859 | past an op that does not hold the position, `Seek` moves the reference cursor by the op's reference length and the read cursor by its read length |
| WalkFacts.WalkToLocated | tools/binaries/V-Phaser-2.0/src/bam_manip.cpp:590-851 | from any earlier op, `Seek` stops at the first op holding the position, with the cursors at that op's prefix sums |
| WalkFacts.GetColumnXLocated | tools/binaries/V-Phaser-2.0/src/bam_manip.cpp:590-851 | the observation is built at the first op that consumes reference and reaches the position |
| WalkFacts.WalkSeeks | tools/binaries/V-Phaser-2.0/src/bam_manip.cpp:590-865 | the walk equals `Seek` followed by the match or gap observation at the op it stops at, and a `Seek` fault is the walk's fault |
| WalkFacts.ForwardMatch | tools/binaries/V-Phaser-2.0/src/bam_manip.cpp:599-622 | forward match: a cycle outside the qualities or the bases is `OutOfRange`; the cycle is idx_read + (ref_pos - idx_ref), the bucket is that base's lookup, a non-nucleotide base is dropped, and past the op's first base the result is Ok, dropped exactly when the previous or current base is not a nucleotide, with (previous, current) as the token |
| WalkFacts.ForwardFirstBase | tools/binaries/V-Phaser-2.0/src/bam_manip.cpp:615-682 | forward strand, at an op's first base holding a nucleotide: at the read's first base the token is that base alone; past it there is an earlier op, and `get_column_x` gives the token `BeforeOpToken` states for it |
| WalkFacts.ReverseLastBase | tools/binaries/V-Phaser-2.0/src/bam_manip.cpp:684-771 | reverse strand, at an op's last base holding a nucleotide: at the read's last base the token is its complement alone; before it there is a later op, and `get_column_x` gives the token `AfterOpToken` states for it |
| WalkFacts.ReverseMatch | tools/binaries/V-Phaser-2.0/src/bam_manip.cpp:684-694 | reverse match: a cycle outside the qualities or the bases is `OutOfRange`; the stored cycle is rlen - cycle - 1 (renumbered at :770), the bucket is that base's lookup, a non-nucleotide base is dropped, and before the op's last base the result is Ok, dropped exactly when the current or next base is not a nucleotide, with the reverse complement of (current, next) as the token |
| WalkFacts.GapFirstPositionOnly | tools/binaries/V-Phaser-2.0/src/bam_manip.cpp:779-848 | only a gap's first reference position can give an observation, of the form base, D, gap length |
| WalkFacts.GapFirstPosition | tools/binaries/V-Phaser-2.0/src/bam_manip.cpp:787-842 | at a gap's first reference position `get_column_x` ends with the faults and drops of `FwdGapOutcome` / `RevGapOutcome`, and with both neighbours nucleotides and their quality in range it keeps the adjacent base, D and the gap length |
| WalkFacts.OneObservationPerGap | tools/binaries/V-Phaser-2.0/src/bam_manip.cpp:809-812 | two positions in one gap never both give an observation |
| WalkFacts.WalkStops | tools/binaries/V-Phaser-2.0/src/bam_manip.cpp:597-604 | at an op holding the position `Seek` stops there with the current cursors, and the position is within the alignment |
| WalkFacts.WalkNotFound | tools/binaries/V-Phaser-2.0/src/bam_manip.cpp:590-865 | from any cursor at or before the position, with known codes, `Seek` fails to place it iff the position lies past the alignment end |
| WalkFacts.NotFoundIffPastEnd | tools/binaries/V-Phaser-2.0/src/bam_manip.cpp:865 | with known op codes and a position at or after the start, "fail to identify mapping" happens iff the position lies past calculate_aln_end |
| WalkFacts.WalkToUnknown | tools/binaries/V-Phaser-2.0/src/bam_manip.cpp:860-862 | from any earlier op, `Seek` reaches an op with an unknown code when every op before it is known and does not hold the position, and fails there with `UnknownCigarOp` of that code |
| WalkFacts.UnknownOpFaults | tools/binaries/V-Phaser-2.0/src/bam_manip.cpp:860-862 | `get_column_x` aborts with `UnknownCigarOp` at the first unknown op when no earlier op holds the position |
| AlnColumn.Stop | tools/binaries/V-Phaser-2.0/src/bam_manip.cpp:544-556 | the scan stops at the first alignment whose trimmed start lies right of the position, or at the end of the array |
| AlnColumn.Scan | tools/binaries/V-Phaser-2.0/src/bam_manip.cpp:541-557 | from index i, the scan fails iff some examined walk fails; otherwise the column is exactly the kept walk results of covering alignments before the stop index, stamped with their indices, in strictly increasing order |
| AlnColumn.ScanStep | tools/binaries/V-Phaser-2.0/src/bam_manip.cpp:545-555 | one loop iteration keeps the column promise |
| AlnColumn.GetAlnColumn | tools/binaries/V-Phaser-2.0/src/bam_manip.cpp:533-557 | every entry comes from a read covering ref_pos within ignbases, before the early exit, has a non-empty well-formed token and its own index; indices strictly increase; every such read with a kept observation appears; failure iff an examined walk fails |
| AlnColumn.EarlyExitSound | tools/binaries/V-Phaser-2.0/src/bam_manip.cpp:544-556 | on a position-sorted array, no alignment at or after the stop index covers the position |
| AlnColumn.SortedColumnComplete | tools/binaries/V-Phaser-2.0/src/bam_manip.cpp:541-557 | on a position-sorted array, every alignment that covers the position and keeps an observation appears in the column |
| Insertion.AddInsEntry | tools/binaries/V-Phaser-2.0/src/bam_manip.cpp:901-919 | it returns true iff the entry has inserted bases, and then pushes (flanking base, last token character); any other entry is pushed unchanged iff its token has two or more characters and neither of the first two is D |
| Insertion.AddInsOnWellFormed | tools/binaries/V-Phaser-2.0/src/bam_manip.cpp:901-919 | on a walk entry, only substitution and insertion tokens are pushed, and an insertion with bases becomes the substitution (flanking base, base after the insertion) |
| Insertion.PickedSound | tools/binaries/V-Phaser-2.0/src/bam_manip.cpp:881-891 | every picked index is that of an entry on the wanted strand that `add_ins_entry` pushes |
| Insertion.PickedExactly | tools/binaries/V-Phaser-2.0/src/bam_manip.cpp:881-891 | the picked indices strictly increase, and every entry on the wanted strand that `add_ins_entry` pushes is picked |
| Insertion.PickedAscending | tools/binaries/V-Phaser-2.0/src/bam_manip.cpp:881-891 | the picked indices strictly increase: the loop visits entries in order |
| Insertion.PickedComplete | tools/binaries/V-Phaser-2.0/src/bam_manip.cpp:881-891 | every entry on the wanted strand that `add_ins_entry` pushes has its index picked |
| Insertion.AppendIns | tools/binaries/V-Phaser-2.0/src/bam_manip.cpp:880-891 | one loop of `get_ins_column` keeps the column as a prefix and appends exactly the `Convert`ed entries at the `Picked` indices, in order; the flag is true iff some entry on the wanted strand has inserted bases |
| Insertion.AppendInsStep | tools/binaries/V-Phaser-2.0/src/bam_manip.cpp:881-884 | one loop iteration, `add_ins_entry` on an entry of the wanted strand and nothing otherwise, takes the column and flag promised for the first n entries to those promised for n + 1 entries |
| Insertion.StepColumn | tools/binaries/V-Phaser-2.0/src/bam_manip.cpp:881-884 | appending the converted last entry exactly when it is considered and pushed extends the column laid out for the shorter prefix to the one laid out for the whole sequence |
| Insertion.GetInsColumn | tools/binaries/V-Phaser-2.0/src/bam_manip.cpp:874-894 | with no insertion among the forward entries of the current column and the reverse entries of the previous column, the result is empty; otherwise it is the input, then the converted pushed forward entries of the current column, then the converted pushed reverse entries of the previous one, each group at the `Picked` indices, so in column order, with every pushed entry present, and no forward entry after a reverse one |
| Insertion.InsColumnParts | tools/binaries/V-Phaser-2.0/src/bam_manip.cpp:880-892 | the two loops together lay out the input, then the current column's part, then the previous column's part |
| Insertion.StrandsOrdered | tools/binaries/V-Phaser-2.0/src/bam_manip.cpp:880-892 | in the appended part, no forward entry follows a reverse one |
| Insertion.PartComplete | tools/binaries/V-Phaser-2.0/src/bam_manip.cpp:881-891 | when every pushed entry is picked, each one appears in its group at the position of its index, converted |
| Insertion.LaidOutPlaced | tools/binaries/V-Phaser-2.0/src/bam_manip.cpp:880-892 | in a laid-out column every pushed entry of either group appears converted, at its place |
| Insertion.CleanAlnColumn | tools/binaries/V-Phaser-2.0/src/bam_manip.cpp:924-936 | fails, with an out-of-range fault, iff some entry has an empty token; otherwise length and order are kept, entries whose token starts with I become (flanking base, last token character) with the flanking base and inserted bases cleared, and every other entry is unchanged |
| Insertion.CleanEntry | tools/binaries/V-Phaser-2.0/src/bam_manip.cpp:926-934 | one entry is cleaned as `CleanAlnColumn` states for each position |
| Insertion.CleanEntryWellFormed | tools/binaries/V-Phaser-2.0/src/bam_manip.cpp:926-934 | cleaning a walk entry leaves it well-formed, with no insertion token |
| Insertion.CleanWellFormed | tools/binaries/V-Phaser-2.0/src/bam_manip.cpp:924-936 | cleaning a column of walk entries succeeds; each insertion token becomes the substitution (flanking base, base after the insertion) and every entry stays well-formed |
| Insertion.NoInsMark | tools/binaries/V-Phaser-2.0/src/bam_manip.cpp:926 | a well-formed entry with a token other than an insertion does not start with I |
| Insertion.CleanFixesClean | tools/binaries/V-Phaser-2.0/src/bam_manip.cpp:924-936 | a column with no token starting with I is left unchanged |
| Insertion.CleanIdempotent | tools/binaries/V-Phaser-2.0/src/bam_manip.cpp:924-936 | cleaning a column of walk entries twice is the same as cleaning it once |
| MateMap.UpdateAlnMap | tools/binaries/V-Phaser-2.0/src/bam_manip.cpp:325-368 | a first sighting stores the record with no second; a later one fails iff file or reference differs from the stored first; otherwise a mate starting no earlier than the stored first (ties included) becomes the second record and an earlier one takes the first place with the old first second; other names are untouched; no first record moves later; consistency is preserved |
| MateMap.RegisterAll | tools/binaries/V-Phaser-2.0/src/bam_manip.cpp:394-425 | registering a file's alignments in order keeps every entry consistent, stores exactly the existing names plus the names seen, leaves names not seen as they were, and reports only the inconsistent-mates fault |
| MateMap.Names | tools/binaries/V-Phaser-2.0/src/bam_manip.cpp:394-425 | every alignment's name is among the names registered |
| MateMap.ClashShift | tools/binaries/V-Phaser-2.0/src/bam_manip.cpp:332-359 | after a successful update with the first alignment, each later alignment clashes against the new map exactly when it clashed against the old one |
| MateMap.RegisterFailsIff | tools/binaries/V-Phaser-2.0/src/bam_manip.cpp:394-425 | registration fails iff some alignment clashes: its name is stored with another file or reference, or its first sighting in the file lies on another reference |
| MateMap.RegisterFirstNoLater | tools/binaries/V-Phaser-2.0/src/bam_manip.cpp:337-344 | registration never moves a stored first record to a later start |
| MateMap.RegisterFirstEarliest | tools/binaries/V-Phaser-2.0/src/bam_manip.cpp:337-344 | after registration each name's first record starts no later than any of its sightings |
| MateMap.RegisterKeepsLatest | tools/binaries/V-Phaser-2.0/src/bam_manip.cpp:337-344 | the last sighting of a name is one of the two records stored for it |

## Left out

- `parse_bam_header`, `fetch_ref_seq` and `gather_alignments`: BamTools and FASTA I/O, index handling and console output.
- `set_rmap_array`: the file loop, the reference lookup, the mapped-read filter, the counters and the final clearing of the map are not modelled. They are I/O and bookkeeping. Only the update loop over one file's alignments (`MateMap.RegisterAll`) is kept, and its caller passes the mapped alignments.
- `sampling`: it uses `rand()`, `time()` and floating-point `sqrt`.
- `compute_rvc_alns`: the string reverse complement appears only as `Nucleotides.RevComp`, defined from `Complement`.
- The `xny` helpers (`is_nt`, `get_rvc_base`, `get_rvc_str`, `rvc_str`) and `jaz::to_upper` come from headers that are not part of this model. `IsNt` is membership in {A, C, G, T}. `Complement` swaps A/T and C/G in either case and leaves every other character alone. Upper-casing is ASCII only.
- The `end` parameter of `get_column_x` is unused by the source, so the model drops it.
- Integer widths are not modelled. The source uses `int` and BamTools' `uint32_t` lengths. The model uses unbounded integers and assumes no overflow.
- The defaults of a fresh `AlnColEntry` and `MapRecord` come from a header that is not part of this model. A fresh entry's index is modelled as -1, its flanking base as `'\0'`, and an absent second mate record as `None`.
- Console messages printed before the aborts are not modelled; only the fault value is.
- `Insertion.CleanAlnColumn`: when a later entry has an empty token, the source has already rewritten the earlier entries in place before `at(0)` throws. The model returns only the fault, since nothing in the program catches the exception.
- Undefined behaviour becomes preconditions. A reverse-strand read must not be longer than its CIGAR's read span (`ColumnX.ReadFitsCigar`). This keeps `CigarData[i + 1]` in range; the off-by-one guard at :702 would let the past-the-end read through. `add_ins_entry` needs a non-empty token whenever inserted bases are present (`Insertion.Offerable`), and the quantiser must be non-empty (`Quality.NonEmpty`).
- Whether a reverse-strand observation equals the forward observation of the reverse-complemented read is not stated. Nothing in the code establishes that equivalence: the reverse branch at :684-771 is written separately from the forward one, and mirrors it only case by case.
- Where the source reads a base with `at` at an index that its own guards already keep inside the read, the model indexes directly. The two `substr` calls (:664, :749) take the inserted bases, which those guards also keep inside the read, so the model slices directly there too. Every other `at` is a bounds-checked read that can give `OutOfRange`.
- `add_ins_entry` copies the whole entry and changes only `dt` (:902-909), so the pushed entry keeps its `cons_type` and `flanking_base`; `Insertion.InsRewrite` keeps them too. The comment above it at :896-899 speaks of the first base of the insertion, while the code at :904-908 takes the last character of `dt`, the base after the insertion; the model follows the code.
- `Insertion.Convert` is total: for an entry with inserted bases and an empty token it returns the entry unchanged, but only offerable entries (`Insertion.Offerable`) ever reach it, and for those it is what `add_ins_entry` pushes.
- `qqMap` and `get_extended_cigar_string` append to their output argument without clearing it. The model takes the existing contents as an input and keeps them as untouched keys or as a prefix. `get_ins_column` keeps the existing contents as a prefix only when it finds an insertion; otherwise it clears the whole column (:893), earlier contents included, and the model returns an empty column.
