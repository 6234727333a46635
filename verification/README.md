# ScaRa scaffolding core in Dafny

ScaRa improves a genome assembly by scaffolding its contigs with long reads.
This project models two pieces of it.

**The scaffolding driver, `scaffold_with_plan` in `scara.py`.**
- The plan string (for example `E3B1`) is tokenised into (operation, count)
  pairs and validated.
- Reads contained in a contig can be filtered out first. This is a PAF
  containment test plus a FASTA/FASTQ rewrite.
- Then every repetition of every plan step runs one scaffolding iteration
  with Ezra or Bridger in its own `iter<k>` folder.
- Racon polishing is optional at the start, after each Bridger iteration and
  at the end. The current contigs are finally copied to
  `scara_scaffolds_final.fasta`.
- Every stage except the read preprocessing and the final copy is skipped
  when its output path already exists.

The driver is modelled as a pure schedule of stages (`Driver.Schedule`),
executed as a fold over an abstract filesystem (`Stages.Exec`). The external
programs are uninterpreted functions of their input files (`Stages.Tools`);
Bridger may leave no output file.

**The graph scaffolder of `src/SBridger.cpp`.**
- `generateGraph` builds anchor and read nodes for both orientations of
  every sequence and tallies the edge tests.
- `groupAndProcessPaths` works on the path groups:
  - it discards small groups and keeps the best group per start node;
  - it arranges the groups by descending path count and chains them
    greedily into scaffolds without reusing a node;
  - it drops reverse-complement duplicates (`scaffoldsEqual`) and replaces
    each group by its best path.
- `generateSequences` writes each scaffold as a FASTA record, then every
  unused contig.

`std::map` is modelled as a key-ordered association list (`SortedMap`).
`shared_ptr` graphs become immutable datatypes (`Nodes`). Overlap and edge
tests, edge creation and the base complement become function parameters.

| file | module | models |
|---|---|---|
| wrappers.dfy | Wrappers | `Option`, `Result` |
| strings.dfy | Strings | `str.find`, `str.split`, `str.upper`, `std::string` ordering |
| decimal.dfy | Decimal | `int()`, `str()`, `'%0d'`, `to_string` |
| paths.dfy | Paths | `os.path.join`, `os.path.splitext` |
| plan.dfy | Plan | plan tokenising and validation |
| containment.dfy | Containment | PAF parsing and the containment test |
| readfilter.dfy | ReadFilter | rewriting the uncontained reads |
| stages.dfy | Stages | filesystem, stages, guarded execution |
| driver.dfy | Driver | the stage schedule of `scaffold_with_plan` |
| seqs.dfy | Seqs | filters, first maximum, descending sort, subsequences |
| sortedmap.dfy | SortedMap | `std::map` lookup, `operator[]`, `emplace` |
| nodes.dfy | Nodes | nodes, edges, paths, groups, `_RC` names |
| graph.dfy | Graph | `generateGraph` |
| groups.dfy | Groups | group discarding and best group per start |
| chaining.dfy | Chaining | greedy chaining into scaffolds |
| scaffolds.dfy | Scaffolds | `scaffoldsEqual` and duplicate elimination |
| process.dfy | Processing | best path per group; `groupAndProcessPaths` |
| emit.dfy | Emit | `generateSequences` |

## Model

| member | source | states |
|---|---|---|
| Strings.FirstIndex | scara.py:179 | the index is that of a `c` in `s` and no earlier character is `c` |
| Strings.Split | scara.py:145 | the pieces contain no separator and joining them with it gives `s` back |
| Strings.SplitJoin | scara.py:145 | splitting a join of separator-free pieces gives the pieces back |
| Strings.Upper | scara.py:185 | the result equals the text up to ASCII case and holds no lower-case letter, which fixes it |
| Strings.UpperIdempotent | scara.py:185-187 | upper-casing twice is upper-casing once |
| Strings.UpperIgnoresCase | scara.py:185-187 | two texts upper-case alike exactly when they are equal up to ASCII case |
| Strings.LessIrreflexive | src/SBridger.cpp:362 | the `std::map` key order never puts a key before itself |
| Strings.LessTransitive | src/SBridger.cpp:362 | the key order is transitive |
| Strings.LessTotal | src/SBridger.cpp:362 | of two distinct keys, one comes first |
| Strings.LessAsymmetric | src/SBridger.cpp:362 | two keys are never each before the other |
| Decimal.DigitChar | scara.py:239 | the character of a digit is a decimal digit whose value is that digit |
| Decimal.NatToString | scara.py:239 | `'%0d' % k` and `to_string(i)` give canonical decimal digits |
| Decimal.NatToStringValue | src/SBridger.cpp:575 | the digits of `n` read back as `n` |
| Decimal.CanonicalRoundTrip | scara.py:239 | writing the value of canonical digits gives those digits back |
| Decimal.NatToStringInjective | scara.py:239 | different iteration numbers give different texts |
| Decimal.StripLeft | scara.py:147 | `int()` drops exactly the leading white space: what it drops is all white space and what is left does not start with it |
| Decimal.StripLeftSuffix | scara.py:147 | what is left after the leading white space is the rest of the text, unchanged |
| Decimal.StripRight | scara.py:157 | `int()` drops exactly the trailing white space, such as the line break of the last column |
| Decimal.ParseIntRoundTrip | scara.py:147-157 | `int()` reads back the decimal text of any integer, with a trailer of white space |
| Decimal.SignedRoundTrip | scara.py:147-157 | the signed parse reads back the decimal text of any integer |
| Decimal.SpaceAfterSign | scara.py:147-157 | `int()` skips white space between the sign and the digits, so `'- 5'` reads as -5 |
| Paths.Join | scara.py:121 | an absolute second part replaces the first; otherwise the result is the first, one `/` unless the first is empty or already ends in `/`, then the second |
| Paths.LastIndex | scara.py:169 | the index is the last occurrence of `c`, or -1 when there is none |
| Paths.SplitExtParts | scara.py:169 | root and extension make up the path; a non-empty extension is a dot with no further dot or slash |
| Paths.SplitExtOfFile | scara.py:209 | `dir/base.ext` splits into `dir/base` and `.ext` |
| Paths.SplitExtLeadingDots | scara.py:169 | a name that starts with its only run of dots, such as `dir/.fq`, has no extension |
| Plan.DigitRun | scara.py:99 | the run is all digits and the character after it is not a digit |
| Plan.Tokenize | scara.py:99-100 | every match is one non-newline character followed by a non-empty digit run |
| Plan.DigitRunOf | scara.py:99 | a digit run stops exactly at the first non-digit |
| Plan.TokenizeStep | scara.py:99-100 | a match at the front yields that token, and the scan resumes right after it |
| Plan.TokenizeRender | scara.py:99-100 | tokenising the text that lists well-formed tokens gives those tokens back |
| Plan.TokenizeSkip | scara.py:99-100 | a character not followed by a digit starts no match |
| Plan.ParseSkipsNoise | scara.py:99-100 | non-digit text before a non-digit start is skipped by the scan |
| Plan.Validate | scara.py:103-113 | accepted iff every token has operation `E` or `B` and count 1..9; then one step per token; otherwise the error names the first bad token, operation checked before count |
| Plan.AnyBridgerExists | scara.py:101-113 | the Bridger flag is set iff some step runs Bridger |
| Plan.ParsePlanSpec | scara.py:97-113 | a plan is accepted iff every token is valid; the steps follow the tokens and the flag says whether some operation is `B` |
| Plan.ExpandLength | scara.py:231-235 | the number of iterations is the sum of the counts |
| Plan.ParseDefaultPlan | scara.py:28 | the default plan `E3B1` is three Ezra steps then one Bridger step, with the Bridger flag set |
| Plan.DefaultTokens | scara.py:28 | `E3B1` tokenises to `(E,3)`, `(B,1)` |
| Plan.ParseCountTooLarge | scara.py:109-111 | `B10` is rejected for its count 10 |
| Plan.ParseUnknownOperation | scara.py:106-108 | `X1` is rejected for its operation |
| Containment.ContainedFrom | scara.py:159-164 | a name is contained iff it already was or some row marks it, as query or as target |
| Containment.ContainedSetSpec | scara.py:138-164 | a name is in the contained set iff some row marks it |
| Containment.ParseRowAccepts | scara.py:145-157 | a data line parses iff it has at least twelve columns and `int()` accepts every numeric one |
| Containment.ParseEachAccepts | scara.py:140-157 | the line loop gets through iff every line is a header or a well-formed data line |
| Containment.ParseEachRows | scara.py:140-157 | one row per data line, in order, each the parse of its line |
| Containment.ParseLinesAccepts | scara.py:140-157 | parsing the file succeeds iff every line is accepted |
| Containment.ParseLinesRows | scara.py:142-157 | the rows are the parses of the non-header lines, one for one |
| Containment.ParseFormatRow | scara.py:145-157 | parsing the line minimap2 writes for a row gives the row back |
| Containment.IntTextsHaveNoTab | scara.py:145 | integer texts contain no tab |
| Containment.IntTextsParse | scara.py:147-157 | `int()` reads back every integer text, with or without a line break |
| Containment.ColumnsRoundTrip | scara.py:146-157 | columns whose integers read back parse to the row |
| Containment.ColumnsSplit | scara.py:145 | splitting the tab-joined columns gives them back |
| Containment.IntTextHasNoTab | scara.py:145 | the text of one integer has no tab |
| Containment.ContainmentExample | scara.py:159-161 | a read 80% inside a contig is contained; one covering 40% is not |
| ReadFilter.HeaderKey | scara.py:179-183 | the key is the header up to its first space, or the whole header |
| ReadFilter.Kept | scara.py:173-184 | a record is kept iff it is an input record whose key is not contained |
| ReadFilter.KeptAppend | scara.py:173-184 | filtering works piecewise, so kept reads keep their input order |
| ReadFilter.UnlinesAppend | scara.py:186-188 | the text of two line runs is their texts in turn |
| ReadFilter.UnlinesJoin | scara.py:186-188 | lines each followed by a break are the lines joined by breaks plus a final one |
| ReadFilter.RecordUnlines | scara.py:185-190 | one record's lines, each ended by a break, are the text written for it |
| ReadFilter.FilterReadsLines | scara.py:172-190 | the written file is the kept records' lines in order |
| ReadFilter.LayoutOfIgnoresCase | scara.py:185-187 | extensions equal up to ASCII case choose the same layout |
| ReadFilter.LayoutOfSpec | scara.py:185-187 | FASTA exactly for `.fa`/`.fasta` and FASTQ exactly for `.fq`/`.fastq`, in any case |
| ReadFilter.ShownRecords | scara.py:185-190 | FASTQ keeps whole records, FASTA drops the quality, other extensions keep nothing |
| ReadFilter.FilterReadsRoundTrip | scara.py:168-190 | reading the written file back gives exactly the kept records, as far as the layout shows them |
| ReadFilter.AllLinesSingle | scara.py:186-188 | no written line contains a line break |
| ReadFilter.ReadBackAll | scara.py:186-188 | the reader recovers every written record |
| ReadFilter.ReadBackFastaStep | scara.py:186 | a FASTA record reads back as header and sequence |
| ReadFilter.ReadBackFastqStep | scara.py:188 | a FASTQ record reads back whole |
| Stages.Exec | scara.py:130-385 | running stages either finishes or ends in a crash |
| Stages.CacheByExistence | scara.py:196-204 | a guarded stage whose output exists does nothing; otherwise one that uses tools starts one |
| Stages.Exec1Establishes | scara.py:193-385 | a stage that finishes removes nothing and leaves its guarded output in place |
| Stages.BridgerFallback | scara.py:318-329 | when Bridger leaves no file, the previous contigs are copied to the result, and their absence is a crash |
| Stages.BridgerResult | scara.py:318-326 | when Bridger writes a file, that is the result |
| Stages.EzraNoFallback | scara.py:283-295 | Ezra's result file always holds what Ezra printed |
| Stages.PreprocessFilters | scara.py:130-190 | preprocessing runs minimap2 once, stops on a malformed overlap line, and otherwise writes the filtered reads |
| Stages.SettledIsNoOp | scara.py:196 | a stage with nothing left to do changes nothing |
| Stages.ExecSettled | scara.py:193-385 | stages that are all settled change nothing and start no program |
| Stages.FoldIdle | scara.py:193-385 | stages that each change nothing change nothing together |
| Stages.StepOfEstablishing | scara.py:193-385 | stages establish their outputs and are quiet once those exist |
| Stages.ExecCachedQuiet | scara.py:196-365 | stages whose outputs all exist start no program |
| Stages.FoldCachedQuiet | scara.py:196-365 | a fold over cached stages starts no program |
| Stages.ExecEstablishes | scara.py:193-385 | after a finished run every guarded output exists and nothing was removed |
| Stages.FoldEstablishes | scara.py:193-385 | a finished fold leaves every guarded output |
| Stages.ExecAppendCrash | scara.py:385 | a crash ends the run |
| Stages.FoldAppendStop | scara.py:385 | stages after a crash are ignored |
| Stages.ExecAppend | scara.py:193-385 | running two stage lists in turn is running their concatenation |
| Stages.FoldAppend | scara.py:193-385 | a fold of a concatenation is the folds in turn |
| Stages.ExecCons | scara.py:193-385 | a run is its first stage, then the rest |
| Stages.ThenAssoc | scara.py:193-385 | composing outcomes is associative |
| Stages.ExecFinishedNoAbort | scara.py:362 | a finished run never reached the end polish that has no iteration folder |
| Stages.FoldFinishedNoAbort | scara.py:362 | a finished fold met no `Abort` |
| Stages.AllGuardedAppend | scara.py:193-380 | stage lists are guarded iff both halves are |
| Stages.PublishLast | scara.py:382-385 | after the final copy the destination holds what the current contigs hold |
| Stages.ReplayIdempotent | scara.py:193-385 | rerunning guarded stages and the final copy on their own result changes nothing |
| Stages.ReplayPreprocess | scara.py:130-134 | rerunning with preprocessing starts exactly the unguarded preprocessing alignment |
| Stages.ReplayFromPreprocess | scara.py:130-134 | after the preprocessing, cached stages start nothing |
| Driver.IterFilesNames | scara.py:239-258 | iteration `k` uses `iter<k>` and `iter<k>/scaffolds_iter<k>.fasta` under the results folder |
| Driver.IterationActions | scara.py:236-356 | an iteration is its folder, the read alignment against the current contigs, the scaffolder and, after Bridger with `--racon`, a polish |
| Driver.IterationPolishes | scara.py:336 | an iteration polishes iff it ran Bridger and `--racon` is given |
| Driver.IterationGuarded | scara.py:273-341 | every stage of an iteration is guarded by its output |
| Driver.IterationResult | scara.py:298-356 | an iteration's scaffolder writes `scaffolds_iter<k>.fasta`, and that, or its polish, becomes current |
| Driver.Blocks | scara.py:230-356 | one iteration per repetition of a plan step |
| Driver.BlocksNumbered | scara.py:231-299 | iterations are numbered on from the first, with their scaffolder and files |
| Driver.BlocksLinked | scara.py:298-356 | each iteration starts from what the previous one left current |
| Driver.FlattenGuarded | scara.py:273-341 | every stage of every iteration is guarded |
| Driver.SetupTail | scara.py:193-228 | the read overlaps are computed iff Bridger is planned, the initial polish iff `--racon-start` |
| Driver.Finish | scara.py:359-380 | there is an end stage iff `--racon-end` is set; it is a crash exactly when no iteration ran, and otherwise guarded |
| Driver.Layout | scara.py:117-385 | one iteration per scaffolder, the first from the start contigs; the results folder is made first and the final copy comes last |
| Driver.ScriptGuarded | scara.py:193-380 | every stage after the folder is guarded, unless the end polish fails |
| Driver.LayoutGuarded | scara.py:193-380 | without preprocessing every stage but the copy is guarded |
| Driver.ScriptPreprocessFirst | scara.py:117-190 | folder, then preprocessing, and no preprocessing later |
| Driver.LayoutPreprocessFirst | scara.py:117-190 | with preprocessing the folder and the preprocessing come first and only once |
| Driver.LayoutIdempotent | scara.py:117-385 | without preprocessing, rerunning the stages on a finished run's result changes nothing |
| Driver.LayoutRepeatPreprocess | scara.py:130-134 | with preprocessing a rerun starts only the preprocessing alignment |
| Driver.ScheduleIterations | scara.py:230-356 | one iteration per repetition, numbered from 1 with no reset between steps, each starting from what the previous left current |
| Driver.ScheduleFinish | scara.py:359-385 | the final file is `scara_scaffolds_final.fasta`, a copy of what is current after the optional end polish in the last iteration folder |
| Driver.Run | scara.py:97-387 | a run is rejected iff the plan is invalid, and then no file is touched and no program started |
| Driver.RunIdempotent | scara.py:117-387 | without `--preprocess` a second run on a finished run's result starts no program and changes nothing |
| Driver.RunRepeatPreprocess | scara.py:130-134 | with `--preprocess` a second run starts exactly the preprocessing alignment |
| Driver.RunPublishes | scara.py:382-385 | after a finished run the final file holds exactly the current contigs |
| Driver.IterDirInjective | scara.py:239 | different iterations have different folders |
| Seqs.AtLeastMembers | src/SBridger.cpp:336-346 | an element survives iff its score is at least the bound |
| Seqs.AtLeastAppend | src/SBridger.cpp:336-346 | filtering keeps the relative order |
| Seqs.WithKeyMembers | src/SBridger.cpp:363-374 | an element is selected iff its key matches |
| Seqs.WithKeyEmpty | src/SBridger.cpp:363-374 | nothing is selected iff no element has the key |
| Seqs.MaxFromIsFirstMax | src/SBridger.cpp:382-388 | the strict `>` loop keeps the first element with the highest score |
| Seqs.FirstMaxSpec | src/SBridger.cpp:380-388 | the first maximum has the highest score and every earlier element scores lower |
| Seqs.InsertDescMultiset | src/SBridger.cpp:439-442 | insertion adds exactly the element |
| Seqs.InsertDescElems | src/SBridger.cpp:439-442 | insertion adds nothing else |
| Seqs.InsertDescSorted | src/SBridger.cpp:439-442 | insertion keeps the order descending |
| Seqs.SortDescSpec | src/SBridger.cpp:439-442 | the sort is a permutation in descending order |
| Seqs.SubsequenceMembers | src/SBridger.cpp:508-524 | elements of a subsequence are elements of the whole |
| Seqs.SubsequencePairs | src/SBridger.cpp:508-524 | two positions of a subsequence come from two ordered positions of the whole |
| SortedMap.KeysGet | src/SBridger.cpp:364 | `find` succeeds iff the key is stored |
| SortedMap.GetAt | src/SBridger.cpp:378 | in key order, `find` returns each entry's own value |
| SortedMap.PutSpec | src/SBridger.cpp:367 | `m[k] = v` keeps keys ordered, adds `k`, stores `v` and leaves every other key alone |
| SortedMap.EmplaceSpec | src/SBridger.cpp:153-157 | `emplace` keeps keys ordered, adds `k`, keeps an existing value and leaves every other key alone |
| Nodes.ToggleRCDiffers | src/SBridger.cpp:157 | the twin's name differs from the node's |
| Nodes.ToggleRCInvolutive | src/SBridger.cpp:157 | toggling twice gives a name back unless it ends in `_RC_RC` |
| Nodes.ToggleRCNotInvolutive | src/SBridger.cpp:157 | `x_RC_RC` toggles twice to `x` |
| Nodes.OriginalFixed | src/SBridger.cpp:687-689 | a name is its own forward name iff it has no `_RC` suffix |
| Graph.AddNodesKeys | src/SBridger.cpp:150-158 | node creation keys `id` and `id_RC` for every sequence and keeps the map ordered |
| Graph.AddNodesOthers | src/SBridger.cpp:150-158 | other keys are untouched |
| Graph.AddNodesExact | src/SBridger.cpp:150-158 | `id` holds the forward node and `id_RC` the reverse node, both with the sequence of `id` |
| Graph.BothNamesListed | src/SBridger.cpp:150-158 | every created name is `id` or `id_RC` of a listed id |
| Graph.AppendCancelRight | src/SBridger.cpp:157 | equal suffixed names have equal ids |
| Graph.CandidatesFrom | src/SBridger.cpp:175-185 | an edge is a candidate iff some overlap passing its test created it |
| Graph.CandidatesAppend | src/SBridger.cpp:175-185 | read-to-contig candidates come before read-to-read ones |
| Graph.TallyCounts | src/SBridger.cpp:195-214 | each counter grows by the number of edges with its test value; "usable" counts every other value |
| Graph.TallyTotal | src/SBridger.cpp:195-214 | the counters together grow by the number of edges |
| Graph.AttachMembers | src/SBridger.cpp:215-223 | an edge is attached iff it is a candidate with a positive test value |
| Graph.UsableSplit | src/SBridger.cpp:197-223 | usable edges are the attached ones plus those with value zero or below -4 |
| Graph.CountIsolatedBounds | src/SBridger.cpp:232-241 | isolated nodes are at most all nodes; none iff every node has out-edges; all iff none has |
| Graph.BuildGraphSpec | src/SBridger.cpp:143-244 | both node maps hold both names of every id; the counters sum to the candidate edges; exactly the positive candidates are attached; isolated counts are bounded |
| Graph.BuildGraphAnchors | src/SBridger.cpp:150-158 | every contig id has its forward anchor under `id` and its reverse anchor under `id_RC` |
| Groups.DiscardSpec | src/SBridger.cpp:336-346 | a group survives iff it has at least `MinPathsinGroup` paths, in original order |
| Groups.BucketAllGet | src/SBridger.cpp:363-374 | each bucket holds the earlier entries then the new elements with its key, in order |
| Groups.BucketAllKeys | src/SBridger.cpp:363-374 | the buckets are the old keys plus the keys of the new elements |
| Groups.ByStartBuckets | src/SBridger.cpp:362-374 | `mGroups` has one non-empty bucket per start name, holding the groups with that start, in order |
| Groups.BestsAt | src/SBridger.cpp:376-390 | one winner per bucket, the first maximum of its bucket |
| Groups.BestPerStartAt | src/SBridger.cpp:376-390 | survivor `i` is the first group with the most paths among those with the `i`-th start name |
| Groups.BestPerStartAscending | src/SBridger.cpp:378 | survivors come in ascending start-name order |
| Groups.BestPerStartNames | src/SBridger.cpp:376-390 | every start name has a survivor and no other name does |
| Groups.BestPerStartBest | src/SBridger.cpp:380-388 | each survivor is the first group with the most paths for its start |
| Groups.BestPerStartSpec | src/SBridger.cpp:359-390 | one survivor per distinct start name, in key order, each the first group with the most paths |
| Groups.BestPerStartFrom | src/SBridger.cpp:376-390 | every survivor is an input group |
| Groups.ArrangementExists | src/SBridger.cpp:439-442 | a descending arrangement of any groups exists |
| Chaining.SweepProgress | src/SBridger.cpp:463-484 | a sweep only adds names of pool groups, reports a change iff it added one, and otherwise leaves the scaffold alone |
| Chaining.Shrinks | src/SBridger.cpp:469-477 | using a fresh name shrinks the unused names |
| Chaining.GrowingBack | src/SBridger.cpp:468-473 | extending at the back keeps a linked, fresh chain |
| Chaining.GrowingFront | src/SBridger.cpp:476-481 | extending at the front keeps a linked, fresh chain |
| Chaining.SweepGrowing | src/SBridger.cpp:466-483 | a sweep keeps the scaffold a linked chain of pool groups on fresh names |
| Chaining.GrowGrowing | src/SBridger.cpp:462-484 | growing keeps the scaffold a linked chain of pool groups and keeps what it had |
| Chaining.Seeded | src/SBridger.cpp:455-485 | a scaffold from a group on unused nodes is a linked chain holding that group, using exactly new names |
| Chaining.SeededUsed | src/SBridger.cpp:455-485 | seeding only adds used names |
| Chaining.ChainFromAt | src/SBridger.cpp:446-487 | every scaffold is a non-empty linked chain of pool groups on names unused before |
| Chaining.ChainFromApart | src/SBridger.cpp:443-487 | different scaffolds share no node |
| Chaining.SeededApart | src/SBridger.cpp:443-487 | a scaffold shares no node with the scaffolds after it |
| Chaining.ChainFromCovers | src/SBridger.cpp:446-453 | every group on unused nodes shares a node with some scaffold |
| Chaining.SweepStill | src/SBridger.cpp:462-484 | a sweep that reports no change met no group continuing the scaffold at either end with a free node |
| Chaining.GrowMaximal | src/SBridger.cpp:462-484 | growing stops only when no remaining group continues the scaffold at the back or the front with a free node |
| Chaining.TakenShift | src/SBridger.cpp:443-487 | the names used before a scaffold are those used before the run plus the nodes of the scaffolds before it, counted from either start |
| Chaining.ChainFromMaximal | src/SBridger.cpp:446-487 | no group continues a finished scaffold at either end with a node that neither it nor an earlier scaffold uses |
| Chaining.ChainFromSeed | src/SBridger.cpp:446-487 | scaffold `k` is seeded by the first group whose two nodes no earlier scaffold uses and is grown over the groups after it |
| Chaining.ChainSpec | src/SBridger.cpp:443-487 | scaffolds are non-empty linked chains of arranged groups with pairwise disjoint nodes and every group touches one; each is seeded by the first arranged group on free nodes, grown over the groups after it, and cannot be extended at either end |
| Scaffolds.ScaffoldsEqual | src/SBridger.cpp:724-742 | false for different sizes, an error for two empty scaffolds, otherwise whether the second mirrors the first |
| Scaffolds.MirrorEquivalent | src/SBridger.cpp:501-504 | a scaffold's other-strand twin is recognised as its duplicate |
| Scaffolds.MirroredSymmetric | src/SBridger.cpp:739 | mirroring is symmetric when no name ends in `_RC_RC` |
| Scaffolds.FlipWith | src/SBridger.cpp:739 | mirroring under a self-inverse renaming is symmetric |
| Scaffolds.EquivalentSymmetric | src/SBridger.cpp:724-742 | for plain names the comparison ignores argument order |
| Scaffolds.EquivalentAsymmetric | src/SBridger.cpp:724-742 | a name ending in `_RC_RC` makes it order-dependent |
| Scaffolds.MirroredLinked | src/SBridger.cpp:739 | the mirror of a chain is a chain |
| Scaffolds.FoundInSpec | src/SBridger.cpp:509-515 | the inner loop finds a kept scaffold matching the current one; an empty scaffold meeting an empty kept one is an error |
| Scaffolds.DedupFromFails | src/SBridger.cpp:508-524 | elimination fails iff an empty scaffold meets another empty one |
| Scaffolds.TwoEmptyCons | src/SBridger.cpp:508-524 | two empty scaffolds are the head and a later one, or two later ones |
| Scaffolds.DedupFails | src/SBridger.cpp:508-524 | elimination fails iff two scaffolds are empty |
| Scaffolds.DedupFromKeeps | src/SBridger.cpp:508-524 | the kept list extends the earlier one by a subsequence of the input |
| Scaffolds.DedupFromCovers | src/SBridger.cpp:508-524 | every input scaffold is kept or matches a kept one |
| Scaffolds.DedupFromDistinct | src/SBridger.cpp:508-524 | no kept scaffold matches one kept before it |
| Scaffolds.DedupSpec | src/SBridger.cpp:501-524 | with at most one empty scaffold: kept ones are in input order; none duplicates an earlier one; every dropped one duplicates a kept one |
| Processing.BestPathSpec | src/SBridger.cpp:544-551 | a group has a best path iff it has paths, and then it is the first with the highest `avgSI` |
| Processing.BestPathsSpec | src/SBridger.cpp:542-553 | paths are chosen iff every group has one, position by position |
| Processing.BestPathsAllSpec | src/SBridger.cpp:541-555 | every kept scaffold gets its best-path list, in order |
| Processing.ArrangedFrom | src/SBridger.cpp:336-442 | every arranged group is an input group with enough paths |
| Processing.KeptScaffolds | src/SBridger.cpp:336-524 | the duplicate check cannot fail; kept scaffolds are non-empty chains of large enough input groups, node-disjoint and distinct, and cover every chained scaffold |
| Processing.GroupAndProcessSpec | src/SBridger.cpp:269-558 | when every group has paths, processing gives one path list per kept scaffold with the best path of each group |
| Processing.BestPathsLinked | src/SBridger.cpp:541-555 | the best paths of a chain follow one another |
| Emit.RevComp | src/SBridger.cpp:671 | the reverse complement has the same length and holds the complemented bases back to front |
| Emit.RevCompInvolutive | src/SBridger.cpp:671 | reverse-complementing twice gives the sequence back for a self-inverse complement |
| Emit.PartSpec | src/SBridger.cpp:616-646 | a part exists iff its unsigned size is positive and within the start node; it is that prefix of the node's oriented sequence |
| Emit.WrappedSizeNotRejected | src/SBridger.cpp:623-627 | `SStart < EStart` wraps to a huge size that the `<= 0` check does not reject |
| Emit.JoinedAppend | src/SBridger.cpp:616-654 | the text of two runs is their texts in turn |
| Emit.JoinedSuccess | src/SBridger.cpp:616-654 | the text exists iff every part does |
| Emit.JoinedLength | src/SBridger.cpp:616-654 | the text is as long as all parts together |
| Emit.JoinedAt | src/SBridger.cpp:616-654 | each part sits right after the parts before it |
| Emit.PartsSpec | src/SBridger.cpp:616-658 | the body exists iff every part does and is as long as all parts together |
| Emit.PartsAt | src/SBridger.cpp:616-658 | part `j` of the body sits at the sum of the earlier sizes |
| Emit.SpacedJoin | src/SBridger.cpp:585-595 | the header is its fields joined by blanks |
| Emit.HeaderFields | src/SBridger.cpp:575-595 | the header splits into `>Scaffold_i`, each path's first start node and the last end node; the title digits read back as `i` |
| Emit.ScaffoldTextSpec | src/SBridger.cpp:575-672 | a record exists iff the scaffold is non-empty, every path has edges and every part is valid; header line first, the last end node's oriented sequence last, exactly the parts between them |
| Emit.UsedInSpec | src/SBridger.cpp:608-614 | a name is used by a scaffold iff it is either orientation of a path's start or end |
| Emit.UsedContigsSpec | src/SBridger.cpp:570-614 | `usedContigs` holds exactly both orientations of every chosen path's start and end nodes |
| Emit.BothOrientationsUsed | src/SBridger.cpp:608-614 | a path touching a contig marks both its names used |
| Emit.UnusedNodesSpec | src/SBridger.cpp:685-692 | the unused anchors are exactly the forward anchors with unused names, in key order |
| Emit.SubsequenceSkip | src/SBridger.cpp:685-692 | skipping an anchor keeps the order |
| Emit.NoContigTwice | src/SBridger.cpp:608-614 | a contig written on its own was not used by any scaffold path |
| Emit.SequencesSucceed | src/SBridger.cpp:568-697 | the output exists iff every scaffold's record does |
| Emit.ScaffoldsTextAt | src/SBridger.cpp:571-575 | record `k` is numbered `k + 1` and follows the records before it |
| Emit.NumberedPrefix | src/SBridger.cpp:569-573 | scaffolds are numbered from 1 |
| Emit.SequencesLayout | src/SBridger.cpp:568-697 | the scaffold records come first and the unused contigs end the output |

## Left out

- The external programs (minimap2, Ezra, Racon, Bridger) and the shell. They are uninterpreted functions of their input files. Their exit status and log text are not modelled.
- `read_fastq` and the FASTA/FASTQ/PAF parsers used by `Initialize`. Records and overlaps are inputs.
- `check_tools`, argument parsing and usage text. These are plumbing.
- Logging to standard error and all printing and debug functions of `SBridger.cpp`. This includes the debug-only `slength`/`numNodes` arithmetic.
- Writing output as it goes. `generateSequences` writes each record to `cout` before a later part can throw; the model returns either the whole text or the first error.
- `generatePaths` and the grouping of paths into `PathGroup`s via `addPathInfo` and path reversal. The groups and their `numPaths`, `avgSI` and edge lists are inputs.
- Group validity is not checked against its paths. The model does not require that `numPaths` equals the number of path infos.
- `Overlap::Test`, `Edge::test` and `createEdgesFromOverlap`. They are function parameters, and `createEdgesFromOverlap` sees the two node maps.
- `_bioBaseComplement`. It is a parameter `comp`.
- `_bioReverseComplement`. Its source is not part of this model; it is modelled as `Emit.RevComp`, the sequence reversed with `comp` applied to every base.
- The `Node` constructor. Its source is not part of this model; a node's name is taken to be its key in the node map (`Graph.NamedByKey`).
- `getRCNodeName` and `getOGNodeName`. Their sources are not part of this model; they are modelled as toggling or stripping the `_RC` suffix that node creation appends.
- The exact field types of `Edge`. `SStart` and `EStart` are integers, and only their difference wrapped modulo 2^32 is used.
- `avgSI` is a real that is only compared. `0.5*qlen` is stated exactly as `2*(qend-qstart) >= qlen`.
- The tie order of `std::sort` (not stable). `groupAndProcessPaths` takes the arrangement as a parameter constrained to be a descending permutation; `Groups.ArrangementExists` shows one exists.
- The `isolatedANodes`/`isolatedRNodes` counters are not reset by `generateGraph`. The model starts them at zero.
- Undefined behaviour in `generateSequences` is modelled as an error:
  - an empty scaffold or a path without edges;
  - a part longer than its start node (`PartOutOfRange`).
- Filesystem details:
  - parent-directory existence for writes;
  - universal-newline translation of the overlap file;
  - `shutil.copy` into a directory;
  - log files that are computed but never written.
- Driver.Finish: the end polish uses `results_subfolder` of the last iteration; with no iteration Python raises `NameError`, modelled as a crash (`Abort`).
- Emit.PartSpec: a part that overruns its start node is an error, where C++ appends a NUL (a forward node overrun by one, if `seq_strData` is a `std::string`) or reads out of bounds.
