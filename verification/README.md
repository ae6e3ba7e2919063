# Models and proofs for the document-reading pipeline

This project models the checking and bookkeeping code of the pipeline's `common/` package and
proves what each part is for. Every algorithm is written in the form its source has (a class
whose methods update its fields, a loop over an array, a recursive value function) and is proved
against a specification. For most that is one the algorithm does not appear in: edit paths, sets
of pixels, chains of pixels, surviving rows of a log, places in a tree, a layout of pieces, byte
layouts. Where a value function restates the source's own rule (the flattening steps, the median
test on anchors, the register's checks, the findings of the record rule, the background verdict) a
second statement that does not name it is proved of it. Nothing here was executed.

The parts, and the modules that hold them:

* **Approximate matching** (`Bits`, `EditDistance`, `SubstringDistance`, `NearPieces`): the
  bit-parallel matcher computes the least edit distance to a substring; the one-deletion index
  never misses a piece one edit away.
* **Regions** (`Pixels`, `Regions`): the sweep over slabs and spans counts the pixels of a union
  of boxes.
* **Alignment and coverage** (`Alignment`, `Blocks`, `Patience`, `Anchors`, `Consistency`,
  `Splitting`, `Course`, `Matching`, `Coverage`): the work list finds and charges exactly what a
  recursion over the two texts does, ordered, disjoint, genuine blocks; and a ledger accounts for
  every character of a witness text once.
* **Record detection** (`Detection`): the rule that pairs detector records with act entries
  passes exactly when they pair, and says of every other page what is amiss.
* **Component labelling** (`DisjointSets`, `InkGraph`, `RowSweep`, `Components`, `Labelling`,
  `LabelUniqueness`): union-find over scanline runs finds the Chebyshev-connected components.
* **Answer repair** (`BareKeys`, `BareKeyLaws`, `JsonPrint`, `GrammarKeys`): quoting bare grammar
  keys undoes their baring and does nothing else.
* **Flattening** (`FlatText`, `Flatten`, `FlattenShape`, `FlattenAlone`, `FlattenContent`,
  `FlattenLayout`, `FlattenPlaces`, `TreePlaces`, `SectionJobs`, `MarkedPlaces`, `Document`): pages,
  sections, marks and lines are what stands at certain places of the tree; a recorded span holds
  what its element alone would flatten to, by a simulation between two builders; no character is
  lost or added; and the text is the layout of the element's characters with the widest separator
  asked for between any two.
* **The corpus register** (`Register`, `RegisterAcceptance`, `RegisterReading`, `RegisterAppend`):
  which logs are accepted, said of the log alone; replaying one leaves each page's surviving chain;
  concurrent writers never lose or reorder an append.
* **The call window** (`Window`) and **the background start** (`BackgroundStart`): step systems
  over every interleaving.
* **Deterministic PNG** (`Bytes`, `StoredDeflate`, `Png`): encoder and strict decoder, following
  section 3.2.4 of RFC 1951, section 2.2 of RFC 1950 and section 5.3 of the W3C PNG
  Specification.
* **Background inference** (`Background`, `PageEvidence`): one page's paper value, the one answer
  that meets its conditions, and the bounds its evidence keeps.

`Sorting`, `Arithmetic` and `Options` serve several of them.

Conventions. Python integers are Dafny integers; floor division by a positive divisor is Dafny's
own. Python bit operations on nonnegative integers of any width are the recursive functions of
`Bits`. Hashes and checksums (register digests and derived identities, CRC-32, Adler-32) are
function parameters; nothing is assumed of them except, where a lemma says so, that a digest
tells two registers apart. The library decompressor is a parameter too, assumed only to read
streams of stored blocks as the RFCs say, and only where a lemma says so. Mutual exclusion and
atomic replacement of a file are single steps.

Findings that came out of the proofs:

* `abandon` (common/background_start.py:70-79) is sound for a caller that asks once. Asked again
  after the start has returned to an abandoned chair, it answers that the caller owns a chair the
  thread stops.
* A witness text identical to its reading is left unread when it is shorter than the minimum
  block and longer than the sealed unread run; `Coverage.ShortTextAgainstItself` gives the exact
  condition for texts aligned directly, `Coverage.OwnTextLeftUnread` such a text.
* A marked element that writes nothing, before the first character of its section, is recorded at
  the end of the text before the section and so outside its section's span
  (common/churro_document.py:353-364); `Document.InOwn` says exactly when, and
  `Document.AGapBeforeItsBody` shows it.
* The one-deletion index can report a piece two edits away from every substring, and never one
  further away.
* The loader refuses a fraction of half the distance between the modes or more because the dark
  counts would stop being subsets of the counted ink (common/background.py:645-660). They would
  not: the level is capped at the ink threshold, and `Background.DarkDistributionAddsUp` holds up
  to the whole distance. What the bound does buy is that the counts are taken at the midpoint of
  modes at least 39 levels apart; closer ones are never measured there
  (`Background.MeasuredAtTheMidpoint`).

## Model

| member | source | states |
|---|---|---|
| SubstringDistance.BestSubstringDistance | common/page_accounting.py:1528-1555 | The bit-parallel scan returns the least Levenshtein distance from the pattern to any substring of the text, the empty pattern and text included: no substring is nearer and one is that near. |
| SubstringDistance.LeastDistanceIsFewestEdits | common/page_accounting.py:1529 | That least distance is the fewest single edits on any path from the pattern to a substring, and some path takes exactly so many. |
| SubstringDistance.AdvanceEncodes | common/page_accounting.py:1541-1553 | One step of the plus and minus vectors takes the column over a text to the column over one character more: each bit is the vertical difference of the edit-distance table at that row, top row zero. |
| SubstringDistance.CarryIsFall | common/page_accounting.py:1543 | A carry of the masked addition reaches row i exactly when the table falls by one from the previous column to this one at row i. |
| SubstringDistance.SumBits | common/page_accounting.py:1543 | Bit by bit, what the masked carry addition makes of the equality and plus vectors. |
| SubstringDistance.HorizontalBits | common/page_accounting.py:1544-1551 | The two horizontal vectors are the rises and falls between neighbouring columns. |
| SubstringDistance.EqualityTable | common/page_accounting.py:1535-1537 | The table of equality masks has bit i of a character exactly when the pattern has it at i. |
| SubstringDistance.CellIsLowerBound | common/page_accounting.py:1529 | A cell of the column is at most the distance to any substring ending there. |
| SubstringDistance.CellIsAttained | common/page_accounting.py:1529 | Some substring ending there is exactly a cell away. |
| EditDistance.LevIsLowerBound | common/page_accounting.py:1529 | No path of single edits is shorter than the recursive distance. |
| EditDistance.LevIsAttained | common/page_accounting.py:1529 | A path of single edits of exactly that length exists. |
| EditDistance.AtMostOneEdit | common/page_accounting.py:1567 | A distance of at most one is exactly: equal, one substitution, one deletion or one insertion. |
| NearPieces.NearIsComplete | common/page_accounting.py:1566-1579 | The index reports near for every piece of length k within one edit of a substring of a text of at least k characters. |
| NearPieces.NearIsSound | common/page_accounting.py:1574-1579 | A piece reported near is at most two edits from some substring. |
| NearPieces.TwoEditsCanBeReported | common/page_accounting.py:1575-1579 | Two is reached: a piece two edits from every substring that is reported near, so the bound cannot be one. |
| Regions.AreaInside | common/page_accounting.py:1188-1214 | The slab-and-span sweep counts exactly the pixels of the box that the union of the regions covers. |
| Regions.SpanLength | common/page_accounting.py:1202-1212 | Sweeping sorted spans gives the number of rows in their union, touching and nested spans included. |
| Regions.InkIs | common/page_accounting.py:631-634 | The ink of some boxes is the pixels that some box holds. |
| Regions.SlabIsProduct | common/page_accounting.py:1198-1213 | Between neighbouring edges the cover is the slab times the rows of the spans over it. |
| Regions.RegionArea | common/page_accounting.py:631-634 | The area of a region is the number of pixels its boxes cover together, zero for none. |
| Regions.SharedArea | common/page_accounting.py:637-645 | The union of the pairwise overlaps has as many pixels as the two unions share. |
| Regions.SharedAtMostSmaller | common/page_accounting.py:637-645 | What two regions share never exceeds the smaller. |
| Regions.IsInside | common/page_accounting.py:1217-1219 | A box is inside exactly when the sealed share of its pixels lies in the union. |
| Regions.OnlyPixelsMatter | common/page_accounting.py:1217-1219 | Order and repetition of the boxes change neither the pixels nor the answer. |
| Regions.IsDuplicate | common/page_accounting.py:662-670 | The share test for one pair of regions, decided on pixel sets. |
| Regions.DuplicateLaws | common/page_accounting.py:651-656 | The test is symmetric; a nonempty region inside another is held whenever the sealed share is below the whole; at a sealed share of the whole or more nothing is held. |
| Alignment.WorkBudget.Spend | common/page_accounting.py:1271-1274 | Charged steps come off what is left, the call fails exactly when less than nothing is left, and the work done never passes the budget. |
| Alignment.FindLongestMatch | common/page_accounting.py:1293 | The plain search returns a longest common run of the range, the earliest on the first text and then on the second, comparing each pair of characters once. |
| Alignment.ScanDiagonal | common/page_accounting.py:1298-1307 | Scanning one diagonal finds any run on it longer than the best so far, comparing its pairs once each. |
| Alignment.LongestInBand | common/page_accounting.py:1277-1308 | The answer is the unbanded longest run, earliest first, when that lies in the band or there is none, and else a longest run of the band, on the lowest diagonal and earliest there; the charge is every pair of the range and, for a banded scan, every pair on its diagonals, all of it done, and never more even when the budget is spent. |
| Blocks.DirectBlocks | common/page_accounting.py:1311-1352 | The work list ends with exactly the blocks of the recursive definition: the longest run in each range's band, if long enough, and the same either side. The blocks are genuine, apart on both texts and inside the range; with the ranges given up they leave nothing out, and no range given up has a run of the minimum length in its band; what is charged is exactly what the same recursion adds up, all of it done, and never more; it is not measured exactly when the budget does not cover that. |
| Blocks.SearchTurn | common/page_accounting.py:1339-1351 | Whatever one turn makes of the last range, blocks, ranges given up or ranges for later, the search stays sound and complete: apart, inside, bounded by blocks, and leaving no position out. |
| Blocks.BisectTurn | common/page_accounting.py:1349-1351 | A run of a range and the ranges either side of it are such a turn. |
| Blocks.HalvesShrink | common/page_accounting.py:1349-1351 | They leave less of the witness to search. |
| Blocks.BandIs | common/page_accounting.py:1336-1345 | The band is the diagonals within the slack of one between those of the range's two corners. |
| Blocks.WholeIsLongest | common/page_accounting.py:1344-1346 | A text against itself is answered by the whole range. |
| Patience.UniqueGrams | common/page_accounting.py:1366-1368 | The index holds exactly the k-grams occurring once in the range, each at its place. |
| Patience.UniquePairs | common/page_accounting.py:1370-1371 | Every pair of k-grams unique on both sides, and no other, in order on the first text: the one such list there is. |
| Patience.AscendingIsUnique | common/page_accounting.py:1371-1371 | Two ascending lists of the same pairs are one list. |
| Patience.LongestChain | common/page_accounting.py:1372-1391 | The chain read off the back-pointers ascends on both texts and no chain of the pairs is longer; of the longest it is the one that ends at the last pair of the greatest depth and has before each pair the last earlier one of the depth before. |
| Patience.ChosenIsLongest | common/page_accounting.py:1372-1391 | Whatever the pairs, that chain is a longest. |
| Patience.LaidAtDepth | common/page_accounting.py:1376-1385 | The pile a pair is laid on is how many pairs a longest chain that ends at it has before it. |
| Patience.LayDepths | common/page_accounting.py:1376-1385 | Laying a pair keeps each pile showing the last pair of its depth and each back-pointer at the last pair of the depth before. |
| Patience.LayKeeps | common/page_accounting.py:1376-1385 | Laying a pair keeps the tails ascending, every back-pointer one pile down, and later larger pairs on later piles. |
| Patience.ChainRises | common/page_accounting.py:1376-1385 | Piles rise along any chain, so there are at least as many piles as any chain has pairs. |
| Patience.Trace | common/page_accounting.py:1386-1391 | Following the back-pointers visits one pair on every pile and gives a chain. |
| Anchors.MergeRuns | common/page_accounting.py:1394-1396 | Two runs on one diagonal that touch or overlap are one run. |
| Anchors.MergeChain | common/page_accounting.py:1392-1401 | The blocks are genuine runs, strictly ordered on both texts; each starts and ends at a pair of the chain; and every pair of the chain lies in one on its own diagonal, or is skipped for starting inside one on another diagonal. |
| Anchors.TakePairMade | common/page_accounting.py:1393-1400 | One pair more keeps every earlier pair placed and places its own. |
| Anchors.AnchorBlocks | common/page_accounting.py:1355-1401 | The anchors of a range are such blocks, made of a longest chain of exactly its unique pairs listed in order on the first text: of the longest chains the one chosen, merged pair by pair. |
| Anchors.RawAnchorsAre | common/page_accounting.py:1355-1401 | Whatever the range, merging the chain chosen gives ordered genuine runs inside it, made of a longest chain of its unique pairs. |
| Anchors.AnchorsAre | common/page_accounting.py:1404-1425 | So are the ones kept for agreeing with their neighbours. |
| Anchors.ConsistentAnchors | common/page_accounting.py:1404-1425 | What is kept is still ordered runs, and is exactly the anchors within the tolerance of the median diagonal around them. |
| Consistency.KeptByMajority | common/page_accounting.py:1418-1424 | An anchor is kept exactly when more than half of those around it have a diagonal no more than the tolerance past its own, and no more than half one further before it than the tolerance. |
| Consistency.AnchorsAreAmongMost | common/page_accounting.py:1404-1425 | A range is split at its raw anchors of which that holds, and at no other. |
| Consistency.CloseAreKept | common/page_accounting.py:1404-1425 | Anchors whose diagonals are within the tolerance of one another are all kept. |
| Consistency.OwnAnchorsAreKept | common/page_accounting.py:1404-1425 | A text against itself loses no anchor. |
| Matching.MatchingBlocks | common/page_accounting.py:1428-1466 | The block list holds exactly the blocks of the recursion over both texts: a large range gives its anchors and then its gaps in the same way, any other its direct blocks. They are genuine equal runs, strictly ordered and disjoint on both texts, with no run of the minimum length left in the band of any gap; a text against itself leaves only gaps shorter than the minimum. It is measured exactly when neither text is too long, the recursion splits every large range it comes to, and the budget covers what the recursion is charged, and is charged exactly that; a budget of the steps bounded by the two lengths is never refused for work. |
| Course.GapsOnTheList | common/page_accounting.py:1460-1464 | Gaps put on the work list come to what they come to in the recursion. |
| Course.LeadsIntoGaps | common/page_accounting.py:1459-1465 | Taking the anchors of the last range and putting its gaps on the list leaves what was found and charged and what is left to find adding up to the whole. |
| Course.FewPairsSplit | common/page_accounting.py:1453-1455 | Texts with no more pairs than the bound are never refused for the size of a range. |
| Course.AnchorsAreBlocks | common/page_accounting.py:1450-1465 | Texts too large to be matched directly keep every anchor of the whole as a block. |
| Course.UnrelatedCourse | common/page_accounting.py:1428-1466 | Texts that share no character give no block; they are refused for size exactly when they have more pairs than both bounds, and are charged two steps and every pair, and past the direct bound the characters of their grams besides. |
| Course.DirectCourse | common/page_accounting.py:1443-1445 | Texts small enough come to their direct blocks, at one step and the charge of the direct recursion. |
| Matching.TurnWithinBound | common/page_accounting.py:1438-1459 | Whatever range a turn takes, reading its grams and matching it directly is charged no more than a bound in the two lengths. |
| Blocks.DirectChargeBound | common/page_accounting.py:1311-1352 | Direct matching of a range is charged at most a look for each character of it twice, and one: each look gives a range up or takes a character. |
| Matching.TakeRange | common/page_accounting.py:1438-1459 | An empty range gives nothing, a small one or one without anchors the blocks of the direct recursion, any other exactly its anchors; each is charged exactly its step, its grams and its recursion, and never more; it is refused for size exactly when it is large, has no anchors and is past the pair bound. |
| Matching.FindAnchors | common/page_accounting.py:1446-1457 | A small range gets none, at no charge. A larger one is charged for its grams and gets exactly the anchors of the longest chain chosen that agree with their neighbours; it is refused for size only when there are none and it is past the bound, and for work exactly when the budget is spent. |
| Splitting.AnchorsSplit | common/page_accounting.py:1460-1464 | Ordered blocks and the gaps between them split the range without overlap. |
| Splitting.AnchorTurn | common/page_accounting.py:1460-1465 | Anchors and the gaps between them leave nothing of the range out. |
| Matching.GapIsGiven | common/page_accounting.py:1460-1466 | Every gap between the sorted blocks is a range the search gave up. |
| Matching.SortAscends | common/page_accounting.py:1466-1466 | Blocks apart from one another, once sorted, are strictly ordered on both texts. |
| Matching.GapIsShort | common/page_accounting.py:1428-1466 | For a text against itself a gap with nothing long enough left in it is shorter than the minimum block. |
| Coverage.Cover | common/page_accounting.py:1490-1525 | Matched characters are those of the blocks, credited ones the lesser of each gap and its credit, unread ones the rest, and the three add up to the witness text; a reading without a mark leaves unread at least as many characters as it is shorter by; the longest unread run is at most the unread total; the position map never falls, stays in the reading and goes as far across each stretch opposite as it is along its gap; an identical reading is wholly read when the sealed unread run reaches the minimum block less one. It is measured exactly when the alignment is, with the same refusals. |
| Coverage.Ledger | common/page_accounting.py:1505-1525 | Over any ordered block list the ledger ends with those totals and that map, and a reading without a mark leaves unread at least what it is shorter by. |
| Coverage.AllAccounted | common/page_accounting.py:1511-1518 | Up to every gap's start and end, matched, credited and unread characters account for the text exactly once. |
| Coverage.TakeGap | common/page_accounting.py:1511-1520 | One gap: the unread total and run take in what the gap leaves past its credit, and its offsets are spread over the opposite stretch. |
| Coverage.TakeBlock | common/page_accounting.py:1518-1523 | One block: its characters are matched and its offsets map one to one. |
| Coverage.GapLeaves | common/page_accounting.py:1513-1515 | Opposite no mark a gap leaves its length less the smaller of the characters opposite and the sealed run; opposite marks, less that run for each position of one; never less than nothing. |
| Coverage.CreditIsOpposite | common/page_accounting.py:1511-1518 | Opposite a reading without a mark what is matched and credited up to any gap is never more than the reading up to there. |
| Coverage.NoneIsLonger | common/page_accounting.py:1516 | No gap leaves more unread than the longest run. |
| Coverage.LongestIsAGaps | common/page_accounting.py:1516 | Some gap leaves exactly that. |
| Coverage.OppositeIs | common/page_accounting.py:1519-1520 | An offset of a gap is sent as far across the stretch opposite as it is along the gap, in whole characters. |
| Coverage.MatchedCharactersAgree | common/page_accounting.py:1521-1522 | Every matched offset is sent to an equal character. |
| Coverage.ShortTextAgainstItself | common/page_accounting.py:1490-1525 | A mark-free text small enough to be aligned directly against itself leaves nothing unread if and only if it has the minimum block length or is no longer than the sealed unread run. |
| Coverage.OwnTextLeftUnread | common/page_accounting.py:1490-1525 | Three characters, blocks of at least four and a sealed run of one: the one alignment of the text with itself leaves two characters unread. |
| Detection.RecordRows | common/page_accounting.py:2118-2150 | Each boxed record, in order, with exactly the numbers of the act and of the other entries its box lies inside. |
| Detection.FindAll | common/page_accounting.py:2204-2231 | The findings in order: unboxed records, none on an act page, each record's own, and each entry that holds several records by its number; and exactly what each kind means. |
| Detection.DetectionRule | common/page_accounting.py:2153-2232 | In every case the status, the findings in order, and how many records were not measured. |
| Detection.RuleIs | common/page_accounting.py:1655-1664 | The rule holds exactly when some finding is of a kind that holds, passes exactly when none is of that or an unmeasured kind, and is not measured in the one case left. |
| Detection.PassIff | common/page_accounting.py:2153-2232 | The findings pass exactly when every record has a box, lies in an act, is not set aside, shares no entry with another, and acts are not without records. |
| Detection.HoldIff | common/page_accounting.py:2153-2232 | The findings hold the page exactly when a boxed record is set aside or lies in no act, two records lie in one entry, or there are acts and no record. |
| Detection.FindingsMean | common/page_accounting.py:2153-2232 | Each finding is there exactly when what it says is so of some record, entry or the page, said of the records and the entries alone. |
| Detection.ActsAreListed | common/page_accounting.py:2206-2206 | The numbers named are the act entries', one for each, in the order of the entries. |
| Detection.AccountRecords | common/page_accounting.py:1859-1955 | Over the whole rule: it passes if and only if the records were counted below the cap and pair with the acts; it holds if and only if they were so counted and a record is amiss, two share an entry, or acts have none; the findings are exactly those that say what is so. When it passes there are at most as many records as acts, and at least one where there is an act. |
| Detection.RecordsInjectIntoActs | common/page_accounting.py:2153-2170 | Paired records each have an act entry of their own. |
| DisjointSets.Forest.constructor | common/components.py:136 | Every index starts as its own representative. |
| DisjointSets.Forest.Find | common/components.py:138-142 | The root found is the representative, and path halving changes no representative. |
| DisjointSets.Forest.Union | common/components.py:144-147 | Linking merges exactly the two classes. |
| DisjointSets.HalvingKeeps | common/components.py:139-141 | Pointing a node at its grandparent keeps the forest and its representatives. |
| DisjointSets.LinkingKeeps | common/components.py:145-147 | Pointing one root at another keeps the forest of the merged classes. |
| Components.RunsInRow | common/components.py:32-42 | The runs of a scanline are maximal and hold exactly its set bits. |
| Components.InkRunsByRow | common/components.py:45-74 | A pixel set in any order with repeats becomes maximal runs holding exactly its pixels. |
| Components.BuildTable | common/components.py:120-134 | The flat table holds every run of every row once, in order, with each row indexed. |
| RowSweep.JoinWithinRow | common/components.py:151-159 | The gap test on neighbours ties every near pair of one scanline. |
| RowSweep.JoinRows | common/components.py:163-176 | One forward pointer over the earlier row ties every near pair of two scanlines. |
| RowSweep.JoinAll | common/components.py:149-176 | After all row pairs every near pair of runs is tied and nothing unlinked is. |
| InkGraph.SameRepresentativeIffLinked | common/components.py:100-114 | Two ink pixels share a representative exactly when a chain of ink pixels with Chebyshev steps within the radius joins them. |
| InkGraph.NearLinked | common/components.py:149-176 | Pixels of near runs are joined by such a chain. |
| Labelling.DescribeIsTight | common/components.py:184-197 | The bounds read from a group, first and last run included, are the tight bounds of its pixels. |
| Labelling.LengthIsCount | common/components.py:198-198 | The summed run lengths are the number of pixels. |
| Labelling.GroupsPartition | common/components.py:178-202 | The groups partition the ink into its connected components. |
| Labelling.KeysDiffer | common/components.py:204-213 | Two components have different sort keys. |
| Labelling.OrderStands | common/components.py:204-213 | The sort key orders components by top, then left, and then by which has a pixel before every pixel of the other. |
| Labelling.OrderGroups | common/components.py:178-217 | The described groups are a partition in strictly ascending key order, made of the runs given. |
| Labelling.LabelComponentRuns | common/components.py:100-217 | For every nonnegative tolerance the result partitions the ink into its Chebyshev components at tolerance plus one, tightly bounded, counted, and in order of top, left and first pixel; a negative tolerance is refused. |
| Labelling.LabelComponents | common/components.py:77-97 | The same partition straight from a pixel set. |
| Labelling.CountsSumToInk | common/components.py:194-217 | The pixel counts of a partition sum to the ink. |
| LabelUniqueness.LabellingIsUnique | common/components.py:204-217 | Two ordered partitions of the same ink agree in their pixels, bounds and counts position by position, so the answer does not depend on how it was reached. |
| BareKeys.QuoteBareKeys | common/page_answer.py:389-433 | The character loop writes what the state machine writes, with the keys in order. |
| BareKeyLaws.QuotesExactlyBareKeys | common/page_answer.py:390-395 | On any text exactly the grammar keys standing outside every string, where a key is expected and before a colon, are quoted; every other character is copied. |
| BareKeyLaws.OnlyQuotesAreAdded | common/page_answer.py:390-395 | The output is the input with two quotes added for each key, as multisets of characters, from any state of the machine. |
| BareKeyLaws.RepairIsIdempotent | common/page_answer.py:389-433 | A second application changes nothing and quotes nothing. |
| BareKeyLaws.StillNoKey | common/page_answer.py:413-426 | A word that is no key before the repair is none after it. |
| JsonPrint.RepairUndoesBaring | common/page_answer.py:389-433 | Any JSON value printed with any white space and any of its grammar keys left bare is repaired to exactly its fully quoted print, the bared keys in order. |
| GrammarKeys.KeysAreWords | common/page_answer.py:92-102 | The grammar keys are words of key characters and none is a JSON literal. |
| GrammarKeys.RepairAnswer | common/page_answer.py:385-433 | The repair with the page answer grammar undoes the loss of any of its keys' quotes. |
| FlatText.TextBuilder.DoAdd | common/churro_document.py:322-340 | Adding text writes its runs with single spaces between and owes a space for white space at its ends. |
| FlatText.TextBuilder.DoFlush | common/churro_document.py:304-315 | The owed separator is written once, never at the start, and a line break wins over a space. |
| FlatText.TextBuilder.DoBreakLine | common/churro_document.py:342-346 | A break owed is the larger of those asked for. |
| FlatText.TextBuilder.DoBeginMark | common/churro_document.py:348-351 | A mark is opened on top. |
| FlatText.TextBuilder.DoEndMark | common/churro_document.py:353-364 | Only the mark on top closes; an empty one closes where the text ends. |
| FlatText.TextBuilder.DoAddText | common/churro_document.py:370-388 | A text node inside a line is added as it is, elsewhere on a line of its own, blank ones dropped. |
| Flatten.Walk | common/churro_document.py:391-420 | The recursive walk over the builder object does what the value walk says, spans appended in order, and refuses past the depth bound. |
| FlattenShape.CountsOuterLines | common/churro_document.py:402-413 | The count a walk returns is the number of lines in the subtree that are in no other line, and none inside a line. |
| FlattenShape.WalkIsSound | common/churro_document.py:391-420 | From any sound builder the walk never closes a mark out of order, only extends the text, adds no separator at either end, no space beside a newline and no third newline, and records nesting spans. |
| FlattenShape.CleanAppend | common/churro_document.py:304-315 | A run appended behind the owed separator leaves no separator at either end, none beside another and no third newline. |
| FlattenShape.RefusedIffTooDeep | common/churro_document.py:400-401 | The walk is refused exactly when the subtree reaches past the depth bound. |
| FlattenAlone.SimulateElement | common/churro_document.py:391-420 | Walking a subtree from a document's builder and from a fresh one stays in step: same refusal, same lines, same text behind the mark. |
| FlattenAlone.SpanIsAlone | common/churro_document.py:391-420 | The span a mark closes with holds exactly what its subtree alone flattens to, from every builder state. |
| FlattenAlone.ElementSpansHold | common/churro_document.py:404-420 | Every span recorded in a walk holds what its own element flattens to alone, in the order the elements close. |
| FlattenContent.ElementContent | common/churro_document.py:391-420 | A walk adds exactly the element's characters that are not white space, every one and in document order, to whatever text it starts from. |
| FlattenContent.AddRuns | common/churro_document.py:322-340 | Adding text adds its words: all of them as they are when a separator is owed, nothing is written yet or the text starts with white space, and otherwise with the first one joined to the last one written. |
| FlattenLayout.ElementLays | common/churro_document.py:304-420 | Whatever a walk starts from, the text and what is owed behind it are the layout of the element's pieces: its characters, white space and line breaks in document order, and between two characters the newlines of the widest break asked for there, else one space for white space, else nothing. |
| FlattenLayout.AloneIsLaid | common/churro_document.py:391-420 | What a subtree flattens to by itself is the layout of its pieces. |
| FlattenLayout.LayoutJoin | common/churro_document.py:304-315 | A layout is made of the layouts of its two parts, with what the pieces behind the one and before the other come to between them, and nothing at an empty end. |
| FlattenLayout.LineStandsAlone | common/churro_document.py:405-414 | A line that holds a character and is in no other has newlines between it and whatever is written before it, newlines between it and whatever is written after it, and none within it. |
| FlattenLayout.EveryLineStandsAlone | common/churro_document.py:391-420 | So it is in the text of every element for each line of it that is in no other and holds a character. |
| FlattenContent.RunsHoldAll | common/churro_document.py:326-339 | The runs between white space are all the characters that are not. |
| Document.PageSections | common/churro_document.py:423-455 | The stack collects a page's own sections in document order, one for each place under no nested page and no other section, and tells whether some place outside them holds text. |
| Document.FlattenDocument | common/churro_document.py:458-509 | The pages are the elements so named, one for each place in the tree and in document order; the sections walked are theirs, one for each place, by page, then headers, bodies and footers, then document order. Each section's span is what that section alone flattens to; the text holds exactly the sections' characters that are not white space, and only newlines outside the spans; between two neighbouring filled sections stands exactly one newline on a page and exactly two across pages; each section's text is the layout of its pieces and its line count the places of lines in no other line; the marked spans are one for each place of a marked element, and each stands behind exactly the characters of the earlier sections and its own section's before its element, and in its own section but for one case; marks nest; the pages named for text outside are those that have some, ascending; the document is refused exactly when a section is too deep. |
| TreePlaces.PagesByPlace | common/churro_document.py:464-468 | The pages found are the elements named "Page", one for each place below the root, in document order. |
| TreePlaces.OwnedByPlace | common/churro_document.py:436-455 | A page's own sections are the headers, bodies and footers with no page and no section above them, one for each place, in document order. |
| TreePlaces.OutsideByPlace | common/churro_document.py:437-454 | Text lies outside them exactly when some element reached has a tail that is not blank, or a text that is not and is neither a page nor a section. |
| SectionJobs.JobsByPlace | common/churro_document.py:469-480 | The sections are walked page by page, headers before bodies before footers, each name's in document order, one for each place. |
| MarkedPlaces.MarkedByPlace | common/churro_document.py:402-419 | The marked elements of a section are those of the six kinds, one for each place, in the order they end, each with whether it is in a line and how deep. |
| MarkedPlaces.LinesByPlace | common/churro_document.py:402-413 | The lines counted are the places of lines in no other line. |
| Document.KindLeqIs | common/churro_document.py:504-506 | Kinds at one start and end stand in alphabetical order. |
| Document.SectionIsAdded | common/churro_document.py:478-495 | A section walked with breaks owed adds nothing, or exactly the newlines owed and then its text; behind it no more than one break is owed. |
| Document.SectionFollows | common/churro_document.py:473-495 | One section more keeps every two neighbouring filled sections exactly one newline apart on a page and two across pages. |
| FlattenPlaces.ElementPlaces | common/churro_document.py:353-364 | Every span recorded in a walk stands behind exactly the characters before its element, all of them in document order: at a character of its own, or right behind the last before it when it has none. |
| FlattenPlaces.ClosingStands | common/churro_document.py:353-364 | The span a mark closes with stands behind what was written before it opened. |
| Document.InOwn | common/churro_document.py:353-364 | A marked span ends in its own section and starts in it exactly when it is not an empty one before the first character of a filled section that other text is before. |
| Document.AGapBeforeItsBody | common/churro_document.py:353-364 | Behind a header an empty gap that opens a body stands at the end of the header, outside the body. |
| RegisterReading.Reading.ValidateMembership | common/corpus_register.py:722-767 | One link is taken or refused exactly as the chain rule says. |
| RegisterReading.Reading.RetractMembership | common/corpus_register.py:663-712 | Only a page's current head can be withdrawn; what else is refused, and why. |
| RegisterReading.Reading.ValidateRecord | common/corpus_register.py:515-660 | One record of any kind is taken exactly when it is due behind the log read so far and its identity is new; it changes the reading as the replay step says, or is refused for the same reason. |
| RegisterReading.Read | common/corpus_register.py:394-431 | A register is accepted exactly when it is within the bound, every record in it is due behind the records before it, and no identity is filed twice; the reading then says what the log says: its identities, its pages, its acts and theirs, its correspondences and its chains. |
| RegisterReading.MembersOf | common/corpus_register.py:434-447 | The members of a page are its newest surviving row's, ascending, or none. |
| RegisterReading.WithdrawnLinkCanBeReasserted | common/corpus_register.py:663-712 | A withdrawn head declared again by another run is accepted and the page shows what it showed. |
| RegisterAcceptance.RegisterIff | common/corpus_register.py:394-431 | A log is accepted exactly when every record is due where it stands: a page or act under the identity its own fields derive, an act for a page declared before, a correspondence of a derived act with an act declared before and minted for its declared page and not standing, a link that names and grows the newest surviving row, a retraction of a newest row or a standing correspondence; and when no identity is filed twice. |
| RegisterAcceptance.AcceptedIffDue | common/corpus_register.py:515-660 | An accepted log with one record more is accepted exactly when that record is so due and its identity is new. |
| RegisterAcceptance.ReplayDeclares | common/corpus_register.py:515-660 | After an accepted log the identities filed, the pages, the acts and their pages are those its records name. |
| RegisterAcceptance.LinksTell | common/corpus_register.py:554-554 | Two links are one record exactly when they have one digest. |
| RegisterAcceptance.DeclarationsTell | common/corpus_register.py:621-633 | Two declarations of one correspondence are one record exactly when one run made them. |
| RegisterAcceptance.CorrespondencesTell | common/corpus_register.py:462-463 | A correspondence is told by each of its two acts. |
| RegisterAcceptance.RetractionsTell | common/corpus_register.py:655-655 | Two retractions of one thing are one record exactly when one run made them. |
| Register.ReplayAgrees | common/corpus_register.py:394-431 | After any accepted log each page's chain is exactly its membership rows no retraction names, in log order; each names its predecessor and strictly grows, the first names none. |
| Register.CorrespondencesStand | common/corpus_register.py:580-656 | After any accepted log the correspondences held are exactly those whose latest mention in the log declares them. |
| Register.DeclaredAndWithdrawnInTurn | common/corpus_register.py:621-654 | In an accepted log a correspondence is declared only where it does not stand and withdrawn only where it does. |
| Register.HeadIsUnique | common/corpus_register.py:674-700 | At most one page's head has a digest, whatever the hash. |
| Register.MembershipKeeps | common/corpus_register.py:722-767 | An accepted membership extends its own page's chain by one link and no other. |
| Register.RetractionKeeps | common/corpus_register.py:663-712 | An accepted retraction withdraws one page's newest link and no other. |
| RegisterAppend.StepKeeps | common/corpus_register.py:138-240 | Every step of every writer, a crash included, keeps the register valid, the lock exclusive and every request, and only extends the register. |
| RegisterAppend.AlwaysARegister | common/corpus_register.py:138-179 | At every moment of every run the register is valid and is exactly what was published. |
| RegisterAppend.RegisterOnlyGrows | common/corpus_register.py:138-179 | Every later value starts with every earlier one. |
| RegisterAppend.NoAppendIsLost | common/corpus_register.py:138-179 | The records of an append that returned stand, ever after, straight behind a value with the digest its caller expected. |
| RegisterAppend.PublicationsKeepOrder | common/corpus_register.py:138-179 | Publications keep the order they were made in. |
| RegisterAppend.OnlyACurrentWriterChangesIt | common/corpus_register.py:127-135 | A writer whose step changes the register had checked a digest that is the register's own, and adds exactly its records. |
| RegisterAppend.AStaleWriterChangesNothing | common/corpus_register.py:127-135 | A writer expecting any other digest than the register's changes neither it nor its history, whatever step it takes. |
| RegisterAppend.AppendFollowsWhatWasRead | common/corpus_register.py:127-135 | With digests that tell registers apart, an append stands directly behind the value its caller read. |
| RegisterAppend.OneOfTwoIsPublished | common/corpus_register.py:138-152 | Of two appends expecting the same value at most one is published, once the earlier added something. |
| RegisterAppend.OneWriterInside | common/corpus_register.py:201-240 | At most one writer is in the locked section. |
| RegisterAppend.ConfirmedIsCurrent | common/corpus_register.py:182-197 | A head is confirmed only when the register has the digest asked about at that moment. |
| RegisterAppend.CheckDecides | common/corpus_register.py:127-179 | The check lets a writer on exactly when the register has the digest it expects and takes its records, confirms one without records exactly at that digest, and fails every other; it changes nothing else. |
| RegisterAppend.ACurrentWriterCanPublish | common/corpus_register.py:138-179 | A waiting writer with the register's digest and records it takes can lock, read, pass, replace and leave, and then its records stand behind what it found. |
| RegisterAppend.ACurrentHeadCanBeConfirmed | common/corpus_register.py:182-197 | So can a writer without records have its head confirmed. |
| Window.RunInline | common/in_order_window.py:34-37 | Width 1 returns every value in order exactly when every job works and drawing does, and else raises the first error. |
| Window.SerialMeans | common/in_order_window.py:34-37 | What it returns is what each job comes to, by its own finish of its own reply, and what it raises is the error of some call, some finish or drawing itself. |
| Window.StepKeeps | common/in_order_window.py:48-91 | Every step of the drawing thread, and every call returning on its own thread, keeps the bounds, the order and the record. |
| Window.WindowIsBoundedAndInOrder | common/in_order_window.py:12-21 | Whatever the completion order, at most `width` calls are out, at most `width + 4*width - 1` jobs are held, and jobs leave once each in draw order. |
| Window.WaitsOnlyWhenFull | common/in_order_window.py:54-66 | The drawing thread waits only with every slot out, as many answered jobs held as allowed, or nothing left to draw. |
| Window.NeverStuck | common/in_order_window.py:54-80 | Until it ends there is a next step, and a blocked thread has a call out that can return. |
| Window.EveryScheduleEnds | common/in_order_window.py:54-80 | However each step is chosen, from everything that has happened so far, the pass ends after finitely many. |
| Window.EndsAsSerial | common/in_order_window.py:12-31 | It returns exactly when the serial pass does, with the same values, and raises the serial pass's error unless drawing itself failed first. |
| Window.EveryDrawnJobIsFinished | common/in_order_window.py:23-26 | At the end every drawn job has been finished in order, its value kept or its error reported, the first error first. |
| StoredDeflate.DeterministicStoredDeflate | common/imaging.py:297-316 | The loop writes full stored blocks and one final one, the empty input included. |
| StoredDeflate.BlockIs | common/imaging.py:305-315 | A stored block byte by byte: one or zero for final or not, length and complement with the less significant byte first, and the data. |
| StoredDeflate.BlocksReadBack | common/imaging.py:305-315 | Reading up to the first final block consumes every block and gives the data: the final block is the last and only one. |
| StoredDeflate.StoredReadsBack | common/imaging.py:297-316 | At every length the stream inflates to its input and ends where its bytes end. |
| StoredDeflate.BlocksLength | common/imaging.py:309-315 | Five bytes of framing for each begun 65,535 bytes of input. |
| Png.EncodeGrayscale | common/imaging.py:358-373 | The encoding is the one framing of its rows; which inputs are refused, and that they are refused for shape or for what does not fit a length field. |
| Png.ChunkIs | common/imaging.py:258-260 | A chunk byte by byte: length, tag, data, and the checksum of tag and data together. |
| Png.HeaderIs | common/imaging.py:334-344 | The header names width, height, eight bits of gray and no other method. |
| Png.DecodeGrayscale | common/imaging.py:558-693 | A page is returned exactly for the files that are that page's: signature, its header, image data in any number of chunks, end, nothing else. |
| Png.AcceptsExactlyFiles | common/imaging.py:558-693 | An accepted file is wholly covered by checksummed chunks, its data inflates whole with nothing behind it, and every such file is accepted. |
| Png.EncodeThenDecode | common/imaging.py:358-373 | Decoding the encoding of any page of positive size within the pixel bound gives the page back. |
| Png.EncodingsDiffer | common/imaging.py:558-571 | No file is two pages'. |
| Png.Crop | common/imaging.py:718-728 | Decoding a crop gives exactly the sub-rectangle; empty and outside crops are refused, and nothing else is. |
| Png.CropsCompose | common/imaging.py:718-728 | A crop of a crop is the crop at the added offsets. |
| Background.InferBackground | common/background.py:250-390 | The histogram loops give the verdict stated over the page's pixels, refusals included. |
| PageEvidence.GivenIff | common/background.py:250-390 | Evidence is given exactly when it is the page's: paper and dark modes either side of the mean, the margin the fraction of their distance in whole levels and at least 20, no more than the admitted share under the floor, and the branch its commonest value calls for; on the interior one the level, the counts and the shares of the rectangle inside the band, with an admitted share dark. |
| PageEvidence.MarginIs | common/background.py:69-101 | A margin past 20 is derived exactly when it is the last whole level the fraction of the distance reaches, and one of 20 exactly when that does not reach 21. |
| PageEvidence.DarkIsPlaces | common/background.py:305-311 | The samples counted at or below a level are as many as the places that hold such. |
| PageEvidence.EqualIsPlaces | common/background.py:305-312 | How often a value occurs is how many places hold it. |
| PageEvidence.InteriorIsPlaces | common/background.py:211-229 | The interior's count is that of the rectangle inside the band. |
| Background.Histogram | common/background.py:305-311 | Every sample is counted once, unless a scanline has another width. |
| Background.MeasureDark | common/background.py:211-247 | The interior count and the shares are those of the pixels inside and outside the band. |
| Background.EvidenceIsOfThePage | common/background.py:301-390 | On either branch the background is the mode at or above the mean, at least 20, the margin is derived from the page's own modes, and the floor share is admitted; the modal branch's background is that mode too. |
| Background.ThresholdIsASample | common/background.py:54-101 | For every fraction up to the whole distance between the modes, the derived threshold is a sample no higher than paper less 20, with no more than the admitted share at or below it. |
| Background.DarkDistributionAddsUp | common/background.py:211-247 | Border and interior dark counts are nonnegative, fit their areas, sum to the dark count, and lie within the counted ink; the level they are taken at is the one named. |
| Background.MeasuredAtTheMidpoint | common/background.py:645-660 | Under the loader's bound on the fraction the interior is measured at the midpoint of the two modes exactly when they are at least 39 levels apart, and always when the margin is past its floor. |
| Background.EvidenceIsMeasuredAtTheMidpoint | common/background.py:325-340 | So is the level any interior evidence publishes. |
| Background.MeasuredAtTheThreshold | common/background.py:331-331 | Past half the distance the threshold takes the midpoint's place, and the level never passes it. |
| Background.ModalIsPaper | common/background.py:316-326 | Where the commonest value is no darker than the mean it is the paper mode. |
| Background.BorderFits | common/background.py:229-234 | Dark samples outside the interior are between none and the border's area. |
| BackgroundStart.StoppedIffHandedOver | common/background_start.py:37-54 | Once its thread is over the chair was stopped there exactly once if some `abandon` answered true, and never otherwise. |
| BackgroundStart.OneOwner | common/background_start.py:70-79 | A main thread that asks at most once has the answer that says whose the chair is. |
| BackgroundStart.AskedTwiceItContradictsItself | common/background_start.py:70-79 | Asked before and after the start returns, `abandon` answers both ways for a chair stopped once. |
| BackgroundStart.AnswersDisagreeIff | common/background_start.py:70-79 | An answer makes the answers disagree exactly when it is given after the start returned to a chair already handed over. |
| BackgroundStart.FailureSurfacesOnce | common/background_start.py:63-87 | A failed start is surfaced at most once across `join` and `note_failure`, as what it was, and is held until then. |
| BackgroundStart.JoinRaisesAHeldFailure | common/background_start.py:63-68 | After the next `join` the failure has been surfaced exactly once. |

## Left out

- Regions.IsDuplicate: compares one pair of regions as given; the pairing loop, the order of the findings and the dropping of units two rows share (common/page_accounting.py:689-709) are not modelled.
- Alignment.FindLongestMatch: a plain search in place of `difflib`, charged every pair of the range; the library's own counting is not modelled.
- Blocks.Direct: ranges are kept in the coordinates of the whole texts, where the source slices the texts and adds the offsets back.
- Detection.AccountRecords: the review flags of the sealed policy, which turn a held status into a flag (common/page_accounting.py:2524-2535), are not modelled; the no-record finding is one the committed policy flags.
- Document.FlattenDocument: the finding for text outside pages and the parse that builds the element tree are not modelled; a page nested inside a section is walked with the section and again as a page, as the source does, and no single emission is claimed there.
- RegisterReading.Reading.ValidateRecord: closed schemas, digest syntax and the sweep for capture preferences are not modelled, nor is the normalisation of designations; capture digests are numbers.
- RegisterReading.Read: the byte bound and the JSON encoding of the register are not modelled.
- RegisterAppend.StepKeeps: the identity check of the register's pathname between reading and replacing it is not modelled; another program replacing the file outside the lock is not a step.
- Window.StepKeeps: an interrupt on the drawing thread, the shutdown of the pool and failures of the pool itself are not modelled; a call and a finish come to the same thing in every order.
- Window.EndsAsSerial: the notes attached to a raised error are compared as a list of errors, not as text.
- Png.AcceptsExactlyFiles: compressed blocks are whatever the decompressor parameter says of them; that it reads them as RFC 1951 says is not part of this model.
- Png.Crop: covers the grayscale path; colour modes, transparency and profiles are foreign calls.
- Background.InferBackground: scanlines are rows of samples; that they are byte strings is not checked.
- JsonPrint.RepairUndoesBaring: the grading of a repaired reply (common/page_answer.py:436-460) and nesting depth are not modelled.
- Text normalisation, the distinctive pieces of a unit and the share thresholds of the witness-text rule: they compose the parts above and add only easy comparisons.
- Closed-schema validators, prompt text, drawing, image decoding and resampling, process pools: input and output, presentation or library calls.
- File descriptors, symbolic links, inode checks and flushing: mutual exclusion and atomic replacement are assumed as step semantics.
