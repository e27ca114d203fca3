# Verified models of PostgreSQL contrib modules

This project models the algorithmic cores of seven PostgreSQL contrib modules in Dafny and proves what they
promise. Every `.dfy` file takes part; `dafny verify dfyconfig.toml` checks the whole project.

| area | files | main results |
|---|---|---|
| fuzzystrmatch | `Levenshtein` | the two-row program computes the least charge over all edit scripts; with unit costs it is the edit distance and a metric; the exact costs for which it is the weighted edit distance, with 32-bit sums |
| pg_stat_statements | `StatStatements`, `StatAccounts` | safety of every interleaving of stores, resets, evictions and readers; after every run an entry shows exactly the calls, time, rows and usage of the statements stored since it was made, and nothing is lost or counted twice |
| intarray queries | `IntQuery`, `IntLinks`, `IntParse`, `IntBangs`, `IntPrecedence`, `IntPrint`, `IntLex`, `IntBool`, `IntShorter`, `IntGin` | exactly the texts that spell a query; the tree the parser builds, and exactly when it builds one; exactly when it has the usual precedence; exactly when a stored query means its tree, with 16-bit links; exactly when a printed query reads back with the same meaning; exactly when the in-place removal of negations keeps the links of a query right; a GIN scan returns the rows of a sequential scan |
| intarray index | `IntTool`, `IntCompress`, `IntGist` | range compression is least exactly when every gap fits int32; exactly which keys can be read back and which pages can be joined and split within the memory an array can have; exactly when an index scan is a sequential scan |
| hstore | `HStoreLayout`, `HStoreOp`, `HStoreBuild`, `HStoreText`, `HStoreGrammar`, `HStoreOut`, `HStoreIn`, `HStoreGist` | the packed layout refines a finite map; the parser accepts exactly the texts of a grammar, with its pairs; text round trip for every canonical value; no write outside the output buffer; index scans are exact |
| ltree | `LTree`, `LTreeText`, `PathQuery`, `PathMatch`, `PathMeaning`, `PathExact`, `PathNegation`, `PathRuns`, `PathLoose`, `PathWords`, `PathManual`, `LQueryText`, `LQueryGrammar`, `LQueryIO`, `LQueryRoundTrip`, `LQueryImage`, `LQueryStore`, `LTreeGist` | exactly when ltree_compare orders paths; the text round trip of paths, with the exact number of levels it holds for, and of every query that is stored intact, with the exact sizes for that; what the query matcher decides for every query, with ! and wildcards together, and when that is the documented meaning; index scans are exact exactly up to a depth of 14653 levels |
| pg_trgm | `Trgm`, `TrgmGist` | the similarity is the share of the common trigrams in all, and the laws of it; the bound holds through every covering signature; index scans are exact |
| pg_standby | `Standby` | how every run ends, with smart and fast failover; the cutoff arithmetic, hexadecimal order as numeric order, and retention over whole runs; the exact condition under which a restart file is safe |

`Gist` and `Signature` hold what the index modules share: trees whose keys are over the rows below them, the
pruned descent, page splits, and bit signatures. `CString` holds byte strings, joined lists and decimal numbers,
and `Basics` optional values and the integers that 16-bit and 32-bit fields keep.

Loops of the source are loops here, fields that the source updates are fields of classes or local variables,
and buffers are arrays. Each such method is proved against a function or a predicate, and the theorems are about
those. What depends on things outside the modules is a parameter: the hash functions, the order qsort leaves
among equals, the seeds and the sides a page split chooses, the results of system calls. Floating point numbers
are reals, and C strings are sequences of characters without NUL.

Where the code does not do what one would expect, the model follows the code and the exact condition is proved:

- `Levenshtein.WithCostsIsExactIff`: the borders of the table are not scaled by the costs, and sums wrap.
- `IntPrecedence.ParsedAsMeantIff`, `IntBangs.TreeIff`: a parenthesis pops only one pending operator.
- `IntLinks.StoredMeansTreeIff`, `IntPrint.RoundTripIff`: links to left operands are int2.
- `IntShorter.ShorterQuery`: when a negation swallows one, links to the outer one are moved with those before it.
- `IntCompress.Compress`: a gap between neighbours that wraps around int32 looks small and is closed first.
- `IntCompress.Decompress`, `IntCompress.Restore`: the size of a key is a 32-bit sum, and a loop up to 2147483647
  does not end.
- `IntGist.Above`, `IntGist.Split`: an array of more than 268435449 integers cannot be allocated.
- `IntGist.IndexScanIsSeqScanIff`: such keys stop a scan, and an empty row is treated unlike the operator in two
  cases.
- `LTree.CompareIsOrderIff`, `LTreeGist.IndexScanIsSeqScanIff`: the scaled difference of two paths wraps from 14654
  levels on.
- `LTreeText.OutThenIn`, `LQueryStore.IntactIff`: levels, variants and lengths are counted in 16 bits.
- `PathExact.MatchIsExactIff`: of wildcards next to each other only the last counts.
- `PathNegation.NegationIsExactIff`: negated levels next to each other are judged together, and negated levels at the
  end need no label.
- `PathLoose.NotFittingIff`, `PathLoose.PassedOver`: negated levels among wildcards are judged together, over as many
  labels as were counted, which leaves out those a wildcard before them must take and those that a later level matched
  and passed over.
- `Standby.RestartIsSafeIff`: a restart file is compared with its timeline, files are removed without it.

## Model

| member | source | states |
|---|---|---|
| Levenshtein.LevenshteinInternal | contrib/fuzzystrmatch/fuzzystrmatch.c:193-284 | the two-row loop refuses strings over 255 characters and otherwise returns the recurrence with 32-bit sums; with costs of at most 4000000 either way that is the least charge over all edit scripts turning one string into the other |
| Levenshtein.DistIsLeastCharge | contrib/fuzzystrmatch/fuzzystrmatch.c:239-283 | the recurrence is attained by some script and undercut by none |
| Levenshtein.UnitBordersMeanLeastCost | contrib/fuzzystrmatch/fuzzystrmatch.c:239-255 | when insertions and deletions cost 1 the charge of every script is its cost, so the least charge is the least cost |
| Levenshtein.WithCostsIsExactIff | contrib/fuzzystrmatch/fuzzystrmatch.c:287-298 | levenshtein with costs is the weighted edit distance of all strings it accepts if and only if insertions and deletions cost 1 and substitutions cost between -8421504 and 2147483139: the borders are not scaled by the costs, and outside that range a sum wraps |
| Levenshtein.UnitBorderSumsFit | contrib/fuzzystrmatch/fuzzystrmatch.c:257-283 | within that range no sum of the 255 by 255 table wraps |
| Levenshtein.Plain | contrib/fuzzystrmatch/fuzzystrmatch.c:301-309 | levenshtein returns the edit distance with unit costs |
| Levenshtein.DistanceBounds | contrib/fuzzystrmatch/fuzzystrmatch.c:301-309 | with unit costs the distance lies between the difference of the lengths and the larger length |
| Levenshtein.DistanceZeroIff | contrib/fuzzystrmatch/fuzzystrmatch.c:301-309 | distance 0 exactly for equal strings |
| Levenshtein.DistanceSymmetric | contrib/fuzzystrmatch/fuzzystrmatch.c:301-309 | the distance is symmetric |
| Levenshtein.DistanceTriangle | contrib/fuzzystrmatch/fuzzystrmatch.c:301-309 | the triangle inequality over any three strings |
| StatStatements.EntryDealloc | contrib/pg_stat_statements/pg_stat_statements.c:859-890 | the victims are the least used entries: all of fewer than 10, 10 of fewer than 200 and 5% of more, no survivor with a smaller decayed usage; every survivor decays once |
| StatStatements.LockStepKeepsInv | contrib/pg_stat_statements/pg_stat_statements.c:589-641 | taking and releasing the table lock, including the release and re-acquisition around a miss, keeps the invariant |
| StatStatements.EntryStepKeepsInv | contrib/pg_stat_statements/pg_stat_statements.c:620-636 | looking up an entry and updating it under its spinlock keeps the invariant |
| StatStatements.ExclusiveMeansQuiet | contrib/pg_stat_statements/pg_stat_statements.c:803-836 | while one process holds the lock exclusively no other is inside the table |
| StatStatements.TableStepKeepsInv | contrib/pg_stat_statements/pg_stat_statements.c:803-910 | eviction, insertion and reset keep the invariant |
| StatStatements.RunKeepsInv | contrib/pg_stat_statements/pg_stat_statements.c:589-655 | the invariant holds after any sequence of enabled steps of any processes |
| StatStatements.EveryRunIsSafe | contrib/pg_stat_statements/pg_stat_statements.c:589-655 | in every reachable state the table is within its limit, a process that updates an entry holds one that is still in the table and nobody else is in it, a reader sees settled counters, and per statement live calls plus dropped calls are the completed updates |
| StatAccounts.EveryRunIsBooked | contrib/pg_stat_statements/pg_stat_statements.c:589-641 | after every run an entry that nobody is adding to shows exactly the number of statements of its key whose store was finished since the entry was made, their total time, their total rows and their usage, decayed at each eviction since; a key without an entry has none |
| StatAccounts.EveryRunAddsUp | contrib/pg_stat_statements/pg_stat_statements.c:589-641 | what an entry shows and what was dropped with earlier entries of its key come to the calls, time and rows of all statements stored in the run |
| StatAccounts.EveryCopyIsBooked | contrib/pg_stat_statements/pg_stat_statements.c:747-755 | a reader copies exactly the accounts of the statements stored by then, whatever stores are under way |
| StatAccounts.RunBooked | contrib/pg_stat_statements/pg_stat_statements.c:589-641 | that the accounts are right is kept by every sequence of steps |
| StatStatements.EntryAllocCanProceed | contrib/pg_stat_statements/pg_stat_statements.c:803-836 | eviction always finds victims, so inserting into a full table never gets stuck |
| IntQuery.LooseOverApproximates | contrib/intarray/_int_bool.c:272-299 | reading every ! as true and looking in a larger set can only turn a query from false to true |
| IntQuery.FindOprnd | contrib/intarray/_int_bool.c:410-438 | one backward pass fills in every link of the query, cut to int2, and changes nothing else |
| IntQuery.ExecuteIsEval | contrib/intarray/_int_bool.c:272-299 | when every link fits int2, walking the stored array along the links gives the value of the tree, with as many nested calls as the tree is high |
| IntQuery.EvalAtIsEval | contrib/intarray/_int_bool.c:272-327 | deciding operands by position or by value is the same when the answers agree |
| IntLinks.StoredMeansTreeIff | contrib/intarray/_int_bool.c:272-299 | the stored form of a query whose values are all different answers, on every set, what its tree means if and only if every link fits |
| IntLinks.HiddenIsNotSeen | contrib/intarray/_int_bool.c:272-299 | behind a link that wraps lies a left operand that no call of execute ever reaches, wherever the wrapped links lead |
| IntLinks.LooseExecute | contrib/intarray/_int_bool.c:272-299 | if execute is true on a row, and answers on a larger set with ! taken as true, it answers true there, whatever the stored links |
| IntLinks.FittingAnswers | contrib/intarray/_int_bool.c:272-299 | with links that fit, execute always answers, with the value of the tree, read exactly or with ! taken as true |
| IntLinks.StoresIff | contrib/intarray/_int_bool.c:410-438 | a query has exactly one stored form |
| IntParse.MakePolBuilds | contrib/intarray/_int_bool.c:162-230 | the tree makepol builds for every text with any number of ! before a number and at most one before a group, including how many operators its stack of 16 must hold, with the single pop at a parenthesis as it is |
| IntParse.BarStep | contrib/intarray/_int_bool.c:176-185 | what a &#124; does to the pending operators |
| IntParse.UnitStep | contrib/intarray/_int_bool.c:186-214 | what an operand or a parenthesis does to them |
| IntParse.RepeatedBangGivesNoTree | contrib/intarray/_int_bool.c:199-204 | with two ! before a group the output may be no tree: !!(1 &#124; 2) &#124; 3 |
| IntBangs.ReadText | contrib/intarray/_int_bool.c:162-230 | for every text, with any number of ! anywhere: a level fails exactly when a stack of 16 overflows, and otherwise leaves one operand more exactly when each of its &#124; had two operands to join |
| IntBangs.TreeIff | contrib/intarray/_int_bool.c:162-230 | for every text, what makepol writes is the polish notation of a tree if and only if at each &#124; read with a stack that is not empty an & or a &#124; is pending there or in a level around it |
| IntBangs.TreeIsDepthOne | contrib/intarray/_int_bool.c:162-230 | a sequence of nodes is the polish notation of a tree exactly when counting operands never falls short and ends with one |
| IntPrecedence.SafeIsStandard | contrib/intarray/_int_bool.c:162-230 | a text in which no & waits at a &#124; is read with ! over & over &#124; |
| IntPrecedence.ParsedAsMeantIff | contrib/intarray/_int_bool.c:162-230 | a text whose values are all different is read with that precedence if and only if no & waits at a &#124; |
| IntPrecedence.BarDisagrees | contrib/intarray/_int_bool.c:176-204 | otherwise some set tells the two readings apart |
| IntPrint.LayoutMeansQuery | contrib/intarray/_int_bool.c:525-596 | the printed parentheses are enough: under the usual precedence the text means the query |
| IntPrint.LexText | contrib/intarray/_int_bool.c:62-140 | the scanner finds in the printed text the tokens of its layout |
| IntPrint.RereadBuilds | contrib/intarray/_int_bool.c:444-504 | what reading the printed text builds, or that the operator stack overflows |
| IntPrint.RoundTripWhenReadsBack | contrib/intarray/_int_bool.c:444-596 | what is stored for the printed text answers, on every set, what the query means whenever the operator stack suffices, no & waits at a &#124;, and the links of what is read fit int2 |
| IntPrint.RoundTripIff | contrib/intarray/_int_bool.c:444-596 | for queries with different values, exactly then |
| IntPrint.RoundTripCanFail | contrib/intarray/_int_bool.c:525-596 | (1 & !(2 &#124; 3)) &#124; 4 reads back as (1 &#124; !(2 &#124; 3)) & 4 |
| IntPrint.LongTextCanFail | contrib/intarray/_int_bool.c:410-438 | (v & !g) & !h reads back as v & (!g & !h), and when g and h together have 32765 nodes or more the link to v wraps and the meaning is lost |
| IntPrint.PlainRoundTrips | contrib/intarray/_int_bool.c:525-596 | every query whose links fit and no right operand of & of which starts with ! over an operator reads back as a stored query that execute evaluates the same on every set |
| IntPrint.BuiltValues | contrib/intarray/_int_bool.c:162-230 | what is built has exactly the values of the text |
| IntBool.WorkState.GetToken | contrib/intarray/_int_bool.c:62-140 | the scanner returns the next token of the text and moves past it |
| IntLex.LexIff | contrib/intarray/_int_bool.c:62-140 | the scanner finds the tokens of a query in a text if and only if the text spells them: blanks anywhere but inside a number, and a number, with or without a minus, as long as its digits go on |
| IntLex.LexExprIff | contrib/intarray/_int_bool.c:62-140 | the same of texts with at most one ! before a group |
| IntBool.MakePol | contrib/intarray/_int_bool.c:162-230 | the recursive parser with its operator stack pushes exactly the specified polish notation |
| IntBool.BqarrIn | contrib/intarray/_int_bool.c:444-504 | of every text that spells a query, with blanks and redundant parentheses as one likes, the stored array holds the tree the parser builds, with its links |
| IntBool.Infix | contrib/intarray/_int_bool.c:525-596 | the printer walks the stored array backwards and writes the text of the tree |
| IntBool.BqarrOut | contrib/intarray/_int_bool.c:599-618 | the output is the text of the stored query |
| IntBool.OutThenIn | contrib/intarray/_int_bool.c:444-618 | printing a stored query and reading the text: what is stored then answers what the query means exactly when the query round-trips |
| IntBool.ExecuteArr | contrib/intarray/_int_bool.c:241-299 | execute with the binary search answers as execute with set membership |
| IntBool.Boolop | contrib/intarray/_int_bool.c:380-408 | an empty array satisfies nothing; otherwise the answer of execute on the elements, which is the meaning of the query when its links fit |
| IntShorter.ShorterQuery | contrib/intarray/_int_bool.c:636-751 | the rounds on the stored items, with the links moved as the code moves them: a search for an operator runs past the end of the query if and only if the query is not upright, that is some left operand comes to be a double negation on the way; otherwise nothing is left exactly when the query with every ! taken as true holds of every set, and what is left has no !, links that lead to its operands, and that loose meaning |
| IntShorter.TiltedQuery | contrib/intarray/_int_bool.c:683-693 | !( !1 ) & 2: the link of & is moved by one, and the second round finds no operator for the negation |
| IntShorter.RoundLinks | contrib/intarray/_int_bool.c:655-748 | what one round leaves is linked as the rewritten tree, except where a negation swallows one in a left operand, where the link of the operator above leads past it |
| IntShorter.SkewedMisses | contrib/intarray/_int_bool.c:669-684 | then no operator up to the end of the query has its link, or its place, at the negation |
| IntShorter.RewriteReduces | contrib/intarray/_int_bool.c:636-751 | one round does not change what the query reduces to, and it is upright exactly when this round keeps its links and the rest is upright |
| IntShorter.ReduceKeepsLooseMeaning | contrib/intarray/_int_bool.c:636-751 | what a query reduces to has its value with every ! taken as true, and no other values |
| IntShorter.NothingLeftIff | contrib/intarray/_int_bool.c:636-751 | a query reduces to a lone negation exactly when it is then true of every set |
| IntShorter.NotFreeNeedsValue | contrib/intarray/_int_bool.c:636-751 | a query free of ! that is true of a set has one of its values in the set |
| IntShorter.CountDropTree | contrib/intarray/_int_bool.c:620-629 | the number of items of a linked subtree |
| IntGin.AnswerableNeedsValue | contrib/intarray/_int_gin.c:29-48 | a query that is answerable this way needs one of its values in every set that satisfies it |
| IntGin.QueryExtract | contrib/intarray/_int_gin.c:14-60 | on a query with links that fit: the search of shorterquery leaves the query exactly when it is not upright; refused exactly when an upright query read loosely holds of every set; otherwise the keys looked up are the operands of the query in order, with exactly its values, and every set that satisfies the query has one of them |
| IntGin.GinConsistent | contrib/intarray/_int_bool.c:343-365 | on true membership flags it does what execute does on the row itself, which is direct evaluation when the links fit |
| IntGin.SeqScan | contrib/intarray/_int_bool.c:380-408 | boolop row by row: the rows it answers true for |
| IntGin.GinScan | contrib/intarray/_int_gin.c:14-169 | a scan over any rows, which extracts the keys, visits the rows that have one and tests them with their flags: refused or out of bounds exactly as extraction is, and otherwise exactly the rows, in order, that a sequential scan with boolop returns |
| IntTool.Isort | contrib/intarray/_int_tool.c:196-226 | bubble sort: in order, a permutation, and whether an element occurs twice |
| IntTool.IntUnique | contrib/intarray/_int_tool.c:285-306 | in place, the first n elements are the elements once each, in order |
| IntTool.Prepare | contrib/intarray/_int.h:42-47 | sorting and dropping repeats gives the elements in strictly increasing order |
| IntTool.InnerContains | contrib/intarray/_int_tool.c:11-47 | containment of the element sets, never true of an empty array |
| IntTool.InnerOverlap | contrib/intarray/_int_tool.c:49-80 | whether the element sets meet |
| IntTool.InnerUnion | contrib/intarray/_int_tool.c:82-137 | the union of the element sets in strictly increasing order, if and only if both arrays together fit the memory an array can have; otherwise the allocation is refused |
| IntTool.CheckConditionArr | contrib/intarray/_int_bool.c:241-261 | binary search decides membership |
| IntCompress.CloseGaps | contrib/intarray/_int_gist.c:194-216 | the loop closes gaps until 100 ranges are left, and no closed gap, as the loop sees it, is larger than a kept one |
| IntCompress.PiecesSize | contrib/intarray/_int_gist.c:194-216 | ranges cut from a key have its elements and what the closed gaps add |
| IntCompress.FittingGapsAreMinimal | contrib/intarray/_int_gist.c:197-212 | no cover of the key by 100 ranges is smaller when every gap fits int32 |
| IntCompress.WideGapIsNotMinimal | contrib/intarray/_int_gist.c:197-212 | a gap that wraps around int32 is closed, and a smaller cover exists |
| IntCompress.Compress | contrib/intarray/_int_gist.c:186-229 | short keys stay; longer ones are refused exactly when an array twice as long cannot be had, and otherwise become exactly 100 ordered disjoint ranges that cover the key and end where it ends, of least total size if and only if every gap fits int32 |
| IntCompress.CompressWide | contrib/intarray/_int_gist.c:197-212 | the least int4 with 1 .. 199 becomes ranges of more than 2147483648 integers, which are not the smallest |
| IntCompress.InternalSize | contrib/intarray/_int_tool.c:271-283 | the number of integers the ranges hold, as a 32-bit sum |
| IntCompress.ExpandIsUnion | contrib/intarray/_int_gist.c:276-285 | the expansion is strictly increasing, has internal_size elements, and is exactly the union of the ranges |
| IntCompress.Decompress | contrib/intarray/_int_gist.c:231-294 | the two loops write that expansion if and only if it fits the memory an array can have and no range ends at 2147483647; otherwise the allocation is refused or the writing leaves the array |
| IntCompress.Restore | contrib/intarray/_int_gist.c:186-294 | compressed and read back, a short key is unchanged; a key of 200 or more comes back, with integers added, if and only if an array twice as long can be had, it stops before 2147483647, no gap wraps, and some cover by 100 ranges fits memory |
| IntCompress.RestoreTop | contrib/intarray/_int_gist.c:276-280 | the 200 largest integers do not come back |
| IntCompress.RestoreHuge | contrib/intarray/_int_gist.c:194-199 | 200000000 neighbouring integers, which one range covers, do not come back: the array twice as long is refused |
| IntGist.ConsistentArray | contrib/intarray/_int_gist.c:39-109 | sorting the query and merging gives the test of each strategy |
| IntGist.ConsistentBoolean | contrib/intarray/_int_gist.c:51-66 | execute on the stored query and the key, exact on leaves and with negations taken as true on inner keys; it answers when the links fit and the stack has room for the tree |
| IntGist.SameArrays | contrib/intarray/_int_gist.c:321-350 | equality of the arrays |
| IntGist.InnerTestIsSound | contrib/intarray/_int_gist.c:39-109 | no inner key whose integers include those of an accepted row is rejected; boolean queries are stored items that execute answers for, whether their links fit or not |
| IntGist.ScanPrunesNothing | contrib/intarray/_int_gist.c:39-109 | in every tree the descent finds exactly the rows the leaf test accepts |
| IntGist.LeafTestIsExactIff | contrib/intarray/_int_gist.c:39-109 | the leaf test is the operator except for empty rows in two cases |
| IntGist.IndexScanIsSeqScanIff | contrib/intarray/_int_gist.c:39-109 | an index scan returns what a sequential scan returns if and only if every key it meets can be read back and no empty row meets a condition that treats empty rows differently |
| IntGist.EmptyRowDiffers | contrib/intarray/_int_gist.c:51-66 | an empty row satisfies !1 in the index and not by boolop |
| IntGist.TopRowsAreLost | contrib/intarray/_int_gist.c:276-280 | two rows of a hundred integers up to 2147483647: no scan of the entry above them returns rows |
| IntGist.GIntUnion | contrib/intarray/_int_gist.c:111-146 | the union of the keys, in order, if and only if the keys together fit the memory an array can have |
| IntGist.Plant | contrib/intarray/_int_gist.c:151-185 | the key of a row has its integers, sorted; the entry is well built if and only if there are fewer than 200 of them |
| IntGist.Above | contrib/intarray/_int_gist.c:111-294 | an entry formed by decompression, union and compression exists if and only if every key below can be read back, the keys together fit memory and the union can be compressed; it then has every integer below it |
| IntGist.PickSplit | contrib/intarray/_int_gist.c:375-563 | for any seeds, order and choices: unless a union on the way does not fit memory, which is stated exactly, every offset is on exactly one of two non-empty sides, with keys of exactly the integers of their side |
| IntGist.Split | contrib/intarray/_int_gist.c:186-563 | a page is split if and only if every key of it can be read back and each union and compression fits memory; both entries are then well built and share out the old ones |
| IntGist.SmallPagesFit | contrib/intarray/_int_gist.c:375-563 | every page whose keys together have at most 134217724 integers can be joined and split, whatever the seeds, order and choices |
| HStoreLayout.KeyOrderIsTotal | contrib/hstore/hstore_io.c:266-287 | length first, then bytes, is a strict total order |
| HStoreLayout.PackingIsUnique | contrib/hstore/hstore.h:11-38 | the bytes determine the pairs |
| HStoreLayout.MapDeterminesPairs | contrib/hstore/hstore_io.c:266-328 | a map has exactly one ordered list of pairs |
| HStoreOp.FindKey | contrib/hstore/hstore_op.c:14-41 | the binary search finds an entry exactly when the map has the key, and then that entry |
| HStoreOp.FetchVal | contrib/hstore/hstore_op.c:45-66 | the value; NULL for an absent key and for a NULL value alike |
| HStoreOp.Exists | contrib/hstore/hstore_op.c:70-83 | whether the map has the key |
| HStoreOp.Defined | contrib/hstore/hstore_op.c:87-103 | whether it has it with a value that is not NULL |
| HStoreOp.HsContains | contrib/hstore/hstore_op.c:521-557 | map inclusion, NULL equal only to NULL |
| HStoreBuild.WithoutIsRemoval | contrib/hstore/hstore_op.c:107-157 | dropping the pairs of a key keeps the order and removes the key from the map |
| HStoreBuild.Delete | contrib/hstore/hstore_op.c:107-157 | on the packed layout, after the move of the string area: a canonical layout of the map without the key, no larger than the old one |
| HStoreBuild.MergeIsUnion | contrib/hstore/hstore_op.c:161-270 | merging two ordered lists is right-biased map union |
| HStoreBuild.MergeIsSorted | contrib/hstore/hstore_op.c:161-270 | and stays ordered |
| HStoreBuild.HsConcat | contrib/hstore/hstore_op.c:161-270 | on the packed layout: a canonical layout of the right-biased union, within the allocated size |
| HStoreBuild.Close | contrib/hstore/hstore_op.c:139-150 | when size shrinks the string area moves down and every position stays right |
| HStoreBuild.TConvert | contrib/hstore/hstore_op.c:274-321 | a NULL key gives NULL, an over-long key or value is refused, otherwise the one-pair map |
| HStoreIn.HSParser.GetVal | contrib/hstore/hstore_io.c:43-158 | the word, the quoting and the cursor the state machine says |
| HStoreIn.HSParser.ParseHStore | contrib/hstore/hstore_io.c:167-264 | the pairs, or the error, the state machine says |
| HStoreGrammar.ReadSource | contrib/hstore/hstore_io.c:43-264 | every list of pairs written with quoted or bare words, with escapes, blanks and a trailing comma or not, is read as its pairs; a bare null of any case is NULL as a value, and a word as a key or in quotes |
| HStoreGrammar.SourceWasWritten | contrib/hstore/hstore_io.c:43-264 | whatever the parser accepts is the text of such a list, with the pairs it gives |
| HStoreGrammar.ParsesIff | contrib/hstore/hstore_io.c:43-264 | the parser gives pairs for a text if and only if they are the pairs of a list that is written so |
| HStoreIn.ParsedIsWellSized | contrib/hstore/hstore_io.c:348-366 | no parsed key or value is longer than 65535 |
| HStoreIn.UniquePairs | contrib/hstore/hstore_io.c:289-328 | in place: strict order, for every key one of its pairs, and the number of bytes they take |
| HStoreIn.In | contrib/hstore/hstore_io.c:371-426 | accepts exactly the texts of lists in the grammar, each as a canonical layout with one of the written values for every written key; otherwise the parser's error |
| HStoreIn.ReadMap | contrib/hstore/hstore_io.c:371-426 | the map read has exactly the parsed keys, each with a value parsed for it |
| HStoreText.PrintedParsesBack | contrib/hstore/hstore_io.c:43-264 | parsing printed pairs gives the pairs: NULL apart from "NULL", quotes and backslashes intact |
| HStoreIn.OutThenIn | contrib/hstore/hstore_io.c:371-506 | reading the printed text of any canonical hstore gives the same pairs and the same map, whatever qsort does with equal keys |
| HStoreOut.Cpw | contrib/hstore/hstore_io.c:428-440 | the escaped form of the bytes |
| HStoreOut.BufferLength | contrib/hstore/hstore_io.c:464-472 | the precomputed length is what the pairs can need, twice the spare bytes, and the terminator |
| HStoreOut.Out | contrib/hstore/hstore_io.c:444-506 | the text of the pairs; every write, terminator included, is inside the buffer |
| HStoreGist.CompressLeaf | contrib/hstore/hstore_gist.c:108-142 | a leaf key has exactly the bits its keys and values hash to |
| Signature.CompressInner | contrib/hstore/hstore_gist.c:143-171 | an all-true signature is stored as a flag; no bit changes |
| Signature.Union | contrib/hstore/hstore_gist.c:286-317 | exactly the bits of the keys |
| Signature.PickSplit | contrib/hstore/hstore_gist.c:346-509 | for any seeds, order and choices: every offset on exactly one of two non-empty sides, keys with exactly the bits of their side |
| HStoreGist.Consistent | contrib/hstore/hstore_gist.c:512-566 | the test asks for the bits of every key and value, or of the key |
| HStoreGist.TestIsSound | contrib/hstore/hstore_gist.c:512-566 | no key over an accepted row fails the test |
| HStoreGist.IndexScanIsSeqScan | contrib/hstore/hstore_gist.c:512-566 | for every tree and hash function, a scan with recheck returns the rows that @> or ? accepts, in order |
| HStoreGist.Plant | contrib/hstore/hstore_gist.c:108-142 | a leaf entry is well built |
| HStoreGist.Above | contrib/hstore/hstore_gist.c:286-317 | an entry formed by union and compress is well built |
| HStoreGist.Split | contrib/hstore/hstore_gist.c:346-509 | both entries of a split page are well built and share out the old ones |
| Gist.ScanIsWhere | contrib/hstore/hstore_gist.c:512-566 | with sound tests a descent finds exactly what a search of every row finds |
| LTree.LtreeCompare | contrib/ltree/ltree_op.c:60-86 | the scaled difference in 32 bits has the sign of the lexicographic order if and only if the second path is not an ancestor so far above the first that the product wraps |
| LTree.CompareIsOrderIff | contrib/ltree/ltree_op.c:60-86 | the same of the value ltree_compare returns, by induction over both paths |
| LTree.ShallowIsOrdered | contrib/ltree/ltree_op.c:60-86 | paths of at most 14653 levels are always compared by that order |
| LTree.DeepIsNotOrdered | contrib/ltree/ltree_op.c:85 | a path of 14654 levels is before the empty path and after it |
| LTree.PathOrderIsTotal | contrib/ltree/ltree_op.c:60-86 | the lexicographic order is total |
| LTree.TruncationIsMonotone | contrib/ltree/ltree_gist.c:472-495 | cutting two paths to n levels keeps their order |
| LTree.InnerIsParent | contrib/ltree/ltree_op.c:154-176 | p is a prefix of c |
| LTree.LcaInner | contrib/ltree/ltree_op.c:424-487 | NULL if some path is empty, otherwise the longest proper ancestor of all |
| LTreeText.In | contrib/ltree/ltree_io.c:43-148 | accepts exactly the texts of valid paths, and stores as many of their levels as a 16-bit count keeps, a path that the order and the index take |
| LTreeText.Out | contrib/ltree/ltree_io.c:150-177 | the names with dots between them |
| LTreeText.TextDeterminesPath | contrib/ltree/ltree_io.c:43-177 | different valid paths have different texts |
| LTreeText.OutThenIn | contrib/ltree/ltree_io.c:43-177 | a valid path is printed and read back as itself if and only if it has at most 65535 levels |
| LTreeText.TooManyNames | contrib/ltree/ltree_io.c:135 | of a text of 65536 names nothing is kept |
| LQueryIO.QueryScan.TakeName | contrib/ltree/ltree_io.c:270-336 | one character of a variant moves the fields as the state machine says |
| LQueryIO.QueryScan.TakeBounds | contrib/ltree/ltree_io.c:337-408 | one character of a wildcard |
| LQueryIO.QueryScan.Scan | contrib/ltree/ltree_io.c:233-450 | the main loop reads the levels, or stops with the error, the state machine says |
| LQueryIO.In | contrib/ltree/ltree_io.c:194-515 | the whole input function: the query the state machine reads, with the check of bounds, stored with 16-bit counts and lengths, or the error |
| LQueryGrammar.SpelledParses | contrib/ltree/ltree_io.c:194-515 | every spelling of levels, with modifiers in any order and any of the forms of bounds, is read as these levels, and refused when a lower bound is over its upper one |
| LQueryGrammar.ManualExample | doc/src/sgml/ltree.sgml:103-108 | Top.*{0,2}.sport*@.!football&#124;tennis.Russ*&#124;Spain is read as its five levels |
| LQueryIO.Out | contrib/ltree/ltree_io.c:517-616 | the printed form of the levels |
| LQueryRoundTrip.PrintedParsesBack | contrib/ltree/ltree_io.c:194-616 | every well formed query is rebuilt from its printed form: levels, variants, flags, bounds, firstgood and the mark for ! |
| LQueryImage.ReadIsWellFormed | contrib/ltree/ltree_io.c:194-515 | every query that can be read is well formed |
| LQueryImage.PrintingIsFaithful | contrib/ltree/ltree_io.c:194-616 | whatever text a query came from, the text that spells it parses as the same query |
| LQueryStore.IntactIff | contrib/ltree/ltree_io.c:449-514 | a query that was read is stored intact, every field right and every level after the one before it, if and only if it has at most 65535 levels of at most 65535 bytes |
| LQueryStore.OverlongOverlaps | contrib/ltree/ltree_io.c:483-510 | the level after one of more than 65535 bytes is written inside it |
| LQueryStore.TooManyLevels | contrib/ltree/ltree_io.c:476 | a text of 65536 levels is read, and no level is counted |
| LQueryStore.OverlongLevel | contrib/ltree/ltree_io.c:483-510 | after a level of 4095 one-letter variants the next level is written over it |
| LQueryIO.InOutIn | contrib/ltree/ltree_io.c:194-616 | for every text whose query is stored intact, what is printed is read as the same query and stored the same way |
| LTreeGist.Union | contrib/ltree/ltree_gist.c:168-250 | a left and a right bound of the keys, the least and the greatest when no bound is over 14653 levels, and exactly the bits |
| LTreeGist.PickSplit | contrib/ltree/ltree_gist.c:286-441 | the first half of the sorted offsets goes left, the rest right, neither empty; both keys are the unions of their sides when no bound is over 14653 levels |
| LTreeGist.GistIsParent | contrib/ltree/ltree_gist.c:443-461 | some prefix of the query compares as between the bounds, which is lying between them for a query of at most 14653 levels |
| LTreeGist.GistIsChild | contrib/ltree/ltree_gist.c:472-495 | the query compares as between the bounds cut to its length, which is lying between them for a query of at most 14653 levels |
| LTreeGist.GistQe | contrib/ltree/ltree_gist.c:497-534 | every level that can be looked up has a variant whose bit is set |
| LTreeGist.GistTqcmp | contrib/ltree/ltree_gist.c:536-563 | the order of a path, cut to the fixed start of a query, against that start |
| LTreeGist.GistBetween | contrib/ltree/ltree_gist.c:565-578 | the fixed start lies between the cut bounds |
| LTreeGist.ArrqCons | contrib/ltree/ltree_gist.c:599-622 | some query of the array passes |
| LTreeGist.ConsistentInner | contrib/ltree/ltree_gist.c:624-728 | the test on inner keys, strategy by strategy |
| LTreeGist.ConsistentLeaf | contrib/ltree/ltree_gist.c:624-728 | the test on leaf keys |
| LTreeGist.InnerTestIsSound | contrib/ltree/ltree_gist.c:624-728 | no subtree with an accepted path is rejected, for the order strategies, ancestors, descendants and queries, when rows and paths asked for have at most 14653 levels |
| LTreeGist.LeafTestIsExact | contrib/ltree/ltree_gist.c:636-638 | leaf answers are exact within that depth, as no recheck is asked for |
| LTreeGist.IndexScanIsSeqScanIff | contrib/ltree/ltree_gist.c:624-728 | over all trees of rows and all searches for paths of at most d levels, or for queries, index scans return exactly the rows the operators accept, in order, if and only if d is at most 14653 |
| LTreeGist.DeepSearchMisses | contrib/ltree/ltree_gist.c:641-647 | in every well built index with the empty path alone on a page a search below a path of 14654 levels misses that path, which ltree_lt accepts |
| LTreeGist.GrowEmptyPath | contrib/ltree/ltree_gist.c:65-250 | compressing the empty path and joining the page gives such an index |
| PathMatch.CompareSubnode | contrib/ltree/lquery_op.c:50-87 | every word of the variant matches some word of the label |
| PathMatch.CheckLevel | contrib/ltree/lquery_op.c:104-133 | some variant of the level matches the label |
| PathWords.VariantMeans | doc/src/sgml/ltree.sgml:79-86 | without % a variant matches the labels equal to it, with * those that start with it, and with @ those that do so in lower case |
| PathWords.WordsOfJoined | contrib/ltree/lquery_op.c:32-50 | the words of a label are those its underscores separate |
| PathWords.PercentMeans | doc/src/sgml/ltree.sgml:87-93 | with % each word of the variant is a word of the label, or with * the start of one |
| PathMatch.SomeStack.CheckCond | contrib/ltree/lquery_op.c:155-300 | the loop with its static variable, its backtracking and its record of negated levels refines the specified recursion, and the negated part can always be cut out of the query and the path |
| PathMatch.LtqRegex | contrib/ltree/lquery_op.c:302-327 | the operator answers what that recursion says |
| PathMeaning.MatchIsFits | contrib/ltree/lquery_op.c:155-300 | without ! a query matches exactly the paths that fit it, where of wildcards next to each other only the last counts |
| PathExact.MatchIsExactIff | contrib/ltree/lquery_op.c:155-300 | for a query without ! and a label that is none of its levels: it matches exactly the storable paths that fit it if and only if no matched path can be stored, or every wildcard right before another one needs no label and either takes none or is followed by a wildcard, the last of the run, that may take all the labels a storable path has to spare |
| PathExact.LongerIsNotMatched | contrib/ltree/lquery_op.c:256-300 | a run with one label more than its last wildcard takes is not matched, whatever stands before and after it |
| PathMeaning.NeighboursAreNotExact | contrib/ltree/lquery_op.c:256-266 | *{1}.*{1} matches paths of one level and none of two |
| PathNegation.MatchIsFitsRuns | contrib/ltree/lquery_op.c:155-318 | a query without wildcards matches a path exactly when levels without ! match the labels at their places, each run of neighbouring levels with ! has one that does not match its label, and levels beyond the last label all have ! |
| PathNegation.NegationIsExactIff | doc/src/sgml/ltree.sgml:97-100 | for a query without wildcards and a label that is none of its levels: every level stands for one label, judged by itself, as documented, if and only if no level with ! is last or next to another |
| PathNegation.NegatedNeighbours | contrib/ltree/lquery_op.c:195-253 | !a.!b is matched by a.c and by the empty path |
| PathRuns.MatchIsSuits | contrib/ltree/lquery_op.c:155-318 | for every query, with negated levels and wildcards in any arrangement: a path matches if and only if the other levels can be placed on labels in order so that each run of wildcards and negated levels between them suits the labels it is given, their number being within its bounds and, if it has negated levels, those that are tested not fitting the run without its negations; the labels that are tested are stated exactly |
| PathRuns.WalkSuits | contrib/ltree/lquery_op.c:155-300 | the same from any point of a walk, by induction over its calls |
| PathLoose.OneNotIs | contrib/ltree/lquery_op.c:155-318 | a query with one negated level among wildcards, the one right before it taking no label at least: a path that is not empty matches exactly when its length is within the bounds and it does not fit the query without the negation |
| PathLoose.EmptyIs | contrib/ltree/lquery_op.c:302-318 | the empty path matches such a query exactly when the last wildcard may take no label |
| PathLoose.NotFirst | contrib/ltree/lquery_op.c:155-318 | !l.* matches exactly the paths whose first label l does not match, and the empty one |
| PathLoose.NotLast | contrib/ltree/lquery_op.c:155-318 | *.!l matches exactly the paths whose last label l does not match, and the empty one |
| PathLoose.NotAnywhere | contrib/ltree/lquery_op.c:155-318 | *.!l.* matches exactly the paths without a label that l matches |
| PathLoose.FewestIsMatched | contrib/ltree/lquery_op.c:195-253 | when the wildcard right before the negated level must take labels, the path of the fewest labels matches although it fits the query without the negation |
| PathLoose.NotFittingIff | contrib/ltree/lquery_op.c:155-318 | a query with one negated level among wildcards matches exactly the storable paths within its bounds that do not fit it without the negation if and only if no wildcard stands right before that level, or one that may take no label |
| PathLoose.BetweenIs | contrib/ltree/lquery_op.c:155-318 | x.*.!l.*.y matches exactly the paths with x first, y last, some label between them, and none that l matches among those, without the last as many of them as y matches after the first |
| PathLoose.PassedOver | contrib/ltree/lquery_op.c:195-253 | so a.*.!b.*.c is matched by a.x.c.b.c |
| PathManual.ApartIsMeant | doc/src/sgml/ltree.sgml:62-100 | a query matches exactly the paths of its documented meaning, each level one label that matches it or with ! does not, each wildcard a number of labels within its bounds, when no wildcard has another or a negated level right after it, no negated level another, and none is last nor before a last wildcard that may take no label |
| PathManual.ManualExampleMeans | doc/src/sgml/ltree.sgml:103-141 | Top.*{0,2}.sport*@.!football&#124;tennis.Russ*&#124;Spain matches exactly the paths the manual describes |
| PathMeaning.MatchHasParts | contrib/ltree/lquery_op.c:155-300 | whatever ! a query has, a path it matches has its fixed start and a variant of every level the signature is asked about |
| LTreeGist.Plant | contrib/ltree/ltree_gist.c:65-88 | the entry of a row is well built if and only if the row has at most 14653 levels |
| LTreeGist.Above | contrib/ltree/ltree_gist.c:168-250 | an entry formed by union is well built |
| LTreeGist.Split | contrib/ltree/ltree_gist.c:286-441 | both entries of a split page are well built and share out the old ones |
| Trgm.UniqueArray | contrib/pg_trgm/trgm_op.c:41-59 | in place, each trigram of a sorted array once |
| Trgm.CountCommon | contrib/pg_trgm/trgm_op.c:314-329 | the merge counts the intersection |
| Trgm.CntSml | contrib/pg_trgm/trgm_op.c:299-336 | the value that times the number of all trigrams of both is the number of common ones, undefined without any trigram |
| Trgm.SimilarityLaws | contrib/pg_trgm/trgm_op.c:299-336 | the similarity lies between 0 and 1, is 1 exactly for equal sets and 0 exactly for disjoint ones, is symmetric, and there is only one |
| TrgmGist.FillCache | contrib/pg_trgm/trgm_gist.c:428-438 | the signature of a key, with the spare bit makesign sets |
| TrgmGist.Union | contrib/pg_trgm/trgm_gist.c:261-292 | exactly the bits of the keys |
| TrgmGist.ConsistentInner | contrib/pg_trgm/trgm_gist.c:203-226 | the count over the trigrams not found, against the limit |
| TrgmGist.InnerTestIsSound | contrib/pg_trgm/trgm_gist.c:203-226 | if the similarity of a row reaches the limit, so does the bound from any signature that covers it |
| TrgmGist.IndexScanIsSeqScan | contrib/pg_trgm/trgm_gist.c:162-229 | for every tree, query and limit, a scan returns exactly the rows whose similarity reaches the limit |
| TrgmGist.Plant | contrib/pg_trgm/trgm_gist.c:94-116 | a leaf entry is well built |
| TrgmGist.Above | contrib/pg_trgm/trgm_gist.c:94-136 | an entry formed by union and compress is well built |
| TrgmGist.Split | contrib/pg_trgm/trgm_gist.c:473-656 | both entries of a split page are well built and share out the old ones |
| Standby.NameOrderIsNumeric | contrib/pg_standby/pg_standby.c:258-274 | names of the same length are ordered like the numbers they spell |
| Standby.TailOrder | contrib/pg_standby/pg_standby.c:258-274 | comparing names without the timeline compares places in the log |
| Standby.ScanReadsName | contrib/pg_standby/pg_standby.c:344 | the fields of a segment name are read as written |
| Standby.SetWALFileNameForCleanup | contrib/pg_standby/pg_standby.c:317-373 | with a keep count the cutoff is the requested place minus the count in base 255, if the log goes back that far; with a restart file it is that file unless its name is later |
| Standby.CleanupPriorWALFiles | contrib/pg_standby/pg_standby.c:238-304 | only segments before the cutoff go, all of them unless a removal fails, none for a backup label |
| Standby.RestoreWALFileForRecovery | contrib/pg_standby/pg_standby.c:475-508 | one of maxretries + 1 attempts succeeds |
| Standby.MainLoop | contrib/pg_standby/pg_standby.c:762-832 | every round before the last waits; a signal, a fast trigger or the timeout ends the run with 1, otherwise a file that is there is restored, and a smart trigger ends it with 1 only when the file is not there; files are removed only after a successful restore, and then exactly those before the cutoff unless a removal fails |
| Standby.RemovableIffOld | contrib/pg_standby/pg_standby.c:342-372 | a segment is before the cutoff exactly when it is more than the keep count before the requested one |
| Standby.PgStandby | contrib/pg_standby/pg_standby.c:713-832 | the whole program ends in that way; nothing is removed unless the requested segment was restored; with a keep count exactly the segments more than the count before it go; with a restart file not later by name exactly the segments before it go, and with a later one none |
| Standby.ReadyIsRestored | contrib/pg_standby/pg_standby.c:762-812 | a segment that is there is restored with exit 0, smart trigger or not, unless a signal, a fast trigger or the timeout came first |
| Standby.GivesUpOnlyWhenUrgent | contrib/pg_standby/pg_standby.c:762-812 | a run that gives up on a segment that is there and could be restored was signaled, had a fast trigger or waited too long |
| Standby.SmartEndsRun | contrib/pg_standby/pg_standby.c:802-830 | a smart trigger ends the run in its own round at the latest, with 1 when the segment is not there |
| Standby.RestartIsSafeIff | contrib/pg_standby/pg_standby.c:326-339 | no run with a restart file removes a segment from the requested one on if and only if the restart file is later by name, so that nothing is removed, or not later in the log |
| Standby.SameTimelineIsSafe | contrib/pg_standby/pg_standby.c:326-339 | on one timeline every restart file is safe |
| Standby.RestartLosesRequested | contrib/pg_standby/pg_standby.c:326-339 | a restart file of an earlier timeline but later place passes the check, and the run that restores the requested segment removes it |

## Left out

- Levenshtein.LevenshteinInternal: for larger costs only the recurrence with its wrapped sums is stated, not what it minimises.
- StatStatements.EveryRunIsSafe: the bodies of entry_alloc and of the reset are single steps under the exclusive lock; hashing, clipping of query texts, the statistics file and the fairness of spinning are not modelled.
- StatStatements.EntryDealloc: takes the order qsort left as given, any order by usage.
- IntParse.MakePolBuilds: which tree is built is stated for texts with at most one ! before each group; of texts with more, IntBangs.TreeIff states exactly when a tree is built, not which.
- IntParse.UnitStep: the same.
- IntPrecedence.SafeIsStandard: the same texts.
- IntPrecedence.ParsedAsMeantIff: the same texts; and the values are required to be different because a text with repeated values may come out right by accident.
- IntBool.BqarrIn: the same texts; what the scanner and the parser do with every other text, errors included, is in IntBool.MakePol.
- IntBool.WorkState.GetToken: the 16-character buffer for numbers and overflow of atoi are not modelled.
- IntBool.Infix: the growth of the output buffer is not modelled.
- IntPrint.RoundTripWhenReadsBack: values are integers that %d and atoi agree on, as int4 values are.
- IntShorter.ShorterQuery: is about queries whose links fit; items are moved as values, so what the copies write beyond the end of the query, and what a search beyond it would find, is not captured.
- IntGist.IndexScanIsSeqScanIff: boolean queries are stored items that execute answers for on every set, as all with links that fit are; of rows with 200 or more different elements, whose leaf keys are taken for ranges, it is only said that their entries are not well built.
- inner_int_inter, sizes, penalties, seed choice and cost order of page splits: heuristics whose results are parameters here.
- HStoreBuild.Close: entries and string area are two arrays with the offset between them; the bit packing of an entry and the 31-bit limit of its position are not modelled.
- HStoreIn.In: which error a text outside the grammar meets is stated by the machine only; qsort is known by its contract only; the growth of the parser's buffers is not modelled.
- HStoreGist.Consistent: an unsupported strategy number, which is an error, is not modelled; signatures are sequences of booleans.
- The set-returning functions of hstore, its GIN support, and its conversion to arrays: they list the pairs that the modelled layout already determines.
- LTreeText.In: letters are ASCII letters; multibyte characters and locales are not modelled.
- LQueryIO.InOutIn: says nothing of queries that are not stored intact; some of them, such as one overlong level alone, may print and read back all the same.
- LQueryStore.IntactIff: of the stored bytes the counts, lengths and places are modelled; the fields of a variant are not packed into bytes.
- LQueryGrammar.SpelledParses: spellings are read as meant; texts that repeat a modifier, which then becomes part of the name, or write bounds with leading zeros are also read, as the machine of LQueryIO.In says.
- LQueryIO.In: numbers beyond the range of atoi are not modelled; of levels that overlap in memory only where they are written is modelled, not the bytes that result.
- LQueryIO.Out: the size of the output buffer is not modelled.
- LTreeGist.IndexScanIsSeqScanIff: full text queries (strategies 14 and 15) and arrays of paths are left out.
- PathManual.ApartIsMeant: goes one way; of other queries PathRuns.MatchIsSuits says what they match, and the exact conditions are proved for those without wildcards, without !, and with one negated level among wildcards.
- PathMatch.LtqRegex: str_tolower is that of ASCII letters.
- Trgm.CntSml: the similarity is a real number, not a float; how a text becomes trigrams is not modelled.
- TrgmGist.ConsistentInner: the cache of the query's trigrams is not modelled.
- Standby.PgStandby: waiting time is not cut to 32 bits.
- Standby.SetWALFileNameForCleanup: blanks, signs and a 0x prefix, which sscanf would accept in a field, are not.
- Standby.MainLoop: a run is a finite sequence of rounds; reading the trigger file, the size check of the archived file, history files and the restore command appear as the outcomes each round meets.
- Modules that only move data between libraries, files and the server (adminpack, dblink, pageinspect, pgbench, oid2name and the like), and btree_gist, cube and isn: not modelled.
