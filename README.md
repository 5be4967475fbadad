# Tic-tac-toe learner, knapsack searches and two genetic algorithms, in Dafny

This project models the computational core of a small collection of C
programs and proves properties of those models.

- **tictactoe.c**: a reinforcement-learning tic-tac-toe player.
  - Every board configuration the player meets gets a *turn node*, which holds one weighted *decision* per EMPTY cell.
  - A move is drawn in proportion to the weights.
  - After each self-played game, every node played from is rewarded (`mark_good`) or penalised (`mark_bad`).
  - The nodes are filed in a tree keyed by the board, ordered by `compar_board`.
- **knapsack1.c** and **knapsack2.c**: exhaustive 0/1 knapsack searches over a growable *sack*.
  - knapsack1.c has one plain search.
  - knapsack2.c has three searches: brute force, a cost-pruned search and a value-bound-pruned search.
  - knapsack2.c also has two greedy fills, whose values form the lower bound.
- **ga-knapsack.c**: a genetic algorithm for the knapsack problem.
  - Its candidates are bit-packed gene strings.
  - It uses random and alternating crossover, bit-clearing mutation, and a population kept by fitness with insert-and-evict.
- **ga-graph-color.c**: a genetic algorithm for graph colouring.
  - It parses `name: adj, adj, …` lines into a node map and resolves forward references after the whole file is read.
  - Fitness counts the adjacency entries whose two ends have different colours.
  - The population uses the same insert-and-evict step.

## How the C code maps to Dafny

- **Values and functions.** Pure scans over values become functions; loops become methods with invariants.
  - The 9-cell board is a `seq<char>`, and the board queries are functions.
  - The `%`, `<<`, `&` and `|` on bytes are the same operations on `bv8`.
- **Objects with fields.** Structures whose fields the C code updates in place become classes.
  - These are the turn node, the knowledge, the sacks and solutions, the candidates, the populations and the node map.
  - A C dynamic array that is appended to becomes a `seq` field that the methods reassign.
  - Fixed buffers stay `array`s: the game board, a candidate's bits, the population arrays and the line buffer the tokenizer writes NULs into.
- **Specification functions.** Each mutating method is proved against a function or predicate on values, and the properties are proved as lemmas about that function:
  - `Rewarded` and `Penalised` for the turn-node updates;
  - `Leaves` and `Fold` for the knapsack searches;
  - `InsertEvict` for the populations;
  - `Separate` for the tokenizer;
  - `Tokens` and `ParseLine` for the graph parser.
- **Randomness.** Every `rand()` value is a parameter, and the model applies the same `% n` reduction the C code does.
- **Library containers.** The library tree map, stack and dynamic array from the `dstructs` library are not part of this model. They appear as Dafny `map` and `seq` values.

The model follows the C code, except for the four defects listed under "## Findings", where both the code as written and the corrected behaviour are modelled.

## Model

| member | source | states |
|---|---|---|
| TicTacToeBoard.Other | tictactoe.c:492 | the marker that moves after `turn`: O after X, X otherwise |
| TicTacToeBoard.Init | tictactoe.c:193-198 | gameboard_init leaves every one of the nine cells EMPTY |
| TicTacToeBoard.HasEmptyFrom | tictactoe.c:203-208 | the scan answers true exactly when some cell at or after `i` is EMPTY |
| TicTacToeBoard.RowOrColumnFrom | tictactoe.c:209-230 | the row-and-column loop is true exactly when `p` holds one of the rows or columns it still has to visit, judged against the table of the eight lines |
| TicTacToeBoard.GetState | tictactoe.c:199-236 | Won exactly when `player` holds a whole row, column or diagonal, even on a full board; otherwise Complete exactly when no cell is EMPTY, Incomplete exactly when one is |
| TicTacToeBoard.WouldMove | tictactoe.c:237-247 | Bad exactly for an occupied cell; otherwise Win, Draw or Good exactly as the board with the move made is won, full or open; the board itself is a value and unchanged |
| TicTacToeBoard.CountEmpty | tictactoe.c:248-256 | the count equals the number of open moves, is at most 9, and is 0 exactly when the board is full |
| TicTacToeBoard.EmptyPositionsFacts | tictactoe.c:285-298 | the list of EMPTY cells holds EMPTY cells only, is strictly ascending, misses none, has at most 9 entries and is empty exactly on a full board |
| TicTacToeBoard.FillDecreasesEmpty | tictactoe.c:481 | putting a marker on an EMPTY cell lowers the number of EMPTY cells by exactly one, so self-play makes at most nine moves |
| TicTacToeBoard.FillKeepsLinesOfOther | tictactoe.c:481-484 | a marker put on a cell completes no line of another player: a line the other player holds afterwards was held before |
| TicTacToeBoard.EmptyBoardHasNoLine | tictactoe.c:193-198 | no player holds a line of the board gameboard_init leaves |
| TicTacToeBoard.CompareFrom | tictactoe.c:449-454 | the scan from cell `i` yields only -1, 0 or 1; 0 exactly when the boards agree from `i` on; -1 (1) exactly when the first differing cell is smaller (greater) on the left |
| TicTacToeBoard.Compare | tictactoe.c:446-455 | compar_board is 0 exactly on equal boards and negative exactly when the first differing cell is smaller on the left |
| TicTacToeBoard.CompareAntisymmetric | tictactoe.c:446-455 | swapping the boards negates the comparison |
| TicTacToeBoard.CompareTransitive | tictactoe.c:446-455 | a < b and b < c give a < c, so with antisymmetry the comparison is a strict total order, as the tree map needs |
| TurnNodes.SelectionIsFirst | tictactoe.c:328-333 | the decision the running total stops at carries a positive worth, and no earlier running total reaches the draw |
| TurnNodes.Select | tictactoe.c:327-333 | for a draw r with 1 <= r <= total worth, the loop stops at an index in range whose running total first reaches r, and that decision has positive worth |
| TurnNodes.ForcedIndexPrefersO | tictactoe.c:288-298 | when O can win at once on some EMPTY cell, the forced index is the LAST such cell in ascending order |
| TurnNodes.ForcedIndexFallsBackToX | tictactoe.c:288-298 | when O cannot win at once, the forced index is the FIRST EMPTY cell where X would win, and -1 exactly when X cannot win at once either |
| TurnNodes.ScanPrefersO | tictactoe.c:291-296 | over the verdict lists, the scan returns the last index that wins for O whenever one exists |
| TurnNodes.ScanFallsBackToX | tictactoe.c:291-296 | with no win for O, the scan returns the first index that wins for X, and -1 exactly when there is none |
| TurnNodes.Candidates | tictactoe.c:285-298 | the scan yields one decision of worth 100 per EMPTY cell, in ascending order, together with the forced index |
| TurnNodes.ForceDecision | tictactoe.c:299-304 | the forced decision gets the whole `sum` and every other decision 0, so the worths still total `sum` |
| TurnNodes.Initial | tictactoe.c:275-306 | the decisions of a new node cover the EMPTY cells in order, all worth 100, or, when a move is forced, 100·n on the forced cell and 0 elsewhere; either way they total 100·n |
| TurnNodes.InitialIsValid | tictactoe.c:275-306 | the decisions of a new node have non-negative worths on board cells, and a single decision is worth exactly the node's sum |
| TurnNodes.TurnNode.New | tictactoe.c:275-306 | turn_node_new: sum = 100·empties, lastMove = -1, decisions as `Initial`, and the node's invariant holds (worths non-negative, total ≥ sum) |
| TurnNodes.TurnNode.FromNone | tictactoe.c:307-316 | turn_node_new_fromnone: an empty board, no decisions, sum 0 and lastMove -1 |
| TurnNodes.TurnNode.MakeMove | tictactoe.c:322-336 | the draw is reduced to r = rnd % sum + 1; the chosen index is in range, its running total is the first to reach r, its worth is positive; only lastMove changes |
| TurnNodes.TotalWorthCovers | tictactoe.c:322-336 | with non-negative worths the total covers any single decision |
| TurnNodes.TakeRoundRobin | tictactoe.c:347-360 | the reward loop keeps positions and the rewarded decision, lowers no other worth below 0 or raises it, takes back at most `take` units, and stops short only when some other decision is at 0 |
| TurnNodes.Reward | tictactoe.c:343-360 | mark_good on the decision list: lastMove gains n-1+100, clamped to sum, and the others stay as `TakeRoundRobin` says |
| TurnNodes.RewardKeepsValid | tictactoe.c:337-361 | a rewarded node keeps non-negative worths, total ≥ sum and its positions, and a node with one decision is unchanged |
| TurnNodes.TurnNode.MarkGood | tictactoe.c:337-361 | turn_node_mark_good: sum and lastMove are kept, the decisions are `Rewarded`, and the node stays valid |
| TurnNodes.GiveRoundRobin | tictactoe.c:375-384 | the penalty loop hands out exactly `give` units one at a time round-robin from index 0, skipping lastMove: the decision of rank k among the others gains Share(give, n-1, k) |
| TurnNodes.ShareTotal | tictactoe.c:375-384 | the round-robin shares of `g` units among `m` decisions add up to exactly `g` |
| TurnNodes.GiveOne | tictactoe.c:375-384 | the unit handed out after `given` others goes to the decision of rank given % (n-1) |
| TurnNodes.Penalise | tictactoe.c:369-384 | mark_bad on more than one decision: lastMove loses min(worth, n-1+50), the others gain their round-robin shares, and the total worth is preserved exactly |
| TurnNodes.PenaltyKeepsValid | tictactoe.c:362-386 | a penalised node keeps non-negative worths, total ≥ sum and its positions |
| TurnNodes.TurnNode.MarkBad | tictactoe.c:362-386 | turn_node_mark_bad leaves a node with at most one decision alone and otherwise makes it `Penalised`; sum, lastMove and the total worth are kept and the node stays valid |
| Knowledge.Knowledge.constructor | tictactoe.c:425-436 | knowledge_new: X starts at turn_node_new of the empty board, O at a node without decisions; the reaction tree is empty and the current node is the first |
| Knowledge.Knowledge.GetMoveReaction | tictactoe.c:458-470 | lookup-or-insert: a known board returns its node and leaves the tree unchanged (repeat calls are idempotent); a new board gets a fresh turn_node_new node, bound under it and nothing else |
| Knowledge.ValuesInsert | tictactoe.c:467 | binding a new board adds exactly the new node to the nodes of the tree |
| Knowledge.ReactionPlayable | tictactoe.c:458-470 | a node filed for a configuration offers only that configuration's EMPTY cells |
| Knowledge.MoveFrom | tictactoe.c:479-481 | the active player draws from its current node: the chosen decision is the first whose running total reaches draw % sum + 1, the node is marked as moved from with its decisions unchanged, and its marker fills exactly that decision's cell, which was EMPTY |
| Knowledge.Respond | tictactoe.c:491 | the other player's current node becomes the tree's node for the new board: the node filed before when the board is known, a fresh turn_node_new node otherwise; it offers only open cells and the tree only grows with fresh nodes |
| Knowledge.Credit | tictactoe.c:486-496 | the node moved from is `Rewarded` when `good` and `Penalised` (or left alone with one decision) otherwise |
| Knowledge.LastMoverStep | tictactoe.c:492 | one ply later, with the other player to move, the player who makes the last move is the same |
| Knowledge.OutcomeOfLastMove | tictactoe.c:483-487 | a move that wins or fills the board ends the game with the mover as winner, and the mover is the one holding a line if anyone does |
| Knowledge.OutcomeOfReply | tictactoe.c:490-497 | the outcome of the game after the reply is the outcome of the game from the board before the move |
| Knowledge.SelfPlay | tictactoe.c:472-498 | the winner is the player who made the last move (a draw goes to the player who filled the board) and holds the line if anyone does; the node moved from is rewarded exactly when the mover won and penalised otherwise (stated when its configuration is no fuller than the board); the game changes only the nodes of configurations no fuller than the board; invariants and disjoint trees are kept |
| Knowledge.Continue | tictactoe.c:490-497 | the recursive case: the reply's winner is returned, the node moved from is rewarded exactly when it is the mover's, and deeper frames change only nodes of fuller boards |
| Knowledge.Reply | tictactoe.c:490-492 | the other player's node for the board (an old one with its decisions, or a fresh `turn_node_new` one) is moved from and credited by the winner, with the same outcome as `SelfPlay` |
| Knowledge.PlayOneGame | tictactoe.c:508-510 | one game on a fresh board with X moving first from whatever node it holds (never reset between games): the winner made the last move, both players stay valid, and X's node is credited by the winner when it is the node of the empty board |
| Knowledge.NewPlayers | tictactoe.c:504-505 | O's knowledge has no first decisions, X's first node has moves, and the two trees are disjoint |
| Knowledge.AquireKnowledge | tictactoe.c:500-515 | after the training games O's knowledge is still valid |
| Knapsack1.Sack.constructor | knapsack1.c:84-92 | a new sack is empty with capacity 4 |
| Knapsack1.Sack.Copy | knapsack1.c:93-104 | the copy is a fresh sack with the same items and capacity, so later appends to it leave the original alone |
| Knapsack1.Sack.AddItem | knapsack1.c:110-123 | the item is appended last, earlier items unchanged; capacity is multiplied by 4 exactly when the sack was full, so the item count never exceeds it |
| Knapsack1.Sack.SumUp | knapsack1.c:124-133 | cost and value are the sums of the items' costs and values |
| Knapsack1.Solution.constructor | knapsack1.c:136-142 | a new solution has no best sack |
| Knapsack1.Solution.CheckSack | knapsack1.c:149-163 | the sack is accepted exactly when its cost is within the limit and there is no best sack yet or its value is strictly greater; acceptance replaces the best sack and its sums, rejection changes nothing |
| Knapsack1.CandidatesRecursive | knapsack1.c:278-294 | the recursion checks exactly the leaves of `Leaves`, one per subset of the remaining items, the without-item subtree first, in the order `Fold` accepts them |
| Knapsack1.Knapsack | knapsack1.c:247-259 | an empty item set yields no solution; otherwise, with a limit of at least 0, the best sack exists, is within the limit, its sums are its items', and no subset within the limit has a greater value |
| KnapsackSpec.SumsAppend | knapsack1.c:124-133 | cost and value are additive over concatenation |
| KnapsackSpec.MasksEnumerate | knapsack1.c:278-294 | the inclusion masks number 2^n, all of length n, pairwise distinct, and include every mask of length n |
| KnapsackSpec.LeavesAreSubsets | knapsack1.c:278-294 | the k-th leaf reached from prefix p is p followed by the items the k-th mask selects, and there are 2^n leaves |
| KnapsackSpec.FirstLeafIsStart | knapsack1.c:278-294 | the first leaf the recursion reaches is the starting sack, with no item added |
| KnapsackSpec.FoldOptimum | knapsack1.c:149-163 | folding the acceptance rule over leaves finds nothing exactly when no leaf fits; otherwise the result is the earliest leaf of maximal value among those within the limit |
| KnapsackSpec.SearchOptimal | knapsack1.c:256-259 | a full search with limit ≥ 0 finds a best subset, which is some subset of the items, within the limit, with a value no feasible subset exceeds |
| KnapsackSpec.SameBestValue | knapsack2.c:519-561 | when every feasible leaf of one search is a leaf of the other, and every feasible leaf of the other reaching the bound is one of its leaves (with at least one such leaf), both searches find a best sack of the same value |
| KnapsackSpec.LimitedLeavesWithin | knapsack2.c:519-535 | every leaf the cost-pruned search reaches is a leaf of the full search |
| KnapsackSpec.LimitedLeavesComplete | knapsack2.c:519-535 | with non-negative costs, every full-search leaf within the limit is reached by the cost-pruned search |
| KnapsackSpec.LimitedMatchesExhaustive | knapsack2.c:519-535 | with non-negative costs, the cost-pruned search finds a best sack exactly when brute force does, and of the same value |
| KnapsackSpec.BoundedWithin | knapsack2.c:536-561 | every leaf the value-bound search checks is a full-search leaf of value at least the bound |
| KnapsackSpec.BoundedAbort | knapsack2.c:539-555 | when the value-bound search gives up on a subtree (returns 0), even the sack with every remaining item added stays below the bound |
| KnapsackSpec.BoundedComplete | knapsack2.c:536-561 | with non-negative costs and values, every leaf within the limit whose value reaches the bound is checked |
| KnapsackSpec.BoundedMatchesExhaustive | knapsack2.c:536-561 | with non-negative costs and values and a lower bound no greater than the best feasible value, the value-bound search finds a best sack of the brute-force best value |
| Knapsack2.ValueCompar | knapsack2.c:154-157 | negative exactly when the left item is more valuable, zero exactly on equal values (descending by value) |
| Knapsack2.CostCompar | knapsack2.c:158-161 | negative exactly when the left item is cheaper, zero exactly on equal costs (ascending by cost) |
| Knapsack2.Sack.constructor | knapsack2.c:175-192 | a new sack is empty with capacity 4, cost 0 and value 0 |
| Knapsack2.Sack.Copy | knapsack2.c:193-214 | the copy is fresh and has the same cost, value, capacity and items |
| Knapsack2.Sack.AddItem | knapsack2.c:220-235 | the item is appended last; cost and value grow by its cost and value, so they stay the sums over the items; capacity grows 4× exactly when full |
| Knapsack2.Info.constructor | knapsack2.c:361-365 | the global information keeps the cost limit it is given |
| Knapsack2.Info.Init | knapsack2.c:361-365 | k_info_init zeroes both value bounds and keeps the limit |
| Knapsack2.Info.UpdateLowerValueBound | knapsack2.c:366-370 | the lower bound becomes max(bound, sack value), so it never decreases and covers the sack |
| Knapsack2.Solution.constructor | knapsack2.c:313-324 | a new solution has no sack and a counter of 0 |
| Knapsack2.Solution.CheckSack | knapsack2.c:331-341 | the best sack is replaced exactly when the sack's cost is within the limit and there is no best yet or its value is strictly greater; the counter is untouched |
| Knapsack2.BruteForceRecursive | knapsack2.c:501-518 | the counter rises by exactly 2^n and the recorded best is `Fold` over the full leaves |
| Knapsack2.Optimized1Recursive | knapsack2.c:519-535 | the counter rises by the number of cost-pruned leaves, with the with-item branch first, and the recorded best is `Fold` over them |
| Knapsack2.Optimized2Recursive | knapsack2.c:536-561 | the returned flag, the counter increase and the checked leaves are those of `BoundedRun`: a leaf under the bound returns 0, and a 0 from the with-item branch skips the without-item branch |
| Knapsack2.GreedyTakesFromItems | knapsack2.c:562-578 | the greedy fill takes each item at most once |
| Knapsack2.GreedyWithinLimit | knapsack2.c:562-578 | the greedy fill never exceeds a non-negative limit, because `leftover` never goes negative |
| Knapsack2.GreedyCostGrows | knapsack2.c:562-578 | considering more items never lowers the greedy fill's cost |
| Knapsack2.GreedySkippedDoNotFit | knapsack2.c:562-578 | an item the greedy fill skips does not fit in what is left at the end |
| Knapsack2.GreedyHighestValue | knapsack2.c:562-578 | over the items sorted by descending value, the solution's sack is exactly the greedy fill, and the counter is 0 |
| Knapsack2.GreedyLowestCost | knapsack2.c:579-598 | over the items sorted by ascending cost, the sack is a prefix of them, each fits in what is left, the first item not taken does not fit, and the cost stays within a non-negative limit |
| TextFields.SkipSpaces | knapsack1.c:185-187 | the cursor lands on the first character at or after `s` that is not whitespace |
| TextFields.FieldEnd | knapsack1.c:188-189 | the field ends at the first NUL or separator, with neither before it |
| TextFields.TrimEnd | knapsack1.c:190-192 | the trimmed end lies between the start and the field end, only whitespace follows it, and the character before it is not whitespace (corrected trim, see Findings) |
| TextFields.TrimEndAsWritten | knapsack1.c:190-192 | the trim as written walks back over whitespace from `i` and may reach -1, before the buffer |
| TextFields.EmptyFirstFieldRunsOff | knapsack1.c:182-196 | when the first field of the buffer is empty, the trim as written reads before the buffer |
| TextFields.EmptyFieldReadsBeforeBuffer | knapsack1.c:182-192 | on the item-file line ",5,6", whose name field is empty, the commasep trim as written reaches index -1 |
| TextFields.ClearedCString | knapsack1.c:190-195 | after the NULs are written, the string read from the field start is exactly the trimmed field |
| TextFields.Separate | ga-graph-color.c:111-127 | the shared field cut: whitespace skipped; in strict mode a missing separator gives failure with buffer and cursor left at the field end; otherwise the trimmed field is cut out with NULs and the cursor is one past the separator |
| TextFields.CommaSep | knapsack1.c:182-196 | commasep: leading whitespace skipped, the field up to the first ',' or the end with trailing whitespace cut by NULs, cursor one past the separator |
| TextFields.FindSep | ga-graph-color.c:111-127 | findsep: as `Separate`, and NULL exactly when strict and the separator is missing or when the token is empty |
| GaCandidate.ByteCount | ga-knapsack.c:497-501 | bytecnt is ceil(itemSz/8): enough bytes for every item and one fewer would not be |
| GaCandidate.NewInstance | ga-knapsack.c:492-502 | an empty item set is refused; otherwise the instance keeps the items and limit, with bitcnt = 8·bytecnt |
| GaCandidate.Low | ga-knapsack.c:601-605 | the mask keeps bit i of a byte exactly when i < n |
| GaCandidate.ZeroLastBits | ga-knapsack.c:599-607 | zero_last_bits clears the top `lastBits` bits of the one byte, keeps its low 8-lastBits bits and touches no other byte |
| GaCandidate.UnusedBits | ga-knapsack.c:210-212 | the number of unused bits in the last byte is below 8 and fills the item count up to a multiple of 8 |
| GaCandidate.ZeroUnusedClearsTail | ga-knapsack.c:210-212 | clearing the unused bits keeps exactly the bits of the last byte that stand for items |
| GaCandidate.LastBitsAsWritten | ga-knapsack.c:212 | the count passed as written, bitcnt % itemSz, is below the item count |
| GaCandidate.LastBitsAsWrittenFromEight | ga-knapsack.c:212 | with at least eight items, the count as written agrees with the unused-bit count |
| GaCandidate.LastBitsAsWrittenAtMostUnused | ga-knapsack.c:212 | the count as written is never more than the number of unused bits, so it clears padding bits only |
| GaCandidate.ClearTopBits | ga-knapsack.c:599-607 | clearing the top l bits of a byte keeps exactly its bits below 8 - l |
| GaCandidate.LastBitsAsWrittenKeepsPaddingBitThree | ga-knapsack.c:193-194 | with three items, the count as written clears 2 bits and leaves padding bit 3 set, where 5 bits should be cleared |
| GaCandidate.Candidate.constructor | ga-knapsack.c:198-208 | a new candidate has zeroed bits of bytecnt bytes and uninitialised metrics |
| GaCandidate.ApplyMetrics | ga-knapsack.c:512-531 | item i counts when bit i%8 of byte i/8 is set; cost and value are the sums over those items; fitness is 0 over the limit and the value otherwise |
| GaCandidate.FitnessAtMostOptimum | ga-knapsack.c:512-531 | with non-negative costs and values, a candidate's fitness lies between 0 and the best value of the exhaustive search |
| GaCandidate.ClearBit | ga-knapsack.c:228 | the gene update b ^= b & (1<<u) equals b & ~(1<<u) |
| GaCandidate.ClearGenesClears | ga-knapsack.c:221-230 | mutation clears exactly the drawn genes of each byte and never sets a bit |
| GaCandidate.GenePositions | ga-knapsack.c:225-227 | every drawn gene position u = rand() % itemSz is below the item count |
| GaCandidate.Mutate | ga-knapsack.c:221-230 | the candidate's bits become the old bits with the drawn genes cleared |
| GaCandidate.CandidateCompare | ga-knapsack.c:249-256 | true exactly when the first bytecnt bytes of the two candidates are equal |
| GaCrossover.FromABit | ga-knapsack.c:617 | bit i of the byte mask comes from parent A exactly when rem - i ≥ pnt |
| GaCrossover.RandomByteBit | ga-knapsack.c:615-617 | bit i of the mixed byte is set exactly when it is among the bits visited and set in the parent chosen for it |
| GaCrossover.RandomByteWithin | ga-knapsack.c:615-617 | the mixed byte sets no bit that neither parent has |
| GaCrossover.CrossoverRandom | ga-knapsack.c:609-625 | each child byte is the old byte OR-ed with the bits of A before the crossover point and of B after it, for the draw reduced modulo the bit count |
| GaCrossover.RandomChildGene | ga-knapsack.c:609-625 | a child gene is set exactly when it was already set or it lies within `bits` and is set in the parent its side of the crossover point takes it from |
| GaCrossover.NextSet | ga-knapsack.c:650-659 | the parent scan stops at the first set gene at or after its start, or at the end |
| GaCrossover.Turn | ga-knapsack.c:636-670 | one turn of the alternating crossover copies exactly the next set gene of the current parent into the child and no other gene |
| GaCrossover.PicksFromParents | ga-knapsack.c:626-672 | every gene the alternating crossover picks is set in parent A or parent B |
| GaCrossover.CrossoverAlternate | ga-knapsack.c:626-672 | the child's genes become the old ones plus exactly the genes picked alternately from A and B, each from past the previous pick |
| GaCrossover.CrossoverGeneFromParents | ga-knapsack.c:609-672 | from a zeroed child, either crossover sets only genes that are set in parent A or parent B |
| GaPopulation.NewCrossover | ga-knapsack.c:198-215 | the new candidate's genes are exactly the crossed genes below the item count, no padding bit set, although the clearing gets the count as written; its metrics are those of `ApplyMetrics` |
| GaPopulation.ClearPaddingAsWritten | ga-knapsack.c:210-212 | the zero_last_bits call as written keeps exactly the genes below bitcnt minus bitcnt % itemSz |
| GaPopulation.ClearPadding | ga-knapsack.c:210-212 | clearing the last byte's unused bits keeps exactly the genes below the item count (corrected zero_last_bits call) |
| GaPopulation.ZeroedGenes | ga-knapsack.c:210-212 | after clearing, a gene is set exactly when it was set and stands for an item |
| GaPopulation.FitnessOfInsertEvict | ga-knapsack.c:293-296 | the fitness list of the population after insert-and-evict is the insert-and-evict of its fitness list |
| GaPopulation.RankOf | ga-knapsack.c:285-286 | the scan stops at the first member whose fitness is at most the offspring's |
| GaPopulation.Admit | ga-knapsack.c:285-296 | an offspring below every member leaves the population unchanged; otherwise it goes in at the first index of fitness ≤ its own, the tail shifts down and the last member is dropped; descending order is kept |
| GaPopulation.Breed | ga-knapsack.c:281-303 | as `Admit`; a refused offspring is untouched, an admitted one is mutated (every gene draw cleared) exactly when the draw % 47 is 0; the result is true exactly when the insertion index is at most the threshold |
| GaPopulation.BreedFromBest | ga-knapsack.c:304-311 | the offspring is crossed from members 0 and 1 and bred as by `Breed`: it goes in before the first member at most as fit, evicting the last, or leaves the population alone; the result is true exactly when it lands at index 0 or 1; descending order is kept |
| GaPopulation.CheckHomogenous | ga-knapsack.c:381-388 | true exactly when every member's bytes match member 0's |
| Ranked.FirstAtMost | ga-knapsack.c:285-286 | the insertion index is the first whose key is at most `f`, every key before it being greater |
| Ranked.InsertEvictAt | ga-knapsack.c:293-296 | after insert-and-evict, entries before k are unchanged, k holds the newcomer and later entries are shifted down by one |
| Ranked.InsertEvictMultiset | ga-graph-color.c:396-405 | insert-and-evict removes exactly the last member and adds the newcomer, so the size is unchanged |
| Ranked.InsertKeepsDescending | ga-graph-color.c:393-405 | inserting into a descending array at the scan's index keeps it descending |
| Ranked.DescendingEvictsLeast | ga-graph-color.c:393-405 | on a descending array the evicted last member is the least, and the newcomer is refused exactly when it is below it |
| Ranked.AscendingEvictsGreatest | ga-graph-color.c:393-405 | on an ascending array the scan stops at 0 or runs off the end, and the last member is the greatest |
| Ranked.InsertAt | ga-graph-color.c:396-405 | the in-place shift leaves the array as the insert-and-evict of its old contents |
| GraphColor.RowPointsFull | ga-graph-color.c:335-341 | a node earns a point for every entry exactly when none of its neighbours shares its colour |
| GraphColor.PointsFull | ga-graph-color.c:333-341 | the points never exceed the number of entries and equal it exactly when the colouring is proper so far |
| GraphColor.FitnessMeaning | ga-graph-color.c:327-343 | a proper colouring scores SOLUTION; otherwise the score is the count of entries with different colours, below the entry count; with at most SOLUTION entries the score is SOLUTION exactly on a proper colouring |
| GraphColor.GraphFitness | ga-graph-color.c:327-343 | the nested loops compute `Fitness` of the colouring |
| GraphColor.LoadedMapIsAdjacency | ga-graph-color.c:169-270 | a loaded node map is a well-formed adjacency structure for the fitness function |
| GraphColor.SlotWord | ga-graph-color.c:360-372 | the int `left->fitness` reads from a slot is a signed 32-bit int congruent to the stored graph address modulo 2^32 (its low word) |
| GraphColor.SlotCompar | ga-graph-color.c:360-372 | as qsort calls it: negative or zero exactly as the left slot's word is below or equal to the right one's; no fitness enters the result |
| GraphColor.SlotComparOverflows | ga-graph-color.c:362 | on the slot words 2^31 - 1 and -2^31 the exact difference is 2^32 - 1, beyond the int range, so the C subtraction overflows |
| GraphColor.NotDescendingCycleDropsFitter | ga-graph-color.c:393-405 | on a population not in descending order, a child no less fit than member 0 but less fit than the last member goes in at index 0, and that fitter last member is evicted |
| GraphColor.SlotSortedCycleDropsFittest | ga-graph-color.c:366-405 | graphs at ascending addresses are sorted as the qsort call promises while their fitnesses (1, ..., 1, 5) are not descending; a child of fitness 2 then enters at index 0 and the graph of fitness 5 is lost |
| GraphColor.FitnessComparDescending | ga-graph-color.c:360-363 | corrected: negative exactly when the left fitness is greater, so qsort sorts descending (in C it must also take `const struct graph**`) |
| GraphColor.ComparDescendingSortsDescending | ga-graph-color.c:366-373 | a population sorted by the corrected comparator is descending |
| GraphColor.ParentIndex | ga-graph-color.c:385-390 | the parent index is the smaller of the two reduced draws and lies in the population |
| GraphColor.RankOf | ga-graph-color.c:393-395 | the scan stops at the first member whose fitness is at most the child's |
| GraphColor.PopulationCycle | ga-graph-color.c:380-408 | a child below every member leaves the population unchanged; otherwise it is inserted at the scan's index, the tail shifts and the last member goes; descending order is kept; the result says whether member 0 is a solution |
| GraphColor.AscendingCycleDropsFittest | ga-graph-color.c:393-405 | on an ascending population, one order the slot sort may leave, any child at least as fit as member 0 goes in at index 0 and the fittest (last) member is evicted |
| GraphMap.LineBuffer | ga-graph-color.c:94-110 | the line buffer of a line read up to its newline is the line followed by two NULs (corrected reading for a last line without newline, see Findings) |
| GraphMap.AdjacencyBound | ga-graph-color.c:231-235 | a line with k commas gives at most k + 1 adjacencies |
| GraphMap.TokensBound | ga-graph-color.c:124-127 | from any position of a line buffer, the findsep(',') tokens number at most the commas left plus one |
| GraphMap.LastLineBufferAsWritten | ga-graph-color.c:94-110 | a last line without newline is followed by a single NUL and then by what the earlier lines left in the buffer |
| GraphMap.StaleTokenAfterLastLine | ga-graph-color.c:94-127 | for the file "b: a, a\na: b" without final newline, node a gets the adjacencies b and a, two for a line without commas, where its line names only b |
| GraphMap.NameOf | ga-graph-color.c:199-205 | a name is found only when a ':' ends the first field, and it is a non-empty, trimmed token without separator or NUL |
| GraphMap.Tokens | ga-graph-color.c:231-250 | every adjacency token is non-empty and trimmed and holds no ',' or NUL |
| GraphMap.Entries | ga-graph-color.c:190-229 | entry m is the parse of line m |
| GraphMap.Reallocate | ga-graph-color.c:154-166 | the new size is at least the old and strictly more for a positive size (it doubles) |
| GraphMap.NameFound | ga-graph-color.c:199-205 | the strict name scan fails exactly when no ':' ends the field or the name is empty, and otherwise gives the trimmed name |
| GraphMap.LineName | ga-graph-color.c:199-207 | the name is read exactly when the line has one; the buffer after it is unchanged and the cursor is one past the ':' |
| GraphMap.NextAdjacency | ga-graph-color.c:231-235 | no more tokens exactly when the remaining tokens are none; otherwise the token read is the next one and the cursor moves past it |
| GraphMap.ReadAdjacency | ga-graph-color.c:231-250 | each token adds one entry to the row, in order: known names are bound directly and the others are pushed for late binding |
| GraphMap.ReadLine | ga-graph-color.c:190-250 | a line without a name fails; a repeated name is reported exactly when it is already bound; otherwise the row and the late bindings are those of its tokens |
| GraphMap.Multiplicity | ga-graph-color.c:211-220 | a repeated node name means the file does not parse |
| GraphMap.NoName | ga-graph-color.c:199-205 | a line without a name means the file does not parse |
| GraphMap.AllRead | ga-graph-color.c:190-229 | after every line, the entries read are the file's entries and every line has a name |
| GraphMap.Unbound | ga-graph-color.c:255-262 | a late binding to an unknown name means some adjacency names no node |
| GraphMap.AllResolved | ga-graph-color.c:253-269 | with every binding resolved the arrays represent the entries and every adjacency names a node |
| GraphMap.WaitingStep | ga-graph-color.c:253-266 | resolving one late binding patches exactly its entry with the bound index and keeps everything already resolved |
| GraphMap.Patch | ga-graph-color.c:263 | the patch changes exactly one entry of the adjacency arrays |
| GraphMap.NodeMap.Bind | ga-graph-color.c:253-269 | the late bindings succeed exactly when every adjacency names a node, and then the arrays represent the entries |
| GraphMap.NodeMap.InitFromLines | ga-graph-color.c:169-270 | success exactly when every line has a name, the names are distinct and every adjacency names a node; then node m is line m with one entry per token, in order, pointing at the named node |

## Left out

- Input and output: every `main`, `readline` and `fgets` (including the 4096-character line limit), `fopen` and `sscanf` number parsing, and all printing. Lines and the parsed items are parameters. Only the buffer readline leaves for a last line without newline is modelled (see Findings).
- `GraphMap.LineBuffer`: the parser reads every line, the last one included, as if it ended in a newline; the C reading of a final line without one is `GraphMap.LastLineBufferAsWritten`.
- The curses and terminfo setup in knapsack2.c, and interactive play against a human (tictactoe.c:97-168).
- Random number generation: every `rand()` value is a parameter. This covers `graph_new_random`, `graph_new_offspring`, `gak_candidate_new_random`, `gak_population_cataclysmic_mutation`, and the parent choice of `breed_tophalf` and `breed_weighted`.
- Population set-up by qsort: `population_init` and `gak_population_new_random` are not modelled. In ga-graph-color.c the initial order depends on the heap addresses of the graphs (see Findings), so `GraphColor.PopulationCycle` assumes no initial order; the addresses are parameters of `GraphColor.SortedBySlots`. The sort of `gak_population_new_random` by `gak_candidate_compar_byfitness` is not modelled either; `GaPopulation.Admit` keeps a descending order where one holds.
- Floating point: `itemcompar_ratio`, `greedy_highest_ratio`, the partial sack and `partial_knapsack`, `gak_population_breed_threshold`, and the percentage display in tictactoe.c.
- The `dstructs` tree map, stack and dynamic array, which appear as `map` and `seq` values.
  - The late-binding stack is popped top-down until it is empty, because that is how its `stack_pop` loop runs.
  - `GraphMap.NodeMap.InitFromLines` does not model the contents of the map on failure; the C code deletes it.
  - For a name that is bound later, the C code leaves the entry uninitialised; the model writes a placeholder there.
- Memory management: malloc, free and realloc ownership, and the commented-out `turn_node_cap`.
- Fixed-width integers are unbounded here.
  - `GraphMap.Reallocate` does not model the `size_t` doubling wrapping around.
  - `GraphColor.GraphFitness` does not model `int` overflow of the point count.
  - `TurnNodes.Reward` does not model the `worth < 0` clamp of tictactoe.c:345, which only fires on 32-bit overflow.
- `TurnNodes.TakeRoundRobin` states bounds, not the exact outcome of mark_good's loop. Its zero-worth counter `cnt` accumulates across passes, so the loop can stop before taking `take` units.
  - The contract says how little may be taken and when, not exactly which decisions lose a unit.
  - `TurnNodes.Reward`, `TurnNodes.TurnNode.MarkGood` and `Knowledge.Credit` carry this weaker statement as well.
- `Knowledge.SelfPlay` states the credit of the node moved from only when that node's configuration has at most as many EMPTY cells as the board. X's current node is never reset between games, so in a later game it can belong to another configuration and be moved from again deeper in the same game.
- `Knowledge.AquireKnowledge` makes no claim about what the training converges to. It also does not keep the fact that O's first node has no decisions, because the model does not track which nodes are first.
- The knapsack drivers' file reading, and knapsack2.c's sequence of searches in `knapsack` (knapsack2.c:405-500). Each search is modelled; the driver itself is not.

## Findings

| source | as written | input that shows it | evidently intended | confidence | as-written member | corrected member |
|---|---|---|---|---|---|---|
| knapsack1.c:190-192, knapsack2.c:399-401, ga-knapsack.c:589-591, ga-graph-color.c:121-123 | the trailing-whitespace trim starts one before the separator and walks back while it sees whitespace, with no lower bound at the field start | a buffer whose first field is empty, e.g. the line ",5,6": the trim starts at index -1, before the buffer | the trim stops at the field start, so an empty field gives an empty string | not executed | TextFields.EmptyFieldReadsBeforeBuffer | TextFields.Separate |
| ga-knapsack.c:194, ga-knapsack.c:420 | `zero_last_bits` is given `bitcnt % itemSz` as the number of unused bits of the last byte, after the bytes were filled from `rand()` (new_random at :194, cataclysmic mutation at :420); at :212 the same count is harmless, because :208 zeroes the child and the crossovers set gene bits only | 3 items and a random last byte 0xFF: 8 % 3 = 2 bits are cleared, and padding bit 3 stays set where 5 bits should be cleared | the number of unused bits, (8 - itemSz % 8) % 8 | not executed | GaCandidate.LastBitsAsWrittenKeepsPaddingBitThree | GaPopulation.ClearPadding |
| ga-graph-color.c:360-363, ga-graph-color.c:372, ga-graph-color.c:393-395 | `fitness_compar` is declared on `const struct graph*`, but the qsort at :372 sorts an array of `struct graph*` and so passes pointers to its slots; `left->fitness` reads the first int of a slot, part of a heap address, and the subtraction may overflow, so population_init leaves an order that has nothing to do with fitness, while the insertion scan assumes a descending array | graphs at ascending addresses with fitnesses 1, ..., 1, 5: the slots are sorted as the call promises, and a child of fitness 2 goes in at index 0 while the graph of fitness 5 is evicted | a descending comparator on `const struct graph**`, `(*right)->fitness - (*left)->fitness` as at ga-knapsack.c:597-599, so that the scan keeps the order | not executed | GraphColor.SlotSortedCycleDropsFittest | GraphColor.ComparDescendingSortsDescending |
| ga-graph-color.c:94-110, ga-graph-color.c:124-125 | for a last line without a newline, fgets writes one NUL, and readline leaves the rest of the line buffer as the earlier lines left it; findsep(',') stops at that NUL, steps past it and reads the stale text behind it | the file "b: a, a\na: b" without final newline: node a gets the adjacencies b and a | every line, the last included, is parsed from its own text only | not executed | GraphMap.StaleTokenAfterLastLine | GraphMap.AdjacencyBound |
