# jelly-no-brain in Dafny

This project models the core of jelly-no-brain and proves properties of the model. jelly-no-brain is a sliding-block puzzle engine written in C. The board is a 14 × 10 grid. Each cell is empty, a wall, an emerge cell or a piece. A piece has a colour, a four-bit `no_connect` mask and the index of the block it belongs to. Alongside the grid sits a table of blocks, each with an anchor position and a `fixed` flag.

A player move takes four steps:

1. It pushes a block one cell left or right, together with every block in its way (the *cascade*).
2. It lets every block that moved, or that rested on a mover, fall while it can.
3. It re-floods the board to merge blocks that now touch.
4. It writes the result into the next slot of a ten-slot undo ring.

The modules follow the structure of the C code:

- `Board` (`src/game.h` and the small helpers of `src/game.c`):
  - cells, positions, directions and blocks;
  - the game state as a class with a 140-cell `array<Cell>` and a `seq<Block>` table;
  - connectivity of pieces (`PiecesCanConnect`, `Link`, `LabelPath`, `Reaches`);
  - `ValidState`: labels are below the block count, each anchor is a cell of its block, and the cells of one label are joined by walks of connectable pieces.
- `Flood`: termination measures shared by the stack floods.
- `Finder` (`fill_block_initial`, `find_blocks`, `game_preprocess_alloc`):
  - the load-time block labelling, by an explicit stack flood in place;
  - the specification `Found` (anchors are the first cells in row-major order, blocks are in scan order, a block is fixed iff one of its pieces was loaded fixed, and two pieces share a label iff they are connected).
- `Explorer` (`is_stop_cell`, `block_add_adjacent_blocks` and the loop in `move_block`):
  - the flood over the cells of the moving block and of every block pushed along, as a state-passing function `AdjRun` and as the in-place method;
  - an independent definition of the cascade (`InCascade`) and of when a move is possible (`MoveOk`).
- `Translator`: the single-pass write of the shifted board in `move_block`, specified cell by cell by `Shifted`, and the anchor patch.
- `Gravity`: the potential (the sum over pieces of their height above the floor), and how a move changes it.
- `Engine` (`game_do_move`): the first move, the gravity loop with its front/back swap, and the copy into the destination. Gravity settles: every block a move noted is popped, a block that cannot move DOWN stays unable to through later DOWN moves of other blocks, so none of the popped blocks can move DOWN at the end.
- `Reconciler` (`min_pos`, `connect_adjacent_blocks`, `update_block_connections`): the re-flood that merges touching blocks and renumbers the table. Both the code as written and a corrected version are modelled (see Findings).
- `Session` (`src/web.c`): the `Game` class holding the undo ring and its counters, move validation, and the cell queries used by the renderer.
- `Base64` (`src/b64.c`, `src/b64.h`): the RFC 4648 section 4 encoder and decoder over bytes, with the size arithmetic. It proves the round trip.

Integers are unbounded. Where the C code's widths matter, they are written out:

- `size_t` wrap-around in `b64_decoded_size`;
- C's truncating `%` in `GAME_undo`;
- the `int8_t` results of the getters;
- the bit masks held as `bv8`.

## Model

| member | source | states |
|---|---|---|
| Base64.Value | src/b64.c:10-11 | an alphabet character's value is below 64 |
| Base64.LetterValue | src/b64.c:10-11 | the character at table position v (v < 64) is in the alphabet and decodes back to v |
| Base64.ValueLetter | src/b64.c:10-11 | every alphabet character is the table entry at its own value |
| Base64.TableLetters | src/b64.c:10-11 | the 64-character table lists the alphabet in value order |
| Base64.Find | src/b64.c:59 | strchr on the table: the index of the first occurrence of c, or -1 exactly when c does not occur |
| Base64.FindTable | src/b64.c:59 | looking up an alphabet character gives its value; any other character gives -1 |
| Base64.Lookup | src/b64.c:59 | the table lookup used by the decoder returns the value of a letter and -1 otherwise |
| Base64.EncodedSizeStep | src/b64.h:6-8 | (n + 2) / 3 * 4 is 0 for 0 bytes, 4 for 1-2 bytes, and grows by 4 per further 3 bytes |
| Base64.EncodedSizeCeiling | src/b64.h:6-8 | the encoded size is a multiple of 4, is 0 iff n = 0, and equals 4·⌈n/3⌉ |
| Base64.QuadChars | src/b64.c:18-23 | a 3-byte group becomes four characters taken from the 6-bit split of its 24 bits |
| Base64.QuadValues | src/b64.c:18-23 | each of those four characters is a letter, and its value is the matching 6-bit field |
| Base64.Encoding | src/b64.c:13-33 | the encoding of n bytes has exactly b64_encoded_size(n) characters |
| Base64.UnpaddedThenPad | src/b64.c:25-31 | the encoding is all full groups with the trailing characters replaced by '=' (two when n mod 3 = 1, one when n mod 3 = 2, none otherwise) |
| Base64.EncodingPadding | src/b64.c:25-31 | a character of the encoding is '=' exactly when it lies in the padding tail, and every other character is an alphabet letter |
| Base64.PaddedLength | src/b64.c:14 | the loop bound is the input size rounded up to a multiple of 3, matching the encoded size |
| Base64.EncodeGroups | src/b64.c:14-24 | the group loop writes the unpadded encoding into dest and nothing after it |
| Base64.Encode | src/b64.c:13-33 | b64_encode writes the encoding followed by a NUL at the encoded size, and leaves the rest of dest unchanged |
| Base64.EncodeAlloc | src/b64.c:35-41 | b64_encode_alloc returns NULL iff malloc fails, otherwise a new buffer of encoded size + 1 holding the encoding and its NUL |
| Base64.GroupRoundTrip | src/b64.c:61-67 | the decoder's shifts reassemble each byte of a group from its 6-bit fields |
| Base64.FullGroup | src/b64.c:61-67 | decoding a full group followed by more input gives its three bytes followed by the rest's decoding |
| Base64.TwoBytes | src/b64.c:61-67 | a group with one '=' decodes to its two bytes |
| Base64.OneByte | src/b64.c:61-67 | a group with two '=' decodes to its single byte |
| Base64.GroupBytes | src/b64.c:61-67 | a group yields 1 byte if its third character is '=', 2 if only its fourth is, else 3 |
| Base64.DecodedSize | src/b64.c:43-48 | 0 when the length is not a multiple of 4 (or the input is empty), otherwise len/4·3 less between 0 and 2 |
| Base64.DecodedSizeAsWritten | src/b64.c:43-48 | the code as written, including its reads before the string and the size_t wrap: 0 for lengths not a multiple of 4, always a size_t value |
| Base64.DecodedSizeAgrees | src/b64.c:43-48 | for non-empty input, the code as written equals len/4·3 minus the '=' among the last two characters |
| Base64.EmptyDecodedSizeAsWritten | src/b64.c:44-47 | for "", the code reads the two bytes before the string: "AA" there gives 0, "==" there gives 2^64 - 2 |
| Base64.DecodingFits | src/b64.c:43-48 | for any well-formed input, the decoder writes no more bytes than b64_decoded_size |
| Base64.RoundTrip | src/b64.c:50-70 | the encoding of any bytes is well-formed input, and decoding it gives the same bytes |
| Base64.DecodedSizeOfEncoding | src/b64.c:43-48 | b64_decoded_size of the encoding of n > 0 bytes is n, and the decoder writes exactly that many |
| Base64.DecodeGroup | src/b64.c:57-67 | one group's bytes are written at the current offset; the result says whether the group ended in '=' |
| Base64.DecodeGroups | src/b64.c:56-68 | the chunk loop writes the decoding and stops at the first '=' group, leaving the rest of dest unchanged |
| Base64.Decode | src/b64.c:50-70 | b64_decode succeeds iff the length is a multiple of 4; on failure dest is untouched, on success dest starts with the decoding and the rest is unchanged |
| Base64.DecodeAlloc | src/b64.c:72-87 | the size reported is the corrected b64_decoded_size (`DecodedSize`, 0 for the empty string; see Findings); the result is NULL iff that size is 0 or malloc fails, otherwise a new buffer starting with the decoding |
| Board.DirOf | src/game.c:11-12 | direction codes 0-3 name the four real directions in enum order |
| Board.Opposite | src/game.h:36 | the opposite of a direction is a different real direction |
| Board.OppositeInvolution | src/game.h:36 | DIR_OPPOSITE is an involution, and stepping forth and back returns to the start |
| Board.DirCodes | src/game.h:28-36 | the opposite's code is the code xor 1, and the no_connect bit of d is 1 << d, inside the low nibble |
| Board.ConnectBitsDistinct | src/game.h:28-33 | two directions' connect bits are disjoint iff the directions differ, and the four bits fill 0xf |
| Board.IsHorizontal | src/game.h:37 | DIR_IS_HORIZONTAL holds exactly for the codes below UP (LEFT, RIGHT) |
| Board.AddDirInverse | src/game.c:52-57 | add_dir with d and then with its opposite is the identity, and each step reaches an adjacent position |
| Board.Idx | src/game.h:100 | an in-bounds position indexes one of the 140 cells |
| Board.PosOf | src/game.h:100 | each cell index is the index of an in-bounds position |
| Board.IdxInjective | src/game.h:100 | distinct in-bounds positions have distinct cell indices |
| Board.PosOfIdx | src/game.h:100 | the position of a cell index is the position that produced it |
| Board.RowMajorIdx | src/game.c:440-445 | the row-major order of min_pos agrees with the order of cell indices |
| Board.PieceMakeColor | src/game.h:51-54 | piece_make_color keeps the low 7 bits of the colour, and bit 7 is set iff fixed |
| Board.GameGetSize | src/game.h:109-116 | game_get_size is at least the header size, and at most GAME_STATE_MAX_SIZE for up to 140 blocks |
| Board.GetPosSafe | src/game.h:131-136 | game_get_pos_safe returns nothing iff x is outside [0,14) or y outside [0,10), and otherwise board[y][x] |
| Board.ColorsEqualInitialMeaning | src/game.c:67-70 | two colours are equal for connection iff they agree outside bit 7 |
| Board.PiecesCanConnectMeaning | src/game.c:72-83 | pieces_can_connect(a,b,d) holds iff the colours agree modulo bit 7, a lacks the no_connect bit of d, and b lacks the bit of the opposite direction |
| Board.PiecesCanConnectSymmetric | src/game.c:72-83 | a can connect to b towards d iff b can connect to a towards the opposite direction |
| Board.LinkBack | src/game.h:85-87 | a connectable link between same-block neighbours also holds backwards |
| Board.ReachesSymmetric | src/game.h:85-87 | connectedness within a block is symmetric |
| Board.ReachesTransitive | src/game.h:85-87 | connectedness within a block is transitive |
| Board.GameState.constructor | src/game.h:97-107 | a new state has a fresh 140-cell board of empty cells and no blocks |
| Board.GameState.Clear | src/game.c:371 | clearing the destination empties every cell and the block table |
| Board.GameState.CopyBlockData | src/game.h:118-122 | game_copy_block_data makes dest's block table equal to src's (same count and entries) |
| Finder.Labelled | src/game.c:106-117 | a labelled piece carries the block index and keeps its no_connect mask |
| Finder.RelabelCell | src/game.c:106-117 | labelling clears bit 7 of the colour, keeps the rest, and labelling twice changes nothing more |
| Finder.RelabelAt | src/game.c:106-117 | relabelling one cell reports whether it was loaded fixed, and changes only that cell |
| Finder.LabelledCanConnect | src/game.c:113-115 | relabelling a cell does not change whether it can connect |
| Finder.ConnectedSymmetric | src/game.c:119-136 | connectedness by connectable steps is symmetric |
| Finder.ConnectedTransitive | src/game.c:119-136 | connectedness by connectable steps is transitive |
| Finder.PushesSound | src/game.c:119-136 | each neighbour the flood pushes is unvisited and connectable from the popped cell |
| Finder.PushesComplete | src/game.c:119-136 | every unvisited connectable neighbour is pushed |
| Finder.PushConnectable | src/game.c:119-136 | the push step extends the stack by exactly the connectable unvisited neighbours, in direction order |
| Finder.FillPopCell | src/game.c:98-136 | one iteration of the fill loop performs one step of the functional fill |
| Finder.FillBlockInitial | src/game.c:85-138 | fill_block_initial performs the functional fill from the start cell, with the block anchored at the start |
| Finder.FillRunInv | src/game.c:97-137 | the fill loop invariant holds when the stack empties |
| Finder.FillCorrect | src/game.c:85-138 | a fill from an unvisited piece labels exactly the pieces connected to it, and the block is fixed iff one of them was loaded fixed |
| Finder.ScanFill | src/game.c:153-162 | a fill started by the scan meets the fill's requirements |
| Finder.ScanCell | src/game.c:155-160 | one cell of the row-major scan keeps the scan invariant, starting a new block at an unvisited piece |
| Finder.ScanCount | src/game.c:158-160 | the scan finds no more blocks than cells it has visited |
| Finder.ScanDone | src/game.c:153-162 | when the scan ends, the board and table satisfy Found |
| Finder.FindBlocks | src/game.c:142-165 | with no allocation failure, find_blocks relabels the board and returns a table satisfying Found; a failed calloc leaves the board unchanged and gives none; the count it adds to the state's block counter is the number of blocks found, also when realloc fails |
| Finder.FoundValid | src/game.c:142-165 | a Found outcome is a valid state, and no piece keeps bit 7 of its colour |
| Finder.CopyBoard | src/game.c:179-181 | the board copy makes dest's cells equal to the initial ones |
| Finder.PreprocessAlloc | src/game.c:167-194 | game_preprocess_alloc succeeds iff both allocations do; then the new state satisfies Found for the initial board; a failed calloc leaves the initial state unchanged; otherwise the initial state's block count is the number of blocks found and is not reset, and unless the initial state is the destination its table entries are the stale ones |
| Explorer.SamePushesSound | src/game.c:251-265 | every cell pushed by the same-block step is an unvisited cell of the block |
| Explorer.SamePushesComplete | src/game.c:251-265 | every unvisited in-bounds neighbour of the same block is pushed |
| Explorer.PushSameBlock | src/game.c:251-265 | the loop over directions pushes exactly the same-block neighbours |
| Explorer.PushIfSame | src/game.c:251-265 | one direction's check pushes the neighbour iff it is an unvisited cell of the block |
| Explorer.AdjPopShape | src/game.c:231-310 | a pop step marks the popped cell visited, replaces it on the stack by its unvisited same-block neighbours, and notes the blocks resting on it |
| Explorer.AdjPopOk | src/game.c:231-310 | a pop step keeps the state well-formed and lowers the measure (unvisited cells, then visited cells on the stack) |
| Explorer.AdjRun | src/game.c:231-310 | the flood ends either because it met a stop cell or because the stack is empty |
| Explorer.AdjPopCell | src/game.c:232-306 | one iteration of the flood loop performs one step of the functional flood |
| Explorer.BlockAddAdjacentBlocks | src/game.c:219-311 | block_add_adjacent_blocks performs the functional flood from the block's anchor |
| Explorer.AdjRunInv | src/game.c:231-310 | the flood keeps its invariants to the end |
| Explorer.AdjStopStep | src/game.c:269-301 | meeting a stop cell (off the board, a wall, an emerge cell or a fixed block's piece) means the block is blocked |
| Explorer.AdjCorrect | src/game.c:219-311 | the flood returns false iff the block's cells touch a stop cell in the move direction; otherwise it marks the block's cells and notes the pushed and the resting blocks |
| Explorer.SameWalk | src/game.c:251-265 | the flood visits every cell joined to a visited cell by a same-label walk |
| Explorer.CascadeStart | src/game.c:338-361 | the moving block belongs to its own cascade |
| Explorer.CascadeExtend | src/game.c:338-361 | a block pushed by a cascade block belongs to the cascade |
| Explorer.ExploreKeeps | src/game.c:338-361 | one round of the cascade loop keeps the explore invariant |
| Explorer.ExploreMeasure | src/game.c:338-361 | each round of the cascade loop lowers the termination measure |
| Explorer.ExploreStopped | src/game.c:349-360 | if a cascade block meets a stop cell, the move is not possible |
| Explorer.ExploreDone | src/game.c:338-361 | when the cascade loop ends without a stop, the move is possible and the visited cells are exactly the cascade's cells |
| Explorer.MoveExplore | src/game.c:327-361 | move_block's exploration returns true iff the block is not fixed and no cascade cell's neighbour in the move direction is a stop cell; on success the visited cells are exactly the cascade cells and every block resting on a mover is noted for gravity; on failure the gravity stack is restored |
| Translator.CascadeIsMask | src/game.c:269-306 | the cascade's cells form a movable mask: every moved cell lands in bounds on an empty cell or on another moved cell |
| Translator.Shifted | src/game.c:381-399 | each destination cell is the moved source cell behind it, otherwise empty if its own source moved, otherwise its own source cell |
| Translator.WriteCell | src/game.c:383-397 | one iteration of the write loop extends the partial destination by one source cell |
| Translator.WriteShifted | src/game.c:370-399 | the single-pass write gives the shifted board, copies the block count and fixed flags, and places each anchor as AnchorAt describes |
| Translator.ShiftedSource | src/game.c:383-391 | every destination cell comes from a moved source cell one step behind, or from its own unmoved source |
| Translator.MovedLands | src/game.c:383-391 | a moved cell appears one step along dir in the destination |
| Translator.StillStays | src/game.c:383-391 | a cell that does not move and is not overwritten stays in place |
| Translator.MovedPath | src/game.c:381-399 | a same-block walk of moved cells is still a walk after the shift |
| Translator.MovedLink | src/game.c:381-399 | a link between moved cells is kept after the shift |
| Translator.StillPath | src/game.c:381-399 | a walk of cells that do not move is kept after the shift |
| Translator.ShiftedConnected | src/game.c:381-399 | two cells of one label stay connected after the shift |
| Translator.ShiftedValid | src/game.c:370-399 | shifting a valid state by a movable mask with anchors as AnchorAt describes gives a valid state |
| Translator.MoveBlock | src/game.c:316-438 | move_block returns true iff MoveOk; on failure dest and the gravity stack are unchanged; on success dest holds the shifted board, the same block count and valid anchors, and every mover's upper neighbour is noted for gravity |
| Gravity.DownPotential | src/game.c:553-562 | a DOWN move lowers the potential by exactly the number of moved cells |
| Gravity.SidePotential | src/game.c:538 | a sideways move does not change the potential |
| Gravity.SamePiecesPotential | src/game.c:565-567 | boards whose pieces sit at the same cells have the same potential |
| Engine.DownLowers | src/game.c:557-561 | a possible DOWN move strictly lowers the potential, so the gravity loop terminates |
| Engine.SideKeeps | src/game.c:538 | the player's sideways move keeps the potential |
| Engine.ReconciledKeeps | src/game.c:567 | reconciling keeps the potential |
| Engine.StepDown | src/game.c:557-561 | one DOWN attempt (`DownStep`) succeeds iff MoveOk for DOWN; on failure the gravity stack is unchanged; on success dst is src with the cascade shifted down one cell (`Moved`: the Shifted board, a table of the same size with anchors as AnchorAt says), a valid state of lower potential, the stack only grows, and every moved cell's block and the block resting on that cell are on the new stack |
| Engine.Fall | src/game.c:557-561 | the inner gravity loop goes from the state in front0 to the state it ends in front through a run of DOWN moves of this block, each one `Moved` (`Falling`, `Drops`), each noting its moved blocks and the blocks resting on moved cells on the returned stack (`DropsNoted`); the block then cannot move DOWN; the result is valid, with the same block count, no higher potential, and the stack only grows |
| Engine.StepSide | src/game.c:528-540 | the first move succeeds iff MoveOk; front then holds game with the cascade shifted sideways (`Moved`), a valid state of the same potential, and every mover is noted for gravity |
| Engine.Settle | src/game.c:546-562 | the outer gravity loop goes from the state in front0 to the state in front through a run of DOWN moves (`Settles`): every block first on the stack, and every block some move of the run noted (the moved blocks and the blocks resting on moved cells), was popped, every block dropped was a popped one, and no popped block can move DOWN in the final state; the result is valid, with the same block count and no higher potential |
| Engine.SettleInto | src/game.c:553-568 | dest receives the corrected update_block_connections (see Findings) of the last state of a gravity run that starts at front0's state and `Settles` the stack: every noted and every pushed block popped, none of them able to move DOWN at the end; dest is valid, with no more blocks and no higher potential |
| Engine.GameDoMove | src/game.c:522-571 | game_do_move returns true iff the first move is possible; every moved cell's block and the block resting on it are noted; on failure dest is untouched; on success dest is what `DoneMove` describes: game with block x moved, the gravity run from there that pops every noted and every pushed block and leaves none of them able to move DOWN, and the corrected update_block_connections (see Findings) of its last state; dest is valid, with no more blocks and no higher potential |
| Engine.DropsExtend | src/game.c:557-561 | a gravity run extends by one DOWN move |
| Engine.DropsJoin | src/game.c:553-562 | two gravity runs, the second starting where the first ends, join into one that keeps the first one's states |
| Engine.DropsPrefix | src/game.c:557-561 | a run less its last move is a run |
| Engine.DropsLower | src/game.c:553-562 | a gravity run keeps the block count and lowers the potential by at least one per DOWN move, so the loop terminates |
| Engine.SettlingStep | src/game.c:553-562 | one pop of the outer loop, followed by that block's fall to a stop, keeps the record of popped blocks and where each stopped, and keeps every block noted so far, by earlier moves or by this fall, among the popped blocks and the stack |
| Engine.FallTraceNext | src/game.c:557-561 | one more DOWN move of the falling block extends its run, and the notes of every move stay on the growing stack |
| Engine.FallRestNext | src/game.c:557-561 | one more turn of the inner loop keeps validity, the block count, the stack growth, the notes of the pending move and the potential bounds |
| Engine.SettleNext | src/game.c:553-562 | one turn of the outer loop keeps the loop state and lowers the potential or shortens the stack |
| Engine.DoneMoveOutcome | src/game.c:522-571 | whatever DoneMove relates to a state is valid, with no more blocks, and lower in potential by at least the number of DOWN moves |
| Engine.FallNext | src/game.c:557-561 | one turn of the inner loop: the move just made extends the fall and the next attempt is the new pending one |
| Engine.NotedJoin | src/game.c:553-562 | the notes of two joined gravity runs lie within any stack holding both runs' notes |
| Engine.PopWithin | src/game.c:554-555 | popping the top block and letting it fall loses no element of the stack: each is popped or still on the grown stack |
| Engine.ChainPrefix | src/game.c:338-361 | every block along a push chain is in the cascade of the chain's first block |
| Engine.ChainSuffix | src/game.c:338-361 | a cascade that reaches one block of a push chain reaches the chain's last block |
| Engine.CascadeNotFixed | src/game.c:300-301 | a move that can be made pushes no fixed block |
| Translator.ShiftedKeeps | src/game.c:381-399 | a cell that neither moves nor is empty keeps its content after the move |
| Engine.MovedKeeps | src/game.c:381-399 | a DOWN move leaves the content of every non-empty cell outside its cascade as it was |
| Engine.PushKept | src/game.c:381-399 | a push between two blocks outside the cascade of a DOWN move still holds after it |
| Engine.ChainOutside | src/game.c:338-361 | the push chain from a block down to one stopped by an obstacle lies entirely outside the cascade of any DOWN move that can be made |
| Engine.ChainKept | src/game.c:381-399 | such a chain is still a push chain after that move |
| Engine.ObstacleKept | src/game.c:268-281 | the obstacle below a cell outside that cascade (edge, wall, emerge cell or fixed block) is still there after the move |
| Engine.StuckStays | src/game.c:553-562 | a block that cannot move DOWN still cannot after any other DOWN move: gravity never frees a stuck block |
| Engine.StuckAfter | src/game.c:553-562 | a block stuck at some state of a gravity run is stuck at its end |
| Engine.SettledStable | src/game.c:546-562 | once the stack is empty, no popped block can move DOWN in the final state |
| Engine.DoneMoveSettled | src/game.c:546-562 | after game_do_move, the block on every cell the sideways move or a gravity move shifted, and the block resting on such a cell, can no longer move DOWN in the settled board |
| Reconciler.MinPos | src/game.c:440-445 | min_pos returns one of its arguments, the first in row-major order |
| Reconciler.Relabel | src/game.c:469 | relabelling gives a piece carrying the written label |
| Reconciler.PushesSound | src/game.c:471-488 | every pushed neighbour is unvisited and joins the flood (same block, or connectable) |
| Reconciler.PushesComplete | src/game.c:471-488 | every unvisited joining neighbour is pushed |
| Reconciler.PushNeighbours | src/game.c:471-488 | the direction loop pushes exactly the joining unvisited neighbours |
| Reconciler.FloodStep | src/game.c:454-489 | one pop-and-relabel step keeps the flood invariant |
| Reconciler.FloodPop | src/game.c:455-488 | one iteration of the flood loop keeps the invariant, touches only this block's entry, and marks one more cell |
| Reconciler.FloodDone | src/game.c:454-489 | when the stack empties, the start cell and the new anchor are flooded cells, and every joining neighbour of a flooded cell was flooded |
| Reconciler.ConnectAdjacentBlocks | src/game.c:447-490 | connect_adjacent_blocks floods the block and everything joined to it, relabels the flood, moves the anchor to its row-major minimum, and keeps the other entries and the fixed flag |
| Reconciler.ReconcileBlock | src/game.c:504-512 | one iteration of the table loop keeps the reconciler invariant and adds an entry exactly when the block was not yet visited |
| Reconciler.ReconEnd | src/game.c:500-516 | at the end of the table loop the outcome satisfies Reconciled |
| Reconciler.EndConnected | src/game.c:500-516 | at the end, the cells of each label are connected |
| Reconciler.EndMerged | src/game.c:500-516 | at the end, cells of one old block, and connectable neighbours, share a label |
| Reconciler.EndEntries | src/game.c:500-516 | at the end, each entry comes from the first old block of its group, with its anchor at the group's row-major minimum and its fixed flag |
| Reconciler.UpdateBlockConnectionsAsWritten | src/game.c:492-517 | the code as written: the outcome is Reconciled, with labels equal to the source indices of the surviving blocks |
| Reconciler.UpdateBlockConnections | src/game.c:492-517 | the corrected version: the outcome is Reconciled with labels equal to the new table indices, and it is a valid state |
| Reconciler.ReconciledValid | src/game.c:492-517 | an outcome whose labels are the new table indices is a valid state |
| Reconciler.MismatchInputValid | src/game.c:505-513 | the counterexample input (two touching blocks of one colour and a third one apart) is a valid state |
| Reconciler.MismatchOutcomeInvalid | src/game.c:505-513 | every as-written outcome on that input breaks ValidState |
| Session.CRem | src/web.c:119 | C's truncating % by MAX_UNDO: the result has the dividend's sign, is below 10 in magnitude, and is congruent to it |
| Session.AdvanceSlot | src/web.c:106-112 | the next slot is c + 1, or 0 after the last slot |
| Session.UndoSlot | src/web.c:119 | the corrected previous slot always lies in the ring |
| Session.UndoFromFirstSlot | src/web.c:119 | the code as written gives -1 from slot 0, outside the ring |
| Session.UndoAsWrittenAgrees | src/web.c:119 | the code as written stays in the ring iff the slot is not 0, and then agrees with the corrected one |
| Session.SlotsInverse | src/web.c:110-120 | going back one slot undoes going forward one slot, and vice versa |
| Session.AvailAfterMove | src/web.c:113 | undo_avail grows by one while below 10 and then stays at 10 |
| Session.Signed8 | src/web.c:179-186 | the int8_t reading of a byte is negative iff bit 7 is set, and it agrees with the byte modulo 256 |
| Session.GetColor | src/web.c:179-186 | GAME_get_color returns a piece's or emerge cell's colour as int8_t, and -1 for any other cell |
| Session.WhereMaskBits | src/web.c:188-193 | bit d of 0xf ^ no_connect is set iff the piece does not refuse direction d |
| Session.PieceWhereCanConnect | src/web.c:188-193 | GAME_piece_where_can_connect returns -1 for a non-piece, otherwise 0xf ^ no_connect as int8_t (between 0 and 15 for a mask within the low nibble) |
| Session.ShouldConnectSymmetric | src/web.c:235-255 | should_connect is symmetric |
| Session.ShouldConnectByKind | src/web.c:235-255 | two pieces connect iff they share a block; an empty cell connects only to empty cells; walls and emerge cells connect to walls and emerge cells |
| Session.ShouldConnectReflexive | src/web.c:242-255 | every cell connects to itself |
| Session.CoordsRoundTrip | src/web.c:216 | packing (x << 16) \| y of in-board coordinates gives a non-negative int32_t from which both coordinates are read back |
| Session.GetCellCoords | src/web.c:207-217 | a cell before the board gives -1; any other cell gives a non-negative int32_t |
| Session.CellCoordsDecode | src/web.c:207-217 | the packed coordinates of a board cell are its column and row |
| Session.GetCellInternal | src/web.c:148-153 | get_cell_internal returns a cell iff both coordinates are in range, and then the cell at (x, y) |
| Session.CellLookupRoundTrip | src/web.c:148-153 | looking up the coordinates reported for a cell gives that cell |
| Session.ConnectsSymmetric | src/web.c:257-270 | if a cell is connected to its neighbour in direction i, that neighbour is connected back in the opposite direction |
| Session.MaskUpToBits | src/web.c:257-270 | after the first n directions, bit k of the mask is set iff k < n and the neighbour at DIR_DELTAS[k] is in range and should_connect holds; the high nibble stays 0 |
| Session.NeighbourLookup | src/web.c:262-264 | the lookup with the unpacked coordinates plus the delta finds the neighbour iff it is in range, and then at the neighbour's index |
| Session.GatherBit | src/web.c:261-267 | one iteration of the mask loop adds direction i's bit |
| Session.WhereConnected | src/web.c:257-270 | the mask loop computes the mask of all four directions |
| Session.MoveInto | src/web.c:141 | the move into the next slot succeeds iff MoveOk; on failure the slot is unchanged; on success it is what `DoneMove` describes for the current state (game_do_move with the corrected reconciler, see Findings: every noted and every pushed block popped and unable to move DOWN at the end), a valid state of no higher potential |
| Session.Game.AdvanceState | src/web.c:110-114 | advance_state moves to the next slot, decrements move_count, grows undo_avail up to 10, and keeps the ring valid |
| Session.Game.Undo | src/web.c:116-126 | GAME_undo succeeds iff undo_avail > 0, and then steps back one slot by the corrected UndoSlot (slot 0 goes back to slot 9; see Findings) and decrements undo_avail; move_count decreases and action_count increases in every case |
| Session.Game.MoveSlot | src/web.c:137-141 | game_do_move from the current slot into the next one succeeds iff MoveOk; the ring stays valid; on failure the next slot is unchanged; on success it is what `DoneMove` describes for the current slot, with every noted and every pushed block popped and unable to move DOWN at the end |
| Session.Game.CommitMove | src/web.c:143-144 | advance_state followed by ++action_count: the next slot, one move less, undo_avail grown up to 10, one more action |
| Session.Game.MovePiece | src/web.c:128-146 | GAME_move_piece succeeds iff dir is LEFT or RIGHT, x < 14, y < 10 and the picked block can move; on failure no field and no slot changes; on success the new current slot is what `DoneMove` describes for the old current slot and the picked block (game_do_move with the corrected reconciler, see Findings; every noted and every pushed block popped and unable to move DOWN at the end), the ring advances and action_count increases |
| Session.Game.CellWhereConnected | src/web.c:257-270 | GAME_cell_where_connected sets bit i iff the neighbour at DIR_DELTAS[i] is in range and should_connect holds, and no bit above the fourth |

## Left out

- Engine.Settle: the order in which blocks are popped (last pushed first) is not part of its contract; `Settles` records the popped blocks and where each fall ended, not their order.
- The horizontal-move claim, that every block moved sideways was pushed as a gravity candidate, is stated per moved cell (`GravityNoted`) rather than per block.
- Finder.PreprocessAlloc: requires the initial block table to be empty (a freshly loaded state), as every caller passes. The table entries of the initial state that the source never writes are the parameter `stale`, because raw memory is not modelled.
- Finder.PreprocessAlloc: a failed `calloc` for a new destination is not modelled; the C code then writes through a null pointer.
- Allocation (malloc, calloc, realloc) is not modelled. Success or failure is a boolean parameter (`mallocOk`, `callocOk`, `reallocOk`).
- `free`, `game_free`, `GAME_new`, `GAME_free` and the `b64_buf` of `GAME_get_current_state_b64` are left out; they are allocation glue.
- Union aliasing is not modelled. Cells are a datatype, so reading `data.piece.block` of a non-piece cell in `move_block` and in `GAME_move_piece` has no counterpart. The anchor patch, which in C is a write with no effect on non-piece cells, applies only to pieces.
- Translator.WriteShifted and Translator.MoveBlock: the anchor contract AnchorAt says only that a moved anchor lies one step past a moved cell of its own block. It can drift along a run of the block's cells, so it is not claimed minimal; minimality is restored by the reconciler.
- The fixed stack capacities of 140 and the thread-local buffers are not modelled. The stacks are sequences and the scratch arrays are parameters, so the model does not claim the capacity is sufficient.
- `public_safe_globals` (debug poisoning of the scratch buffers) is left out; it has no effect on results.
- The scratch states `g_tmp_state1` and `g_tmp_state2` are parameters of `GameDoMove` and `Game.MovePiece`, not globals.
- The `dest == NULL` case is kept only as an early return: `MoveBlock` then writes nothing, and `GameDoMove` returns after the first move.
- The disabled two-pass branch of `move_block` is left out.
- Base64.Find: `strchr` is also defined on the NUL terminator and on characters outside the string. The model gives -1 for every non-alphabet character, including '='.
- Base64.Decode and Base64.DecodeAlloc: require the characters the decoder reads to be in the alphabet (`Readable`), with '=' only where a group ends the decoding. The C code subtracts the table address from the result of `strchr`, which is null for any other character, so the result is undefined behaviour. This includes the '=' of a padded group, whose value is then not used; the model admits those.
- Base64.DecodedSizeAsWritten: `SizeModulus` assumes a 64-bit `size_t`. Built for wasm32, the empty-string case wraps to 2^32 - 2 instead of 2^64 - 2.
- Base64.DecodeAlloc: the bytes past the decoded prefix, which `malloc` leaves uninitialised, are not specified. The model fills them with 0, and its contract states only the decoded prefix.
- Reconciler.UpdateBlockConnections: the side effect on `tmp_buf` (the back buffer's block table) is not modelled.
- Session.Game.MovePiece: requires `y * 14 + x` to be non-negative. The source does not reject negative coordinates, and then indexes the board out of range, which is undefined behaviour in C.
- Session.Game.MovePiece: requires the picked block to be below the block count. The source does not check it: for a non-piece cell the byte read can be any value, and for a fixed emerge cell it is 1. `game_do_move` then reads a table entry past the count, which the model does not have.
- Session.Game.MovePiece: the block byte read from a cell that is not a piece is a parameter (`stray`), because union aliasing is not modelled.
- Session.Game.MovePiece: "other slots unchanged" follows from its `modifies` clause, which names only the next slot, and is not a separate postcondition.
- Session.Game.CellWhereConnected: requires the cell to be on the current board. For a pointer before the board, `GAME_get_cell_coords` gives -1, the unpacked row is 65535, and every neighbour lookup fails, so the source returns 0; the model does not cover such pointers.
- Session.GetCellCoords: requires the cell not to lie past the board. The source accepts such a pointer and reports a row of 10 or more; the model covers pointers before the board (result -1) and board cells.
- Direction codes outside the enum (other values of `int8_t`) are not modelled. `Dir` has the five enum values only.
- Emerge cells are modelled only as stop cells and by their colour. Spawning is not part of the code that was modelled.
- The ring slots are a constant sequence of separate state objects rather than one byte array, and the other getters of `src/web.c` (move count, block count, cell type) are left out; they return fields directly.
- `printf` diagnostics are left out.

## Findings

| source | as written | input that shows it | evidently intended | confidence | as-written member | corrected member |
|---|---|---|---|---|---|---|
| src/game.c:505-513 | `connect_adjacent_blocks` relabels the flood with the source index `src_idx`, but the entry is stored at `dest_idx` | blocks 0 and 1 of one colour touching, and block 2 apart: block 2's cells keep label 2, but its entry moves to index 1 and the count becomes 2 | label each flood with the index its entry gets, so labels and table agree | not executed | Reconciler.UpdateBlockConnectionsAsWritten, Reconciler.MismatchOutcomeInvalid | Reconciler.UpdateBlockConnections, Reconciler.ReconciledValid |
| src/b64.c:43-48 | `b64_decoded_size` reads `str[len-1]` and `str[len-2]` even when the length is 0 | `""`: the two bytes before the string are read, and if they are "==" the size wraps to 2^64 - 2 | an empty input decodes to 0 bytes | not executed | Base64.DecodedSizeAsWritten, Base64.EmptyDecodedSizeAsWritten | Base64.DecodedSize, Base64.DecodedSizeAgrees |
| src/web.c:119 | `GAME_undo` computes `(current_state - 1) % MAX_UNDO` with C's truncating `%` | right after `GAME_new`: current_state 0, undo_avail 10; one undo sets current_state to -1 | wrap to slot 9 | not executed | Session.UndoSlotAsWritten, Session.UndoFromFirstSlot | Session.UndoSlot, Session.SlotsInverse |
