# simple_rust_chess_engine — a verified model of the move engine

This project models the move engine of a small chess program. The engine has:

- a flat board of signed piece codes (kind × side, with a version telling apart the pieces of one kind and side);
- the arithmetic of sides and squares;
- a move history that keeps every piece's trail of destinations;
- a bounded ray walk that decides which squares a move reaches;
- per-kind rule tables that combine unconditional moves with conditional ones (pawn double step, diagonal capture, en passant, castling).

The repository holds two generations of the same design, and both are modelled.

- **Newer tree (`src/chess/...`).**
  - The board packs each square's (code, version) into a 64-bit word and keeps a list of squares per code (`ChessBoard`).
  - The walk consults a capture interpreter, either "mobility" or "presence" (`ChessMovement`).
  - The rule tables are a fixed piece set (`StandardPieceSet`), and the game ties board and history together (`ChessGame`).
- **Older tree.**
  - The board keeps plain codes and a `repeats` index only for codes that occur more than once, falling back to a scan (`LegacyBoard`).
  - The walk uses a boolean capture check (`LegacyMovement`).
  - The piece set is a map of rule lists that callers extend (`DynamicPieceSets`), and there is a game over this board (`LegacyGame`).
- **Shared by both trees.**
  - Sides (`Signs`), piece kinds (`Pieces`), identities (`PieceIds`) and square arithmetic (`Positions`).
  - The move history and the square-list type with its rendering onto a board (`History`, one module for the two identical copies).
  - The newer tree's `chess::piece` module is not part of this model. The older `src/piece/*` files stand in for it.

Form of the model:

- Pure code (signs, identities, squares, packing, rule closures) becomes datatypes, functions and lemmas.
- Code that updates state in place becomes classes:
  - the two boards (an `array` of squares plus a `map`);
  - the history and the square list;
  - the dynamic piece set;
  - the two games.
- Each method is specified by a pure function of the old state. Loops (board construction, the walks, `valid_moves`, the old `get_id` and `get_pos` searches, `col`, `visualize`) carry invariants tying them to those functions.
- Rust's `as usize` on a possibly negative offset is modelled as reduction modulo 2^64 (`Positions.AsUsize`). A square off the low edge therefore becomes a huge index that every board reports as absent.
- Rust panics become preconditions:
  - map and vector indexing;
  - `StandardPiece::from` on a code outside −6..6;
  - `get_pos` on a version the board does not list.
- The closure type of the conditional rules becomes a datatype of the standard rules (`StandardPieceSet.Rule`) in the newer piece set. The older piece set keeps real function values.
- `valid_moves` of the newer piece set takes the capture interpreter as an explicit parameter, and `Mobility` gives the legal moves. The calls in `src/chess/standard/piece.rs:287,289` pass no interpreter although `Move::calculate` requires one (`src/chess/movement.rs:96-103`). The interpreter is threaded from one walk to the next.
- Where this README's findings show the code to be wrong, the rest of the model uses the corrected definition. Each finding is listed with its as-written counterpart.

## Model

| member | source | states |
|---|---|---|
| Signs.Value | src/piece/sign.rs:2-6 | a side's discriminant is -1, 0 or 1, and 0 exactly for no side |
| Signs.FromInt | src/piece/sign.rs:8-16 | the side of an integer is positive iff it is > 0, negative iff < 0, none iff 0 |
| Signs.Neg | src/piece/sign.rs:18-28 | negation negates the discriminant |
| Signs.MulInt | src/piece/sign.rs:30-40 | side × n is zero exactly when there is no side or n is 0 |
| Signs.IntMul | src/piece/sign.rs:66-76 | n × side is zero exactly when there is no side or n is 0 |
| Signs.AddInt | src/piece/sign.rs:42-52 | side + n moves n one unit in the side's direction |
| Signs.IntAdd | src/piece/sign.rs:78-88 | n + side moves n one unit in the side's direction |
| Signs.SubInt | src/piece/sign.rs:54-64 | side − n is n minus the discriminant (the side is subtracted from n, not n from the side) |
| Signs.IntSub | src/piece/sign.rs:90-100 | n − side is n minus the discriminant |
| Signs.ScalingIsProduct | src/piece/sign.rs:30-40 | scaling by a side is multiplication by its discriminant in both operand orders; signum(n) × n ≥ 0 |
| Signs.NegInvolutive | src/piece/sign.rs:18-28 | negating twice gives the side back, and only no side is its own negation |
| Signs.OperandOrderIrrelevant | src/piece/sign.rs:30-100 | `*`, `+` and `-` give the same result in both operand orders |
| Signs.NoSignNeutral | src/piece/sign.rs:42-64 | no side is neutral for `+` and `-` and absorbing for `*` |
| Signs.FromValue | src/piece/sign.rs:8-40 | the side of a side's discriminant (or of side × 1) is that side |
| Signs.MulNeg | src/piece/sign.rs:18-40 | scaling by the opposite side negates the product |
| Pieces.ToInt | src/implementations/piece/standard_piece.rs:14-26 | kinds map into 0..6, with 0 exactly for the empty kind |
| Pieces.FromInt | src/implementations/piece/standard_piece.rs:28-41 | a code decodes exactly when \|i\| ≤ 6, to the kind whose code is \|i\| (otherwise the panic) |
| Pieces.KindOf | src/implementations/piece/standard_piece.rs:28-41 | the kind of an in-range code has code \|i\| |
| Pieces.NoneKind | src/implementations/piece/standard_piece.rs:43-47 | `none()` is the kind with code 0 |
| Pieces.ToIntInjective | src/implementations/piece/standard_piece.rs:14-26 | distinct kinds have distinct codes |
| Pieces.FromToInt | src/implementations/piece/standard_piece.rs:14-41 | decoding a kind's code gives the kind back |
| Pieces.FromIntIgnoresSign | src/implementations/piece/standard_piece.rs:28-41 | i and −i decode alike |
| PieceIds.PieceId.I | src/piece/piece_id.rs:43-45 | the signed code is kind code × side, 0 exactly for the empty kind or no side, within ±6 |
| PieceIds.FromPair | src/piece/piece_id.rs:5-9 | the identity from (i, v) has signed code i, version v, kind \|i\| and side signum(i) |
| PieceIds.ToPair | src/piece/piece_id.rs:11-21 | the pair of an identity is (signed code, version) |
| PieceIds.Default | src/piece/piece_id.rs:56-60 | the default identity is empty, sideless, code 0, version 0 |
| PieceIds.PieceId.IsNone | src/piece/piece_id.rs:27-29 | the kind is the empty kind; `SidelessMatchAndOppose` and `Default`'s contract use it |
| PieceIds.PieceId.Matches | src/piece/piece_id.rs:47-49 | the sides are equal; `MatchesEquivalence` states it is an equivalence |
| PieceIds.PieceId.Opposes | src/piece/piece_id.rs:51-53 | the side equals the other's negation; `OpposesSymmetric` and `OpposesIffNotMatches` state its relation to `Matches` |
| PieceIds.PairRoundTrip | src/piece/piece_id.rs:5-21 | identity → pair → identity is the identity for canonical identities |
| PieceIds.CodeRoundTrip | src/piece/piece_id.rs:5-21 | pair → identity → pair is the identity for standard codes, and the identity is canonical |
| PieceIds.CodeInjective | src/piece/piece_id.rs:43-45 | two identities with one non-zero signed code have the same kind and side |
| PieceIds.MatchesEquivalence | src/piece/piece_id.rs:47-49 | `matches` is reflexive, symmetric and transitive |
| PieceIds.OpposesSymmetric | src/piece/piece_id.rs:51-53 | `opposes` is symmetric |
| PieceIds.OpposesIffNotMatches | src/piece/piece_id.rs:47-53 | between identities with a side, opposing is exactly not matching |
| PieceIds.SidelessMatchAndOppose | src/piece/piece_id.rs:47-53 | two sideless identities both match and oppose |
| Positions.AsUsize | src/piece/piece_pos.rs:39-91 | the usize cast lies below 2^64, fixes indices and maps −k to 2^64 − k |
| Positions.ToXY | src/piece/piece_pos.rs:12-25 | the column of an index is within the row and its row is non-negative |
| Positions.FromXY | src/piece/piece_pos.rs:6-10 | `from((x, y))`: `x as usize + y as usize * row`; `XYRoundTrip` and `SquareRoundTrip` state that it inverts `ToXY` |
| Positions.IsInbounds | src/piece/piece_pos.rs:32-37 | `0 <= x < row` and `0 <= y < col`; `InboundsBelowArea` states that such a square indexes below row × col |
| Positions.Top | src/piece/piece_pos.rs:39-44 | one row ahead for the side, through the usize wrap; `TopBottomInverse` states that `Bottom` undoes it |
| Positions.Bottom | src/piece/piece_pos.rs:46-51 | one row behind for the side; `TopBottomInverse` states that `Top` undoes it |
| Positions.Left | src/piece/piece_pos.rs:53-55 | one index back for the side; `LeftRightInverse` states that `Right` undoes it |
| Positions.Right | src/piece/piece_pos.rs:57-59 | one index on for the side; `LeftRightInverse` states that `Left` undoes it |
| Positions.TopLeft | src/piece/piece_pos.rs:61-66 | `top` then one index down whatever the side; `DiagonalsIgnoreSide` states it |
| Positions.TopRight | src/piece/piece_pos.rs:68-73 | `top` then one index up whatever the side; `DiagonalsIgnoreSide` states it |
| Positions.BottomLeft | src/piece/piece_pos.rs:75-80 | `bottom` then one index down whatever the side; `DiagonalsIgnoreSide` states it |
| Positions.BottomRight | src/piece/piece_pos.rs:82-87 | `bottom` then one index up whatever the side; `DiagonalsIgnoreSide` states it |
| Positions.Offset | src/piece/piece_pos.rs:89-91 | `u + sign · n` through the usize wrap; `OffsetFacts` states that no side stays put and a whole row is `top` |
| Positions.XYRoundTrip | src/piece/piece_pos.rs:6-25 | (x, y) → index → (x, y) is the identity for 0 ≤ x < row size, y ≥ 0 |
| Positions.SquareRoundTrip | src/piece/piece_pos.rs:6-25 | index → (x, y) → index is the identity |
| Positions.InboundsBelowArea | src/piece/piece_pos.rs:32-37 | an in-bounds (x, y) has an index below row size × column size |
| Positions.TopBottomInverse | src/piece/piece_pos.rs:39-51 | `top` and `bottom` undo each other for every side, even across the 2^64 wrap |
| Positions.LeftRightInverse | src/piece/piece_pos.rs:53-59 | `left` and `right` undo each other |
| Positions.DiagonalsIgnoreSide | src/piece/piece_pos.rs:61-87 | each diagonal is `top`/`bottom` for the side followed by a unit step that ignores the side |
| Positions.UnitStepAfterCast | src/piece/piece_pos.rs:53-59 | a unit step after the cast lands where the unit step before it does |
| Positions.OffsetFacts | src/piece/piece_pos.rs:89-91 | `offset` by no side stays put, and `offset` by a whole row is `top` |
| Layout.FirstIndex | src/implementations/board/standard_board.rs:132-139 | the first index holding x, none exactly when x does not occur |
| ChessBoard.Pack | src/chess/standard/board.rs:71-74 | the packed word is below 2^64 with the code (mod 2^32) high and the version (mod 2^32) low |
| ChessBoard.UnpackI | src/chess/standard/board.rs:76-78 | the high half reads as a signed 32-bit value |
| ChessBoard.UnpackVersion | src/chess/standard/board.rs:80-82 | the low half is below 2^32 |
| ChessBoard.PackRoundTrip | src/chess/standard/board.rs:71-86 | unpacking a packed identity gives its code and its version mod 2^32 |
| ChessBoard.UnpackRoundTrip | src/chess/standard/board.rs:71-82 | every 64-bit word is the packing of its own halves |
| ChessBoard.PackZero | src/chess/standard/board.rs:71-74 | the empty word is exactly code 0 at a version that is 0 mod 2^32 |
| ChessBoard.BoardState.GetId | src/chess/standard/board.rs:172-179 | `get_id` is none exactly beyond the board, else the canonical identity unpacked from the square |
| ChessBoard.BoardState.GetIdNotNone | src/implementations/board/standard_board.rs:113-123 | none exactly beyond the board or on an empty code, else what `get_id` reports |
| ChessBoard.BoardState.GetPos | src/chess/standard/board.rs:181-187 | `get_pos` is none exactly for the empty piece, else the square listed for the version |
| ChessBoard.BoardState.Slice | src/chess/standard/board.rs:189-195 | `get_slice` is exactly the squares whose packed word is non-zero, in increasing order |
| ChessBoard.BoardState.SetSquare | src/chess/standard/board.rs:96-107 | the square gets the packed identity, the version's slot gets the square if the code is listed, nothing else changes |
| ChessBoard.BoardState.Cleared | src/chess/standard/board.rs:109-112 | every square empty and no version lists, sizes kept |
| ChessBoard.BoardState.Row | src/chess/standard/board.rs:42-55 | `row(r)[k]` is the code on square r × row size + k |
| ChessBoard.BoardState.AllPieces | src/chess/standard/board.rs:160-166 | the kinds are exactly those of the listed codes |
| ChessBoard.BoardState.AllVersions | src/chess/standard/board.rs:168-170 | the versions of a code are 0 … n − 1 for a list of n squares |
| ChessBoard.Initial | src/chess/standard/board.rs:19-40 | `new` with versions numbered from 0; `InitialDecodes` and `InitialGetPosOfGetId` state what it holds |
| ChessBoard.InitialAsWritten | src/chess/standard/board.rs:19-40 | `new` as written, numbering versions from 1; `AsWrittenGetPosMisses` states that `get_pos(get_id(u))` then misses u |
| ChessBoard.InitialPositionsKeys | src/chess/standard/board.rs:19-40 | after `new`, a code has a list exactly when it is non-zero and occurs |
| ChessBoard.InitialIdDecodes | src/chess/standard/board.rs:19-40 | a fresh square decodes to its layout code and its rank among that code's squares |
| ChessBoard.InitialDecodes | src/chess/standard/board.rs:19-40 | a layout of standard codes builds a valid board whose squares read back the layout |
| ChessBoard.InitialGetPosOfGetId | src/chess/standard/board.rs:19-40 | on a fresh board, `get_pos(get_id(u)) == u` for every occupied square |
| ChessBoard.AsWrittenDecodes | src/chess/standard/board.rs:19-40 | the board built as written is valid |
| ChessBoard.AsWrittenGetId | src/chess/standard/board.rs:31-33 | as written, square u carries version 1 + its rank |
| ChessBoard.AsWrittenGetPosMisses | src/chess/standard/board.rs:31-33 | as written, the identity on u locates a later square, or panics |
| ChessBoard.AsWrittenLoneKing | src/chess/standard/board.rs:31-33 | as written, a lone king's `get_pos` panics |
| ChessBoard.SetSquareThenGetId | src/chess/standard/board.rs:197-202 | after `set_square` the board stays valid, the square reads the identity, other squares are unchanged |
| ChessBoard.SetSquareThenGetPos | src/chess/standard/board.rs:96-107 | after `set_square` of a listed identity, `get_pos` finds it on its new square |
| ChessBoard.ClearedIsEmpty | src/chess/standard/board.rs:204-206 | after `clear` every square reads empty and `get_slice` is empty |
| ChessBoard.StandardBoard.constructor | src/chess/standard/board.rs:128-133 | `new` builds the version lists in one pass (versions numbered from 0); every code lies within ±6, since `StandardPiece::from` panics on any other |
| ChessBoard.StandardBoard.GetId | src/chess/standard/board.rs:172-179 | the method returns `BoardState.GetId` of the current board |
| ChessBoard.StandardBoard.GetPos | src/chess/standard/board.rs:181-187 | the method returns `BoardState.GetPos` of the current board |
| ChessBoard.StandardBoard.SetSquare | src/chess/standard/board.rs:197-202 | the new board is `SetSquare` of the old |
| ChessBoard.StandardBoard.Clear | src/chess/standard/board.rs:204-206 | the new board is `Cleared` of the old |
| ChessBoard.StandardBoard.Col | src/chess/standard/board.rs:57-69 | `col(c)[u]` is the code on square c + u × row size |
| LegacyBoard.Snapshot.VersionAt | src/implementations/board/standard_board.rs:99-110 | a square's version is its index in its code's `repeats` list, or 0 when not listed |
| LegacyBoard.Snapshot.IdAt | src/implementations/board/standard_board.rs:94-111 | `get_id` is none exactly beyond the board, else the canonical identity of code and version |
| LegacyBoard.Snapshot.IdNotNoneAt | src/implementations/board/standard_board.rs:113-123 | none exactly when `get_id` is none or empty, else what `get_id` reports |
| LegacyBoard.Snapshot.PosOf | src/implementations/board/standard_board.rs:125-141 | the listed square of a repeated version, else the lowest square with the code, none when neither exists |
| LegacyBoard.Snapshot.SetSquare | src/implementations/board/standard_board.rs:143-148 | the square gets the code, a repeated code's version slot gets the square, nothing else changes |
| LegacyBoard.Snapshot.Cleared | src/implementations/board/standard_board.rs:150-153 | every square 0 and no repeats |
| LegacyBoard.Snapshot.Row | src/implementations/board/standard_board.rs:47-52 | `row(r)[k]` is the code on square r × row size + k |
| LegacyBoard.Snapshot.SquaresHolding | src/implementations/board/standard_board.rs:84-92 | exactly the squares whose code is one of the given identities' codes, increasing |
| LegacyBoard.Snapshot.PieceSliceAsWritten | src/implementations/board/standard_board.rs:84-92 | `piece_slice` as written, over `0..size - 1`; `PieceSliceMissesLastSquare` states that it never lists the last square |
| LegacyBoard.Snapshot.PieceSlice | src/implementations/board/standard_board.rs:84-92 | `piece_slice` over every square: by `SquaresHolding`, exactly the squares holding one of the codes, in increasing order |
| LegacyBoard.Snapshot.GuardAsWritten | src/implementations/board/standard_board.rs:94-98 | the guard `!(u > size)` as written; `GuardLetsSizeThrough` states that it admits u = size |
| LegacyBoard.Initial | src/implementations/board/standard_board.rs:21-45 | `new`: the layout and its `repeats`; `InitialRepeatsExact` and `InitialPosOfIdAt` state what it holds |
| LegacyBoard.InitialRepeatsExact | src/implementations/board/standard_board.rs:21-45 | after `new`, exactly the codes occurring twice or more have an entry, listing their squares in order |
| LegacyBoard.InitialPosOfIdAt | src/implementations/board/standard_board.rs:94-141 | on a fresh board, `get_pos(get_id(u)) == u` for every occupied square |
| LegacyBoard.InitialVersionIsRank | src/implementations/board/standard_board.rs:99-110 | on a fresh board a repeated code's version is the square's rank, otherwise 0 |
| LegacyBoard.IdNotNoneOnEmpty | src/implementations/board/standard_board.rs:113-123 | `get_id_not_none` is none exactly beyond the board or on code 0 |
| LegacyBoard.PieceSliceMissesLastSquare | src/implementations/board/standard_board.rs:84-92 | the as-written slice misses a piece on the last square, the corrected one lists it |
| LegacyBoard.GuardLetsSizeThrough | src/implementations/board/standard_board.rs:94-98 | the as-written guard lets index = board size through, where the corrected `get_id` answers none; it is the only such out-of-range index |
| LegacyBoard.ScanRepeats | src/implementations/board/standard_board.rs:21-45 | the `new` scan with `last_seen_pos` builds exactly the initial `repeats` |
| LegacyBoard.StandardBoard.constructor | src/implementations/board/standard_board.rs:21-45 | `new` keeps the layout and builds its `repeats` |
| LegacyBoard.StandardBoard.GetId | src/implementations/board/standard_board.rs:94-111 | the version search returns `IdAt` |
| LegacyBoard.StandardBoard.GetIdNotNone | src/implementations/board/standard_board.rs:113-123 | the method returns `IdNotNoneAt` |
| LegacyBoard.StandardBoard.GetPos | src/implementations/board/standard_board.rs:125-141 | the lookup with its fallback scan returns `PosOf` |
| LegacyBoard.StandardBoard.SetSquare | src/implementations/board/standard_board.rs:143-148 | the new board is `SetSquare` of the old (the vacated square is left alone) |
| LegacyBoard.StandardBoard.Clear | src/implementations/board/standard_board.rs:150-153 | the new board is `Cleared` of the old |
| LegacyBoard.StandardBoard.Col | src/implementations/board/standard_board.rs:54-65 | `col(c)[u]` is the code on square c + u × row size |
| History.Trail | src/chess/board.rs:34-36 | `get_slice` is the trail under (signed code, version), none exactly when absent |
| History.Key | src/chess/board.rs:34-39 | the pair `(i(), version())` a trail is stored under; `SharedTrailIffSameKey` and `KeySeparatesSides` state which identities share a trail |
| History.Pushed | src/chess/board.rs:38-51 | `push` appends to the key's trail (creating `[u]`), other keys keep theirs |
| History.PushedTrail | src/board/board_history.rs:23-36 | seen through `get_slice`, the pushed identity's trail is the old one (or none) plus u, and others are unchanged |
| History.SharedTrailIffSameKey | src/chess/board.rs:34-51 | a push under one key never touches a different key |
| History.KeySeparatesSides | src/chess/board.rs:34-39 | opposite sides of one kind never share a trail, sideless identities of one version do |
| History.BoardHistory.constructor | src/chess/board.rs:24-32 | `new` holds the given trails or none |
| History.BoardHistory.GetSlice | src/chess/board.rs:34-36 | the trail under the identity's key, none exactly when absent |
| History.BoardHistory.Push | src/chess/board.rs:38-51 | the new trails are `Pushed` of the old |
| History.BoardHistory.Clear | src/chess/board.rs:53-55 | no trails remain, and `get_slice` is none for every identity |
| History.BoardSlice.constructor | src/chess/board.rs:61-66 | `new` holds the given squares or none |
| History.BoardSlice.Push | src/chess/board.rs:72-74 | exactly one square is appended |
| History.BoardSlice.Inner | src/chess/board.rs:68-70 | `inner`: the squares held, which the constructor sets and `Push` extends by one |
| History.BoardSlice.Visualize | src/chess/board.rs:76-90 | the rendered newer board holds `fill` on listed squares and nothing elsewhere |
| History.BoardSlice.VisualizeLegacy | src/board/board_slice.rs:26-40 | the rendered older board holds `fill` on listed squares, 0 elsewhere, no repeats |
| History.PaintedReadsBack | src/chess/board.rs:76-90 | the rendered newer board is valid and reads `fill` on listed squares and empty elsewhere |
| History.PaintedLegacyReadsBack | src/board/board_slice.rs:26-40 | the rendered older board decodes, has no repeats and reads `fill` on listed squares |
| ChessMovement.NewPresence | src/chess/movement.rs:40-44 | a new presence interpreter holds `Free(1)` |
| ChessMovement.ClearInternalStates | src/chess/movement.rs:47-49 | reset leaves mobility alone and returns presence to `Free(1)` |
| ChessMovement.Interpret | src/chess/movement.rs:26-72 | mobility: break before exactly on `Blocked`; presence: continue on `Free(>0)`/`Captured`, break after on `Blocked(>0)` unless a capture is stored, only `Captured` stored |
| ChessMovement.CanCapture.Calculate | src/chess/movement.rs:144-190 | an empty square is always `Free`; an occupant is `Captured` exactly when the rule counts captures, the counter is below max and (under `Opposing`/`Matching`) the occupant is on the other/same side, else `Blocked`; the counter rises by one exactly on a capture, so one starting ≤ max stays ≤ max; `Specific` is its closure |
| ChessMovement.Move.Calculate | src/chess/movement.rs:96-133 | the loop returns the side-scaled walk (`WalkSigned`) and the interpreter's final state |
| ChessMovement.WalkExamines | src/chess/movement.rs:114-130 | at an examined square, continue takes it and goes on, break after takes it and stops, break before stops without it |
| ChessMovement.WalkIsRayPrefix | src/chess/movement.rs:104-133 | a walk returns at most the remaining steps, the first squares of its ray in order, all in bounds |
| ChessMovement.MobilityWalkStaysMobility | src/chess/movement.rs:26-36 | the mobility interpreter is stateless along a walk |
| ChessMovement.MobilityCapturesWithinBudget | src/chess/movement.rs:144-190 | under mobility, occupied squares collected ≤ remaining captures, and under `Opposing` each opposes the mover |
| ChessMovement.MobilityNoCaptureOnlyEmpty | src/chess/movement.rs:152-157 | under mobility a non-capturing move collects empty squares only |
| ChessMovement.PresenceNoCaptureIsEmpty | src/chess/movement.rs:51-72 | under presence a non-capturing move collects nothing |
| ChessMovement.WalkAsWritten | src/chess/movement.rs:96-133 | the walk as written, the first step scaled by the side and later ones bare; `AsWrittenRevisitsOrigin` states that a negative-side mover's second square is its own |
| ChessMovement.AsWrittenRevisitsOrigin | src/chess/movement.rs:108-120 | as written, the second square a negative-side walk examines is the mover's own |
| ChessMovement.AsWrittenNegativeSliderStops | src/chess/movement.rs:96-133 | as written, a negative-side slider capturing opponents reaches at most one square |
| ChessMovement.SignedWalkLeavesOrigin | src/chess/movement.rs:96-133 | with side-scaled steps every collected square is the next point of the mover's ray, never its own square |
| LegacyMovement.CanCapture.Check | src/movement/can_capture.rs:11-25 | an empty square is always accepted, `All` accepts everything, `None` only empty squares; under a counted rule an occupant is accepted exactly when the counter is below max and it matches (opposes) the mover; the counter rises by one for every occupant examined below max, so an accepted occupant is counted and a counter starting ≤ max stays ≤ max |
| LegacyMovement.Move.Calculate | src/movement.rs:27-59 | the loop returns `WalkFrom`, the walk from (px + x, py + y) advancing by (x, y) |
| LegacyMovement.WalkFrom | src/movement.rs:27-59 | the walk from (px + x, py + y) advancing by (x, y); `WalkIsRayPrefix` and `WalkStopsOnlyAtRejection` state its shape |
| LegacyMovement.WalkStep | src/movement.rs:42-57 | an admitted square (or one beyond the board's list) is taken and the walk goes on, a rejected one ends it |
| LegacyMovement.WalkIsRayPrefix | src/movement.rs:42-57 | the walk is at most the remaining steps, the first squares of the ray in order, in bounds |
| LegacyMovement.WalkStopsOnlyAtRejection | src/movement.rs:42-57 | without a foreign check the walk stops only at the step limit, the edge or an occupant |
| LegacyMovement.AllRunsToEdge | src/movement.rs:42-57 | under `All` the walk runs to the step limit or the edge |
| LegacyMovement.CountedWalkWithinBudget | src/movement.rs:70-84 | a counted walk collects at most max − captured occupants, each matching (opposing) the mover |
| LegacyMovement.NoCaptureOnlyEmpty | src/movement/can_capture.rs:11-25 | under `None` the walk passes empty squares only |
| StandardPieceSet.Moveset | src/chess/standard/piece.rs:302-313 | `moveset` is always some, and empty exactly for the empty kind |
| StandardPieceSet.DoubleStepRule | src/chess/standard/piece.rs:58-63 | the double step `Move(0, 1, 2)` is offered exactly while the pawn has no trail |
| StandardPieceSet.DiagonalAsWritten | src/chess/standard/piece.rs:64-85 | as written, the diagonal capture offers `Move(∓1, 1, 1)` taking one opponent |
| StandardPieceSet.DiagonalRule | src/chess/standard/piece.rs:64-85 | the corrected diagonal capture offers `Move(∓1, 1, 1)` taking one opponent |
| StandardPieceSet.EnPassantRule | src/chess/standard/piece.rs:86-123 | en passant offers `Move(∓1, 1, 1)` without capture, only for a placed piece |
| StandardPieceSet.EnPassantIntended | src/chess/standard/piece.rs:86-123 | the intended en passant offers the same move without capture, only for a placed piece |
| StandardPieceSet.EnPassantIntendedExactly | src/chess/standard/piece.rs:86-123 | the intended en passant fires exactly when an opposing pawn stands beside the mover and its trail is that one square |
| StandardPieceSet.CastleRule | src/chess/standard/piece.rs:146-273 | castling offers a one-step sideways non-capturing move only to an unmoved mover with two empty squares, then an unmoved partner at the third (near) or fourth (far) square |
| StandardPieceSet.CastleOffered | src/chess/standard/piece.rs:222-273 | with two empty squares, castling is near if the third square holds an unmoved partner, else far if the fourth does, else none |
| StandardPieceSet.ResolveRule | src/chess/standard/piece.rs:276-296 | calling a conditional entry's closure; `StandardCapturesOnly` and `MovedPieceLosesFirstMoveRules` state what it offers |
| StandardPieceSet.MovesOf | src/chess/standard/piece.rs:276-296 | `valid_moves` is none exactly for the empty piece |
| StandardPieceSet.ValidMoves | src/chess/standard/piece.rs:276-296 | the loop returns every table entry's walk concatenated in table order (`MovesOf`) |
| StandardPieceSet.ValidSlice | src/chess/standard/piece.rs:315-322 | `valid_slice` holds the valid moves, or nothing when there are none |
| StandardPieceSet.MovedPieceLosesFirstMoveRules | src/chess/standard/piece.rs:56-274 | once a piece has a trail, its double step and castling are never offered |
| StandardPieceSet.DiagonalRuleTakesTarget | src/chess/standard/piece.rs:64-85 | the corrected capture is offered iff an opponent is on the first square of its move, and then collects exactly that square |
| StandardPieceSet.AsWrittenDiagonalMirrored | src/chess/standard/piece.rs:64-74 | as written, a negative-side pawn is offered a diagonal move onto an empty square that the corrected rule declines |
| StandardPieceSet.DiagonalsAgreeForPositiveSide | src/chess/standard/piece.rs:64-85 | for the positive side away from the edges, the as-written and corrected diagonal rules agree |
| StandardPieceSet.EnPassantNeedsStaleTrail | src/chess/standard/piece.rs:86-123 | en passant needs an opposing pawn beside whose trail ends two of its rows behind, never on its own square |
| StandardPieceSet.EnPassantOffered | src/chess/standard/piece.rs:86-123 | conversely, such a pawn beside the mover always opens en passant |
| StandardPieceSet.StandardCapturesOnly | src/chess/standard/piece.rs:56-274 | every table entry takes nothing or one opponent |
| StandardPieceSet.WalkLawful | src/chess/movement.rs:96-190 | under mobility, a move taking nothing or one opponent collects empty or opposing squares only |
| StandardPieceSet.GatheredLawful | src/chess/standard/piece.rs:276-296 | such tables gather empty or opposing squares only, and mobility stays mobility |
| StandardPieceSet.MobilityNeverLandsOnOwnPiece | src/chess/standard/piece.rs:276-296 | no legal move of a standard piece lands on a piece of its own side |
| StandardPieceSet.GatheredWithinBudget | src/chess/standard/piece.rs:276-296 | a table gathers at most its summed step limits |
| StandardPieceSet.StepperBounds | src/chess/standard/piece.rs:56-274 | a knight gets at most 8 squares, a king at most 10, a pawn at most 7 |
| StandardPieceSet.StepperBudgets | src/chess/standard/piece.rs:56-274 | the knight, king and pawn tables' step limits sum to 8, 10 and 7 |
| StandardPieceSet.PresenceWalkStaysPresence | src/chess/movement.rs:46-72 | the presence interpreter stays a presence interpreter along a walk |
| StandardPieceSet.GatheredForgetsPresence | src/chess/standard/piece.rs:276-296 | the stored presence state never changes the squares gathered |
| StandardPieceSet.PresenceStateIrrelevant | src/chess/standard/piece.rs:276-296 | `valid_moves` under presence does not depend on the interpreter's prior state |
| DynamicPieceSets.MovesOf | src/implementations/piece/dynamic_piece_set.rs:24-44 | `valid_moves` is none exactly when the piece has no position or its kind no list |
| DynamicPieceSets.Inserted | src/implementations/piece/dynamic_piece_set.rs:16-22 | `insert(k, r)` appends r to k's list (or makes `[r]`), other kinds unchanged |
| DynamicPieceSets.DynamicPieceSet.constructor | src/implementations/piece/dynamic_piece_set.rs:8-10 | the set holds the given lists |
| DynamicPieceSets.DynamicPieceSet.Insert | src/implementations/piece/dynamic_piece_set.rs:16-22 | the new lists are `Inserted` of the old |
| DynamicPieceSets.DynamicPieceSet.Moveset | src/implementations/piece/dynamic_piece_set.rs:53-58 | `moveset(k)` is k's list, none exactly when k was never inserted |
| DynamicPieceSets.DynamicPieceSet.ValidMoves | src/implementations/piece/dynamic_piece_set.rs:24-44 | the loop returns `MovesOf`: every entry's walk in list order, nothing for a declining closure |
| DynamicPieceSets.DynamicPieceSet.ValidSlice | src/implementations/piece/dynamic_piece_set.rs:60-67 | a none result becomes an empty slice |
| DynamicPieceSets.GatheredPrefixStable | src/implementations/piece/dynamic_piece_set.rs:33-43 | appending entries does not change what the earlier ones gather |
| DynamicPieceSets.InsertAppendsRule | src/implementations/piece/dynamic_piece_set.rs:16-44 | after `insert(k, r)`, a placed k-piece's moves are the old ones followed by r's walk, other kinds unchanged |
| DynamicPieceSets.DecliningRuleAddsNothing | src/implementations/piece/dynamic_piece_set.rs:24-44 | inserting a closure that always declines changes no piece's moves |
| DynamicPieceSets.GatheredWithinSteps | src/implementations/piece/dynamic_piece_set.rs:24-44 | a list gathers at most the summed step limits of the moves it offers |
| ChessGame.Game.constructor | src/chess/game.rs:25-31 | the game holds the built board and no trails |
| ChessGame.Game.MovePiece | src/chess/game.rs:33-43 | the new state is `Moved`: unchanged for an unplaced piece, else the destination pushed to its trail, old square emptied, destination written |
| ChessGame.Game.MovePieceRelative | src/chess/game.rs:45-56 | the new state is a move to `offset(sign, distance)` of the old square |
| ChessGame.Game.Clear | src/chess/game.rs:58-61 | board cleared and all trails forgotten together |
| ChessGame.MovePieceBoard | src/chess/game.rs:33-43 | after a move the board is valid, the destination holds the piece (even onto its own square), the vacated square is empty, others unchanged, and `get_pos` finds the destination |
| ChessGame.RelativeRowIsTop | src/chess/game.rs:45-56 | a relative move by one row is a move to `top` of the old square |
| ChessGame.TrailAtOwnSquareBlocksEnPassant | src/chess/standard/piece.rs:86-123 | en passant declines against a pawn whose trail ends where it stands |
| ChessGame.MoveRecordsDestination | src/chess/game.rs:33-43 | after a move of a placed piece, `get_pos` finds it on `square` and its trail ends with `square`; trails under other keys are unchanged |
| ChessGame.MoveRelativeRecordsDestination | src/chess/game.rs:45-56 | after a relative move, `get_pos` finds the piece on `offset(sign, distance)` of its old square and its trail ends with that square |
| ChessGame.JustMovedPawnEscapesEnPassant | src/chess/standard/piece.rs:91-93 | the en passant test as written never fires against a pawn the game has just moved, whose trail ends where it stands |
| ChessGame.FirstMoveOpensEnPassant | src/chess/standard/piece.rs:86-123 | with the intended test, a pawn's first move (its double step among them) opens en passant for an opposing piece beside its new square, on that flank |
| ChessGame.MovedPawnOnSquare | src/chess/standard/piece.rs:86-123 | the identity read back for a sided pawn is a pawn of that side under the same history key |
| LegacyGame.Game.constructor | src/game.rs:25-31 | the game holds the built board and no trails |
| LegacyGame.Game.MovePiece | src/game.rs:33-43 | the new state is `Moved`: unchanged for an absent piece, else trail pushed, old square 0, destination written |
| LegacyGame.Game.MovePieceRelative | src/game.rs:45-56 | the new state is a move to `offset(sign, distance)` of the old square |
| LegacyGame.Game.Clear | src/game.rs:58-61 | board cleared and all trails forgotten together |
| LegacyGame.MovePieceBoard | src/game.rs:33-43 | after a move the destination holds the code, a vacated square 0, others unchanged, and `get_pos` finds the destination for a listed version or a unique code |

## Left out

- Console rendering is not modelled because it is output only. This covers `format_row`, `print_board`, `visualize_board` and `visualize_moves` (src/chess/game.rs:63-107), and `print` and `visualize_moves` (src/game.rs:63-86). The games' piece-set field is used only there and is not modelled either.
- src/main.rs is a demo driver and is not part of this model. The presence-map calls it makes are defined in none of the files modelled, and not in src/chess/game.rs where `Game` is defined.
- `CanCapture::Specific` and the closures of the older piece set are taken as arbitrary function values, with no properties assumed.
- In the newer piece set the closure type is replaced by the five standard rules. Tables other than the standard six are not modelled.
- `get_all_pieces` returns a set, so hash-set iteration order is not modelled.
- Panics become preconditions:
  - out-of-range indexing;
  - `StandardPiece::from` on a code outside −6..6;
  - `get_pos` of a version the board does not list;
  - `set_square` on a missing square or slot.
- Counter overflow is not modelled. `iters` and `captured` are unbounded naturals, so the wrap at 2^64 of a `usize::MAX` slider never occurs. The version's truncation to 32 bits in the packed word is modelled.
- The trails of the history are stored as values in a map. The separate heap object `BoardSlice` per trail is not modelled.
- The newer `StandardBoard` has no `get_id_not_none`. The older tree's definition is used.
- The getters `get_row_size`, `get_col_size`, `get_board_size`, `inner`, `piece`, `sign`, `version` and `u` are plain fields.
- ChessMovement.Move.Calculate: follows the corrected walk of the findings (every step scaled by the side). The walk as written is `ChessMovement.WalkAsWritten`.
- ChessBoard.StandardBoard.constructor: numbers versions from 0, the corrected numbering of the findings. The numbering as written is `ChessBoard.InitialAsWritten`.
- LegacyBoard.StandardBoard.GetId: guards with `u >= size`, the corrected guard of the findings. The guard as written is `LegacyBoard.Snapshot.GuardAsWritten`.
- StandardPieceSet.ValidMoves: tests the corrected diagonal square (`DiagonalRule`) and the corrected en passant (`EnPassantIntended`). The tests as written are `StandardPieceSet.DiagonalAsWritten` and `StandardPieceSet.EnPassantRule`.
- StandardPieceSet.EnPassantIntended: takes a one-entry trail ending beside the mover as the double step. A trail of destinations does not tell a first double step from a first single step, and whether that move was the opponent's last one is not recorded at all.
- LegacyGame.MovePieceBoard: states `get_pos` of the destination only for a listed version or a code held by no other square. With a duplicate unlisted code, the scan finds the lowest square.
- StandardPieceSet.EnPassantOffered: assumes the trail's last square is a usize index below 2^64.

## Findings

| source | as written | input that shows it | evidently intended | confidence | as-written member | corrected member |
|---|---|---|---|---|---|---|
| src/implementations/board/standard_board.rs:96 | `get_id` returns none only when `u > T_BOARD_SIZE` | `u == T_BOARD_SIZE` passes the guard and indexes `state[u]`, which panics | none for `u >= T_BOARD_SIZE` | high, not executed | LegacyBoard.GuardLetsSizeThrough | LegacyBoard.Snapshot.IdAt |
| src/implementations/board/standard_board.rs:86 | `piece_slice` ranges over `0..T_BOARD_SIZE - 1` | a piece on the last square, index size − 1, is never listed | every square, `0..T_BOARD_SIZE` | high, not executed | LegacyBoard.PieceSliceMissesLastSquare | LegacyBoard.Snapshot.SquaresHolding |
| src/chess/standard/board.rs:31-33 | `new` gives each square the version "length of its code's list after the push", counting from 1, while `get_pos` indexes the list from 0 | the layout `[6]` on a 1×1 board: `get_id(0)` is (6, 1), and `get_pos` of it indexes slot 1 of a one-entry list and panics | versions counted from 0, so that `get_pos(get_id(u)) == u` | high, not executed | ChessBoard.AsWrittenLoneKing | ChessBoard.InitialGetPosOfGetId |
| src/chess/movement.rs:108-120 | the first square is offset by step × side, later steps add the bare step | a negative-side rook at (px, py) with step (1, 0) examines (px − 1, py), then its own square (px, py), which blocks it | every step scaled by the side | high, not executed | ChessMovement.AsWrittenRevisitsOrigin | ChessMovement.SignedWalkLeavesOrigin |
| src/chess/standard/piece.rs:64-85 | the pawn capture tests `topleft`/`topright`, which shift one index down or up whatever the side, but offers `Move(∓1, 1, 1)`, whose walk scales the column by the side | a negative-side pawn at (px, py) with an opponent at (px − 1, py − 1) and (px + 1, py − 1) empty is offered the empty square (px + 1, py − 1) as a capture | test the square the offered move walks to | high, not executed | StandardPieceSet.AsWrittenDiagonalMirrored | StandardPieceSet.DiagonalRuleTakesTarget |
| src/chess/standard/piece.rs:91-112 | en passant compares the last entry of the neighbour's trail with the square two of its rows behind, but the game pushes destinations (src/chess/game.rs:39), so that entry is the square the pawn stands on | a pawn double-stepped by `move_piece` beside an opposing pawn: its trail ends on its own square, so the opponent is never offered en passant | fire when the neighbour's trail is the one square it stands on, the mark of a pawn that has just made its first move | medium, not executed | ChessGame.JustMovedPawnEscapesEnPassant | ChessGame.FirstMoveOpensEnPassant |
