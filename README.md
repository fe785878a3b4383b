# Bitboard chess position store, in Dafny

This project models the position store of a small SDL chess program. It covers
three headers:

- `Board.hpp` keeps the position as a dictionary from piece kind to a 64-bit
  occupancy mask. Square `p` (0 = a1, 7 = h1, 63 = h8) belongs to a kind when
  bit `p` of that kind's mask is set. The header also sets up, reads, clears,
  captures and moves pieces.
- `BitOperations.hpp` finds the index of a mask's least significant set bit.
- `PieceType.hpp` names the thirteen piece kinds. The first letter of a name
  is the only notion of colour the program has.

The modules follow the headers:

- `PieceTypes` (`pieces.dfy`, pure) holds the enum, the name table and
  `PieceTypeToString`. An independent `ColourOf` states each kind's colour,
  and lemmas tie the table's initials to it and prove the names distinct.
- `BitOperations` (`bit_operations.dfy`) holds the masks (`bv64`), the squares
  (`bv8` values below 64) and `FindLSBIndex`. `FindLSBIndex` is the source's
  shifting loop, proved to return the least set bit, or -1 for 0. The module
  also proves the bit lemmas the board needs.
- `Chessboard` (`board.dfy`) holds `class Board`, whose field `currentBoard` is
  a `map<PieceType, bv64>` that the methods reassign. Pure functions
  (`AfterCapture`, `AfterMove`, `AfterExecute`, `StartLayout`) say what each
  operation does to such a map, and every method is proved against them. The
  invariant `ValidPosition` means no two kinds share a square and `EMPTY`
  holds nothing. It is established by the constructor and by `ClearBoard`,
  and it is kept by `ExecuteMove` whenever a real piece moves onto an empty or
  opponent-held square.

Two things follow the C++ closely:

- A read through `operator[]` of a kind the map lacks gives 0 (`MaskOf`).
- A write inserts the kind. So `movePiece(EMPTY, …)` really adds an `EMPTY`
  entry, and the model keeps that.

`getPieceAtPosition` walks the `unordered_map` in an unspecified order. The
model walks the remaining keys in a nondeterministically chosen order, so its
contract (`IsPieceAt`) admits every kind holding the square. `LookupUnique`
shows the answer is unique under the invariant.

## Model

| member | source | states |
|---|---|---|
| PieceTypes.PieceTypeToString | src/headers/PieceType.hpp:25-48 | every kind's name is non-empty and starts with its colour's letter ('W', 'B', or 'E' for `EMPTY`); the "Unknown PieceType" fallback is never returned |
| PieceTypes.TableTotal | src/headers/PieceType.hpp:42-47 | every kind is in the name table, so the lookup never falls through |
| PieceTypes.NameGivesColour | src/headers/PieceType.hpp:27-39 | a name starts with 'W' iff the kind is white, with 'B' iff black, with 'E' iff it is `EMPTY` |
| PieceTypes.EmptyName | src/headers/PieceType.hpp:39 | `EMPTY` is named "Empty", whose initial is neither side's |
| PieceTypes.NameRoundTrip | src/headers/PieceType.hpp:26-40 | reading the table backwards (`KindNamed`) recovers every kind from its name |
| PieceTypes.NamesInjective | src/headers/PieceType.hpp:26-40 | different kinds have different names |
| PieceTypes.InitialInjective | src/headers/PieceType.hpp:27-39 | the three colours have three distinct initials |
| BitOperations.FindLSBIndex | src/headers/BitOperations.hpp:9-21 | returns -1 exactly when the value is 0; otherwise an index in 0..63 whose bit is set and below which no bit is set |
| BitOperations.LowBitAfterShift | src/headers/BitOperations.hpp:15-17 | after shifting right `p` times, the low bit is bit `p` of the original value |
| BitOperations.NoSetBitIsZero | src/headers/BitOperations.hpp:12-18 | a value with none of its 64 bits set is 0, so the loop stops on every non-zero value before the index passes 63 |
| BitOperations.LeastSetBitUnique | src/headers/BitOperations.hpp:9-21 | a value has only one least set bit, so the result of `FindLSBIndex` is determined |
| BitOperations.SingleBitIndex | main.cpp:221-222 | on a mask with a single piece, the least set bit is that piece's square |
| BitOperations.DisjointMasks | src/headers/Board.hpp:54-66 | two disjoint masks never both hold a square |
| BitOperations.RelocateHoldsTarget | src/headers/Board.hpp:106-109 | clearing bit `a` and then setting bit `b` leaves bit `b` set |
| BitOperations.RelocateLeavesSource | src/headers/Board.hpp:106-109 | with `a != b`, the same update leaves bit `a` clear |
| BitOperations.RelocateKeepsApart | src/headers/Board.hpp:99-111 | relocating one of two disjoint masks onto a square the other lacks keeps them disjoint |
| BitOperations.ClearKeepsApart | src/headers/Board.hpp:87-97 | clearing a bit of either of two disjoint masks keeps them disjoint |
| BitOperations.RelocateUndo | src/headers/Board.hpp:99-111 | relocating from `a` to a free `b` and back restores the mask |
| BitOperations.RelocateInPlace | src/headers/Board.hpp:99-111 | relocating a set bit onto itself changes nothing |
| Chessboard.Board.constructor | src/headers/Board.hpp:37-39 | a new board holds exactly the starting position, which satisfies the invariant |
| Chessboard.Board.InitialiseBoard | src/headers/Board.hpp:126-151 | the twelve starting masks are written over whatever the map held; the rest of the map is unchanged |
| Chessboard.BlackShiftedUp | src/headers/Board.hpp:136-142 | the black masks, written as the white ones shifted up 5 or 7 ranks, equal the starting-layout constants |
| Chessboard.StartLayoutValid | src/headers/Board.hpp:129-142 | the starting masks pairwise share no square and `EMPTY` has none |
| Chessboard.StartLayoutReads | src/headers/Board.hpp:129-142 | the starting position holds every real kind and no `EMPTY` entry, each with its starting mask |
| Chessboard.StartSquares | src/headers/Board.hpp:129-142 | a starting mask holds exactly the squares the standard chess arrangement gives its kind |
| Chessboard.StartMatchesArrangement | src/headers/Board.hpp:129-142 | looking up any square of the starting position finds the piece of the standard arrangement (rooks a1/h1, queen d1, king e1, pawns on rank 2, black mirrored) |
| Chessboard.StartKingSquares | src/headers/Board.hpp:134-142 | the white king's mask has least set bit 4 (e1) and the black king's 60 (e8), as the king search in main.cpp reads them |
| Chessboard.Board.IsOpponentPiece | src/headers/Board.hpp:76-84 | two kinds are opponents exactly when their colours differ (so every real kind opposes `EMPTY`) |
| Chessboard.OpponentRelation | src/headers/Board.hpp:76-84 | being opponents is symmetric and irreflexive, white opposes black, and every real kind opposes `EMPTY` |
| Chessboard.Board.GetPieceAtPosition | src/headers/Board.hpp:54-66 | the answer is a kind whose mask holds the square, or `EMPTY` when no mask does; since an `EMPTY` entry can itself hold the square, `EMPTY` is not always a vacant square |
| Chessboard.EmptyAnswerMeansVacant | src/headers/Board.hpp:54-66 | while the `EMPTY` entry holds no square, the lookup may answer `EMPTY` exactly for a square no mask holds |
| Chessboard.LookupUnique | src/headers/Board.hpp:54-66 | under the no-overlap invariant the lookup has a single possible answer, whatever the iteration order |
| Chessboard.Board.ClearBoard | src/headers/Board.hpp:68-74 | keeps the same kinds, zeroes every mask, and leaves a valid board on which every square reads `EMPTY` |
| Chessboard.ClearedIsVacant | src/headers/Board.hpp:68-74 | on a board of zero masks, `EMPTY` is the one answer for any square |
| Chessboard.ClearedIsValid | src/headers/Board.hpp:68-74 | a board of zero masks satisfies the invariant |
| Chessboard.Board.CapturePiece | src/headers/Board.hpp:87-97 | the board becomes `AfterCapture`: a real kind loses the square, and `EMPTY` changes nothing |
| Chessboard.CaptureFrame | src/headers/Board.hpp:87-97 | a capture clears the square in the captured kind's mask (unless that kind is `EMPTY`) and leaves every other mask as it was |
| Chessboard.CaptureKeys | src/headers/Board.hpp:90 | a capture adds at most the captured kind's entry to the map |
| Chessboard.CapturePreservesValid | src/headers/Board.hpp:87-97 | a capture keeps the invariant |
| Chessboard.Board.MovePiece | src/headers/Board.hpp:99-111 | the board becomes `AfterMove`: the moved kind's mask loses the source square and gains the target |
| Chessboard.MoveFrame | src/headers/Board.hpp:99-111 | only the moved kind's mask changes, to the old mask with the source cleared and the target set |
| Chessboard.MoveKeys | src/headers/Board.hpp:101 | a move adds at most the moved kind's entry to the map |
| Chessboard.MoveInPlace | src/headers/Board.hpp:99-111 | moving a piece onto its own square leaves the position unchanged |
| Chessboard.MoveUndo | src/headers/Board.hpp:99-111 | moving a piece to a square its kind lacks and back restores the position |
| Chessboard.MoveVacates | src/headers/Board.hpp:99-111 | under the invariant, after a real move the source square is held by no kind |
| Chessboard.MovePreservesValid | src/headers/Board.hpp:99-111 | moving a real piece onto a square no other kind holds keeps the invariant |
| Chessboard.Board.ExecuteMove | src/headers/Board.hpp:41-52 | the board becomes `AfterExecute` for some answer the lookup of the target square may give; on a valid board, a real piece moving onto an empty or opponent-held square leaves a valid board |
| Chessboard.ExecutePreservesValid | src/headers/Board.hpp:41-52 | a real piece moving onto an empty or opponent-held square keeps the invariant |
| Chessboard.DestinationFreed | src/headers/Board.hpp:44-47 | after the capture step, no kind other than the mover holds the target square |
| Chessboard.ExecuteMoverEffect | src/headers/Board.hpp:41-52 | after the move, the mover holds the target square and, if it really moved, no longer holds the source |
| Chessboard.ExecuteCaptureEffect | src/headers/Board.hpp:44-47 | a captured opponent no longer holds the target square |
| Chessboard.ExecuteLeavesOthers | src/headers/Board.hpp:41-52 | every kind other than the mover and the captured kind keeps its mask |
| Chessboard.SameKindMerges | src/headers/Board.hpp:41-52 | moving a piece onto a square its own kind already holds captures nothing and merges the two pieces into one bit: the kind's mask just loses the source square |
| Chessboard.ExecuteRoundTrip | src/headers/Board.hpp:41-52 | on a valid board, moving a piece to an empty square and back restores the position; the target is vacant before the first move and the source is vacant before the second, so neither lookup can report a piece to capture |
| Chessboard.Board.GetCurrentBoard | src/headers/Board.hpp:153-155 | returns the board's current map of masks |

## Left out

- `printU64` (Board.hpp:114-124) is left out. It only writes a mask to standard output.
- The commented-out dump at the end of `initialiseBoard` is left out.
- The `BlackPiece` and `WhitePiece` enums (PieceType.hpp:13-23) are not modelled, because nothing uses them. `WhitePiece` lists `W` where `WB` is evidently meant.
- Positions are squares 0..63 throughout. In C++, `1ULL << position` with a position outside that range is undefined behaviour. main.cpp takes squares from mouse coordinates without checking them (main.cpp:121-123); the model assumes they are 0..63.
- Chessboard.Board.ExecuteMove: the invariant is promised only when a real piece moves onto an empty or opponent-held square. `executeMove` checks neither condition. main.cpp calls it only for a non-`EMPTY` piece (main.cpp:127) and a destination in the mask from `generatePieceValidMoves` (main.cpp:145, 193), which the repository's headers do not define; nothing in them guarantees that the destination is empty or opponent-held. A same-coloured occupant of another kind ends up sharing the square; one of the same kind merges with the mover (`SameKindMerges`).
- Chessboard.Board.GetPieceAtPosition: the dictionary's iteration order is not modelled. The contract admits every kind holding the square, so when the board has an overlap it does not say which one is returned.
- Chessboard.Board.ClearBoard: the order in which entries are zeroed is not modelled; the result does not depend on it.
- Chessboard.Board.GetCurrentBoard: the copy the source returns is a value (`map`) here, so aliasing does not arise.
- Move generation, attack sets and check detection are not part of this model. `src/headers/MoveGenerator.hpp` declares an empty class, and the functions main.cpp calls on it are not defined in the repository's headers.
- The turn toggle of `src/headers/Game.hpp` is not part of this model. It holds no logic over the board.
- The SDL wrappers (`TextureManager.hpp`, `AudioManager.hpp`, `UI.hpp`) and the event loop of `main.cpp` are not part of this model. They are I/O.
- `test.cpp` is not part of this model.
