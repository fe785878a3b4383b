/**
 * The bitboard position store of src/headers/Board.hpp.
 *
 * A position is one 64-bit occupancy mask per piece kind, kept in a
 * dictionary from kind to mask. Reading a kind the dictionary lacks gives 0
 * (as `operator[]` does), and writing it adds the entry. The pure functions
 * of this module say what each operation does to such a dictionary; the
 * class `Board` performs the operations in place and is proved against them.
 */
module Chessboard {
  import opened PieceTypes
  import opened BitOperations

  /** A value of the source's `currentBoard`. */
  type Position = map<PieceType, U64>

  /** `currentBoard[t]` as read through `operator[]`: 0 for a missing kind. */
  function MaskOf(m: Position, t: PieceType): U64
  {
    if t in m then m[t] else 0
  }

  /** Some kind's mask holds square `p`. */
  ghost predicate Occupied(m: Position, p: Square)
  {
    exists t :: t in m && HasBit(m[t], p)
  }

  /**
   * `c` is an answer `getPieceAtPosition(p)` may give on `m`: a kind whose mask
   * holds `p`, or `EMPTY` when none does. Which holder is found first depends
   * on the dictionary's iteration order, which the program leaves unspecified.
   */
  ghost predicate IsPieceAt(m: Position, p: Square, c: PieceType)
  {
    if Occupied(m, p) then c in m && HasBit(m[c], p) else c == EMPTY
  }

  /** No two kinds share a square. */
  ghost predicate NoOverlap(m: Position)
  {
    forall s, t :: s in m && t in m && s != t ==> m[s] & m[t] == 0
  }

  /**
   * The invariant the game relies on: squares are held by at most one kind,
   * and the `EMPTY` kind holds none.
   */
  ghost predicate ValidPosition(m: Position)
  {
    NoOverlap(m) && MaskOf(m, EMPTY) == 0
  }

  /** The starting mask of each kind, as `initialiseBoard` writes it. */
  function StartMask(t: PieceType): U64
  {
    match t
    case WP => 0x0000_0000_0000_FF00
    case WR => 0x0000_0000_0000_0081
    case WN => 0x0000_0000_0000_0042
    case WB => 0x0000_0000_0000_0024
    case WQ => 0x0000_0000_0000_0008
    case WK => 0x0000_0000_0000_0010
    case BP => 0x00FF_0000_0000_0000
    case BR => 0x8100_0000_0000_0000
    case BN => 0x4200_0000_0000_0000
    case BB => 0x2400_0000_0000_0000
    case BQ => 0x0800_0000_0000_0000
    case BK => 0x1000_0000_0000_0000
    case EMPTY => 0
  }

  /** The standard starting position, rank 1 being squares 0 to 7. */
  function StartLayout(): Position
  {
    map t | t != EMPTY :: StartMask(t)
  }

  /** `capturePiece(t, p)` on a dictionary: clear square `p` of `t`'s mask. */
  function AfterCapture(m: Position, t: PieceType, p: Square): Position
  {
    if t == EMPTY then m else m[t := MaskOf(m, t) & !Bit(p)]
  }

  /** `movePiece(t, a, b)` on a dictionary: clear square `a`, then set square `b`. */
  function AfterMove(m: Position, t: PieceType, a: Square, b: Square): Position
  {
    m[t := (MaskOf(m, t) & !Bit(a)) | Bit(b)]
  }

  /**
   * `executeMove(t, a, b)` on a dictionary, given the answer `c` the lookup
   * of square `b` gave.
   */
  function AfterExecute(m: Position, t: PieceType, a: Square, b: Square, c: PieceType): Position
  {
    AfterMove(CaptureStep(m, t, b, c), t, a, b)
  }

  /** The first half of `executeMove`: capture `c` on `b` if it is an opponent of `t`. */
  function CaptureStep(m: Position, t: PieceType, b: Square, c: PieceType): Position
  {
    if c != EMPTY && Board.IsOpponentPiece(t, c) then AfterCapture(m, c, b) else m
  }

  /** Writing a position over an empty dictionary gives that position. */
  lemma MergeIntoEmpty(m: Position)
    ensures map[] + m == m
  {
  }

  /** The black starting masks are the white ones moved up the board. */
  lemma BlackShiftedUp()
    ensures (0xFF00 as U64) << 8 * 5 == StartLayout()[BP]
    ensures (0x81 as U64) << 8 * 7 == StartLayout()[BR]
    ensures (0x42 as U64) << 8 * 7 == StartLayout()[BN]
    ensures (0x24 as U64) << 8 * 7 == StartLayout()[BB]
    ensures (0x08 as U64) << 8 * 7 == StartLayout()[BQ]
    ensures (0x10 as U64) << 8 * 7 == StartLayout()[BK]
  {
  }

  class Board {
    var currentBoard: Position

    /** The standard starting position, which satisfies the invariant. */
    constructor()
      ensures currentBoard == StartLayout()
      ensures ValidPosition(currentBoard)
    {
      currentBoard := map[];
      new;
      StartLayoutValid();
      MergeIntoEmpty(StartLayout());
      InitialiseBoard();
    }

    /**
     * Writes the twelve starting masks, the black ones being the white ones
     * shifted up five ranks (pawns) or seven ranks (pieces).
     */
    method InitialiseBoard()
      modifies this
      ensures currentBoard == old(currentBoard) + StartLayout()
    {
      BlackShiftedUp();
      currentBoard := currentBoard
        [WP := 0xFF00][WR := 0x81][WN := 0x42][WB := 0x24][WQ := 0x08][WK := 0x10]
        [BP := 0xFF00 << 8 * 5]
        [BR := 0x81 << 8 * 7][BN := 0x42 << 8 * 7][BB := 0x24 << 8 * 7]
        [BQ := 0x08 << 8 * 7][BK := 0x10 << 8 * 7];
    }

    /** Two kinds are opponents when their names start differently. */
    static function IsOpponentPiece(one: PieceType, two: PieceType): (r: bool)
      ensures r <==> ColourOf(one) != ColourOf(two)
    {
      InitialInjective(ColourOf(one), ColourOf(two));
      PieceTypeToString(one)[0] != PieceTypeToString(two)[0]
    }

    /**
     * The kind standing on `position`: the first mask met, in the dictionary's
     * (unspecified) order, that holds the square, or `EMPTY`.
     */
    method GetPieceAtPosition(position: Square) returns (r: PieceType)
      ensures IsPieceAt(currentBoard, position, r)
    {
      var unvisited := currentBoard.Keys;
      while unvisited != {}
        invariant unvisited <= currentBoard.Keys
        invariant forall t :: t in currentBoard && t !in unvisited ==> !HasBit(currentBoard[t], position)
        decreases unvisited
      {
        var t :| t in unvisited;
        if currentBoard[t] & Bit(position) != 0 {
          return t;
        }
        unvisited := unvisited - {t};
      }
      return EMPTY;
    }

    /**
     * Sets every mask the dictionary holds to 0, keeping the kinds; every
     * square then reads as empty.
     */
    method ClearBoard()
      modifies this
      ensures currentBoard.Keys == old(currentBoard).Keys
      ensures forall t :: t in currentBoard ==> currentBoard[t] == 0
      ensures ValidPosition(currentBoard)
      ensures forall p: Square :: IsPieceAt(currentBoard, p, EMPTY)
    {
      var unvisited := currentBoard.Keys;
      while unvisited != {}
        invariant unvisited <= currentBoard.Keys == old(currentBoard).Keys
        invariant forall t :: t in currentBoard && t !in unvisited ==> currentBoard[t] == 0
        decreases unvisited
      {
        var t :| t in unvisited;
        currentBoard := currentBoard[t := 0];
        unvisited := unvisited - {t};
      }
      ClearedIsValid(currentBoard);
      forall p: Square
        ensures IsPieceAt(currentBoard, p, EMPTY)
      {
        ClearedIsVacant(currentBoard, p, EMPTY);
      }
    }

    /** Removes kind `t` from `position`; `EMPTY` is left alone. */
    method CapturePiece(t: PieceType, position: Square)
      modifies this
      ensures currentBoard == AfterCapture(old(currentBoard), t, position)
    {
      if t != EMPTY {
        // bitboard &= ~(1 << position), on the entry `operator[]` yields
        currentBoard := currentBoard[t := MaskOf(currentBoard, t) & !Bit(position)];
      }
    }

    /** Moves kind `t` from `fromPos` to `toPos` in its own mask. */
    method MovePiece(t: PieceType, fromPos: Square, toPos: Square)
      modifies this
      ensures currentBoard == AfterMove(old(currentBoard), t, fromPos, toPos)
    {
      // bitboard &= ~fromMask, then bitboard |= toMask
      currentBoard := currentBoard[t := (MaskOf(currentBoard, t) & !Bit(fromPos)) | Bit(toPos)];
    }

    /**
     * Plays `selectedPiece` from `fromPos` to `toPos`, first removing an
     * opponent found on `toPos`. The invariant survives when a real piece
     * moves onto an empty or opponent-held square; nothing here checks that.
     */
    method ExecuteMove(selectedPiece: PieceType, fromPos: Square, toPos: Square)
      modifies this
      ensures exists c ::
                IsPieceAt(old(currentBoard), toPos, c) &&
                currentBoard == AfterExecute(old(currentBoard), selectedPiece, fromPos, toPos, c)
      ensures ValidPosition(old(currentBoard)) && selectedPiece != EMPTY &&
              (forall c :: IsPieceAt(old(currentBoard), toPos, c) ==> c == EMPTY || IsOpponentPiece(selectedPiece, c))
              ==> ValidPosition(currentBoard)
    {
      var capturedPiece := GetPieceAtPosition(toPos);
      ghost var before := currentBoard;
      if capturedPiece != EMPTY && IsOpponentPiece(selectedPiece, capturedPiece) {
        CapturePiece(capturedPiece, toPos);
      }
      assert currentBoard == CaptureStep(before, selectedPiece, toPos, capturedPiece);
      MovePiece(selectedPiece, fromPos, toPos);
      ExecuteKeepsValid(before, selectedPiece, fromPos, toPos, capturedPiece);
    }

    /** A copy of the dictionary of masks. */
    method GetCurrentBoard() returns (r: Position)
      ensures r == currentBoard
    {
      return currentBoard;
    }
  }

  // -----------------------------------------------------------------------
  // Colour

  /** Being opponents is symmetric, irreflexive, and `EMPTY` opposes every real kind. */
  lemma OpponentRelation(s: PieceType, t: PieceType)
    ensures Board.IsOpponentPiece(s, t) == Board.IsOpponentPiece(t, s)
    ensures !Board.IsOpponentPiece(t, t)
    ensures ColourOf(s) == White && ColourOf(t) == Black ==> Board.IsOpponentPiece(s, t)
    ensures s != EMPTY ==> Board.IsOpponentPiece(s, EMPTY)
  {
  }

  // -----------------------------------------------------------------------
  // Lookup

  /** With no overlap the lookup has one answer, whatever the iteration order. */
  lemma LookupUnique(m: Position, p: Square, c: PieceType, d: PieceType)
    requires NoOverlap(m) && IsPieceAt(m, p, c) && IsPieceAt(m, p, d)
    ensures c == d
  {
    if Occupied(m, p) {
      DisjointMasks(m[c], m[d], p);
    }
  }

  /** A board whose masks are all 0 holds nothing: every lookup answers `EMPTY`. */
  lemma ClearedIsVacant(m: Position, p: Square, c: PieceType)
    requires forall t :: t in m ==> m[t] == 0
    ensures IsPieceAt(m, p, c) <==> c == EMPTY
  {
  }

  /**
   * While `EMPTY` holds no square, the lookup answers `EMPTY` exactly for a
   * vacant square; once an `EMPTY` entry holds squares, it may answer `EMPTY`
   * for them too.
   */
  lemma EmptyAnswerMeansVacant(m: Position, p: Square)
    requires MaskOf(m, EMPTY) == 0
    ensures IsPieceAt(m, p, EMPTY) <==> !Occupied(m, p)
  {
  }

  /** Clearing keeps the invariant. */
  lemma ClearedIsValid(m: Position)
    requires forall t :: t in m ==> m[t] == 0
    ensures ValidPosition(m)
  {
  }

  // -----------------------------------------------------------------------
  // Capture and move, mask by mask

  /** Capturing clears square `p` of `t`'s mask (unless `t` is `EMPTY`); every other mask is unchanged. */
  lemma CaptureFrame(m: Position, t: PieceType, p: Square, s: PieceType)
    ensures MaskOf(AfterCapture(m, t, p), s) ==
            if s == t && t != EMPTY then MaskOf(m, t) & !Bit(p) else MaskOf(m, s)
  {
  }

  /** Capturing adds no kind except the one cleared. */
  lemma CaptureKeys(m: Position, t: PieceType, p: Square)
    ensures AfterCapture(m, t, p).Keys == if t == EMPTY then m.Keys else m.Keys + {t}
  {
  }

  /** Moving rewrites `t`'s mask to `(old & ~(1 << a)) | (1 << b)`; every other mask is unchanged. */
  lemma MoveFrame(m: Position, t: PieceType, a: Square, b: Square, s: PieceType)
    ensures MaskOf(AfterMove(m, t, a, b), s) ==
            if s == t then (MaskOf(m, t) & !Bit(a)) | Bit(b) else MaskOf(m, s)
  {
  }

  /** Moving adds no kind except the one moved. */
  lemma MoveKeys(m: Position, t: PieceType, a: Square, b: Square)
    ensures AfterMove(m, t, a, b).Keys == m.Keys + {t}
  {
  }

  /** A piece moved onto its own square leaves the board as it was. */
  lemma MoveInPlace(m: Position, t: PieceType, a: Square)
    requires t in m && HasBit(m[t], a)
    ensures AfterMove(m, t, a, a) == m
  {
    RelocateInPlace(m[t], a);
  }

  // -----------------------------------------------------------------------
  // executeMove

  /** Under the invariant two different kinds read as disjoint masks, present or not. */
  lemma DisjointReads(m: Position, s: PieceType, u: PieceType)
    requires NoOverlap(m) && s != u
    ensures MaskOf(m, s) & MaskOf(m, u) == 0
  {
    if s in m && u in m {
      assert m[s] & m[u] == 0;
    } else if s in m {
      ZeroMask(m[s]);
    } else {
      ZeroMask(MaskOf(m, u));
    }
  }

  /** Capturing keeps the invariant. */
  lemma CapturePreservesValid(m: Position, c: PieceType, p: Square)
    requires ValidPosition(m)
    ensures ValidPosition(AfterCapture(m, c, p))
  {
    var after := AfterCapture(m, c, p);
    forall s, u | s in after && u in after && s != u
      ensures after[s] & after[u] == 0
    {
      DisjointReads(m, s, u);
      CaptureKeepsApart(m, c, p, s, u);
    }
    CaptureFrame(m, c, p, EMPTY);
  }

  lemma CaptureKeepsApart(m: Position, c: PieceType, p: Square, s: PieceType, u: PieceType)
    requires s != u && MaskOf(m, s) & MaskOf(m, u) == 0
    ensures MaskOf(AfterCapture(m, c, p), s) & MaskOf(AfterCapture(m, c, p), u) == 0
  {
    ClearKeepsApart(MaskOf(m, s), MaskOf(m, u), p, s == c && c != EMPTY, u == c && c != EMPTY);
    CaptureFrame(m, c, p, s);
    CaptureFrame(m, c, p, u);
  }

  /**
   * After the capture step no kind but the mover holds the destination,
   * provided the destination is empty or holds an opponent.
   */
  lemma DestinationFreed(m: Position, t: PieceType, b: Square, c: PieceType, u: PieceType)
    requires ValidPosition(m) && IsPieceAt(m, b, c)
    requires c == EMPTY || Board.IsOpponentPiece(t, c)
    requires u != t
    ensures !HasBit(MaskOf(CaptureStep(m, t, b, c), u), b)
  {
    if Occupied(m, b) {
      if c == EMPTY {
        assert false;
      }
      CaptureFrame(m, c, b, u);
      if u == c {
        ClearedAway(MaskOf(m, c), b);
      } else {
        DisjointReads(m, c, u);
        DisjointMasks(MaskOf(m, c), MaskOf(m, u), b);
      }
    } else {
      assert !(u in m && HasBit(m[u], b));
      if c != EMPTY {
        assert false;
      }
    }
  }

  /**
   * `executeMove` keeps the invariant when a real piece moves onto an empty
   * square or onto an opponent; a same-coloured occupant would be left in place
   * and share the square.
   */
  lemma ExecutePreservesValid(m: Position, t: PieceType, a: Square, b: Square, c: PieceType)
    requires ValidPosition(m) && t != EMPTY && IsPieceAt(m, b, c)
    requires c == EMPTY || Board.IsOpponentPiece(t, c)
    ensures ValidPosition(AfterExecute(m, t, a, b, c))
  {
    var captured := CaptureStep(m, t, b, c);
    if c != EMPTY && Board.IsOpponentPiece(t, c) {
      CapturePreservesValid(m, c, b);
    }
    forall u | u != t
      ensures !HasBit(MaskOf(captured, u), b)
    {
      DestinationFreed(m, t, b, c, u);
    }
    MovePreservesValid(captured, t, a, b);
  }

  /** `ExecutePreservesValid` in the form `Board.ExecuteMove` promises it. */
  lemma ExecuteKeepsValid(m: Position, t: PieceType, a: Square, b: Square, c: PieceType)
    requires IsPieceAt(m, b, c)
    ensures ValidPosition(m) && t != EMPTY && (c == EMPTY || Board.IsOpponentPiece(t, c))
            ==> ValidPosition(AfterExecute(m, t, a, b, c))
  {
    if ValidPosition(m) && t != EMPTY && (c == EMPTY || Board.IsOpponentPiece(t, c)) {
      ExecutePreservesValid(m, t, a, b, c);
    }
  }

  /** Square `b` is held by no kind other than `t`. */
  ghost predicate OnlyHolder(m: Position, t: PieceType, b: Square)
  {
    forall u :: u != t ==> !HasBit(MaskOf(m, u), b)
  }

  /** Moving a real piece onto a square no other kind holds keeps the invariant. */
  lemma MovePreservesValid(m: Position, t: PieceType, a: Square, b: Square)
    requires ValidPosition(m) && t != EMPTY && OnlyHolder(m, t, b)
    ensures ValidPosition(AfterMove(m, t, a, b))
  {
    var after := AfterMove(m, t, a, b);
    forall s, u | s in after && u in after && s != u
      ensures after[s] & after[u] == 0
    {
      DisjointReads(m, s, u);
      MoveKeepsApart(m, t, a, b, s, u);
    }
    MoveFrame(m, t, a, b, EMPTY);
  }

  lemma MoveKeepsApart(m: Position, t: PieceType, a: Square, b: Square, s: PieceType, u: PieceType)
    requires s != u && MaskOf(m, s) & MaskOf(m, u) == 0
    requires s == t ==> !HasBit(MaskOf(m, u), b)
    requires u == t ==> !HasBit(MaskOf(m, s), b)
    ensures MaskOf(AfterMove(m, t, a, b), s) & MaskOf(AfterMove(m, t, a, b), u) == 0
  {
    MoveFrame(m, t, a, b, s);
    MoveFrame(m, t, a, b, u);
    RelocateKeepsApart(MaskOf(m, s), MaskOf(m, u), a, b, s == t, u == t,
                       MaskOf(AfterMove(m, t, a, b), s), MaskOf(AfterMove(m, t, a, b), u));
  }

  /** After `executeMove(t, a, b)`, `t` holds `b` and, for a real move, no longer holds `a`. */
  lemma ExecuteMoverEffect(m: Position, t: PieceType, a: Square, b: Square, c: PieceType)
    ensures HasBit(MaskOf(AfterExecute(m, t, a, b, c), t), b)
    ensures a != b ==> !HasBit(MaskOf(AfterExecute(m, t, a, b, c), t), a)
  {
    var captured := CaptureStep(m, t, b, c);
    RelocateHoldsTarget(MaskOf(captured, t), a, b);
    if a != b {
      RelocateLeavesSource(MaskOf(captured, t), a, b);
    }
    MoveFrame(captured, t, a, b, t);
  }

  /** A captured opponent no longer holds the destination. */
  lemma ExecuteCaptureEffect(m: Position, t: PieceType, a: Square, b: Square, c: PieceType)
    requires c != EMPTY && Board.IsOpponentPiece(t, c)
    ensures !HasBit(MaskOf(AfterExecute(m, t, a, b, c), c), b)
  {
    ClearedAway(MaskOf(m, c), b);
    CaptureFrame(m, c, b, c);
    MoveFrame(CaptureStep(m, t, b, c), t, a, b, c);
  }

  /** Every kind other than the mover and the captured one keeps its mask. */
  lemma ExecuteLeavesOthers(m: Position, t: PieceType, a: Square, b: Square, c: PieceType, s: PieceType)
    requires s != t && s != c
    ensures MaskOf(AfterExecute(m, t, a, b, c), s) == MaskOf(m, s)
  {
    CaptureFrame(m, c, b, s);
    MoveFrame(CaptureStep(m, t, b, c), t, a, b, s);
  }

  /**
   * Moving a piece onto a square its own kind already holds: it is not an
   * opponent, so nothing is captured, and the two pieces merge into one bit.
   * The kind keeps its squares except the source, and so loses a piece.
   */
  lemma SameKindMerges(m: Position, t: PieceType, a: Square, b: Square)
    requires t in m && HasBit(m[t], a) && HasBit(m[t], b) && a != b
    ensures AfterExecute(m, t, a, b, t) == m[t := m[t] & !Bit(a)]
  {
    OpponentRelation(t, t);
    RelocateOntoHeld(m[t], a, b);
  }

  /** Moving a piece off `a` leaves `a` empty, since under the invariant no one else holds it. */
  lemma MoveVacates(m: Position, t: PieceType, a: Square, b: Square)
    requires ValidPosition(m) && t in m && HasBit(m[t], a) && a != b
    ensures !Occupied(AfterMove(m, t, a, b), a)
  {
    forall u | u in AfterMove(m, t, a, b)
      ensures !HasBit(MaskOf(AfterMove(m, t, a, b), u), a)
    {
      if u == t {
        MoverLeaves(m, t, a, b);
      } else {
        DisjointReads(m, t, u);
        OthersLackSource(m, t, a, b, u);
      }
    }
  }

  lemma MoverLeaves(m: Position, t: PieceType, a: Square, b: Square)
    requires a != b
    ensures !HasBit(MaskOf(AfterMove(m, t, a, b), t), a)
  {
    RelocateLeavesSource(MaskOf(m, t), a, b);
    MoveFrame(m, t, a, b, t);
  }

  lemma OthersLackSource(m: Position, t: PieceType, a: Square, b: Square, u: PieceType)
    requires u != t && HasBit(MaskOf(m, t), a) && MaskOf(m, t) & MaskOf(m, u) == 0
    ensures !HasBit(MaskOf(AfterMove(m, t, a, b), u), a)
  {
    DisjointMasks(MaskOf(m, t), MaskOf(m, u), a);
    MoveFrame(m, t, a, b, u);
  }

  /** Moving from `a` to a square `b` the piece lacks, then back, restores the position. */
  lemma MoveUndo(m: Position, t: PieceType, a: Square, b: Square)
    requires t in m && HasBit(m[t], a) && !HasBit(m[t], b)
    ensures AfterMove(AfterMove(m, t, a, b), t, b, a) == m
  {
    RelocateUndo(m[t], a, b);
    MoveFrame(m, t, a, b, t);
  }

  /**
   * Moving a piece to an empty square and back restores the position; on the
   * way back the vacated square is found empty, so nothing is captured.
   */
  lemma ExecuteRoundTrip(m: Position, t: PieceType, a: Square, b: Square)
    requires ValidPosition(m) && t in m && HasBit(m[t], a) && !Occupied(m, b)
    ensures IsPieceAt(m, b, EMPTY)
    ensures !Occupied(AfterExecute(m, t, a, b, EMPTY), a)
    ensures AfterExecute(AfterExecute(m, t, a, b, EMPTY), t, b, a, EMPTY) == m
  {
    assert CaptureStep(m, t, b, EMPTY) == m;
    assert a != b;
    MoveVacates(m, t, a, b);
    MoveUndo(m, t, a, b);
    assert CaptureStep(AfterMove(m, t, a, b), t, a, EMPTY) == AfterMove(m, t, a, b);
  }

  // -----------------------------------------------------------------------
  // The starting position

  /** The starting position holds every real kind, with its starting mask. */
  lemma StartLayoutReads(t: PieceType)
    ensures t in StartLayout() <==> t != EMPTY
    ensures MaskOf(StartLayout(), t) == StartMask(t)
  {
  }

  lemma StartMasksApart(s: PieceType, t: PieceType)
    requires s != t
    ensures StartMask(s) & StartMask(t) == 0
  {
  }

  /** No two starting masks meet, and `EMPTY` has no mask. */
  lemma StartLayoutValid()
    ensures ValidPosition(StartLayout())
  {
    forall s, t | s in StartLayout() && t in StartLayout() && s != t
      ensures StartLayout()[s] & StartLayout()[t] == 0
    {
      StartLayoutReads(s);
      StartLayoutReads(t);
      StartMasksApart(s, t);
    }
    StartLayoutReads(EMPTY);
  }

  /** The kinds on the back rank, files a to h. */
  function BackRank(file: bv8, white: bool): PieceType
    requires file < 8
  {
    if file == 0 || file == 7 then (if white then WR else BR)
    else if file == 1 || file == 6 then (if white then WN else BN)
    else if file == 2 || file == 5 then (if white then WB else BB)
    else if file == 3 then (if white then WQ else BQ)
    else (if white then WK else BK)
  }

  /**
   * The standard arrangement of the pieces, rank by rank: white pieces and
   * pawns on the first two ranks, queen on d1 and king on e1, black ones
   * mirrored on ranks eight and seven, nothing in between.
   */
  function StandardArrangement(p: Square): PieceType
  {
    var rank, file := p / 8, p % 8;
    if rank == 0 then BackRank(file, true)
    else if rank == 1 then WP
    else if rank == 6 then BP
    else if rank == 7 then BackRank(file, false)
    else EMPTY
  }

  /** A starting mask holds exactly the squares the standard arrangement gives its kind. */
  lemma StartSquares(t: PieceType, p: Square)
    ensures HasBit(StartMask(t), p) <==> t == StandardArrangement(p) && t != EMPTY
  {
  }

  /** Looking up any square of the starting position finds the standard arrangement. */
  lemma StartMatchesArrangement(p: Square)
    ensures IsPieceAt(StartLayout(), p, StandardArrangement(p))
  {
    var expected := StandardArrangement(p);
    StartLayoutReads(expected);
    StartSquares(expected, p);
    forall t | t in StartLayout()
      ensures HasBit(StartLayout()[t], p) <==> t == expected
    {
      StartLayoutReads(t);
      StartSquares(t, p);
    }
  }

  /** The kings start on e1 (square 4) and e8 (square 60). */
  lemma StartKingSquares()
    ensures IsLeastSetBit(MaskOf(StartLayout(), WK), 4)
    ensures IsLeastSetBit(MaskOf(StartLayout(), BK), 60)
  {
  }
}
