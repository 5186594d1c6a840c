/**
 * The tile-index lookups of the play screen: which tile of the tile set
 * shows a given block of a given tetromino.
 *
 * The tile set holds, from tile 24 on, one group of twelve tiles per piece
 * type, in the order S, Z, I, T, O, L, J. The first tile of a group is the
 * plain piece colour; tiles 1..11 of the group are the block shapes CENTRE,
 * NS, EW, SE, SW, NE, NW, E, S, N, W.
 */
module Tiles {
  import opened Wrappers

  /** A Java `char`: one UTF-16 code unit. */
  type Char16 = c: int | 0 <= c < 0x1_0000

  /** The piece letters in tile-set order. */
  const PieceLetters: seq<Char16> := ['S' as int, 'Z' as int, 'I' as int, 'T' as int, 'O' as int, 'L' as int, 'J' as int]

  /** First tile of the first piece group. */
  const FirstPieceTile: int := 24
  /** Number of tiles per piece group. */
  const GroupSize: int := 12

  /**
   * `Character.toUpperCase` as far as the piece lookup can observe it. The
   * only code units whose upper case is an ASCII letter are the ASCII letters
   * themselves, U+0131 (dotless i, upper case 'I') and U+017F (long s, upper
   * case 'S'); every other code unit is returned unchanged here, which the
   * lookup cannot tell apart from its real upper case because neither is one
   * of the piece letters.
   */
  function ToUpper(c: Char16): (r: Char16)
    ensures 'a' as int <= c <= 'z' as int ==> r == c - 32
    ensures 'A' as int <= c <= 'Z' as int ==> r == c
    ensures c == 0x131 ==> r == 'I' as int
    ensures c == 0x17F ==> r == 'S' as int
    ensures 'A' as int <= r <= 'Z' as int ==>
              r == c || r == c - 32 || (c == 0x131 && r == 'I' as int) || (c == 0x17F && r == 'S' as int)
  {
    if 'a' as int <= c <= 'z' as int then c - 32
    else if c == 0x131 then 'I' as int
    else if c == 0x17F then 'S' as int
    else c
  }

  /** Position of the piece letter `c` (either case) in S, Z, I, T, O, L, J;
      -1 for every other character. */
  function PieceTypeIndex(c: Char16): (r: int)
    ensures -1 <= r < |PieceLetters|
    ensures r == -1 <==> ToUpper(c) !in PieceLetters
    ensures r >= 0 ==> PieceLetters[r] == ToUpper(c)
  {
    var u := ToUpper(c);
    if u == 'S' as int then 0
    else if u == 'Z' as int then 1
    else if u == 'I' as int then 2
    else if u == 'T' as int then 3
    else if u == 'O' as int then 4
    else if u == 'L' as int then 5
    else if u == 'J' as int then 6
    else -1
  }

  /** Each piece letter, in upper or lower case, finds its own position in
      S, Z, I, T, O, L, J. */
  lemma PieceLetterIndex(i: int)
    requires 0 <= i < |PieceLetters|
    ensures PieceTypeIndex(PieceLetters[i]) == i
    ensures PieceLetters[i] + 32 < 0x1_0000 && PieceTypeIndex(PieceLetters[i] + 32) == i
  {
  }

  predicate IsPieceChar(c: Char16) {
    PieceTypeIndex(c) >= 0
  }

  /** First tile of the group of piece `c`; 12 for a character that is not a piece. */
  function PieceTypeOffset(c: Char16): (r: int)
    ensures IsPieceChar(c) ==> FirstPieceTile <= r < FirstPieceTile + GroupSize * |PieceLetters|
    ensures IsPieceChar(c) ==> PieceLetters[(r - FirstPieceTile) / GroupSize] == ToUpper(c)
    ensures r % GroupSize == 0
    ensures !IsPieceChar(c) <==> r == GroupSize
  {
    FirstPieceTile + GroupSize * PieceTypeIndex(c)
  }

  /** The block shapes named by the play screen. `Other` stands for any
      further constant of the block-type enumeration, which the lookup sends
      to its default branch. */
  datatype BlockType =
    | Empty | Centre | NS | EW | SE | SW | NE | NW | E | S | N | W
    | Other(name: string)

  /** The twelve block types the lookup names explicitly. */
  predicate Listed(b: BlockType) {
    !b.Other?
  }

  /** Index of a block shape within a piece group: -1 for EMPTY, 1..11 for
      CENTRE..W, 0 for anything else. */
  function BlockTypeOffset(b: BlockType): (r: int)
    ensures b == Empty <==> r == -1
    ensures b.Other? <==> r == 0
    ensures Listed(b) && b != Empty ==> 1 <= r < GroupSize
  {
    match b
    case Empty => -1
    case Centre => 1
    case NS => 2
    case EW => 3
    case SE => 4
    case SW => 5
    case NE => 6
    case NW => 7
    case E => 8
    case S => 9
    case N => 10
    case W => 11
    case Other(_) => 0
  }

  /** The inverse of `BlockTypeOffset` on the listed block types. */
  function BlockTypeOfOffset(k: int): (r: Option<BlockType>)
    ensures r.Some? <==> -1 <= k < GroupSize && k != 0
  {
    if k == -1 then Some(Empty)
    else if k == 1 then Some(Centre)
    else if k == 2 then Some(NS)
    else if k == 3 then Some(EW)
    else if k == 4 then Some(SE)
    else if k == 5 then Some(SW)
    else if k == 6 then Some(NE)
    else if k == 7 then Some(NW)
    else if k == 8 then Some(E)
    else if k == 9 then Some(S)
    else if k == 10 then Some(N)
    else if k == 11 then Some(W)
    else None
  }

  /** Every listed block type is recovered from its offset, and every offset
      the lookup can produce for a listed type names exactly one type. */
  lemma BlockTypeOffsetRoundTrip(b: BlockType, k: int)
    ensures Listed(b) ==> BlockTypeOfOffset(BlockTypeOffset(b)) == Some(b)
    ensures BlockTypeOfOffset(k).Some? ==>
              Listed(BlockTypeOfOffset(k).value) && BlockTypeOffset(BlockTypeOfOffset(k).value) == k
  {
  }

  /** Distinct listed block types get distinct offsets, none of them 0. */
  lemma BlockTypeOffsetInjective(a: BlockType, b: BlockType)
    requires Listed(a) && Listed(b)
    ensures BlockTypeOffset(a) == BlockTypeOffset(b) ==> a == b
    ensures BlockTypeOffset(a) != 0
  {
    BlockTypeOffsetRoundTrip(a, 0);
    BlockTypeOffsetRoundTrip(b, 0);
  }

  /** Two characters share a piece group exactly when they name the same piece letter. */
  lemma PieceTypeOffsetInjective(c: Char16, d: Char16)
    requires IsPieceChar(c) && IsPieceChar(d)
    ensures PieceTypeOffset(c) == PieceTypeOffset(d) <==> ToUpper(c) == ToUpper(d)
  {
    var i, j := PieceTypeIndex(c), PieceTypeIndex(d);
    if ToUpper(c) == ToUpper(d) {
      assert PieceLetters[i] == PieceLetters[j];
      assert i == j;
    }
  }

  /** A block of the playfield: its piece letter, its shape and whether the
      piece it came from has been erased. */
  datatype Block = Block(pieceChar: Char16, blockType: BlockType, pieceErased: bool)

  /** The tile showing a settled block: 0 when its letter names no piece, the
      plain piece colour when its piece is erased, otherwise the tile of its
      shape within its piece group. */
  function BlockIndex(b: Block): (r: int)
    ensures !IsPieceChar(b.pieceChar) ==> r == 0
    ensures IsPieceChar(b.pieceChar) ==> FirstPieceTile - 1 <= r < FirstPieceTile + GroupSize * |PieceLetters|
    ensures IsPieceChar(b.pieceChar) && b.pieceErased ==> r == PieceTypeOffset(b.pieceChar)
    ensures IsPieceChar(b.pieceChar) && !b.pieceErased ==> r - PieceTypeOffset(b.pieceChar) == BlockTypeOffset(b.blockType)
  {
    var index := PieceTypeIndex(b.pieceChar);
    if index < 0 then 0
    else
      var pieceTypeOffset := PieceTypeOffset(b.pieceChar);
      var blockTypeOffset := if b.pieceErased then 0 else BlockTypeOffset(b.blockType);
      pieceTypeOffset + blockTypeOffset
  }

  /** What a piece tile shows: the piece letter, and the block shape or
      `None` for the plain piece colour. */
  datatype TileMeaning = PieceTile(letter: Char16, shape: Option<BlockType>)

  /** Reads a tile index back as a piece tile; `None` outside the piece groups. */
  function DecodeTile(t: int): (r: Option<TileMeaning>)
    ensures r.Some? <==> FirstPieceTile <= t < FirstPieceTile + GroupSize * |PieceLetters|
  {
    if FirstPieceTile <= t < FirstPieceTile + GroupSize * |PieceLetters| then
      var k := (t - FirstPieceTile) % GroupSize;
      Some(PieceTile(PieceLetters[(t - FirstPieceTile) / GroupSize], if k == 0 then None else BlockTypeOfOffset(k)))
    else None
  }

  /** The tile of a settled block of a known piece, with a listed non-empty
      shape, decodes back to its piece letter and, unless the piece is
      erased, to its shape. */
  lemma BlockIndexRoundTrip(b: Block)
    requires IsPieceChar(b.pieceChar)
    requires Listed(b.blockType) && b.blockType != Empty
    ensures DecodeTile(BlockIndex(b)) ==
              Some(PieceTile(ToUpper(b.pieceChar), if b.pieceErased then None else Some(b.blockType)))
  {
    var p := PieceTypeIndex(b.pieceChar);
    var t := BlockIndex(b);
    var k := if b.pieceErased then 0 else BlockTypeOffset(b.blockType);
    assert 0 <= k < GroupSize;
    assert t - FirstPieceTile == GroupSize * p + k;
    assert (t - FirstPieceTile) / GroupSize == p && (t - FirstPieceTile) % GroupSize == k;
    BlockTypeOffsetRoundTrip(b.blockType, 0);
  }

  /** An EMPTY block of a piece that is not erased shows the W tile of the
      group before its own; for an S piece, the first group, that is tile 23,
      which lies outside every piece group. */
  lemma EmptyBlockTile(c: Char16)
    requires IsPieceChar(c)
    ensures var t := BlockIndex(Block(c, Empty, false));
            && (PieceTypeIndex(c) > 0 ==>
                  DecodeTile(t) == Some(PieceTile(PieceLetters[PieceTypeIndex(c) - 1], Some(W))))
            && (PieceTypeIndex(c) == 0 ==> t == 23 && DecodeTile(t) == None)
  {
    var p := PieceTypeIndex(c);
    var t := BlockIndex(Block(c, Empty, false));
    if p > 0 {
      assert t - FirstPieceTile == GroupSize * (p - 1) + 11;
      assert (t - FirstPieceTile) / GroupSize == p - 1 && (t - FirstPieceTile) % GroupSize == 11;
    }
  }

  /** A block whose shape the lookup does not list shows the plain colour
      tile of its piece group, whether or not its piece is erased. */
  lemma UnlistedBlockTile(c: Char16, name: string, erased: bool)
    requires IsPieceChar(c)
    ensures BlockIndex(Block(c, Other(name), erased)) == PieceTypeOffset(c)
    ensures DecodeTile(BlockIndex(Block(c, Other(name), erased))) == Some(PieceTile(ToUpper(c), None))
  {
    var p := PieceTypeIndex(c);
    var t := BlockIndex(Block(c, Other(name), erased));
    assert t - FirstPieceTile == GroupSize * p;
    assert (t - FirstPieceTile) / GroupSize == p && (t - FirstPieceTile) % GroupSize == 0;
  }

  /** The falling piece is drawn with the CENTRE tile of its group; for a
      character that names no piece the tile (13) lies outside the piece groups. */
  lemma FallingPieceTile(c: Char16)
    ensures IsPieceChar(c) ==> DecodeTile(PieceTypeOffset(c) + 1) == Some(PieceTile(ToUpper(c), Some(Centre)))
    ensures !IsPieceChar(c) ==> PieceTypeOffset(c) + 1 == 13 && DecodeTile(PieceTypeOffset(c) + 1) == None
  {
    if IsPieceChar(c) {
      var p := PieceTypeIndex(c);
      assert PieceTypeOffset(c) + 1 - FirstPieceTile == GroupSize * p + 1;
      assert (PieceTypeOffset(c) + 1 - FirstPieceTile) / GroupSize == p;
    }
  }
}
