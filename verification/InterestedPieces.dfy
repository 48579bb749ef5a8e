/** The pieces a download or a request has to fetch. */
module InterestedPieces {
  import opened Bytes
  import opened RangeReads
  import opened PieceRanges
  import opened Wrappers

  predicate Spans(s: Span, contentLength: nat) {
    s.length > 0 && s.start < contentLength
  }

  /** Pieces that start at or after the end of the request are not touched. */
  lemma {:induction false} NoneTouched(pieceLength: nat, contentLength: nat, number: nat, offset: nat, s: Span)
    requires pieceLength > 0 && s.start + s.length <= offset
    ensures Touched(Tiles(pieceLength, contentLength, number, offset), s) == []
    decreases contentLength - offset
  {
    if offset < contentLength {
      var tiles := Tiles(pieceLength, contentLength, number, offset);
      assert tiles[1..] == Tiles(pieceLength, contentLength, number + 1, offset + pieceLength);
      NoneTouched(pieceLength, contentLength, number + 1, offset + pieceLength, s);
    }
  }

  /** The touched pieces from here on: the next piece, if the loop would list it, and those after it. */
  lemma NextTile(pieceLength: nat, contentLength: nat, number: nat, offset: nat, s: Span)
    requires pieceLength > 0 && offset < contentLength && Spans(s, contentLength) && offset < s.start + s.length
    ensures Touched(Tiles(pieceLength, contentLength, number, offset), s)
            == (if offset + pieceLength > s.start
                then [Piece(number % U32_LIMIT, offset, Min(pieceLength, contentLength - offset))] else [])
               + Touched(Tiles(pieceLength, contentLength, number + 1, offset + pieceLength), s)
  {
    var tiles := Tiles(pieceLength, contentLength, number, offset);
    assert tiles[1..] == Tiles(pieceLength, contentLength, number + 1, offset + pieceLength);
  }

  /** The list so far once the loop has passed the end: only its last length is still nominal. */
  ghost predicate Corrected(pieces: seq<Piece>, length: nat, result: seq<Piece>) {
    pieces != [] &&
    result == pieces[..|pieces| - 1] + [pieces[|pieces| - 1].(length := length)]
  }

  /** The loop's list together with what is still to come. */
  ghost predicate Listed(pieces: seq<Piece>, pieceLength: nat, contentLength: nat, number: nat, offset: nat, s: Span)
    requires pieceLength > 0
  {
    var all := Touched(Tiles(pieceLength, contentLength, 0, 0), s);
    if offset < contentLength
    then pieces + Touched(Tiles(pieceLength, contentLength, number, offset), s) == all
    else offset <= pieceLength + contentLength && Corrected(pieces, pieceLength + contentLength - offset, all)
  }

  lemma ListNext(pieces: seq<Piece>, pieceLength: nat, contentLength: nat, number: nat, offset: nat, s: Span)
    requires pieceLength > 0 && offset < contentLength && Spans(s, contentLength) && offset < s.start + s.length
    requires Listed(pieces, pieceLength, contentLength, number, offset, s)
    ensures var next := if offset + pieceLength > s.start
                        then pieces + [Piece(number % U32_LIMIT, offset, pieceLength)] else pieces;
            Listed(next, pieceLength, contentLength, number + 1, offset + pieceLength, s)
  {
    NextTile(pieceLength, contentLength, number, offset, s);
    var tile := Piece(number % U32_LIMIT, offset, Min(pieceLength, contentLength - offset));
    var rest := Touched(Tiles(pieceLength, contentLength, number + 1, offset + pieceLength), s);
    var all := Touched(Tiles(pieceLength, contentLength, 0, 0), s);
    if offset + pieceLength > s.start {
      assert all == pieces + ([tile] + rest);
      assert all == (pieces + [tile]) + rest;
    } else {
      assert [] + rest == rest;
    }
    if offset + pieceLength >= contentLength {
      assert rest == [];
    }
  }

  /** The result; `Overflow` where the 64-bit arithmetic of the source leaves its range. */
  datatype Interested = Pieces(pieces: seq<Piece>) | InvalidParameter | Overflow

  /** The first byte of the last piece. */
  function LastOffset(pieceLength: nat, contentLength: nat): int
    requires pieceLength > 0
  {
    (PieceCount(contentLength, pieceLength) - 1) * pieceLength
  }

  /** The last piece of the task. */
  function LastTile(pieceLength: nat, contentLength: nat): (p: Piece)
    requires pieceLength > 0 && contentLength > 0
    ensures p.offset < contentLength && p.length > 0 && p.offset + p.length == contentLength
  {
    LastBounds(pieceLength, contentLength);
    var offset := LastOffset(pieceLength, contentLength);
    Piece((PieceCount(contentLength, pieceLength) - 1) % U32_LIMIT, offset, contentLength - offset)
  }

  lemma LastBounds(pieceLength: nat, contentLength: nat)
    requires pieceLength > 0 && contentLength > 0
    ensures PieceCount(contentLength, pieceLength) >= 1
    ensures 0 <= LastOffset(pieceLength, contentLength) < contentLength
    ensures contentLength <= PieceCount(contentLength, pieceLength) * pieceLength
    ensures PieceCount(contentLength, pieceLength) * pieceLength == LastOffset(pieceLength, contentLength) + pieceLength
  {
    var q := contentLength / pieceLength;
    assert contentLength == q * pieceLength + contentLength % pieceLength;
    assert q == 0 ==> q * pieceLength == 0;
    if contentLength % pieceLength == 0 {
      NextMultiple(q - 1, pieceLength);
    } else {
      NextMultiple(q, pieceLength);
    }
  }

  /** What a request is answered with. */
  function InterestedIn(pieceLength: nat, contentLength: nat, s: Span): Interested
    requires pieceLength > 0 && contentLength > 0
  {
    var touched := Pieces(Touched(Tiles(pieceLength, contentLength, 0, 0), s));
    var nominal := PieceCount(contentLength, pieceLength) * pieceLength;
    if s.length == 0 then InvalidParameter
    else if s.start + s.length > U64_MAX then Overflow
    else if s.start + s.length <= LastOffset(pieceLength, contentLength) then touched
    else if nominal > U64_MAX then Overflow
    else if s.start >= nominal then InvalidParameter
    else if pieceLength + contentLength > U64_MAX then Overflow
    else if s.start < contentLength then touched
    else Pieces([LastTile(pieceLength, contentLength)])
  }

  /** The pieces a request reads, by piece number. */
  method ByRange(pieceLength: nat, contentLength: nat, s: Span) returns (r: Interested)
    requires pieceLength > 0 && 0 < contentLength <= U64_MAX
    ensures r == InterestedIn(pieceLength, contentLength, s)
  {
    hide Listed, Touched, Tiles, PieceCount, InterestedIn, StartsAt;
    AnswerFirst(pieceLength, contentLength, s);
    if s.length == 0 {
      return InvalidParameter;
    }
    var number: nat, offset: nat := 0, 0;
    var pieces: seq<Piece> := [];
    ListStarts(pieceLength, contentLength, s);
    while offset < contentLength
      invariant StartsAt(number, offset, pieceLength) && offset < contentLength + pieceLength
      invariant Spans(s, contentLength) ==> Listed(pieces, pieceLength, contentLength, number, offset, s)
      invariant s.start >= contentLength ==> pieces == Trailing(pieceLength, contentLength, number, offset, s)
      invariant offset > 0 ==> s.start + s.length <= U64_MAX && offset <= U64_MAX && offset - pieceLength < s.start + s.length
      decreases contentLength + pieceLength - offset
    {
      if s.start + s.length > U64_MAX {
        return Overflow;
      }
      if offset >= s.start + s.length {
        ListStops(pieces, pieceLength, contentLength, number, offset, s);
        AnswerEarly(pieceLength, contentLength, number, offset, s);
        return Pieces(pieces);
      }
      NextStart(number, offset, pieceLength);
      if offset + pieceLength > U64_MAX {
        AnswerOverflow(pieceLength, contentLength, number, offset, s);
        return Overflow;
      }
      if Spans(s, contentLength) {
        ListNext(pieces, pieceLength, contentLength, number, offset, s);
      }
      if offset + pieceLength > s.start {
        pieces := pieces + [Piece(number % U32_LIMIT, offset, pieceLength)];
      }
      offset := (number + 1) * pieceLength;
      number := number + 1;
    }
    ListEnds(pieces, pieceLength, contentLength, number, offset, s);
    AnswerEnd(pieceLength, contentLength, number, offset, s);
    if pieces == [] {
      return InvalidParameter;
    }
    if pieceLength + contentLength > U64_MAX {
      return Overflow;
    }
    var last := pieces[|pieces| - 1];
    return Pieces(pieces[..|pieces| - 1] + [last.(length := pieceLength + contentLength - offset)]);
  }

  /** Piece `number` starts at `offset`. */
  ghost predicate StartsAt(number: nat, offset: nat, pieceLength: nat)
    ensures number == offset == 0 ==> StartsAt(number, offset, pieceLength)
  {
    offset == number * pieceLength
  }

  lemma NextStart(number: nat, offset: nat, pieceLength: nat)
    requires StartsAt(number, offset, pieceLength)
    ensures (number + 1) * pieceLength == offset + pieceLength && StartsAt(number + 1, offset + pieceLength, pieceLength)
  {
  }

  /** The list of a request that starts past the content: at most the last piece, with its nominal length. */
  function Trailing(pieceLength: nat, contentLength: nat, number: nat, offset: nat, s: Span): seq<Piece> {
    if contentLength <= offset && pieceLength <= offset && number > 0 && s.start < offset
    then [Piece((number - 1) % U32_LIMIT, offset - pieceLength, pieceLength)] else []
  }

  lemma AnswerFirst(pieceLength: nat, contentLength: nat, s: Span)
    requires pieceLength > 0 && contentLength > 0
    ensures s.length == 0 ==> InterestedIn(pieceLength, contentLength, s) == InvalidParameter
    ensures s.length > 0 && s.start + s.length > U64_MAX ==> InterestedIn(pieceLength, contentLength, s) == Overflow
  {
  }

  lemma AnswerEarly(pieceLength: nat, contentLength: nat, number: nat, offset: nat, s: Span)
    requires pieceLength > 0 && s.length > 0 && s.start + s.length <= U64_MAX
    requires StartsAt(number, offset, pieceLength) && s.start + s.length <= offset < contentLength
    ensures InterestedIn(pieceLength, contentLength, s) == Pieces(Touched(Tiles(pieceLength, contentLength, 0, 0), s))
    ensures Spans(s, contentLength)
  {
    hide PieceCount, Tiles, Touched;
    NumberBound(pieceLength, contentLength, number);
  }

  /** The first start at or past the end of the content is that of one more piece than there are. */
  lemma AtLast(pieceLength: nat, contentLength: nat, number: nat, offset: nat)
    requires pieceLength > 0 && contentLength > 0
    requires StartsAt(number, offset, pieceLength) && contentLength <= offset < contentLength + pieceLength
    ensures number == PieceCount(contentLength, pieceLength) && number > 0
    ensures PieceCount(contentLength, pieceLength) * pieceLength == offset
    ensures LastOffset(pieceLength, contentLength) == offset - pieceLength
  {
    LastMultiple(contentLength, pieceLength, number);
    LastBounds(pieceLength, contentLength);
  }

  lemma AnswerOverflow(pieceLength: nat, contentLength: nat, number: nat, offset: nat, s: Span)
    requires pieceLength > 0 && 0 < contentLength <= U64_MAX && s.length > 0
    requires StartsAt(number, offset, pieceLength) && offset < contentLength && offset < s.start + s.length
    requires offset + pieceLength > U64_MAX
    ensures InterestedIn(pieceLength, contentLength, s) == Overflow
  {
    hide PieceCount, Tiles, Touched;
    NextStart(number, offset, pieceLength);
    AtLast(pieceLength, contentLength, number + 1, offset + pieceLength);
  }

  lemma AnswerEnd(pieceLength: nat, contentLength: nat, number: nat, offset: nat, s: Span)
    requires pieceLength > 0 && contentLength > 0 && s.length > 0
    requires StartsAt(number, offset, pieceLength) && contentLength <= offset < contentLength + pieceLength
    requires s.start + s.length <= U64_MAX && offset <= U64_MAX && offset - pieceLength < s.start + s.length
    ensures number > 0 && offset >= pieceLength
    ensures InterestedIn(pieceLength, contentLength, s)
            == if s.start >= offset then InvalidParameter
               else if pieceLength + contentLength > U64_MAX then Overflow
               else if s.start < contentLength then Pieces(Touched(Tiles(pieceLength, contentLength, 0, 0), s))
               else Pieces([Piece((number - 1) % U32_LIMIT, offset - pieceLength, pieceLength + contentLength - offset)])
  {
    hide PieceCount, Tiles, Touched;
    AtLast(pieceLength, contentLength, number, offset);
    LastBounds(pieceLength, contentLength);
  }

  /** A multiple of the piece length inside the content is at most the last piece's offset. */
  lemma NumberBound(pieceLength: nat, contentLength: nat, number: nat)
    requires pieceLength > 0 && number * pieceLength < contentLength
    ensures number * pieceLength <= LastOffset(pieceLength, contentLength)
  {
    LastBounds(pieceLength, contentLength);
    var count := PieceCount(contentLength, pieceLength);
    if number >= count {
      TimesGrows(count, number, pieceLength);
    } else {
      TimesGrows(number, count - 1, pieceLength);
    }
  }

  lemma ListStarts(pieceLength: nat, contentLength: nat, s: Span)
    requires pieceLength > 0 && contentLength > 0
    ensures Listed([], pieceLength, contentLength, 0, 0, s)
  {
    var all := Touched(Tiles(pieceLength, contentLength, 0, 0), s);
    assert [] + all == all;
  }

  lemma ListStops(pieces: seq<Piece>, pieceLength: nat, contentLength: nat, number: nat, offset: nat, s: Span)
    requires pieceLength > 0 && offset < contentLength && s.start + s.length <= offset
    ensures Listed(pieces, pieceLength, contentLength, number, offset, s)
            ==> pieces == Touched(Tiles(pieceLength, contentLength, 0, 0), s)
  {
    NoneTouched(pieceLength, contentLength, number, offset, s);
    assert pieces + [] == pieces;
  }

  lemma ListEnds(pieces: seq<Piece>, pieceLength: nat, contentLength: nat, number: nat, offset: nat, s: Span)
    requires pieceLength > 0 && contentLength <= offset < contentLength + pieceLength
    ensures Listed(pieces, pieceLength, contentLength, number, offset, s)
            ==> Corrected(pieces, pieceLength + contentLength - offset, Touched(Tiles(pieceLength, contentLength, 0, 0), s))
  {
  }

  lemma NextMultiple(number: nat, pieceLength: nat)
    ensures (number + 1) * pieceLength == number * pieceLength + pieceLength
  {
  }

  /** The first multiple of the piece length at or past the content's end is the piece count's. */
  lemma LastMultiple(contentLength: nat, pieceLength: nat, number: nat)
    requires pieceLength > 0 && contentLength <= number * pieceLength < contentLength + pieceLength
    ensures number == PieceCount(contentLength, pieceLength)
  {
    var excess := number * pieceLength - contentLength;
    if excess == 0 {
      Quotient(contentLength, pieceLength, number, 0);
    } else {
      NextMultiple(number - 1, pieceLength);
      Quotient(contentLength, pieceLength, number - 1, pieceLength - excess);
    }
  }

  /** What a download without a range is answered with: every piece of the task. */
  function EveryPiece(pieceLength: nat, contentLength: nat): Interested
    requires pieceLength > 0
  {
    if PieceCount(contentLength, pieceLength) * pieceLength > U64_MAX || pieceLength + contentLength > U64_MAX then Overflow
    else Pieces(Tiles(pieceLength, contentLength, 0, 0))
  }

  /** The loop's list together with the pieces still to come. */
  ghost predicate Gathered(pieces: seq<Piece>, pieceLength: nat, contentLength: nat, number: nat, offset: nat)
    requires pieceLength > 0
  {
    var all := Tiles(pieceLength, contentLength, 0, 0);
    if offset < contentLength then pieces + Tiles(pieceLength, contentLength, number, offset) == all
    else offset <= pieceLength + contentLength && Corrected(pieces, pieceLength + contentLength - offset, all)
  }

  lemma GatherStarts(pieceLength: nat, contentLength: nat)
    requires pieceLength > 0 && contentLength > 0
    ensures Gathered([], pieceLength, contentLength, 0, 0)
  {
    assert [] + Tiles(pieceLength, contentLength, 0, 0) == Tiles(pieceLength, contentLength, 0, 0);
  }

  lemma GatherNext(pieces: seq<Piece>, pieceLength: nat, contentLength: nat, number: nat, offset: nat)
    requires pieceLength > 0 && offset < contentLength && Gathered(pieces, pieceLength, contentLength, number, offset)
    ensures Gathered(pieces + [Piece(number % U32_LIMIT, offset, pieceLength)], pieceLength, contentLength,
                     number + 1, offset + pieceLength)
  {
    var tile := Piece(number % U32_LIMIT, offset, Min(pieceLength, contentLength - offset));
    var rest := Tiles(pieceLength, contentLength, number + 1, offset + pieceLength);
    assert pieces + ([tile] + rest) == (pieces + [tile]) + rest;
  }

  lemma GatherEnds(pieces: seq<Piece>, pieceLength: nat, contentLength: nat, number: nat, offset: nat)
    requires pieceLength > 0 && contentLength <= offset < contentLength + pieceLength
    requires Gathered(pieces, pieceLength, contentLength, number, offset)
    ensures Corrected(pieces, pieceLength + contentLength - offset, Tiles(pieceLength, contentLength, 0, 0))
  {
  }

  method All(pieceLength: nat, contentLength: nat) returns (r: Interested)
    requires pieceLength > 0 && 0 < contentLength <= U64_MAX
    ensures r == EveryPiece(pieceLength, contentLength)
    ensures r.Pieces? ==> |r.pieces| == PieceCount(contentLength, pieceLength)
  {
    hide PieceCount, Tiles, Gathered, StartsAt;
    var number: nat, offset: nat := 0, 0;
    var pieces: seq<Piece> := [];
    GatherStarts(pieceLength, contentLength);
    while offset < contentLength
      invariant StartsAt(number, offset, pieceLength) && offset < contentLength + pieceLength
      invariant Gathered(pieces, pieceLength, contentLength, number, offset)
      invariant offset <= U64_MAX
      decreases contentLength + pieceLength - offset
    {
      GatherNext(pieces, pieceLength, contentLength, number, offset);
      pieces := pieces + [Piece(number % U32_LIMIT, offset, pieceLength)];
      NextStart(number, offset, pieceLength);
      if offset + pieceLength > U64_MAX {
        AtLast(pieceLength, contentLength, number + 1, offset + pieceLength);
        return Overflow;
      }
      offset := (number + 1) * pieceLength;
      number := number + 1;
    }
    AtLast(pieceLength, contentLength, number, offset);
    GatherEnds(pieces, pieceLength, contentLength, number, offset);
    if pieceLength + contentLength > U64_MAX {
      return Overflow;
    }
    var last := pieces[|pieces| - 1];
    pieces := pieces[..|pieces| - 1] + [last.(length := pieceLength + contentLength - offset)];
    TileCount(pieceLength, contentLength, 0, 0);
    return Pieces(pieces);
  }

  /** `calculate_interested`. */
  method CalculateInterested(pieceLength: nat, contentLength: nat, range: Option<Span>) returns (r: Interested)
    requires pieceLength > 0 && contentLength <= U64_MAX
    ensures r == if contentLength == 0 then Pieces([])
                 else match range
                      case Some(s) => InterestedIn(pieceLength, contentLength, s)
                      case None => EveryPiece(pieceLength, contentLength)
  {
    hide InterestedIn, EveryPiece;
    if contentLength == 0 {
      return Pieces([]);
    }
    match range {
      case Some(s) => r := ByRange(pieceLength, contentLength, s);
      case None => r := All(pieceLength, contentLength);
    }
  }

  /** Where nothing overflows, a request is answered with exactly the pieces it touches if and only if it starts inside the content. */
  lemma AnsweredExactly(pieceLength: nat, contentLength: nat, s: Span)
    requires pieceLength > 0 && contentLength > 0 && s.length > 0
    requires s.start + s.length <= U64_MAX && pieceLength + contentLength <= U64_MAX
    ensures InterestedIn(pieceLength, contentLength, s) == Pieces(Touched(Tiles(pieceLength, contentLength, 0, 0), s))
            <==> s.start < contentLength
  {
    hide PieceCount, Tiles, Touched;
    LastBounds(pieceLength, contentLength);
    if s.start >= contentLength {
      TilesTile(pieceLength, contentLength, 0, 0);
      PastTiling(Tiles(pieceLength, contentLength, 0, 0), 0, contentLength, s);
    }
  }

  lemma {:induction false} PastTiling(pieces: seq<Piece>, from: nat, to: nat, s: Span)
    requires Tiling(pieces, from, to) && s.start >= to
    ensures Touched(pieces, s) == []
  {
    if pieces != [] {
      TilingGrows(pieces, from, to);
      assert pieces[0].offset + pieces[0].length <= to;
      PastTiling(pieces[1..], from + pieces[0].length, to, s);
    }
  }

  /** A request past the end of three bytes in pieces of two: answered with the second piece, which it does not touch. */
  method PastTheEnd() returns (r: Interested)
    ensures r == Pieces([Piece(1, 2, 1)]) && !Touches(Piece(1, 2, 1), Span(3, 1))
  {
    assert PieceCount(3, 2) == 2;
    r := CalculateInterested(2, 3, Some(Span(3, 1)));
  }

  /**
   A request that starts inside the content is served exactly: the interested
   pieces, each read through `calculate_piece_range`, give the requested bytes.
   */
  lemma RequestServed(content: seq<byte>, pieceLength: nat, s: Span)
    requires pieceLength > 0 && |content| <= U64_MAX && s.start + s.length <= U64_MAX
    ensures Assemble(content, Touched(Tiles(pieceLength, |content|, 0, 0), s), s) == Range(content, s.start, s.length)
  {
    TilesTile(pieceLength, |content|, 0, 0);
    WholeRequest(content, Tiles(pieceLength, |content|, 0, 0), s);
  }
}
