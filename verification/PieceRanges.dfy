/** Which pieces a request touches, which part of each it reads, and that the parts make up the request. */
module PieceRanges {
  import opened Bytes
  import opened RangeReads
  import opened Wrappers

  /** A request range, as the client sends it. */
  datatype Span = Span(start: nat, length: nat)

  datatype Piece = Piece(number: nat, offset: nat, length: nat)

  predicate Inside(i: nat, s: Span) {
    s.start <= i < s.start + s.length
  }

  ghost predicate Overlap(p: Piece, s: Span) {
    exists i: nat :: Inside(i, Span(p.offset, p.length)) && Inside(i, s)
  }

  predicate Touches(p: Piece, s: Span) {
    Max(p.offset, s.start) < Min(p.offset + p.length, s.start + s.length)
  }

  lemma TouchesIsOverlap(p: Piece, s: Span)
    ensures Touches(p, s) <==> Overlap(p, s)
  {
    if Touches(p, s) {
      var i: nat := Max(p.offset, s.start);
      assert Inside(i, Span(p.offset, p.length)) && Inside(i, s);
    }
  }

  /** `calculate_piece_range`; None where its unsigned arithmetic leaves 64 bits. */
  function CalculatePieceRange(offset: nat, length: nat, range: Option<Span>): Option<(nat, nat)> {
    match range
    case None => Some((offset, length))
    case Some(s) =>
      var target := Max(offset, s.start);
      if offset + length > U64_MAX || s.start + s.length > U64_MAX then None
      else if offset + length < 1 || s.start + s.length < 1 then None
      else
        var last := Min(offset + length - 1, s.start + s.length - 1);
        if last < target then None else Some((target, last - target + 1))
  }

  /** The arithmetic is safe exactly when piece and request share a byte, and then selects the shared bytes. */
  lemma PieceRangeExact(p: Piece, s: Span)
    requires p.offset + p.length <= U64_MAX && s.start + s.length <= U64_MAX
    ensures var r := CalculatePieceRange(p.offset, p.length, Some(s));
            && (r.Some? <==> Overlap(p, s))
            && (r.Some? ==> forall i: nat ::
                  Inside(i, Span(r.value.0, r.value.1)) <==> Inside(i, Span(p.offset, p.length)) && Inside(i, s))
  {
    TouchesIsOverlap(p, s);
  }

  /** Without a request the whole piece is selected. */
  lemma PieceRangeWhole(p: Piece, i: nat)
    ensures var r := CalculatePieceRange(p.offset, p.length, None);
            r.Some? && (Inside(i, Span(r.value.0, r.value.1)) <==> Inside(i, Span(p.offset, p.length)))
  {
  }

  /** Consecutive pieces from `from` to `to`, none empty. */
  predicate Tiling(pieces: seq<Piece>, from: nat, to: nat) {
    if pieces == [] then from == to
    else pieces[0].offset == from && pieces[0].length > 0 && Tiling(pieces[1..], from + pieces[0].length, to)
  }

  function Touched(pieces: seq<Piece>, s: Span): seq<Piece> {
    if pieces == [] then []
    else (if Touches(pieces[0], s) then [pieces[0]] else []) + Touched(pieces[1..], s)
  }

  lemma {:induction false} TilingGrows(pieces: seq<Piece>, from: nat, to: nat)
    requires Tiling(pieces, from, to)
    ensures from <= to
    ensures forall i | 0 <= i < |pieces| ::
              from <= pieces[i].offset && pieces[i].length > 0 && pieces[i].offset + pieces[i].length <= to
  {
    if pieces != [] {
      TilingGrows(pieces[1..], from + pieces[0].length, to);
      assert forall i | 0 < i < |pieces| :: pieces[i] == pieces[1..][i - 1];
    }
  }

  /** What reading the request's part of every listed piece gives, one after the other. */
  function Assemble(content: seq<byte>, pieces: seq<Piece>, s: Span): seq<byte> {
    if pieces == [] then []
    else
      var part := CalculatePieceRange(pieces[0].offset, pieces[0].length, Some(s));
      (if part.Some? then Range(content, part.value.0, part.value.1) else [])
      + Assemble(content, pieces[1..], s)
  }

  /** The requested bytes of the content from offset `from` on. */
  function Requested(content: seq<byte>, s: Span, from: nat): seq<byte> {
    var lo := Min(Max(s.start, from), |content|);
    content[lo..Max(lo, Min(s.start + s.length, |content|))]
  }

  /** A piece contributes exactly the requested bytes it holds. */
  lemma OnePiece(content: seq<byte>, p: Piece, s: Span)
    requires p.length > 0 && p.offset + p.length <= |content| <= U64_MAX && s.start + s.length <= U64_MAX
    ensures var rest := Requested(content, s, p.offset + p.length);
            var part := CalculatePieceRange(p.offset, p.length, Some(s));
            && (part.Some? <==> Touches(p, s))
            && Requested(content, s, p.offset)
               == (if part.Some? then Range(content, part.value.0, part.value.1) else []) + rest
  {
    var n := |content|;
    if Touches(p, s) {
      var lo, hi := Max(p.offset, s.start), Min(s.start + s.length, n);
      var mid := Min(p.offset + p.length, hi);
      JoinSlices(content, lo, mid, hi);
      assert Requested(content, s, p.offset) == content[lo..hi];
      assert Requested(content, s, p.offset + p.length) == content[mid..hi];
    }
  }

  /** The parts of the touched pieces are the requested bytes, without gap or overlap. */
  lemma {:induction false} Decomposition(content: seq<byte>, pieces: seq<Piece>, s: Span, from: nat)
    requires Tiling(pieces, from, |content|) && |content| <= U64_MAX && s.start + s.length <= U64_MAX
    ensures Assemble(content, Touched(pieces, s), s) == Requested(content, s, from)
  {
    hide CalculatePieceRange, Requested, Touches, Range;
    if pieces == [] {
      NothingRequested(content, s);
    } else {
      var p, tail := pieces[0], Touched(pieces[1..], s);
      TilingGrows(pieces, from, |content|);
      assert pieces[0].offset + pieces[0].length <= |content|;
      Decomposition(content, pieces[1..], s, from + p.length);
      OnePiece(content, p, s);
      if Touches(p, s) {
        assert ([p] + tail)[1..] == tail;
      } else {
        assert [] + tail == tail;
      }
    }
  }

  lemma NothingRequested(content: seq<byte>, s: Span)
    ensures Requested(content, s, |content|) == []
  {
  }

  /** For a request that starts inside the content, the assembled bytes are the requested slice. */
  lemma WholeRequest(content: seq<byte>, pieces: seq<Piece>, s: Span)
    requires Tiling(pieces, 0, |content|) && |content| <= U64_MAX && s.start + s.length <= U64_MAX
    ensures Assemble(content, Touched(pieces, s), s) == Range(content, s.start, s.length)
  {
    Decomposition(content, pieces, s, 0);
  }

  // ---- the uniform pieces of a task -------------------------------------------

  /** The pieces of a task from piece `number`, which starts at `offset`. */
  function Tiles(pieceLength: nat, contentLength: nat, number: nat, offset: nat): seq<Piece>
    requires pieceLength > 0
    decreases contentLength - offset
  {
    if offset >= contentLength then []
    else
      [Piece(number % U32_LIMIT, offset, Min(pieceLength, contentLength - offset))]
      + Tiles(pieceLength, contentLength, number + 1, offset + pieceLength)
  }

  lemma {:induction false} TilesTile(pieceLength: nat, contentLength: nat, number: nat, offset: nat)
    requires pieceLength > 0 && offset <= contentLength
    ensures Tiling(Tiles(pieceLength, contentLength, number, offset), offset, contentLength)
    decreases contentLength - offset
  {
    if offset < contentLength {
      var next := Tiles(pieceLength, contentLength, number + 1, offset + pieceLength);
      assert Tiles(pieceLength, contentLength, number, offset)[1..] == next;
      if offset + pieceLength < contentLength {
        TilesTile(pieceLength, contentLength, number + 1, offset + pieceLength);
      } else {
        assert next == [];
      }
    }
  }

  /** Piece `k` counted from `number` starts `k` piece lengths on and is cut at the end of the content. */
  lemma {:induction false} TileAt(pieceLength: nat, contentLength: nat, number: nat, offset: nat, k: nat)
    requires pieceLength > 0 && k < |Tiles(pieceLength, contentLength, number, offset)|
    ensures offset + k * pieceLength < contentLength
    ensures Tiles(pieceLength, contentLength, number, offset)[k]
            == Piece((number + k) % U32_LIMIT, offset + k * pieceLength,
                     Min(pieceLength, contentLength - (offset + k * pieceLength)))
    decreases k
  {
    hide Tiles;
    TilesHead(pieceLength, contentLength, number, offset);
    if k > 0 {
      TileAt(pieceLength, contentLength, number + 1, offset + pieceLength, k - 1);
      TimesNext(k - 1, pieceLength);
    }
  }

  lemma TilesHead(pieceLength: nat, contentLength: nat, number: nat, offset: nat)
    requires pieceLength > 0
    ensures Tiles(pieceLength, contentLength, number, offset)
            == if offset >= contentLength then []
               else [Piece(number % U32_LIMIT, offset, Min(pieceLength, contentLength - offset))]
                    + Tiles(pieceLength, contentLength, number + 1, offset + pieceLength)
  {
  }

  lemma TimesNext(k: nat, d: nat)
    ensures (k + 1) * d == k * d + d
  {
  }

  /** `piece_count`: ceiling division. */
  function PieceCount(contentLength: nat, pieceLength: nat): nat
    requires pieceLength > 0
  {
    contentLength / pieceLength + (if contentLength % pieceLength == 0 then 0 else 1)
  }

  lemma {:induction false} TileCount(pieceLength: nat, contentLength: nat, number: nat, offset: nat)
    requires pieceLength > 0 && offset == number * pieceLength
    requires offset <= contentLength
    ensures number + |Tiles(pieceLength, contentLength, number, offset)| == PieceCount(contentLength, pieceLength)
    decreases contentLength - offset
  {
    if offset < contentLength {
      if offset + pieceLength <= contentLength {
        TileCount(pieceLength, contentLength, number + 1, offset + pieceLength);
      } else {
        Quotient(contentLength, pieceLength, number, contentLength - offset);
      }
    } else {
      Quotient(contentLength, pieceLength, number, 0);
    }
  }

  lemma Quotient(n: nat, d: nat, q: nat, r: nat)
    requires d > 0 && n == q * d + r && r < d
    ensures n / d == q && n % d == r
  {
    var q' := n / d;
    assert n == q' * d + n % d;
    if q' > q {
      TimesGrows(q + 1, q', d);
    } else if q' < q {
      TimesGrows(q' + 1, q, d);
    }
  }

  lemma TimesGrows(a: nat, b: nat, d: nat)
    requires a <= b
    ensures a * d <= b * d
  {
  }
}
