/**
 * The pottery catalog: pieces, each owning an ordered list of image
 * identifiers, flattened into one navigation sequence; and the start index of
 * a piece's first image in that sequence, computed once by the render loop's
 * running counter and once by a prefix sum in the tile's click handler.
 */
module Catalog {

  /** A pottery piece `{ name, images }`. */
  datatype Piece = Piece(name: string, images: seq<string>)

  /** `potteryPieces.flatMap(piece => piece.images)`: every piece's images, in piece order. */
  function Flatten(pieces: seq<Piece>): seq<string>
  {
    if pieces == [] then [] else pieces[0].images + Flatten(pieces[1..])
  }

  /** `ps.reduce((sum, p) => sum + p.images.length, acc)`: a left fold over the pieces. */
  function SumImages(ps: seq<Piece>, acc: nat): nat
  {
    if ps == [] then acc else SumImages(ps[1..], acc + |ps[0].images|)
  }

  function Min(a: nat, b: nat): nat
  {
    if a <= b then a else b
  }

  /**
   * `potteryPieces.slice(0, pieceIndex).reduce((sum, p) => sum + p.images.length, 0)`;
   * `slice` clamps an end index past the last piece.
   */
  function FirstImageIndex(pieces: seq<Piece>, pieceIndex: nat): nat
  {
    SumImages(pieces[..Min(pieceIndex, |pieces|)], 0)
  }

  /** The fold adds the length of the flattened pieces to its seed. */
  lemma {:induction false} SumImagesIsFlatLength(ps: seq<Piece>, acc: nat)
    ensures SumImages(ps, acc) == acc + |Flatten(ps)|
    decreases |ps|
  {
    if ps != [] {
      SumImagesIsFlatLength(ps[1..], acc + |ps[0].images|);
    }
  }

  /** The flattened sequence's length is the sum of the pieces' image counts. */
  lemma FlattenLength(ps: seq<Piece>)
    ensures |Flatten(ps)| == SumImages(ps, 0)
  {
    SumImagesIsFlatLength(ps, 0);
  }

  /** Flattening distributes over concatenation of piece lists. */
  lemma {:induction false} FlattenAppend(xs: seq<Piece>, ys: seq<Piece>)
    ensures Flatten(xs + ys) == Flatten(xs) + Flatten(ys)
    decreases |xs|
  {
    if xs == [] {
      assert xs + ys == ys;
    } else {
      assert (xs + ys)[1..] == xs[1..] + ys;
      FlattenAppend(xs[1..], ys);
    }
  }

  /** Adding one more piece to a prefix appends exactly that piece's images. */
  lemma FlattenPrefixStep(ps: seq<Piece>, p: nat)
    requires p < |ps|
    ensures Flatten(ps[..p + 1]) == Flatten(ps[..p]) + ps[p].images
  {
    assert ps[..p + 1] == ps[..p] + [ps[p]];
    FlattenAppend(ps[..p], [ps[p]]);
    assert Flatten([ps[p]]) == ps[p].images + Flatten([]);
  }

  /** The flattened sequence splits around any piece: before it, its images, after it. */
  lemma FlattenAround(ps: seq<Piece>, p: nat)
    requires p < |ps|
    ensures Flatten(ps) == Flatten(ps[..p]) + ps[p].images + Flatten(ps[p + 1..])
  {
    assert ps == ps[..p + 1] + ps[p + 1..];
    FlattenAppend(ps[..p + 1], ps[p + 1..]);
    FlattenPrefixStep(ps, p);
  }

  /** The prefix sum of the click handler is the length of the flattened earlier pieces. */
  lemma FirstImageIndexIsOffset(ps: seq<Piece>, p: nat)
    requires p <= |ps|
    ensures FirstImageIndex(ps, p) == |Flatten(ps[..p])|
  {
    SumImagesIsFlatLength(ps[..p], 0);
  }

  /**
   * Image k of piece p sits in the flattened sequence at the piece's start
   * index plus k; in particular the start index of a piece with at least one
   * image holds that piece's first image.
   */
  lemma PieceImagesInFlat(ps: seq<Piece>, p: nat, k: nat)
    requires p < |ps| && k < |ps[p].images|
    ensures FirstImageIndex(ps, p) + k < |Flatten(ps)|
    ensures Flatten(ps)[FirstImageIndex(ps, p) + k] == ps[p].images[k]
  {
    FirstImageIndexIsOffset(ps, p);
    FlattenAround(ps, p);
  }

  /** An identifier is in the flattened sequence exactly when some piece lists it. */
  lemma {:induction false} FlattenMembers(ps: seq<Piece>, x: string)
    ensures x in Flatten(ps) <==> exists p :: 0 <= p < |ps| && x in ps[p].images
    decreases |ps|
  {
    if ps != [] {
      FlattenMembers(ps[1..], x);
      if x in Flatten(ps[1..]) {
        var q :| 0 <= q < |ps[1..]| && x in ps[1..][q].images;
        assert x in ps[q + 1].images;
      }
      if exists p :: 0 <= p < |ps| && x in ps[p].images {
        var p :| 0 <= p < |ps| && x in ps[p].images;
        if p > 0 {
          assert x in ps[1..][p - 1].images;
        }
      }
    }
  }

  /**
   * The pottery render loop (`potteryPieces.forEach` with the nested
   * `piece.images.forEach`): `potteryImageIndex` starts at 0 and is
   * incremented once per image; `dataIndex[p][k]` is the counter's value
   * stored as `img.dataset.index` on image k of piece p. The counter at each
   * image agrees with the click handler's prefix sum, and it indexes that very
   * image in the flattened sequence.
   */
  method RenderPotteryIndices(pieces: seq<Piece>) returns (dataIndex: seq<seq<nat>>, potteryImageIndex: nat)
    ensures |dataIndex| == |pieces|
    ensures forall p :: 0 <= p < |pieces| ==> |dataIndex[p]| == |pieces[p].images|
    ensures forall p, k :: 0 <= p < |pieces| && 0 <= k < |pieces[p].images| ==>
              dataIndex[p][k] == FirstImageIndex(pieces, p) + k
    ensures forall p, k :: 0 <= p < |pieces| && 0 <= k < |pieces[p].images| ==>
              dataIndex[p][k] < |Flatten(pieces)| && Flatten(pieces)[dataIndex[p][k]] == pieces[p].images[k]
    ensures potteryImageIndex == |Flatten(pieces)|
  {
    potteryImageIndex := 0;
    dataIndex := [];
    var pieceIndex := 0;
    while pieceIndex < |pieces|
      invariant pieceIndex <= |pieces|
      invariant |dataIndex| == pieceIndex
      invariant potteryImageIndex == |Flatten(pieces[..pieceIndex])|
      invariant forall p :: 0 <= p < pieceIndex ==> |dataIndex[p]| == |pieces[p].images|
      invariant forall p, k :: 0 <= p < pieceIndex && 0 <= k < |pieces[p].images| ==>
                  dataIndex[p][k] == FirstImageIndex(pieces, p) + k
    {
      var images := pieces[pieceIndex].images;
      var views: seq<nat> := [];
      FirstImageIndexIsOffset(pieces, pieceIndex);
      var imgIndex := 0;
      while imgIndex < |images|
        invariant imgIndex <= |images|
        invariant |views| == imgIndex
        invariant potteryImageIndex == FirstImageIndex(pieces, pieceIndex) + imgIndex
        invariant forall k :: 0 <= k < imgIndex ==> views[k] == FirstImageIndex(pieces, pieceIndex) + k
      {
        views := views + [potteryImageIndex];
        potteryImageIndex := potteryImageIndex + 1;
        imgIndex := imgIndex + 1;
      }
      FlattenPrefixStep(pieces, pieceIndex);
      dataIndex := dataIndex + [views];
      pieceIndex := pieceIndex + 1;
    }
    assert pieces[..|pieces|] == pieces;
    forall p, k | 0 <= p < |pieces| && 0 <= k < |pieces[p].images|
      ensures dataIndex[p][k] < |Flatten(pieces)| && Flatten(pieces)[dataIndex[p][k]] == pieces[p].images[k]
    {
      PieceImagesInFlat(pieces, p, k);
    }
  }
}
