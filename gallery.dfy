/**
 * The gallery tiles' click handlers: a painting tile opens the viewer on the
 * painting list at its own position; a pottery tile opens it on the flattened
 * pottery sequence at the prefix-sum start index of its piece.
 */
module Gallery {
  import Paths
  import Catalog
  import Lightbox

  /** A rendered tile: a painting at a position, or a pottery piece at a position. */
  datatype Tile = PaintingTile(index: nat) | PotteryTile(pieceIndex: nat)

  /** The arguments a tile's click handler passes to `openLightbox`. */
  datatype OpenArgs = OpenArgs(index: nat, imageArray: seq<string>)

  /** Painting tile i calls `openLightbox(i, paintingFiles)`; pottery tile p calls `openLightbox(firstImageIndex, potteryFiles)`. */
  function ClickTarget(paintings: seq<string>, pieces: seq<Catalog.Piece>, tile: Tile): OpenArgs
  {
    match tile
    case PaintingTile(i) => OpenArgs(i, paintings)
    case PotteryTile(p) => OpenArgs(Catalog.FirstImageIndex(pieces, p), Catalog.Flatten(pieces))
  }

  /** The tiles the two render loops create: one per painting, one per pottery piece. */
  predicate IsRendered(paintings: seq<string>, pieces: seq<Catalog.Piece>, tile: Tile)
  {
    match tile
    case PaintingTile(i) => i < |paintings|
    case PotteryTile(p) => p < |pieces|
  }

  /**
   * At both call sites `openLightbox` receives an index inside the sequence,
   * and the entry there is the tile's own first image: the painting itself,
   * or the first image of the pottery piece.
   */
  lemma ClickTargetInRange(paintings: seq<string>, pieces: seq<Catalog.Piece>, tile: Tile)
    requires IsRendered(paintings, pieces, tile)
    requires tile.PotteryTile? ==> |pieces[tile.pieceIndex].images| >= 1
    ensures var t := ClickTarget(paintings, pieces, tile);
      !Lightbox.OpenThrows(t.index, t.imageArray) &&
      t.imageArray[t.index] == (match tile
                                case PaintingTile(i) => paintings[i]
                                case PotteryTile(p) => pieces[p].images[0])
  {
    if tile.PotteryTile? {
      Catalog.PieceImagesInFlat(pieces, tile.pieceIndex, 0);
    }
  }

  /**
   * A click on a rendered tile: the viewer opens on the tile's sequence and,
   * for every rendered tile, shows the tile's first image without throwing.
   */
  method ClickTile(viewer: Lightbox.Viewer, paintings: seq<string>, pieces: seq<Catalog.Piece>, tile: Tile)
    returns (threw: bool)
    requires IsRendered(paintings, pieces, tile)
    requires tile.PotteryTile? ==> |pieces[tile.pieceIndex].images| >= 1
    modifies viewer
    ensures var t := ClickTarget(paintings, pieces, tile);
      viewer.State() == Lightbox.OpenStep(old(viewer.State()), viewer.encodeSegment, t.index, t.imageArray)
    ensures !threw && viewer.Valid() && viewer.active
    ensures viewer.src == Paths.EncodeFilePath(viewer.encodeSegment,
                                               match tile
                                               case PaintingTile(i) => paintings[i]
                                               case PotteryTile(p) => pieces[p].images[0])
  {
    ClickTargetInRange(paintings, pieces, tile);
    var t := ClickTarget(paintings, pieces, tile);
    threw := viewer.OpenLightbox(t.index, t.imageArray);
  }

  /**
   * Paintings ["a.png", "b.png"]: clicking tile 1 opens at index 1 showing
   * "b.png"; ArrowRight then wraps to index 0 showing "a.png".
   */
  lemma PaintingScenario(enc: string -> string, src: string)
    ensures var paintings := ["a.png", "b.png"];
      var t := ClickTarget(paintings, [], PaintingTile(1));
      var atOpen := Lightbox.OpenStep(Lightbox.Initial(src), enc, t.index, t.imageArray);
      var moved := Lightbox.KeyDownStep(atOpen, enc, "ArrowRight");
      atOpen.index == 1 && atOpen.src == Paths.EncodeFilePath(enc, "b.png") &&
      moved.index == 0 && moved.src == Paths.EncodeFilePath(enc, "a.png")
  {
  }

  /**
   * Pottery pieces with images ["x1", "x2"] and ["y1"]: clicking the second
   * piece opens the flattened sequence at index 2 showing "y1".
   */
  lemma PotteryScenario(enc: string -> string, src: string)
    ensures var pieces := [Catalog.Piece("x", ["x1", "x2"]), Catalog.Piece("y", ["y1"])];
      var t := ClickTarget([], pieces, PotteryTile(1));
      var atOpen := Lightbox.OpenStep(Lightbox.Initial(src), enc, t.index, t.imageArray);
      t == OpenArgs(2, ["x1", "x2", "y1"]) && atOpen.src == Paths.EncodeFilePath(enc, "y1")
  {
    var pieces := [Catalog.Piece("x", ["x1", "x2"]), Catalog.Piece("y", ["y1"])];
    assert pieces[..Catalog.Min(1, |pieces|)] == [pieces[0]];
    assert [pieces[0]][1..] == [];
    assert Catalog.FirstImageIndex(pieces, 1) == Catalog.SumImages([], 2) == 2;
    assert pieces[1..][1..] == [];
    assert Catalog.Flatten(pieces[1..]) == ["y1"] + Catalog.Flatten([]);
    assert Catalog.Flatten(pieces) == ["x1", "x2"] + ["y1"];
  }
}
