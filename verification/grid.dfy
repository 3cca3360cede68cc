/** The image tile block of a feed card (`generateImagesGrid`), as a
    structure rather than markup: which tiles are drawn, the `grid-k` layout
    class, and the "+N" badge that stands for the images not drawn. */
module Grid {
  import opened Common
  import opened Thumbnail

  /** At most this many tiles are drawn. */
  const MaxTiles: nat := 5

  /** One drawn tile: the thumbnail shown, its 1-based caption number
      ("Screenshot k") and the count on the "+N" overlay, if any. */
  datatype Tile = Tile(src: string, number: nat, overlay: Option<nat>)

  /** `NoGrid` is the empty markup; `Grid(k, tiles)` is a block with class
      `grid-k`. */
  datatype ImageGrid = NoGrid | Grid(layout: nat, tiles: seq<Tile>)

  /** Images of a card left undrawn, as carried by the overlay. */
  function Hidden(g: ImageGrid): nat {
    if g.NoGrid? then 0
    else if |g.tiles| > 0 && g.tiles[|g.tiles| - 1].overlay.Some? then g.tiles[|g.tiles| - 1].overlay.value
    else 0
  }

  /** `generateImagesGrid(images)`; `None` is a missing image list. */
  function ImagesGrid(images: Option<seq<string>>): (g: ImageGrid)
    ensures g.NoGrid? <==> images.None? || |images.value| == 0
    ensures g.Grid? ==> g.layout == |g.tiles| == Min(|images.value|, MaxTiles)
    ensures g.Grid? ==> forall k | 0 <= k < |g.tiles| ::
              && g.tiles[k].src == ThumbnailUrl(images.value[k])
              && g.tiles[k].number == k + 1
              && (g.tiles[k].overlay.Some? <==> k == 4 && |images.value| > MaxTiles)
    ensures g.Grid? && |images.value| > MaxTiles ==>
              g.tiles[4].overlay == Some(|images.value| - MaxTiles)
  {
    if images.None? || |images.value| == 0 then NoGrid
    else
      var all := images.value;
      var first := all[..Min(|all|, MaxTiles)];
      var remaining := Max(0, |all| - MaxTiles);
      var tiles := seq(|first|, k requires 0 <= k < |first| =>
        Tile(ThumbnailUrl(first[k]), k + 1,
             if k == 4 && remaining > 0 then Some(remaining) else None));
      assert forall k | 0 <= k < |tiles| :: first[k] == all[k];
      Grid(|first|, tiles)
  }

  /** Every image of the card is either drawn or counted on the overlay,
      and the overlay never stands for zero images. */
  lemma GridAccountsForEveryImage(images: seq<string>)
    requires |images| > 0
    ensures |ImagesGrid(Some(images)).tiles| + Hidden(ImagesGrid(Some(images))) == |images|
    ensures Hidden(ImagesGrid(Some(images))) > 0 <==> |images| > MaxTiles
  {
  }

  /** Drawing a card from thumbnail URLs gives the same block as drawing it
      from the originals: the rewrite is idempotent, so callers may pass
      either form. */
  lemma GridIgnoresPriorRewrite(images: seq<string>)
    ensures ImagesGrid(Some(seq(|images|, k requires 0 <= k < |images| => ThumbnailUrl(images[k]))))
         == ImagesGrid(Some(images))
  {
    var thumbs := seq(|images|, k requires 0 <= k < |images| => ThumbnailUrl(images[k]));
    forall k | 0 <= k < |images|
      ensures ThumbnailUrl(thumbs[k]) == ThumbnailUrl(images[k])
    {
      ThumbnailIdempotent(images[k]);
    }
    var g, h := ImagesGrid(Some(thumbs)), ImagesGrid(Some(images));
    if |images| > 0 {
      assert |g.tiles| == |h.tiles|;
      forall k | 0 <= k < |g.tiles| ensures g.tiles[k] == h.tiles[k] {
      }
      assert g.tiles == h.tiles;
    }
  }
}
