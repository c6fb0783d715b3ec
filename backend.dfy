/**
 * The `/predict` endpoint of the segmentation server: the uploaded image is padded to whole
 * 512 by 512 tiles, every tile is classified cell by cell, the labelled tiles are put back
 * together and cropped to the image's size, and the mask, scaled for visibility, is sent back
 * encoded.
 */
module Backend {
  import opened Wrappers
  import opened DivMod
  import opened Grids
  import opened Tiling
  import Wire

  /** `patch_size` in `process_image`, equal to the model's input size. */
  const PATCH_SIZE: nat := 512

  /** `num_classes`: the number of output channels of the segmentation model. */
  const NUM_CLASSES: nat := 3

  /** The factor a class index is multiplied by to make the mask visible. */
  const MASK_SCALE: nat := 85

  /** The message of the reply to an upload that does not decode as an image. */
  const INVALID_IMAGE: string := "Invalid image file"

  /** An unsigned 8-bit value. */
  type Byte = x: int | 0 <= x < 256

  /** One pixel of a colour image as OpenCV decodes it: blue, green, red. */
  datatype Pixel = Pixel(blue: Byte, green: Byte, red: Byte)

  /** The constant `np.pad` fills with. */
  const BLACK: Pixel := Pixel(0, 0, 0)

  /** A class index, as `argmax` over the model's `NUM_CLASSES` channels yields. */
  type Label = c: int | 0 <= c < NUM_CLASSES

  /**
   * Normalisation, the network and `argmax(axis=3)` together: the class picked for cell
   * `(a, b)` of a tile. Left abstract.
   */
  type Classifier = (Grid<Pixel>, nat, nat) -> Label

  /** PNG compression followed by base64 encoding. Left abstract. */
  type Encoder = Grid<Byte> -> string

  // ---------------------------------------------------------------------------------------
  // process_image

  /** `pad_image(image, PATCH_SIZE)`. */
  function Padding(image: Grid<Pixel>): Padded<Pixel>
    requires image.Valid()
  {
    PadImage(image, PATCH_SIZE, BLACK)
  }

  /** The tiles of the padded image, in their block grid. */
  function Patches(image: Grid<Pixel>): (tiles: Grid<Grid<Pixel>>)
    requires image.Valid()
    ensures tiles.Valid()
    ensures tiles.height * PATCH_SIZE == Padding(image).image.height
    ensures tiles.width * PATCH_SIZE == Padding(image).image.width
    ensures TiledBy(Padding(image).image, tiles, PATCH_SIZE)
  {
    var padded := Padding(image).image;
    DivExact(padded.height, PATCH_SIZE);
    DivExact(padded.width, PATCH_SIZE);
    Patchify(padded, PATCH_SIZE)
  }

  /** The `PATCH_SIZE` by `PATCH_SIZE` class map of one tile: `y_pred[0, :, :]`. */
  function LabelPatch(classify: Classifier, patch: Grid<Pixel>): (labels: Grid<Label>)
    ensures labels.Valid() && labels.height == PATCH_SIZE && labels.width == PATCH_SIZE
    ensures forall a: nat, b: nat :: a < PATCH_SIZE && b < PATCH_SIZE ==> labels.At(a, b) == classify(patch, a, b)
  {
    Grid(PATCH_SIZE, PATCH_SIZE, seq(PATCH_SIZE, a requires 0 <= a < PATCH_SIZE => seq(PATCH_SIZE, b requires 0 <= b < PATCH_SIZE => classify(patch, a, b))))
  }

  /** The class maps of a list of tiles, in order. */
  function LabelAll(classify: Classifier, patches: seq<Grid<Pixel>>): (labelled: seq<Grid<Label>>)
    ensures |labelled| == |patches|
    ensures forall k :: 0 <= k < |patches| ==> labelled[k] == LabelPatch(classify, patches[k])
  {
    seq(|patches|, k requires 0 <= k < |patches| => LabelPatch(classify, patches[k]))
  }

  /** Every grid in `s` is a `PATCH_SIZE` by `PATCH_SIZE` tile. */
  ghost predicate AllPatchSized<T>(s: seq<Grid<T>>) {
    forall k :: 0 <= k < |s| ==> s[k].Valid() && s[k].height == PATCH_SIZE && s[k].width == PATCH_SIZE
  }

  /** Reshaping a list of tiles gives a block grid of tiles. */
  lemma ReshapeTiles<T>(s: seq<Grid<T>>, nh: nat, nw: nat)
    requires |s| == nh * nw && AllPatchSized(s)
    ensures AllTiles(Reshape(s, nh, nw), PATCH_SIZE)
  {
    var blocks := Reshape(s, nh, nw);
    forall ti: nat, tj: nat | ti < nh && tj < nw
      ensures blocks.At(ti, tj).Valid() && blocks.At(ti, tj).height == PATCH_SIZE && blocks.At(ti, tj).width == PATCH_SIZE
    {
      assert blocks.At(ti, tj) in s;
    }
  }

  /** The class maps of the tiles, reshaped to the block grid of the tiles: `pred_patches`. */
  function LabelBlocks(image: Grid<Pixel>, classify: Classifier): (blocks: Grid<Grid<Label>>)
    requires image.Valid()
    ensures blocks.Valid() && blocks.height == Patches(image).height && blocks.width == Patches(image).width
    ensures AllTiles(blocks, PATCH_SIZE)
    ensures forall ti: nat, tj: nat :: ti < blocks.height && tj < blocks.width ==>
              blocks.At(ti, tj) == LabelPatch(classify, Patches(image).At(ti, tj))
  {
    var tiles := Patches(image);
    var patches := Flatten(tiles);
    var labelled := LabelAll(classify, patches);
    ReshapeTiles(labelled, tiles.height, tiles.width);
    var blocks := Reshape(labelled, tiles.height, tiles.width);
    forall ti: nat, tj: nat | ti < blocks.height && tj < blocks.width
      ensures blocks.At(ti, tj) == LabelPatch(classify, tiles.At(ti, tj))
    {
      ReshapedLabel(classify, tiles, ti, tj);
    }
    blocks
  }

  /** Labelling a flattened block grid of tiles and reshaping it back labels each tile where it stood. */
  lemma ReshapedLabel(classify: Classifier, tiles: Grid<Grid<Pixel>>, ti: nat, tj: nat)
    requires tiles.Valid() && ti < tiles.height && tj < tiles.width
    ensures Reshape(LabelAll(classify, Flatten(tiles)), tiles.height, tiles.width).At(ti, tj) == LabelPatch(classify, tiles.At(ti, tj))
  {
    var patches := Flatten(tiles);
    var labelled := LabelAll(classify, patches);
    var blocks := Reshape(labelled, tiles.height, tiles.width);
    var k := ti * tiles.width + tj;
    assert ListedAt(blocks.cells, blocks.width, Flatten(blocks), ti, tj);
    assert k < |labelled| && labelled[k] == blocks.At(ti, tj);
    assert ListedAt(tiles.cells, tiles.width, patches, ti, tj);
    assert patches[k] == tiles.At(ti, tj);
    assert labelled[k] == LabelPatch(classify, patches[k]);
  }

  /**
   * The mask `process_image` computes: the class maps of the padded image's tiles, untiled to
   * the padded size and cropped.
   */
  function Segmentation(image: Grid<Pixel>, classify: Classifier): (mask: Grid<Label>)
    requires image.Valid()
    ensures mask.Valid() && mask.height == image.height && mask.width == image.width
  {
    var padded := Padding(image);
    RemovePadding(Unpatchify(LabelBlocks(image, classify), padded.image.height, padded.image.width, PATCH_SIZE),
                  padded.padH, padded.padW)
  }

  /**
   * `process_image`: pads, tiles, classifies the tiles one after another into `predPatches`,
   * and reassembles and crops the result.
   */
  method ProcessImage(image: Grid<Pixel>, classify: Classifier) returns (mask: Grid<Label>)
    requires image.Valid()
    ensures mask == Segmentation(image, classify)
  {
    var padded := Padding(image);
    var tiles := Patches(image);
    var imgPatches := Flatten(tiles);
    var predPatches: seq<Grid<Label>> := [];
    for k := 0 to |imgPatches|
      invariant |predPatches| == k
      invariant forall m :: 0 <= m < k ==> predPatches[m] == LabelPatch(classify, imgPatches[m])
    {
      predPatches := predPatches + [LabelPatch(classify, imgPatches[k])];
    }
    assert predPatches == LabelAll(classify, imgPatches);
    var nh, nw := padded.image.height / PATCH_SIZE, padded.image.width / PATCH_SIZE;
    assert nh == tiles.height && nw == tiles.width by {
      DivModOf(tiles.height, 0, PATCH_SIZE);
      DivModOf(tiles.width, 0, PATCH_SIZE);
    }
    var blocks := Reshape(predPatches, nh, nw);
    assert blocks == LabelBlocks(image, classify);
    mask := Unpatchify(blocks, padded.image.height, padded.image.width, PATCH_SIZE);
    mask := RemovePadding(mask, padded.padH, padded.padW);
  }

  /** The padded image has `ceil(h / 512) * ceil(w / 512)` tiles. */
  lemma PatchCount(image: Grid<Pixel>)
    requires image.Valid()
    ensures |Flatten(Patches(image))| == ((image.height + PATCH_SIZE - 1) / PATCH_SIZE) * ((image.width + PATCH_SIZE - 1) / PATCH_SIZE)
  {
    var tiles := Patches(image);
    var padded := Padding(image).image;
    DivModOf(tiles.height, 0, PATCH_SIZE);
    DivModOf(tiles.width, 0, PATCH_SIZE);
    PaddedTileCount(image.height, PATCH_SIZE);
    PaddedTileCount(image.width, PATCH_SIZE);
  }

  /**
   * Cell `(a, b)` of tile `(ti, tj)` is the image pixel at `(ti * 512 + a, tj * 512 + b)` when
   * that lies inside the image, and black padding otherwise.
   */
  lemma PatchPixel(image: Grid<Pixel>, ti: nat, tj: nat, a: nat, b: nat)
    requires image.Valid()
    requires ti < Patches(image).height && tj < Patches(image).width
    requires a < PATCH_SIZE && b < PATCH_SIZE
    ensures Patches(image).At(ti, tj).Valid()
    ensures Patches(image).At(ti, tj).height == PATCH_SIZE && Patches(image).At(ti, tj).width == PATCH_SIZE
    ensures Patches(image).At(ti, tj).At(a, b) ==
              if ti * PATCH_SIZE + a < image.height && tj * PATCH_SIZE + b < image.width
              then image.At(ti * PATCH_SIZE + a, tj * PATCH_SIZE + b)
              else BLACK
  {
    var tiles := Patches(image);
    var padded := Padding(image).image;
    assert TileCell(padded, tiles, PATCH_SIZE, ti, tj, a, b);
  }

  /**
   * Every cell of the mask is the class the model gives it inside the tile that holds it, at its
   * offset in that tile.
   */
  lemma SegmentationAt(image: Grid<Pixel>, classify: Classifier, i: nat, j: nat)
    requires image.Valid()
    requires i < image.height && j < image.width
    ensures i / PATCH_SIZE < Patches(image).height && j / PATCH_SIZE < Patches(image).width
    ensures Segmentation(image, classify).At(i, j) ==
              classify(Patches(image).At(i / PATCH_SIZE, j / PATCH_SIZE), i % PATCH_SIZE, j % PATCH_SIZE)
  {
    var padded := Padding(image);
    var blocks := LabelBlocks(image, classify);
    assert padded.image.height == blocks.height * PATCH_SIZE && padded.image.width == blocks.width * PATCH_SIZE;
    var u := Unpatchify(blocks, padded.image.height, padded.image.width, PATCH_SIZE);
    assert Segmentation(image, classify).At(i, j) == u.At(i, j);
    UnpatchifyAt(blocks, PATCH_SIZE, i, j);
  }

  // ---------------------------------------------------------------------------------------
  // The reply

  /** numpy's `astype(np.uint8)` on an integer: wrap-around modulo 256. */
  function ToUint8(x: int): (b: Byte)
    ensures (x - b) % 256 == 0
    ensures 0 <= x < 256 ==> b == x
  {
    x % 256
  }

  /** `(mask * 85).astype(np.uint8)`. */
  function ScaleMask(mask: Grid<Label>): (image: Grid<Byte>)
    requires mask.Valid()
    ensures image.Valid() && image.height == mask.height && image.width == mask.width
    ensures forall i: nat, j: nat :: i < mask.height && j < mask.width ==> image.At(i, j) == mask.At(i, j) * MASK_SCALE
  {
    Map(mask, (c: Label) => ToUint8(c * MASK_SCALE))
  }

  /**
   * The scaled mask uses only the grey levels 0, 85 and 170, one per class, so no class wraps
   * round and the class can be read back by dividing by the scale.
   */
  lemma ScaleMaskLevels(mask: Grid<Label>, i: nat, j: nat)
    requires mask.Valid() && i < mask.height && j < mask.width
    ensures ScaleMask(mask).At(i, j) in {0, 85, 170}
    ensures ScaleMask(mask).At(i, j) / MASK_SCALE == mask.At(i, j)
  {
  }

  /**
   * What the server was sent: an exception raised before segmentation (reading the body or
   * decoding its bytes) with its message, bytes that are not an image, or an image.
   */
  datatype Upload = Unreadable(reason: string) | Undecodable | Decoded(image: Grid<Pixel>)

  /** A reply: its HTTP status and its JSON body. */
  datatype Reply = Reply(status: nat, body: Wire.Body)

  /** `{"success": True, "mask": mask}` with status 200. */
  function SuccessReply(mask: string): (reply: Reply)
    ensures reply.status == 200 && reply.body.success == Some(true) && reply.body.mask == Some(mask)
    ensures reply.body.error.None?
  {
    Reply(200, Wire.Body(Some(true), Some(mask), None))
  }

  /** `{"error": message}` with the given status. */
  function ErrorReply(status: nat, message: string): (reply: Reply)
    ensures reply.status == status && reply.body.error == Some(message)
    ensures reply.body.success.None? && reply.body.mask.None?
  {
    Reply(status, Wire.Body(None, None, Some(message)))
  }

  /**
   * The reply `predict` sends. `fault` is the message of an exception raised while segmenting
   * or encoding a decoded image, if one was.
   */
  function Response(upload: Upload, classify: Classifier, encode: Encoder, fault: Option<string>): (reply: Reply)
    requires upload.Decoded? ==> upload.image.Valid()
    ensures reply.status in {200, 400, 500}
    ensures reply.status == 200 <==> upload.Decoded? && fault.None?
    ensures reply.body.success == Some(true) <==> reply.status == 200
    ensures reply.body.error.Some? <==> reply.status != 200
    ensures upload.Unreadable? ==> reply == ErrorReply(500, upload.reason)
    ensures upload.Undecodable? ==> reply == ErrorReply(400, INVALID_IMAGE)
    ensures upload.Decoded? && fault.Some? ==> reply == ErrorReply(500, fault.value)
    ensures reply.status == 200 ==> reply == SuccessReply(encode(ScaleMask(Segmentation(upload.image, classify))))
  {
    match upload
    case Unreadable(reason) => ErrorReply(500, reason)
    case Undecodable => ErrorReply(400, INVALID_IMAGE)
    case Decoded(image) =>
      match fault
      case Some(message) => ErrorReply(500, message)
      case None => SuccessReply(encode(ScaleMask(Segmentation(image, classify))))
  }

  /** `predict`: checks the decoded upload, runs `process_image` and builds the reply. */
  method Predict(upload: Upload, classify: Classifier, encode: Encoder, fault: Option<string>) returns (reply: Reply)
    requires upload.Decoded? ==> upload.image.Valid()
    ensures reply == Response(upload, classify, encode, fault)
  {
    match upload {
      case Unreadable(reason) =>
        return ErrorReply(500, reason);
      case Undecodable =>
        return ErrorReply(400, INVALID_IMAGE);
      case Decoded(image) =>
        var mask := ProcessImage(image, classify);
        if fault.Some? {
          return ErrorReply(500, fault.value);
        }
        reply := SuccessReply(encode(ScaleMask(mask)));
    }
  }
}
