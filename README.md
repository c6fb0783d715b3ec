# TILs segmentation: tiling server and upload page, modelled in Dafny

The application segments breast-cancer histopathology images into three tissue classes.
A FastAPI server (`backend/main.py`) takes an uploaded image and works in these steps:

1. It zero-pads the image at the bottom and right up to whole 512 by 512 tiles.
2. It cuts the padded image into tiles in row-major order.
3. It classifies every cell of every tile with a U-Net, taking `argmax` over the classes.
4. It reshapes the labelled tiles into their block grid, untiles them and crops the padding.
5. It scales the class indices by 85 into a grey-scale PNG and returns that as base64 in a JSON reply.

A React page (`project/src/App.tsx`) keeps four pieces of state: the picked file, the result image, a busy flag and an error.
It posts the file to the server and shows one of three things: the error, the result, or a placeholder.

## Modules

- `wrappers.dfy` (`Wrappers`): the `Option` type.
- `divmod.dfy` (`DivMod`): facts about division and remainder used by the tile arithmetic.
- `grids.dfy` (`Grids`): the `Grid` datatype.
  - A grid is a height, a width and rows of cells, so an empty image still has a shape.
  - It also holds cell-wise `Map` and grid extensionality.
- `tiling.dfy` (`Tiling`): the array manipulation of the server, generic in the cell type.
  - `pad_image` and `remove_padding`.
  - `patchify` and `unpatchify` with step equal to the tile size.
  - The `reshape` calls.
- `wire.dfy` (`Wire`): the keys of the JSON reply body.
- `backend.dfy` (`Backend`): covers `process_image` and `predict`.
  - `ProcessImage` is a method whose loop collects one class map per tile, as the source does.
  - It is proved equal to the pure `Segmentation`, and every property of the mask is proved about `Segmentation`.
- `frontend.dfy` (`Frontend`): the page.
  - The class `App` has the four state fields.
  - `processImage` is split at its `await` into `Submit` (up to sending the request) and `Complete` (once the request has ended); `ProcessImage` runs both.
  - `Resolve` is the pure decision of lines 46-53, and `OutputPanel` the panel choice of lines 199-216.
- `endtoend.dfy` (`EndToEnd`): what the page shows for each reply the server can send.

The network is left abstract, and so are the decoders and encoders:

- `Classifier`: a function from a tile and an offset in it to a class in `0..2`. It stands for normalisation, the network and `argmax`.
- `Encoder`: a function from a byte grid to a string. It stands for PNG compression and base64.
- `Upload`: what the server received, in one of three forms:
  - `Unreadable`: an exception was raised before `process_image`, while reading the body or decoding its bytes.
  - `Undecodable`: the bytes are not an image.
  - `Decoded`: a decoded image.
- `fault`: the message of an exception raised during segmentation or encoding, if any.
- `FetchResult`: on the page, either the parsed reply body or an exception from `fetch` or `response.json()`.

Two behaviours of the page follow from the code as written:

- `processImage` clears only `error` when a request starts (App.tsx:34-35), not `outputImage`.
  - So re-submitting keeps the previous mask visible until the reply arrives.
  - `App.Submit` and `BusyShowsNoError` state this.
- `Complete` may follow an `OnDrop` made while a request is in flight. In that case the old request's outcome is applied to the new selection, which is the race the code has.

## Model

| member | source | states |
|---|---|---|
| `Tiling.PadAmount` | backend/main.py:54-55 | the pad is below the tile size, makes the length a multiple of it, and is zero exactly when the length already is one |
| `Tiling.PadAmountIsLeast` | backend/main.py:54-55 | no smaller pad reaches a multiple of the tile size |
| `Tiling.ZeroPad` | backend/main.py:56 | the padded grid is `padH` rows taller and `padW` columns wider; cells inside the original are the original's, all others are the fill value |
| `Tiling.PadImage` | backend/main.py:53-57 | padding gives dimensions that are multiples of the tile size, with pads below the tile size and zero in a dimension that is already a multiple |
| `Tiling.PaddedTileCount` | backend/main.py:54-55 | a padded length holds `ceil(n / p)` tiles |
| `Tiling.DropLast` | backend/main.py:61 | Python's `s[:-k]` keeps the first `len - k` items, keeps none when `k` exceeds the length, and keeps none when `k == 0` |
| `Tiling.DropRows` | backend/main.py:61 | `g[:-k, :]` keeps the leading rows and the width, and keeps no row when `k == 0` |
| `Tiling.DropColumns` | backend/main.py:63 | `g[:, :-k]` keeps the leading columns and the height, and keeps no column when `k == 0` |
| `Tiling.RemovePadding` | backend/main.py:59-64 | cropping shortens each dimension by its pad, keeps the remaining cells, and changes nothing when both pads are zero |
| `Tiling.CropGuards` | backend/main.py:60-63 | zero pads leave the grid as it is, while an unguarded zero-pad slice would empty a non-empty grid |
| `Tiling.CropUndoesPad` | backend/main.py:53-64 | cropping by the pads that were added gives back the original image |
| `Tiling.Tile` | backend/main.py:74 | tile `(ti, tj)` is `p` by `p`, and its cell `(a, b)` is cell `(ti*p + a, tj*p + b)` of the image |
| `Tiling.Patchify` | backend/main.py:74 | the tiles form an `h/p` by `w/p` block grid of `p` by `p` tiles that do not overlap, cell `(a, b)` of tile `(ti, tj)` being image cell `(ti*p + a, tj*p + b)`; they cover the image when its sides are multiples of `p`, and otherwise the trailing rows and columns are in no tile |
| `Tiling.ConcatAt` | backend/main.py:74 | in a row-major list, item `c` of row `r` sits at position `r * w + c` |
| `Tiling.ConcatSlices` | backend/main.py:92 | concatenating the `nw`-long slices of a list gives the list back |
| `Tiling.Flatten` | backend/main.py:74 | `reshape(-1, ...)` lists `h * w` blocks, block `(r, c)` at position `r * w + c` |
| `Tiling.Reshape` | backend/main.py:92 | `reshape(nh, nw, ...)` gives an `nh` by `nw` grid whose row-major listing is the input list |
| `Tiling.ReshapeFlatten` | backend/main.py:74-92 | reshaping a flattened block grid to its own shape gives it back |
| `Tiling.StripPieces` | backend/main.py:95 | the pieces of a strip row are the `a`-th rows of the tiles of block row `ti`, in order |
| `Tiling.Unpatchify` | backend/main.py:95 | the untiled grid is `nh*p` by `nw*p`, and tile `(ti, tj)` sits at rows `ti*p ..` and columns `tj*p ..` |
| `Tiling.UntileTile` | backend/main.py:74-95 | untiling the tiles of a grid whose sides are multiples of `p` gives back the grid |
| `Backend.Patches` | backend/main.py:71-74 | the padded image is tiled by a block grid of whole 512 by 512 tiles |
| `Backend.LabelPatch` | backend/main.py:77-85 | the class map of a tile is 512 by 512, with the classifier's class for each cell |
| `Backend.LabelAll` | backend/main.py:77-86 | `pred_patches` holds one class map per tile, in tile order |
| `Backend.ReshapeTiles` | backend/main.py:92 | reshaping a list of 512 by 512 maps gives a block grid of 512 by 512 tiles |
| `Backend.ReshapedLabel` | backend/main.py:74-92 | after flattening, labelling and reshaping, block `(ti, tj)` is the class map of tile `(ti, tj)` |
| `Backend.LabelBlocks` | backend/main.py:74-92 | the reshaped `pred_patches` has the tiles' block shape, and block `(ti, tj)` is the class map of tile `(ti, tj)` |
| `Backend.Segmentation` | backend/main.py:89-98 | the final mask has exactly the height and width of the input image |
| `Backend.ProcessImage` | backend/main.py:66-98 | the loop over the tiles and the reassembly produce exactly the mask `Segmentation` describes |
| `Backend.PatchCount` | backend/main.py:74-91 | there are `ceil(h/512) * ceil(w/512)` tiles |
| `Backend.PatchPixel` | backend/main.py:71-74 | each tile cell is the image pixel at the matching position, or black padding beyond the image |
| `Backend.SegmentationAt` | backend/main.py:66-98 | mask cell `(i, j)` is the class given to cell `(i % 512, j % 512)` of tile `(i / 512, j / 512)` |
| `Backend.ToUint8` | backend/main.py:115 | `astype(np.uint8)` agrees with its input modulo 256 and keeps values already in `0..255` |
| `Backend.ScaleMask` | backend/main.py:115 | the scaled mask has the mask's shape, and each cell is the class times 85 with no wrap-around |
| `Backend.ScaleMaskLevels` | backend/main.py:115 | scaled cells are 0, 85 or 170, and dividing by 85 gives the class back |
| `Backend.SuccessReply` | backend/main.py:120-123 | a success reply has status 200, `success` true, the mask, and no error |
| `Backend.ErrorReply` | backend/main.py:125-126 | an error reply carries its status and message, and neither `success` nor `mask` |
| `Backend.Response` | backend/main.py:100-126 | the status is 200, 400 or 500; it is 200 exactly for a decoded image with no exception, and then the body carries the encoded, scaled segmentation; an undecodable upload gives 400 "Invalid image file"; exceptions give 500 with their message |
| `Backend.Predict` | backend/main.py:100-126 | the handler, which runs `process_image`, sends exactly the reply `Response` describes |
| `Frontend.OutputPanel` | project/src/App.tsx:199-216 | under JavaScript truthiness of a string or `null` (`Truthy`: `null` and `""` are falsy), the error panel shows exactly when the error is truthy; otherwise the result shows exactly when it is truthy; otherwise the placeholder |
| `Frontend.Resolve` | project/src/App.tsx:46-53 | a reply with `success` true sets the output to `data:image/png;base64,` + mask, where an absent mask gives `data:image/png;base64,undefined` (`MaskText`, the template at line 48); any other reply sets its `error` when that is truthy (`Truthy`, line 50), or "Error processing image."; an exception gives "Error processing image. Please try again."; the message is never empty |
| `Frontend.App.constructor` | project/src/App.tsx:6-9 | the page starts with nothing picked, nothing shown and nothing in flight |
| `Frontend.App.OnDrop` | project/src/App.tsx:11-18 | an empty drop changes nothing; otherwise the first file becomes the input, result and error are cleared, the placeholder shows, and the busy flag is untouched |
| `Frontend.App.Submit` | project/src/App.tsx:28-35 | with no file, it sets "No image selected.", sends nothing, and leaves the busy flag and the output alone; with a file, it sends that file, sets the busy flag and clears the error |
| `Frontend.App.Complete` | project/src/App.tsx:46-56 | the busy flag is cleared; on success the output is the data URI and the error is untouched; on failure the error is set and the output is untouched; the panel shows that outcome |
| `Frontend.App.ProcessImage` | project/src/App.tsx:28-57 | the composition of `Submit` and `Complete`: no request without a file; with one, the busy flag ends cleared and the panel shows the outcome |
| `Frontend.BusyShowsNoError` | project/src/App.tsx:199-216 | while a request is in flight, no error shows; the panel shows the previous result or the placeholder |
| `EndToEnd.SuccessShowsMask` | project/src/App.tsx:47-48 | a server success reply shows its mask as a PNG data URI |
| `EndToEnd.ErrorShowsMessage` | project/src/App.tsx:49-51 | a server error reply shows its message, or the fallback when the message is empty |
| `EndToEnd.PredictShown` | backend/main.py:100-126 | for every upload, the page shows the encoded segmentation exactly when the server produced one, and otherwise the server's message or the fallback |

## Left out

- The network's normalisation (lines 78-79) and inference (lines 80-85) are the abstract `Classifier`. Floating-point arithmetic is not modelled. The class map of a tile is 512 by 512 by construction, as the network's output is.
- Byte decoding (`np.frombuffer`, `cv2.imdecode`) is the `Upload` parameter. PNG encoding and base64 are the abstract `Encoder`.
- Exceptions are parameters, not computed: `Unreadable` covers any exception raised before `process_image` (reading the body, `np.frombuffer`, `cv2.imdecode`), and `fault` covers one raised while segmenting or encoding. Which inputs make OpenCV, numpy or Pillow raise is not modelled.
- The model setup (lines 37-51), CORS (lines 29-35), the `/` route (lines 128-130) and the server start-up (lines 132-134) are configuration, not logic.
- The FastAPI request plumbing and the `UploadFile` are not modelled, and neither are `FormData`, the URL of `fetch`, or the multipart encoding.
- Dropzone filtering by type and count (App.tsx lines 20-26) is library behaviour. `OnDrop` receives the list the library accepted.
- The disabled state of the button (line 171) is not a precondition of `Submit`: the model lets it run in any valid state.
- Asynchrony: `Submit` and `Complete` are separate steps, and `OnDrop` and `Submit` may run between a `Submit` and its `Complete`. `Complete` needs a request in flight, so overlapping requests (two completions after two submissions) are not modelled, and neither is cancellation.
- JSON values other than the ones the server sends are not modelled. `success` is a boolean or absent, and `mask` and `error` are strings or absent.
- The static markup of the page (headers, cards, footer) and the preview URL of the picked file are not modelled.
