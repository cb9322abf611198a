# Frame It: a Dafny model of the framing and collage engine

Frame It puts photos on a coloured canvas of a requested aspect ratio and
returns them ready for Instagram. This project models its layout engine
(`models.py`) and the file-name and EXIF helpers of its web front end
(`main.py`). Images are modelled by their size, `Size(w, h)`, except in the
collage compositor, where pixels are modelled as well.

- **`img_border`** (`Borders`). With black-border mode off, the canvas grows
  by `min_pad` on each side along the photo's leading side. The other side
  follows the ratio, floored to a multiple of the ratio part. The photo is
  centred and the result is optionally resized to a short edge. With
  `pano_crop`, the result is a list of tiles.
- **`add_black_border`** (`Frames`). One of ten frame canvases is chosen by
  the photo's aspect ratio, with a ±0.001 window and a 3:2 fallback. The
  photo is resized to the frame's short edge and centred.
- **`insta_pano_crop` and `create_grid`** (`Grid`). The photo is centred on
  an 8:5 or 12:5 canvas. That canvas is then cut into 2 or 3 tiles by the
  nested `range` loops of `create_grid`.
- **`collage`** (`Collage`, `Layout`, `Canvas`). First the stacking
  direction may be overridden. Then come the three-image outlier rule and
  the split of four or more images into two groups. The base case resizes
  the images to a common cross-axis extent (`resize_collage`). It stacks
  them with a gap and pastes the pixels onto a background-coloured canvas.
- **`parse_ratio`, `parse_resolution`, `rgb_to_bgr`, the orientation
  predicates** (`Tokens`, `Orientation`).
- **`get_file_extension`, `get_filename`, `allowed_file`, the output-name
  loop of the upload route, `get_exif`** (`Files`).

Python exceptions become `Err` values of `Results.Result`:

- the empty collage (`np.min` of nothing);
- a zero divisor;
- a zero `range` step;
- a list of tiles used as an image;
- PIL's `resize` asked for a side of zero pixels, which happens in
  `resize_collage` when an image is much narrower than the least extent
  (`Layout.SliverCannotResize`);
- `False + str` for a name without a dot.

Float tests are written as the exact fractions they stand for:

- `h > 1.01 * w` becomes `100 * h > 101 * w`;
- `1.1 * h < w` becomes `11 * h < 10 * w`;
- the frame window compares real numbers;
- `int(h / 5 * 12)` becomes `h * 12 / 5`;
- the resize factors become `x * target / short`.

Where the documented behaviour and the code differ, the model follows the
code:

- An exactly square image counts as horizontal, because the code's test is
  `h < 1.01 * w` (`Orientation.SquareIsHorizontal`). It is not "neither".
- A collage of a single image is accepted and bordered. Only an empty list
  fails.
- A landscape photo with ratio 3:2 has no fallback branch. Its canvas can be
  shorter than the photo, which is then cropped at top and bottom
  (`Borders.LandscapeThreeTwoCrops`: 1100x1000 with a 100-pixel pad gives a
  1300x866 canvas with the photo at y = -67).
- The final merge of a split collage always calls `img_border`, even inside
  a `collage_only` call (`Collage.CollageEndsBordered`). So every group of
  four or more images is bordered.
- For the '32' ratio both halves of a split are built with vertical
  stacking (`Collage.SplitLayout`, `Collage.SplitTotal`). So groups of
  horizontal images become columns, not side-by-side rows.
- When two of three images are wide, those two are stacked vertically into
  one column (`Collage.TwoWideLayout`). They are not placed side by side.

## Model

| member | source | states |
|---|---|---|
| Geometry.ShortEdge | models.py:302-308 | the short edge is the smaller side, the height on a tie |
| Geometry.Resize | models.py:301-320 | succeeds iff the short edge is non-zero; each side is its old length times `target / short edge`, floored |
| Geometry.ResizeKeepsShape | models.py:301-320 | a positive photo resized to a positive target is positive, has exactly `target` as short edge and keeps its orientation |
| Tokens.ParseRatio | models.py:323-331 | 'sq', '45' and '32' give 1:1, 4:5 and 3:2, each iff that token; every other token gives 9:16 |
| Tokens.ParseResolution | models.py:334-344 | 'best' gives no resize, '4k' gives 3840, every other token gives 1080, each iff |
| Tokens.RgbToBgr | models.py:352-354 | the first and last channels swap places and the middle one stays |
| Tokens.RgbToBgrInvolution | models.py:352-354 | swapping the channel order twice gives the colour back |
| Frames.AddBlackBorder | models.py:167-224 | succeeds iff the photo is positive; the canvas is the selected frame's; the photo is the resize to its short edge, centred |
| Frames.SelectFrom | models.py:174-217 | whichever entry the rest of the chain picks, the photo's short edge is below both sides of the frame's canvas |
| Frames.Select | models.py:174-217 | the same for the whole chain; which entry it picks is stated by SelectFindsMatch and SelectFallback |
| Frames.WindowsDisjoint | models.py:174-213 | no aspect ratio lies in two of the ten ±0.001 windows |
| Frames.SelectFindsMatch | models.py:171-213 | a photo in the window of entry i gets entry i, whatever the order of the chain |
| Frames.SelectFallback | models.py:214-217 | a photo in no window gets the horizontal 3:2 frame |
| Frames.CatalogShape | models.py:174-217 | each frame canvas has exactly its ratio; the vertical frames are the transposes of the horizontal ones; the photo's short edge is below the canvas's |
| Frames.FrameFits | models.py:171-221 | a photo that matches a frame lies wholly inside it at non-negative offsets |
| Frames.SquareGetsFallback | models.py:214-221 | a square photo gets the 3:2 frame, 2453x2453 at (693, 53) on 3840x2560 |
| Grid.CeilDivIs | models.py:362-363 | the steps `range(0, n, step)` takes are the least count that reaches n |
| Grid.Cell | models.py:364 | every box is exactly one crop wide and one crop high |
| Grid.Cells | models.py:361-365 | the nested loops visit columns times rows boxes |
| Grid.GridBoxes | models.py:357-368 | fails iff a split count is zero or a box side is zero; otherwise the visited boxes, the last one dropped when there are more than the splits asked for |
| Grid.CreateGrid | models.py:357-368 | the loops and the drop compute exactly `GridBoxes` |
| Grid.CropBoxes | models.py:361-365 | the nested loops append the boxes column by column |
| Grid.AppendColumn | models.py:363-365 | the inner loop appends one column of boxes top to bottom |
| Grid.GridShape | models.py:357-368 | at least the requested number of boxes, at most one dropped; every box is crop-sized, starts on a box multiple inside the image and follows the previous one down its column or at the top of the next |
| Grid.SingleRow | models.py:357-368 | one row of n splits with a small remainder gives exactly n side-by-side boxes, all inside the image |
| Grid.PanoCrop | models.py:227-244 | succeeds iff the photo is at least 2 pixels high |
| Grid.PanoTiles | models.py:227-244 | an 8:5 photo gives 2 tiles on its own width, any other photo 3 tiles on a 12:5 canvas; the photo is centred and the tiles are the grid of the canvas |
| Grid.PanoEightByFive | models.py:231-243 | a 4000x2500 photo gives two 2000x2500 tiles |
| Borders.BorderGeometry | models.py:31-49 | the canvas is width-led or height-led (landscape photos always width-led) and the photo is centred on it |
| Borders.BorderBranches | models.py:32-47 | a landscape photo gets a width-led canvas (WidthLed); a portrait on a 9-wide ratio gets a width-led canvas when the width-led height exceeds the photo and a height-led one (HeightLed) otherwise; on other ratios, height-led when the height-led width exceeds the photo and width-led otherwise |
| Borders.BorderCovers | models.py:36-47 | with a known ratio and a pad of at least 8, and outside the landscape-with-landscape-ratio case, the canvas covers the photo |
| Borders.LandscapeThreeTwoCrops | models.py:32-34 | 1100x1000 at 3:2 with pad 100 gives a 1300x866 canvas with the photo at y = -67 |
| Borders.Border | models.py:7-59 | tiles come back iff the ratio is 'pano_crop'; without black border, pano or resize, the output is the bare border canvas |
| Borders.Finish | models.py:18-57 | the result is panorama tiles exactly when the ratio is 'pano_crop', and a single image otherwise |
| Borders.GeometryPositive | models.py:31-49 | with a known ratio and a pad of at least 8 the canvas is positive |
| Borders.BorderTotal | models.py:7-59 | a positive photo with a non-pano ratio always gives a positive image, led by width or height when 'best', with the requested short edge otherwise |
| Borders.LandscapeThreeTwo | models.py:31-49 | 2000x1000 at '32' gives 2200x1466 with the photo at (100, 233) |
| Borders.SquareOnSquare | models.py:31-49 | 1000x1000 at 'sq' gives 1200x1200 with the photo at (100, 100) |
| Orientation.AllVertical | models.py:289-290 | every image of an all-vertical list is strictly taller than wide; an empty list is all vertical |
| Orientation.AllHorizontal | models.py:293-294 | a list of landscape or square images of positive width is all horizontal; so is an empty list |
| Orientation.AllSquare | models.py:297-298 | never holds for an empty list; a single image passes only when its height is exactly 1.01 times its width |
| Orientation.NeverBoth | models.py:289-298 | non-empty input is never both all vertical and all horizontal; empty input is both |
| Orientation.SquareIsHorizontal | models.py:289-294 | a square image is horizontal and not vertical; one 2% taller is vertical |
| Orientation.WideIsHorizontal | models.py:85 | an image passing the outlier test is horizontal |
| Orientation.WideOnes | models.py:84-92 | the kept images are all wide and all come from the input |
| Orientation.NarrowOnes | models.py:84-92 | the kept images are all not wide and all come from the input; with the wide ones they account for every image |
| Orientation.SplitByWidth | models.py:84-92 | the two lists hold every image exactly once between them |
| Layout.ResizedOne | models.py:260-281 | an image at the least cross-axis extent is kept; any other gets the least extent across and its other side scaled in proportion and floored |
| Layout.ResizableIff | models.py:263-281 | an image can be resized exactly when the size it is resized to has no zero side |
| Layout.Least | models.py:258-273 | the least extent is the cross-axis extent of some image, and every image not above it has exactly that extent |
| Layout.Resized | models.py:255-286 | fails with EmptyResize iff some resized image has its other side times the least extent below its own extent; otherwise one size per image, positive images staying positive |
| Layout.ResizeCollage | models.py:255-286 | the loop stops at the first image PIL cannot resize and otherwise computes exactly `Resized` |
| Layout.ResizedEqualises | models.py:255-286 | after a successful resize every image has the least cross-axis extent, a resized image has its other side scaled in proportion and floored, and an image at the minimum is unchanged |
| Layout.SliverCannotResize | models.py:272-281 | 1x1000 and 1000x10 stacked vertically fail: the second would be resized to 1x0 |
| Layout.Offsets | models.py:150-157 | one offset per image |
| Layout.OffsetsInside | models.py:131-157 | every image ends within the stack's length |
| Layout.OffsetsOrdered | models.py:147-157 | each image starts at least a pad after the end of every earlier one |
| Layout.Stack | models.py:129-159 | one place per image |
| Layout.StackInside | models.py:129-159 | every image lies inside the canvas, at 0 across the stacking axis |
| Layout.StackOrdered | models.py:147-159 | images follow one another along the stacking axis with at least a pad between them |
| Layout.StackDisjoint | models.py:147-159 | no pixel lies in two images |
| Layout.BaseLayout | models.py:125-159 | fails with EmptyResize exactly when some image cannot be resized; otherwise one place per image |
| Layout.TwoStackedVertically | models.py:125-159 | 1000x800 over 1000x600 with pad 120 gives 1000x1520, the second at y = 920 |
| Layout.BaseLayoutPositive | models.py:125-137 | positive images that can be resized give a positive canvas |
| Canvas.Paste | models.py:146-159 | the picture's pixels replace those of its rectangle and nothing else changes |
| Canvas.PasteAll | models.py:146-159 | after the loop every picture shows in its rectangle and every uncovered pixel keeps the background |
| Canvas.StackFitsApart | models.py:129-157 | the stack keeps every picture inside the canvas and apart from the others |
| Canvas.Compose | models.py:129-159 | the canvas has the stack's size, every picture appears at its place and every other pixel is background |
| Collage.StackDirection | models.py:78-81 | vertical only if asked; '32' with a non-horizontal image, or all-vertical input, turns it off; otherwise it stays on |
| Collage.SplitPoint | models.py:109 | both groups are non-empty, the first is the larger by at most one |
| Collage.AsImage | models.py:74 | a nested result is usable iff it is an image |
| Collage.Collage | models.py:62-164 | an empty list fails; a collage of at most three images that no three-image rule catches is its stacked canvas, bare when collage-only and passed through `img_border` otherwise, or EmptyResize when an image cannot be resized; tiles come back iff 'pano_crop' and the result is bordered |
| Collage.CollageTotal | models.py:62-164 | positive images, a non-pano ratio and a pad of at least 8 give a positive image, and the only possible failure is EmptyResize |
| Collage.OneWideLayout | models.py:93-98 | with exactly one wide image of three, the other two are laid side by side into a bare row and the result is the merge of the wide image and that row; a row that cannot be resized fails the collage |
| Collage.TwoWideLayout | models.py:99-104 | with two wide images of three and a ratio other than 'vert', those two are stacked vertically into a bare column and the result is the merge of that column and the third image; a column that cannot be resized fails the collage |
| Collage.OneWideTotal | models.py:93-98 | the one-wide-image rule gives a positive image or EmptyResize under the same conditions |
| Collage.RowMergeTotal | models.py:96-98 | the merge of the wide image and a successful row gives a positive image or EmptyResize |
| Collage.TwoWideTotal | models.py:99-104 | the two-wide-images rule gives a positive image or EmptyResize under the same conditions |
| Collage.ColumnMergeTotal | models.py:102-104 | the merge of a successful column and the third image gives a positive image or EmptyResize |
| Collage.SplitLayout | models.py:106-123 | four or more images split at the larger half into two bare collages, stacked vertically for '32' and otherwise in the collage's direction; a failing group fails the whole, a tiled group is NotAnImage, and otherwise the two results are stacked as a pair and bordered |
| Collage.SplitTotal | models.py:106-123 | the split into two groups gives a positive image or EmptyResize under the same conditions |
| Collage.BaseTotal | models.py:125-164 | the stacked base case gives a positive image whenever every image can be resized |
| Collage.CollageEndsBordered | models.py:118-164 | every collage that is not collage-only, and every one of four or more images, is `img_border` of some canvas |
| Collage.TwoImageCollage | models.py:125-163 | 1000x800 and 1000x600 as a bare 'sq' collage give 1000x1520 |
| Collage.SliverCollageFails | models.py:125 | a bare 'sq' collage of 1x1000 and 1000x10 fails with EmptyResize |
| Files.LastDot | main.py:105 | no index iff the name has no '.'; otherwise the index of a '.' with none after it |
| Files.LastDotIs | main.py:105 | any '.' with none after it is the one `rsplit` splits at |
| Files.Lower | main.py:105 | every character is lowered, length kept |
| Files.FileExtension | main.py:104-105 | `False` iff the name has no '.' |
| Files.FileStem | main.py:108-109 | `False` iff the name has no '.' |
| Files.StemAndExtension | main.py:104-109 | stem, '.' and the original suffix rebuild the name; the suffix has no '.' and lowers to the extension |
| Files.AllowedFile | main.py:100-101 | only a name with a '.' can be allowed |
| Files.AllowedFileIff | main.py:100-101 | a file is allowed iff its lowered name ends in ".jpg" or ".jpeg" |
| Files.Decimal | main.py:80-81 | `str(n)` is never empty |
| Files.DecimalRoundTrip | main.py:80-81 | reading the digits of `str(n)` back gives n |
| Files.OutputNames | main.py:70-82 | succeeds iff the name has a '.' or there is no output; one name per output, `stem-framed.ext` for one, `stem-framed-i.ext` for several |
| Files.OutputNamesDistinct | main.py:75-81 | two different outputs of an upload never share a name |
| Files.Utf16 | main.py:142 | two bytes of BOM, then two bytes per character |
| Files.Utf16RoundTrip | main.py:142 | decoding the encoded characters gives the text back |
| Files.KeepTags | main.py:136-138 | exactly the stored DateTime, Artist and Copyright tags survive, with their values |
| Files.GetExif | main.py:131-143 | the tags are the surviving ones plus Artist, Software and XPKeywords; Artist and Software read "Frame It", XPKeywords the UTF-16 "Frame It;", DateTime and Copyright keep their stored values |
| Files.ExifTagsBounded | main.py:136-142 | the resulting tags are among five and always include Software, Artist and XPKeywords |
| Files.FrameItKeywordsBytes | main.py:141-142 | the XPKeywords bytes are FF FE then "Frame It;" low byte first |

## Left out

- Pixels outside the collage compositor are not modelled: decoding, LANCZOS resampling, `Image.new`, the paste in `img_border` and `add_black_border`, and the crops of `create_grid`. Those operations are modelled on sizes, offsets and crop boxes.
- Loading and alpha-compositing the frame overlay assets in `add_black_border` are left out (file I/O), and so is its debug `print`.
- `hex_to_rgb` (a matplotlib call) is left out; the background colour is an input of `Canvas.Compose`.
- `video_border` (ffmpeg) is left out.
- The loop that copies image sizes into `shapes` (models.py:70-76) is left out: the model takes the sizes directly.
- The Flask routes of `main.py` are left out: `request`, `send_file`, `BytesIO`, `ZipFile` and the choice between one file and a zip (main.py:26-97). So is the per-image `add_black_border` of the collage route.
- `secure_filename`, `check_filename`, `buffer_from_file` and `exif_transpose` are library and I/O calls and are left out.
- Geometry.Resize: computes the exact floor of `x * target / short`. Python multiplies by the float `target / short`, which can come out one pixel smaller when the exact value is a whole number.
- Layout.Resized: the same exact floor stands for `int(w * (min / h))`.
- Frames.AddBlackBorder: the ±0.001 windows are compared on exact rationals. A float quotient within rounding error of a window edge is not modelled.
- Files.Lower: lowers only ASCII letters. Unicode case mapping is not modelled.
- Files.Utf16: covers characters of the Basic Multilingual Plane on a little-endian machine. Surrogate pairs and big-endian byte order marks are not modelled.
- Canvas.Compose: pictures are three-channel; the `:3` slice for images with an alpha channel is not modelled.
- `get_file_extension` and `get_filename` return `False` for a name without a dot. The model writes that as `None`.
