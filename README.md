# helix-hl-diff in Dafny

A verified model of helix-hl-diff. The tool screenshots the Helix editor's syntax highlighting so that themes can be compared.

The model covers four parts:

- **The renderer** (`render.py`). It reads the terminal output Helix produced. A regular expression removes the set-mode and reset-mode sequences `ESC [ ? <digits> h` and `ESC [ ? <digits> l`. The `stransi` tokeniser turns the rest into instructions. A loop walks those instructions while tracking foreground, background, font style, row and column. It paints one cell per character onto a canvas of 80 x 20 cells. A cell is 8 x 15 pixels, and the canvas starts out magenta.
- **The image difference** (`diff_images`). It is written identically in `img_ops.py` and `img_compare.py`. It takes the per-channel absolute difference of two RGB images and reports `(True, diff)` when some pixel of it is not black, otherwise `(False, None)`.
- **The compositor** (`stack_images` in `img_ops.py`). It pastes images left to right into a fresh black image.
- **The release-artifact naming** (`helix.py`, `archive.py`). A target with "windows" in it gets a zip archive, and every other target a tarball. The artifact is named `helix-{version}-{target}{ext}`.

Modules, one per source file:

- `Render` (render.dfy) models render.py.
  - `Render.Render` is a method with the source's loop.
  - The loop's state lives in local variables.
  - The canvas is a `Canvas` object over an `array2` of cells, and the inner loop over one text run is `PaintText`.
  - Both are proved against a specification: `Step` is the state machine, and `AllPaints` is the ordered list of paint operations.
  - `CellAt` gives what a cell shows after those operations: the last one aimed at it, or the sentinel.
- `ImageDiff` (image_diff.dfy) holds the one shared model of both `diff_images` copies. It includes Pillow's `ImageChops.difference` and `getbbox`.
- `ImgOps` (img_ops.dfy) models `stack_images`. The method `StackImages` allocates the image and pastes in a loop. `StackedPixel` is its specification.
- `Archive` (archive.dfy) and `Helix` (helix.dfy) are pure functions over strings and an enum.
- `Raster` (raster.dfy) holds the RGB and image types. `Wrappers` (wrappers.dfy) holds `Option`.

Several things in the model are parameters or fixed choices:

- The tokeniser is a parameter of `Render.Render`, the function `tokenize`.
- Colour components are taken as bytes.
- Cells whose row is 20 or more, or whose column is 80 or more, lie entirely off the canvas (`CellBoxOnCanvas`). Pillow clips them. The model skips them.
- The cell size is computed from the ratios 7/10 and 13/10. Python's floating-point `int(12 * 0.7)` and `int(12 * 1.3)` give the same 8 and 15.

Three details of the sources show up in the lemmas:

- The pre-pass is one regular-expression substitution, so it is a single pass. Removing an inner mode sequence can join the characters around it into a new one. That new sequence is not removed (`StripIsSinglePass`).
- A text run is placed before it wraps. Characters past column 79 are not carried to the next row. The run wraps at most once, whatever its length (`SingleRunRender`).
- `diff_images` does not check that the two images have the same size. Pillow's difference covers only the region both images share. So two images of different sizes that agree on that region are reported as not differing (`DiffIgnoresSizeMismatch`).

## Model

| member | source | states |
|---|---|---|
| `Render.DigitRun` | helix_hl_diff/render.py:23 | the `\d+` of the pattern: the result is the length of the longest run of digits at the front |
| `Render.IsModeSeqShapes` | helix_hl_diff/render.py:23 | what the pattern matches: `ESC[?25l` and `ESC[?1049h` are mode sequences. `ESC[0m`, `ESC[25l` (no '?'), `ESC[?h` (no digits) and `ESC[?25m` (wrong final letter) are not |
| `Render.ModeSeqLen` | helix_hl_diff/render.py:23 | a nonzero result is the length of a whole `ESC[?<digits>h` or `ESC[?<digits>l` prefix |
| `Render.ModeSeqLenExact` | helix_hl_diff/render.py:23 | whenever a prefix is such a sequence, the matcher finds exactly that prefix |
| `Render.Strip` | helix_hl_diff/render.py:23-25 | the pre-pass never makes the text longer. Its behaviour at each position is pinned down by `StripDropsModeSeq` where a mode sequence starts and by `StripKeepsUnmatched` where none does |
| `Render.StripDropsModeSeq` | helix_hl_diff/render.py:23-25 | a mode sequence at the front is removed and the remainder is processed as if it were alone |
| `Render.StripKeepsPlainText` | helix_hl_diff/render.py:23-25 | text without an escape character passes through unchanged, in front of whatever the rest becomes |
| `Render.StripCopiesFrom` | helix_hl_diff/render.py:23-25 | each character of a stretch at none of whose positions a mode sequence starts is copied in order |
| `Render.StripKeepsUnmatched` | helix_hl_diff/render.py:23-25 | text at none of whose positions a mode sequence starts passes through unchanged, in front of whatever the rest becomes. Only what the pattern matches is removed |
| `Render.StripKeepsOtherEscapes` | helix_hl_diff/render.py:23-25 | every other escape sequence survives. Text in which each ESC is followed two characters on by something other than '?', such as any `ESC[...m` colour sequence, passes through unchanged |
| `Render.StripResetThenHideCursor` | helix_hl_diff/render.py:23-25 | `ESC[0m ESC[?25l` followed by anything becomes `ESC[0m` followed by the stripped rest: the reset stays and the mode sequence after it goes |
| `Render.StripIsSinglePass` | helix_hl_diff/render.py:25 | `ESC [ ESC[?1h ?1h` becomes `ESC[?1h`: removal is one pass, and a sequence formed by it stays |
| `Render.SinglePassShapes` | helix_hl_diff/render.py:23 | in `ESC [ ESC[?1h ?1h` no mode sequence starts at the first two characters, and the inner `ESC[?1h` is one |
| `Render.Step` | helix_hl_diff/render.py:50-88 | one instruction keeps col < COLS. The row stays or, on a text run only, rises by exactly 1. Styling instructions never move the cursor. Text runs never change the colours or the face |
| `Render.Initial` | helix_hl_diff/render.py:45-48 | the loop starts at row 0, column 0, white on black, in the regular face |
| `Render.Run` | helix_hl_diff/render.py:45-88 | the loop's state after a stream. A column on the grid stays on it, and the row never goes down |
| `Render.StylingInstructions` | helix_hl_diff/render.py:51-69 | a colour without payload resets fg to white or bg to black. A colour with payload sets exactly that channel. ITALIC and NOT_ITALIC set the face. Other attributes and unsupported instructions change nothing |
| `Render.TextRunWrap` | helix_hl_diff/render.py:85-88 | after a run of length L the column is col+L. Once that reaches COLS, it is column 0 of the next row instead |
| `Render.RunInvariant` | helix_hl_diff/render.py:45-88 | across any stream started on the grid, col < COLS holds throughout. The row never decreases and rises by at most the number of text runs |
| `Render.CellAt` | helix_hl_diff/render.py:71-84 | a cell is the sentinel exactly when no paint operation hits it |
| `Render.Paints` | helix_hl_diff/render.py:70-84 | only a text run paints. It paints one cell per character, character i at (row, col + i) in the current colours and face |
| `Render.PaintsHitDistinctCells` | helix_hl_diff/render.py:71-73 | no two characters of one run are aimed at the same cell |
| `Render.AllPaints` | helix_hl_diff/render.py:50-88 | every paint operation of a stream lies between the starting row and the loop's final row |
| `Render.RunSnoc` | helix_hl_diff/render.py:50-88 | one more instruction is one more Step, and its paint operations come after all earlier ones |
| `Render.RunFootprint` | helix_hl_diff/render.py:71-84 | a text run painted alone shows character i at (row, col + i) in the state's colours and face and leaves every other cell the sentinel |
| `Render.CellAtSnoc` | helix_hl_diff/render.py:74-84 | painting one more cell changes that cell and no other |
| `Render.CellAtLastHit` | helix_hl_diff/render.py:74-84 | the last operation aimed at a cell decides what it shows, whatever came earlier |
| `Render.CellBoxOnCanvas` | helix_hl_diff/render.py:38-42 | a cell's pixel rectangle starts on the 640 x 300 canvas exactly when the cell is inside the 20 x 80 grid |
| `Render.CellBox` | helix_hl_diff/render.py:72-75 | the corner tuple (col*CHR_WIDTH, row*CHR_HEIGHT, col*CHR_WIDTH + CHR_WIDTH, row*CHR_HEIGHT + CHR_HEIGHT) handed to `draw.rectangle`. Its origin divided by the cell size gives back (col, row) |
| `Render.Canvas.constructor` | helix_hl_diff/render.py:38-42 | the canvas is COLS*CHR_WIDTH x ROWS*CHR_HEIGHT pixels, and every cell is the magenta sentinel |
| `Render.Canvas.Paint` | helix_hl_diff/render.py:72-84 | filling one cell's rectangle and drawing its glyph sets that cell when it is on the canvas and leaves every other cell as it was |
| `Render.PaintText` | helix_hl_diff/render.py:71-84 | the inner loop paints character i of the run at (row, col+i), with the current colours and face, every position taken before the wrap |
| `Render.Render` | helix_hl_diff/render.py:19-90 | for the stripped, tokenised text, every cell shows the last paint operation of the whole stream aimed at it, or stays magenta if none is |
| `Render.NoTextNoPaint` | helix_hl_diff/render.py:51-69 | a stream with no text run paints nothing |
| `Render.TrailingStylingPaintsNothing` | helix_hl_diff/render.py:50-88 | styling instructions after the last text run add no paint operation |
| `Render.SingleRun` | helix_hl_diff/render.py:50-88 | a stream of one instruction is that instruction's Step and paint operations |
| `Render.SingleRunRender` | helix_hl_diff/render.py:45-88 | one run from the start shows its first 80 characters white on black in the regular face in row 0. The rest of row 0 and all other rows stay magenta. The cursor wraps once exactly when the run is 80 characters or longer |
| `Render.SingleRunShows` | helix_hl_diff/render.py:71-84 | a single run from the start shows its character c at (0, c) white on black, regular, for every c below both its length and COLS |
| `Render.SingleRunLeaves` | helix_hl_diff/render.py:71-84 | a single run from the start leaves every other cell of the grid the sentinel |
| `Render.RedHiPaints` | helix_hl_diff/render.py:45-88 | a red foreground then "Hi" paints exactly 'H' at (0,0) and 'i' at (0,1), red on black, regular |
| `Render.RedHiScenario` | helix_hl_diff/render.py:45-88 | whatever styling follows, cells (0,0) and (0,1) show red 'H' and 'i' on black, and columns 2..79 of row 0 stay the unpainted magenta sentinel |
| `ImageDiff.AbsDiff` | helix_hl_diff/img_ops.py:16 | each channel of the result is the distance between the two channels, and it is black exactly when the pixels are equal |
| `ImageDiff.Difference` | helix_hl_diff/img_ops.py:14-16 | the difference spans the region both images cover. At every pixel and channel it holds the distance between base and cmp, and it is black exactly when they agree there |
| `ImageDiff.FirstInk` | helix_hl_diff/img_compare.py:17 | the first row or column from `lo` with a non-black pixel, and none before it has one |
| `ImageDiff.EndInk` | helix_hl_diff/img_compare.py:17 | one past the last row or column with a non-black pixel, and none after it has one |
| `ImageDiff.GetBBox` | helix_hl_diff/img_compare.py:17 | the bounding box is absent exactly when the image is black all over |
| `ImageDiff.GetBBoxTight` | helix_hl_diff/img_compare.py:17-18 | a reported box is non-empty and inside the image. It holds every non-black pixel, and each of its four edges has one |
| `ImageDiff.DiffImages` | helix_hl_diff/img_ops.py:7-19 | the result is True exactly when some pixel of the common region differs. The image is present exactly when the flag is True, and it is then the full difference image |
| `ImageDiff.DiffSelf` | helix_hl_diff/img_compare.py:16-19 | diffing an image with itself gives (False, None) |
| `ImageDiff.DiffSymmetric` | helix_hl_diff/img_ops.py:16-19 | swapping the two images changes neither the flag nor the difference image |
| `ImageDiff.DiffDetectsInequality` | helix_hl_diff/img_compare.py:11-19 | for images of one size, the flag is True exactly when the images are not equal, in both directions |
| `ImageDiff.DiffIgnoresSizeMismatch` | helix_hl_diff/img_compare.py:14-19 | a 1x1 black image and a 2x1 black-then-white image are different but are reported as not differing |
| `ImgOps.MaxHeight` | helix_hl_diff/img_ops.py:23 | the height is at least every input's height and equals one of them |
| `ImgOps.SumWidths` | helix_hl_diff/img_ops.py:24 | the total width is at least the width of every input |
| `ImgOps.SumWidthsSnoc` | helix_hl_diff/img_ops.py:24-29 | adding an input adds its width, so after the loop `offset` is the total width |
| `ImgOps.SumWidthsSplit` | helix_hl_diff/img_ops.py:24-29 | the total width is the offset of input k, plus its width, plus the widths after it, so every input fits |
| `ImgOps.StackedPixelBeyond` | helix_hl_diff/img_ops.py:25 | columns right of all inputs keep the new image's black fill |
| `ImgOps.StackedPixelSnoc` | helix_hl_diff/img_ops.py:27-29 | pasting one more input at the running offset leaves earlier columns alone and places it there, black below its height |
| `ImgOps.StackPlacesInput` | helix_hl_diff/img_ops.py:26-29 | input k shows at x = the sum of the widths before it, y = 0, in input order. Below its own height its columns are black |
| `ImgOps.Paste` | helix_hl_diff/img_ops.py:28 | the image lands with its top-left corner at (x0, 0), clipped to the target. Nothing else changes |
| `ImgOps.StackImages` | helix_hl_diff/img_ops.py:22-30 | no images gives None, as max() raises. Otherwise a fresh image MaxHeight high and SumWidths wide showing StackedPixel at every pixel |
| `Archive.Ext` | helix_hl_diff/archive.py:12-17 | every extension starts with "." |
| `Archive.ExtInjective` | helix_hl_diff/archive.py:8-17 | two archive kinds have the same extension only if they are the same kind |
| `Archive.Extract` | helix_hl_diff/archive.py:20-25 | each call invokes exactly one extractor, the zip one exactly for ZIP |
| `Helix.ArchiveTypeFor` | helix_hl_diff/helix.py:11-15 | ZIP exactly when "windows" occurs somewhere in the target, TARBALL otherwise |
| `Helix.ReleaseArtifactName` | helix_hl_diff/helix.py:18-20 | the name starts with "helix-" and ends in ".zip" exactly when the target contains "windows" |
| `Helix.DownloadUrl` | helix_hl_diff/helix.py:29-32 | the URL starts with the releases prefix and ends with the artifact name, with just the version and "/" between them |
| `Helix.Contains` | helix_hl_diff/helix.py:12 | Python's `in` on strings: true exactly when the substring occurs at some offset |
| `Helix.WindowsTargetIsZip` | helix_hl_diff/helix.py:11-13 | a target with "windows" at any offset gets ZIP |
| `Helix.OtherTargetIsTarball` | helix_hl_diff/helix.py:14-15 | a target with "windows" at no offset gets TARBALL |
| `Helix.ArtifactNameLayout` | helix_hl_diff/helix.py:18-20 | the name is "helix-", the version, "-", the target and the archive kind's extension, in that order and nothing more |
| `Helix.ArtifactExtension` | helix_hl_diff/helix.py:18-20 | windows artifacts end in ".zip", all others in ".tar.gz" |
| `Helix.DownloadUrlLayout` | helix_hl_diff/helix.py:29-32 | the URL is the releases prefix, the version, "/" and then the artifact name |
| `Helix.ExtractorMatchesArtifact` | helix_hl_diff/helix.py:29-37 | the downloaded archive goes to the zip extractor exactly when its name ends in ".zip" |
| `Helix.DefaultArtifact` | helix_hl_diff/__main__.py:13-14 | an example: the default release and target give "helix-25.01.1-x86_64-windows.zip" |

## Left out

- Tokenising with `stransi` (render.py:26, 50) is a foreign library. `Render.Render` takes it as the function parameter `tokenize`. Every instruction kind the loop does not handle is the single `Unsupported` instruction.
- Font loading, glyph rasterisation and Pillow's pixels (render.py:28-37, 74-84) are modelled at cell level. A cell records its character, colours and face instead of pixels.
- `Render.Canvas.Paint`: Pillow's `draw.rectangle` includes its end points. It therefore fills 9 x 16 pixels, one column and one row more than the cell, and that edge is overwritten only if the neighbouring cell is painted too. The cell-level model does not capture this one-pixel overlap.
- `Render.Canvas.Paint`: glyphs that overhang their cell are not modelled.
- Colour conversion `int(rgb.red * 255)` (render.py:55, 61) is floating point. Colours are given as bytes.
- `Render.DigitRun`: counts only the ASCII digits 0-9. Python's `\d` in a `str` pattern also matches other Unicode decimal digits.
- File reading and writing (render.py:20, 90; img_ops.py:14-15), `Image.open(...).convert("RGB")`, and the `__main__` block of render.py are I/O. The images arrive as RGB grids.
- `Render.Render`: `text` stands for what `ansi_path.read_text()` returns, the decoded file with universal-newline translation applied ("\r\n" and "\r" both become "\n"). Decoding and that translation, which change run lengths and so columns, are not modelled.
- `ImgOps.StackImages`: assumes every input is an RGB image. Pillow's mode conversion during `paste` is not modelled.
- `download_helix`'s network access (helix.py:33-38) and the bodies of `_extract_zip` and `_extract_tarball` (archive.py:28-35) are I/O. Only the URL string and the choice of extractor are modelled.
- helix_hl_diff/__main__.py is process and directory plumbing and is not part of this model, except for its two default constants.
