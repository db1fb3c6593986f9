# Report page to slide converter: a verified model

The program turns a scanned multi-page medical lab report (one report per
page) into a slide deck: one slide per page, showing the page's data table
cropped out of the page raster, under a title made of the test item and the
sampling date read from the page text. This project models its three pieces
of logic in Dafny and proves what they guarantee:

- **Content-band detector** (`ContentBand`, `content_band.dfy`). The page is
  a grid of grey levels 0..255. A fixed trim keeps rows `floor(16 % H)` up to
  `floor(95 % H)`. On the trimmed rows, three scans run. A top-down scan finds
  the first dark row, meaning more than 60 % of the width is below grey 153.
  A bottom-up scan finds the last dark row. An upward scan starting 3 rows
  above that finds the first row that is not pure white. The crop box is
  `(0, upper + 2, width, lower - 2)`. Each scan is a `while` loop with early
  exit over the grid (`FindUpperBound`, `FindLowerBlackBound`,
  `FindLowerBound`, with `CountDarkPixels` and `RowMin` per row). Each scan
  is proved equal to a specification function (`UpperBound`,
  `LowerBlackBound`, `LowerBound`), which is defined through a recursive scan
  (`FirstDarkFrom`, `LastDarkFrom`, `LastNonWhiteFrom`) whose contract
  characterises it. `ProcessImage` runs the trim and the three scans and is
  proved to return `CropBox` of the trimmed grid.
- **Metadata extraction** (`Metadata`, `metadata.dfy`). Two fixed patterns
  are written out as leftmost-match scanners. One is the timestamp
  `DDDD-DD-DD DD:DD`, of which the first 10 characters are kept. The other
  is the field `检验项目` ("test item") followed by `:` or `：`, whitespace,
  and a lazy capture up to a line break. Each falls back to a fixed
  placeholder: `采集时间未找到` for the date, `检验项目未找到` for the item.
  The slide title is `item + " " + date`.
- **Aspect-fit layout** (`Layout`, `layout.dfy`). The cropped picture is
  fitted to the 10 in × 6 in picture area, to its width or to its height
  depending on the aspect ratios. It is then centred, 1 in below the top for
  the title. This is computed in EMU over exact reals.
- **Slide assembly** (`Slides`, `slides.dfy`) combines the three for one
  page. A page whose crop box holds no rows yields an error instead of a
  slide.

`wrappers.dfy` holds `Option`/`Result`; `real_facts.dfy` holds one fact
about multiplying reals.

Three behaviours of the code are worth knowing. The model follows the code
in each:

- The comment at report_to_ppt_auto.py:61 says the non-white scan moves up
  two rows. The code subtracts 3 (`BorderSkip`).
- No inverted crop box is ruled out. `SingleSeparatorInvertsBox` shows a
  page with one separator line whose box comes out inverted.
- An all-white trimmed page is still cut. `AllWhiteCropBox` proves it is
  cut to rows `[2, h - 5)`.

## Model

| member | source | states |
|---|---|---|
| Metadata.FindStamp | report_to_ppt_auto.py:16-20 | returns the leftmost position at or after `from` where a `DDDD-DD-DD DD:DD` timestamp starts; returns nothing exactly when no such position exists |
| Metadata.ExtractDate | report_to_ppt_auto.py:16-23 | if a timestamp occurs, the date is the first 10 characters of the leftmost one; the result is the placeholder if and only if no timestamp occurs |
| Metadata.DateShape | report_to_ppt_auto.py:16-23 | a found date has the shape `DDDD-DD-DD` |
| Metadata.StampAt | report_to_ppt_auto.py:16 | a `DDDD-DD-DD DD:DD` timestamp starts at `i`: four digits, `-`, two digits, `-`, two digits, a space, two digits, `:`, two digits |
| Metadata.DateExample | report_to_ppt_auto.py:16-23 | for the line `采集时间: 2024-03-15 08:30 检验项目：血常规\n` the date is `2024-03-15` |
| Metadata.SpaceEnd | report_to_ppt_auto.py:17 | the greedy `\s*`: the returned position ends a run of whitespace starting at `p`, and is not followed by more whitespace |
| Metadata.NextNewline | report_to_ppt_auto.py:17 | the first line break at or after `p`, or none when no line break follows |
| Metadata.Capture | report_to_ppt_auto.py:17-24 | the captured group contains no line break and does not start with whitespace; with `q` the end of the whitespace run after the colon, it is empty exactly when no line break follows `q`, and otherwise it starts at `q` and ends right before a line break |
| Metadata.CaptureIsDetermined | report_to_ppt_auto.py:17-24 | any string meeting the contract of `Capture` is the group the pattern captures, so that contract fixes the group uniquely |
| Metadata.FieldAt | report_to_ppt_auto.py:17 | the field pattern matches at `i`: the marker `检验项目`, then `:` or `：`, then a line break somewhere after them |
| Metadata.FindField | report_to_ppt_auto.py:17-21 | returns the leftmost position at or after `from` where the marker, a colon and a later line break occur; returns nothing exactly when no such position exists |
| Metadata.ExtractLabel | report_to_ppt_auto.py:17-24 | if the field pattern matches, the item is the group captured at the leftmost match; otherwise it is the placeholder |
| Metadata.LabelExample | report_to_ppt_auto.py:17-24 | for the example line the item is `血常规` |
| Metadata.Title | report_to_ppt_auto.py:91 | the title is the item, then one space, then the date |
| Metadata.TitleWithoutMetadata | report_to_ppt_auto.py:23-24 | a text with neither field gets the two placeholders joined by a space as its title |
| ContentBand.DarkCount | report_to_ppt_auto.py:46 | the count of black pixels in a row is at most the row length |
| ContentBand.DarkCountIsCardinality | report_to_ppt_auto.py:46 | the accumulated count equals the number of positions whose pixel is below 153 |
| ContentBand.IsDark | report_to_ppt_auto.py:47 | a row is dark when five times its black-pixel count exceeds three times the width |
| ContentBand.DarkIsSixtyPercent | report_to_ppt_auto.py:47 | for a positive width, the integer test `5·count > 3·width` is exactly `count / width > 0.6` over exact reals |
| ContentBand.DarkRowIsNotWhite | report_to_ppt_auto.py:43-47 | a dark row holds a pixel below 153, so it is not pure white |
| ContentBand.WhiteRowIsNotDark | report_to_ppt_auto.py:43-47 | a pure white row has no black pixel and is never dark |
| ContentBand.TrimTop | report_to_ppt_auto.py:36 | the first kept row is `floor(16·H/100)` |
| ContentBand.TrimBottom | report_to_ppt_auto.py:36 | the end of the kept rows is `floor(95·H/100)`, between the first kept row and H |
| ContentBand.Trim | report_to_ppt_auto.py:35-36 | the trimmed grid is rows `TrimTop(H)` up to `TrimBottom(H)` of the page, unchanged and at full width |
| ContentBand.FirstDarkFrom | report_to_ppt_auto.py:44-49 | scanning down from `y`: the first dark row at or below `y` with no dark row before it, or 0 when none is dark |
| ContentBand.UpperBound | report_to_ppt_auto.py:42-49 | the top bound is the smallest dark row index and every earlier row is not dark; 0 when no row is dark |
| ContentBand.LastDarkFrom | report_to_ppt_auto.py:54-59 | scanning up from `y`: the last dark row at or above `y` with no dark row after it, or the grid height when none is dark |
| ContentBand.LowerBlackBound | report_to_ppt_auto.py:53-59 | the bottom separator is the largest dark row index and every later row is not dark; the grid height when no row is dark |
| ContentBand.UpperNotBelowLowerBlack | report_to_ppt_auto.py:42-59 | whenever some row is dark, the top bound is at most the bottom separator |
| ContentBand.LastNonWhiteFrom | report_to_ppt_auto.py:63-67 | scanning up from `y`: the last row at or above `y` that is not pure white, with only white rows after it up to `y`; the default when every scanned row is white |
| ContentBand.LowerBound | report_to_ppt_auto.py:62-67 | the content bottom is at most `lowerBlack - 3`; if a non-white row is scanned, it is the lowest non-white row at or above `lowerBlack - 3` and the rows between are all 255; otherwise it is `lowerBlack - 3` |
| ContentBand.CropBox | report_to_ppt_auto.py:70 | the box is full width, from `upper + 2` to `lower - 2`; it starts at row 2 or later and ends by row `h - 5`; it is non-inverted exactly when `upper + 4 <= lower` |
| ContentBand.LowerNotAboveUpper | report_to_ppt_auto.py:42-67 | when some row is dark and the upward scan starts at or below the top bound (`upper + 3 <= lowerBlack`), the content bottom is not above the top bound |
| ContentBand.AllWhiteCropBox | report_to_ppt_auto.py:42-70 | an all-white trimmed grid of height h gives the box `(0, 2, w, h - 5)` |
| ContentBand.SingleSeparatorInvertsBox | report_to_ppt_auto.py:42-70 | a six-row page with a single dark line at row 3 gets the inverted box `(0, 5, 1, -2)` |
| ContentBand.CountDarkPixels | report_to_ppt_auto.py:45-46 | the per-row accumulation loop returns `DarkCount(row)` |
| ContentBand.RowMin | report_to_ppt_auto.py:64-65 | returns the smallest pixel of a non-empty row; it is below 255 exactly when the row is not pure white |
| ContentBand.FindUpperBound | report_to_ppt_auto.py:42-49 | the top-down loop with early exit returns `UpperBound` |
| ContentBand.FindLowerBlackBound | report_to_ppt_auto.py:52-59 | the bottom-up loop with early exit returns `LowerBlackBound` |
| ContentBand.FindLowerBound | report_to_ppt_auto.py:62-67 | the upward loop reads only rows in `[0, h)` and returns `LowerBound` |
| ContentBand.ProcessImage | report_to_ppt_auto.py:34-72 | returns the trimmed grid and the crop box `CropBox(Trim(page), w)` |
| Layout.FitSize | report_to_ppt_auto.py:106-120 | the fitted size is at most 10 in × 6 in and keeps the picture's aspect ratio; the width is the slide width when the picture is relatively wider, otherwise the height is the slide height |
| Layout.Place | report_to_ppt_auto.py:122-124 | the picture is centred on the slide width with `left >= 0`, its top is `(6 in - height) / 2 + 1 in >= 1 in`, and its bottom is at most 7 in |
| Layout.PlaceScalesUniformly | report_to_ppt_auto.py:109-120 | width and height are scaled by the same factor |
| Slides.AssembleSlide | report_to_ppt_auto.py:140-149 | a page gives the title from its text, the crop box of its raster, and a picture of `w` by the box height placed by `Place`; the result is an error exactly when the box is empty or inverted |

## Left out

- PyMuPDF: opening the document, loading pages, `get_text()` and rendering
  at 300 dpi are foreign I/O. The model takes the page text as a string and
  the page raster as a grey grid.
- PIL: PNG decoding and the RGB to greyscale conversion are not modelled.
  The grid is given as greyscale. The crop itself is modelled only through
  the box coordinates. Pillow's own handling of boxes is not modelled:
  padding outside the image, and refusing an inverted box.
- Width zero: `IsGrid` requires a positive width, which the dark-row test
  needs. At width zero the source divides by zero at line 47 as soon as the
  trimmed grid has a row. When the trimmed grid has no row, every scan range
  is empty and no row is read.
- Floating point: `int(height * 0.16)` and `int(height * 0.95)` are modelled
  as `floor(16·H/100)` and `floor(95·H/100)`. A product rounded just below an
  integer by binary floating point is not modelled. The 60 % test uses the
  integer form. The layout uses exact reals, not float division.
- Pattern generality: `\d` is an ASCII digit. `\s` is space, tab, line
  feed, carriage return, vertical tab, form feed and U+3000. Python also
  accepts other Unicode digits and spaces.
- Slides.AssembleSlide: an inverted box is reported as the same error as an
  empty one. Which exception Pillow raises is not modelled.
- python-pptx: creating slides, text boxes, fonts and pictures, saving the
  deck, and the EMU `Length` type. Lengths are reals in EMU.
- The per-page loop of `process_pdf_to_ppt` and the directory scan and
  progress printing of `main`. These are I/O glue.
