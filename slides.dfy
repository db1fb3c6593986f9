/**
  One slide per report page: the title built from the page text, the crop
  box of the page's content band, and the placement of the cropped picture.
 */
module Slides {
  import opened Wrappers
  import Metadata
  import ContentBand
  import Layout

  /** What the slide writer is handed for one page. */
  datatype Slide = Slide(title: string, crop: ContentBand.Box, picture: Layout.Placement)

  /**
    Why a page yields no slide: its crop box holds no rows. An empty box
    leaves a picture of height zero, whose aspect ratio divides by zero; an
    inverted box is refused by the cropping itself.
   */
  datatype PageError = EmptyCrop(crop: ContentBand.Box)

  /**
    Builds the slide of one page from its text and its grey raster of width `w`.
    The title is the test item and the date joined by a space; the picture is
    the content band, `w` wide and as high as the crop box, fitted and centred
    on the slide. A page whose crop box is empty or inverted yields an error.
   */
  method AssembleSlide(text: string, page: seq<ContentBand.Row>, w: nat) returns (r: Result<Slide, PageError>)
    requires ContentBand.IsGrid(page, w)
    ensures var box := ContentBand.CropBox(ContentBand.Trim(page), w);
            if box.upper < box.lower
            then r == Ok(Slide(Metadata.Title(Metadata.ExtractLabel(text), Metadata.ExtractDate(text)), box, Layout.Place(w as real, (box.lower - box.upper) as real)))
            else r == Err(EmptyCrop(box))
  {
    var title := Metadata.Title(Metadata.ExtractLabel(text), Metadata.ExtractDate(text));
    var trimmed, box := ContentBand.ProcessImage(page, w);
    if box.upper < box.lower {
      var picture := Layout.Place((box.right - box.left) as real, (box.lower - box.upper) as real);
      r := Ok(Slide(title, box, picture));
    } else {
      r := Err(EmptyCrop(box));
    }
  }
}
