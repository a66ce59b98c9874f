/** `process_image`: the photo, already resized to the circle's bounding square, is cut
    out through a circular mask and pasted onto a copy of the template; the name is laid
    out below it; the result is named after the request.

    The mask is whatever the rasteriser of `draw.ellipse` covers, given as a parameter;
    `IdealDisk` is the disk that mask approximates, and the last lemmas state what the
    badge looks like under it. */
module Compositor {
  import opened Imaging
  import opened Badge
  import opened Wrappers

  /** The cutout before it is pasted: the photo's colours, opaque where the mask was
      filled and transparent elsewhere. */
  function CutoutGrid(photo: seq<seq<Rgba>>, covers: seq<seq<bool>>): (c: seq<seq<Rgba>>)
    requires IsGrid(photo, CutoutSize(), CutoutSize()) && IsGrid(covers, CutoutSize(), CutoutSize())
    ensures IsGrid(c, CutoutSize(), CutoutSize()) && BinaryAlpha(c)
    ensures forall y, x :: 0 <= y < CutoutSize() && 0 <= x < CutoutSize() ==>
      c[y][x] == photo[y][x].(alpha := if covers[y][x] then 255 else 0)
  {
    var n := CutoutSize();
    var mask := FillGrid(NewGrid(n, n, 0), covers, 255);
    var canvas := PasteGrid(NewGrid(n, n, Transparent), photo, 0, 0);
    PasteWholeGrid(NewGrid(n, n, Transparent), photo);
    WithAlphaGrid(canvas, mask)
  }

  /** The composited badge (before the text is drawn on it). */
  function BadgeGrid(template: seq<seq<Rgba>>, photo: seq<seq<Rgba>>, covers: seq<seq<bool>>): (b: seq<seq<Rgba>>)
    requires Rect(template)
    requires IsGrid(photo, CutoutSize(), CutoutSize()) && IsGrid(covers, CutoutSize(), CutoutSize())
    ensures IsGrid(b, |template|, Width(template))
  {
    AlphaPasteGrid(template, CutoutGrid(photo, covers), PasteOffset().0, PasteOffset().1)
  }

  /** Pixel by pixel: inside the pasted square, where the mask is filled, the badge shows
      the photo (made opaque); everywhere else it shows the template. */
  lemma BadgePixel(template: seq<seq<Rgba>>, photo: seq<seq<Rgba>>, covers: seq<seq<bool>>, y: nat, x: nat)
    requires Rect(template) && y < |template| && x < Width(template)
    requires IsGrid(photo, CutoutSize(), CutoutSize()) && IsGrid(covers, CutoutSize(), CutoutSize())
    ensures BadgeGrid(template, photo, covers)[y][x] ==
      if Covers(CutoutSize(), CutoutSize(), 274, 637, y, x) && covers[y - 637][x - 274]
      then photo[y - 637][x - 274].(alpha := 255)
      else template[y][x]
  {
    var c := CutoutGrid(photo, covers);
    AlphaPastePixel(template, c, 274, 637, y, x);
  }

  /** On a template of the placeholder's size nothing of the square is clipped: every
      masked photo pixel lands at its offset position. */
  lemma NothingClipped(template: seq<seq<Rgba>>, photo: seq<seq<Rgba>>, covers: seq<seq<bool>>, i: nat, j: nat)
    requires IsGrid(template, TemplateHeight, TemplateWidth)
    requires IsGrid(photo, CutoutSize(), CutoutSize()) && IsGrid(covers, CutoutSize(), CutoutSize())
    requires i < CutoutSize() && j < CutoutSize() && covers[i][j]
    ensures 637 + i < |template| && 274 + j < Width(template)
    ensures BadgeGrid(template, photo, covers)[637 + i][274 + j] == photo[i][j].(alpha := 255)
  {
    BadgePixel(template, photo, covers, 637 + i, 274 + j);
  }

  /** The ideal disk the mask approximates: the centre of pixel `(x, y)` of the square
      lies within the circle's radius of the square's centre (doubled to stay integral). */
  predicate InIdealDisk(y: int, x: int)
  {
    var dx := 2 * x + 1 - CutoutSize();
    var dy := 2 * y + 1 - CutoutSize();
    dx * dx + dy * dy <= CutoutSize() * CutoutSize()
  }

  function IdealDisk(): (d: seq<seq<bool>>)
    ensures IsGrid(d, CutoutSize(), CutoutSize())
    ensures forall y, x :: 0 <= y < CutoutSize() && 0 <= x < CutoutSize() ==> d[y][x] == InIdealDisk(y, x)
  {
    seq(CutoutSize(), y requires 0 <= y < CutoutSize() =>
      seq(CutoutSize(), x requires 0 <= x < CutoutSize() => InIdealDisk(y, x)))
  }

  /** Under the ideal disk the badge shows the photo exactly on the disk of radius 288
      centred at (562, 925), and the template everywhere else. */
  lemma BadgeWithIdealDisk(template: seq<seq<Rgba>>, photo: seq<seq<Rgba>>, y: nat, x: nat)
    requires Rect(template) && y < |template| && x < Width(template)
    requires IsGrid(photo, CutoutSize(), CutoutSize())
    ensures BadgeGrid(template, photo, IdealDisk())[y][x] ==
      if Covers(CutoutSize(), CutoutSize(), 274, 637, y, x) && InIdealDisk(y - 637, x - 274)
      then photo[y - 637][x - 274].(alpha := 255)
      else template[y][x]
  {
    BadgePixel(template, photo, IdealDisk(), y, x);
  }

  /** The pixel at the circle's centre comes from the photo, not the template. */
  lemma CentreFromPhoto(template: seq<seq<Rgba>>, photo: seq<seq<Rgba>>)
    requires IsGrid(template, TemplateHeight, TemplateWidth)
    requires IsGrid(photo, CutoutSize(), CutoutSize())
    ensures BadgeGrid(template, photo, IdealDisk())[CircleCenterY][CircleCenterX] == photo[288][288].(alpha := 255)
  {
    assert InIdealDisk(288, 288);
    BadgeWithIdealDisk(template, photo, 925, 562);
  }

  /** The four corners of the pasted square lie outside the disk and keep the template. */
  lemma CornersKeepTemplate(template: seq<seq<Rgba>>, photo: seq<seq<Rgba>>)
    requires IsGrid(template, TemplateHeight, TemplateWidth)
    requires IsGrid(photo, CutoutSize(), CutoutSize())
    ensures var b := BadgeGrid(template, photo, IdealDisk());
      b[637][274] == template[637][274] && b[637][849] == template[637][849] &&
      b[1212][274] == template[1212][274] && b[1212][849] == template[1212][849]
  {
    assert !InIdealDisk(0, 0) && !InIdealDisk(0, 575) && !InIdealDisk(575, 0) && !InIdealDisk(575, 575);
    BadgeWithIdealDisk(template, photo, 637, 274);
    BadgeWithIdealDisk(template, photo, 637, 849);
    BadgeWithIdealDisk(template, photo, 1212, 274);
    BadgeWithIdealDisk(template, photo, 1212, 849);
  }

  // ---------------------------------------------------------------------------------
  // The steps of process_image on arrays

  /** `create_placeholder_template`: a black canvas of 1080 x 1920. The bands, the outlined
      circle and the texts drawn onto it are not modelled, so only its size is promised. */
  method CreatePlaceholderTemplate() returns (img: array2<Rgba>)
    ensures fresh(img) && img.Length0 == TemplateHeight && img.Length1 == TemplateWidth
  {
    img := NewImage(TemplateHeight, TemplateWidth, Black);
  }

  /** The stored template when there is one; otherwise a freshly made placeholder. */
  method LoadTemplate(stored: Option<array2<Rgba>>) returns (template: array2<Rgba>)
    ensures stored.Some? ==> template == stored.value
    ensures stored.None? ==>
      fresh(template) && template.Length0 == TemplateHeight && template.Length1 == TemplateWidth
  {
    if stored.Some? {
      template := stored.value;
    } else {
      template := CreatePlaceholderTemplate();
    }
  }

  /** The image steps of `process_image`: copy the template, draw the mask, put the photo on
      a transparent canvas, give it the mask as alpha, paste it through that alpha at the
      offset. The template and the photo are left as they were. */
  method ComposeBadge(template: array2<Rgba>, photo: array2<Rgba>, covers: seq<seq<bool>>)
    returns (result: array2<Rgba>)
    requires photo.Length0 == CutoutSize() && photo.Length1 == CutoutSize()
    requires IsGrid(covers, CutoutSize(), CutoutSize())
    ensures fresh(result) && result.Length0 == template.Length0 && result.Length1 == template.Length1
    ensures Grid(result) == BadgeGrid(Grid(template), Grid(photo), covers)
  {
    var n := CutoutSize();
    result := CopyImage(template);
    var mask := NewImage(n, n, 0 as byte);
    FillShape(mask, covers, 255);
    var cutout := NewImage(n, n, Transparent);
    Paste(cutout, photo, 0, 0);
    PutAlpha(cutout, mask);
    assert Grid(cutout) == CutoutGrid(Grid(photo), covers);
    var (ox, oy) := PasteOffset();
    PasteWithAlpha(result, cutout, ox, oy);
  }

  /** `process_image` for names that are already upper-cased: the composited badge, the
      name's placement for the text measured as `textBox`, and the output file name.
      `template` is the picture the badge was composited on. */
  method ProcessImage(stored: Option<array2<Rgba>>, photo: array2<Rgba>, covers: seq<seq<bool>>,
                      firstName: string, lastName: string, uniqueId: string, textBox: BBox)
    returns (badge: array2<Rgba>, text: TextPlacement, filename: string, ghost template: seq<seq<Rgba>>)
    requires photo.Length0 == CutoutSize() && photo.Length1 == CutoutSize()
    requires IsGrid(covers, CutoutSize(), CutoutSize())
    ensures fresh(badge)
    ensures Rect(template) && Grid(badge) == BadgeGrid(template, Grid(photo), covers)
    ensures stored.Some? ==> template == Grid(stored.value)
    ensures stored.None? ==> IsGrid(template, TemplateHeight, TemplateWidth)
    ensures text == LayoutText(firstName, lastName, textBox)
    ensures filename == OutputFilename(uniqueId, firstName, lastName)
  {
    var t := LoadTemplate(stored);
    template := Grid(t);
    badge := ComposeBadge(t, photo, covers);
    text := LayoutText(firstName, lastName, textBox);
    filename := OutputFilename(uniqueId, firstName, lastName);
  }
}
