/** The fixed layout of the Kairos badge and the arithmetic `process_image` does on it:
    where the circular photo goes, how the two-line name is centred, and what the output
    file is called. */
module Badge {
  import opened Strings

  /** Size of the placeholder template, and so of every badge made from it. */
  const TemplateWidth: nat := 1080
  const TemplateHeight: nat := 1920

  /** The photo circle of the compositor. (The placeholder's outlined circle, centred at
      (562, 697) with radius 144, is a different region and is not this one.) */
  const CircleCenterX: int := 562
  const CircleCenterY: int := 925
  const CircleRadius: nat := 288

  /** The point the name is centred on horizontally; its top edge is at `TextAnchorY`. */
  const TextAnchorX: int := 562
  const TextAnchorY: int := 1300

  /** Side of the square the photo is resized to and the mask is drawn on. */
  function CutoutSize(): (n: nat)
    ensures n == 576
    ensures n % 2 == 0 && n / 2 == CircleRadius
  {
    CircleRadius * 2
  }

  /** Top-left corner at which the cutout is pasted: the circle centre minus the radius. */
  function PasteOffset(): (o: (int, int))
    ensures o == (274, 637)
    ensures o.0 + CutoutSize() / 2 == CircleCenterX && o.1 + CutoutSize() / 2 == CircleCenterY
    ensures 0 <= o.0 && o.0 + CutoutSize() <= TemplateWidth
    ensures 0 <= o.1 && o.1 + CutoutSize() <= TemplateHeight
  {
    (CircleCenterX - CircleRadius, CircleCenterY - CircleRadius)
  }

  /** A glyph bounding box `(left, top, right, bottom)` as measured by the drawing library. */
  datatype BBox = BBox(left: int, top: int, right: int, bottom: int)
  {
    /** `bbox[2] - bbox[0]`: the horizontal extent, negative only for an inverted box. */
    function Width(): (w: int)
      ensures left + w == right
      ensures w >= 0 <==> left <= right
    {
      right - left
    }
  }

  /** Left edge of text of the given width: `anchor - width // 2`. Python's floor division
      by 2 agrees with Dafny's Euclidean one. The measured width is then split around the
      anchor, with the odd pixel (if any) on the right. Where the glyphs land also depends on
      the box's left bearing, which this does not account for. */
  function TextX(width: int): (x: int)
    ensures TextAnchorX - x == width / 2
    ensures 0 <= width - 2 * (TextAnchorX - x) <= 1
    ensures (x + width) - TextAnchorX - (TextAnchorX - x) == width % 2
  {
    TextAnchorX - width / 2
  }

  /** Where and what `process_image` draws as the name. */
  datatype TextPlacement = TextPlacement(x: int, y: int, text: string)

  /** The first and last names stacked on two lines, placed so that the measured box's
      width is split around the anchor. */
  function LayoutText(firstName: string, lastName: string, box: BBox): (p: TextPlacement)
    ensures p.y == TextAnchorY
    ensures 0 <= box.Width() - 2 * (TextAnchorX - p.x) <= 1
    ensures |p.text| == |firstName| + 1 + |lastName|
    ensures p.text[..|firstName|] == firstName && p.text[|firstName|] == '\n'
    ensures p.text[|firstName| + 1..] == lastName
  {
    TextPlacement(TextX(box.Width()), TextAnchorY, firstName + "\n" + lastName)
  }

  /** `kairos_<id>_<first>_<last>.png` */
  function OutputFilename(uniqueId: string, firstName: string, lastName: string): (name: string)
    ensures |name| == 7 + |uniqueId| + 1 + |firstName| + 1 + |lastName| + 4
    ensures name[..7] == "kairos_" && name[|name| - 4..] == ".png"
    ensures name[7..7 + |uniqueId|] == uniqueId && name[7 + |uniqueId|] == '_'
    ensures name[8 + |uniqueId|..8 + |uniqueId| + |firstName|] == firstName
    ensures name[8 + |uniqueId| + |firstName|] == '_'
    ensures name[9 + |uniqueId| + |firstName|..|name| - 4] == lastName
  {
    "kairos_" + uniqueId + "_" + firstName + "_" + lastName + ".png"
  }

  /** Two requests whose identifiers have the same length (the handler always uses eight
      characters) but differ never name the same output file, whatever the names. */
  lemma DistinctIdsDistinctFiles(id1: string, first1: string, last1: string,
                                 id2: string, first2: string, last2: string)
    requires |id1| == |id2| && id1 != id2
    ensures OutputFilename(id1, first1, last1) != OutputFilename(id2, first2, last2)
  {
  }

  /** The file name holds a path separator exactly when one of its parts does; the names
      are not sanitised. Such a name points into a subdirectory of the output folder that
      does not exist, so saving the badge fails. */
  lemma OutputFilenameSeparator(uniqueId: string, firstName: string, lastName: string)
    ensures '/' in OutputFilename(uniqueId, firstName, lastName) <==>
      '/' in uniqueId || '/' in firstName || '/' in lastName
  {
    var name := OutputFilename(uniqueId, firstName, lastName);
    assert name == "kairos_" + uniqueId + "_" + firstName + "_" + lastName + ".png";
    assert '/' !in "kairos_" && '/' !in "_" && '/' !in ".png";
  }
}
