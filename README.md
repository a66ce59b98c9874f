# Kairos badge creator — a verified model of its core

The badge creator is a small Flask service. It takes an uploaded photo and a first and last name. It cuts the photo into a circle, pastes it onto a fixed 1080 × 1920 template, writes the upper-cased name below it in gold, and saves the result as `kairos_<id>_<FIRST>_<LAST>.png`. This project models in Dafny the parts of `app.py` that decide or compute something:

- **Upload validation** (`Upload`): `allowed_file`. A name is accepted when it has a dot and the text after its *last* dot, lower-cased, is `png`, `jpg`, `jpeg` or `gif`.
- **Request handling** (`Request`): the `/generate` handler.
  - It reads the form fields, defaulting each to the empty string, and upper-cases them.
  - It refuses the request in a fixed order: no `image` part, then an empty file name, then a disallowed extension. Each refusal is a 400.
  - Otherwise it processes the request. The response is a 500 carrying the exception's message, or a success naming the badge file.
- **Badge layout** (`Badge`): the constants of `process_image`.
  - The circle is centred at (562, 925) with radius 288, so the paste offset is (274, 637) and the cutout is 576 × 576.
  - The text starts at `x = 562 - width // 2`, `y = 1300`.
  - The output file name is built from the identifier and both names.
- **Compositing** (`Imaging`, `Compositor`): the image steps of `process_image`, as methods over 2D pixel arrays.
  - They copy the template, draw the mask on a transparent canvas, and paste the photo onto a blank RGBA canvas.
  - `putalpha` gives that canvas the mask as alpha.
  - The cutout is then pasted into the copy through its own alpha.
  - Each method is proved against a pure function on grids. The properties of the badge are lemmas about those functions: outside the mask the template is kept, inside it the photo shows, the size is unchanged, and nothing is clipped on a 1080 × 1920 template.
  - `Compositor.ProcessImage` ties the pipeline together, including the choice between the stored template and a freshly made 1080 × 1920 placeholder.
- **Helpers** (`Strings`, `Wrappers`): `Strings` holds the string operations the rest relies on, namely ASCII case mapping and "after the last separator", which is `rsplit(sep, 1)[1]` and `os.path.basename`. `Wrappers` holds an `Option` type.

Two points of the code's behaviour are worth stating directly:
- The code puts the upper-cased names into the output file name unchanged (app.py:151). `Badge.OutputFilenameSeparator` shows that a `/` in a name puts a `/` in the file name. Joined to `generated`, such a name points into a subdirectory `generated/kairos_<id>_…` that is never created, since the identifier is fresh (app.py:58) and only the three top folders exist (app.py:21-24). So `result.save` raises and the handler answers 500 (app.py:79-81). In the model, that 500 arrives through the `failure` parameter of `Request.GenerateImage`.
- `file and allowed_file(file.filename)` tests the file part's truthiness, which is its file name being non-empty. At that point the name is already known to be non-empty, so the model tests `allowed_file` alone.

## Model

| member | source | states |
|---|---|---|
| `Strings.Upper` | app.py:44-45 | keeps the length; each lower-case ASCII letter becomes the capital at the same place in the alphabet, and every other character is kept |
| `Strings.Lower` | app.py:30 | keeps the length; each upper-case ASCII letter becomes the small letter at the same place in the alphabet, and every other character is kept |
| `Strings.LastIndexOf` | app.py:30 | the index of the last separator, or -1 exactly when there is none; nothing after it is a separator |
| `Strings.AfterLast` | app.py:30 | `rsplit(sep, 1)[1]`: a separator-free suffix such that the string is prefix + separator + suffix |
| `Strings.LastIndexOfSplit` | app.py:30 | in `p + sep + n` with no separator in `n`, the last separator is the one between them and the suffix is `n` |
| `Strings.UpperExample` | app.py:44-45 | `"ada"` upper-cases to `"ADA"` |
| `Strings.UpperIsUpper` | app.py:44-45 | `Upper` keeps the length, leaves no lower-case ASCII letter and is idempotent |
| `Strings.LowerOfUpper` | app.py:30 | lower-casing after upper-casing equals lower-casing |
| `Strings.CaseMappingAfterLast` | app.py:30 | case mapping commutes with taking the text after the last separator |
| `Upload.AllowedFile` | app.py:28-30 | a name without a dot is refused; an accepted name has a dot and an extension of three or four characters (`Upload.AllowedFileIff` gives the decision in full: accepted iff the lower-cased text after the last dot is png, jpg, jpeg or gif) |
| `Upload.Extension` | app.py:30 | the extension is dot-free and the name is stem + "." + extension |
| `Upload.AllowedFileIff` | app.py:26-30 | accepted iff some dot splits the name into a stem and a dot-free extension whose lower case is png, jpg, jpeg or gif (both directions) |
| `Upload.NoDotRefused` | app.py:29 | a name with no dot is refused |
| `Upload.AllowedFileIgnoresCase` | app.py:30 | under ASCII case mapping, upper- or lower-casing the whole name does not change the decision |
| `Upload.AllowedWithExtension` | app.py:26-30 | `stem + "." + ext` with a dot-free `ext` is accepted iff `ext` lower-cased is allowed, whatever dots the stem holds |
| `Upload.ExampleMultipleDots` | app.py:30 | `a.b.PNG` is accepted |
| `Upload.ExampleInnerExtension` | app.py:30 | `photo.png.txt` is refused |
| `Upload.ExampleTrailingDot` | app.py:29-30 | `photo.` (empty extension) is refused |
| `Badge.CutoutSize` | app.py:103-109 | the resize, mask and cutout square is 2r = 576 |
| `Badge.PasteOffset` | app.py:102-121 | the offset is (274, 637); the square is centred on the circle centre and lies inside 1080 × 1920 |
| `Badge.BBox.Width` | app.py:140 | `bbox[2] - bbox[0]`: left plus width is right, and the width is non-negative iff the box is not inverted |
| `Badge.TextX` | app.py:140-144 | `562 - width // 2`: the measured width is split around x = 562, with the odd pixel on the right |
| `Badge.LayoutText` | app.py:135-145 | y = 1300, an x that splits the measured box's width around 562, and the text is the first name, a newline, then the last name |
| `Badge.OutputFilename` | app.py:151 | exactly `kairos_`, the identifier, `_`, the first name, `_`, the last name, then `.png`, each part located at its offset; its length is the parts' lengths plus 13 |
| `Badge.DistinctIdsDistinctFiles` | app.py:151 | different identifiers of equal length never share an output file, whatever the names |
| `Badge.OutputFilenameSeparator` | app.py:151-152 | the file name holds `/` iff the identifier or a name does (names are not sanitised) |
| `Imaging.NewGrid` | app.py:109 | `Image.new`: a height × width grid with every pixel equal to the fill |
| `Imaging.Mix` | app.py:119-121 | one channel of a masked paste: mask 0 keeps the destination, 255 gives the source |
| `Imaging.Over` | app.py:119-121 | a source pixel with alpha 0 leaves the destination, with alpha 255 replaces it |
| `Imaging.PasteGrid` | app.py:115 | an unmasked paste keeps the target's dimensions |
| `Imaging.AlphaPasteGrid` | app.py:119-121 | a paste through the source's alpha keeps the target's dimensions |
| `Imaging.WithAlphaGrid` | app.py:116 | `putalpha` keeps the image's dimensions |
| `Imaging.FillGrid` | app.py:111 | a filled shape keeps the mask's dimensions |
| `Imaging.AlphaPastePixel` | app.py:119-121 | outside the box, or where the source's alpha is 0, the target is unchanged; where it is 255 the target shows the source |
| `Imaging.AlphaPasteIdempotent` | app.py:119-121 | with alpha only 0 or 255 the paste is a plain replacement: pasting the cutout twice at the same place is pasting it once |
| `Imaging.PasteWholeGrid` | app.py:114-115 | pasting a same-size image at (0, 0) replaces every pixel |
| `Imaging.NewImage` | app.py:109-114 | a fresh array of the given size holding the filled grid |
| `Imaging.CopyImage` | app.py:98 | `template.copy()`: a fresh array with the same pixels |
| `Imaging.FillShape` | app.py:110-111 | the mask array afterwards is `FillGrid` of its old contents |
| `Imaging.PutAlpha` | app.py:116 | the image array afterwards is `WithAlphaGrid` of its old contents and the mask |
| `Imaging.Paste` | app.py:115 | loops over the clipped box; the target afterwards is `PasteGrid` of its old contents |
| `Imaging.PasteWithAlpha` | app.py:119-121 | loops over the clipped box; the target afterwards is `AlphaPasteGrid` of its old contents |
| `Compositor.CutoutGrid` | app.py:106-116 | the cutout is 576 × 576, has the photo's colours, and is opaque exactly where the mask was filled |
| `Compositor.BadgeGrid` | app.py:98-121 | the badge has the template's dimensions |
| `Compositor.BadgePixel` | app.py:102-121 | every badge pixel is the opaque photo pixel where the offset square's mask is filled, and the template pixel everywhere else |
| `Compositor.NothingClipped` | app.py:102-121 | on a 1080 × 1920 template every masked photo pixel lands at offset (274, 637) |
| `Compositor.IdealDisk` | app.py:111 | the ideal disk of radius 288, as a 576 × 576 coverage grid |
| `Compositor.BadgeWithIdealDisk` | app.py:108-121 | under the ideal disk the photo shows exactly on the disk centred at (562, 925), and the template elsewhere |
| `Compositor.CentreFromPhoto` | app.py:102-121 | the pixel at the circle centre comes from the photo |
| `Compositor.CornersKeepTemplate` | app.py:108-121 | the four corners of the pasted square keep the template's pixels |
| `Compositor.CreatePlaceholderTemplate` | app.py:157-160 | the placeholder is a fresh 1080 × 1920 image |
| `Compositor.LoadTemplate` | app.py:87-94 | the stored template if there is one, otherwise a fresh 1080 × 1920 placeholder |
| `Compositor.ComposeBadge` | app.py:97-121 | the result is a fresh array of the template's size holding `BadgeGrid` of the template, the photo and the mask |
| `Compositor.ProcessImage` | app.py:83-155 | the badge is `BadgeGrid` of the template used (stored, or 1080 × 1920), along with the text layout and the output file name |
| `Request.FormValue` | app.py:44-45 | `request.form.get(key, '')`: the field's value when present, otherwise the empty string |
| `Request.Classify` | app.py:44-77 | refusals in order: no `image` part, then an empty file name, then a disallowed extension; it proceeds iff the part exists and `allowed_file` holds, with the names upper-cased and defaulting to "" |
| `Request.OutputPath` | app.py:152 | `os.path.join('generated', name)`: the folder, one `/`, then the name unchanged |
| `Request.Basename` | app.py:72-74 | the basename holds no `/` |
| `Request.GenerateImage` | app.py:41-81 | status 400 iff refused, with the refusal message; 500 with the exception message when processing raises; 200 iff it proceeds and processing succeeds |
| `Request.BasenameOfOutputPath` | app.py:72-74 | the basename of `generated/<name>` is `<name>` when the name has no `/` |
| `Request.RefusalPrecedesProcessing` | app.py:48-77 | a request whose image is missing or not allowed gets a 400 that depends neither on processing nor on the identifier |
| `Request.SuccessNamesBadge` | app.py:64-75 | on success with `/`-free parts, the response's file name is `kairos_<id>_<FIRST>_<LAST>.png` and the URL is `/download/` + that name |
| `Request.NamesUpperCased` | app.py:44-45 | the names passed on hold no lower-case ASCII letter |
| `Request.TextFileRefused` | app.py:56-77 | a `.txt` upload is refused as "Invalid file type" |

## Left out

- HTTP and Flask glue: the routes, `render_template`, `jsonify` as such, CORS, the download endpoints and their 404, and the 16 MiB upload limit (app.py:11-15, 32-38, 191-207). The framework raises its error for an oversized body at the first `request.form` access (app.py:44), inside the handler's `try`, so the handler answers 500 with that error's text (app.py:79-81) before any of the modelled checks.
- File-system I/O: creating the folders, saving the upload, the template-exists check, opening and saving images, and reading the badge back. Whether the stored template exists is the `stored` parameter of `Compositor.ProcessImage`. Any exception raised while processing is the `failure` parameter of `Request.GenerateImage`.
- `uuid.uuid4`, `secure_filename` and the base64 preview are library calls. The identifier is a parameter. The preview field of the response is not modelled.
- LANCZOS resizing is floating-point resampling. The photo is given already resized to 576 × 576 and converted to RGBA. The stretching to a square, which does not keep the aspect ratio, is therefore not modelled either.
- Rasterising `draw.ellipse` is library behaviour. The mask's coverage is the `covers` parameter, and `Compositor.IdealDisk` is the disk it approximates.
- Fonts, glyph measurement and text rendering: font loading and its fallback, `textbbox` and `draw.text`. The measured box is the `textBox` parameter, and the text is laid out but not drawn into the pixel grid. The text height is computed by the source but never used. Since nothing is drawn, the golden colour (212, 175, 55) of app.py:148 is not modelled either.
- The placeholder's drawing: the bands, the outlined circle at (562, 697) with radius 144, and the title texts. Only its 1080 × 1920 size is promised.
- The `print` of an error to the console.
- gunicorn.conf.py holds only deployment settings and has no logic.
- Strings.Upper: ASCII letters only. Python's Unicode case mapping, such as 'ß' → 'SS' or 'ı' → 'I', is not modelled.
- Strings.UpperIsUpper: the length is kept only under ASCII case mapping; Python's `'ß'.upper()` is `'SS'`.
- Upload.AllowedFileIgnoresCase: the upper-casing half holds only for ASCII case mapping. Under Python's, `x.gıf` is refused while its upper case `X.GIF` is accepted. The source never upper-cases a file name, so no decision of the program depends on this half.
- Request.GenerateImage: the `failure` parameter is not tied to the names. In the source a `/` in a name always makes the save fail, giving a 500; the model reaches that answer only when `failure` says so, and otherwise reports the basename of the file name.
- Strings.Lower: ASCII letters only. For the lower-casing in the extension check this changes no decision, since no other character lower-cases to a single letter of `png`, `jpg`, `jpeg` or `gif`.
- Imaging.Mix: for alpha strictly between 0 and 255 a linear blend is used, and PIL's exact rounding is not claimed. The mask the badge uses is only ever 0 or 255 (`Compositor.CutoutGrid`).
- Imaging.Paste: requires that source and target are different arrays. The source never pastes an image into itself.
- Imaging.PasteWithAlpha: requires that source and target are different arrays, for the same reason.
- Image modes: an RGB template is modelled as RGBA with alpha 255 everywhere. No other mode conversion is modelled.
