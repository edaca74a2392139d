/** The libvips backend of the image library: the decision logic of `LibVipsImage`
    (crop validation and clamping, frame count and animation, the background-colour
    guard) and the converter edges that its `open` class method declares.

    The native `pyvips.Image` is abstracted to the few attributes that this logic
    reads: its size, whether it has an alpha channel and its `n-pages` metadata. */
module LibVips {
  import opened Wrappers

  // ---------------------------------------------------------------------------
  // Data model
  // ---------------------------------------------------------------------------

  /** The image representations that this backend names: the encoded image files
      it can open, and its own in-memory image. */
  datatype Representation =
    | JPEGImageFile | PNGImageFile | GIFImageFile | BMPImageFile | TIFFImageFile
    | WebPImageFile | HeicImageFile | AvifImageFile | IcoImageFile
    | LibVipsImage

  /** What `LibVipsImage` reads from its wrapped native image. */
  datatype VipsImage = VipsImage(width: nat, height: nat, hasAlpha: bool, nPages: Option<int>)

  /** A crop rectangle `(left, top, right, bottom)`, right and bottom exclusive. */
  datatype Rect = Rect(left: int, top: int, right: int, bottom: int)

  /** The arguments handed to the native crop: an origin and a size. */
  datatype Region = Region(left: int, top: int, width: int, height: int)

  /** The errors these operations raise. */
  datatype Error =
    | BadImageOperation(rect: Rect)   // "Invalid crop dimensions" for this rectangle
    | TypeError                        // the colour is not a 3-element tuple or list

  /** The colour argument of `set_background_color_rgb`, as the Python value it is. */
  datatype ColorArg = TupleArg(items: seq<int>) | ListArg(items: seq<int>) | OtherArg

  /** The image `set_background_color_rgb` returns: the receiver itself, or a new
      image wrapping the native flatten of `source` onto `background`. */
  datatype BackgroundResult = Itself(image: VipsImage) | Flattened(source: VipsImage, background: seq<int>)

  function Max(a: int, b: int): (m: int)
    ensures m >= a && m >= b && (m == a || m == b)
  {
    if a >= b then a else b
  }

  function Min(a: int, b: int): (m: int)
    ensures m <= a && m <= b && (m == a || m == b)
  {
    if a <= b then a else b
  }

  // ---------------------------------------------------------------------------
  // Geometry used to state what crop means
  // ---------------------------------------------------------------------------

  /** The rectangle has no pixel in one of its axes. */
  predicate IsEmpty(rect: Rect) {
    rect.left >= rect.right || rect.top >= rect.bottom
  }

  /** The rectangle lies entirely to one side of the image. */
  predicate IsOutside(rect: Rect, width: int, height: int) {
    rect.left >= width || rect.right <= 0 || rect.top >= height || rect.bottom <= 0
  }

  predicate InRect(rect: Rect, x: int, y: int) {
    rect.left <= x < rect.right && rect.top <= y < rect.bottom
  }

  predicate InImage(image: VipsImage, x: int, y: int) {
    0 <= x < image.width && 0 <= y < image.height
  }

  predicate InRegion(region: Region, x: int, y: int) {
    region.left <= x < region.left + region.width && region.top <= y < region.top + region.height
  }

  /** Reference definition: the part of the rectangle that overlaps the image box,
      as an origin and a size. */
  function Intersection(image: VipsImage, rect: Rect): Region {
    var left := Max(0, rect.left);
    var top := Max(0, rect.top);
    Region(left, top, Min(rect.right, image.width) - left, Min(rect.bottom, image.height) - top)
  }

  // ---------------------------------------------------------------------------
  // Operations
  // ---------------------------------------------------------------------------

  /** `LibVipsImage.crop`: rejects an empty rectangle or one outside the image, and
      otherwise clamps it to the image and yields the region given to the native crop. */
  function Crop(image: VipsImage, rect: Rect): (r: Result<Region, Error>)
    ensures r.Failure? ==> r.error == BadImageOperation(rect)
    ensures r.Success? ==>
      && 0 <= r.value.left && r.value.left + r.value.width <= image.width
      && 0 <= r.value.top && r.value.top + r.value.height <= image.height
  {
    if rect.left >= rect.right
      || rect.left >= image.width
      || rect.right <= 0
      || rect.top >= rect.bottom
      || rect.top >= image.height
      || rect.bottom <= 0
    then
      Failure(BadImageOperation(rect))
    else
      var left := Max(0, rect.left);
      var top := Max(0, rect.top);
      var cropWidth := if rect.right < image.width then rect.right - left else image.width - left;
      var cropHeight := if rect.bottom < image.height then rect.bottom - top else image.height - top;
      Success(Region(left, top, cropWidth, cropHeight))
  }

  /** `LibVipsImage.get_frame_count`: the `n-pages` metadata, or 1 when the native
      lookup of that field fails because it is missing. */
  function GetFrameCount(image: VipsImage): (count: int)
    ensures image.nPages.None? ==> count == 1
    ensures image.nPages.Some? ==> count == image.nPages.value
  {
    match image.nPages
    case Some(n) => n
    case None => 1
  }

  /** `LibVipsImage.has_animation`: more than one frame, so an image without
      `n-pages` metadata is never animated. */
  predicate HasAnimation(image: VipsImage): (animated: bool)
    ensures animated <==> image.nPages.Some? && image.nPages.value > 1
    ensures image.nPages.None? ==> !animated
  {
    GetFrameCount(image) > 1
  }

  /** The colour check of `set_background_color_rgb`: a tuple or a list of length 3. */
  predicate IsColorTriple(color: ColorArg) {
    (color.TupleArg? || color.ListArg?) && |color.items| == 3
  }

  /** `LibVipsImage.set_background_color_rgb`: an image without alpha is returned as
      it is; otherwise the colour is checked and the image flattened onto it. */
  function SetBackgroundColorRgb(image: VipsImage, color: ColorArg): (r: Result<BackgroundResult, Error>)
    ensures !image.hasAlpha ==> r == Success(Itself(image))
    ensures r.Failure? ==> r.error == TypeError
  {
    if !image.hasAlpha then
      Success(Itself(image))
    else if !(color.TupleArg? || color.ListArg?) || !(|color.items| == 3) then
      Failure(TypeError)
    else
      Success(Flattened(image, color.items))
  }

  // ---------------------------------------------------------------------------
  // Crop properties
  // ---------------------------------------------------------------------------

  /** Crop raises exactly for an empty rectangle or one outside the image. */
  lemma CropRejectsExactly(image: VipsImage, rect: Rect)
    ensures Crop(image, rect).Failure? <==> IsEmpty(rect) || IsOutside(rect, image.width, image.height)
  {
  }

  /** On an accepted rectangle the origin is the rectangle's, clamped to 0. */
  lemma CropClampsOrigin(image: VipsImage, rect: Rect)
    requires Crop(image, rect).Success?
    ensures Crop(image, rect).value.left == Max(0, rect.left) >= 0
    ensures Crop(image, rect).value.top == Max(0, rect.top) >= 0
  {
  }

  /** On an accepted rectangle of an image with at least one pixel, the region is
      not empty. */
  lemma CropIsNonEmpty(image: VipsImage, rect: Rect)
    requires image.width > 0 && image.height > 0
    requires Crop(image, rect).Success?
    ensures Crop(image, rect).value.width > 0 && Crop(image, rect).value.height > 0
  {
  }

  /** A rectangle that lies fully inside the image is cropped as it is. */
  lemma CropInsideIsUnchanged(image: VipsImage, rect: Rect)
    requires !IsEmpty(rect)
    requires 0 <= rect.left && rect.right <= image.width
    requires 0 <= rect.top && rect.bottom <= image.height
    ensures Crop(image, rect)
         == Success(Region(rect.left, rect.top, rect.right - rect.left, rect.bottom - rect.top))
  {
  }

  /** On an accepted rectangle the region is the overlap of the rectangle and the image. */
  lemma CropIsIntersection(image: VipsImage, rect: Rect)
    requires Crop(image, rect).Success?
    ensures Crop(image, rect).value == Intersection(image, rect)
  {
  }

  /** The overlap region holds exactly the pixels that lie in both the rectangle and
      the image. */
  lemma IntersectionContains(image: VipsImage, rect: Rect, x: int, y: int)
    ensures InRegion(Intersection(image, rect), x, y) <==> InRect(rect, x, y) && InImage(image, x, y)
  {
  }

  /** On an accepted rectangle the cropped region holds exactly the pixels of the
      image that the rectangle covers. */
  lemma CropKeepsCoveredPixels(image: VipsImage, rect: Rect)
    requires Crop(image, rect).Success?
    ensures forall x, y :: InRegion(Crop(image, rect).value, x, y) <==> InRect(rect, x, y) && InImage(image, x, y)
  {
  }

  /** For an image with at least one pixel, crop succeeds exactly when the rectangle
      covers some pixel of the image. */
  lemma CropSucceedsIffOverlap(image: VipsImage, rect: Rect)
    requires image.width > 0 && image.height > 0
    ensures Crop(image, rect).Success? <==> exists x, y :: InRect(rect, x, y) && InImage(image, x, y)
  {
    if Crop(image, rect).Success? {
      var x, y := Max(0, rect.left), Max(0, rect.top);
      assert InRect(rect, x, y) && InImage(image, x, y);
    } else {
      forall x, y | InRect(rect, x, y)
        ensures !InImage(image, x, y)
      {
      }
    }
  }

  // ---------------------------------------------------------------------------
  // Background properties
  // ---------------------------------------------------------------------------

  /** With an alpha channel the call succeeds exactly for a colour triple, and then
      flattens the receiver onto that colour. */
  lemma SetBackgroundWithAlpha(image: VipsImage, color: ColorArg)
    requires image.hasAlpha
    ensures SetBackgroundColorRgb(image, color).Success? <==> IsColorTriple(color)
    ensures IsColorTriple(color) ==>
      SetBackgroundColorRgb(image, color) == Success(Flattened(image, color.items))
  {
  }

  /** Without an alpha channel the colour is never inspected: any two colours,
      well-formed or not, give the same result. */
  lemma SetBackgroundIgnoresColorWithoutAlpha(image: VipsImage, c1: ColorArg, c2: ColorArg)
    requires !image.hasAlpha
    ensures SetBackgroundColorRgb(image, c1) == SetBackgroundColorRgb(image, c2)
  {
  }

  // ---------------------------------------------------------------------------
  // Converter edges declared by `open`
  // ---------------------------------------------------------------------------

  /** The callables this backend registers as converters. */
  datatype ConverterFn = Open

  /** A registered converter: a directed, costed edge between representations. */
  datatype ConverterEdge = ConverterEdge(source: Representation, target: Representation, cost: int, fn: ConverterFn)

  /** One `converter_from(source, cost=...)` decorator. */
  datatype ConverterFrom = ConverterFrom(source: Representation, cost: int)

  /** The decorator stack on `open`, top to bottom as written. */
  const OpenDecorators: seq<ConverterFrom> := [
    ConverterFrom(JPEGImageFile, 50),
    ConverterFrom(PNGImageFile, 50),
    ConverterFrom(GIFImageFile, 50),
    ConverterFrom(BMPImageFile, 50),
    ConverterFrom(TIFFImageFile, 50),
    ConverterFrom(WebPImageFile, 50),
    ConverterFrom(HeicImageFile, 50),
    ConverterFrom(AvifImageFile, 50),
    ConverterFrom(IcoImageFile, 50)
  ]

  /** The edges a decorator stack registers for one callable: Python applies stacked
      decorators from the bottom up, so the lowest decorator registers first. */
  function ApplyDecorators(decorators: seq<ConverterFrom>, target: Representation, fn: ConverterFn)
    : (edges: seq<ConverterEdge>)
    ensures |edges| == |decorators|
    ensures forall i :: 0 <= i < |edges| ==>
      edges[i] == ConverterEdge(decorators[|decorators| - 1 - i].source, target,
                                decorators[|decorators| - 1 - i].cost, fn)
  {
    if decorators == [] then []
    else
      var last := decorators[|decorators| - 1];
      [ConverterEdge(last.source, target, last.cost, fn)]
        + ApplyDecorators(decorators[..|decorators| - 1], target, fn)
  }

  /** The converter edges into `LibVipsImage`, in registration order. */
  function OpenEdges(): (edges: seq<ConverterEdge>)
    ensures |edges| == 9
    ensures forall e :: e in edges ==>
      ValidEdge(e) && e.target == LibVipsImage && e.cost == 50 && e.fn == Open
    ensures edges[0].source == IcoImageFile && edges[8].source == JPEGImageFile
  {
    ApplyDecorators(OpenDecorators, LibVipsImage, Open)
  }

  /** The rules a converter edge must satisfy: a non-negative cost and no self-loop. */
  predicate ValidEdge(edge: ConverterEdge) {
    edge.cost >= 0 && edge.source != edge.target
  }

  /** No two of the edges share a source, so there are no parallel edges. */
  lemma OpenSourcesDistinct()
    ensures forall i, j :: 0 <= i < j < |OpenEdges()| ==> OpenEdges()[i].source != OpenEdges()[j].source
  {
  }

  /** Every image-file type this module imports has an edge into `LibVipsImage`. */
  lemma OpenCoversEveryImageFile(source: Representation)
    requires source != LibVipsImage
    ensures exists e :: e in OpenEdges() && e.source == source
  {
    var edges := OpenEdges();
    var k := match source
      case JPEGImageFile => 0
      case PNGImageFile => 1
      case GIFImageFile => 2
      case BMPImageFile => 3
      case TIFFImageFile => 4
      case WebPImageFile => 5
      case HeicImageFile => 6
      case AvifImageFile => 7
      case IcoImageFile => 8
      case LibVipsImage => 0;
    assert edges[8 - k] in edges;
  }
}
