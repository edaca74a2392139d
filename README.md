# Willow's libvips backend, modelled in Dafny

Willow puts one image API in front of several backends. This project models the decision
logic of one of them, the libvips backend (`LibVipsImage`). The native `pyvips.Image` is
abstracted to what that logic reads from it: width, height, whether it has an alpha
channel, and its optional `n-pages` metadata (`LibVips.VipsImage`). Four things are modelled:

- **Crop** (`LibVips.Crop`). It rejects an empty rectangle, or one that lies wholly outside
  the image, with `BadImageOperation`. Otherwise it clamps the rectangle to the image and
  returns the origin and size given to the native crop. The lemmas prove three things. It
  rejects exactly those two cases. An accepted region is the overlap of the rectangle and
  the image box, holding exactly the pixels both cover. On an image with at least one pixel,
  crop succeeds exactly when that overlap is non-empty.
- **Frame count and animation** (`LibVips.GetFrameCount`, `LibVips.HasAnimation`). The
  frame count is the `n-pages` value, or 1 when that metadata is missing. An image is
  animated when it has more than one frame.
- **Background colour** (`LibVips.SetBackgroundColorRgb`). An image without alpha comes
  back as it is, whatever the colour. With alpha, the colour must be a 3-element tuple or
  list. If it is not, the call raises `TypeError`. If it is, the result is the flatten of
  the image onto that colour.
- **Converter edges of `open`** (`LibVips.OpenEdges`). Nine stacked `converter_from`
  decorators register one edge each, from an image-file representation to
  `LibVipsImage` at cost 50. Python applies stacked decorators from the bottom up, so the
  lowest decorator (`IcoImageFile`) registers first. The contract and lemmas prove that every
  edge has a non-negative cost and is not a self-loop. No two edges share a source. Every
  image-file type this module imports (willow/plugins/libvips.py:4-17) has an edge.

`crop` checks the rectangle before it clamps (willow/plugins/libvips.py:76-89). So on an
image of width or height 0, a crop can be accepted and give a zero-size region.
`LibVips.CropIsNonEmpty` therefore requires an image with at least one pixel.

## Model

| member | source | states |
|---|---|---|
| `LibVips.Crop` | willow/plugins/libvips.py:72-91 | a rejection carries `BadImageOperation` for the given rectangle; an accepted region starts at a non-negative origin and ends inside the image in both axes |
| `LibVips.CropRejectsExactly` | willow/plugins/libvips.py:76-84 | crop fails if and only if the rectangle is empty in an axis (`left >= right` or `top >= bottom`) or lies wholly outside the image (`left >= width`, `right <= 0`, `top >= height` or `bottom <= 0`) |
| `LibVips.CropClampsOrigin` | willow/plugins/libvips.py:86-87 | on success the origin is `max(0, left)`, `max(0, top)`, both non-negative |
| `LibVips.CropIsNonEmpty` | willow/plugins/libvips.py:86-89 | on success, for an image of positive width and height, the cropped width and height are positive |
| `LibVips.CropInsideIsUnchanged` | willow/plugins/libvips.py:86-89 | a non-empty rectangle wholly inside the image is cropped as `(left, top, right - left, bottom - top)`; clamping changes nothing |
| `LibVips.CropIsIntersection` | willow/plugins/libvips.py:86-89 | on success the region equals the overlap of the rectangle and the image box, clamped on both sides |
| `LibVips.CropKeepsCoveredPixels` | willow/plugins/libvips.py:72-91 | on success a pixel lies in the cropped region if and only if it lies in both the rectangle and the image |
| `LibVips.CropSucceedsIffOverlap` | willow/plugins/libvips.py:76-84 | on an image with at least one pixel, crop succeeds if and only if some pixel lies in both the rectangle and the image |
| `LibVips.GetFrameCount` | willow/plugins/libvips.py:52-57 | the frame count is the `n-pages` value when present and 1 when the metadata is missing |
| `LibVips.HasAnimation` | willow/plugins/libvips.py:53-65 | an image is animated if and only if `n-pages` is present and above 1, so an image without that metadata is never animated |
| `LibVips.SetBackgroundColorRgb` | willow/plugins/libvips.py:98-107 | an image without alpha is returned itself, whatever the colour; the only error the guard raises is `TypeError` |
| `LibVips.SetBackgroundWithAlpha` | willow/plugins/libvips.py:103-107 | with alpha the call succeeds if and only if the colour is a tuple or list of length 3, and then flattens the image onto exactly that colour |
| `LibVips.SetBackgroundIgnoresColorWithoutAlpha` | willow/plugins/libvips.py:99-101 | without alpha any two colours, malformed or not, give the same result: the colour is not validated |
| `LibVips.ApplyDecorators` | willow/plugins/libvips.py:214-224 | a stack of `converter_from` decorators registers one edge per decorator into the target, sharing one callable, the lowest decorator first |
| `LibVips.OpenEdges` | willow/plugins/libvips.py:214-224 | `open` registers nine edges, each into `LibVipsImage` at cost 50 with the `open` callable, each with a non-negative cost and no self-loop, `IcoImageFile` first and `JPEGImageFile` last |
| `LibVips.OpenSourcesDistinct` | willow/plugins/libvips.py:215-223 | no two edges of `open` share a source representation |
| `LibVips.OpenCoversEveryImageFile` | willow/plugins/libvips.py:215-223 | every image-file type this module imports (and decorates) has an edge of `open` into `LibVipsImage` |

## Left out

- The calls into the native library are not modelled. These are `thumbnail_image` (resize),
  `rotate`, `flatten`, `autorot`, `hasalpha`, `new_from_buffer` and `copy`. Their results
  appear only as fields of `VipsImage`, as the `Flattened` value, or as the returned crop
  region.
- `get_size`, `has_alpha` and `get_libvips_image` only read the native image. Here they are
  the fields of `VipsImage`.
- `save_as_jpeg`, `save_as_png`, `save_as_gif`, `save_as_webp`, `save_as_avif` and
  `save_as_ico` are left out. They write to a file object, call optimizers and pass flags
  through. None of that is decision logic.
- `get_icc_profile` and `get_exif_data` only read metadata.
- `is_format_supported` is left out. It calls `_wand_version`, which this module does not
  define.
- `check` is left out. It only reads `pyvips.Image`.
- The representation registry and the router that consume the converter edges are outside
  this model.
- `LibVips.Crop` models the rectangle coordinates as integers. Python would also accept
  floats, and the native crop's handling of those is not visible.
- The error message text ("Invalid crop dimensions: ...") is replaced by the rectangle that
  `BadImageOperation` carries.
- `LibVips.SetBackgroundColorRgb` models the colour's elements as integers. The source checks
  only the container type and its length, and never the element types.
- `LibVips.SetBackgroundColorRgb` does not model a failure of the native `flatten`
  (`pyvips.Error`). `TypeError` is the only error of the guard.
- `LibVips.Crop` does not model a failure of the native `crop` (`pyvips.Error`).
  `BadImageOperation` is the only error of the guard.
- `LibVips.GetFrameCount` returns `n-pages` as given. The native library's guarantee that the
  value is positive is not modelled.
