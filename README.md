# Grayscale image processor: a Dafny model

The program converts a list of image files to grayscale, one concurrent task
per file, and reports one status line per file. This project models the two
pieces of logic in `main.go` that can be stated and proved:

- **The grayscale transform** (`applyGrayscale`). It allocates a gray buffer
  with the source image's bounds. A nested row-by-row, column-by-column loop
  starts at `bounds.Min`, which need not be (0, 0). For every pixel it stores
  the converted source colour. `Grayscale.ApplyGrayscale` is an imperative
  method with these loops. It fills an `Images.GrayImage`, which is a class
  over an `array2` that stands for Go's `*image.Gray`. The conversion
  `color.GrayModel.Convert` is a function parameter, because its luma weights
  are library code. The source image is a value (`Images.Image`): a bounding
  rectangle and an `at` function. A value cannot change, and the method has
  no `modifies` clause, so the input is only read.
- **The per-file decision** (`processImage`). `Pipeline.ProcessImage` is a
  pure function. Its inputs are the input path and what each library call
  returned (open, decode, create, the extension, encode). It returns the
  status message and the steps that were started. Each early return in the
  source is one branch. A second definition, `RunChecks`, describes "run the
  steps in order and stop at the first failure" for any list of steps. The
  lemmas prove that `ProcessImage` is exactly that run of the task's steps.
  They also prove when the task reports success, that every message names
  the path, and that the extension is checked only after the output file
  exists.

Files: `wrappers.dfy` (Option), `images.dfy` (points, rectangles, gray
colour, source image, gray buffer), `grayscale.dfy` (the transform),
`pipeline.dfy` (the per-file decision).

`main.go` registers only the PNG and JPEG decoders (main.go:7-10), so a
file holding GIF bytes fails at `image.Decode`. A file named `.gif` whose
bytes decode as PNG or JPEG reaches the extension switch and fails as
unsupported. The decode outcome is an input (`Outcomes.decode`).

## Model

| member | source | states |
|---|---|---|
| Images.Rectangle.Width | main.go:23 | The column count is positive exactly when `Min.X < Max.X`, and then `Min.X + width == Max.X`; an inverted extent has no columns |
| Images.Rectangle.Height | main.go:22 | The row count is positive exactly when `Min.Y < Max.Y`, and then `Min.Y + height == Max.Y` |
| Images.EmptyIffNoPoint | main.go:22-23 | A rectangle has zero area (`Max.X <= Min.X` or `Max.Y <= Min.Y`) exactly when no point lies in it, so the loops then visit nothing |
| Images.GrayImage.constructor | main.go:19 | `image.NewGray(bounds)`: a fresh buffer over exactly the given rectangle, every pixel the zero gray |
| Images.GrayImage.Set | main.go:26 | Stores the colour at a point inside the rectangle; changes no other point; a point outside leaves the buffer unchanged |
| Images.GrayImage.AsImage | main.go:30 | The returned `*image.Gray` seen as an `image.Image`: same bounds, and at every point the buffer's gray value |
| Grayscale.ApplyGrayscale | main.go:17-31 | Fresh result with the same bounds (Min and Max); at every point inside them the pixel is `convert(img.At(p))`; outside them nothing was written; zero area gives a buffer with no pixels; nothing pre-existing is modified |
| Grayscale.ApplyGrayscaleTwice | main.go:17-31 | If the conversion maps each gray colour to itself, converting the result again gives the same bounds and the same pixel everywhere |
| Pipeline.EncoderFor | main.go:75-83 | `.png` picks PNG, `.jpg` picks JPEG, both as exact matches; every other extension is unsupported (both directions) |
| Pipeline.ExtensionsAreExact | main.go:75-83 | Worked instances of `EncoderFor`'s contract: `.jpeg`, `.PNG`, `.JPG`, `.gif` and the empty extension are all unsupported |
| Pipeline.RunChecksFirstFailure | main.go:38-88 | In a first-failure-wins run, if step k is the first to fail, exactly steps 0..k ran and k's error is reported |
| Pipeline.RunChecksAllPass | main.go:38-90 | In such a run, if no step fails, every step ran and no error is reported |
| Pipeline.RunChecksSucceedsIff | main.go:38-90 | Such a run ends without an error exactly when no step fails |
| Pipeline.ProcessImageRunsChecks | main.go:34-91 | The task's early returns equal the first-failure-wins run of open, decode, transform, create, encoder selection, encode; the message is the error of the first failing step, or the success message |
| Pipeline.ErrorIsNotSuccess | main.go:40 | An error message is never a success message, whatever the paths and the cause |
| Pipeline.SuccessIff | main.go:85-90 | The success message is sent exactly when open, decode and create succeed, an encoder is picked and it returns no error |
| Pipeline.MessageNamesPath | main.go:40-90 | Every message the task sends, success or failure, contains the input path |
| Pipeline.StepsInOrder | main.go:38-88 | The steps that ran are a prefix of open, decode, transform, create, encoder selection, encode with the picked format; later steps never run without the earlier ones |
| Pipeline.UnsupportedExtensionAfterCreate | main.go:61-83 | If the first three steps succeed and the extension is neither `.png` nor `.jpg`, the message is exactly `Error when processing <path>: Unsupported file format`; the output file was already created and no encoder ran |

## Left out

- File I/O: `os.Open`, `os.Create` and the bytes they read and write. Their outcomes are inputs (`Pipeline.Outcomes`).
- The deferred `Close` calls (main.go:43-49, 66-72): each can send one more error message. This is an I/O side effect after the decision is made.
- `image.Decode`, `png.Encode` and `jpeg.Encode` are library codecs. Only whether each returns an error is modelled. Which bytes they produce is not.
- `color.GrayModel.Convert` is a parameter. Its luma formula is library code and is not in `main.go`, so no fixed gray level for a given RGB triple is stated.
- The `.(color.Gray)` type assertion (main.go:25): the parameter returns a gray value directly, so a failing assertion cannot occur.
- `(*image.Gray).Set` converts its argument again through the gray model. The call at main.go:26 already passes a `color.Gray`, so `GrayImage.Set` takes a gray value and stores it.
- `image.NewGray` stores pixels in a flat byte slice with a stride. The model uses a two-dimensional array indexed from the rectangle's origin. It treats an inverted rectangle (`Max < Min`) as empty. Go's `image.NewGray` instead panics with "Rectangle has huge or negative dimensions" when the width or height is negative, so for such bounds `applyGrayscale` crashes rather than returning an empty buffer. The PNG and JPEG decoders never produce such bounds.
- Grayscale.ApplyGrayscale: on inverted bounds it returns an empty buffer where Go panics; its zero-area clause matches Go only when `Max == Min` in some coordinate.
- Go's 64-bit `int`: coordinates are unbounded integers, so overflow of `x++` or `y++` at the largest `int` is not modelled.
- `filepath.Join`, `filepath.Base` and `filepath.Ext` are library code. The extension is an input, not derived from the path, and the output file's name is not modelled.
- `main` (main.go:93-121) is left out: goroutine fan-out, the `sync.WaitGroup`, closing and draining the results channel, and the hardcoded paths. It is concurrency with a nondeterministic output order, so "one message per input" across the batch is not stated.
- Console printing.
- Grayscale.ApplyGrayscaleTwice: idempotence rests on the assumption that the conversion leaves a gray colour unchanged. The model cannot derive this, because the conversion is a parameter.
