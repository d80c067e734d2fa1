# Verified model of the ASCII video player's glyph pipelines

The player renders each grayscale video frame as a string of glyphs for the terminal. This project models the per-pixel conversion core of its two players:

- **Ramp lookup** (`cmdplay_ascii.py`). A 256-entry table maps intensity `v` to the glyph at position `floor(v * n / 256)` of a light-to-dark ramp of `n` glyphs. That position is clamped to `n - 1`. A frame is rendered with one table lookup per pixel. The rasterizer around it raises the computed target height to at least one row. It splits the rendered string into rows of the frame's width.
- **Contextual gradient classifier** (`bad_apple_ascii.py`). Each pixel is classified from its own intensity and its four neighbours (top, bottom, left, right). A neighbour outside the frame reads as 0. First match wins: a star (an isolated bright point), then empty background, then solid fill. Otherwise the glyph is an edge glyph for the dominant gradient axis. The frame is rendered row by row, left to right.

Modules:

- `frames.dfy` (`Frames`): the 8-bit `Intensity` type, the row-major position `RowMajor(x, y, width) = y * width + x`, and the arithmetic facts both pipelines rely on.
- `ramp_lookup.dfy` (`RampLookup`): `build_lut` as the method `BuildLut`, whose `for` loop proves the table equal to the value `Lut(ramp)`; `frame_to_ascii` as the function `FrameToAscii`; and the properties of the index formula.
- `raster.dfy` (`Raster`): the height clamp of `resize_for_ascii`, and the row split used by `print_ascii_block`.
- `context_glyph.dfy` (`ContextGlyph`): the threshold constants, the `ASCII_CHARS` table, `get_pixel`, `analyze_context`, and `pixels_to_ascii` as the method `PixelsToAscii`, whose nested loops are proved to produce the value `ContextFrame`.

Pixels are `seq<Intensity>` with `|pixels| == width * height`, in row-major order, which is what the image library's `getdata` yields for a grayscale image. Glyph strings are `seq<char>`. The top-edge glyph is U+2033 (DOUBLE PRIME), not an ASCII character.

`analyze_context` is modelled in two parts. `Around` reads the five samples through `GetPixel`. `Classify` makes the first-match decision on them. `AnalyzeContext` composes the two, so the case lemmas can be stated on the five samples alone.

Notes on what the code does:

- The target height is computed in floating point and truncated with `int(...)` (`cmdplay_ascii.py:90`). The model takes that computed height as an input and models only the clamp to at least one row.
- Intensity 255 takes the darkest glyph only when the ramp has at most 256 glyphs (`RampEndpoints` proves both directions); for longer ramps the last glyphs are never used.

## Model

| member | source | states |
|---|---|---|
| RampLookup.ClampedIndex | cmdplay_ascii.py:70-75 | the clamped position is a valid ramp position for a non-empty ramp, and is -1 for an empty ramp |
| RampLookup.ClampNeverFires | cmdplay_ascii.py:72-75 | for every intensity 0..255 the raw position `v*n div 256` is already below `n`, so the clamp never changes it |
| RampLookup.ScaledIndexMonotone | cmdplay_ascii.py:67-73 | `v <= w` implies that `v`'s ramp position is at most `w`'s: darker never maps before lighter |
| RampLookup.RampEndpoints | cmdplay_ascii.py:72-76 | intensity 0 maps to position 0; intensity 255 maps to position `n-1` if and only if `n <= 256` |
| RampLookup.LutEntries | cmdplay_ascii.py:66-77 | the table has 256 entries, entry `v` is `ramp[v*n div 256]`, and every entry is a glyph of the ramp |
| RampLookup.LutEndpoints | cmdplay_ascii.py:66-77 | the table's first entry is the ramp's first glyph; for a ramp of at most 256 glyphs its last entry is the ramp's last glyph |
| RampLookup.DefaultRampEndpoints | cmdplay_ascii.py:19-20 | with the default ramp, intensity 0 renders as a space and 255 as `@` |
| RampLookup.BuildLut | cmdplay_ascii.py:66-77 | the loop with its clamp builds exactly 256 entries, entry `v` being `ramp[v*n div 256]`, equal to the table value `Lut(ramp)` |
| RampLookup.FrameToAscii | cmdplay_ascii.py:80-85 | the rendered string has one glyph per pixel, and glyph `i` is the ramp glyph at pixel `i`'s raw position |
| RampLookup.FrameToAsciiConcat | cmdplay_ascii.py:84-85 | rendering is per pixel: rendering a concatenation of pixel runs is the concatenation of their renderings |
| RampLookup.FrameToAsciiMonotone | cmdplay_ascii.py:80-85 | within a frame, if pixel `i` is no brighter than pixel `j`, the ramp position of `i`'s glyph (`pixels[i]*n div 256`) is at most that of `j`'s, and each glyph is the ramp glyph at that position |
| Raster.ResizeForAscii | cmdplay_ascii.py:88-94 | the target grid keeps the requested width; its height is at least 1, equals the computed height when that is at least 1, and is 1 otherwise |
| Raster.Rows | cmdplay_ascii.py:99 | the row split itself: there are rows exactly when the string is non-empty, and never more rows than characters; its full description is RowsConcat, RowsCount, RowsShape and RowAt |
| Raster.RowsConcat | cmdplay_ascii.py:99 | concatenating the rows gives back the frame string exactly |
| Raster.RowsCount | cmdplay_ascii.py:99 | the number of rows is `ceil(len / width)` |
| Raster.RowsShape | cmdplay_ascii.py:99 | every row is non-empty and at most `width` long, and every row but the last is exactly `width` long |
| Raster.RowAt | cmdplay_ascii.py:99 | row `k` is the slice `[k*width, min((k+1)*width, len))`, the slice the comprehension takes at offset `k*width` |
| Raster.FullRowAt | cmdplay_ascii.py:97-99 | in a frame of `width * height` glyphs, row `k` exists and is exactly glyphs `k*width` up to `k*width + width` |
| Raster.RowsOfGrid | cmdplay_ascii.py:97-99 | a frame of `width * height` glyphs splits into exactly `height` rows, row `k` being glyphs `k*width` up to `(k+1)*width` |
| ContextGlyph.AsciiCharTable | bad_apple_ascii.py:20-30 | the glyph table's nine glyphs are pairwise distinct, and they are exactly the set `AsciiChars` |
| ContextGlyph.GetPixel | bad_apple_ascii.py:50-53 | a coordinate outside `[0,width) x [0,height)` reads as 0; inside, the read is at the row-major position, which lies in the buffer |
| ContextGlyph.Around | bad_apple_ascii.py:55-59 | each of the five reads, the pixel at `(x, y)` and its neighbours at `(x, y-1)`, `(x, y+1)`, `(x-1, y)` and `(x+1, y)`, is the sample at that coordinate's row-major position when the coordinate is inside the frame and 0 when it is not; every read is an intensity 0..255 |
| ContextGlyph.NeighbourhoodTests | bad_apple_ascii.py:61-67 | a second formulation of the axis test: `abs(v_gradient) > abs(h_gradient)` holds exactly when `v_gradient` squared exceeds `h_gradient` squared |
| ContextGlyph.Classify | bad_apple_ascii.py:61-89 | the classification always yields one of the nine glyphs of the table |
| ContextGlyph.AnalyzeContext | bad_apple_ascii.py:48-89 | the glyph for any coordinate, inside the frame or not, is one of the nine glyphs of the table |
| ContextGlyph.StarCase | bad_apple_ascii.py:64-70 | the result is `.` if and only if the pixel is above 21 and all four neighbours are below 20; this test comes first |
| ContextGlyph.EmptyCase | bad_apple_ascii.py:64-72 | a pixel below 10 is always drawn as a space, because the star test cannot fire for it; a space is drawn only for such pixels |
| ContextGlyph.FullCase | bad_apple_ascii.py:64-74 | the result is `@` if and only if the pixel is above 200 and some neighbour is at least 20, whatever the gradients |
| ContextGlyph.GradientFamilies | bad_apple_ascii.py:61-89 | a vertical-family glyph appears if and only if the pixel is 10..200, not a star, and `abs(v_gradient) > abs(h_gradient)`; a horizontal-family glyph appears if and only if the same holds with `<=`, so ties go horizontal |
| ContextGlyph.GradientGlyphs | bad_apple_ascii.py:76-89 | within the chosen axis, a gradient above 50 gives `_`/`(`, below -50 gives U+2033/`)`, otherwise the plain glyph, a vertical bar or `-` |
| ContextGlyph.OutsideIsEmpty | bad_apple_ascii.py:50-72 | a coordinate outside the frame reads as black and is drawn as a space |
| ContextGlyph.ContextFrameAt | bad_apple_ascii.py:93-101 | position `y*width+x` of the rendered frame lies inside it and holds the glyph for column `x` of row `y` |
| ContextGlyph.ContextFrameRowMajor | bad_apple_ascii.py:93-101 | the rendered frame has `width*height` glyphs, each pixel's glyph at its row-major position |
| ContextGlyph.PixelsToAscii | bad_apple_ascii.py:91-101 | the nested row and column loops produce a string of `width*height` glyphs, equal to `ContextFrame`, with the glyph for `(x, y)` at `y*width+x` |

## Left out

- Empty ramp: `build_lut` on an empty string computes index -1 and `ramp[-1]` raises IndexError (`cmdplay_ascii.py:70-76`). The model requires a non-empty ramp instead of modelling the exception; `ClampedIndex` shows the -1.
- Width 0 in the row split: `range(0, len, 0)` raises ValueError (`cmdplay_ascii.py:99`). The model requires `width > 0` instead of modelling the exception.

- Playback loops (`play_ascii_video`, `main` of both players): wall-clock pacing, sleeping, float frame rates, audio polling and video capture are I/O and timing.
- The pre-rendered frame buffer (a bounded deque) and the constant `FRAME_BUFFER_SIZE`: they belong to the playback loop only.
- The two stop conditions of the playback loops: both depend on the external audio busy signal.
- Floating-point height arithmetic (`int((height / width) * target_width * ratio)`) and the `height_ratio` field of the render configuration: the computed height is an input of `ResizeForAscii`, and only the clamp to at least one row is modelled.
- `resize_image` of the gradient player: it has no clamp and only delegates to the image library's resize.
- Image library and video library calls (resize, pixel extraction, colour conversion, median blur, array conversion): foreign code.
- Terminal output: the escape-sequence writers, console initialisation, and the newline join and write in `print_ascii_block`. Of that function only the row split is modelled.
- `get_terminal_width`, `DEFAULT_WIDTH` and command-line parsing: environment and I/O.
