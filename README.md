# range_tag_to_svg in Dafny

A model of `range_tag_to_svg.py`, a tool that turns pre-rendered apriltag
bitmaps into SVG files, one per tag id of a range. For every id of
`[start, end)` it does four things:

- It derives the input file name from the digit runs of the tag path and the id.
- It loads that RGBA image.
- It rasterizes the image into an SVG document with one unit `<rect>` per pixel.
- It writes the document to `output/<name>.svg`.

Modules:

- `Strings`: zero padding (the `while len(s) < n: s = "0" + s` loops), stripping, concatenation of lines, splitting at a separator.
- `Decimal`: Python's `str()` on integers, with its parse-back round trip.
- `Grid`: the row-major order in which the two nested loops visit the pixels `pixels[x][y]`.
- `Rasterizer`: `gen_apriltag_svg` with `gen_rgba` (`Fill`) and `gen_gridsquare` (`RectLine`). `RenderSvg` is the loop itself, proved equal to `Document`.
- `FileNames`: `re.findall(r"\d+", tag_file)` (`DigitRuns`), the padded id, the number fields, the input file name (`BuildFileName`, proved equal to `FileName`) and the output name `file_name[:-4] + ".svg"`.
- `Convert`: the loop of `main`. It builds the input path, looks the image up, renders it and records the written file. It stops at the first missing input.

How the code derives the input file name from the tag path:

- The usage example in the argument parser's epilog (line 17) passes the template path `tagStandard52h13/tag52_13_00007.png`. A reader would expect it to give `tag52_13_00007.png` for id 7.
- The code searches the whole path for digit runs (line 69). That path has five runs, so the code builds `tag52_13_52_13_00007_00007.png`. The model follows the code.
- `FileNameOfPath` states this: the runs of the directory come first, then the runs of the file name.
- Only a template path whose runs are exactly `52` and `13` (the directory `tagStandard52h13` alone) yields `tag52_13_` before the id. `FileNameOfFamily` states this case.
- The code then joins the file name onto the template path itself, not onto its directory (line 79). `InputPath` models this.

## Model

| member | source | states |
|---|---|---|
| Strings.LeftPad | range_tag_to_svg.py:66-67 | the padded string has length max(width, len), ends with the original and starts with only '0' characters |
| Strings.PadZeros | range_tag_to_svg.py:66-67 | the prepend-'0' loop returns exactly `LeftPad(s, width)`; the same loop pads the number fields at lines 73-74 |
| Strings.StripLeadingZerosOfPadding | range_tag_to_svg.py:66-67 | stripping leading zeros undoes any zero padding |
| Decimal.NatToString | range_tag_to_svg.py:44-45 | the decimal text of a coordinate is non-empty, all digits, one digit exactly below 10, no leading zero for positive values |
| Decimal.ParseNatToString | range_tag_to_svg.py:44-45 | reading the decimal text of n gives n back |
| Decimal.IntToString | range_tag_to_svg.py:64 | `str(i)` is non-empty, digits with an optional leading '-', no leading zero unless 0, all digits exactly for i >= 0 |
| Decimal.IntToStringInjective | range_tag_to_svg.py:64 | different integers have different `str()` texts |
| FileNames.DigitRuns | range_tag_to_svg.py:69 | every run found is a non-empty string of digits |
| FileNames.DigitRunsOfNumber | range_tag_to_svg.py:69 | a string of digits is a single run |
| FileNames.DigitRunsWithoutDigits | range_tag_to_svg.py:69 | a path without digits has no runs |
| FileNames.DigitRunsSplit | range_tag_to_svg.py:69 | runs are maximal: a non-digit splits the runs into those before it and those after it |
| FileNames.PaddedId | range_tag_to_svg.py:64-67 | definition: `str(id)` left-padded with '0' to at least five characters |
| FileNames.Field | range_tag_to_svg.py:73-76 | definition: one digit run left-padded with '0' to at least two characters, then `_` |
| FileNames.TypeFields | range_tag_to_svg.py:72-76 | definition: the fields of all digit runs, in order |
| FileNames.FileName | range_tag_to_svg.py:63-78 | definition: `tag`, the fields of the tag path's digit runs, the padded id and `.png` |
| FileNames.OutputName | range_tag_to_svg.py:96 | definition: `file_name[:-4] + ".svg"`, with the empty slice for names shorter than four characters |
| FileNames.PaddedIdShape | range_tag_to_svg.py:64-67 | the id text is `str(i)` behind enough '0' to make at least five characters, unchanged when already five long, all digits for i >= 0 |
| FileNames.PaddedIdStrip | range_tag_to_svg.py:64-67 | for i != 0, stripping the leading zeros of the padded id gives back `str(i)` |
| FileNames.PaddedIdZero | range_tag_to_svg.py:64-67 | id 0 pads to `00000` |
| FileNames.PaddedIdInjective | range_tag_to_svg.py:64-67 | different ids give different padded ids |
| FileNames.PaddedNegativeId | range_tag_to_svg.py:64-67 | a negative id keeps its sign inside the padding: -5 gives `000-5` |
| FileNames.PaddedSmallIds | range_tag_to_svg.py:64-67 | ids 7 and 42 pad to `00007` and `00042` |
| FileNames.FieldPadding | range_tag_to_svg.py:73-76 | a run of two or more digits is kept as it is, a one-digit run gains one leading '0', and each field ends in `_` |
| FileNames.TypeFieldsAppend | range_tag_to_svg.py:72-76 | the fields of two run lists joined are the fields of each, in order |
| FileNames.BuildFileName | range_tag_to_svg.py:63-78 | the loop body builds exactly `FileName(tagFile, id)`, padding each run in place |
| FileNames.FileNameWithoutNumbers | range_tag_to_svg.py:69-78 | a tag path without digits gives `tag` + padded id + `.png` |
| FileNames.FileNameOfFamily | range_tag_to_svg.py:69-78 | a tag path whose runs are two two-digit numbers r1, r2 gives `tag` r1 `_` r2 `_` + padded id + `.png` |
| FileNames.FileNameOfPlainPath | range_tag_to_svg.py:69-78 | a tag path without digits gives `tag00042.png` for id 42 |
| FileNames.FileNameOfPath | range_tag_to_svg.py:69-78 | for a tag path `dir/file`, the fields of `dir` come before the fields of `file` |
| FileNames.FileNameInjective | range_tag_to_svg.py:63-78 | two ids never share an input file name |
| FileNames.OutputNameOfFileName | range_tag_to_svg.py:96 | the output name of an input name is that name with `.png` replaced by `.svg` |
| FileNames.OutputNameInjective | range_tag_to_svg.py:96 | two ids never share an output file name |
| Grid.Row | range_tag_to_svg.py:50-51 | definition: row y of the grid, x from 0 to width - 1, as the inner loop visits it |
| Grid.RowMajor | range_tag_to_svg.py:49-51 | definition: the first `height` rows one after the other, y outside and x inside |
| Grid.RowMajorLength | range_tag_to_svg.py:49-51 | the nested loops visit width * height cells |
| Grid.RowMajorAt | range_tag_to_svg.py:49-51 | cell (x, y) is visited at step y * width + x |
| Grid.RowMajorAtFlat | range_tag_to_svg.py:49-51 | step k visits cell (k mod width, k div width) |
| Grid.PositionsDistinct | range_tag_to_svg.py:49-51 | different steps visit different cells |
| Grid.RowMajorDistinct | range_tag_to_svg.py:49-51 | different cells are visited at different steps `y * width + x` |
| Rasterizer.XmlDeclaration | range_tag_to_svg.py:47 | definition: the `<?xml version="1.0" standalone="yes"?>` line that starts the text |
| Rasterizer.SvgClose | range_tag_to_svg.py:52 | definition: the closing `</svg>` line |
| Rasterizer.RectLines | range_tag_to_svg.py:49-51 | definition: the rect lines of all pixels in the order the two loops emit them |
| Rasterizer.SvgOpen | range_tag_to_svg.py:48 | definition: the `<svg>` root with the size string as width and height and `0,0,width,height` as viewBox |
| Rasterizer.Fill | range_tag_to_svg.py:37-40 | definition: `gen_rgba`, the `rgba(r, g, b, a)` text of one pixel with the alpha text of the raw alpha |
| Rasterizer.RectId | range_tag_to_svg.py:44 | definition: the `box{x}-{y}` id of the rect at column x, row y |
| Rasterizer.RectLine | range_tag_to_svg.py:42-45 | definition: `gen_gridsquare`, the unit `<rect>` line of the pixel at (x, y) with its fill and id |
| Rasterizer.Document | range_tag_to_svg.py:47-52 | definition: the declaration, the `<svg>` root, the rect lines with y outside and x inside, then `</svg>` |
| Rasterizer.RectLineAt | range_tag_to_svg.py:49-51 | the document has width * height rect lines, and line k draws pixel (k mod width, k div width) |
| Rasterizer.LineOfCell | range_tag_to_svg.py:49-51 | definition: rect line `y * width + x` of the document is the one that draws pixel (x, y) |
| Rasterizer.RectLineOfPixel | range_tag_to_svg.py:49-51 | pixel (x, y) is drawn by rect line y * width + x |
| Rasterizer.RectIdInjective | range_tag_to_svg.py:44 | the `box{x}-{y}` id determines x and y |
| Rasterizer.RectIdsOfDistinctCells | range_tag_to_svg.py:44 | different cells get different `box{x}-{y}` ids |
| Rasterizer.RectIdsDistinct | range_tag_to_svg.py:44-51 | for two different pixels (x1, y1) != (x2, y2) of a covered grid, the rect lines that draw them sit at two different positions y1 * width + x1 != y2 * width + x2 of the document (each position holding the line of its own pixel), and their `box{x}-{y}` ids differ, so no two lines share an id |
| Rasterizer.RgbaTextChannels | range_tag_to_svg.py:40 | the red, green and blue texts can be read back from the `rgba(...)` text |
| Rasterizer.FillDeterminesColour | range_tag_to_svg.py:37-40 | two pixels with the same fill have the same red, green and blue channels |
| Rasterizer.FillOfChannels | range_tag_to_svg.py:37-40 | the pixel (10, 20, 30, 255) is filled `rgba(10, 20, 30, 1.0)` |
| Rasterizer.RenderSvg | range_tag_to_svg.py:36-54 | the loops produce exactly `Document`: the declaration, the `<svg>` root, the rect lines in row-major order and `</svg>` |
| Convert.JoinPath | range_tag_to_svg.py:79 | the joined path starts with the directory and ends with the name |
| Convert.InputPath | range_tag_to_svg.py:79 | definition: the input file name joined onto the tag path |
| Convert.OutputPath | range_tag_to_svg.py:96-97 | definition: the output file name joined onto `output` |
| Convert.WrittenAt | range_tag_to_svg.py:79-100 | definition: one iteration's write; the input path of the id is among the readable images, and the document of that image goes to `OutputPath` |
| Convert.WrittenFrom | range_tag_to_svg.py:63-100 | definition: file k of the run is the write of id start + k |
| Convert.JoinPathInjective | range_tag_to_svg.py:97 | one directory joined to two different names gives two different paths |
| Convert.InputPathInjective | range_tag_to_svg.py:78-79 | two ids never read the same input path |
| Convert.OutputPathInjective | range_tag_to_svg.py:96-97 | two ids never write the same output path |
| Convert.WrittenPaths | range_tag_to_svg.py:96-97 | file k of a run is written to the output path of id start + k |
| Convert.OutputPathsInjective | range_tag_to_svg.py:96-97 | the output path determines the id |
| Convert.WrittenPathsDistinct | range_tag_to_svg.py:96-100 | the files written by one run have pairwise different paths, so none overwrites another |
| Convert.ConvertOne | range_tag_to_svg.py:64-100 | one iteration reads `InputPath`; it fails exactly when that input is missing; otherwise it writes the rendered document to `OutputPath` |
| Convert.ConvertRange | range_tag_to_svg.py:63-102 | ids go in increasing order; without a missing input max(0, end - start) files are written; otherwise the run stops at the first missing input and names it; file k is the document of id start + k at its output path; all paths differ |

## Left out

- Argument parsing (lines 12-34, 56-61): the tag path, size string and id range are parameters.
- `dir_path` (lines 7-11) is never called: `tag_file` is parsed with `type = str` (line 20). The source does no existence check on the tag path, and neither does the model.
- Image decoding (lines 83-86): the loader is a map from input path to decoded image. Only four-channel RGBA pixels are modelled. An image file that exists but cannot be decoded is not modelled.
- Float text of the alpha channel (line 39): `_raw_a / 255` printed by Python's float formatting is the parameter `alpha`, because float formatting is not modelled.
- The `assert apriltag_svg is not None` at line 90 is not modelled. `RenderSvg` always returns a string, so the assert cannot fail.
- Creating the `output` directory and its log line (lines 92-94), and the status line (line 102), are not modelled. Console output and the directory itself are I/O.
- Writing the files (lines 99-100) is modelled as the list of (path, text) pairs written, in order. The file system itself is not modelled.
- Errors while writing a file are not modelled.
- `DigitRuns`: only the ASCII digits 0-9 count as digits. Python's `\d` also matches the other Unicode decimal digits.
- `JoinPath` models POSIX `os.path.join` only for a relative second part. The second part of both joins (lines 79 and 97) is a file name starting with `tag`, so it is always relative.
- Integers are unbounded, as Python's are.
