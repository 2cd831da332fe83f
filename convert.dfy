/**
 * The loop of `main`: for every id of `[start, end)` build the input file
 * name, load that image from the tag directory, render it and write the
 * SVG text to `output/<name>.svg`. A missing input image stops the run.
 */
module Convert {
  import opened Strings
  import FileNames
  import Grid
  import Rasterizer

  datatype Option<T> = None | Some(value: T)

  /** A decoded RGBA image as the image loader hands it over: `pixels[x][y]`. */
  datatype Image = Image(width: nat, height: nat, pixels: seq<seq<Rasterizer.Pixel>>)

  predicate WellFormed(im: Image)
  {
    Grid.Covers(im.pixels, im.width, im.height)
  }

  /** One file written to the output directory. */
  datatype Written = Written(path: string, svg: string)

  /** `os.path.join(a, b)` on POSIX for a relative `b`: one '/' between them unless `a` is empty or already ends in '/'. */
  function JoinPath(a: string, b: string): (p: string)
    ensures |p| >= |a| + |b| && p[..|a|] == a && p[|p| - |b|..] == b
  {
    if a == [] || a[|a| - 1] == '/' then a + b else a + "/" + b
  }

  /** Joining one directory to two names gives two paths exactly when the names differ. */
  lemma JoinPathInjective(a: string, b1: string, b2: string)
    requires JoinPath(a, b1) == JoinPath(a, b2)
    ensures b1 == b2
  {
    var d := if a == [] || a[|a| - 1] == '/' then a else a + "/";
    assert JoinPath(a, b1) == d + b1 && JoinPath(a, b2) == d + b2;
    assert b1 == (d + b1)[|d|..];
    assert b2 == (d + b2)[|d|..];
  }

  /** Where the image of tag `id` is read from. */
  function InputPath(tagFile: string, id: int): string
  {
    JoinPath(tagFile, FileNames.FileName(tagFile, id))
  }

  /** Where the SVG of tag `id` is written. */
  function OutputPath(tagFile: string, id: int): string
  {
    JoinPath("output", FileNames.OutputName(FileNames.FileName(tagFile, id)))
  }

  /** Two ids never share an output path, so no file of a run overwrites another. */
  lemma OutputPathInjective(tagFile: string, i: int, j: int)
    ensures OutputPath(tagFile, i) == OutputPath(tagFile, j) ==> i == j
  {
    if OutputPath(tagFile, i) == OutputPath(tagFile, j) {
      JoinPathInjective("output", FileNames.OutputName(FileNames.FileName(tagFile, i)),
                                  FileNames.OutputName(FileNames.FileName(tagFile, j)));
      FileNames.OutputNameInjective(tagFile, i, j);
    }
  }

  /** Two ids never read the same input path. */
  lemma InputPathInjective(tagFile: string, i: int, j: int)
    requires InputPath(tagFile, i) == InputPath(tagFile, j)
    ensures i == j
  {
    JoinPathInjective(tagFile, FileNames.FileName(tagFile, i), FileNames.FileName(tagFile, j));
    FileNames.FileNameInjective(tagFile, i, j);
  }

  /** `w` is what the iteration for tag `id` writes: its input image was found and rendered. */
  predicate WrittenAt(tagFile: string, size: string, alpha: Rasterizer.AlphaFormat,
                      images: map<string, Image>, id: int, w: Written)
  {
    var im := if InputPath(tagFile, id) in images then images[InputPath(tagFile, id)] else Image(0, 0, []);
    InputPath(tagFile, id) in images
    && WellFormed(im)
    && w.path == OutputPath(tagFile, id)
    && w.svg == Rasterizer.Document(im.width, im.height, im.pixels, size, alpha)
  }

  /** `written` holds, in order, the files of the ids `start`, `start + 1`, ... */
  predicate WrittenFrom(tagFile: string, size: string, alpha: Rasterizer.AlphaFormat,
                        images: map<string, Image>, start: int, written: seq<Written>)
  {
    forall k :: 0 <= k < |written| ==> WrittenAt(tagFile, size, alpha, images, start + k, written[k])
  }

  /** One more file, for the next id, extends the files written so far. */
  lemma WrittenFromSnoc(tagFile: string, size: string, alpha: Rasterizer.AlphaFormat,
                        images: map<string, Image>, start: int, written: seq<Written>, id: int, w: Written)
    requires WrittenFrom(tagFile, size, alpha, images, start, written)
    requires id == start + |written| && WrittenAt(tagFile, size, alpha, images, id, w)
    ensures WrittenFrom(tagFile, size, alpha, images, start, written + [w])
  {
    var next := written + [w];
    forall k | 0 <= k < |next|
      ensures WrittenAt(tagFile, size, alpha, images, start + k, next[k])
    {
      if k < |written| {
        assert next[k] == written[k];
      } else {
        assert k == |written| && next[k] == w;
      }
    }
  }

  /** An injective naming gives the files of consecutive ids pairwise different paths. */
  lemma InjectiveNamesDistinct(written: seq<Written>, name: int -> string, start: int)
    requires forall k :: 0 <= k < |written| ==> written[k].path == name(start + k)
    requires forall i, j :: name(i) == name(j) ==> i == j
    ensures forall k1, k2 :: 0 <= k1 < k2 < |written| ==> written[k1].path != written[k2].path
  {
    forall k1, k2 | 0 <= k1 < k2 < |written|
      ensures written[k1].path != written[k2].path
    {
      assert written[k1].path == name(start + k1) && written[k2].path == name(start + k2);
    }
  }

  /** File k of a run is written to the output path of id `start + k`. */
  lemma WrittenPaths(tagFile: string, size: string, alpha: Rasterizer.AlphaFormat,
                     images: map<string, Image>, start: int, written: seq<Written>)
    requires WrittenFrom(tagFile, size, alpha, images, start, written)
    ensures forall k :: 0 <= k < |written| ==> written[k].path == OutputPath(tagFile, start + k)
  {
    forall k | 0 <= k < |written|
      ensures written[k].path == OutputPath(tagFile, start + k)
    {
      assert WrittenAt(tagFile, size, alpha, images, start + k, written[k]);
    }
  }

  /** No two ids share an output path. */
  lemma OutputPathsInjective(tagFile: string)
    ensures forall i, j :: OutputPath(tagFile, i) == OutputPath(tagFile, j) ==> i == j
  {
    forall i, j
      ensures OutputPath(tagFile, i) == OutputPath(tagFile, j) ==> i == j
    {
      OutputPathInjective(tagFile, i, j);
    }
  }

  /** The files of one run all have different paths: none overwrites another. */
  lemma WrittenPathsDistinct(tagFile: string, size: string, alpha: Rasterizer.AlphaFormat,
                             images: map<string, Image>, start: int, written: seq<Written>)
    requires WrittenFrom(tagFile, size, alpha, images, start, written)
    ensures forall k1, k2 :: 0 <= k1 < k2 < |written| ==> written[k1].path != written[k2].path
  {
    WrittenPaths(tagFile, size, alpha, images, start, written);
    OutputPathsInjective(tagFile);
    InjectiveNamesDistinct(written, id => OutputPath(tagFile, id), start);
  }

  /**
   * One iteration of `main`: the input path of tag `id`, and what is
   * written for it, or nothing when that input cannot be opened.
   */
  method ConvertOne(tagFile: string, size: string, alpha: Rasterizer.AlphaFormat,
                    images: map<string, Image>, id: int)
    returns (fullPath: string, result: Option<Written>)
    requires forall p :: p in images ==> WellFormed(images[p])
    ensures fullPath == InputPath(tagFile, id)
    ensures result.None? <==> fullPath !in images
    ensures result.Some? ==> WrittenAt(tagFile, size, alpha, images, id, result.value)
  {
    var fileName := FileNames.BuildFileName(tagFile, id);
    fullPath := JoinPath(tagFile, fileName);
    if fullPath !in images {
      return fullPath, None;
    }
    var im := images[fullPath];
    var svg := Rasterizer.RenderSvg(im.width, im.height, im.pixels, size, alpha);
    var outputPath := JoinPath("output", FileNames.OutputName(fileName));
    result := Some(Written(outputPath, svg));
  }

  /**
   * `main` over the ids `start .. end - 1`, in increasing order. `images`
   * maps the paths of the readable input images to their decoded pixels.
   * On success one file per id is written; otherwise the run stops at the
   * first id whose input is missing, after writing the files of the ids
   * before it, and `missing` names the path that could not be opened.
   */
  method ConvertRange(tagFile: string, size: string, alpha: Rasterizer.AlphaFormat,
                      images: map<string, Image>, start: int, end: int)
    returns (written: seq<Written>, missing: Option<string>)
    requires forall p :: p in images ==> WellFormed(images[p])
    ensures missing.None? ==> |written| == Max(0, end - start)
    ensures missing.Some? ==> (start + |written| < end
                               && missing.value == InputPath(tagFile, start + |written|)
                               && missing.value !in images)
    ensures WrittenFrom(tagFile, size, alpha, images, start, written)
    ensures forall k1, k2 :: 0 <= k1 < k2 < |written| ==> written[k1].path != written[k2].path
  {
    written := [];
    missing := None;
    var count := Max(0, end - start);
    for n := 0 to count
      invariant |written| == n
      invariant WrittenFrom(tagFile, size, alpha, images, start, written)
    {
      var fullPath, result := ConvertOne(tagFile, size, alpha, images, start + n);
      if result.None? {
        missing := Some(fullPath);
        break;
      }
      WrittenFromSnoc(tagFile, size, alpha, images, start, written, start + n, result.value);
      written := written + [result.value];
    }
    WrittenPathsDistinct(tagFile, size, alpha, images, start, written);
  }
}
