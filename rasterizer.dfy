/**
 * The pixel-to-SVG rasterizer `gen_apriltag_svg`: one unit `<rect>` per
 * pixel of a `width` by `height` RGBA grid, rows (y) outside, columns (x)
 * inside, between an XML declaration plus `<svg>` root and `</svg>`.
 */
module Rasterizer {
  import opened Strings
  import opened Decimal
  import Grid

  /** One RGBA pixel as the image loader hands it over; channels are 0..255. */
  datatype Pixel = Pixel(r: int, g: int, b: int, a: int)

  /**
   * The text Python prints for the float `a / 255`. Float formatting is not
   * modelled, so every renderer takes it as a parameter.
   */
  type AlphaFormat = int -> string

  const XmlDeclaration: string := "<?xml version=\"1.0\" standalone=\"yes\"?>\n"

  const SvgClose: string := "</svg>\n"

  /** The root element: the size string verbatim, the pixel dimensions in the viewBox. */
  function SvgOpen(size: string, width: nat, height: nat): string
  {
    "<svg width=\"" + size + "\" height=\"" + size + "\" viewBox=\"0,0,"
      + NatToString(width) + "," + NatToString(height)
      + "\" xmlns=\"http://www.w3.org/2000/svg\">\n"
  }

  /** The `rgba(...)` colour notation around four already formatted channels. */
  function RgbaText(r: string, g: string, b: string, a: string): string
  {
    "rgba(" + r + ", " + g + ", " + b + ", " + a + ")"
  }

  /** `gen_rgba`: the CSS colour of one pixel. */
  function Fill(p: Pixel, alpha: AlphaFormat): string
  {
    RgbaText(IntToString(p.r), IntToString(p.g), IntToString(p.b), alpha(p.a))
  }

  /** The `id` attribute of the rectangle at column `x`, row `y`. */
  function RectId(x: nat, y: nat): string
  {
    "box" + NatToString(x) + "-" + NatToString(y)
  }

  /** `gen_gridsquare`: the line for the pixel at column `x`, row `y`. */
  function RectLine(x: nat, y: nat, p: Pixel, alpha: AlphaFormat): string
  {
    "\t<rect width=\"1\" height=\"1\" x=\"" + NatToString(x) + "\" y=\"" + NatToString(y)
      + "\" fill=\"" + Fill(p, alpha) + "\" id=\"" + RectId(x, y) + "\"/>\n"
  }

  /** Every pixel's line, indexed like the pixels: `[x][y]`. */
  function LineGrid(width: nat, height: nat, pixels: seq<seq<Pixel>>, alpha: AlphaFormat): (lines: seq<seq<string>>)
    requires Grid.Covers(pixels, width, height)
    ensures Grid.Covers(lines, width, height)
  {
    seq(width, x requires 0 <= x < width =>
      seq(height, y requires 0 <= y < height => RectLine(x, y, pixels[x][y], alpha)))
  }

  /** The rectangle lines in the order the two loops emit them. */
  function RectLines(width: nat, height: nat, pixels: seq<seq<Pixel>>, alpha: AlphaFormat): seq<string>
    requires Grid.Covers(pixels, width, height)
  {
    Grid.RowMajor(LineGrid(width, height, pixels, alpha), width, height)
  }

  /**
   * There are exactly `width * height` rectangle lines, and the k-th one
   * draws the pixel at column `k % width`, row `k / width`.
   */
  lemma RectLineAt(width: nat, height: nat, pixels: seq<seq<Pixel>>, alpha: AlphaFormat, k: nat)
    requires Grid.Covers(pixels, width, height)
    requires k < width * height
    ensures width > 0 && k % width < width && k / width < height
    ensures |RectLines(width, height, pixels, alpha)| == width * height
    ensures RectLines(width, height, pixels, alpha)[k]
         == RectLine(k % width, k / width, pixels[k % width][k / width], alpha)
  {
    Grid.RowMajorAtFlat(LineGrid(width, height, pixels, alpha), width, height, k);
  }

  /** Each pixel (x, y) is drawn, by line `y * width + x`. */
  lemma RectLineOfPixel(width: nat, height: nat, pixels: seq<seq<Pixel>>, alpha: AlphaFormat, x: nat, y: nat)
    requires Grid.Covers(pixels, width, height)
    requires x < width && y < height
    ensures |RectLines(width, height, pixels, alpha)| == width * height
    ensures y * width + x < width * height
    ensures RectLines(width, height, pixels, alpha)[y * width + x] == RectLine(x, y, pixels[x][y], alpha)
  {
    Grid.RowMajorAt(LineGrid(width, height, pixels, alpha), width, height, x, y);
  }

  /** Line `y * width + x` of the document is the one that draws the pixel at column `x`, row `y`. */
  predicate LineOfCell(width: nat, height: nat, pixels: seq<seq<Pixel>>, alpha: AlphaFormat, x: nat, y: nat)
    requires Grid.Covers(pixels, width, height)
    requires x < width && y < height
  {
    var lines := RectLines(width, height, pixels, alpha);
    y * width + x < |lines| && lines[y * width + x] == RectLine(x, y, pixels[x][y], alpha)
  }

  /**
   * The SVG text: the XML declaration, the `<svg>` root, the rectangle
   * lines in loop order, and the closing tag.
   */
  function Document(width: nat, height: nat, pixels: seq<seq<Pixel>>, size: string, alpha: AlphaFormat): string
    requires Grid.Covers(pixels, width, height)
  {
    XmlDeclaration + SvgOpen(size, width, height) + Concat(RectLines(width, height, pixels, alpha)) + SvgClose
  }

  /** `box{x}-{y}` tells the pixel coordinates apart. */
  lemma RectIdInjective(x1: nat, y1: nat, x2: nat, y2: nat)
    requires RectId(x1, y1) == RectId(x2, y2)
    ensures x1 == x2 && y1 == y2
  {
    var a, b := NatToString(x1), NatToString(y1);
    var c, d := NatToString(x2), NatToString(y2);
    assert RectId(x1, y1)[3..] == a + ['-'] + b;
    assert RectId(x2, y2)[3..] == c + ['-'] + d;
    assert '-' !in a && '-' !in c by {
      assert forall i :: 0 <= i < |a| ==> IsDigit(a[i]);
      assert forall i :: 0 <= i < |c| ==> IsDigit(c[i]);
    }
    SplitAtSeparator(a, b, c, d, '-');
    NatToStringInjective(x1, x2);
    NatToStringInjective(y1, y2);
  }

  lemma RectIdsOfDistinctCells(x1: nat, y1: nat, x2: nat, y2: nat)
    requires x1 != x2 || y1 != y2
    ensures RectId(x1, y1) != RectId(x2, y2)
  {
    if RectId(x1, y1) == RectId(x2, y2) {
      RectIdInjective(x1, y1, x2, y2);
    }
  }

  /**
   * No two rectangle lines of a document carry the same `id`: the lines
   * that draw two different cells are two different lines, and their
   * `box{x}-{y}` ids differ.
   */
  lemma RectIdsDistinct(width: nat, height: nat, pixels: seq<seq<Pixel>>, alpha: AlphaFormat,
                        x1: nat, y1: nat, x2: nat, y2: nat)
    requires Grid.Covers(pixels, width, height)
    requires x1 < width && y1 < height && x2 < width && y2 < height
    requires x1 != x2 || y1 != y2
    ensures LineOfCell(width, height, pixels, alpha, x1, y1)
    ensures LineOfCell(width, height, pixels, alpha, x2, y2)
    ensures y1 * width + x1 != y2 * width + x2
    ensures RectId(x1, y1) != RectId(x2, y2)
  {
    RectLineOfPixel(width, height, pixels, alpha, x1, y1);
    RectLineOfPixel(width, height, pixels, alpha, x2, y2);
    Grid.RowMajorDistinct(width, x1, y1, x2, y2);
    RectIdsOfDistinctCells(x1, y1, x2, y2);
  }

  lemma NoCommaInNumber(i: int)
    ensures ',' !in IntToString(i)
  {
    var s := IntToString(i);
    assert forall k :: 0 <= k < |s| ==> s[k] != ',';
  }

  /** Channel texts without commas can be read back from the `rgba(...)` notation. */
  lemma RgbaTextChannels(r1: string, g1: string, b1: string, a1: string,
                         r2: string, g2: string, b2: string, a2: string)
    requires ',' !in r1 && ',' !in g1 && ',' !in b1
    requires ',' !in r2 && ',' !in g2 && ',' !in b2
    requires RgbaText(r1, g1, b1, a1) == RgbaText(r2, g2, b2, a2)
    ensures r1 == r2 && g1 == g2 && b1 == b2
  {
    var tail1 := " " + g1 + ", " + b1 + ", " + a1 + ")";
    var tail2 := " " + g2 + ", " + b2 + ", " + a2 + ")";
    assert r1 == r2 && tail1 == tail2 by {
      assert RgbaText(r1, g1, b1, a1)[5..] == r1 + [','] + tail1;
      assert RgbaText(r2, g2, b2, a2)[5..] == r2 + [','] + tail2;
      SplitAtSeparator(r1, tail1, r2, tail2, ',');
    }
    ChannelTail(g1, b1, a1, g2, b2, a2);
  }

  lemma ChannelTail(g1: string, b1: string, a1: string, g2: string, b2: string, a2: string)
    requires ',' !in g1 && ',' !in b1 && ',' !in g2 && ',' !in b2
    requires " " + g1 + ", " + b1 + ", " + a1 + ")" == " " + g2 + ", " + b2 + ", " + a2 + ")"
    ensures g1 == g2 && b1 == b2
  {
    var rest1 := " " + b1 + ", " + a1 + ")";
    var rest2 := " " + b2 + ", " + a2 + ")";
    assert g1 == g2 && rest1 == rest2 by {
      assert (" " + g1 + ", " + b1 + ", " + a1 + ")")[1..] == g1 + [','] + rest1;
      assert (" " + g2 + ", " + b2 + ", " + a2 + ")")[1..] == g2 + [','] + rest2;
      SplitAtSeparator(g1, rest1, g2, rest2, ',');
    }
    var last1 := " " + a1 + ")";
    var last2 := " " + a2 + ")";
    assert rest1[1..] == b1 + [','] + last1;
    assert rest2[1..] == b2 + [','] + last2;
    SplitAtSeparator(b1, last1, b2, last2, ',');
  }

  /** The fill string gives back the red, green and blue channels unchanged. */
  lemma FillDeterminesColour(p: Pixel, q: Pixel, alpha: AlphaFormat)
    requires Fill(p, alpha) == Fill(q, alpha)
    ensures p.r == q.r && p.g == q.g && p.b == q.b
  {
    NoCommaInNumber(p.r);
    NoCommaInNumber(p.g);
    NoCommaInNumber(p.b);
    NoCommaInNumber(q.r);
    NoCommaInNumber(q.g);
    NoCommaInNumber(q.b);
    RgbaTextChannels(IntToString(p.r), IntToString(p.g), IntToString(p.b), alpha(p.a),
                     IntToString(q.r), IntToString(q.g), IntToString(q.b), alpha(q.a));
    IntToStringInjective(p.r, q.r);
    IntToStringInjective(p.g, q.g);
    IntToStringInjective(p.b, q.b);
  }

  /** The pixel (10, 20, 30) at full alpha reads `rgba(10, 20, 30, 1.0)` when 255 / 255 prints as `1.0`. */
  lemma FillOfChannels(alpha: AlphaFormat)
    requires alpha(255) == "1.0"
    ensures Fill(Pixel(10, 20, 30, 255), alpha) == "rgba(10, 20, 30, 1.0)"
  {
    assert NatToString(1) == "1";
    assert NatToString(10) == "10";
    assert NatToString(2) == "2";
    assert NatToString(20) == "20";
    assert NatToString(3) == "3";
    assert NatToString(30) == "30";
  }

  /**
   * `gen_apriltag_svg`: appends the preamble, then one line per pixel with
   * `y` in the outer and `x` in the inner loop, then the closing tag.
   */
  method RenderSvg(width: nat, height: nat, pixels: seq<seq<Pixel>>, size: string, alpha: AlphaFormat)
    returns (svg: string)
    requires Grid.Covers(pixels, width, height)
    ensures svg == Document(width, height, pixels, size, alpha)
  {
    ghost var grid := LineGrid(width, height, pixels, alpha);
    ghost var body: string := [];
    svg := XmlDeclaration;
    svg := svg + SvgOpen(size, width, height);
    ghost var head := svg;
    assert svg == head + body;
    for y := 0 to height
      invariant svg == head + body
      invariant body == Concat(Grid.RowMajor(grid, width, y))
    {
      ghost var done := Grid.RowMajor(grid, width, y);
      ghost var row := Grid.Row(grid, width, y);
      assert done + row[..0] == done by { assert row[..0] == []; }
      for x := 0 to width
        invariant svg == head + body
        invariant body == Concat(done + row[..x])
      {
        var line := RectLine(x, y, pixels[x][y], alpha);
        assert row[x] == line;
        AppendNextLine(head, body, done, row, x);
        svg := svg + line;
        body := body + line;
      }
      assert body == Concat(Grid.RowMajor(grid, width, y + 1)) by {
        assert row[..width] == row;
      }
    }
    assert body == Concat(RectLines(width, height, pixels, alpha));
    svg := svg + SvgClose;
  }
}
