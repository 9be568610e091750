/** The variable-width font converter (tools/generate_var_masks.py): an image
    of 8x8 glyphs becomes a table of glyph sizes followed by eight shifted
    renditions of every glyph. */
module GlyphMasks {
  import opened ByteSeqs

  /** A black-and-white image as `convert('1')` leaves it: one pixel value
      per column of every row; 255 is white, anything else is ink. */
  datatype Image = Image(width: nat, height: nat, pixels: seq<seq<int>>)

  predicate Valid(img: Image)
  {
    |img.pixels| == img.height && forall y | 0 <= y < |img.pixels| :: |img.pixels[y]| == img.width
  }

  /** Images whose 8-pixel bands of rows can be read as glyphs. */
  predicate Banded(img: Image)
  {
    Valid(img) && img.width >= 8 && img.height % 8 == 0
  }

  /** A glyph: its width in pixels, and its 8 rows as bytes, leftmost pixel first. */
  type Glyph = (nat, seq<int>)

  const White := 255
  /** A table of more bytes than this does not fit the bank it is assembled into. */
  const TableLimit: nat := 0x4000

  function Pow2(n: nat): (p: nat)
    ensures p >= 1
  {
    if n == 0 then 1 else 2 * Pow2(n - 1)
  }

  function Min(a: int, b: int): int
  {
    if a <= b then a else b
  }

  /** `0 if pixel == 255 else 1`. */
  function Bit(pixel: int): int
  {
    if pixel == White then 0 else 1
  }

  // ---------------------------------------------------------------------
  // extract_char

  /** The row built by `row = (row << 1) + value` over the first n pixels
      of a row: the first pixel ends up as the most significant bit. */
  function RowValue(px: seq<int>, n: nat): (v: int)
    requires n <= |px|
    ensures 0 <= v < Pow2(n)
  {
    if n == 0 then 0 else 2 * RowValue(px, n - 1) + Bit(px[n - 1])
  }

  /** The 8 row bytes of the glyph in the band starting at row `base`. */
  function Tile(img: Image, base: nat): seq<int>
    requires Valid(img) && img.width >= 8 && base + 8 <= img.height
  {
    seq(8, i requires 0 <= i < 8 => RowValue(img.pixels[base + i], 8))
  }

  /** Whether pixel (x, base + i) of the band is ink. */
  predicate Ink(img: Image, base: nat, i: nat, x: nat)
    requires Valid(img) && img.width >= 8 && base + 8 <= img.height && i < 8 && x < 8
  {
    img.pixels[base + i][x] != White
  }

  /** `max_x` after the inner loop of `extract_char` has passed the first
      x pixels of a row, starting from m: it moves to a column only for ink
      right of it. */
  function RowMax(px: seq<int>, m: nat, x: nat): (k: nat)
    requires x <= |px|
    ensures m <= k && (k == m || k < x)
  {
    if x == 0 then m
    else
      var k := RowMax(px, m, x - 1);
      if px[x - 1] != White && x - 1 > k then x - 1 else k
  }

  /** `max_x` after the first i rows of the band. */
  function MaxInk(img: Image, base: nat, i: nat): (m: nat)
    requires Valid(img) && img.width >= 8 && base + 8 <= img.height && i <= 8
    ensures m < 8
  {
    if i == 0 then 0 else RowMax(img.pixels[base + i - 1], MaxInk(img, base, i - 1), 8)
  }

  /** The glyph width: one more than the rightmost ink column, plus one
      column of padding, but never more than 7. */
  function GlyphWidth(img: Image, base: nat): nat
    requires Valid(img) && img.width >= 8 && base + 8 <= img.height
  {
    Min(MaxInk(img, base, 8) + 2, 7)
  }

  /** `extract_char(image, base_y)`. */
  method ExtractChar(img: Image, base: nat) returns (size: nat, tile: seq<int>)
    requires Valid(img) && img.width >= 8 && base + 8 <= img.height
    ensures size == GlyphWidth(img, base) && tile == Tile(img, base)
    ensures 2 <= size <= 7 && |tile| == 8 && forall i | 0 <= i < 8 :: 0 <= tile[i] < 256
  {
    tile := [];
    var maxX := 0;
    for y := base to base + 8
      invariant |tile| == y - base
      invariant forall i | 0 <= i < |tile| :: tile[i] == RowValue(img.pixels[base + i], 8)
      invariant maxX == MaxInk(img, base, y - base)
    {
      var row := 0;
      ghost var start := maxX;
      for x := 0 to 8
        invariant row == RowValue(img.pixels[y], x)
        invariant maxX == RowMax(img.pixels[y], start, x)
      {
        var value := if img.pixels[y][x] == White then 0 else 1;
        if value == 1 && x > maxX {
          maxX := x;
        }
        row := row * 2 + value;
      }
      tile := tile + [row];
    }
    size := Min(maxX + 2, 7);
    assert Pow2(8) == 256;
  }

  /** Bit n - 1 - x of a row value is pixel x: the leftmost pixel is the most significant bit. */
  lemma {:induction false} RowBit(px: seq<int>, n: nat, x: nat)
    requires x < n <= |px|
    ensures (RowValue(px, n) / Pow2(n - 1 - x)) % 2 == Bit(px[x])
    decreases n
  {
    var a := RowValue(px, n - 1);
    var b := Bit(px[n - 1]);
    if x == n - 1 {
      assert RowValue(px, n) == 2 * a + b;
    } else {
      RowBit(px, n - 1, x);
      var m := Pow2(n - 2 - x);
      assert Pow2(n - 1 - x) == 2 * m;
      HalveQuotient(a, b, m);
    }
  }

  /** Dropping the last bit halves the quotient: (2a + b) / 2m == a / m. */
  lemma HalveQuotient(a: int, b: int, m: int)
    requires 0 <= b < 2 && m > 0
    ensures (2 * a + b) / (2 * m) == a / m
  {
    var q := a / m;
    var r := a % m;
    assert 2 * a + b == q * (2 * m) + (2 * r + b) by {
      assert a == q * m + r;
      assert q * (2 * m) == 2 * (q * m);
    }
    DivUnique(2 * a + b, 2 * m, q, 2 * r + b);
  }

  /** Floor division is determined by quotient and remainder. */
  lemma DivUnique(n: int, d: int, q: int, r: int)
    requires d > 0 && n == q * d + r && 0 <= r < d
    ensures n / d == q && n % d == r
  {
    var q' := n / d;
    var r' := n % d;
    assert (q - q') * d == r' - r by {
      assert n == q' * d + r';
      assert (q - q') * d == q * d - q' * d;
    }
    MulOutside(q - q', d);
  }

  /** A nonzero multiple of d is at least d away from 0. */
  lemma {:induction false} MulOutside(a: int, d: int)
    requires d > 0
    ensures a >= 1 ==> a * d >= d
    ensures a <= -1 ==> a * d <= -d
    decreases if a < 0 then -a else a
  {
    if a > 1 {
      MulOutside(a - 1, d);
      assert a * d == (a - 1) * d + d;
    } else if a < -1 {
      MulOutside(a + 1, d);
      assert a * d == (a + 1) * d - d;
    }
  }

  /** Every row byte of a glyph holds its 8 pixels, column 0 in the most significant bit. */
  lemma TileBits(img: Image, base: nat, i: nat, x: nat)
    requires Valid(img) && img.width >= 8 && base + 8 <= img.height && i < 8 && x < 8
    ensures (Tile(img, base)[i] / Pow2(7 - x)) % 2 == Bit(img.pixels[base + i][x])
  {
    RowBit(img.pixels[base + i], 8, x);
  }

  /** Along a row, `max_x` is the rightmost ink column passed, or where it started. */
  lemma {:induction false} RowMaxIsRightmost(px: seq<int>, m: nat, x: nat)
    requires x <= |px|
    ensures forall x' | 0 <= x' < x && px[x'] != White :: x' <= RowMax(px, m, x)
    ensures RowMax(px, m, x) == m || px[RowMax(px, m, x)] != White
    decreases x
  {
    if x > 0 {
      RowMaxIsRightmost(px, m, x - 1);
    }
  }

  /** `max_x` is the rightmost ink column of the rows scanned, or 0 when there is none. */
  lemma {:induction false} MaxInkIsRightmost(img: Image, base: nat, i: nat)
    requires Valid(img) && img.width >= 8 && base + 8 <= img.height && i <= 8
    ensures forall i', x' | 0 <= i' < i && 0 <= x' < 8 && Ink(img, base, i', x') :: x' <= MaxInk(img, base, i)
    ensures MaxInk(img, base, i) == 0 || exists i' | 0 <= i' < i :: Ink(img, base, i', MaxInk(img, base, i))
    decreases i
  {
    if i > 0 {
      MaxInkIsRightmost(img, base, i - 1);
      var px := img.pixels[base + i - 1];
      var m := MaxInk(img, base, i - 1);
      RowMaxIsRightmost(px, m, 8);
      forall i', x' | 0 <= i' < i && 0 <= x' < 8 && Ink(img, base, i', x')
        ensures x' <= MaxInk(img, base, i)
      {
        if i' == i - 1 {
          assert px[x'] != White;
        }
      }
      if MaxInk(img, base, i) != m {
        assert Ink(img, base, i - 1, MaxInk(img, base, i));
      } else if m != 0 {
        var i' :| 0 <= i' < i - 1 && Ink(img, base, i', m);
      }
    }
  }

  /** The glyph width is between 2 and 7: it is 7 for ink in columns 5 to 7,
      the rightmost ink column plus 2 for ink further left, and 2 for a blank
      glyph or one inked only in column 0. */
  lemma GlyphWidthSpec(img: Image, base: nat)
    requires Valid(img) && img.width >= 8 && base + 8 <= img.height
    ensures 2 <= GlyphWidth(img, base) <= 7
    ensures forall i, x | 0 <= i < 8 && 0 <= x < 8 && Ink(img, base, i, x) :: Min(x + 2, 7) <= GlyphWidth(img, base)
    ensures (forall i, x | 0 <= i < 8 && 1 <= x < 8 :: !Ink(img, base, i, x)) ==> GlyphWidth(img, base) == 2
  {
    MaxInkIsRightmost(img, base, 8);
  }

  /** The "4" of the converter's module doc comment, ink drawn as 0. */
  function FourImage(): (img: Image)
    ensures Valid(img)
  {
    var w := White;
    Image(8, 8, [
      [0, w, w, w, w, w, w, w],
      [0, w, w, w, w, w, w, w],
      [0, w, 0, w, w, w, w, w],
      [0, 0, 0, 0, w, w, w, w],
      [w, w, 0, w, w, w, w, w],
      [w, w, 0, w, w, w, w, w],
      [w, w, 0, w, w, w, w, w],
      [w, w, w, w, w, w, w, w]])
  }

  /** The rows of the "4" as the module doc comment gives them in rendition 0. */
  const FourRows: seq<int> := [128, 128, 160, 240, 32, 32, 32, 0]

  /** A row byte weighs its pixels 128, 64, ..., 1 from the left. */
  lemma RowWeights(px: seq<int>)
    requires |px| >= 8
    ensures RowValue(px, 8) == 128 * Bit(px[0]) + 64 * Bit(px[1]) + 32 * Bit(px[2]) + 16 * Bit(px[3])
                               + 8 * Bit(px[4]) + 4 * Bit(px[5]) + 2 * Bit(px[6]) + Bit(px[7])
  {
    assert RowValue(px, 2) == 2 * Bit(px[0]) + Bit(px[1]);
    assert RowValue(px, 4) == 8 * Bit(px[0]) + 4 * Bit(px[1]) + 2 * Bit(px[2]) + Bit(px[3]);
    assert RowValue(px, 6) == 32 * Bit(px[0]) + 16 * Bit(px[1]) + 8 * Bit(px[2]) + 4 * Bit(px[3])
                              + 2 * Bit(px[4]) + Bit(px[5]);
  }

  /** Reading the "4" gives the rows the module doc comment shows. */
  lemma FourTile()
    ensures Tile(FourImage(), 0) == FourRows
  {
    var img := FourImage();
    forall i | 0 <= i < 8 ensures Tile(img, 0)[i] == FourRows[i] {
      RowWeights(img.pixels[i]);
    }
  }

  /** The "4" has ink up to column 3, so it is 5 pixels wide. */
  lemma FourWidth()
    ensures GlyphWidth(FourImage(), 0) == 5
  {
    var img := FourImage();
    MaxInkIsRightmost(img, 0, 8);
    var m := MaxInk(img, 0, 8);
    assert Ink(img, 0, 3, 3);
    var i :| 0 <= i < 8 && Ink(img, 0, i, m);
    assert img.pixels[i][4..] == [White, White, White, White];
  }

  // ---------------------------------------------------------------------
  // image_to_chars

  /** The glyphs of every band of a banded image, top to bottom. */
  function Chars(img: Image): seq<Glyph>
    requires Banded(img)
  {
    seq(img.height / 8, k requires 0 <= k < img.height / 8 => (GlyphWidth(img, 8 * k), Tile(img, 8 * k)))
  }

  /** `image_to_chars`: refuses images narrower than 8 pixels, and otherwise
      reads one glyph per band of 8 rows. */
  method ImageToChars(img: Image) returns (r: Result<seq<Glyph>>)
    requires Valid(img) && img.height % 8 == 0
    ensures r.Fail? <==> img.width < 8
    ensures r.Ok? ==> r.value == Chars(img)
  {
    if img.width < 8 {
      return Fail("Image must be at least 8px wide");
    }
    var chars: seq<Glyph> := [];
    for k := 0 to img.height / 8
      invariant |chars| == k
      invariant forall j | 0 <= j < k :: chars[j] == (GlyphWidth(img, 8 * j), Tile(img, 8 * j))
    {
      var size, tile := ExtractChar(img, 8 * k);
      chars := chars + [(size, tile)];
    }
    return Ok(chars);
  }

  // ---------------------------------------------------------------------
  // render_rendition

  /** `shifted // 256` for `shifted = row << (8 - rendition)`. */
  function FirstTile(row: int, rendition: nat): int
    requires rendition <= 8
  {
    row * Pow2(8 - rendition) / 256
  }

  /** `shifted % 256`. */
  function SecondTile(row: int, rendition: nat): int
    requires rendition <= 8
  {
    row * Pow2(8 - rendition) % 256
  }

  /** A rendition of a glyph: the first-tile bytes of all rows, then the second-tile bytes. */
  function Rendition(px: seq<int>, rendition: nat): seq<int>
    requires rendition <= 8
  {
    seq(|px|, i requires 0 <= i < |px| => FirstTile(px[i], rendition))
    + seq(|px|, i requires 0 <= i < |px| => SecondTile(px[i], rendition))
  }

  /** `render_rendition(pixels, rendition)`; a shift by a negative count is an
      error in the source, hence rendition <= 8. */
  method RenderRendition(px: seq<int>, rendition: nat) returns (out: seq<int>)
    requires rendition <= 8
    ensures out == Rendition(px, rendition)
  {
    var first: seq<int> := [];
    var second: seq<int> := [];
    for i := 0 to |px|
      invariant first == seq(i, j requires 0 <= j < i => FirstTile(px[j], rendition))
      invariant second == seq(i, j requires 0 <= j < i => SecondTile(px[j], rendition))
    {
      var shifted := px[i] * Pow2(8 - rendition);
      first := first + [shifted / 256];
      second := second + [shifted % 256];
    }
    out := first + second;
  }

  /** Shifting a row right by `rendition` pixels across two tiles: the first
      tile keeps the high bits of the row, moved down by `rendition`; the
      second gets the `rendition` low bits, moved to the top; the two tiles
      together hold the shifted row; and a row byte gives two bytes. */
  lemma TileSplit(row: int, rendition: nat)
    requires rendition <= 8
    ensures FirstTile(row, rendition) == row / Pow2(rendition)
    ensures SecondTile(row, rendition) == (row % Pow2(rendition)) * Pow2(8 - rendition)
    ensures FirstTile(row, rendition) * 256 + SecondTile(row, rendition) == row * Pow2(8 - rendition)
    ensures 0 <= row < 256 ==> 0 <= FirstTile(row, rendition) < 256 && 0 <= SecondTile(row, rendition) < 256
  {
    var p := Pow2(rendition);
    var s := Pow2(8 - rendition);
    PowSplit(rendition, 8 - rendition);
    ShiftSplit(row, p, s);
  }

  /** With p * s == 256: (row * s) / 256 == row / p and (row * s) % 256 == (row % p) * s. */
  lemma ShiftSplit(row: int, p: int, s: int)
    requires p >= 1 && s >= 1 && p * s == 256
    ensures (row * s) / 256 == row / p && (row * s) % 256 == (row % p) * s
    ensures 0 <= row < 256 ==> 0 <= row / p < 256
  {
    var q := row / p;
    var r := row % p;
    MulDistrib(row, q, p, r, s);
    MulLess(r, p, s);
    DivUnique(row * s, 256, q, r * s);
    if 0 <= row && q > 0 {
      MulOutside(p, q);
    }
  }

  lemma MulDistrib(row: int, q: int, p: int, r: int, s: int)
    requires row == q * p + r
    ensures row * s == q * (p * s) + r * s
  {
    assert row * s == (q * p) * s + r * s;
  }

  /** 0 <= r < p and s > 0 give 0 <= r * s < p * s. */
  lemma MulLess(r: int, p: int, s: int)
    requires 0 <= r < p && s > 0
    ensures 0 <= r * s < p * s
  {
    MulOutside(p - r, s);
    assert p * s - r * s == (p - r) * s;
  }

  lemma {:induction false} PowSplit(a: nat, b: nat)
    ensures Pow2(a) * Pow2(b) == Pow2(a + b)
    decreases a
  {
    if a > 0 {
      PowSplit(a - 1, b);
      assert Pow2(a) * Pow2(b) == 2 * (Pow2(a - 1) * Pow2(b));
    }
  }

  /** Rendition 0 puts each row byte unchanged into the first tile and leaves
      the second tile blank. */
  lemma RenditionZero(px: seq<int>)
    requires forall i | 0 <= i < |px| :: 0 <= px[i] < 256
    ensures Rendition(px, 0) == px + seq(|px|, _ => 0)
  {
    forall i | 0 <= i < |px| ensures FirstTile(px[i], 0) == px[i] && SecondTile(px[i], 0) == 0 {
      TileSplit(px[i], 0);
    }
  }

  /** The "4" of the module doc comment in rendition 6. */
  lemma FourRenditionSix()
    ensures Rendition(FourRows, 6) == [2, 2, 2, 3, 0, 0, 0, 0] + [0, 0, 128, 192, 128, 128, 128, 0]
  {
    assert Pow2(2) == 4;
  }

  // ---------------------------------------------------------------------
  // The table layout of main

  /** The eight renditions 0 .. n - 1 of a glyph, one after the other. */
  function Renditions(px: seq<int>, n: nat): seq<int>
    requires n <= 8
  {
    if n == 0 then [] else Renditions(px, n - 1) + Rendition(px, n - 1)
  }

  /** The renditions of every glyph, glyph after glyph. */
  function Tables(chars: seq<Glyph>): seq<int>
  {
    if chars == [] then [] else Tables(chars[..|chars| - 1]) + Renditions(chars[|chars| - 1].1, 8)
  }

  /** The size table: 32 times each glyph width. */
  function SizeTable(chars: seq<Glyph>): seq<int>
  {
    seq(|chars|, i requires 0 <= i < |chars| => 32 * chars[i].0)
  }

  /** `[0] * (256 - len(sizes))`: empty once there are 256 glyphs or more. */
  function Padding(n: nat): seq<int>
  {
    seq(if n <= 256 then 256 - n else 0, _ => 0)
  }

  /** The table `main` writes out. */
  function Layout(chars: seq<Glyph>): seq<int>
  {
    SizeTable(chars) + Padding(|chars|) + Tables(chars)
  }

  predicate InByteRange(data: seq<int>)
  {
    forall i | 0 <= i < |data| :: 0 <= data[i] < 256
  }

  /** The glyphs `extract_char` can produce: width at most 7, 8 row bytes. */
  predicate WellFormed(chars: seq<Glyph>)
  {
    forall k | 0 <= k < |chars| :: chars[k].0 <= 7 && |chars[k].1| == 8 && InByteRange(chars[k].1)
  }

  /** The loops of `main` over the glyphs and the checks on the table:
      fewer than 2^14 bytes, every one of them a byte. */
  method BuildTable(chars: seq<Glyph>) returns (r: Result<seq<int>>)
    ensures r.Ok? <==> |Layout(chars)| < TableLimit && InByteRange(Layout(chars))
    ensures r.Ok? ==> r.value == Layout(chars)
  {
    var sizes: seq<nat> := [];
    var tables: seq<int> := [];
    for k := 0 to |chars|
      invariant sizes == seq(k, i requires 0 <= i < k => chars[i].0)
      invariant tables == Tables(chars[..k])
    {
      var (size, px) := chars[k];
      sizes := sizes + [size];
      ghost var before := tables;
      for rendition := 0 to 8
        invariant tables == before + Renditions(px, rendition)
      {
        var out := RenderRendition(px, rendition);
        tables := tables + out;
      }
      assert chars[..k + 1][..k] == chars[..k];
    }
    assert chars[..|chars|] == chars;
    var data := seq(|sizes|, i requires 0 <= i < |sizes| => 32 * sizes[i])
                + seq(if |sizes| <= 256 then 256 - |sizes| else 0, _ => 0) + tables;
    assert data == Layout(chars);
    if |data| >= TableLimit {
      return Fail("table too large");
    }
    for i := 0 to |data|
      invariant forall j | 0 <= j < i :: 0 <= data[j] < 256
    {
      if !(0 <= data[i] < 256) {
        return Fail("byte out of range");
      }
    }
    return Ok(data);
  }

  /** Each rendition of an 8-row glyph is 16 bytes, and the renditions take 128. */
  lemma {:induction false} RenditionsLength(px: seq<int>, n: nat)
    requires n <= 8
    ensures |Renditions(px, n)| == 2 * |px| * n
    decreases n
  {
    if n > 0 {
      RenditionsLength(px, n - 1);
    }
  }

  /** Byte j of rendition `rendition` of a glyph sits at 2 * |px| * rendition + j. */
  lemma {:induction false} RenditionsIndex(px: seq<int>, n: nat, rendition: nat, j: nat)
    requires n <= 8 && rendition < n && j < 2 * |px|
    ensures 2 * |px| * rendition + j < |Renditions(px, n)|
    ensures Renditions(px, n)[2 * |px| * rendition + j] == Rendition(px, rendition)[j]
    decreases n
  {
    RenditionsLength(px, n - 1);
    if rendition < n - 1 {
      RenditionsIndex(px, n - 1, rendition, j);
    }
  }

  /** Each glyph adds 128 bytes of renditions. */
  lemma {:induction false} TablesLength(chars: seq<Glyph>)
    requires WellFormed(chars)
    ensures |Tables(chars)| == 128 * |chars|
    decreases |chars|
  {
    if chars != [] {
      var init := chars[..|chars| - 1];
      assert WellFormed(init) by {
        forall k | 0 <= k < |init| ensures init[k] == chars[k] {}
      }
      TablesLength(init);
      RenditionsLength(chars[|chars| - 1].1, 8);
    }
  }

  /** Byte j of rendition `rendition` of glyph k sits 128 * k + 16 * rendition + j
      bytes into the renditions. */
  lemma {:induction false} TablesIndex(chars: seq<Glyph>, k: nat, rendition: nat, j: nat)
    requires WellFormed(chars) && k < |chars| && rendition < 8 && j < 16
    ensures 128 * k + 16 * rendition + j < |Tables(chars)|
    ensures Tables(chars)[128 * k + 16 * rendition + j] == Rendition(chars[k].1, rendition)[j]
    decreases |chars|
  {
    var init := chars[..|chars| - 1];
    assert WellFormed(init) by {
      forall i | 0 <= i < |init| ensures init[i] == chars[i] {}
    }
    TablesLength(init);
    TablesLength(chars);
    if k < |chars| - 1 {
      TablesIndex(init, k, rendition, j);
      assert init[k] == chars[k];
    } else {
      RenditionsIndex(chars[k].1, 8, rendition, j);
    }
  }

  /** The table of well-formed glyphs: a size byte 32 * width per glyph,
      zeros up to byte 256, then 128 bytes of renditions per glyph with
      rendition r of glyph k at 256 + 128 * k + 16 * r (for up to 256 glyphs);
      every entry is a byte, and the table fits below 2^14 bytes exactly for
      up to 125 glyphs. */
  lemma LayoutShape(chars: seq<Glyph>)
    requires WellFormed(chars)
    ensures InByteRange(Layout(chars))
    ensures |chars| <= 256 ==> |Layout(chars)| == 256 + 128 * |chars|
    ensures |Layout(chars)| < TableLimit <==> |chars| <= 125
    ensures forall k | 0 <= k < |chars| :: Layout(chars)[k] == 32 * chars[k].0
    ensures forall k | |chars| <= k < 256 :: Layout(chars)[k] == 0
    ensures |chars| <= 256 ==>
              forall k, rendition, j | 0 <= k < |chars| && 0 <= rendition < 8 && 0 <= j < 16 ::
                Layout(chars)[256 + 128 * k + 16 * rendition + j] == Rendition(chars[k].1, rendition)[j]
  {
    TablesLength(chars);
    var pre := SizeTable(chars) + Padding(|chars|);
    assert |pre| == if |chars| <= 256 then 256 else |chars|;
    forall i | 0 <= i < |Tables(chars)| ensures 0 <= Tables(chars)[i] < 256 {
      var k := i / 128;
      var rendition := (i % 128) / 16;
      var j := i % 16;
      assert i == 128 * k + 16 * rendition + j;
      TablesIndex(chars, k, rendition, j);
      var px := chars[k].1;
      if j < 8 {
        TileSplit(px[j], rendition);
      } else {
        TileSplit(px[j - 8], rendition);
      }
    }
    if |chars| <= 256 {
      forall k, rendition, j | 0 <= k < |chars| && 0 <= rendition < 8 && 0 <= j < 16
        ensures Layout(chars)[256 + 128 * k + 16 * rendition + j] == Rendition(chars[k].1, rendition)[j]
      {
        TablesIndex(chars, k, rendition, j);
      }
    }
  }

  /** `main` without its I/O: reads the glyphs and builds the table. */
  method EncodeFont(img: Image) returns (r: Result<seq<int>>)
    requires Valid(img) && img.height % 8 == 0
    ensures r.Ok? <==> img.width >= 8 && img.height / 8 <= 125
    ensures r.Ok? ==> r.value == Layout(Chars(img)) && InByteRange(r.value)
  {
    var chars := ImageToChars(img);
    if chars.Fail? {
      return Fail(chars.error);
    }
    CharsWellFormed(img);
    LayoutShape(chars.value);
    r := BuildTable(chars.value);
  }

  /** Every glyph read from an image is well formed. */
  lemma CharsWellFormed(img: Image)
    requires Banded(img)
    ensures WellFormed(Chars(img))
  {
    forall k | 0 <= k < img.height / 8
      ensures Chars(img)[k].0 <= 7 && |Chars(img)[k].1| == 8 && InByteRange(Chars(img)[k].1)
    {
      var tile := Chars(img)[k].1;
      assert tile == Tile(img, 8 * k);
      assert Pow2(8) == 256;
      forall i | 0 <= i < 8 ensures 0 <= tile[i] < 256 {
        assert tile[i] == RowValue(img.pixels[8 * k + i], 8);
      }
    }
  }
}
