/**
 * Pages and the stitched canvas.  A page is what png.Decode hands back,
 * reduced to what merge reads of it: its size and, per pixel, the 16-bit
 * alpha that RGBA() reports.  The canvas (an *image.Gray in the source) is a
 * two-dimensional array of bytes indexed [column, row].
 */
module Canvas {
  import opened Results


  /** An 8-bit grey value (color.Gray's Y). */
  type Byte = x: int | 0 <= x < 0x100

  /** The alpha channel as color.Color.RGBA() reports it: 16 bits. */
  type Alpha16 = x: int | 0 <= x < 0x1_0000

  /** A decoded page of width × height pixels; alpha[x][y] is the alpha at column x, row y. */
  datatype Image = Image(width: nat, height: nat, alpha: seq<seq<Alpha16>>)

  predicate WellFormed(img: Image)
  {
    |img.alpha| == img.width && forall x :: 0 <= x < img.width ==> |img.alpha[x]| == img.height
  }

  predicate AllWellFormed(pages: seq<Image>)
  {
    forall k :: 0 <= k < |pages| ==> WellFormed(pages[k])
  }

  /** "invalid images: image %d has height %d != %d" */
  datatype MergeError = HeightMismatch(index: nat, height: nat, want: nat)

  /**
   * img.At(x, y).RGBA()'s alpha.  Rows at or below the page's height are
   * taken to report alpha 0, as the RGBA and NRGBA images do; an
   * *image.Gray reports 0xffff there and a paletted image its first colour.
   * merge reads such rows only on a zero-height page ahead of the first
   * page with rows, which png.Decode never returns.
   */
  function AlphaAt(img: Image, x: nat, y: nat): Alpha16
    requires WellFormed(img) && x < img.width
  {
    if y < img.height then img.alpha[x][y] else 0
  }

  /** uint8(255 - a) on a uint32: the difference wraps modulo 2^32, the cast keeps the low byte. */
  function Grey(a: Alpha16): (g: Byte)
    ensures a <= 255 ==> g == 255 - a
    ensures (g + a) % 0x100 == 0xFF
  {
    (255 - a) % 0x100
  }

  /** An 8-bit alpha A is reported as the 16-bit A * 0x101, and comes out as grey 255 - A: more ink, darker grey. */
  lemma GreyOf8BitAlpha(a8: int)
    requires 0 <= a8 < 0x100
    ensures Grey(a8 * 0x101) == 255 - a8
  {
    var a := a8 * 0x101;
    assert 255 - a == (255 - a8) + 0x100 * (-a8);
    assert (255 - a) % 0x100 == (255 - a8) by {
      ModShift(255 - a8, -a8);
    }
  }

  lemma ModShift(r: int, q: int)
    requires 0 <= r < 0x100
    ensures (r + 0x100 * q) % 0x100 == r
  {
  }

  // ---------------------------------------------------------------------------
  // Heights and widths as merge's first loop accumulates them

  /**
   * The height h that merge's first loop holds before looking at page i: the
   * first non-zero height among pages[..i], or 0 if there is none.
   */
  function HeightBefore(pages: seq<Image>, i: nat): nat
    requires i <= |pages|
  {
    if i == 0 then 0
    else
      var h := HeightBefore(pages, i - 1);
      if h == 0 then pages[i - 1].height else h
  }

  /** merge rejects page i: a height was already fixed and page i does not have it. */
  predicate MismatchAt(pages: seq<Image>, i: nat)
    requires i < |pages|
  {
    HeightBefore(pages, i) != 0 && pages[i].height != HeightBefore(pages, i)
  }

  /** HeightBefore is the height of the earliest page with a non-zero height, or 0 if all are flat. */
  lemma {:induction false} HeightBeforeIsFirstNonZero(pages: seq<Image>, i: nat)
    requires i <= |pages|
    ensures HeightBefore(pages, i) == 0 <==> forall j :: 0 <= j < i ==> pages[j].height == 0
    ensures HeightBefore(pages, i) != 0 ==>
      exists j :: 0 <= j < i && pages[j].height == HeightBefore(pages, i) &&
        forall j' :: 0 <= j' < j ==> pages[j'].height == 0
  {
    if i > 0 {
      HeightBeforeIsFirstNonZero(pages, i - 1);
      if HeightBefore(pages, i - 1) == 0 && pages[i - 1].height != 0 {
        assert pages[i - 1].height == HeightBefore(pages, i);
      }
    }
  }

  /** The sum of the page widths. */
  function TotalWidth(pages: seq<Image>): nat
  {
    if |pages| == 0 then 0 else TotalWidth(pages[..|pages| - 1]) + pages[|pages| - 1].width
  }

  /** Column of the canvas where page k starts: the widths of the pages before it. */
  function Offset(pages: seq<Image>, k: nat): nat
    requires k <= |pages|
  {
    TotalWidth(pages[..k])
  }

  lemma OffsetStep(pages: seq<Image>, k: nat)
    requires k < |pages|
    ensures Offset(pages, k + 1) == Offset(pages, k) + pages[k].width
  {
    assert pages[..k + 1][..k] == pages[..k];
  }

  lemma {:induction false} OffsetBound(pages: seq<Image>, k: nat)
    requires k < |pages|
    ensures Offset(pages, k) + pages[k].width <= TotalWidth(pages)
  {
    var n := |pages| - 1;
    assert pages[..|pages|] == pages;
    if k < n {
      OffsetBound(pages[..n], k);
      assert pages[..n][..k] == pages[..k];
    } else {
      OffsetStep(pages, k);
    }
  }

  /**
   * The canvas pixel at column x, row y: the grey of the alpha at the
   * matching column of the page that owns column x.
   */
  function StitchedPixel(pages: seq<Image>, x: nat, y: nat): Byte
    requires AllWellFormed(pages) && x < TotalWidth(pages)
    decreases |pages|
  {
    var n := |pages| - 1;
    var off := TotalWidth(pages[..n]);
    if x >= off then Grey(AlphaAt(pages[n], x - off, y))
    else StitchedPixel(pages[..n], x, y)
  }

  /** Column xx of page k lands at column Offset(k) + xx of the canvas. */
  lemma {:induction false} StitchedAt(pages: seq<Image>, k: nat, xx: nat, y: nat)
    requires AllWellFormed(pages) && k < |pages| && xx < pages[k].width
    ensures Offset(pages, k) + xx < TotalWidth(pages)
    ensures StitchedPixel(pages, Offset(pages, k) + xx, y) == Grey(AlphaAt(pages[k], xx, y))
  {
    OffsetBound(pages, k);
    var n := |pages| - 1;
    if k < n {
      var pre := pages[..n];
      assert pre[..k] == pages[..k];
      OffsetBound(pre, k);
      StitchedAt(pre, k, xx, y);
    } else {
      assert pages[..n] == pages[..k];
    }
  }

  // ---------------------------------------------------------------------------
  // Reading the canvas

  /** How many of the first n pixels of column x are darker than 25. */
  function BlacksBelow(c: array2<Byte>, x: nat, n: nat): (b: nat)
    reads c
    requires x < c.Length0 && n <= c.Length1
    ensures b <= n
  {
    if n == 0 then 0 else BlacksBelow(c, x, n - 1) + (if c[x, n - 1] < 25 then 1 else 0)
  }

  // ---------------------------------------------------------------------------
  // merge (the same code in sheet.go and segment.go)

  /** Columns 0 .. upto-1 of the canvas hold the stitched pixels. */
  ghost predicate FilledUpTo(pages: seq<Image>, c: array2<Byte>, upto: nat)
    reads c
    requires AllWellFormed(pages) && c.Length0 == TotalWidth(pages)
  {
    forall x, y :: 0 <= x < upto && x < c.Length0 && 0 <= y < c.Length1 ==> c[x, y] == StitchedPixel(pages, x, y)
  }

  lemma FilledNextColumn(pages: seq<Image>, c: array2<Byte>, col: nat)
    requires AllWellFormed(pages) && c.Length0 == TotalWidth(pages) && col < c.Length0
    requires FilledUpTo(pages, c, col)
    requires forall y :: 0 <= y < c.Length1 ==> c[col, y] == StitchedPixel(pages, col, y)
    ensures FilledUpTo(pages, c, col + 1)
  {
  }

  /** The error merge reports: i is the first page that breaks the height fixed before it. */
  predicate FirstMismatch(pages: seq<Image>, e: MergeError)
  {
    && e.index < |pages|
    && MismatchAt(pages, e.index)
    && (forall j :: 0 <= j < e.index ==> !MismatchAt(pages, j))
    && e.height == pages[e.index].height
    && e.want == HeightBefore(pages, e.index)
  }

  /**
   * Stitches the pages side by side into one grey canvas.  It fails exactly
   * when some page's height differs from the first non-zero height before it,
   * naming the first such page; otherwise the canvas is as wide as all pages
   * together and as high as the first non-zero height, and every pixel is the
   * grey of the owning page's alpha.
   */
  method Merge(pages: seq<Image>) returns (r: Result<array2<Byte>, MergeError>)
    requires AllWellFormed(pages)
    ensures r.Err? <==> exists i :: 0 <= i < |pages| && MismatchAt(pages, i)
    ensures r.Err? ==> FirstMismatch(pages, r.error)
    ensures r.Ok? ==> fresh(r.value)
    ensures r.Ok? ==> && r.value.Length0 == TotalWidth(pages)
                      && r.value.Length1 == HeightBefore(pages, |pages|)
                      && FilledUpTo(pages, r.value, r.value.Length0)
  {
    var w, h := 0, 0;
    var i := 0;
    while i < |pages|
      invariant i <= |pages|
      invariant h == HeightBefore(pages, i) && w == TotalWidth(pages[..i])
      invariant forall j :: 0 <= j < i ==> !MismatchAt(pages, j)
    {
      var img := pages[i];
      if h == 0 {
        h := img.height;
      } else if h != img.height {
        assert MismatchAt(pages, i);
        return Err(HeightMismatch(i, img.height, h));
      }
      w := w + img.width;
      assert pages[..i + 1][..i] == pages[..i];
      i := i + 1;
    }
    assert pages[..|pages|] == pages;
    var res := new Byte[w, h];
    var x := 0;
    var k := 0;
    while k < |pages|
      invariant k <= |pages| && x == Offset(pages, k) && x <= w
      invariant FilledUpTo(pages, res, x)
    {
      var img := pages[k];
      OffsetBound(pages, k);
      var xx := 0;
      while xx < img.width
        invariant xx <= img.width
        invariant FilledUpTo(pages, res, x + xx)
      {
        var col, yy := x + xx, 0;
        while yy < h
          invariant yy <= h
          invariant FilledUpTo(pages, res, col)
          invariant forall y :: 0 <= y < yy ==> res[col, y] == StitchedPixel(pages, col, y)
        {
          StitchedAt(pages, k, xx, yy);
          res[col, yy] := Grey(AlphaAt(img, xx, yy));
          yy := yy + 1;
        }
        FilledNextColumn(pages, res, col);
        xx := xx + 1;
      }
      OffsetStep(pages, k);
      x := x + img.width;
      k := k + 1;
    }
    return Ok(res);
  }
}
