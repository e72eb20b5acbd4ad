/**
 * The pixel buffer: a row-major grid of `width * height` four-byte cells,
 * allocated zeroed and changed only through `Set`.
 */
module CanvasCore {

  /** An unsigned 8-bit channel. */
  newtype u8 = x: int | 0 <= x < 0x100

  /** One cell. The field order b, g, r, a is the order of the four bytes in memory. */
  datatype Color = Color(b: u8, g: u8, r: u8, a: u8)

  /** What a freshly allocated cell holds: every byte zero. */
  const Zeroed := Color(0, 0, 0, 0)
  const OpaqueBlack := Color(0, 0, 0, 255)
  const OpaqueWhite := Color(255, 255, 255, 255)

  /** Bytes per cell: the cell has the size of a `u32`. */
  const CellBytes: nat := 4
  const UsizeMax: nat := 0xFFFF_FFFF_FFFF_FFFF
  const IsizeMax: nat := 0x7FFF_FFFF_FFFF_FFFF

  /** The four bytes of a cell read as one little-endian 32-bit word (0xAARRGGBB). */
  function Word(c: Color): nat
  {
    c.b as nat + 0x100 * (c.g as nat + 0x100 * (c.r as nat + 0x100 * c.a as nat))
  }

  /** Splits a 32-bit word into its four bytes, lowest first. */
  function FromWord(w: nat): Color
    requires w < 0x1_0000_0000
  {
    var w1 := w / 0x100;
    var w2 := w1 / 0x100;
    Color((w % 0x100) as u8, (w1 % 0x100) as u8, (w2 % 0x100) as u8, (w2 / 0x100) as u8)
  }

  /** `n` is `q * d + r` with `0 <= r < d` exactly when `n / d == q` and `n % d == r`. */
  lemma DivModUnique(n: nat, d: nat, q: nat, r: nat)
    requires 0 <= r < d && n == q * d + r
    ensures n / d == q && n % d == r
  {
    var q', r' := n / d, n % d;
    assert n == q' * d + r';
    if q' < q {
      MulMonotone(d, q' + 1, q);
      assert false;
    } else if q < q' {
      MulMonotone(d, q + 1, q');
      assert false;
    }
  }

  lemma MulMonotone(a: nat, b: nat, c: nat)
    requires b <= c
    ensures a * b <= a * c
  {
    assert a * c == a * b + a * (c - b);
  }

  /** Every cell is exactly one 32-bit word: the word of a cell is below 2^32 and gives the cell back. */
  lemma {:induction false} WordRoundTrip(c: Color)
    ensures Word(c) < 0x1_0000_0000 && FromWord(Word(c)) == c
  {
    var w2 := c.r as nat + 0x100 * c.a as nat;
    var w1 := c.g as nat + 0x100 * w2;
    var w := Word(c);
    DivModUnique(w, 0x100, w1, c.b as nat);
    DivModUnique(w1, 0x100, w2, c.g as nat);
    DivModUnique(w2, 0x100, c.a as nat, c.r as nat);
  }

  /** Every 32-bit word is the word of exactly one cell. */
  lemma {:induction false} FromWordRoundTrip(w: nat)
    requires w < 0x1_0000_0000
    ensures Word(FromWord(w)) == w
  {
    var w1 := w / 0x100;
    var w2 := w1 / 0x100;
    assert w2 / 0x100 < 0x100;
  }

  /** Row-major position of cell (x, y) in a buffer `width` cells wide. */
  function Index(width: nat, x: nat, y: nat): nat
  {
    x + width * y
  }

  /** An in-bounds coordinate pair lands inside the buffer. */
  lemma IndexInBounds(width: nat, height: nat, x: nat, y: nat)
    requires x < width && y < height
    ensures Index(width, x, y) < width * height
  {
    MulMonotone(width, y + 1, height);
  }

  /** The position determines the coordinates: x is its remainder and y its quotient by the width. */
  lemma IndexDecode(width: nat, x: nat, y: nat)
    requires x < width
    ensures Index(width, x, y) % width == x && Index(width, x, y) / width == y
  {
    DivModUnique(Index(width, x, y), width, y, x);
  }

  /** Distinct in-bounds coordinate pairs occupy distinct cells. */
  lemma IndexInjective(width: nat, x: nat, y: nat, x': nat, y': nat)
    requires x < width && x' < width
    requires Index(width, x, y) == Index(width, x', y')
    ensures x == x' && y == y'
  {
    IndexDecode(width, x, y);
    IndexDecode(width, x', y');
  }

  /** Every cell of the buffer is the cell of some in-bounds coordinate pair. */
  lemma IndexCovers(width: nat, height: nat, i: nat)
    requires i < width * height
    ensures i % width < width && i / width < height
    ensures Index(width, i % width, i / width) == i
  {
    if height <= i / width {
      MulMonotone(width, height, i / width);
    }
  }

  /** A canvas whose every in-bounds cell holds `c` holds `c` in every cell of its buffer. */
  lemma EveryCell(canvas: Canvas, c: Color)
    requires canvas.Valid()
    requires forall x: nat, y: nat :: x < canvas.width && y < canvas.height ==> canvas.At(x, y) == c
    ensures forall i :: 0 <= i < canvas.data.Length ==> canvas.data[i] == c
  {
    forall i | 0 <= i < canvas.data.Length
      ensures canvas.data[i] == c
    {
      IndexCovers(canvas.width, canvas.height, i);
      assert canvas.At(i % canvas.width, i / canvas.width) == c;
    }
  }

  /**
   * Whether `Layout::array` accepts `n` cells, on a 64-bit target under the
   * current layout rule: their byte size must not exceed isize::MAX.
   */
  predicate LayoutFits(n: nat)
  {
    CellBytes * n <= IsizeMax
  }

  /** The error `Layout::array` reports for a buffer too large to describe. */
  datatype LayoutError = LayoutError

  datatype Result<T> = Ok(value: T) | Err(error: LayoutError)

  class Canvas {
    const width: nat
    const height: nat
    const data: array<Color>

    ghost predicate Valid()
    {
      data.Length == width * height
    }

    /** The cell at column x of row y. */
    ghost function At(x: nat, y: nat): Color
      reads data
      requires Valid() && x < width && y < height
    {
      IndexInBounds(width, height, x, y);
      data[Index(width, x, y)]
    }

    /** Allocates a zeroed buffer of `width * height` cells. */
    constructor Allocate(width: nat, height: nat)
      ensures Valid() && fresh(data)
      ensures this.width == width && this.height == height
      ensures forall i :: 0 <= i < data.Length ==> data[i] == Zeroed
    {
      this.width := width;
      this.height := height;
      data := new Color[width * height](_ => Zeroed);
    }

    /**
     * `Canvas::new`: fails only when the layout of `width * height` cells is rejected;
     * otherwise every cell of the new canvas is zero.
     */
    static method New(width: nat, height: nat) returns (r: Result<Canvas>)
      requires 0 < width && 0 < height && width * height <= UsizeMax
      ensures r.Err? <==> !LayoutFits(width * height)
      ensures r.Ok? ==> fresh(r.value) && fresh(r.value.data) && r.value.Valid()
      ensures r.Ok? ==> r.value.width == width && r.value.height == height
      ensures r.Ok? ==> forall x: nat, y: nat :: x < width && y < height ==> r.value.At(x, y) == Zeroed
    {
      if !LayoutFits(width * height) {
        return Err(LayoutError);
      }
      var c := new Canvas.Allocate(width, height);
      forall x: nat, y: nat | x < width && y < height
        ensures c.At(x, y) == Zeroed
      {
        IndexInBounds(width, height, x, y);
      }
      r := Ok(c);
    }

    function Width(): (w: nat)
      requires Valid()
      ensures w * height == data.Length
    {
      width
    }

    function Height(): (h: nat)
      requires Valid()
      ensures width * h == data.Length
    {
      height
    }

    /** Writes `c` at (x, y); no other cell changes. */
    method Set(x: nat, y: nat, c: Color)
      requires Valid() && x < width && y < height
      modifies data
      ensures Index(width, x, y) < data.Length && data[..] == old(data[..])[Index(width, x, y) := c]
      ensures At(x, y) == c
      ensures forall x': nat, y': nat :: x' < width && y' < height && (x' != x || y' != y) ==>
        At(x', y') == old(At(x', y'))
    {
      var i := Index(width, x, y);
      IndexInBounds(width, height, x, y);
      data[i] := c;
      forall x': nat, y': nat | x' < width && y' < height && (x' != x || y' != y)
        ensures At(x', y') == old(At(x', y'))
      {
        var j := Index(width, x', y');
        IndexInBounds(width, height, x', y');
        if j == i {
          IndexInjective(width, x, y, x', y');
        }
        assert data[j] == old(data[j]);
      }
    }
  }
}
