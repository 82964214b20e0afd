/** The discrete part of the Fourier hologram demo: the letter-H test object
    painted by slice assignment, and the sideband mask that reconstruction
    builds and multiplies into the spectrum. The Fourier transforms, their
    shifts, the reference wave and the intensities around these steps are
    floating-point library work and are not modelled; the spectrum the mask
    acts on is a grid of abstract elements. */
module FourierHologram {
  import opened Grid

  // ---------------------------------------------------------------------
  // Test object (generate_object_image)
  // ---------------------------------------------------------------------

  /** Stroke width of the letter. */
  function Thickness(size: nat): nat { size / 20 }

  /** Length of the two vertical strokes. */
  function BarLength(size: nat): nat { size / 2 }

  /** First and one-past-last row of the vertical strokes. */
  function StartY(size: nat): nat { size / 4 }
  function EndY(size: nat): nat { StartY(size) + BarLength(size) }

  /** First row of the horizontal stroke, half a stroke above the middle row. */
  function BarY(size: nat): int { size / 2 - Thickness(size) / 2 }

  /** The left vertical stroke, `image[start_y:end_y, size//4:size//4+thickness]`. */
  function LeftBar(size: nat): (b: Rect)
    ensures b.WithinGrid(size, size)
    ensures b.Height() == size / 2 && b.Width() == size / 20
  {
    Rect(StartY(size), EndY(size), size / 4, size / 4 + Thickness(size))
  }

  /** The right vertical stroke, `image[start_y:end_y, 3*size//4-thickness:3*size//4]`;
      Python reads `3*size//4` as `(3*size)//4`. */
  function RightBar(size: nat): (b: Rect)
    ensures b.WithinGrid(size, size)
    ensures b.Height() == size / 2 && b.Width() == size / 20
  {
    Rect(StartY(size), EndY(size), (3 * size) / 4 - Thickness(size), (3 * size) / 4)
  }

  /** The horizontal stroke, `image[bar_y:bar_y+thickness, size//4:3*size//4]`. */
  function CrossBar(size: nat): (b: Rect)
    ensures b.WithinGrid(size, size)
    ensures b.Height() == size / 20 && b.Width() == (3 * size) / 4 - size / 4
  {
    Rect(BarY(size), BarY(size) + Thickness(size), size / 4, (3 * size) / 4)
  }

  /** The cell (r, c) belongs to one of the three strokes. */
  predicate InLetterH(size: nat, r: int, c: int) {
    LeftBar(size).Contains(r, c) || RightBar(size).Contains(r, c) || CrossBar(size).Contains(r, c)
  }

  /** A size x size array of zeros with the three strokes of an "H" set to one. */
  method GenerateObjectImage(size: nat) returns (image: array2<real>)
    ensures image.Length0 == size && image.Length1 == size
    ensures forall r, c :: 0 <= r < size && 0 <= c < size ==> image[r, c] == 0.0 || image[r, c] == 1.0
    ensures forall r, c :: LeftBar(size).Contains(r, c) ==> image[r, c] == 1.0
    ensures forall r, c :: RightBar(size).Contains(r, c) ==> image[r, c] == 1.0
    ensures forall r, c :: CrossBar(size).Contains(r, c) ==> image[r, c] == 1.0
    ensures forall r, c :: 0 <= r < size && 0 <= c < size && !InLetterH(size, r, c) ==> image[r, c] == 0.0
  {
    image := new real[size, size]((r, c) => 0.0);
    FillRect(image, LeftBar(size), 1.0);
    FillRect(image, RightBar(size), 1.0);
    FillRect(image, CrossBar(size), 1.0);
  }

  /** Below 20 pixels the stroke width `size // 20` is zero, so nothing is painted
      and the test object is entirely blank. */
  lemma SmallCanvasIsBlank(size: nat, r: int, c: int)
    requires size < 20
    ensures !InLetterH(size, r, c)
  {
  }

  /** From 20 pixels on the three strokes are non-empty and form a connected "H":
      the horizontal stroke lies within the rows of the vertical ones, starts at
      the left stroke's first column and ends at the right stroke's last column,
      and the two vertical strokes do not touch. */
  lemma LetterHIsConnected(size: nat)
    requires size >= 20
    ensures LeftBar(size).Height() > 0 && LeftBar(size).Width() > 0
    ensures CrossBar(size).Height() > 0
    ensures StartY(size) <= BarY(size) && BarY(size) + Thickness(size) <= EndY(size)
    ensures CrossBar(size).colLo == LeftBar(size).colLo
    ensures CrossBar(size).colHi == RightBar(size).colHi
    ensures LeftBar(size).colHi < RightBar(size).colLo
  {
  }

  /** On a canvas whose side is a multiple of 4 the letter is mirror-symmetric
      about the vertical centre line. */
  lemma LetterHIsMirrorSymmetric(size: nat, r: int, c: int)
    requires size % 4 == 0 && 0 <= c < size
    ensures InLetterH(size, r, c) <==> InLetterH(size, r, size - 1 - c)
  {
  }

  // ---------------------------------------------------------------------
  // Sideband mask (reconstruct_hologram, mask build and multiply)
  // ---------------------------------------------------------------------

  /** The region the mask sets to true: with `center = size // 2`, the columns
      left of the centre for "left", the columns from the centre on for
      "right", and for every other selector a centred square of side
      `2 * (size // 4)`. */
  function MaskRegion(size: nat, filterSide: string): (w: Rect)
    ensures w.WithinGrid(size, size)
  {
    var center := size / 2;
    if filterSide == "left" then Rect(0, size, 0, center)
    else if filterSide == "right" then Rect(0, size, center, size)
    else Rect(center - size / 4, center + size / 4, center - size / 4, center + size / 4)
  }

  /** `mask = np.zeros((size, size), dtype=bool)` followed by the slice
      assignment its selector chooses. */
  method BuildMask(size: nat, filterSide: string) returns (mask: array2<bool>)
    ensures mask.Length0 == size && mask.Length1 == size
    ensures forall r, c :: 0 <= r < size && 0 <= c < size ==> (mask[r, c] <==> MaskRegion(size, filterSide).Contains(r, c))
    ensures filterSide == "left" ==>
              forall r, c :: 0 <= r < size && 0 <= c < size ==> (mask[r, c] <==> c < size / 2)
    ensures filterSide == "right" ==>
              forall r, c :: 0 <= r < size && 0 <= c < size ==> (mask[r, c] <==> c >= size / 2)
    ensures filterSide != "left" && filterSide != "right" ==>
              forall r, c :: 0 <= r < size && 0 <= c < size ==>
                (mask[r, c] <==> size / 2 - size / 4 <= r < size / 2 + size / 4
                                 && size / 2 - size / 4 <= c < size / 2 + size / 4)
  {
    mask := new bool[size, size]((r, c) => false);
    FillRect(mask, MaskRegion(size, filterSide), true);
  }

  /** `spectrum * mask`: the element where the mask is true, the element type's
      zero where it is false. */
  method ApplyMask<T>(spectrum: array2<T>, mask: array2<bool>, zero: T) returns (filtered: array2<T>)
    requires spectrum.Length0 == mask.Length0 && spectrum.Length1 == mask.Length1
    ensures filtered.Length0 == spectrum.Length0 && filtered.Length1 == spectrum.Length1
    ensures forall r, c :: 0 <= r < spectrum.Length0 && 0 <= c < spectrum.Length1 && mask[r, c] ==>
              filtered[r, c] == spectrum[r, c]
    ensures forall r, c :: 0 <= r < spectrum.Length0 && 0 <= c < spectrum.Length1 && !mask[r, c] ==>
              filtered[r, c] == zero
  {
    filtered := new T[spectrum.Length0, spectrum.Length1](
      (r, c) reads spectrum, mask
             requires 0 <= r < spectrum.Length0 && 0 <= c < spectrum.Length1 =>
        if mask[r, c] then spectrum[r, c] else zero);
  }

  /** The sideband filter of reconstruction: the mask for `size =` the number of
      rows is built and multiplied into the spectrum. After the broadcast
      against the size x size reference spectrum the spectrum is square, except
      for a one-row hologram of any width; there the 1 x 1 mask is broadcast
      along the row, and only "right" keeps its one cell. */
  method FilterSideband<T>(spectrum: array2<T>, filterSide: string, zero: T) returns (filtered: array2<T>)
    requires spectrum.Length0 == spectrum.Length1 || spectrum.Length0 == 1
    ensures filtered.Length0 == spectrum.Length0 && filtered.Length1 == spectrum.Length1
    ensures spectrum.Length0 == spectrum.Length1 ==>
              forall r, c :: 0 <= r < spectrum.Length0 && 0 <= c < spectrum.Length1 ==>
                filtered[r, c] == (if MaskRegion(spectrum.Length0, filterSide).Contains(r, c) then spectrum[r, c] else zero)
    ensures spectrum.Length0 == 1 ==>
              forall c :: 0 <= c < spectrum.Length1 ==>
                filtered[0, c] == (if filterSide == "right" then spectrum[0, c] else zero)
  {
    var mask := BuildMask(spectrum.Length0, filterSide);
    if spectrum.Length1 == spectrum.Length0 {
      filtered := ApplyMask(spectrum, mask, zero);
    } else {
      var keep := mask[0, 0];
      var broadcast := new bool[1, spectrum.Length1]((r, c) => keep);
      filtered := ApplyMask(spectrum, broadcast, zero);
    }
  }

  /** The "left" and "right" masks are disjoint and together cover every cell:
      each cell of the spectrum survives exactly one of the two filters. */
  lemma HalfPlanesPartition(size: nat, r: int, c: int)
    requires 0 <= r < size && 0 <= c < size
    ensures MaskRegion(size, "left").Contains(r, c) != MaskRegion(size, "right").Contains(r, c)
  {
  }

  /** The centred window overlaps both half-plane masks exactly when it is not
      empty, that is when `size >= 4`; below that it holds no cell at all. */
  lemma CentreWindowOverlapsHalves(size: nat, filterSide: string)
    requires filterSide != "left" && filterSide != "right"
    ensures size >= 4 ==>
              MaskRegion(size, filterSide).Contains(size / 2, size / 2 - 1) && MaskRegion(size, "left").Contains(size / 2, size / 2 - 1)
              && MaskRegion(size, filterSide).Contains(size / 2, size / 2) && MaskRegion(size, "right").Contains(size / 2, size / 2)
    ensures size < 4 ==> forall r, c :: !MaskRegion(size, filterSide).Contains(r, c)
  {
  }

  /** The left mask holds `size * (size // 2)` cells and the right mask the rest
      of the grid, `size * (size - size // 2)`; together they hold all of it. */
  lemma HalfPlaneCellCounts(size: nat)
    ensures CellCount(MaskRegion(size, "left"), size, size) == size * (size / 2)
    ensures CellCount(MaskRegion(size, "right"), size, size) == size * (size - size / 2)
    ensures CellCount(MaskRegion(size, "left"), size, size) + CellCount(MaskRegion(size, "right"), size, size) == size * size
  {
    var half := size / 2;
    CellCountWithinGrid(Rect(0, size, 0, half), size, size);
    CellCountWithinGrid(Rect(0, size, half, size), size, size);
    assert size * half + size * (size - half) == size * size by {
      assert size * half + size * (size - half) == size * (half + (size - half));
    }
  }

  /** Every selector other than "left" and "right" keeps a square of
      `(2 * (size // 4))^2` cells. */
  lemma WindowCellCount(size: nat, filterSide: string)
    requires filterSide != "left" && filterSide != "right"
    ensures CellCount(MaskRegion(size, filterSide), size, size) == (2 * (size / 4)) * (2 * (size / 4))
  {
    var center, q := size / 2, size / 4;
    CellCountWithinGrid(Rect(center - q, center + q, center - q, center + q), size, size);
  }
}
