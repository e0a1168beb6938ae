/** The screen-rectangle arithmetic of the CHAR_INFO buffer calls: the
    capture size computed from the caller's buffer dimensions, and the size
    of the copy computed from the region the server hands back. SHORT
    operands are promoted to int and the results stored in 32-bit unsigned
    variables, so every result is taken modulo 2^32. */
module ConsoleRegions {
  import opened ConsoleTypes

  /** Bytes captured for a CHAR_INFO buffer of the given dimensions:
      `dwBufferSize.X * dwBufferSize.Y * sizeof(CHAR_INFO)` stored in a
      DWORD. */
  function BufferBytes(size: Coord): (bytes: Dword)
    ensures bytes % SIZEOF_CHAR_INFO == 0
    ensures var cells := size.x * size.y;
      0 <= cells * SIZEOF_CHAR_INFO < DWORD_MODULUS ==> bytes == cells * SIZEOF_CHAR_INFO
  {
    CharInfoAligned(size.x * size.y);
    DwordProduct(size.x * size.y, SIZEOF_CHAR_INFO)
  }

  /** Non-negative SHORT dimensions never overflow the capture size: it is
      always one CHAR_INFO per cell of the buffer. */
  lemma BufferBytesExact(size: Coord)
    requires size.x >= 0 && size.y >= 0
    ensures BufferBytes(size) == size.x * size.y * SIZEOF_CHAR_INFO
  {
    MulBounded(size.x, size.y, 0x7FFF);
    assert 0x7FFF * 0x7FFF * SIZEOF_CHAR_INFO < DWORD_MODULUS;
  }

  lemma MulBounded(a: nat, b: nat, m: nat)
    requires a <= m && b <= m
    ensures a * b <= m * m
  {
    assert a * b <= a * m;
    assert a * m <= m * m;
  }

  /** `hi - lo + 1` stored in a DWORD: the number of cells from lo to hi
      inclusive when lo <= hi + 1, and a value near 2^32 when the bounds are
      inverted by more than one. */
  function RegionExtent(lo: Short, hi: Short): (extent: Dword)
    ensures lo <= hi + 1 ==> extent == hi - lo + 1
    ensures hi + 1 < lo ==> extent >= DWORD_MODULUS - 2 * 0x8000
  {
    (hi - lo + 1) % DWORD_MODULUS
  }

  /** Bytes copied back for a region: `sizeof(CHAR_INFO) * SizeX * SizeY`
      in 32-bit arithmetic, where SizeX and SizeY are the region's extents. */
  function RegionBytes(r: SmallRect): (bytes: Dword)
    ensures bytes % SIZEOF_CHAR_INFO == 0
    ensures RegionExtent(r.left, r.right) == 0 || RegionExtent(r.top, r.bottom) == 0 ==> bytes == 0
  {
    var cells := RegionExtent(r.left, r.right) * RegionExtent(r.top, r.bottom);
    CharInfoAligned(cells);
    DwordProduct(cells, SIZEOF_CHAR_INFO)
  }

  /** A CHAR_INFO byte count stays a whole number of records after the
      reduction modulo 2^32, since 2^32 is a multiple of sizeof(CHAR_INFO). */
  lemma CharInfoAligned(cells: int)
    ensures DwordProduct(cells, SIZEOF_CHAR_INFO) % SIZEOF_CHAR_INFO == 0
  {
    var p := cells * SIZEOF_CHAR_INFO;
    var q := p / DWORD_MODULUS;
    assert p == q * DWORD_MODULUS + p % DWORD_MODULUS;
    assert p % DWORD_MODULUS == SIZEOF_CHAR_INFO * (cells - q * 0x4000_0000);
  }

  /** For a proper region, the copy is one CHAR_INFO per cell of the
      rectangle, reduced modulo 2^32, and exactly that when it fits. */
  lemma RegionBytesOfProperRect(r: SmallRect)
    requires r.left <= r.right && r.top <= r.bottom
    ensures var cells := (r.right - r.left + 1) * (r.bottom - r.top + 1);
      && cells >= 1
      && RegionBytes(r) == (cells * SIZEOF_CHAR_INFO) % DWORD_MODULUS
      && (cells * SIZEOF_CHAR_INFO < DWORD_MODULUS ==> RegionBytes(r) == cells * SIZEOF_CHAR_INFO)
  {
    var w, h := r.right - r.left + 1, r.bottom - r.top + 1;
    assert w >= 1 && h >= 1;
    assert w * h >= 1 by { MulPositive(w, h); }
  }

  lemma MulPositive(a: int, b: int)
    requires a >= 1 && b >= 1
    ensures a * b >= 1
  {
  }

  /** A region with no columns or no rows (one bound just below the other)
      copies nothing. */
  lemma EmptyRegionCopiesNothing(r: SmallRect)
    requires r.right + 1 == r.left || r.bottom + 1 == r.top
    ensures RegionBytes(r) == 0
  {
    assert RegionExtent(r.left, r.right) == 0 || RegionExtent(r.top, r.bottom) == 0;
  }

  /** A one-row region whose bounds are inverted by more than one cell
      does not copy nothing: SizeX wraps to 2^32 - d, where d = Left - Right
      - 1 is the number of missing columns, and the copy wraps to 2^32 - 4d
      bytes, close to 4 GiB. (Right = Left - 2 gives 2^32 - 4.) */
  lemma InvertedRegionWraps(r: SmallRect)
    requires r.right + 1 < r.left && r.top == r.bottom
    ensures var d := r.left - r.right - 1;
      && RegionExtent(r.left, r.right) == DWORD_MODULUS - d
      && RegionBytes(r) == DWORD_MODULUS - SIZEOF_CHAR_INFO * d
      && RegionBytes(r) >= DWORD_MODULUS - SIZEOF_CHAR_INFO * 0xFFFF
  {
    var d := r.left - r.right - 1;
    assert 1 <= d <= 0xFFFF;
    assert RegionExtent(r.top, r.bottom) == 1;
    var p := (DWORD_MODULUS - d) * SIZEOF_CHAR_INFO;
    assert p == 3 * DWORD_MODULUS + (DWORD_MODULUS - SIZEOF_CHAR_INFO * d);
    assert RegionBytes(r) == p % DWORD_MODULUS;
  }

  /** The reply to a region call: the status the server put in the message
      and the region it wrote back into the request. */
  datatype RegionReply = RegionReply(status: NtStatus, region: SmallRect)
}
