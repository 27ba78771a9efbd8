/** Where converted rows land in client memory: the PACK addressing of MG_Backend/ClientReadback. */
module ReadbackLayout {
  import opened Wrappers
  import opened Bits
  import opened ReadbackFormats
  import opened ReadbackRows

  datatype PackParams = PackParams(
    rowLength: int, alignment: int, imageHeight: int, skipImages: int, skipRows: int, skipPixels: int, swapBytes: bool)

  datatype Destination = Destination(rowBytes: nat, rowStride: nat, imageStride: nat, skip: nat)

  function AlignRow(rowBytes: nat, alignment: int): nat {
    var align := if alignment > 0 then alignment else 1;
    (rowBytes + align - 1) / align * align
  }

  function ImageRows(p: PackParams, height: nat, applyImages: bool): nat {
    if applyImages && p.imageHeight > 0 then p.imageHeight else height
  }

  function RowPixels(p: PackParams, width: nat): nat {
    if p.rowLength > 0 then p.rowLength else width
  }

  function DestinationOf(p: PackParams, pixelBytes: nat, width: nat, height: nat, applyImages: bool): Destination {
    var rowStride := AlignRow(RowPixels(p, width) * pixelBytes, p.alignment);
    var imageStride := ImageRows(p, height, applyImages) * rowStride;
    Destination(width * pixelBytes, rowStride, imageStride,
                (if applyImages then Max(p.skipImages, 0) else 0) * imageStride +
                Max(p.skipRows, 0) * rowStride + Max(p.skipPixels, 0) * pixelBytes)
  }

  function RowOffset(d: Destination, k: nat, j: nat): nat {
    d.skip + k * d.imageStride + j * d.rowStride
  }

  function Alignment(alignment: int): nat {
    if alignment > 0 then alignment else 1
  }

  /** The stride is the least multiple of the alignment that holds the row. */
  lemma AlignRowIsLeast(rowBytes: nat, alignment: int, n: nat)
    ensures AlignRow(rowBytes, alignment) % Alignment(alignment) == 0
    ensures rowBytes <= AlignRow(rowBytes, alignment) < rowBytes + Alignment(alignment)
    ensures rowBytes <= n * Alignment(alignment) ==> AlignRow(rowBytes, alignment) <= n * Alignment(alignment)
  {
    var align := Alignment(alignment);
    var q := (rowBytes + align - 1) / align;
    DivBounds(rowBytes + align - 1, align);
    assert AlignRow(rowBytes, alignment) == q * align == align * q;
    MultipleOf(align, q);
    LeastMultiple(rowBytes, align, q, n);
  }

  lemma LeastMultiple(x: nat, d: nat, q: nat, n: nat)
    requires d > 0 && d * q <= x + d - 1 < d * q + d
    ensures x <= q * d < x + d
    ensures x <= n * d ==> q * d <= n * d
  {
    assert d * q == q * d;
    MulGrows(d, n + 1, q);
    assert (n + 1) * d == n * d + d;
  }

  /** THE ROW STRIDE: the least multiple of the alignment that holds the row length in force. */
  lemma RowStrideIsLeast(p: PackParams, pixelBytes: nat, width: nat, height: nat, applyImages: bool, n: nat)
    ensures var d := DestinationOf(p, pixelBytes, width, height, applyImages);
      var row := (if p.rowLength > 0 then p.rowLength else width) * pixelBytes;
      var align := if p.alignment > 0 then p.alignment else 1;
      && d.rowStride % align == 0 && row <= d.rowStride < row + align
      && (row <= n * align ==> d.rowStride <= n * align)
      && d.imageStride == (if applyImages && p.imageHeight > 0 then p.imageHeight else height) * d.rowStride
      && d.rowBytes == width * pixelBytes
  {
    AlignRowIsLeast(RowPixels(p, width) * pixelBytes, p.alignment, n);
    hide AlignRow;
  }

  /** THE ADDRESS of pixel (k, j, col), the skips in force counted in images, rows and pixels. */
  lemma PixelAddress(p: PackParams, pixelBytes: nat, width: nat, height: nat, applyImages: bool,
                     k: nat, j: nat, col: nat)
    ensures var d := DestinationOf(p, pixelBytes, width, height, applyImages);
      RowOffset(d, k, j) + col * pixelBytes ==
        ((if applyImages && p.skipImages > 0 then p.skipImages else 0) + k) * d.imageStride +
        ((if p.skipRows > 0 then p.skipRows else 0) + j) * d.rowStride +
        ((if p.skipPixels > 0 then p.skipPixels else 0) + col) * pixelBytes
  {
    hide AlignRow, ImageRows, RowPixels;
    var d := DestinationOf(p, pixelBytes, width, height, applyImages);
    SkipsFirst(if applyImages then Max(p.skipImages, 0) else 0, k, d.imageStride);
    SkipsFirst(Max(p.skipRows, 0), j, d.rowStride);
    SkipsFirst(Max(p.skipPixels, 0), col, pixelBytes);
  }

  lemma SkipsFirst(skipped: nat, n: nat, stride: nat)
    ensures (skipped + n) * stride == skipped * stride + n * stride
  {
  }

  /** THE SKIPS: a pixel lies where, without any skip, the pixel lies that is as many images, rows and pixels
      further on. */
  lemma SkippedPixelAddress(p: PackParams, pixelBytes: nat, width: nat, height: nat, applyImages: bool,
                            k: nat, j: nat, col: nat)
    ensures var d := DestinationOf(p, pixelBytes, width, height, applyImages);
      var unskipped := DestinationOf(p.(skipImages := 0, skipRows := 0, skipPixels := 0), pixelBytes, width, height,
                                     applyImages);
      RowOffset(d, k, j) + col * pixelBytes ==
        RowOffset(unskipped, (if applyImages && p.skipImages > 0 then p.skipImages else 0) + k,
                  (if p.skipRows > 0 then p.skipRows else 0) + j) +
        ((if p.skipPixels > 0 then p.skipPixels else 0) + col) * pixelBytes
  {
    hide AlignRow, ImageRows, RowPixels, RowOffset;
    PixelAddress(p, pixelBytes, width, height, applyImages, k, j, col);
    PixelAddress(p.(skipImages := 0, skipRows := 0, skipPixels := 0), pixelBytes, width, height, applyImages,
                 (if applyImages && p.skipImages > 0 then p.skipImages else 0) + k,
                 (if p.skipRows > 0 then p.skipRows else 0) + j, (if p.skipPixels > 0 then p.skipPixels else 0) + col);
    SameStrides(p, pixelBytes, width, height, applyImages);
  }

  lemma SameStrides(p: PackParams, pixelBytes: nat, width: nat, height: nat, applyImages: bool)
    ensures var d := DestinationOf(p, pixelBytes, width, height, applyImages);
      var unskipped := DestinationOf(p.(skipImages := 0, skipRows := 0, skipPixels := 0), pixelBytes, width, height,
                                     applyImages);
      d.rowStride == unskipped.rowStride && d.imageStride == unskipped.imageStride
  {
    hide AlignRow;
  }

  // ---- rows that do not overlap -------------------------------------------------------------

  /** Row (k, j) ends before any later row begins. */
  predicate RowsApart(d: Destination, height: nat, count: nat) {
    forall k: nat, j: nat, k': nat, j': nat {:trigger RowOffset(d, k, j), RowOffset(d, k', j')} ::
      k < count && k' < count && j < height && j' < height && (k < k' || (k == k' && j < j')) ==>
      RowOffset(d, k, j) + d.rowBytes <= RowOffset(d, k', j')
  }

  /** With a row length of zero or at least the width, and image rows that hold the slice, every row ends
      before any later one begins. */
  lemma LayoutKeepsRowsApart(p: PackParams, pixelBytes: nat, width: nat, height: nat, count: nat, applyImages: bool)
    requires p.rowLength <= 0 || p.rowLength >= width
    requires ImageRows(p, height, applyImages) >= height
    ensures RowsApart(DestinationOf(p, pixelBytes, width, height, applyImages), height, count)
  {
    StridesHoldRows(p, pixelBytes, width, height, applyImages);
    hide DestinationOf;
    var d := DestinationOf(p, pixelBytes, width, height, applyImages);
    forall k: nat, j: nat, k': nat, j': nat |
      k < count && k' < count && j < height && j' < height && (k < k' || (k == k' && j < j'))
      ensures RowOffset(d, k, j) + d.rowBytes <= RowOffset(d, k', j')
    {
      RowBeforeRow(d, height, k, j, k', j');
    }
  }

  lemma StridesHoldRows(p: PackParams, pixelBytes: nat, width: nat, height: nat, applyImages: bool)
    requires p.rowLength <= 0 || p.rowLength >= width
    requires ImageRows(p, height, applyImages) >= height
    ensures var d := DestinationOf(p, pixelBytes, width, height, applyImages);
      d.rowBytes <= d.rowStride && height * d.rowStride <= d.imageStride
  {
    var d := DestinationOf(p, pixelBytes, width, height, applyImages);
    AlignRowIsLeast(RowPixels(p, width) * pixelBytes, p.alignment, 0);
    hide AlignRow;
    MulGrows(pixelBytes, width, RowPixels(p, width));
    MulGrows(d.rowStride, height, ImageRows(p, height, applyImages));
  }

  lemma RowBeforeRow(d: Destination, height: nat, k: nat, j: nat, k': nat, j': nat)
    requires d.rowBytes <= d.rowStride && height * d.rowStride <= d.imageStride
    requires j < height && j' < height && (k < k' || (k == k' && j < j'))
    ensures RowOffset(d, k, j) + d.rowBytes <= RowOffset(d, k', j')
  {
    var rows, rows', images, images' := j * d.rowStride, j' * d.rowStride, k * d.imageStride, k' * d.imageStride;
    if k == k' {
      SlotIn(j, j', d.rowStride);
      assert rows + d.rowStride <= rows';
    } else {
      SlotIn(j, height, d.rowStride);
      SlotIn(k, k', d.imageStride);
      assert images + d.imageStride <= images' && 0 <= rows';
    }
  }

  /** Rows keep apart in order if and only if each row ends before the next row of its slice begins and the
      last row of a slice before the next slice, wherever there is a next one. */
  lemma {:induction false} RowsApartExactly(d: Destination, height: nat, count: nat)
    requires height > 0 && count > 0
    ensures RowsApart(d, height, count) <==>
      && (height == 1 || d.rowBytes <= d.rowStride)
      && (count == 1 || (height - 1) * d.rowStride + d.rowBytes <= d.imageStride)
  {
    hide RowOffset;
    NextOffsets(d, height - 1);
    if RowsApart(d, height, count) {
      var lastRow: nat := height - 1;
      assert count > 1 ==> RowOffset(d, 0, lastRow) + d.rowBytes <= RowOffset(d, 1, 0);
      assert height > 1 ==> RowOffset(d, 0, 0) + d.rowBytes <= RowOffset(d, 0, 1);
    }
    if (height == 1 || d.rowBytes <= d.rowStride) &&
       (count == 1 || (height - 1) * d.rowStride + d.rowBytes <= d.imageStride)
    {
      forall k: nat, j: nat, k': nat, j': nat |
        k < count && k' < count && j < height && j' < height && (k < k' || (k == k' && j < j'))
        ensures RowOffset(d, k, j) + d.rowBytes <= RowOffset(d, k', j')
      {
        LaterOffset(d, height, k, j, k', j');
      }
    }
  }

  lemma NextOffsets(d: Destination, lastRow: nat)
    ensures RowOffset(d, 0, 1) == RowOffset(d, 0, 0) + d.rowStride
    ensures RowOffset(d, 1, 0) - RowOffset(d, 0, lastRow) == d.imageStride - lastRow * d.rowStride
  {
  }

  lemma LaterOffset(d: Destination, height: nat, k: nat, j: nat, k': nat, j': nat)
    requires j < height && j' < height && (k < k' || (k == k' && j < j'))
    requires j < j' ==> k < k' || d.rowBytes <= d.rowStride
    requires k < k' ==> (height - 1) * d.rowStride + d.rowBytes <= d.imageStride
    ensures RowOffset(d, k, j) + d.rowBytes <= RowOffset(d, k', j')
  {
    var rows, rows', images, images' := j * d.rowStride, j' * d.rowStride, k * d.imageStride, k' * d.imageStride;
    if k == k' {
      SlotIn(j, j', d.rowStride);
      assert rows + d.rowStride <= rows';
    } else {
      MulGrows(d.rowStride, j, height - 1);
      SlotIn(k, k', d.imageStride);
      assert images + d.imageStride <= images' && 0 <= rows' && rows <= (height - 1) * d.rowStride;
    }
  }

  predicate InRow(d: Destination, k: nat, j: nat, a: nat) {
    RowOffset(d, k, j) <= a < RowOffset(d, k, j) + d.rowBytes
  }

  /** No address lies in two rows. */
  ghost predicate RowsDisjoint(d: Destination, height: nat, count: nat) {
    forall k: nat, j: nat, k': nat, j': nat, a: nat {:trigger InRow(d, k, j, a), InRow(d, k', j', a)} ::
      k < count && k' < count && j < height && j' < height && InRow(d, k, j, a) && InRow(d, k', j', a) ==>
      k == k' && j == j'
  }

  lemma ApartIsDisjoint(d: Destination, height: nat, count: nat)
    requires RowsApart(d, height, count)
    ensures RowsDisjoint(d, height, count)
  {
  }

  /** In a layout the parameters give, slices are whole numbers of row strides apart: rows that share no
      address are in order too. */
  lemma {:induction false} DisjointIsApart(p: PackParams, pixelBytes: nat, width: nat, height: nat, count: nat,
                                           applyImages: bool)
    requires width > 0 && pixelBytes > 0 && height > 0 && count > 0
    requires RowsDisjoint(DestinationOf(p, pixelBytes, width, height, applyImages), height, count)
    ensures RowsApart(DestinationOf(p, pixelBytes, width, height, applyImages), height, count)
  {
    var d := DestinationOf(p, pixelBytes, width, height, applyImages);
    var imageRows := ImageRows(p, height, applyImages);
    MulGrows(pixelBytes, 1, width);
    assert d.rowBytes > 0 && imageRows > 0 && d.imageStride == imageRows * d.rowStride;
    hide DestinationOf, ImageRows, RowsDisjoint;
    if height > 1 && d.rowStride < d.rowBytes {
      SharedAddress(d, height, count, 0, 0, 0, 1, d.skip + d.rowStride);
    }
    if count > 1 {
      if imageRows < height {
        SharedAddress(d, height, count, 0, imageRows, 1, 0, d.skip + d.imageStride);
      } else if (height - 1) * d.rowStride + d.rowBytes > d.imageStride {
        MulGrows(d.rowStride, height - 1, imageRows);
        SharedAddress(d, height, count, 0, height - 1, 1, 0, d.skip + d.imageStride);
      }
    }
    RowsApartExactly(d, height, count);
  }

  lemma SharedAddress(d: Destination, height: nat, count: nat, k: nat, j: nat, k': nat, j': nat, a: nat)
    requires k < count && k' < count && j < height && j' < height && (k != k' || j != j')
    requires InRow(d, k, j, a) && InRow(d, k', j', a)
    ensures !RowsDisjoint(d, height, count)
  {
  }

  /** THE LAYOUT, exactly: two rows share an address unless there are no bytes to store, or each row ends
      before the next of its slice begins and the last row of a slice before the next slice. */
  lemma {:induction false} RowsDisjointExactly(p: PackParams, pixelBytes: nat, width: nat, height: nat, count: nat,
                                               applyImages: bool)
    ensures var d := DestinationOf(p, pixelBytes, width, height, applyImages);
      RowsDisjoint(d, height, count) <==>
      || width == 0 || pixelBytes == 0 || height == 0 || count == 0
      || ((height == 1 || d.rowBytes <= d.rowStride) &&
          (count == 1 || (height - 1) * d.rowStride + d.rowBytes <= d.imageStride))
  {
    var d := DestinationOf(p, pixelBytes, width, height, applyImages);
    if width == 0 || pixelBytes == 0 || height == 0 || count == 0 {
      assert d.rowBytes == 0 || height == 0 || count == 0;
    } else {
      hide DestinationOf, RowsApart, RowsDisjoint;
      RowsApartExactly(d, height, count);
      if RowsApart(d, height, count) {
        ApartIsDisjoint(d, height, count);
      }
      if RowsDisjoint(d, height, count) {
        DisjointIsApart(p, pixelBytes, width, height, count, applyImages);
      }
    }
  }

  /** For rows at least as long as the slice is wide: two rows share an address exactly when there are
      several slices, rows to store, and an image height in force that is smaller than the slice. */
  lemma {:induction false} ImagesDisjointExactly(p: PackParams, pixelBytes: nat, width: nat, height: nat, count: nat,
                                                 applyImages: bool)
    requires p.rowLength <= 0 || p.rowLength >= width
    ensures RowsDisjoint(DestinationOf(p, pixelBytes, width, height, applyImages), height, count) <==>
            width == 0 || pixelBytes == 0 || height == 0 || count <= 1 || ImageRows(p, height, applyImages) >= height
  {
    var d := DestinationOf(p, pixelBytes, width, height, applyImages);
    RowsDisjointExactly(p, pixelBytes, width, height, count, applyImages);
    StridesHoldRows(p.(imageHeight := 0), pixelBytes, width, height, applyImages);
    if ImageRows(p, height, applyImages) >= height {
      LayoutKeepsRowsApart(p, pixelBytes, width, height, count, applyImages);
      ApartIsDisjoint(d, height, count);
    } else if width > 0 && pixelBytes > 0 && count > 1 {
      MulGrows(pixelBytes, 1, width);
      MulGrows(d.rowStride, ImageRows(p, height, applyImages), height - 1);
    }
  }

  /** The addressing rule the source's comment gives, imageStride = max(IMAGE_HEIGHT, slice height) *
      rowStride, is what the code computes exactly when no image height smaller than the slice is in
      force (or rows have no stride at all). */
  lemma CommentedImageStrideExactly(p: PackParams, pixelBytes: nat, width: nat, height: nat)
    ensures var d := DestinationOf(p, pixelBytes, width, height, true);
      d.imageStride == Max(p.imageHeight, height) * d.rowStride <==> !(0 < p.imageHeight < height) || d.rowStride == 0
  {
    var d := DestinationOf(p, pixelBytes, width, height, true);
    if 0 < p.imageHeight < height && d.rowStride > 0 {
      SlotIn(p.imageHeight, height, d.rowStride);
    }
  }

  /** An image height of 1 and slices of two 4-byte rows: the code's stride is 4, the comment's 8, and the
      second row of a slice lies where the next slice begins. */
  lemma ShortImageHeightOverlaps()
    ensures var p := PackParams(0, 4, 1, 0, 0, 0, false);
      var d := DestinationOf(p, 4, 1, 2, true);
      && d == Destination(4, 4, 4, 0) && Max(p.imageHeight, 2) * d.rowStride == 8
      && InRow(d, 0, 1, 4) && InRow(d, 1, 0, 4) && !RowsDisjoint(d, 2, 2)
  {
    var d := DestinationOf(PackParams(0, 4, 1, 0, 0, 0, false), 4, 1, 2, true);
    assert d == Destination(4, 4, 4, 0);
    SharedAddress(d, 2, 2, 0, 1, 1, 0, 4);
  }

  // ---- what a store leaves in memory --------------------------------------------------------

  /** Finished rows, slice by slice. */
  type Rows = seq<seq<seq<Uint8>>>

  predicate Shaped(rows: Rows, d: Destination, height: nat) {
    forall k :: 0 <= k < |rows| ==> |rows[k]| == height && forall j :: 0 <= j < height ==> |rows[k][j]| == d.rowBytes
  }

  predicate RoomFor(d: Destination, height: nat, count: nat, length: nat) {
    forall k: nat, j: nat {:trigger RowOffset(d, k, j)} ::
      k < count && j < height ==> RowOffset(d, k, j) + d.rowBytes <= length
  }

  /** Memory after the first j rows of slice k have been stored over s. */
  function StoreRows(s: seq<Uint8>, d: Destination, rows: Rows, height: nat, k: nat, j: nat): (r: seq<Uint8>)
    requires Shaped(rows, d, height) && RoomFor(d, height, |rows|, |s|) && k < |rows| && j <= height
    ensures |r| == |s|
  {
    if j == 0 then s
    else Overwrite(StoreRows(s, d, rows, height, k, j - 1), RowOffset(d, k, j - 1), rows[k][j - 1])
  }

  /** Memory after the first k slices. */
  function StoreSlices(s: seq<Uint8>, d: Destination, rows: Rows, height: nat, k: nat): (r: seq<Uint8>)
    requires Shaped(rows, d, height) && RoomFor(d, height, |rows|, |s|) && k <= |rows|
    ensures |r| == |s|
  {
    if k == 0 then s else StoreRows(StoreSlices(s, d, rows, height, k - 1), d, rows, height, k - 1, height)
  }

  predicate InSomeRow(d: Destination, height: nat, count: nat, a: nat) {
    exists k: nat, j: nat :: k < count && j < height && InRow(d, k, j, a)
  }

  /** Storing rows moves only bytes of those rows. */
  lemma {:induction false} RowsTouchOnlyRows(s: seq<Uint8>, d: Destination, rows: Rows, height: nat, k: nat, j: nat,
                                             a: nat)
    requires Shaped(rows, d, height) && RoomFor(d, height, |rows|, |s|) && k < |rows| && j <= height && a < |s|
    requires forall j': nat :: j' < j ==> !InRow(d, k, j', a)
    ensures StoreRows(s, d, rows, height, k, j)[a] == s[a]
  {
    if j > 0 {
      RowsTouchOnlyRows(s, d, rows, height, k, j - 1, a);
      assert !InRow(d, k, j - 1, a);
    }
  }

  lemma {:induction false} SlicesTouchOnlyRows(s: seq<Uint8>, d: Destination, rows: Rows, height: nat, k: nat, a: nat)
    requires Shaped(rows, d, height) && RoomFor(d, height, |rows|, |s|) && k <= |rows| && a < |s|
    requires !InSomeRow(d, height, k, a)
    ensures StoreSlices(s, d, rows, height, k)[a] == s[a]
  {
    if k > 0 {
      assert !InSomeRow(d, height, k - 1, a);
      SlicesTouchOnlyRows(s, d, rows, height, k - 1, a);
      RowsTouchOnlyRows(StoreSlices(s, d, rows, height, k - 1), d, rows, height, k - 1, height, a);
    }
  }

  /** Row (k', j') is stored after row (k, j). */
  predicate StoredLater(k: nat, j: nat, k': nat, j': nat) {
    k < k' || (k == k' && j < j')
  }

  /** Address `a` is in row (k, j) and in no row of the first n slices stored after it. */
  ghost predicate LastHeldBy(d: Destination, height: nat, n: nat, k: nat, j: nat, a: nat) {
    InRow(d, k, j, a) &&
    forall k': nat, j': nat :: k' < n && j' < height && StoredLater(k, j, k', j') ==> !InRow(d, k', j', a)
  }

  lemma {:induction false} RowKeepsItsBytes(s: seq<Uint8>, d: Destination, rows: Rows, height: nat, k: nat, n: nat,
                                            j: nat, a: nat)
    requires Shaped(rows, d, height) && RoomFor(d, height, |rows|, |s|)
    requires k < |rows| && j < n <= height && InRow(d, k, j, a)
    requires forall j': nat :: j < j' < n ==> !InRow(d, k, j', a)
    ensures a < |s| && StoreRows(s, d, rows, height, k, n)[a] == rows[k][j][a - RowOffset(d, k, j)]
  {
    assert RowOffset(d, k, j) + d.rowBytes <= |s|;
    if j < n - 1 {
      RowKeepsItsBytes(s, d, rows, height, k, n - 1, j, a);
      assert !InRow(d, k, n - 1, a);
    }
  }

  lemma {:induction false} SliceKeepsItsBytes(s: seq<Uint8>, d: Destination, rows: Rows, height: nat, n: nat,
                                              k: nat, j: nat, a: nat)
    requires Shaped(rows, d, height) && RoomFor(d, height, |rows|, |s|)
    requires k < n <= |rows| && j < height && LastHeldBy(d, height, n, k, j, a)
    ensures a < |s| && StoreSlices(s, d, rows, height, n)[a] == rows[k][j][a - RowOffset(d, k, j)]
  {
    hide StoreRows, RowOffset;
    var before := StoreSlices(s, d, rows, height, n - 1);
    if k == n - 1 {
      assert forall j': nat :: j < j' < height ==> StoredLater(k, j, k, j');
      RowKeepsItsBytes(before, d, rows, height, k, height, j, a);
    } else {
      SliceKeepsItsBytes(s, d, rows, height, n - 1, k, j, a);
      var last: nat := n - 1;
      assert forall j': nat :: j' < height ==> StoredLater(k, j, last, j');
      RowsTouchOnlyRows(before, d, rows, height, n - 1, height, a);
    }
  }

  /** THE STORE, overlapping or not: a byte of memory holds what the last row stored over it put there,
      and what it held before if there is none. */
  lemma {:induction false} StoredLast(s: seq<Uint8>, d: Destination, rows: Rows, height: nat, a: nat)
    requires Shaped(rows, d, height) && RoomFor(d, height, |rows|, |s|) && a < |s|
    ensures forall k: nat, j: nat :: k < |rows| && j < height && LastHeldBy(d, height, |rows|, k, j, a) ==>
      StoreSlices(s, d, rows, height, |rows|)[a] == rows[k][j][a - RowOffset(d, k, j)]
    ensures InSomeRow(d, height, |rows|, a) <==>
      exists k: nat, j: nat :: k < |rows| && j < height && LastHeldBy(d, height, |rows|, k, j, a)
    ensures !InSomeRow(d, height, |rows|, a) ==> StoreSlices(s, d, rows, height, |rows|)[a] == s[a]
  {
    hide RowOffset;
    forall k: nat, j: nat | k < |rows| && j < height && LastHeldBy(d, height, |rows|, k, j, a)
      ensures StoreSlices(s, d, rows, height, |rows|)[a] == rows[k][j][a - RowOffset(d, k, j)]
    {
      SliceKeepsItsBytes(s, d, rows, height, |rows|, k, j, a);
    }
    if k: nat, j: nat :| k < |rows| && j < height && InRow(d, k, j, a) {
      SomeRowIsLast(d, height, |rows|, k, j, a);
    } else {
      SlicesTouchOnlyRows(s, d, rows, height, |rows|, a);
    }
  }

  lemma {:induction false} SomeRowIsLast(d: Destination, height: nat, count: nat, k: nat, j: nat, a: nat)
    requires k < count && j < height && InRow(d, k, j, a)
    ensures exists k': nat, j': nat :: k' < count && j' < height && LastHeldBy(d, height, count, k', j', a)
    decreases count - k, height - j
  {
    hide InRow;
    if !LastHeldBy(d, height, count, k, j, a) {
      var k': nat, j': nat :| k' < count && j' < height && StoredLater(k, j, k', j') && InRow(d, k', j', a);
      SomeRowIsLast(d, height, count, k', j', a);
    }
  }

  /** Rows that share no address are each last where they lie. */
  lemma DisjointHeldLast(d: Destination, height: nat, count: nat, k: nat, j: nat, a: nat)
    requires RowsDisjoint(d, height, count) && k < count && j < height && InRow(d, k, j, a)
    ensures LastHeldBy(d, height, count, k, j, a)
  {
    hide InRow;
  }

  /** THE STORE: with rows that do not overlap, byte b of row (k, j) is at exactly
      skip + k * imageStride + j * rowStride + b, and every byte outside the rows is as it was. */
  lemma {:induction false} StoredExactly(s: seq<Uint8>, d: Destination, rows: Rows, height: nat)
    requires Shaped(rows, d, height) && RoomFor(d, height, |rows|, |s|) && RowsDisjoint(d, height, |rows|)
    ensures var after := StoreSlices(s, d, rows, height, |rows|);
      && (forall k: nat, j: nat, b: nat {:trigger rows[k][j][b]} :: k < |rows| && j < height && b < d.rowBytes ==>
            after[RowOffset(d, k, j) + b] == rows[k][j][b])
      && (forall a: nat :: a < |s| && !InSomeRow(d, height, |rows|, a) ==> after[a] == s[a])
  {
    forall k: nat, j: nat, b: nat | k < |rows| && j < height && b < d.rowBytes
      ensures StoreSlices(s, d, rows, height, |rows|)[RowOffset(d, k, j) + b] == rows[k][j][b]
    {
      DisjointHeldLast(d, height, |rows|, k, j, RowOffset(d, k, j) + b);
      SliceKeepsItsBytes(s, d, rows, height, |rows|, k, j, RowOffset(d, k, j) + b);
    }
    forall a: nat | a < |s| && !InSomeRow(d, height, |rows|, a)
      ensures StoreSlices(s, d, rows, height, |rows|)[a] == s[a]
    {
      SlicesTouchOnlyRows(s, d, rows, height, |rows|, a);
    }
  }

  /** The same, a row at a time. */
  lemma RowInMemory(s: seq<Uint8>, d: Destination, rows: Rows, height: nat, k: nat, j: nat)
    requires Shaped(rows, d, height) && RoomFor(d, height, |rows|, |s|) && RowsDisjoint(d, height, |rows|)
    requires k < |rows| && j < height
    ensures RowOffset(d, k, j) + d.rowBytes <= |s|
    ensures StoreSlices(s, d, rows, height, |rows|)[RowOffset(d, k, j)..RowOffset(d, k, j) + d.rowBytes] == rows[k][j]
  {
    hide StoreSlices;
    var after := StoreSlices(s, d, rows, height, |rows|);
    StoredExactly(s, d, rows, height);
    assert forall b: nat :: b < d.rowBytes ==> after[RowOffset(d, k, j) + b] == rows[k][j][b];
  }

  // ---- byte swapping ------------------------------------------------------------------------

  /** Each whole group of bytes reversed; a remainder shorter than a group stays. */
  function SwapGroups(s: seq<Uint8>, group: nat): (r: seq<Uint8>)
    requires group > 0
    ensures |r| == |s|
    decreases |s|
  {
    if |s| < group then s else Reversed(s[..group]) + SwapGroups(s[group..], group)
  }

  /** Swapping twice is no change. */
  lemma {:induction false} SwapTwice(s: seq<Uint8>, group: nat)
    requires group > 0
    ensures SwapGroups(SwapGroups(s, group), group) == s
    decreases |s|
  {
    if |s| >= group {
      var swapped := SwapGroups(s, group);
      SwapSplits(s, group);
      SwapSplits(swapped, group);
      SwapTwice(s[group..], group);
      ReverseTwice(s[..group]);
      hide SwapGroups, Reversed;
      assert s == s[..group] + s[group..];
    }
  }

  lemma SwapSplits(s: seq<Uint8>, group: nat)
    requires 0 < group <= |s|
    ensures SwapGroups(s, group) == Reversed(s[..group]) + SwapGroups(s[group..], group)
    ensures SwapGroups(s, group)[..group] == Reversed(s[..group])
    ensures SwapGroups(s, group)[group..] == SwapGroups(s[group..], group)
  {
  }

  lemma ReverseTwice(s: seq<Uint8>)
    ensures Reversed(Reversed(s)) == s
  {
  }

  /** Group q of the swapped row is group q of the row, reversed. */
  lemma {:induction false} SwappedGroup(s: seq<Uint8>, n: nat, group: nat, q: nat)
    requires group > 0 && |s| == n * group && q < n
    ensures |SwapGroups(s, group)| == n * group
    ensures Piece(SwapGroups(s, group), q, n, group) == Reversed(Piece(s, q, n, group))
    decreases n
  {
    hide SwapGroups, Reversed;
    SlotIn(0, n, group);
    SlotIn(q, n, group);
    SlotIn(n - 1, n, group);
    SwapSplits(s, group);
    var rest, swapped := s[group..], SwapGroups(s, group);
    if q == 0 {
      assert Piece(swapped, 0, n, group) == swapped[..group] && Piece(s, 0, n, group) == s[..group];
    } else {
      SwappedGroup(rest, n - 1, group, q - 1);
      PieceOfRest(s, q, n, group);
      PieceOfRest(swapped, q, n, group);
    }
  }

  lemma PieceOfRest(s: seq<Uint8>, q: nat, n: nat, size: nat)
    requires 0 < q < n && |s| == n * size
    ensures |s| >= size && |s[size..]| == (n - 1) * size
    ensures Piece(s, q, n, size) == Piece(s[size..], q - 1, n - 1, size)
  {
    SlotIn(n - 1, n, size);
    SlotIn(q - 1, n - 1, size);
    SlotIn(q, n, size);
  }

  /** Byte i of a swapped row comes from the mirrored place of its group. */
  lemma SwappedByte(s: seq<Uint8>, n: nat, group: nat, i: nat)
    requires group > 0 && |s| == n * group && i < |s|
    ensures 0 <= i / group * group + (group - 1 - i % group) < |s|
    ensures SwapGroups(s, group)[i] == s[i / group * group + (group - 1 - i % group)]
  {
    hide SwapGroups;
    var q := i / group;
    GroupOf(i, n, group);
    SlotIn(q, n, group);
    SwappedGroup(s, n, group, q);
    assert Piece(SwapGroups(s, group), q, n, group)[i % group] == Piece(s, q, n, group)[group - 1 - i % group];
  }

  lemma GroupOf(i: nat, n: nat, group: nat)
    requires group > 0 && i < n * group
    ensures i / group < n && i == i / group * group + i % group
  {
    var q := i / group;
    assert i == group * q + i % group;
    assert q * group == group * q;
    MulGrows(group, n, q);
  }

  /** Whole groups in front are swapped on their own. */
  lemma {:induction false} SwapJoins(a: seq<Uint8>, b: seq<Uint8>, n: nat, group: nat)
    requires group > 0 && |a| == n * group
    ensures SwapGroups(a + b, group) == SwapGroups(a, group) + SwapGroups(b, group)
    decreases n
  {
    if n == 0 {
      assert a + b == b;
    } else {
      SlotIn(n - 1, n, group);
      SwapSplits(a, group);
      SwapSplits(a + b, group);
      SwapJoins(a[group..], b, n - 1, group);
      assert (a + b)[..group] == a[..group] && (a + b)[group..] == a[group..] + b;
    }
  }

  function Finished(p: PackParams, row: seq<Uint8>, group: nat): (r: seq<Uint8>)
    ensures |r| == |row|
  {
    if p.swapBytes && group > 1 then SwapGroups(row, group) else row
  }

  /** No swap group straddles two pixels: a pixel of the finished row is the finished pixel. */
  lemma FinishedPiece(p: PackParams, row: seq<Uint8>, col: nat, width: nat, size: nat, group: nat)
    requires col < width && |row| == width * size && group > 0 && size % group == 0
    ensures Piece(Finished(p, row, group), col, width, size) == Finished(p, Piece(row, col, width, size), group)
  {
    hide SwapGroups;
    SlotIn(col, width, size);
    var at := col * size;
    var front, pixel, back := row[..at], row[at..at + size], row[at + size..];
    var groups := size / group;
    WholeGroups(col, size, group);
    assert row == front + (pixel + back);
    SwapJoins(front, pixel + back, col * groups, group);
    SwapJoins(pixel, back, groups, group);
    if p.swapBytes && group > 1 {
      var swapped := SwapGroups(front, group) + (SwapGroups(pixel, group) + SwapGroups(back, group));
      assert swapped[at..at + size] == SwapGroups(pixel, group);
    }
  }

  lemma WholeGroups(col: nat, size: nat, group: nat)
    requires group > 0 && size % group == 0
    ensures size == (size / group) * group && col * size == (col * (size / group)) * group
  {
    var q := size / group;
    assert size == q * group;
    assert col * (q * group) == (col * q) * group;
  }

  function FinishedRows(p: PackParams, rows: Rows, group: nat): Rows {
    seq(|rows|, k requires 0 <= k < |rows| =>
      seq(|rows[k]|, j requires 0 <= j < |rows[k]| => Finished(p, rows[k][j], group)))
  }
}
