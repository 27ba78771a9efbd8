/** The stores of MG_Backend/ClientReadback: rows finished one by one and copied to their PACK addresses. */
module ReadbackStores {
  import opened Wrappers
  import opened Bits
  import opened ReadbackFormats
  import opened ReadbackRows
  import opened ReadbackLayout

  function RangeReversed(s: seq<Uint8>, lo: nat, hi: nat): seq<Uint8>
    requires lo <= hi <= |s|
  {
    s[..lo] + Reversed(s[lo..hi]) + s[hi..]
  }

  /** The bytes of lo..hi less than `done` from either end have changed places. */
  predicate HalfReversed(s: seq<Uint8>, now: seq<Uint8>, lo: nat, hi: nat, done: nat) {
    lo + done <= hi <= |s| == |now| &&
    forall k {:trigger now[k]} :: 0 <= k < |s| ==>
      now[k] == if lo <= k < lo + done || hi - done <= k < hi then s[lo + hi - 1 - k] else s[k]
  }

  /** `std::reverse(row + lo, row + hi)`. */
  method ReverseRange(row: array<Uint8>, lo: nat, hi: nat)
    requires lo <= hi <= row.Length
    modifies row
    ensures row[..] == RangeReversed(old(row[..]), lo, hi)
  {
    hide HalfReversed, RangeReversed;
    ghost var before := row[..];
    ReverseStarts(before, lo, hi);
    var i, j: nat := lo, hi;
    while i + 1 < j
      invariant lo <= i <= hi && i <= j + 1 && j == lo + hi - i
      invariant HalfReversed(before, row[..], lo, hi, i - lo)
      decreases j - i
    {
      ghost var now := row[..];
      ReverseAdvances(before, now, lo, hi, i - lo);
      j := j - 1;
      row[i], row[j] := row[j], row[i];
      assert row[..] == now[i := now[j]][j := now[i]];
      i := i + 1;
    }
    ReverseEnds(before, row[..], lo, hi, i - lo);
  }

  lemma ReverseStarts(s: seq<Uint8>, lo: nat, hi: nat)
    requires lo <= hi <= |s|
    ensures HalfReversed(s, s, lo, hi, 0)
  {
  }

  lemma ReverseAdvances(s: seq<Uint8>, now: seq<Uint8>, lo: nat, hi: nat, done: nat)
    requires HalfReversed(s, now, lo, hi, done) && lo + done + 1 < hi - done
    ensures var i, j := lo + done, hi - done - 1;
      HalfReversed(s, now[i := now[j]][j := now[i]], lo, hi, done + 1)
  {
    var i, j := lo + done, hi - done - 1;
    var later := now[i := now[j]][j := now[i]];
    assert now[i] == s[i] && now[j] == s[j] && lo + hi - 1 - i == j;
    forall k | 0 <= k < |s|
      ensures later[k] == if lo <= k < lo + done + 1 || hi - (done + 1) <= k < hi then s[lo + hi - 1 - k] else s[k]
    {
      if k != i && k != j {
        assert later[k] == now[k];
      }
    }
  }

  lemma ReverseEnds(s: seq<Uint8>, now: seq<Uint8>, lo: nat, hi: nat, done: nat)
    requires HalfReversed(s, now, lo, hi, done) && lo + done + 1 >= hi - done
    ensures lo <= hi <= |s| && now == RangeReversed(s, lo, hi)
  {
    forall k | lo <= k < hi ensures now[k] == s[lo + hi - 1 - k] {
      if lo + done <= k < hi - done {
        assert lo + hi - 1 - k == k;
      }
    }
    assert now[..lo] == s[..lo] && now[hi..] == s[hi..];
    assert now[lo..hi] == Reversed(s[lo..hi]);
    assert now == now[..lo] + now[lo..hi] + now[hi..];
  }

  method SwapRow(row: array<Uint8>, group: nat)
    requires group > 0
    modifies row
    ensures row[..] == SwapGroups(old(row[..]), group)
  {
    hide SwapGroups, Reversed, RangeReversed, HalfSwapped;
    ghost var before := row[..];
    var offset := 0;
    SwapNothingYet(before, group);
    while offset + group <= row.Length
      invariant offset <= |before| == row.Length
      invariant HalfSwapped(before, row[..], group, offset)
      decreases row.Length - offset
    {
      SwapAdvance(before, row[..], group, offset);
      ReverseRange(row, offset, offset + group);
      offset := offset + group;
    }
    SwapRemainder(before, row[..], group, offset);
  }

  /** The groups before `offset` have been swapped, the rest is as it was. */
  predicate HalfSwapped(s: seq<Uint8>, now: seq<Uint8>, group: nat, offset: nat)
    requires group > 0
  {
    offset <= |s| == |now| && now[offset..] == s[offset..] &&
    SwapGroups(s, group) == now[..offset] + SwapGroups(s[offset..], group)
  }

  lemma SwapNothingYet(s: seq<Uint8>, group: nat)
    requires group > 0
    ensures HalfSwapped(s, s, group, 0)
  {
    assert s[0..] == s;
  }

  lemma SwapRemainder(s: seq<Uint8>, now: seq<Uint8>, group: nat, offset: nat)
    requires 0 < group && HalfSwapped(s, now, group, offset) && |s| < offset + group
    ensures now == SwapGroups(s, group)
  {
  }

  lemma SwapAdvance(s: seq<Uint8>, now: seq<Uint8>, group: nat, offset: nat)
    requires 0 < group && HalfSwapped(s, now, group, offset) && offset + group <= |s|
    ensures HalfSwapped(s, RangeReversed(now, offset, offset + group), group, offset + group)
  {
    hide SwapGroups, Reversed;
    var later := RangeReversed(now, offset, offset + group);
    SwapSplits(s[offset..], group);
    assert s[offset..][..group] == s[offset..offset + group] == now[offset..][..group] == now[offset..offset + group];
    assert s[offset..][group..] == s[offset + group..] == now[offset..][group..] == now[offset + group..];
    assert later[..offset + group] == now[..offset] + Reversed(s[offset..offset + group]);
    assert later[offset + group..] == s[offset + group..];
  }

  /** Every row is finished in a scratch row (swapped if asked) and copied to its place. */
  method StoreClientRows(p: PackParams, pixelBytes: nat, group: nat, width: nat, height: nat, rows: Rows,
                         dst: array<Uint8>, applyImages: bool)
    requires var d := DestinationOf(p, pixelBytes, width, height, applyImages);
      Shaped(rows, d, height) && RoomFor(d, height, |rows|, dst.Length)
    modifies dst
    ensures var d := DestinationOf(p, pixelBytes, width, height, applyImages);
      dst[..] == StoreSlices(old(dst[..]), d, FinishedRows(p, rows, group), height, |rows|)
  {
    hide DestinationOf, SwapGroups, RowOffset, Shaped, RoomFor, StoreRows, StoreSlices, FinishedRows;
    var d := DestinationOf(p, pixelBytes, width, height, applyImages);
    ghost var before := dst[..];
    ghost var finished := FinishedRows(p, rows, group);
    FinishedShape(p, d, rows, group, height, dst.Length);
    var convertedRow := new Uint8[d.rowBytes];
    StoringStarts(before, d, finished, height);
    for slice := 0 to |rows|
      invariant dst[..] == StoreSlices(before, d, finished, height, slice)
    {
      StoringSlice(before, d, finished, height, slice);
      for row := 0 to height
        invariant dst[..] == StoreRows(StoreSlices(before, d, finished, height, slice), d, finished, height, slice, row)
      {
        RowHasRoom(p, d, rows, group, height, dst.Length, slice, row);
        FillRow(rows[slice][row], convertedRow);
        if p.swapBytes && group > 1 {
          SwapRow(convertedRow, group);
        }
        StoringRow(StoreSlices(before, d, finished, height, slice), d, finished, height, slice, row);
        Memcpy(dst, RowOffset(d, slice, row), convertedRow[..]);
      }
    }
  }

  lemma FinishedShape(p: PackParams, d: Destination, rows: Rows, group: nat, height: nat, length: nat)
    requires Shaped(rows, d, height) && RoomFor(d, height, |rows|, length)
    ensures var finished := FinishedRows(p, rows, group);
      |finished| == |rows| && Shaped(finished, d, height) && RoomFor(d, height, |finished|, length)
  {
  }

  lemma RowHasRoom(p: PackParams, d: Destination, rows: Rows, group: nat, height: nat, length: nat, k: nat, j: nat)
    requires Shaped(rows, d, height) && RoomFor(d, height, |rows|, length) && k < |rows| && j < height
    ensures RowOffset(d, k, j) + d.rowBytes <= length
    ensures |rows[k]| == height && |rows[k][j]| == d.rowBytes
    ensures var finished := FinishedRows(p, rows, group);
      k < |finished| && j < |finished[k]| && finished[k][j] == Finished(p, rows[k][j], group)
  {
  }

  lemma StoringStarts(s: seq<Uint8>, d: Destination, rows: Rows, height: nat)
    requires Shaped(rows, d, height) && RoomFor(d, height, |rows|, |s|)
    ensures StoreSlices(s, d, rows, height, 0) == s
  {
  }

  lemma StoringSlice(s: seq<Uint8>, d: Destination, rows: Rows, height: nat, k: nat)
    requires Shaped(rows, d, height) && RoomFor(d, height, |rows|, |s|) && k < |rows|
    ensures StoreRows(StoreSlices(s, d, rows, height, k), d, rows, height, k, 0) == StoreSlices(s, d, rows, height, k)
    ensures StoreRows(StoreSlices(s, d, rows, height, k), d, rows, height, k, height) ==
            StoreSlices(s, d, rows, height, k + 1)
  {
  }

  lemma StoringRow(s: seq<Uint8>, d: Destination, rows: Rows, height: nat, k: nat, j: nat)
    requires Shaped(rows, d, height) && RoomFor(d, height, |rows|, |s|) && k < |rows| && j < height
    ensures |rows[k]| == height && |rows[k][j]| == d.rowBytes && RowOffset(d, k, j) + d.rowBytes <= |s|
    ensures StoreRows(s, d, rows, height, k, j + 1) ==
            Overwrite(StoreRows(s, d, rows, height, k, j), RowOffset(d, k, j), rows[k][j])
  {
    assert RowOffset(d, k, j) + d.rowBytes <= |s|;
  }

  method FillRow(bytes: seq<Uint8>, row: array<Uint8>)
    requires |bytes| == row.Length
    modifies row
    ensures row[..] == bytes
  {
    Memcpy(row, 0, bytes);
  }

  // ---- the two clients of the store ---------------------------------------------------------

  lemma FlatRow(k: nat, j: nat, count: nat, height: nat)
    requires k < count && j < height
    ensures 0 <= k * height && k * height + j < count * height
  {
    SlotIn(k, count, height);
  }

  /** Row j of slice k of tightly stacked rows. */
  function StackedRow(stack: seq<Uint8>, k: nat, j: nat, count: nat, height: nat, rowSize: nat): (row: seq<Uint8>)
    requires k < count && j < height && |stack| == count * height * rowSize
    ensures |row| == rowSize
  {
    FlatRow(k, j, count, height);
    Piece(stack, k * height + j, count * height, rowSize)
  }

  predicate TightlyStacked(stack: seq<Uint8>, wide: PixelType, width: nat, height: nat, count: nat) {
    |stack| == count * height * (width * WidePixelSize(wide))
  }

  function WideRow(codec: FloatCodec, stack: seq<Uint8>, wide: PixelType, m: ChannelMapping, t: PixelType,
                   width: nat, height: nat, count: nat, k: nat, j: nat): (row: seq<Uint8>)
    requires Convertible(wide, m, t) && TightlyStacked(stack, wide, width, height, count) && k < count && j < height
    ensures |row| == width * DstPixelSize(m, t)
  {
    ConvertedRow(codec, wide, m, t, StackedRow(stack, k, j, count, height, width * WidePixelSize(wide)), width, width)
  }

  function WideSlice(codec: FloatCodec, stack: seq<Uint8>, wide: PixelType, m: ChannelMapping, t: PixelType,
                     width: nat, height: nat, count: nat, k: nat): (slice: seq<seq<Uint8>>)
    requires Convertible(wide, m, t) && TightlyStacked(stack, wide, width, height, count) && k < count
    ensures |slice| == height && forall j :: 0 <= j < height ==> |slice[j]| == width * DstPixelSize(m, t)
  {
    seq(height, j requires 0 <= j < height => WideRow(codec, stack, wide, m, t, width, height, count, k, j))
  }

  function WideRows(codec: FloatCodec, stack: seq<Uint8>, wide: PixelType, m: ChannelMapping, t: PixelType,
                    width: nat, height: nat, count: nat): (rows: Rows)
    requires Convertible(wide, m, t) && TightlyStacked(stack, wide, width, height, count)
    ensures |rows| == count
    ensures forall k: nat :: k < count ==> rows[k] == WideSlice(codec, stack, wide, m, t, width, height, count, k)
  {
    seq(count, k requires 0 <= k < count => WideSlice(codec, stack, wide, m, t, width, height, count, k))
  }

  /** Memory after the converted rows have been stored over it. */
  function StoredTexels(codec: FloatCodec, p: PackParams, memory: seq<Uint8>, stack: seq<Uint8>, wide: PixelType,
                        width: nat, height: nat, count: nat, m: ChannelMapping, t: PixelType, applyImages: bool)
    : (after: seq<Uint8>)
    requires Convertible(wide, m, t) && TightlyStacked(stack, wide, width, height, count)
    requires RoomFor(DestinationOf(p, DstPixelSize(m, t), width, height, applyImages), height, count, |memory|)
    ensures |after| == |memory|
  {
    var d := DestinationOf(p, DstPixelSize(m, t), width, height, applyImages);
    var rows := WideRows(codec, stack, wide, m, t, width, height, count);
    DestinationRowBytes(p, DstPixelSize(m, t), width, height, applyImages);
    WideRowsShape(codec, stack, wide, m, t, width, height, count, d);
    FinishedShape(p, d, rows, ComponentSize(t), height, |memory|);
    StoreSlices(memory, d, FinishedRows(p, rows, ComponentSize(t)), height, count)
  }

  method StoreWideRowsToClient(codec: FloatCodec, p: PackParams, stack: seq<Uint8>, wide: PixelType, width: nat,
                               height: nat, count: nat, m: ChannelMapping, t: PixelType, dst: array<Uint8>,
                               applyImages: bool) returns (ok: bool)
    requires DstPixelSize(m, t) != 0 ==> Convertible(wide, m, t)
    requires TightlyStacked(stack, wide, width, height, count)
    requires RoomFor(DestinationOf(p, DstPixelSize(m, t), width, height, applyImages), height, count, dst.Length)
    modifies dst
    ensures ok <==> DstPixelSize(m, t) != 0
    ensures !ok ==> dst[..] == old(dst[..])
    ensures ok ==>
      dst[..] == StoredTexels(codec, p, old(dst[..]), stack, wide, width, height, count, m, t, applyImages)
  {
    hide TightlyStacked, Convertible, ComponentSize, DstPixelSize, RoomFor, Shaped, WideRows, FinishedRows,
      DestinationOf, StoreSlices;
    var pixelBytes := DstPixelSize(m, t);
    if pixelBytes == 0 {
      return false;
    }
    var rows := WideRows(codec, stack, wide, m, t, width, height, count);
    ghost var d := DestinationOf(p, pixelBytes, width, height, applyImages);
    DestinationRowBytes(p, pixelBytes, width, height, applyImages);
    WideRowsShape(codec, stack, wide, m, t, width, height, count, d);
    FinishedShape(p, d, rows, ComponentSize(t), height, dst.Length);
    StoreClientRows(p, pixelBytes, ComponentSize(t), width, height, rows, dst, applyImages);
    return true;
  }

  lemma WideRowsShape(codec: FloatCodec, stack: seq<Uint8>, wide: PixelType, m: ChannelMapping, t: PixelType,
                      width: nat, height: nat, count: nat, d: Destination)
    requires Convertible(wide, m, t) && TightlyStacked(stack, wide, width, height, count)
    requires d.rowBytes == width * DstPixelSize(m, t)
    ensures var rows := WideRows(codec, stack, wide, m, t, width, height, count);
      |rows| == count && Shaped(rows, d, height)
  {
    hide TightlyStacked, Convertible, DstPixelSize, WideSlice, WideRows;
  }

  lemma WideSliceRow(codec: FloatCodec, stack: seq<Uint8>, wide: PixelType, m: ChannelMapping, t: PixelType,
                     width: nat, height: nat, count: nat, k: nat, j: nat)
    requires Convertible(wide, m, t) && TightlyStacked(stack, wide, width, height, count) && k < count && j < height
    ensures WideSlice(codec, stack, wide, m, t, width, height, count, k)[j] ==
            WideRow(codec, stack, wide, m, t, width, height, count, k, j)
  {
    hide WideRow, TightlyStacked, Convertible, DstPixelSize;
  }

  /** Memory after the packed words have been stored over it. */
  function StoredWords(p: PackParams, memory: seq<Uint8>, words: seq<Uint8>, width: nat, height: nat, count: nat,
                       applyImages: bool): (after: seq<Uint8>)
    requires |words| == count * height * (width * 4)
    requires RoomFor(DestinationOf(p, 4, width, height, applyImages), height, count, |memory|)
    ensures |after| == |memory|
  {
    var d := DestinationOf(p, 4, width, height, applyImages);
    var rows := WordRows(words, width, height, count);
    FinishedShape(p, d, rows, 4, height, |memory|);
    StoreSlices(memory, d, FinishedRows(p, rows, 4), height, count)
  }

  /** Packed 32-bit words are stored verbatim, at the same addresses. */
  method StorePackedWordsToClient(p: PackParams, words: seq<Uint8>, width: nat, height: nat, count: nat, t: PixelType,
                                  dst: array<Uint8>, applyImages: bool) returns (ok: bool)
    requires |words| == count * height * (width * 4)
    requires RoomFor(DestinationOf(p, 4, width, height, applyImages), height, count, dst.Length)
    modifies dst
    ensures ok <==> GetPackedLayout(t).Some? && GetPackedLayout(t).value.byteSize == 4
    ensures !ok ==> dst[..] == old(dst[..])
    ensures ok ==> dst[..] == StoredWords(p, old(dst[..]), words, width, height, count, applyImages)
  {
    hide GetPackedLayout, RoomFor;
    if GetPackedLayout(t).None? || GetPackedLayout(t).value.byteSize != 4 {
      return false;
    }
    StoreClientRows(p, 4, 4, width, height, WordRows(words, width, height, count), dst, applyImages);
    return true;
  }

  function WordRows(words: seq<Uint8>, width: nat, height: nat, count: nat): Rows
    requires |words| == count * height * (width * 4)
  {
    seq(count, k requires 0 <= k < count => seq(height, j requires 0 <= j < height =>
      StackedRow(words, k, j, count, height, width * 4)))
  }

  /** WORDS, end to end: the packed word (k, j, col) of the tight stack lies where that pixel lies, its four bytes
      as they are or, if a swap is asked for, in reverse. */
  lemma WordLandsInMemory(p: PackParams, memory: seq<Uint8>, words: seq<Uint8>, width: nat, height: nat, count: nat,
                          applyImages: bool, k: nat, j: nat, col: nat) returns (at: nat, word: seq<Uint8>)
    requires |words| == count * height * (width * 4) && k < count && j < height && col < width
    requires var d := DestinationOf(p, 4, width, height, applyImages);
      RoomFor(d, height, count, |memory|) && RowsDisjoint(d, height, count)
    ensures var d := DestinationOf(p, 4, width, height, applyImages);
      at == ((if applyImages && p.skipImages > 0 then p.skipImages else 0) + k) * d.imageStride +
            ((if p.skipRows > 0 then p.skipRows else 0) + j) * d.rowStride +
            ((if p.skipPixels > 0 then p.skipPixels else 0) + col) * 4
    ensures IsSlice(word, words, ((k * height + j) * width + col) * 4, 4)
    ensures LandsAt(StoredWords(p, memory, words, width, height, count, applyImages), at, word, 4, p.swapBytes)
  {
    hide StackedRow, DestinationOf, RoomFor, RowsDisjoint, Shaped, FinishedRows, WordRows, StoreSlices, RowOffset,
      Finished, Piece, IsSlice, LandsAt;
    var d := DestinationOf(p, 4, width, height, applyImages);
    var rows := WordRows(words, width, height, count);
    DestinationRowBytes(p, 4, width, height, applyImages);
    WordRowsAt(words, width, height, count, d, k, j);
    at := PixelLands(p, memory, d, rows, 4, width, 4, height, k, j, col);
    word := Piece(rows[k][j], col, width, 4);
    PixelAddress(p, 4, width, height, applyImages, k, j, col);
    TexelOfStack(words, k, j, col, count, height, width, 4);
  }

  lemma WordRowsAt(words: seq<Uint8>, width: nat, height: nat, count: nat, d: Destination, k: nat, j: nat)
    requires |words| == count * height * (width * 4) && d.rowBytes == width * 4 && k < count && j < height
    ensures var rows := WordRows(words, width, height, count);
      && |rows| == count && Shaped(rows, d, height) && |rows[k]| == height
      && rows[k][j] == StackedRow(words, k, j, count, height, width * 4)
  {
    hide StackedRow;
  }

  /** After a store of rows that do not overlap, pixel `col` of row (k, j) is where that pixel lies. */
  lemma PixelLands(p: PackParams, memory: seq<Uint8>, d: Destination, rows: Rows, group: nat, width: nat, size: nat,
                   height: nat, k: nat, j: nat, col: nat) returns (at: nat)
    requires Shaped(rows, d, height) && RoomFor(d, height, |rows|, |memory|) && RowsDisjoint(d, height, |rows|)
    requires k < |rows| && j < height && col < width && d.rowBytes == width * size && group > 0 && size % group == 0
    ensures at == RowOffset(d, k, j) + col * size
    ensures |rows[k]| == height && |rows[k][j]| == width * size
    ensures var finished := FinishedRows(p, rows, group);
      && Shaped(finished, d, height) && RoomFor(d, height, |finished|, |memory|) && |finished| == |rows|
      && LandsAt(StoreSlices(memory, d, finished, height, |rows|), at, Piece(rows[k][j], col, width, size), group,
                 p.swapBytes)
  {
    hide RoomFor, RowsDisjoint, StoreSlices, RowOffset, Finished, Piece, Mirrored;
    var finished := FinishedRows(p, rows, group);
    FinishedShape(p, d, rows, group, height, |memory|);
    FinishedAt(p, rows, group, d, height);
    RowInMemory(memory, d, finished, height, k, j);
    FinishedPiece(p, rows[k][j], col, width, size, group);
    TexelInRow(StoreSlices(memory, d, finished, height, |rows|), finished[k][j], RowOffset(d, k, j), col, width, size);
    FinishedBytes(p, Piece(rows[k][j], col, width, size), group);
    at := RowOffset(d, k, j) + col * size;
    BytesLand(StoreSlices(memory, d, finished, height, |rows|), at, Piece(rows[k][j], col, width, size),
              Finished(p, Piece(rows[k][j], col, width, size), group), group, p.swapBytes);
  }

  lemma BytesLand(memory: seq<Uint8>, at: nat, pixel: seq<Uint8>, stored: seq<Uint8>, group: nat, swapped: bool)
    requires group > 0 && |stored| == |pixel| && at + |stored| <= |memory| && memory[at..at + |stored|] == stored
    requires forall i :: 0 <= i < |pixel| ==>
      && 0 <= Mirrored(i, group) < |pixel|
      && stored[i] == pixel[if swapped then Mirrored(i, group) else i]
    ensures LandsAt(memory, at, pixel, group, swapped)
  {
    hide Mirrored;
    forall i | 0 <= i < |pixel| ensures memory[at + i] == stored[i] {
      assert memory[at..at + |stored|][i] == memory[at + i];
    }
  }

  /** END TO END: after a store of rows that do not overlap, the client's texel (k, j, col) lies at
      (skipImages + k) images, (skipRows + j) rows and (skipPixels + col) pixels; it is the converted wide
      texel at that place of the tight stack, with the bytes of each component (or packed word) in reverse
      if a swap is asked for. */
  lemma TexelLandsInMemory(codec: FloatCodec, p: PackParams, memory: seq<Uint8>, stack: seq<Uint8>, wide: PixelType,
                           width: nat, height: nat, count: nat, m: ChannelMapping, t: PixelType, applyImages: bool,
                           k: nat, j: nat, col: nat) returns (at: nat, texel: seq<Uint8>)
    requires Convertible(wide, m, t) && TightlyStacked(stack, wide, width, height, count)
    requires k < count && j < height && col < width
    requires var d := DestinationOf(p, DstPixelSize(m, t), width, height, applyImages);
      RoomFor(d, height, count, |memory|) && RowsDisjoint(d, height, count)
    ensures var d := DestinationOf(p, DstPixelSize(m, t), width, height, applyImages);
      at == ((if applyImages && p.skipImages > 0 then p.skipImages else 0) + k) * d.imageStride +
            ((if p.skipRows > 0 then p.skipRows else 0) + j) * d.rowStride +
            ((if p.skipPixels > 0 then p.skipPixels else 0) + col) * DstPixelSize(m, t)
    ensures |texel| == WidePixelSize(wide)
    ensures IsSlice(texel, stack, ((k * height + j) * width + col) * WidePixelSize(wide), WidePixelSize(wide))
    ensures LandsAt(StoredTexels(codec, p, memory, stack, wide, width, height, count, m, t, applyImages), at,
                    ConvertPixel(codec, wide, m, t, texel), ComponentSize(t), p.swapBytes)
  {
    hide Convertible, DstPixelSize, ConvertedRow, ConvertPixel, StackedRow, WidePixelSize, ComponentSize, DestinationOf,
      RoomFor, RowsDisjoint, Shaped, FinishedRows, WideRows, StoreSlices, RowOffset, Finished, Piece, IsSlice, LandsAt;
    var size := DstPixelSize(m, t);
    var d := DestinationOf(p, size, width, height, applyImages);
    var row := StackedRow(stack, k, j, count, height, width * WidePixelSize(wide));
    var rows := WideRows(codec, stack, wide, m, t, width, height, count);
    texel := Piece(row, col, width, WidePixelSize(wide));
    DestinationRowBytes(p, size, width, height, applyImages);
    WideRowsShape(codec, stack, wide, m, t, width, height, count, d);
    WideRowsAt(codec, stack, wide, m, t, width, height, count, k, j);
    ConvertedRowAt(codec, wide, m, t, row, width, width, col);
    ConvertibleSize(wide, m, t);
    SwapGroupDividesPixel(m, t);
    at := PixelLands(p, memory, d, rows, ComponentSize(t), width, size, height, k, j, col);
    PixelAddress(p, size, width, height, applyImages, k, j, col);
    TexelOfStack(stack, k, j, col, count, height, width, WidePixelSize(wide));
  }

  predicate IsSlice(part: seq<Uint8>, whole: seq<Uint8>, from: int, size: nat) {
    |part| == size && 0 <= from && from + size <= |whole| && forall i :: 0 <= i < size ==> part[i] == whole[from + i]
  }

  /** The place of byte i among groups that are each reversed. */
  function Mirrored(i: nat, group: nat): int
    requires group > 0
  {
    i / group * group + (group - 1 - i % group)
  }

  /** The pixel's bytes are in memory from `at` on, those of each group in reverse if swapped. */
  predicate LandsAt(memory: seq<Uint8>, at: nat, pixel: seq<Uint8>, group: nat, swapped: bool) {
    group > 0 && at + |pixel| <= |memory| &&
    forall i :: 0 <= i < |pixel| ==>
      && 0 <= Mirrored(i, group) < |pixel|
      && memory[at + i] == pixel[if swapped then Mirrored(i, group) else i]
  }

  lemma FinishedBytes(p: PackParams, pixel: seq<Uint8>, group: nat)
    requires group > 0 && |pixel| % group == 0
    ensures forall i :: 0 <= i < |pixel| ==>
      && 0 <= Mirrored(i, group) < |pixel|
      && Finished(p, pixel, group)[i] == pixel[if p.swapBytes then Mirrored(i, group) else i]
  {
    hide SwapGroups;
    forall i: nat | i < |pixel|
      ensures 0 <= Mirrored(i, group) < |pixel|
      ensures Finished(p, pixel, group)[i] == pixel[if p.swapBytes then Mirrored(i, group) else i]
    {
      WholeGroups(1, |pixel|, group);
      SwappedByte(pixel, |pixel| / group, group, i);
      if group == 1 {
        assert i % 1 == 0 && i / 1 * 1 == i;
      }
    }
  }

  /** Texel `col` of row (k, j) of a tight stack. */
  lemma TexelOfStack(stack: seq<Uint8>, k: nat, j: nat, col: nat, count: nat, height: nat, width: nat, size: nat)
    requires k < count && j < height && col < width && |stack| == count * height * (width * size)
    ensures IsSlice(Piece(StackedRow(stack, k, j, count, height, width * size), col, width, size), stack,
                    ((k * height + j) * width + col) * size, size)
  {
    hide Piece;
    FlatRow(k, j, count, height);
    var row := StackedRow(stack, k, j, count, height, width * size);
    PieceIs(stack, k * height + j, count * height, width * size);
    PieceIs(row, col, width, size);
    SubSlice(stack, (k * height + j) * (width * size), width * size, col * size, size);
    TexelOffset(k * height + j, width, col, size);
  }

  lemma TexelOffset(row: nat, width: nat, col: nat, size: nat)
    ensures row * (width * size) + col * size == (row * width + col) * size
  {
    assert row * (width * size) == (row * width) * size;
    SkipsFirst(row * width, col, size);
  }

  lemma ConvertibleSize(wide: PixelType, m: ChannelMapping, t: PixelType)
    requires Convertible(wide, m, t)
    ensures DstPixelSize(m, t) != 0
  {
  }

  /** Texel `col` of a row that is in memory. */
  lemma TexelInRow(memory: seq<Uint8>, row: seq<Uint8>, at: nat, col: nat, width: nat, size: nat)
    requires |row| == width * size && col < width && at + |row| <= |memory| && memory[at..at + |row|] == row
    ensures 0 <= at + col * size && at + col * size + size <= |memory|
    ensures memory[at + col * size..at + col * size + size] == Piece(row, col, width, size)
  {
    PieceIs(row, col, width, size);
    SubSlice(memory, at, |row|, col * size, size);
  }

  lemma DestinationRowBytes(p: PackParams, pixelBytes: nat, width: nat, height: nat, applyImages: bool)
    ensures DestinationOf(p, pixelBytes, width, height, applyImages).rowBytes == width * pixelBytes
  {
  }

  lemma PieceIs(s: seq<Uint8>, i: nat, n: nat, size: nat)
    requires i < n && |s| == n * size
    ensures 0 <= i * size && i * size + size <= |s|
    ensures Piece(s, i, n, size) == s[i * size..i * size + size]
  {
    SlotIn(i, n, size);
  }

  lemma SubSlice(s: seq<Uint8>, at: nat, length: nat, from: nat, size: nat)
    requires at + length <= |s| && from + size <= length
    ensures s[at + from..at + from + size] == s[at..at + length][from..from + size]
  {
    var inner := s[at..at + length][from..from + size];
    var direct := s[at + from..at + from + size];
    assert forall i :: 0 <= i < size ==> inner[i] == direct[i];
  }

  lemma WideRowsAt(codec: FloatCodec, stack: seq<Uint8>, wide: PixelType, m: ChannelMapping, t: PixelType,
                   width: nat, height: nat, count: nat, k: nat, j: nat)
    requires Convertible(wide, m, t) && TightlyStacked(stack, wide, width, height, count) && k < count && j < height
    ensures var rows := WideRows(codec, stack, wide, m, t, width, height, count);
      |rows[k]| == height && rows[k][j] == WideRow(codec, stack, wide, m, t, width, height, count, k, j)
  {
    hide WideRow, TightlyStacked, Convertible, DstPixelSize, WideSlice;
    WideSliceRow(codec, stack, wide, m, t, width, height, count, k, j);
  }

  lemma FinishedAt(p: PackParams, rows: Rows, group: nat, d: Destination, height: nat)
    requires Shaped(rows, d, height)
    ensures Shaped(FinishedRows(p, rows, group), d, height)
    ensures forall k: nat, j: nat :: k < |rows| && j < height ==>
      FinishedRows(p, rows, group)[k][j] == Finished(p, rows[k][j], group)
  {
    hide Finished;
  }
}
