/** The row conversion and the strided stores of MG_Backend/ClientReadback, writing byte arrays in
  place. */
module ReadbackRows {
  import opened Wrappers
  import opened Bits
  import opened ReadbackFormats

  // ---- wide texels --------------------------------------------------------------------------

  /** Bytes of one wide RGBA texel. */
  function WidePixelSize(wide: PixelType): nat {
    4 * ComponentSize(wide)
  }

  function WideWord(wide: PixelType, pixel: seq<Uint8>, c: nat): nat
    requires |pixel| == WidePixelSize(wide) && c < 4
  {
    FromLittleEndian(pixel[c * ComponentSize(wide)..c * ComponentSize(wide) + ComponentSize(wide)])
  }

  function WideInteger(wide: PixelType, pixel: seq<Uint8>, c: nat): int
    requires |pixel| == WidePixelSize(wide) && c < 4
  {
    ComponentValue(wide, pixel[c * ComponentSize(wide)..c * ComponentSize(wide) + ComponentSize(wide)])
  }

  /** The source of an integer format: signed 32-bit words when the wide type says so, unsigned otherwise. */
  function WideSource(wide: PixelType, pixel: seq<Uint8>, c: nat): int
    requires |pixel| == WidePixelSize(wide) && c < 4
  {
    ComponentValue(if wide.SignedInt? then SignedInt else UnsignedInt,
                   pixel[c * ComponentSize(wide)..c * ComponentSize(wide) + ComponentSize(wide)])
  }

  function MaxReal(a: real, b: real): real {
    if a < b then b else a
  }

  function WideReal(codec: FloatCodec, wide: PixelType, pixel: seq<Uint8>, c: nat): real
    requires |pixel| == WidePixelSize(wide) && c < 4
  {
    match wide
    case UnsignedByte => WideInteger(wide, pixel, c) as real / 255.0
    case SignedByte => MaxReal(WideInteger(wide, pixel, c) as real / 127.0, -1.0)
    case UnsignedShort => WideInteger(wide, pixel, c) as real / 65535.0
    case SignedShort => MaxReal(WideInteger(wide, pixel, c) as real / 32767.0, -1.0)
    case HalfFloat => codec.decodeHalf(WideWord(wide, pixel, c))
    case _ => codec.decodeFloat(WideWord(wide, pixel, c))
  }

  /** A (wide type, format, type) triple with a client form, and wide texels the conversion does not read
      past: it takes integers, and everything it knows no narrower reading of, to be 32-bit words. */
  predicate Convertible(wide: PixelType, m: ChannelMapping, t: PixelType) {
    && GoodMapping(m) && DstPixelSize(m, t) != 0
    && (ComponentSize(wide) == 4 ||
        (!m.isInteger && wide in {UnsignedByte, SignedByte, UnsignedShort, SignedShort, HalfFloat}))
  }

  function ConvertPixel(codec: FloatCodec, wide: PixelType, m: ChannelMapping, t: PixelType, pixel: seq<Uint8>)
    : (bytes: seq<Uint8>)
    requires Convertible(wide, m, t) && |pixel| == WidePixelSize(wide)
    ensures |bytes| == DstPixelSize(m, t)
  {
    if m.isInteger
    then IntegerPixel(m, t, seq(4, c requires 0 <= c < 4 => WideSource(wide, pixel, c)))
    else NormalizedPixel(codec, m, t, seq(4, c requires 0 <= c < 4 => WideReal(codec, wide, pixel, c)))
  }

  // ---- one row ------------------------------------------------------------------------------

  lemma SlotIn(i: nat, n: nat, size: nat)
    requires i < n
    ensures 0 <= i * size && i * size + size <= n * size && (i + 1) * size == i * size + size
  {
    SlotFits(i, n, size);
  }

  /** The i-th of n equal pieces of a buffer. */
  function Piece(s: seq<Uint8>, i: nat, n: nat, size: nat): (piece: seq<Uint8>)
    requires i < n && |s| == n * size
    ensures |piece| == size
  {
    SlotIn(i, n, size);
    s[i * size..i * size + size]
  }

  /** The first n of `width` texels, converted. */
  function ConvertedRow(codec: FloatCodec, wide: PixelType, m: ChannelMapping, t: PixelType, row: seq<Uint8>,
                        width: nat, n: nat): (bytes: seq<Uint8>)
    requires Convertible(wide, m, t) && |row| == width * WidePixelSize(wide) && n <= width
    ensures |bytes| == n * DstPixelSize(m, t)
  {
    if n == 0 then []
    else
      SlotIn(n - 1, n, DstPixelSize(m, t));
      ConvertedRow(codec, wide, m, t, row, width, n - 1) +
      ConvertPixel(codec, wide, m, t, Piece(row, n - 1, width, WidePixelSize(wide)))
  }

  /** Texel `col` of the converted row is texel `col` of the wide row, converted. */
  lemma {:induction false} ConvertedRowAt(codec: FloatCodec, wide: PixelType, m: ChannelMapping, t: PixelType,
                                          row: seq<Uint8>, width: nat, n: nat, col: nat)
    requires Convertible(wide, m, t) && |row| == width * WidePixelSize(wide) && col < n <= width
    ensures Piece(ConvertedRow(codec, wide, m, t, row, width, n), col, n, DstPixelSize(m, t)) ==
            ConvertPixel(codec, wide, m, t, Piece(row, col, width, WidePixelSize(wide)))
  {
    hide ConvertPixel, DstPixelSize, Convertible, WidePixelSize;
    var size := DstPixelSize(m, t);
    var before := ConvertedRow(codec, wide, m, t, row, width, n - 1);
    var last := ConvertPixel(codec, wide, m, t, Piece(row, n - 1, width, WidePixelSize(wide)));
    SlotIn(n - 1, n, size);
    if col == n - 1 {
      SlotOfLast(before, last);
    } else {
      ConvertedRowAt(codec, wide, m, t, row, width, n - 1, col);
      SlotIn(col, n - 1, size);
      SlotOfEarlier(before, last, col * size, size);
    }
  }

  // ---- writing into memory ------------------------------------------------------------------

  function Overwrite(s: seq<Uint8>, at: nat, bytes: seq<Uint8>): (r: seq<Uint8>)
    requires at + |bytes| <= |s|
    ensures |r| == |s|
    ensures forall i :: 0 <= i < |s| ==> r[i] == if at <= i < at + |bytes| then bytes[i - at] else s[i]
  {
    s[..at] + bytes + s[at + |bytes|..]
  }

  method Memcpy(dst: array<Uint8>, at: nat, bytes: seq<Uint8>)
    requires at + |bytes| <= dst.Length
    modifies dst
    ensures dst[..] == Overwrite(old(dst[..]), at, bytes)
  {
    for i := 0 to |bytes|
      invariant forall k :: 0 <= k < dst.Length ==>
        dst[k] == if at <= k < at + i then bytes[k - at] else old(dst[k])
    {
      dst[at + i] := bytes[i];
    }
  }

  lemma OverwriteTwice(s: seq<Uint8>, at: nat, first: seq<Uint8>, second: seq<Uint8>)
    requires at + |first| + |second| <= |s|
    ensures Overwrite(Overwrite(s, at, first), at + |first|, second) == Overwrite(s, at, first + second)
  {
  }

  lemma OverwriteNothing(s: seq<Uint8>, at: nat)
    requires at <= |s|
    ensures Overwrite(s, at, []) == s
  {
  }

  // ---- converting a row in place ------------------------------------------------------------

  method WritePackedInteger(m: ChannelMapping, t: PixelType, source: seq<int>, dst: array<Uint8>, at: nat)
    requires GoodMapping(m) && m.isInteger && |source| == 4 && DstPixelSize(m, t) != 0 && GetPackedLayout(t).Some?
    requires at + DstPixelSize(m, t) <= dst.Length
    modifies dst
    ensures dst[..] == Overwrite(old(dst[..]), at, IntegerPixel(m, t, source))
  {
    hide GetPackedLayout, Or, ShiftLeft, LittleEndian, Overwrite;
    PackedLayoutsAreGood(t);
    var layout := GetPackedLayout(t).value;
    var word: nat := 0;
    for ch := 0 to layout.fieldCount
      invariant word == PackWord(layout, FieldValues(layout, m, source), ch)
    {
      var fieldMax := Pow2(layout.width[ch]) - 1;
      var v := Clamp(source[m.sourceChannel[ch]], 0, fieldMax);
      word := Or(word, ShiftLeft(v, layout.shift[ch]));
    }
    Memcpy(dst, at, LittleEndian(word, layout.byteSize));
  }

  method WriteIntegerComponents(m: ChannelMapping, t: PixelType, source: seq<int>, dst: array<Uint8>, at: nat)
    requires GoodMapping(m) && IsIntegerComponent(t) && |source| == 4
    requires at + m.channelCount * ComponentSize(t) <= dst.Length
    modifies dst
    ensures dst[..] == Overwrite(old(dst[..]), at, Components(m, t, source, m.channelCount))
  {
    hide ComponentBytes, ComponentSize, Overwrite;
    ghost var before := dst[..];
    var size := ComponentSize(t);
    OverwriteNothing(before, at);
    for ch := 0 to m.channelCount
      invariant ch * size <= m.channelCount * size
      invariant dst[..] == Overwrite(before, at, Components(m, t, source, ch))
    {
      SlotIn(ch, m.channelCount, size);
      var v := Clamp(source[m.sourceChannel[ch]], Lowest(t), Highest(t));
      Memcpy(dst, at + ch * size, ComponentBytes(t, v));
      OverwriteTwice(before, at, Components(m, t, source, ch), ComponentBytes(t, v));
    }
  }

  method WritePackedNormalized(codec: FloatCodec, m: ChannelMapping, t: PixelType, source: seq<real>,
                               dst: array<Uint8>, at: nat)
    requires GoodMapping(m) && !m.isInteger && |source| == 4 && DstPixelSize(m, t) != 0 && GetPackedLayout(t).Some?
    requires at + DstPixelSize(m, t) <= dst.Length
    modifies dst
    ensures dst[..] == Overwrite(old(dst[..]), at, NormalizedPixel(codec, m, t, source))
  {
    hide GetPackedLayout, Or, ShiftLeft, LittleEndian, Overwrite;
    PackedLayoutsAreGood(t);
    var layout := GetPackedLayout(t).value;
    var word: nat := 0;
    if layout.isFloatPacked {
      word := FloatWord(codec, t, layout, source[m.sourceChannel[0]], source[m.sourceChannel[1]],
                        source[m.sourceChannel[2]]);
    } else {
      for ch := 0 to layout.fieldCount
        invariant word == PackWord(layout, NormalizedValues(layout, m, source), ch)
      {
        var v := NormalizedField(source[m.sourceChannel[ch]], layout.width[ch]);
        word := Or(word, ShiftLeft(v, layout.shift[ch]));
      }
    }
    Memcpy(dst, at, LittleEndian(word, layout.byteSize));
  }

  method WriteNormalizedComponents(codec: FloatCodec, m: ChannelMapping, t: PixelType, source: seq<real>,
                                   dst: array<Uint8>, at: nat)
    requires GoodMapping(m) && GetPackedLayout(t).None? && |source| == 4
    requires at + m.channelCount * ComponentSize(t) <= dst.Length
    modifies dst
    ensures dst[..] == Overwrite(old(dst[..]), at, NormalizedComponents(codec, m, t, source, m.channelCount))
  {
    hide NormalizedComponent, ComponentSize, GetPackedLayout, Overwrite;
    ghost var before := dst[..];
    var size := ComponentSize(t);
    OverwriteNothing(before, at);
    for ch := 0 to m.channelCount
      invariant ch * size <= m.channelCount * size
      invariant dst[..] == Overwrite(before, at, NormalizedComponents(codec, m, t, source, ch))
    {
      SlotIn(ch, m.channelCount, size);
      var v := NormalizedComponent(codec, t, source[m.sourceChannel[ch]]);
      Memcpy(dst, at + ch * size, v);
      OverwriteTwice(before, at, NormalizedComponents(codec, m, t, source, ch), v);
    }
  }

  method WritePixel(codec: FloatCodec, wide: PixelType, m: ChannelMapping, t: PixelType, pixel: seq<Uint8>,
                    dst: array<Uint8>, at: nat)
    requires Convertible(wide, m, t) && |pixel| == WidePixelSize(wide)
    requires at + DstPixelSize(m, t) <= dst.Length
    modifies dst
    ensures dst[..] == Overwrite(old(dst[..]), at, ConvertPixel(codec, wide, m, t, pixel))
  {
    hide FieldValues, Components, NormalizedComponents, NormalizedValues, WideSource, WideReal;
    if m.isInteger {
      var source := seq(4, c requires 0 <= c < 4 => WideSource(wide, pixel, c));
      if GetPackedLayout(t).Some? {
        WritePackedInteger(m, t, source, dst, at);
      } else {
        WriteIntegerComponents(m, t, source, dst, at);
      }
    } else {
      var source := seq(4, c requires 0 <= c < 4 => WideReal(codec, wide, pixel, c));
      if GetPackedLayout(t).Some? {
        WritePackedNormalized(codec, m, t, source, dst, at);
      } else {
        WriteNormalizedComponents(codec, m, t, source, dst, at);
      }
    }
  }

  method ConvertWideReadbackRow(codec: FloatCodec, src: seq<Uint8>, dst: array<Uint8>, width: nat, wide: PixelType,
                                m: ChannelMapping, t: PixelType)
    requires Convertible(wide, m, t) && |src| == width * WidePixelSize(wide)
    requires width * DstPixelSize(m, t) <= dst.Length
    modifies dst
    ensures dst[..] == Overwrite(old(dst[..]), 0, ConvertedRow(codec, wide, m, t, src, width, width))
  {
    hide ConvertPixel, ConvertedRow, DstPixelSize, Convertible, WidePixelSize, RowSoFar, Piece, Overwrite;
    ghost var before := dst[..];
    var size := DstPixelSize(m, t);
    RowNotStarted(codec, src, width, wide, m, t, before);
    for col := 0 to width
      invariant RowSoFar(codec, src, width, wide, m, t, before, dst[..], col)
    {
      RowAdvances(codec, src, width, wide, m, t, before, dst[..], col);
      WritePixel(codec, wide, m, t, Piece(src, col, width, WidePixelSize(wide)), dst, col * size);
    }
    RowFinished(codec, src, width, wide, m, t, before, dst[..]);
  }

  /** The first `col` texels have been written. */
  predicate RowSoFar(codec: FloatCodec, src: seq<Uint8>, width: nat, wide: PixelType, m: ChannelMapping, t: PixelType,
                     before: seq<Uint8>, now: seq<Uint8>, col: nat)
    requires Convertible(wide, m, t) && |src| == width * WidePixelSize(wide)
  {
    col <= width && |ConvertedRow(codec, wide, m, t, src, width, col)| <= |before| &&
    width * DstPixelSize(m, t) <= |before| &&
    now == Overwrite(before, 0, ConvertedRow(codec, wide, m, t, src, width, col))
  }

  lemma RowNotStarted(codec: FloatCodec, src: seq<Uint8>, width: nat, wide: PixelType, m: ChannelMapping, t: PixelType,
                      before: seq<Uint8>)
    requires Convertible(wide, m, t) && |src| == width * WidePixelSize(wide)
    requires width * DstPixelSize(m, t) <= |before|
    ensures RowSoFar(codec, src, width, wide, m, t, before, before, 0)
  {
    OverwriteNothing(before, 0);
  }

  lemma RowAdvances(codec: FloatCodec, src: seq<Uint8>, width: nat, wide: PixelType, m: ChannelMapping, t: PixelType,
                    before: seq<Uint8>, now: seq<Uint8>, col: nat)
    requires Convertible(wide, m, t) && |src| == width * WidePixelSize(wide) && col < width
    requires RowSoFar(codec, src, width, wide, m, t, before, now, col)
    ensures var size := DstPixelSize(m, t);
      var pixel := ConvertPixel(codec, wide, m, t, Piece(src, col, width, WidePixelSize(wide)));
      && 0 <= col * size && col * size + size <= |now| && |pixel| == size
      && RowSoFar(codec, src, width, wide, m, t, before, Overwrite(now, col * size, pixel), col + 1)
  {
    hide ConvertPixel, DstPixelSize, Convertible, WidePixelSize, Piece, Overwrite;
    var done := ConvertedRow(codec, wide, m, t, src, width, col);
    var pixel := ConvertPixel(codec, wide, m, t, Piece(src, col, width, WidePixelSize(wide)));
    SlotIn(col, width, DstPixelSize(m, t));
    assert |done| == col * DstPixelSize(m, t);
    OverwriteTwice(before, 0, done, pixel);
  }

  lemma RowFinished(codec: FloatCodec, src: seq<Uint8>, width: nat, wide: PixelType, m: ChannelMapping, t: PixelType,
                    before: seq<Uint8>, now: seq<Uint8>)
    requires Convertible(wide, m, t) && |src| == width * WidePixelSize(wide)
    requires RowSoFar(codec, src, width, wide, m, t, before, now, width)
    ensures now == Overwrite(before, 0, ConvertedRow(codec, wide, m, t, src, width, width))
  {
    hide ConvertedRow;
  }
}
