/** What one converted pixel means, told from the names of the client's format and type and from the bytes of
  the wide texel, without the tables MG_Backend/ClientReadback works from. */
module ReadbackMeaning {
  import opened Wrappers
  import opened Bits
  import opened ReadbackFormats
  import opened ReadbackRows

  // ---- packed types by name -----------------------------------------------------------------

  /** The widths a packed type's name lists, from the most significant bits down, and whether it ends in REV. */
  datatype PackedName = PackedName(widths: seq<nat>, rev: bool)

  function NameOf(t: PixelType): Option<PackedName> {
    match t
    case UnsignedByte332 => Some(PackedName([3, 3, 2], false))
    case UnsignedByte233Rev => Some(PackedName([2, 3, 3], true))
    case UnsignedShort565 => Some(PackedName([5, 6, 5], false))
    case UnsignedShort565Rev => Some(PackedName([5, 6, 5], true))
    case UnsignedShort4444 => Some(PackedName([4, 4, 4, 4], false))
    case UnsignedShort4444Rev => Some(PackedName([4, 4, 4, 4], true))
    case UnsignedShort5551 => Some(PackedName([5, 5, 5, 1], false))
    case UnsignedShort1555Rev => Some(PackedName([1, 5, 5, 5], true))
    case UnsignedInt8888 => Some(PackedName([8, 8, 8, 8], false))
    case UnsignedInt8888Rev => Some(PackedName([8, 8, 8, 8], true))
    case UnsignedInt1010102 => Some(PackedName([10, 10, 10, 2], false))
    case UnsignedInt2101010Rev => Some(PackedName([2, 10, 10, 10], true))
    case UnsignedInt10F11F11FRev => Some(PackedName([10, 11, 11], true))
    case UnsignedInt5999Rev => Some(PackedName([5, 9, 9, 9], true))
    case _ => None
  }

  function Total(widths: seq<nat>): nat {
    if widths == [] then 0 else widths[0] + Total(widths[1..])
  }

  /** A pixel's components take the listed fields from the left, those of a REV type from the right. */
  function ListedAt(name: PackedName, ch: nat): nat
    requires ch < |name.widths|
  {
    if name.rev then |name.widths| - 1 - ch else ch
  }

  function NamedWidth(name: PackedName, ch: nat): nat
    requires ch < |name.widths|
  {
    name.widths[ListedAt(name, ch)]
  }

  /** What is listed to the right of a field lies below it. */
  function NamedShift(name: PackedName, ch: nat): nat
    requires ch < |name.widths|
  {
    Total(name.widths[ListedAt(name, ch) + 1..])
  }

  /** THE TABLE, from the names: a type is packed as it is named, a word is as long as the widths together, and
      each component's field has the width and the place its name gives it. */
  lemma LayoutFollowsName(t: PixelType)
    ensures GetPackedLayout(t).Some? <==> NameOf(t).Some?
    ensures NameOf(t).Some? ==>
      var l, name := GetPackedLayout(t).value, NameOf(t).value;
      && 8 * l.byteSize == Total(name.widths)
      && l.fieldCount == (if t.UnsignedInt5999Rev? then 3 else |name.widths|)
      && (l.isFloatPacked <==> t.UnsignedInt10F11F11FRev? || t.UnsignedInt5999Rev?)
      && |l.width| == |l.shift| == 4
      && forall ch :: 0 <= ch < l.fieldCount ==>
           l.width[ch] == NamedWidth(name, ch) && l.shift[ch] == NamedShift(name, ch)
  {
    hide GetPackedLayout, NameOf, Total, NamedWidth, NamedShift;
    WordFollowsName(t);
    if NameOf(t).Some? {
      forall ch | 0 <= ch < GetPackedLayout(t).value.fieldCount
        ensures GetPackedLayout(t).value.width[ch] == NamedWidth(NameOf(t).value, ch)
        ensures GetPackedLayout(t).value.shift[ch] == NamedShift(NameOf(t).value, ch)
      {
        FieldFollowsName(t, ch);
      }
    }
  }

  lemma WordFollowsName(t: PixelType)
    ensures GetPackedLayout(t).Some? <==> NameOf(t).Some?
    ensures NameOf(t).Some? ==>
      var l, name := GetPackedLayout(t).value, NameOf(t).value;
      && |name.widths| in {3, 4} && 8 * l.byteSize == Total(name.widths)
      && l.fieldCount == (if t.UnsignedInt5999Rev? then 3 else |name.widths|)
      && (l.isFloatPacked <==> t.UnsignedInt10F11F11FRev? || t.UnsignedInt5999Rev?)
      && |l.width| == |l.shift| == 4
  {
    hide GetPackedLayout, NameOf, Total;
    WordInTable(t);
    if NameOf(t).Some? {
      Totals(NameOf(t).value.widths);
    }
  }

  lemma WordInTable(t: PixelType)
    ensures GetPackedLayout(t).Some? <==> NameOf(t).Some?
    ensures NameOf(t).Some? ==>
      var l, name := GetPackedLayout(t).value, NameOf(t).value;
      && |name.widths| in {3, 4} && 8 * l.byteSize == name.widths[0] + After(name.widths, 0)
      && l.fieldCount == (if t.UnsignedInt5999Rev? then 3 else |name.widths|)
      && (l.isFloatPacked <==> t.UnsignedInt10F11F11FRev? || t.UnsignedInt5999Rev?)
      && |l.width| == |l.shift| == 4
  {
  }

  lemma FieldFollowsName(t: PixelType, ch: nat)
    requires NameOf(t).Some? && GetPackedLayout(t).Some? && ch < GetPackedLayout(t).value.fieldCount
    ensures var l, name := GetPackedLayout(t).value, NameOf(t).value;
      && ch < |name.widths| && ch < |l.width| && ch < |l.shift|
      && l.width[ch] == NamedWidth(name, ch) && l.shift[ch] == NamedShift(name, ch)
  {
    hide GetPackedLayout, NameOf, Total;
    WordFollowsName(t);
    var widths := NameOf(t).value.widths;
    FieldInTable(t, ch);
    Totals(widths);
  }

  /** The sum of what is listed after item i of three or four. */
  function After(widths: seq<nat>, i: nat): nat
    requires i < |widths|
  {
    (if i + 1 < |widths| then widths[i + 1] else 0) + (if i + 2 < |widths| then widths[i + 2] else 0) +
    (if i + 3 < |widths| then widths[i + 3] else 0)
  }

  lemma FieldInTable(t: PixelType, ch: nat)
    requires NameOf(t).Some? && GetPackedLayout(t).Some? && ch < GetPackedLayout(t).value.fieldCount
    ensures var l, name := GetPackedLayout(t).value, NameOf(t).value;
      && ch < |name.widths| && ch < |l.width| && ch < |l.shift|
      && l.width[ch] == name.widths[ListedAt(name, ch)] && l.shift[ch] == After(name.widths, ListedAt(name, ch))
  {
    hide GetPackedLayout, NameOf, After;
    if NameOf(t).value.rev {
      RevFieldInTable(t, ch);
    } else {
      PlainFieldInTable(t, ch);
    }
  }

  lemma PlainFieldInTable(t: PixelType, ch: nat)
    requires NameOf(t).Some? && GetPackedLayout(t).Some? && ch < GetPackedLayout(t).value.fieldCount
    requires !NameOf(t).value.rev
    ensures var l, name := GetPackedLayout(t).value, NameOf(t).value;
      && ch < |name.widths| && ch < |l.width| && ch < |l.shift|
      && l.width[ch] == name.widths[ListedAt(name, ch)] && l.shift[ch] == After(name.widths, ListedAt(name, ch))
  {
  }

  lemma RevFieldInTable(t: PixelType, ch: nat)
    requires NameOf(t).Some? && GetPackedLayout(t).Some? && ch < GetPackedLayout(t).value.fieldCount
    requires NameOf(t).value.rev
    ensures var l, name := GetPackedLayout(t).value, NameOf(t).value;
      && ch < |name.widths| && ch < |l.width| && ch < |l.shift|
      && l.width[ch] == name.widths[ListedAt(name, ch)] && l.shift[ch] == After(name.widths, ListedAt(name, ch))
  {
  }

  lemma Totals(w: seq<nat>)
    requires |w| in {3, 4}
    ensures Total(w[|w|..]) == 0 && Total(w[|w| - 1..]) == w[|w| - 1]
    ensures Total(w[|w| - 2..]) == w[|w| - 2] + w[|w| - 1]
    ensures Total(w[|w| - 3..]) == w[|w| - 3] + w[|w| - 2] + w[|w| - 1]
    ensures |w| == 4 ==> Total(w) == w[0] + w[1] + w[2] + w[3]
    ensures |w| == 3 ==> Total(w) == w[0] + w[1] + w[2]
  {
    var n := |w|;
    assert w[n - 1..][1..] == w[n..] && w[n - 2..][1..] == w[n - 1..] && w[n - 3..][1..] == w[n - 2..];
    if n == 4 {
      assert w[1..] == w[n - 3..];
    } else {
      assert w == w[n - 3..];
    }
  }

  // ---- numbers in bytes ---------------------------------------------------------------------

  /** Slot c of equal slots of 1, 2 or 4 bytes, least significant byte first. */
  function SlotNumber(bytes: seq<Uint8>, size: nat, c: nat): nat
    requires size in {1, 2, 4} && size * c + size <= |bytes|
  {
    if size == 1 then bytes[c]
    else if size == 2 then bytes[2 * c] as nat + 0x100 * bytes[2 * c + 1] as nat
    else bytes[4 * c] as nat + 0x100 * bytes[4 * c + 1] as nat + 0x1_0000 * bytes[4 * c + 2] as nat +
         0x100_0000 * bytes[4 * c + 3] as nat
  }

  /** The bytes of one component of a type, and whether its name is that of a signed type. */
  datatype NumberName = NumberName(size: nat, signed: bool)

  function NumberOf(t: PixelType): Option<NumberName> {
    match t
    case UnsignedByte => Some(NumberName(1, false))
    case SignedByte => Some(NumberName(1, true))
    case UnsignedShort => Some(NumberName(2, false))
    case SignedShort => Some(NumberName(2, true))
    case UnsignedInt => Some(NumberName(4, false))
    case SignedInt => Some(NumberName(4, true))
    case _ => None
  }

  function HighestOf(name: NumberName): (highest: int)
    requires name.size > 0
    ensures highest >= 0
  {
    Pow2(if name.signed then 8 * name.size - 1 else 8 * name.size) - 1
  }

  function LowestOf(name: NumberName): int
    requires name.size > 0
  {
    if name.signed then -HighestOf(name) - 1 else 0
  }

  /** Slot c as a number, in two's complement when signed. */
  function NumberAt(name: NumberName, bytes: seq<Uint8>, c: nat): int
    requires name.size in {1, 2, 4} && name.size * c + name.size <= |bytes|
  {
    var word := SlotNumber(bytes, name.size, c);
    if name.signed && word > HighestOf(name) then word - Pow2(8 * name.size) else word
  }

  lemma SlotIsLittleEndian(bytes: seq<Uint8>, size: nat, c: nat)
    requires size in {1, 2, 4} && size * c + size <= |bytes|
    ensures 0 <= c * size && c * size + size <= |bytes|
    ensures SlotNumber(bytes, size, c) == FromLittleEndian(bytes[c * size..c * size + size])
  {
    hide FromLittleEndian;
    assert c * size == size * c;
    var slot := bytes[c * size..c * size + size];
    FromStep(slot);
    if size == 2 {
      FromStep(slot[1..]);
    } else if size == 4 {
      FromStep(slot[1..]);
      FromStep(slot[1..][1..]);
      FromStep(slot[1..][1..][1..]);
    }
  }

  lemma FromStep(s: seq<Uint8>)
    requires s != []
    ensures FromLittleEndian(s) == s[0] + 0x100 * FromLittleEndian(s[1..])
    ensures |s| == 1 ==> FromLittleEndian(s) == s[0]
  {
  }

  lemma TypeFollowsName(t: PixelType)
    ensures IsIntegerComponent(t) <==> NumberOf(t).Some?
    ensures NumberOf(t).Some? ==>
      var name := NumberOf(t).value;
      && name.size in {1, 2, 4} && ComponentSize(t) == name.size && IsSigned(t) == name.signed
      && Lowest(t) == LowestOf(name) && Highest(t) == HighestOf(name)
  {
    HighestValues();
    hide HighestOf;
  }

  lemma HighestValues()
    ensures HighestOf(NumberName(1, false)) == 255 && HighestOf(NumberName(1, true)) == 127
    ensures HighestOf(NumberName(2, false)) == 65535 && HighestOf(NumberName(2, true)) == 32767
    ensures HighestOf(NumberName(4, false)) == 4294967295 && HighestOf(NumberName(4, true)) == 2147483647
  {
    Pow2Values();
    assert Pow2(8) == 2 * Pow2(7) && Pow2(16) == 2 * Pow2(15) && Pow2(32) == 2 * Pow2(31);
  }

  /** Slot c of these bytes, as the conversion reads or writes it, is the number there. */
  lemma ComponentIsNumber(t: PixelType, bytes: seq<Uint8>, c: nat)
    requires NumberOf(t).Some? && ComponentSize(t) * c + ComponentSize(t) <= |bytes|
    ensures NumberOf(t).value.size == ComponentSize(t) && ComponentSize(t) in {1, 2, 4}
    ensures 0 <= c * ComponentSize(t) && c * ComponentSize(t) + ComponentSize(t) <= |bytes|
    ensures ComponentValue(t, bytes[c * ComponentSize(t)..c * ComponentSize(t) + ComponentSize(t)]) ==
            NumberAt(NumberOf(t).value, bytes, c)
  {
    TypeFollowsName(t);
    hide SlotNumber, ComponentSize, NumberOf, FromLittleEndian, HighestOf, Highest, IsSigned;
    SlotIsLittleEndian(bytes, ComponentSize(t), c);
  }

  // ---- what is read out of a wide texel -----------------------------------------------------

  /** Channel c of a wide texel, from its own bytes. For integer formats it is a 32-bit word, signed when the
      wide type is. Otherwise a byte or a short is the fraction n / highest, of signed ones not below -1, and
      anything else is a float as it is encoded. */
  lemma WideChannelMeans(codec: FloatCodec, wide: PixelType, pixel: seq<Uint8>, c: nat)
    requires |pixel| == WidePixelSize(wide) && c < 4
    ensures ComponentSize(wide) == 4 ==>
      && |pixel| == 16
      && WideSource(wide, pixel, c) == NumberAt(NumberName(4, wide.SignedInt?), pixel, c)
      && WideReal(codec, wide, pixel, c) == codec.decodeFloat(SlotNumber(pixel, 4, c))
    ensures wide in {UnsignedByte, SignedByte, UnsignedShort, SignedShort} ==>
      && NumberOf(wide).Some? && |pixel| == 4 * NumberOf(wide).value.size
      && var n, highest := NumberAt(NumberOf(wide).value, pixel, c), HighestOf(NumberOf(wide).value);
      && highest > 0
      && WideReal(codec, wide, pixel, c) == if n < -highest then -1.0 else n as real / highest as real
    ensures wide.HalfFloat? ==>
      |pixel| == 8 && WideReal(codec, wide, pixel, c) == codec.decodeHalf(SlotNumber(pixel, 2, c))
  {
    hide ComponentSize, WideSource, WideReal, NumberOf, NumberAt, SlotNumber, HighestOf;
    if ComponentSize(wide) == 4 {
      WideWordMeans(codec, wide, pixel, c);
    }
    if wide in {UnsignedByte, SignedByte, UnsignedShort, SignedShort} {
      NarrowChannelMeans(codec, wide, pixel, c);
    }
    if wide.HalfFloat? {
      HalfChannelMeans(codec, wide, pixel, c);
    }
  }

  lemma NarrowSizes()
    ensures ComponentSize(HalfFloat) == 2 && ComponentSize(SignedInt) == 4 && ComponentSize(UnsignedInt) == 4
    ensures ComponentSize(UnsignedByte) == 1 && ComponentSize(SignedByte) == 1
    ensures ComponentSize(UnsignedShort) == 2 && ComponentSize(SignedShort) == 2
  {
  }

  lemma WideWordMeans(codec: FloatCodec, wide: PixelType, pixel: seq<Uint8>, c: nat)
    requires |pixel| == WidePixelSize(wide) && c < 4 && ComponentSize(wide) == 4
    ensures |pixel| == 16
    ensures WideSource(wide, pixel, c) == NumberAt(NumberName(4, wide.SignedInt?), pixel, c)
    ensures WideReal(codec, wide, pixel, c) == codec.decodeFloat(SlotNumber(pixel, 4, c))
  {
    NarrowSizes();
    hide SlotNumber, ComponentSize, ComponentValue, FromLittleEndian, NumberAt;
    SlotIsLittleEndian(pixel, 4, c);
    ComponentIsNumber(if wide.SignedInt? then SignedInt else UnsignedInt, pixel, c);
  }

  lemma HalfChannelMeans(codec: FloatCodec, wide: PixelType, pixel: seq<Uint8>, c: nat)
    requires |pixel| == WidePixelSize(wide) && c < 4 && wide.HalfFloat?
    ensures |pixel| == 8 && WideReal(codec, wide, pixel, c) == codec.decodeHalf(SlotNumber(pixel, 2, c))
  {
    NarrowSizes();
    hide SlotNumber, ComponentSize, FromLittleEndian;
    SlotIsLittleEndian(pixel, 2, c);
  }

  lemma NarrowChannelMeans(codec: FloatCodec, wide: PixelType, pixel: seq<Uint8>, c: nat)
    requires |pixel| == WidePixelSize(wide) && c < 4
    requires wide in {UnsignedByte, SignedByte, UnsignedShort, SignedShort}
    ensures NumberOf(wide).Some? && NumberOf(wide).value.size in {1, 2} && |pixel| == 4 * NumberOf(wide).value.size
    ensures var n, highest := NumberAt(NumberOf(wide).value, pixel, c), HighestOf(NumberOf(wide).value);
      && highest > 0
      && WideReal(codec, wide, pixel, c) == if n < -highest then -1.0 else n as real / highest as real
  {
    TypeFollowsName(wide);
    NarrowSizes();
    hide SlotNumber, ComponentSize, ComponentValue, FromLittleEndian, HighestOf;
    ComponentIsNumber(wide, pixel, c);
    var name := NumberOf(wide).value;
    var n := NumberAt(name, pixel, c);
    assert WideInteger(wide, pixel, c) == n;
    hide NumberAt, WideInteger;
    NumberInRange(name, pixel, c);
    FractionAtLeast(n, HighestOf(name));
  }

  lemma NumberInRange(name: NumberName, bytes: seq<Uint8>, c: nat)
    requires name.size in {1, 2, 4} && name.size * c + name.size <= |bytes|
    ensures LowestOf(name) <= NumberAt(name, bytes, c) <= HighestOf(name)
  {
    HighestValues();
    Pow2Values();
  }

  /** n / highest is below -1 exactly when n is below -highest. */
  lemma FractionAtLeast(n: int, highest: int)
    requires highest > 0
    ensures n as real / highest as real < -1.0 <==> n < -highest
  {
    assert n as real == (n as real / highest as real) * highest as real;
  }

  // ---- integer texels -----------------------------------------------------------------------

  /** INTEGER TEXELS, byte to byte: component ch of the client's texel is the 32-bit word of the channel the
      format names there, clamped to the range of the client's type. */
  lemma IntegerTexelReadsBack(codec: FloatCodec, wide: PixelType, format: PixelFormat, t: PixelType,
                              pixel: seq<Uint8>, ch: nat)
    requires GetChannelMapping(format).Some? && GetChannelMapping(format).value.isInteger
    requires NumberOf(t).Some? && ComponentSize(wide) == 4 && |pixel| == 16 && ch < |ClientChannels(format)|
    ensures Convertible(wide, GetChannelMapping(format).value, t) && |pixel| == WidePixelSize(wide)
    ensures var client := ConvertPixel(codec, wide, GetChannelMapping(format).value, t, pixel);
      var name := NumberOf(t).value;
      && name.size in {1, 2, 4} && |client| == name.size * |ClientChannels(format)|
      && name.size * ch + name.size <= |client|
      && NumberAt(name, client, ch) ==
         Clamp(NumberAt(NumberName(4, wide.SignedInt?), pixel, ClientChannels(format)[ch]),
               LowestOf(name), HighestOf(name))
  {
    hide ConvertPixel, ComponentSize, NumberAt, NumberOf, LowestOf, HighestOf, GetChannelMapping, DstPixelSize,
      GoodMapping, Convertible;
    MappingFollowsName(format);
    IntegerComponentReadsBack(codec, wide, GetChannelMapping(format).value, t, pixel, ch);
  }

  lemma IntegerComponentReadsBack(codec: FloatCodec, wide: PixelType, m: ChannelMapping, t: PixelType,
                                  pixel: seq<Uint8>, ch: nat)
    requires GoodMapping(m) && m.isInteger && ch < m.channelCount
    requires NumberOf(t).Some? && ComponentSize(wide) == 4 && |pixel| == 16
    ensures Convertible(wide, m, t) && |pixel| == WidePixelSize(wide)
    ensures var client := ConvertPixel(codec, wide, m, t, pixel);
      var name := NumberOf(t).value;
      && name.size in {1, 2, 4} && |client| == name.size * m.channelCount && name.size * ch + name.size <= |client|
      && NumberAt(name, client, ch) ==
         Clamp(NumberAt(NumberName(4, wide.SignedInt?), pixel, m.sourceChannel[ch]), LowestOf(name), HighestOf(name))
  {
    TypeFollowsName(t);
    UnpackedSize(m, t);
    hide ConvertPixel, ComponentSize, NumberAt, NumberOf, DstPixelSize, Highest, HighestOf, Lowest, WideSource;
    var client := ConvertPixel(codec, wide, m, t, pixel);
    IntegerTexelComponent(codec, wide, m, t, pixel, ch);
    WideWordMeans(codec, wide, pixel, m.sourceChannel[ch]);
    NumberOfSlot(t, client, ch, m.channelCount);
  }

  lemma NumberOfSlot(t: PixelType, bytes: seq<Uint8>, c: nat, n: nat)
    requires NumberOf(t).Some? && c < n && |bytes| == n * ComponentSize(t)
    ensures var name := NumberOf(t).value;
      && name.size in {1, 2, 4} && |bytes| == name.size * n && name.size * c + name.size <= |bytes|
      && 0 <= c * ComponentSize(t) && c * ComponentSize(t) + ComponentSize(t) <= |bytes|
      && ComponentValue(t, bytes[c * ComponentSize(t)..c * ComponentSize(t) + ComponentSize(t)]) ==
         NumberAt(name, bytes, c)
  {
    TypeFollowsName(t);
    hide ComponentSize, NumberAt, NumberOf, ComponentValue;
    SlotOf(bytes, ComponentSize(t), c, n);
    ComponentIsNumber(t, bytes, c);
  }

  lemma SlotOf(bytes: seq<Uint8>, size: nat, c: nat, n: nat)
    requires size in {1, 2, 4} && c < n && |bytes| == n * size
    ensures |bytes| == size * n && size * c + size <= |bytes|
    ensures 0 <= c * size && c * size + size <= |bytes|
    ensures SlotNumber(bytes, size, c) == FromLittleEndian(bytes[c * size..c * size + size])
  {
    hide SlotNumber, FromLittleEndian;
    assert size * c == c * size && size * n == n * size;
    SlotFits(c, n, size);
    SlotIsLittleEndian(bytes, size, c);
  }

  lemma UnpackedSize(m: ChannelMapping, t: PixelType)
    requires GoodMapping(m) && IsIntegerComponent(t)
    ensures ComponentSize(t) in {1, 2, 4} && DstPixelSize(m, t) == m.channelCount * ComponentSize(t) > 0
  {
    SlotFits(0, m.channelCount, ComponentSize(t));
  }

  lemma IntegerTexelComponent(codec: FloatCodec, wide: PixelType, m: ChannelMapping, t: PixelType,
                              pixel: seq<Uint8>, ch: nat)
    requires Convertible(wide, m, t) && m.isInteger && IsIntegerComponent(t) && ch < m.channelCount
    requires |pixel| == WidePixelSize(wide)
    ensures var client := ConvertPixel(codec, wide, m, t, pixel);
      var at := ch * ComponentSize(t);
      && 0 <= at && at + ComponentSize(t) <= |client| == m.channelCount * ComponentSize(t)
      && ComponentValue(t, client[at..at + ComponentSize(t)]) ==
         Clamp(WideSource(wide, pixel, m.sourceChannel[ch]), Lowest(t), Highest(t))
  {
    hide ComponentValue, WideSource, Components, ComponentSize;
    var source := seq(4, c requires 0 <= c < 4 => WideSource(wide, pixel, c));
    RangeOrdered(t);
    UnpackedSize(m, t);
    IntegerPixelComponents(m, t, source);
    ComponentExtracts(m, t, source, m.channelCount, ch);
    SlotFits(ch, m.channelCount, ComponentSize(t));
  }

  // ---- normalized texels --------------------------------------------------------------------

  /** `n` is the integer nearest to `x`, the one farther from zero of two. */
  predicate Nearest(n: int, x: real) {
    if x >= 0.0 then x - 0.5 < n as real <= x + 0.5 else x - 0.5 <= n as real < x + 0.5
  }

  lemma NearestIsUnique(n: int, k: int, x: real)
    requires Nearest(n, x) && Nearest(k, x)
    ensures n == k
  {
  }

  lemma RoundAwayIsNearest(x: real)
    ensures Nearest(RoundAway(x), x)
    ensures x >= 0.0 ==> RoundHalfUp(x) == RoundAway(x)
  {
  }

  /** A value clamped to [0, 1] - to [-1, 1] for a signed type - in steps of the highest value of the type. */
  function Steps(v: real, signed: bool, highest: int): real {
    ClampReal(v, if signed then -1.0 else 0.0, 1.0) * highest as real
  }

  /** `n` is the nearest step to `v`. */
  predicate Encodes(name: NumberName, n: int, v: real)
    requires name.size > 0
  {
    Nearest(n, Steps(v, name.signed, HighestOf(name)))
  }

  /** Wide texels of a type the conversion reads a normalized or float channel of. */
  predicate Readable(wide: PixelType) {
    ComponentSize(wide) == 4 || wide in {UnsignedByte, SignedByte, UnsignedShort, SignedShort, HalfFloat}
  }

  /** NORMALIZED TEXELS, byte to byte: component ch of the client's texel encodes the value of the channel the
      format names there. */
  lemma NormalizedTexelReadsBack(codec: FloatCodec, wide: PixelType, format: PixelFormat, t: PixelType,
                                 pixel: seq<Uint8>, ch: nat)
    requires GetChannelMapping(format).Some? && !GetChannelMapping(format).value.isInteger
    requires Readable(wide) && |pixel| == WidePixelSize(wide) && NumberOf(t).Some? && ch < |ClientChannels(format)|
    ensures Convertible(wide, GetChannelMapping(format).value, t)
    ensures var client := ConvertPixel(codec, wide, GetChannelMapping(format).value, t, pixel);
      var name := NumberOf(t).value;
      && name.size in {1, 2, 4} && |client| == name.size * |ClientChannels(format)|
      && name.size * ch + name.size <= |client|
      && Encodes(name, NumberAt(name, client, ch), WideReal(codec, wide, pixel, ClientChannels(format)[ch]))
  {
    hide ConvertPixel, NumberAt, NumberOf, Encodes, WideReal, GetChannelMapping, Convertible, Readable, GoodMapping;
    MappingFollowsName(format);
    NormalizedNumberReadsBack(codec, wide, GetChannelMapping(format).value, t, pixel, ch);
  }

  /** And as a float: the value as the client's type encodes it. */
  lemma FloatTexelReadsBack(codec: FloatCodec, wide: PixelType, format: PixelFormat, t: PixelType,
                            pixel: seq<Uint8>, ch: nat)
    requires GetChannelMapping(format).Some? && !GetChannelMapping(format).value.isInteger
    requires Readable(wide) && |pixel| == WidePixelSize(wide) && ch < |ClientChannels(format)|
    requires t.Float? || t.HalfFloat?
    ensures Convertible(wide, GetChannelMapping(format).value, t)
    ensures var client := ConvertPixel(codec, wide, GetChannelMapping(format).value, t, pixel);
      var v := WideReal(codec, wide, pixel, ClientChannels(format)[ch]);
      && (t.Float? ==>
            |client| == 4 * |ClientChannels(format)| &&
            (codec.encodeFloat(v) < 0x1_0000_0000 ==> SlotNumber(client, 4, ch) == codec.encodeFloat(v)))
      && (t.HalfFloat? ==>
            |client| == 2 * |ClientChannels(format)| &&
            (codec.encodeHalf(v) < 0x1_0000 ==> SlotNumber(client, 2, ch) == codec.encodeHalf(v)))
  {
    hide ConvertPixel, WideReal, GetChannelMapping, Convertible, SlotNumber, Readable, GoodMapping;
    MappingFollowsName(format);
    FloatReadsBack(codec, wide, GetChannelMapping(format).value, t, pixel, ch);
  }

  lemma NormalizedNumberReadsBack(codec: FloatCodec, wide: PixelType, m: ChannelMapping, t: PixelType,
                                  pixel: seq<Uint8>, ch: nat)
    requires GoodMapping(m) && !m.isInteger && ch < m.channelCount && NumberOf(t).Some?
    requires Readable(wide) && |pixel| == WidePixelSize(wide)
    ensures Convertible(wide, m, t)
    ensures var client := ConvertPixel(codec, wide, m, t, pixel);
      var name := NumberOf(t).value;
      && name.size in {1, 2, 4} && |client| == name.size * m.channelCount && name.size * ch + name.size <= |client|
      && Encodes(name, NumberAt(name, client, ch), WideReal(codec, wide, pixel, m.sourceChannel[ch]))
  {
    TypeFollowsName(t);
    UnpackedSize(m, t);
    hide ConvertPixel, NumberAt, NumberOf, Encodes, WideReal, ComponentSize, DstPixelSize, NormalizedComponent,
      ComponentValue;
    NormalizedTexelComponent(codec, wide, m, t, pixel, ch);
    NumberOfSlot(t, ConvertPixel(codec, wide, m, t, pixel), ch, m.channelCount);
    NormalizedComponentMeans(codec, t, WideReal(codec, wide, pixel, m.sourceChannel[ch]));
  }

  /** A component of its own is the rounded value. */
  lemma NormalizedComponentMeans(codec: FloatCodec, t: PixelType, v: real)
    requires NumberOf(t).Some?
    ensures NumberOf(t).value.size > 0
    ensures Encodes(NumberOf(t).value, ComponentValue(t, NormalizedComponent(codec, t, v)), v)
  {
    TypeFollowsName(t);
    hide ComponentValue, NormalizedComponent, Nearest, RoundAway, RoundHalfUp, HighestOf, Highest, NumberOf, IsSigned,
      IsIntegerComponent, Steps;
    ComponentIsRounded(codec, t, v);
    RoundAwayIsNearest(Steps(v, IsSigned(t), Highest(t)));
  }

  lemma ComponentIsRounded(codec: FloatCodec, t: PixelType, v: real)
    requires IsIntegerComponent(t)
    ensures ComponentValue(t, NormalizedComponent(codec, t, v)) ==
            RoundAway(Steps(v, IsSigned(t), Highest(t)))
  {
    hide ComponentValue, ComponentBytes, RoundAway;
    var scaled := ClampReal(v, if IsSigned(t) then -1.0 else 0.0, 1.0) * Highest(t) as real;
    assert scaled == Steps(v, IsSigned(t), Highest(t));
    ScaledInRange(t, v);
    assert NormalizedComponent(codec, t, v) == ComponentBytes(t, RoundAway(scaled));
    ComponentRoundTrip(t, RoundAway(scaled));
  }

  /** Slot ch of an unpacked normalized texel is the component made of the channel mapped there. */
  lemma NormalizedTexelComponent(codec: FloatCodec, wide: PixelType, m: ChannelMapping, t: PixelType,
                                 pixel: seq<Uint8>, ch: nat)
    requires Convertible(wide, m, t) && !m.isInteger && GetPackedLayout(t).None? && ch < m.channelCount
    requires |pixel| == WidePixelSize(wide)
    ensures var client := ConvertPixel(codec, wide, m, t, pixel);
      var at := ch * ComponentSize(t);
      && 0 <= at && at + ComponentSize(t) <= |client| == m.channelCount * ComponentSize(t)
      && client[at..at + ComponentSize(t)] ==
         NormalizedComponent(codec, t, WideReal(codec, wide, pixel, m.sourceChannel[ch]))
  {
    hide NormalizedComponent, WideReal, NormalizedComponents, ComponentSize;
    var source := seq(4, c requires 0 <= c < 4 => WideReal(codec, wide, pixel, c));
    NormalizedComponentsAt(codec, m, t, source, m.channelCount, ch);
    SlotFits(ch, m.channelCount, ComponentSize(t));
  }

  lemma {:induction false} NormalizedComponentsAt(codec: FloatCodec, m: ChannelMapping, t: PixelType,
                                                  source: seq<real>, n: nat, ch: nat)
    requires GoodMapping(m) && GetPackedLayout(t).None? && |source| == 4 && ch < n <= m.channelCount
    ensures 0 <= ch * ComponentSize(t) && ch * ComponentSize(t) + ComponentSize(t) <= n * ComponentSize(t)
    ensures var at := ch * ComponentSize(t);
      NormalizedComponents(codec, m, t, source, n)[at..at + ComponentSize(t)] ==
      NormalizedComponent(codec, t, source[m.sourceChannel[ch]])
  {
    hide NormalizedComponent, ComponentSize;
    var size := ComponentSize(t);
    var before := NormalizedComponents(codec, m, t, source, n - 1);
    var last := NormalizedComponent(codec, t, source[m.sourceChannel[n - 1]]);
    SlotFits(ch, n, size);
    SlotFits(n - 1, n, size);
    if ch == n - 1 {
      SlotOfLast(before, last);
    } else {
      NormalizedComponentsAt(codec, m, t, source, n - 1, ch);
      SlotFits(ch, n - 1, size);
      SlotOfEarlier(before, last, ch * size, size);
    }
  }

  lemma FloatReadsBack(codec: FloatCodec, wide: PixelType, m: ChannelMapping, t: PixelType, pixel: seq<Uint8>, ch: nat)
    requires GoodMapping(m) && !m.isInteger && ch < m.channelCount && (t.Float? || t.HalfFloat?)
    requires Readable(wide) && |pixel| == WidePixelSize(wide)
    ensures Convertible(wide, m, t)
    ensures var client := ConvertPixel(codec, wide, m, t, pixel);
      var v := WideReal(codec, wide, pixel, m.sourceChannel[ch]);
      && (t.Float? ==>
            |client| == 4 * m.channelCount &&
            (codec.encodeFloat(v) < 0x1_0000_0000 ==> SlotNumber(client, 4, ch) == codec.encodeFloat(v)))
      && (t.HalfFloat? ==>
            |client| == 2 * m.channelCount &&
            (codec.encodeHalf(v) < 0x1_0000 ==> SlotNumber(client, 2, ch) == codec.encodeHalf(v)))
  {
    FloatSize(m, t);
    hide ConvertPixel, WideReal, ComponentSize, DstPixelSize, FromLittleEndian, SlotNumber, NormalizedComponent,
      GetPackedLayout, WidePixelSize;
    FloatSlot(codec, wide, m, t, pixel, ch);
    FloatComponent(codec, t, WideReal(codec, wide, pixel, m.sourceChannel[ch]));
  }

  lemma FloatSlot(codec: FloatCodec, wide: PixelType, m: ChannelMapping, t: PixelType, pixel: seq<Uint8>, ch: nat)
    requires Convertible(wide, m, t) && !m.isInteger && GetPackedLayout(t).None? && ch < m.channelCount
    requires |pixel| == WidePixelSize(wide) && ComponentSize(t) in {2, 4}
    ensures var client := ConvertPixel(codec, wide, m, t, pixel);
      var size := ComponentSize(t);
      && |client| == size * m.channelCount && size * ch + size <= |client|
      && SlotNumber(client, size, ch) ==
         FromLittleEndian(NormalizedComponent(codec, t, WideReal(codec, wide, pixel, m.sourceChannel[ch])))
  {
    hide ConvertPixel, WideReal, ComponentSize, FromLittleEndian, SlotNumber, NormalizedComponent, GetPackedLayout,
      WidePixelSize, Convertible;
    NormalizedTexelComponent(codec, wide, m, t, pixel, ch);
    SlotOf(ConvertPixel(codec, wide, m, t, pixel), ComponentSize(t), ch, m.channelCount);
  }

  lemma FloatComponent(codec: FloatCodec, t: PixelType, v: real)
    requires t.Float? || t.HalfFloat?
    ensures t.Float? && codec.encodeFloat(v) < 0x1_0000_0000 ==>
      FromLittleEndian(NormalizedComponent(codec, t, v)) == codec.encodeFloat(v)
    ensures t.HalfFloat? && codec.encodeHalf(v) < 0x1_0000 ==>
      FromLittleEndian(NormalizedComponent(codec, t, v)) == codec.encodeHalf(v)
  {
    hide LittleEndian, FromLittleEndian;
    Pow2Values();
    if t.Float? && codec.encodeFloat(v) < 0x1_0000_0000 {
      BytesRoundTrip(codec.encodeFloat(v), 4);
    }
    if t.HalfFloat? && codec.encodeHalf(v) < 0x1_0000 {
      BytesRoundTrip(codec.encodeHalf(v), 2);
    }
  }

  lemma FloatSize(m: ChannelMapping, t: PixelType)
    requires GoodMapping(m) && !m.isInteger && (t.Float? || t.HalfFloat?)
    ensures ComponentSize(t) == if t.Float? then 4 else 2
    ensures DstPixelSize(m, t) == m.channelCount * ComponentSize(t) > 0
    ensures GetPackedLayout(t).None?
  {
  }

  // ---- texels that come back as they were ---------------------------------------------------

  /** READING WHAT IS THERE: four normalized channels read as their own type are the texel's bytes again, unless
      a signed one holds the lowest code, which reads as the one above it. */
  lemma NormalizedTexelComesBack(codec: FloatCodec, wide: PixelType, pixel: seq<Uint8>, ch: nat)
    requires wide in {UnsignedByte, SignedByte, UnsignedShort, SignedShort} && |pixel| == WidePixelSize(wide) && ch < 4
    ensures Convertible(wide, GetChannelMapping(RGBA).value, wide)
    ensures var client := ConvertPixel(codec, wide, GetChannelMapping(RGBA).value, wide, pixel);
      var name := NumberOf(wide).value;
      && |client| == |pixel| == 4 * name.size
      && (NumberAt(name, pixel, ch) >= -HighestOf(name) ==> NumberAt(name, client, ch) == NumberAt(name, pixel, ch))
      && (NumberAt(name, pixel, ch) < -HighestOf(name) ==> NumberAt(name, client, ch) == -HighestOf(name))
      && ((forall c :: 0 <= c < 4 ==> NumberAt(name, pixel, c) >= -HighestOf(name)) ==> client == pixel)
  {
    hide ConvertPixel, NumberAt, HighestOf, ComponentSize, Convertible, WidePixelSize;
    NarrowSizes();
    NarrowChannelMeans(codec, wide, pixel, ch);
    NormalizedTexelReadsBack(codec, wide, RGBA, wide, pixel, ch);
    var name := NumberOf(wide).value;
    var client := ConvertPixel(codec, wide, GetChannelMapping(RGBA).value, wide, pixel);
    forall c: nat | c < 4 ensures NumberAt(name, client, c) ==
      if NumberAt(name, pixel, c) < -HighestOf(name) then -HighestOf(name) else NumberAt(name, pixel, c)
    {
      NormalizedChannelComesBack(codec, wide, pixel, c);
    }
    if forall c :: 0 <= c < 4 ==> NumberAt(name, pixel, c) >= -HighestOf(name) {
      SameNumbers(name, client, pixel, 4);
    }
  }

  lemma NormalizedChannelComesBack(codec: FloatCodec, wide: PixelType, pixel: seq<Uint8>, ch: nat)
    requires wide in {UnsignedByte, SignedByte, UnsignedShort, SignedShort} && |pixel| == WidePixelSize(wide) && ch < 4
    requires Convertible(wide, GetChannelMapping(RGBA).value, wide)
    ensures var client := ConvertPixel(codec, wide, GetChannelMapping(RGBA).value, wide, pixel);
      var name := NumberOf(wide).value;
      && |client| == |pixel| == 4 * name.size
      && NumberAt(name, client, ch) ==
         if NumberAt(name, pixel, ch) < -HighestOf(name) then -HighestOf(name) else NumberAt(name, pixel, ch)
  {
    hide ConvertPixel, NumberAt, NumberOf, HighestOf, ComponentSize, Convertible, WidePixelSize, Encodes,
      GetChannelMapping, ClientChannels, GoodMapping, WideReal;
    AllChannels();
    NarrowSizes();
    NarrowChannelMeans(codec, wide, pixel, ch);
    NormalizedTexelReadsBack(codec, wide, RGBA, wide, pixel, ch);
    var name := NumberOf(wide).value;
    var n := NumberAt(name, pixel, ch);
    var client := ConvertPixel(codec, wide, GetChannelMapping(RGBA).value, wide, pixel);
    NumberInRange(name, pixel, ch);
    FractionComesBack(name, if n < -HighestOf(name) then -HighestOf(name) else n, NumberAt(name, client, ch),
                      WideReal(codec, wide, pixel, ch));
  }

  lemma AllChannels()
    ensures GetChannelMapping(RGBA).Some? && !GetChannelMapping(RGBA).value.isInteger
    ensures |ClientChannels(RGBA)| == 4 && forall c :: 0 <= c < 4 ==> ClientChannels(RGBA)[c] == c
  {
  }

  lemma FractionComesBack(name: NumberName, n: int, k: int, v: real)
    requires name.size > 0 && HighestOf(name) > 0
    requires (if name.signed then -HighestOf(name) else 0) <= n <= HighestOf(name)
    requires v == (if n == -HighestOf(name) then -1.0 else n as real / HighestOf(name) as real) && Encodes(name, k, v)
    ensures k == n
  {
    hide HighestOf, Nearest;
    FractionOf(n, HighestOf(name), v);
    assert ClampReal(v, if name.signed then -1.0 else 0.0, 1.0) == v;
    assert Steps(v, name.signed, HighestOf(name)) == n as real;
    assert Nearest(n, n as real) by { StepIsNearest(n); }
    NearestIsUnique(n, k, n as real);
  }

  lemma StepIsNearest(n: int)
    ensures Nearest(n, n as real)
  {
  }

  lemma FractionOf(n: int, highest: int, v: real)
    requires highest > 0 && -highest <= n <= highest
    requires v == if n == -highest then -1.0 else n as real / highest as real
    ensures v * highest as real == n as real && -1.0 <= v <= 1.0 && (n >= 0 ==> v >= 0.0)
  {
    var h := highest as real;
    if n == -highest {
      assert -1.0 * h == n as real;
    } else {
      assert n as real / h * h == n as real;
    }
    QuotientInRange(v, h, n as real);
  }

  lemma QuotientInRange(v: real, h: real, n: real)
    requires h > 0.0 && v * h == n && -h <= n <= h
    ensures -1.0 <= v <= 1.0 && (n >= 0.0 ==> v >= 0.0)
  {
    PositiveProduct(v - 1.0, h, n - h);
    PositiveProduct(-1.0 - v, h, -h - n);
    PositiveProduct(-v, h, -n);
  }

  lemma PositiveProduct(x: real, h: real, product: real)
    requires h > 0.0 && x * h == product
    ensures x > 0.0 ==> product > 0.0
  {
  }

  /** Integer channels of the wide type itself are the texel's bytes again. */
  lemma IntegerTexelComesBack(codec: FloatCodec, wide: PixelType, pixel: seq<Uint8>)
    requires wide in {UnsignedInt, SignedInt} && |pixel| == WidePixelSize(wide)
    ensures Convertible(wide, GetChannelMapping(RGBAInteger).value, wide)
    ensures ConvertPixel(codec, wide, GetChannelMapping(RGBAInteger).value, wide, pixel) == pixel
  {
    hide ConvertPixel, NumberAt, HighestOf, ComponentSize, Convertible;
    NarrowSizes();
    var name := NumberOf(wide).value;
    IntegerTexelReadsBack(codec, wide, RGBAInteger, wide, pixel, 0);
    var client := ConvertPixel(codec, wide, GetChannelMapping(RGBAInteger).value, wide, pixel);
    forall c: nat | c < 4 ensures |client| == 16 && NumberAt(name, client, c) == NumberAt(name, pixel, c) {
      IntegerTexelReadsBack(codec, wide, RGBAInteger, wide, pixel, c);
      NumberInRange(name, pixel, c);
    }
    SameNumbers(name, client, pixel, 4);
  }

  /** Equal numbers are equal bytes. */
  lemma SameNumbers(name: NumberName, a: seq<Uint8>, b: seq<Uint8>, n: nat)
    requires name.size in {1, 2, 4} && |a| == |b| == name.size * n
    requires forall c: nat :: c < n && name.size * c + name.size <= |a| ==> NumberAt(name, a, c) == NumberAt(name, b, c)
    ensures a == b
  {
    hide NumberAt, SlotNumber;
    forall i | 0 <= i < |a| ensures a[i] == b[i] {
      var c := i / name.size;
      assert c < n && name.size * c + name.size <= |a|;
      SameNumber(name, a, b, c);
      SameSlot(name.size, a, b, c);
    }
  }

  lemma SameNumber(name: NumberName, a: seq<Uint8>, b: seq<Uint8>, c: nat)
    requires name.size in {1, 2, 4} && |a| == |b| && name.size * c + name.size <= |a|
    requires NumberAt(name, a, c) == NumberAt(name, b, c)
    ensures SlotNumber(a, name.size, c) == SlotNumber(b, name.size, c)
  {
    Pow2Values();
    HighestValues();
  }

  lemma SameSlot(size: nat, a: seq<Uint8>, b: seq<Uint8>, c: nat)
    requires size in {1, 2, 4} && |a| == |b| && size * c + size <= |a|
    requires SlotNumber(a, size, c) == SlotNumber(b, size, c)
    ensures forall i :: size * c <= i < size * c + size ==> a[i] == b[i]
  {
    if size == 2 {
      TwoDigits(a[2 * c], a[2 * c + 1], b[2 * c], b[2 * c + 1]);
    } else if size == 4 {
      var x, y := a[4 * c..], b[4 * c..];
      TwoDigits(x[0], x[1] as nat + 0x100 * (x[2] as nat + 0x100 * x[3] as nat),
                y[0], y[1] as nat + 0x100 * (y[2] as nat + 0x100 * y[3] as nat));
      TwoDigits(x[1], x[2] as nat + 0x100 * x[3] as nat, y[1], y[2] as nat + 0x100 * y[3] as nat);
      TwoDigits(x[2], x[3], y[2], y[3]);
    }
  }

  lemma TwoDigits(low: Uint8, high: nat, low': Uint8, high': nat)
    requires low as nat + 0x100 * high == low' as nat + 0x100 * high'
    ensures low == low' && high == high'
  {
  }

  // ---- packed words -------------------------------------------------------------------------

  /** The word that holds values[ch] in the field of component ch, of the first n components. */
  function NamedWord(name: PackedName, values: seq<nat>, n: nat): nat
    requires n <= |values| && n <= |name.widths|
  {
    if n == 0 then 0 else NamedWord(name, values, n - 1) + values[n - 1] * Pow2(NamedShift(name, n - 1))
  }

  /** Or-ing shifted fields together adds them up at the places the name gives them. */
  lemma {:induction false} PackedWordIsNamed(t: PixelType, values: seq<nat>, n: nat)
    requires GetPackedLayout(t).Some? && NameOf(t).Some? && GoodLayout(GetPackedLayout(t).value)
    requires ValuesFit(GetPackedLayout(t).value, values) && n <= GetPackedLayout(t).value.fieldCount
    ensures n <= |NameOf(t).value.widths| && n <= |GetPackedLayout(t).value.shift|
    ensures PackWord(GetPackedLayout(t).value, values, n) == NamedWord(NameOf(t).value, values, n)
  {
    hide GetPackedLayout, NameOf, Field, Or, ShiftLeft, NamedShift;
    var l := GetPackedLayout(t).value;
    WordFollowsName(t);
    if n > 0 {
      PackedWordIsNamed(t, values, n - 1);
      FieldFollowsName(t, n - 1);
      PackWordExtracts(l, values, n - 1, n - 1);
      OrAdds(PackWord(l, values, n - 1), values[n - 1], l.shift[n - 1], l.width[n - 1]);
    }
  }

  /** A packed texel of as many bytes as the name's widths fill, whose word holds these values. */
  predicate HoldsWord(name: PackedName, client: seq<Uint8>, values: seq<nat>) {
    && |client| in {1, 2, 4} && 8 * |client| == Total(name.widths) && |values| <= |name.widths|
    && SlotNumber(client, |client|, 0) == NamedWord(name, values, |values|)
  }

  /** The bytes of a packed texel are its word's. */
  lemma PackedBytes(t: PixelType, values: seq<nat>)
    requires GetPackedLayout(t).Some? && NameOf(t).Some?
    requires |values| == GetPackedLayout(t).value.fieldCount && ValuesFit(GetPackedLayout(t).value, values)
    ensures var l := GetPackedLayout(t).value;
      && l.fieldCount <= |values| && l.fieldCount <= |l.shift|
      && HoldsWord(NameOf(t).value, LittleEndian(PackWord(l, values, l.fieldCount), l.byteSize), values)
  {
    hide GetPackedLayout, NameOf, Total, SlotNumber, FromLittleEndian, PackWord, NamedWord;
    PackedLayoutsAreGood(t);
    WordFollowsName(t);
    var l := GetPackedLayout(t).value;
    var word := PackWord(l, values, l.fieldCount);
    PackWordExtracts(l, values, l.fieldCount, 0);
    PackedWordIsNamed(t, values, l.fieldCount);
    var client := LittleEndian(word, l.byteSize);
    BytesRoundTrip(word, l.byteSize);
    SlotIsLittleEndian(client, l.byteSize, 0);
    assert client[0..l.byteSize] == client;
  }

  /** PACKED INTEGER TEXELS, byte to byte: the client's word is the sum of the channels the format names, each
      clamped to its field and at the place the type's name gives it. */
  lemma PackedIntegerTexelReadsBack(codec: FloatCodec, wide: PixelType, format: PixelFormat, t: PixelType,
                                    pixel: seq<Uint8>) returns (values: seq<nat>)
    requires GetChannelMapping(format).Some? && GetChannelMapping(format).value.isInteger && NameOf(t).Some?
    requires DstPixelSize(GetChannelMapping(format).value, t) != 0 && ComponentSize(wide) == 4 && |pixel| == 16
    ensures Convertible(wide, GetChannelMapping(format).value, t) && |pixel| == WidePixelSize(wide)
    ensures |values| == |ClientChannels(format)| == |NameOf(t).value.widths|
    ensures forall ch :: 0 <= ch < |values| ==>
      values[ch] == Clamp(NumberAt(NumberName(4, wide.SignedInt?), pixel, ClientChannels(format)[ch]),
                          0, Pow2(NamedWidth(NameOf(t).value, ch)) - 1)
    ensures HoldsWord(NameOf(t).value, ConvertPixel(codec, wide, GetChannelMapping(format).value, t, pixel), values)
  {
    hide GetPackedLayout, NameOf, NumberAt, NamedWidth, GetChannelMapping, ClientChannels, Convertible, HoldsWord,
      ConvertPixel, WidePixelSize, GoodMapping, Pow2;
    var m := GetChannelMapping(format).value;
    MappingFollowsName(format);
    WordFollowsName(t);
    PackedShape(m, t);
    values := PackedIntegerWord(codec, wide, m, t, pixel);
    forall ch | 0 <= ch < |values|
      ensures values[ch] == Clamp(NumberAt(NumberName(4, wide.SignedInt?), pixel, ClientChannels(format)[ch]),
                                  0, Pow2(NamedWidth(NameOf(t).value, ch)) - 1)
    {
      FieldFollowsName(t, ch);
    }
  }

  lemma PackedIntegerWord(codec: FloatCodec, wide: PixelType, m: ChannelMapping, t: PixelType, pixel: seq<Uint8>)
    returns (values: seq<nat>)
    requires GoodMapping(m) && m.isInteger && DstPixelSize(m, t) != 0 && ComponentSize(wide) == 4 && |pixel| == 16
    requires NameOf(t).Some? && GetPackedLayout(t).Some?
    ensures Convertible(wide, m, t) && |pixel| == WidePixelSize(wide)
    ensures |values| == m.channelCount <= |GetPackedLayout(t).value.width|
    ensures forall ch :: 0 <= ch < |values| ==>
      values[ch] == Clamp(NumberAt(NumberName(4, wide.SignedInt?), pixel, m.sourceChannel[ch]),
                          0, Pow2(GetPackedLayout(t).value.width[ch]) - 1)
    ensures HoldsWord(NameOf(t).value, ConvertPixel(codec, wide, m, t, pixel), values)
  {
    hide GetPackedLayout, NumberAt, WideSource, DstPixelSize, HoldsWord, IntegerPixel, FieldValues, Clamp;
    var source := seq(4, c requires 0 <= c < 4 => WideSource(wide, pixel, c));
    ConvertibleWord(wide, m, t);
    forall c: nat | c < 4 ensures source[c] == NumberAt(NumberName(4, wide.SignedInt?), pixel, c) {
      WideWordMeans(codec, wide, pixel, c);
    }
    values := IntegerPixelWord(m, t, source);
  }

  lemma IntegerPixelWord(m: ChannelMapping, t: PixelType, source: seq<int>) returns (values: seq<nat>)
    requires GoodMapping(m) && m.isInteger && DstPixelSize(m, t) != 0 && |source| == 4
    requires NameOf(t).Some? && GetPackedLayout(t).Some?
    ensures |values| == m.channelCount <= |GetPackedLayout(t).value.width|
    ensures forall ch :: 0 <= ch < |values| ==>
      values[ch] == Clamp(source[m.sourceChannel[ch]], 0, Pow2(GetPackedLayout(t).value.width[ch]) - 1)
    ensures HoldsWord(NameOf(t).value, IntegerPixel(m, t, source), values)
  {
    hide GetPackedLayout, NameOf, PackWord, LittleEndian, DstPixelSize, HoldsWord;
    PackedLayoutsAreGood(t);
    PackedShape(m, t);
    values := FieldValues(GetPackedLayout(t).value, m, source);
    PackedBytes(t, values);
  }

  lemma ConvertibleWord(wide: PixelType, m: ChannelMapping, t: PixelType)
    requires GoodMapping(m) && DstPixelSize(m, t) != 0 && ComponentSize(wide) == 4
    ensures Convertible(wide, m, t) && WidePixelSize(wide) == 16
  {
  }

  lemma PackedShape(m: ChannelMapping, t: PixelType)
    requires GetPackedLayout(t).Some? && DstPixelSize(m, t) != 0
    ensures GetPackedLayout(t).value.fieldCount == m.channelCount
    ensures m.isInteger ==> !GetPackedLayout(t).value.isFloatPacked
  {
  }

  /** PACKED NORMALIZED TEXELS, byte to byte: the client's word is the sum of the channels the format names, each
      clamped to [0, 1], rounded to the nearest step of its field, and at the place the type's name gives it. */
  lemma PackedNormalizedTexelReadsBack(codec: FloatCodec, wide: PixelType, format: PixelFormat, t: PixelType,
                                       pixel: seq<Uint8>) returns (values: seq<nat>)
    requires GetChannelMapping(format).Some? && !GetChannelMapping(format).value.isInteger && NameOf(t).Some?
    requires DstPixelSize(GetChannelMapping(format).value, t) != 0 && Readable(wide) && |pixel| == WidePixelSize(wide)
    requires !t.UnsignedInt10F11F11FRev? && !t.UnsignedInt5999Rev?
    ensures Convertible(wide, GetChannelMapping(format).value, t)
    ensures |values| == |ClientChannels(format)| == |NameOf(t).value.widths|
    ensures forall ch :: 0 <= ch < |values| ==>
      Nearest(values[ch], Steps(WideReal(codec, wide, pixel, ClientChannels(format)[ch]), false,
                                Pow2(NamedWidth(NameOf(t).value, ch)) - 1))
    ensures HoldsWord(NameOf(t).value, ConvertPixel(codec, wide, GetChannelMapping(format).value, t, pixel), values)
  {
    hide GetPackedLayout, NameOf, WideReal, NamedWidth, GetChannelMapping, ClientChannels, Convertible, HoldsWord,
      ConvertPixel, WidePixelSize, GoodMapping, Pow2, Nearest, Steps, Readable;
    var m := GetChannelMapping(format).value;
    MappingFollowsName(format);
    WordFollowsName(t);
    PackedShape(m, t);
    values := PackedNormalizedWord(codec, wide, m, t, pixel);
    forall ch | 0 <= ch < |values|
      ensures Nearest(values[ch], Steps(WideReal(codec, wide, pixel, ClientChannels(format)[ch]), false,
                                        Pow2(NamedWidth(NameOf(t).value, ch)) - 1))
    {
      FieldFollowsName(t, ch);
    }
  }

  lemma PackedNormalizedWord(codec: FloatCodec, wide: PixelType, m: ChannelMapping, t: PixelType, pixel: seq<Uint8>)
    returns (values: seq<nat>)
    requires GoodMapping(m) && !m.isInteger && DstPixelSize(m, t) != 0 && Readable(wide)
    requires |pixel| == WidePixelSize(wide)
    requires NameOf(t).Some? && GetPackedLayout(t).Some? && !GetPackedLayout(t).value.isFloatPacked
    ensures Convertible(wide, m, t)
    ensures |values| == m.channelCount <= |GetPackedLayout(t).value.width|
    ensures forall ch :: 0 <= ch < |values| ==>
      Nearest(values[ch], Steps(WideReal(codec, wide, pixel, m.sourceChannel[ch]), false,
                                Pow2(GetPackedLayout(t).value.width[ch]) - 1))
    ensures HoldsWord(NameOf(t).value, ConvertPixel(codec, wide, m, t, pixel), values)
  {
    hide GetPackedLayout, NameOf, WideReal, DstPixelSize, HoldsWord, ComponentSize, NormalizedPixel, Nearest, Steps;
    var source := seq(4, c requires 0 <= c < 4 => WideReal(codec, wide, pixel, c));
    values := NormalizedPixelWord(codec, m, t, source);
  }

  lemma NormalizedPixelWord(codec: FloatCodec, m: ChannelMapping, t: PixelType, source: seq<real>)
    returns (values: seq<nat>)
    requires GoodMapping(m) && !m.isInteger && DstPixelSize(m, t) != 0 && |source| == 4
    requires NameOf(t).Some? && GetPackedLayout(t).Some? && !GetPackedLayout(t).value.isFloatPacked
    ensures |values| == m.channelCount <= |GetPackedLayout(t).value.width|
    ensures forall ch :: 0 <= ch < |values| ==>
      Nearest(values[ch], Steps(source[m.sourceChannel[ch]], false, Pow2(GetPackedLayout(t).value.width[ch]) - 1))
    ensures HoldsWord(NameOf(t).value, NormalizedPixel(codec, m, t, source), values)
  {
    hide GetPackedLayout, NameOf, PackWord, LittleEndian, DstPixelSize, HoldsWord, NormalizedField, Nearest, Steps;
    PackedLayoutsAreGood(t);
    PackedShape(m, t);
    var l := GetPackedLayout(t).value;
    values := NormalizedValues(l, m, source);
    forall ch | 0 <= ch < |values|
      ensures Nearest(values[ch], Steps(source[m.sourceChannel[ch]], false, Pow2(l.width[ch]) - 1))
    {
      NormalizedFieldMeans(source[m.sourceChannel[ch]], l.width[ch]);
    }
    PackedBytes(t, values);
  }

  lemma NormalizedFieldMeans(v: real, width: nat)
    ensures Nearest(NormalizedField(v, width), Steps(v, false, Pow2(width) - 1))
  {
    hide Nearest, RoundHalfUp, RoundAway, Pow2, NormalizedField, Steps;
    NormalizedFieldRounds(v, width);
    RoundAwayIsNearest(Steps(v, false, FieldMax(width)));
  }

  lemma NormalizedFieldRounds(v: real, width: nat)
    ensures Steps(v, false, FieldMax(width)) >= 0.0
    ensures NormalizedField(v, width) == RoundHalfUp(Steps(v, false, FieldMax(width)))
  {
    hide RoundHalfUp, ClampReal, Pow2, FieldMax, Steps, NormalizedField;
    FieldIsRounded(v, width);
    UnsignedSteps(v, FieldMax(width));
  }

  lemma FieldIsRounded(v: real, width: nat)
    ensures NormalizedField(v, width) == RoundHalfUp(ClampReal(v, 0.0, 1.0) * FieldMax(width) as real)
  {
    hide RoundHalfUp, ClampReal;
  }

  lemma UnsignedSteps(v: real, highest: nat)
    ensures Steps(v, false, highest) == ClampReal(v, 0.0, 1.0) * highest as real >= 0.0
  {
    hide ClampReal;
  }

  /** PACKED FLOATS: the small floats of the channels the format names side by side, or all of them in one
      shared-exponent word. */
  lemma PackedFloatTexelReadsBack(codec: FloatCodec, wide: PixelType, format: PixelFormat, t: PixelType,
                                  pixel: seq<Uint8>)
    requires GetChannelMapping(format).Some? && t in {UnsignedInt10F11F11FRev, UnsignedInt5999Rev}
    requires DstPixelSize(GetChannelMapping(format).value, t) != 0 && Readable(wide) && |pixel| == WidePixelSize(wide)
    ensures Convertible(wide, GetChannelMapping(format).value, t) && |ClientChannels(format)| == 3
    ensures var client := ConvertPixel(codec, wide, GetChannelMapping(format).value, t, pixel);
      var channels := ClientChannels(format);
      var x, y, z := WideReal(codec, wide, pixel, channels[0]), WideReal(codec, wide, pixel, channels[1]),
        WideReal(codec, wide, pixel, channels[2]);
      && |client| == 4
      && (t.UnsignedInt5999Rev? && codec.encodeRGB9E5(x, y, z) < Pow2(32) ==>
            SlotNumber(client, 4, 0) == codec.encodeRGB9E5(x, y, z))
      && (t.UnsignedInt10F11F11FRev? &&
            codec.encodeF11(x) < Pow2(11) && codec.encodeF11(y) < Pow2(11) && codec.encodeF10(z) < Pow2(10) ==>
            SlotNumber(client, 4, 0) ==
            codec.encodeF11(x) + codec.encodeF11(y) * Pow2(11) + codec.encodeF10(z) * Pow2(22))
  {
    hide WideReal, GetChannelMapping, ClientChannels, Readable, GetPackedLayout, SlotNumber, FloatWord, LittleEndian,
      DstPixelSize, GoodMapping, Pow2, WidePixelSize;
    var m := GetChannelMapping(format).value;
    MappingFollowsName(format);
    var x, y, z := FloatPixelWord(codec, wide, m, t, pixel);
    FloatWordMeans(codec, t, x, y, z);
    FloatWordBytes(FloatWord(codec, t, GetPackedLayout(t).value, x, y, z));
  }

  lemma FloatPixelWord(codec: FloatCodec, wide: PixelType, m: ChannelMapping, t: PixelType, pixel: seq<Uint8>)
    returns (x: real, y: real, z: real)
    requires GoodMapping(m) && t in {UnsignedInt10F11F11FRev, UnsignedInt5999Rev}
    requires DstPixelSize(m, t) != 0 && Readable(wide) && |pixel| == WidePixelSize(wide)
    ensures Convertible(wide, m, t) && m.channelCount == 3
    ensures x == WideReal(codec, wide, pixel, m.sourceChannel[0])
    ensures y == WideReal(codec, wide, pixel, m.sourceChannel[1])
    ensures z == WideReal(codec, wide, pixel, m.sourceChannel[2])
    ensures GetPackedLayout(t).Some? && |GetPackedLayout(t).value.shift| >= 3
    ensures ConvertPixel(codec, wide, m, t, pixel) ==
            LittleEndian(FloatWord(codec, t, GetPackedLayout(t).value, x, y, z), 4)
  {
    hide WideReal, FloatWord, LittleEndian, WidePixelSize;
    x, y, z := WideReal(codec, wide, pixel, m.sourceChannel[0]), WideReal(codec, wide, pixel, m.sourceChannel[1]),
      WideReal(codec, wide, pixel, m.sourceChannel[2]);
  }

  lemma FloatWordBytes(word: nat)
    ensures |LittleEndian(word, 4)| == 4 && (word < Pow2(32) ==> SlotNumber(LittleEndian(word, 4), 4, 0) == word)
  {
    hide SlotNumber, FromLittleEndian, LittleEndian, Pow2;
    var client := LittleEndian(word, 4);
    SlotIsLittleEndian(client, 4, 0);
    assert client[0..4] == client;
    if word < Pow2(32) {
      BytesRoundTrip(word, 4);
    }
  }

  lemma FloatWordMeans(codec: FloatCodec, t: PixelType, x: real, y: real, z: real)
    requires t in {UnsignedInt10F11F11FRev, UnsignedInt5999Rev}
    ensures GetPackedLayout(t).Some? && |GetPackedLayout(t).value.shift| >= 3
    ensures var word := FloatWord(codec, t, GetPackedLayout(t).value, x, y, z);
      && (t.UnsignedInt5999Rev? ==> word == codec.encodeRGB9E5(x, y, z))
      && (t.UnsignedInt10F11F11FRev? &&
            codec.encodeF11(x) < Pow2(11) && codec.encodeF11(y) < Pow2(11) && codec.encodeF10(z) < Pow2(10) ==>
            && word == codec.encodeF11(x) + codec.encodeF11(y) * Pow2(11) + codec.encodeF10(z) * Pow2(22)
            && word < Pow2(32))
  {
    hide Or, Pow2, ShiftLeft;
    if t.UnsignedInt10F11F11FRev? && codec.encodeF11(x) < Pow2(11) && codec.encodeF11(y) < Pow2(11) &&
       codec.encodeF10(z) < Pow2(10)
    {
      ThreeFields(codec.encodeF11(x), codec.encodeF11(y), codec.encodeF10(z));
    }
  }

  lemma ThreeFields(a: nat, b: nat, c: nat)
    requires a < Pow2(11) && b < Pow2(11) && c < Pow2(10)
    ensures var word := Or(Or(ShiftLeft(a, 0), ShiftLeft(b, 11)), ShiftLeft(c, 22));
      word == a + b * Pow2(11) + c * Pow2(22) && word < Pow2(32)
  {
    hide Or, Field, Pow2;
    var l := PackedLayout(3, [11, 11, 10, 0], [0, 11, 22, 0], 4, true);
    var values: seq<nat> := [a, b, c];
    assert GoodLayout(l) && ValuesFit(l, values);
    PackWordExtracts(l, values, 3, 0);
    PackWordExtracts(l, values, 2, 2);
    PackWordExtracts(l, values, 1, 1);
    OrZero(ShiftLeft(a, 0));
    OrAdds(PackWord(l, values, 1), b, 11, 11);
    OrAdds(PackWord(l, values, 2), c, 22, 10);
  }

  // ---- which pairs convert ------------------------------------------------------------------

  /** WHICH PAIRS CONVERT, by name: a packed type goes with as many channels as it has fields for, a type of floats
      with no integer format; and how many bytes a pixel then has. */
  lemma ConvertibleByName(format: PixelFormat, t: PixelType)
    requires GetChannelMapping(format).Some?
    ensures DstPixelSize(GetChannelMapping(format).value, t) != 0 <==>
      && t != OtherType
      && !(GetChannelMapping(format).value.isInteger &&
           t in {Float, HalfFloat, UnsignedInt10F11F11FRev, UnsignedInt5999Rev})
      && (NameOf(t).Some? ==>
            |ClientChannels(format)| == if t.UnsignedInt5999Rev? then 3 else |NameOf(t).value.widths|)
    ensures DstPixelSize(GetChannelMapping(format).value, t) != 0 && NameOf(t).Some? ==>
      8 * DstPixelSize(GetChannelMapping(format).value, t) == Total(NameOf(t).value.widths)
    ensures DstPixelSize(GetChannelMapping(format).value, t) != 0 && NameOf(t).None? ==>
      DstPixelSize(GetChannelMapping(format).value, t) ==
      |ClientChannels(format)| * (if t in {UnsignedByte, SignedByte} then 1
                                  else if t in {UnsignedShort, SignedShort, HalfFloat} then 2 else 4)
  {
    hide GetPackedLayout, NameOf, Total, GetChannelMapping, ClientChannels;
    MappingFollowsName(format);
    WordFollowsName(t);
    if NameOf(t).Some? {
      PackedLayoutsAreGood(t);
    }
    OnlyOthersUnknown(t);
  }

  lemma OnlyOthersUnknown(t: PixelType)
    ensures NameOf(t).None? ==>
      ComponentSize(t) ==
        if t.OtherType? then 0 else if t in {UnsignedByte, SignedByte} then 1
        else if t in {UnsignedShort, SignedShort, HalfFloat} then 2 else 4
    ensures t in {UnsignedInt10F11F11FRev, UnsignedInt5999Rev} ==> NameOf(t).Some?
    ensures t in {Float, HalfFloat, OtherType} ==> NameOf(t).None?
  {
  }
}
