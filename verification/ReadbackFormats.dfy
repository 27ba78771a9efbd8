/** The format tables of MG_Backend/ClientReadback and what one converted pixel holds. */
module ReadbackFormats {
  import opened Wrappers
  import opened Bits

  datatype PixelFormat =
    | Red | RedInteger | Green | GreenInteger | Blue | BlueInteger | Alpha | AlphaInteger
    | RG | RGInteger | RGB | RGBInteger | BGR | BGRInteger | RGBA | RGBAInteger | BGRA | BGRAInteger
    | OtherFormat

  datatype PixelType =
    | UnsignedByte | SignedByte | UnsignedShort | SignedShort | UnsignedInt | SignedInt | HalfFloat | Float
    | UnsignedByte332 | UnsignedByte233Rev
    | UnsignedShort565 | UnsignedShort565Rev | UnsignedShort4444 | UnsignedShort4444Rev
    | UnsignedShort5551 | UnsignedShort1555Rev
    | UnsignedInt8888 | UnsignedInt8888Rev | UnsignedInt1010102 | UnsignedInt2101010Rev
    | UnsignedInt10F11F11FRev | UnsignedInt5999Rev
    | OtherType

  /** Which RGBA source channel feeds each destination component. */
  datatype ChannelMapping = ChannelMapping(sourceChannel: seq<nat>, channelCount: nat, isInteger: bool)

  function GetChannelMapping(format: PixelFormat): (m: Option<ChannelMapping>)
    ensures m.Some? ==> GoodMapping(m.value)
    ensures m.None? <==> format.OtherFormat?
  {
    match format
    case Red => Some(ChannelMapping([0, 0, 0, 0], 1, false))
    case RedInteger => Some(ChannelMapping([0, 0, 0, 0], 1, true))
    case Green => Some(ChannelMapping([1, 0, 0, 0], 1, false))
    case GreenInteger => Some(ChannelMapping([1, 0, 0, 0], 1, true))
    case Blue => Some(ChannelMapping([2, 0, 0, 0], 1, false))
    case BlueInteger => Some(ChannelMapping([2, 0, 0, 0], 1, true))
    case Alpha => Some(ChannelMapping([3, 0, 0, 0], 1, false))
    case AlphaInteger => Some(ChannelMapping([3, 0, 0, 0], 1, true))
    case RG => Some(ChannelMapping([0, 1, 0, 0], 2, false))
    case RGInteger => Some(ChannelMapping([0, 1, 0, 0], 2, true))
    case RGB => Some(ChannelMapping([0, 1, 2, 0], 3, false))
    case RGBInteger => Some(ChannelMapping([0, 1, 2, 0], 3, true))
    case BGR => Some(ChannelMapping([2, 1, 0, 0], 3, false))
    case BGRInteger => Some(ChannelMapping([2, 1, 0, 0], 3, true))
    case RGBA => Some(ChannelMapping([0, 1, 2, 3], 4, false))
    case RGBAInteger => Some(ChannelMapping([0, 1, 2, 3], 4, true))
    case BGRA => Some(ChannelMapping([2, 1, 0, 3], 4, false))
    case BGRAInteger => Some(ChannelMapping([2, 1, 0, 3], 4, true))
    case OtherFormat => None
  }

  predicate GoodMapping(m: ChannelMapping) {
    |m.sourceChannel| == 4 && 1 <= m.channelCount <= 4 && forall i :: 0 <= i < 4 ==> m.sourceChannel[i] < 4
  }

  datatype PackedLayout = PackedLayout(
    fieldCount: nat, width: seq<nat>, shift: seq<nat>, byteSize: nat, isFloatPacked: bool)

  function GetPackedLayout(t: PixelType): Option<PackedLayout> {
    match t
    case UnsignedByte332 => Some(PackedLayout(3, [3, 3, 2, 0], [5, 2, 0, 0], 1, false))
    case UnsignedByte233Rev => Some(PackedLayout(3, [3, 3, 2, 0], [0, 3, 6, 0], 1, false))
    case UnsignedShort565 => Some(PackedLayout(3, [5, 6, 5, 0], [11, 5, 0, 0], 2, false))
    case UnsignedShort565Rev => Some(PackedLayout(3, [5, 6, 5, 0], [0, 5, 11, 0], 2, false))
    case UnsignedShort4444 => Some(PackedLayout(4, [4, 4, 4, 4], [12, 8, 4, 0], 2, false))
    case UnsignedShort4444Rev => Some(PackedLayout(4, [4, 4, 4, 4], [0, 4, 8, 12], 2, false))
    case UnsignedShort5551 => Some(PackedLayout(4, [5, 5, 5, 1], [11, 6, 1, 0], 2, false))
    case UnsignedShort1555Rev => Some(PackedLayout(4, [5, 5, 5, 1], [0, 5, 10, 15], 2, false))
    case UnsignedInt8888 => Some(PackedLayout(4, [8, 8, 8, 8], [24, 16, 8, 0], 4, false))
    case UnsignedInt8888Rev => Some(PackedLayout(4, [8, 8, 8, 8], [0, 8, 16, 24], 4, false))
    case UnsignedInt1010102 => Some(PackedLayout(4, [10, 10, 10, 2], [22, 12, 2, 0], 4, false))
    case UnsignedInt2101010Rev => Some(PackedLayout(4, [10, 10, 10, 2], [0, 10, 20, 30], 4, false))
    case UnsignedInt10F11F11FRev => Some(PackedLayout(3, [11, 11, 10, 0], [0, 11, 22, 0], 4, true))
    case UnsignedInt5999Rev => Some(PackedLayout(3, [9, 9, 9, 0], [0, 9, 18, 0], 4, true))
    case _ => None
  }

  /** Fields that do not overlap and lie inside the word. */
  predicate GoodLayout(l: PackedLayout) {
    && l.fieldCount <= |l.width| && l.fieldCount <= |l.shift|
    && (forall i :: 0 <= i < l.fieldCount ==> l.shift[i] + l.width[i] <= 8 * l.byteSize)
    && (forall i, j :: 0 <= i < l.fieldCount && 0 <= j < l.fieldCount && i != j ==>
          l.shift[i] + l.width[i] <= l.shift[j] || l.shift[j] + l.width[j] <= l.shift[i])
  }

  /** Every packed type's fields are disjoint, lie in its word, and its word is 1, 2 or 4 bytes. */
  lemma PackedLayoutsAreGood(t: PixelType)
    requires GetPackedLayout(t).Some?
    ensures GoodLayout(GetPackedLayout(t).value)
    ensures GetPackedLayout(t).value.byteSize in {1, 2, 4}
    ensures GetPackedLayout(t).value.fieldCount in {3, 4}
  {
    hide GetPackedLayout;
    var l := GetPackedLayout(t).value;
    PackedFieldsFit(t);
    forall i, j | 0 <= i < l.fieldCount && 0 <= j < l.fieldCount && i != j
      ensures l.shift[i] + l.width[i] <= l.shift[j] || l.shift[j] + l.width[j] <= l.shift[i]
    {
      PackedFieldsDisjoint(t, if i < j then i else j, if i < j then j else i);
    }
  }

  lemma PackedFieldsFit(t: PixelType)
    requires GetPackedLayout(t).Some?
    ensures var l := GetPackedLayout(t).value;
      && l.fieldCount in {3, 4} && l.byteSize in {1, 2, 4} && |l.width| == 4 && |l.shift| == 4
      && forall i :: 0 <= i < l.fieldCount ==> l.shift[i] + l.width[i] <= 8 * l.byteSize
  {
  }

  lemma PackedFieldsDisjoint(t: PixelType, i: nat, j: nat)
    requires GetPackedLayout(t).Some?
    requires i < j < GetPackedLayout(t).value.fieldCount
    ensures var l := GetPackedLayout(t).value;
      && l.fieldCount <= |l.width| && l.fieldCount <= |l.shift|
      && (l.shift[i] + l.width[i] <= l.shift[j] || l.shift[j] + l.width[j] <= l.shift[i])
  {
  }

  function ComponentSize(t: PixelType): (size: nat)
    ensures size in {0, 1, 2, 4}
  {
    var packed := GetPackedLayout(t);
    if packed.Some? then packed.value.byteSize
    else match t
      case UnsignedByte => 1
      case SignedByte => 1
      case UnsignedShort => 2
      case SignedShort => 2
      case HalfFloat => 2
      case UnsignedInt => 4
      case SignedInt => 4
      case Float => 4
      case _ => 0
  }

  /** Destination bytes per pixel; 0 when the pair is not convertible. */
  function DstPixelSize(m: ChannelMapping, t: PixelType): nat {
    var packed := GetPackedLayout(t);
    if packed.Some? then
      if packed.value.fieldCount != m.channelCount || (m.isInteger && packed.value.isFloatPacked) then 0
      else packed.value.byteSize
    else if m.isInteger && (t.Float? || t.HalfFloat?) then 0
    else m.channelCount * ComponentSize(t)
  }

  /** The byte groups that SWAP_BYTES reverses divide a pixel evenly. */
  lemma SwapGroupDividesPixel(m: ChannelMapping, t: PixelType)
    requires DstPixelSize(m, t) != 0
    ensures ComponentSize(t) > 0 && DstPixelSize(m, t) % ComponentSize(t) == 0
  {
    hide GetPackedLayout;
    if GetPackedLayout(t).None? {
      MultipleOf(ComponentSize(t), m.channelCount);
    }
  }

  // ---- packed words -------------------------------------------------------------------------

  function FieldMax(width: nat): nat {
    Pow2(width) - 1
  }

  /** `word |= v << shift` over the first `n` fields. */
  function PackWord(l: PackedLayout, values: seq<nat>, n: nat): nat
    requires n <= |values| && n <= |l.shift|
  {
    if n == 0 then 0 else Or(PackWord(l, values, n - 1), ShiftLeft(values[n - 1], l.shift[n - 1]))
  }

  predicate ValuesFit(l: PackedLayout, values: seq<nat>) {
    l.fieldCount <= |values| && l.fieldCount <= |l.width| &&
    forall i :: 0 <= i < l.fieldCount ==> values[i] < Pow2(l.width[i])
  }

  /** Extracting a field from a packed word gives back the value packed into it, and the word has no
      bit beyond its bytes. */
  lemma {:induction false} PackWordExtracts(l: PackedLayout, values: seq<nat>, n: nat, ch: nat)
    requires GoodLayout(l) && ValuesFit(l, values) && n <= l.fieldCount && ch < l.fieldCount
    ensures Field(PackWord(l, values, n), l.shift[ch], l.width[ch]) == if ch < n then values[ch] else 0
    ensures PackWord(l, values, n) < Pow2(8 * l.byteSize)
  {
    if n == 0 {
      assert ShiftLeft(0, 0) == 0;
      ShiftRightClears(0, l.shift[ch]);
      MaskKeeps(0, l.width[ch]);
    } else {
      PackWordExtracts(l, values, n - 1, ch);
      var word := PackWord(l, values, n - 1);
      var v, s, w := values[n - 1], l.shift[n - 1], l.width[n - 1];
      ShiftedField(v, s, w, l.shift[ch], l.width[ch]);
      OrFields(word, ShiftLeft(v, s), l.shift[ch], l.width[ch]);
      OrZero(values[ch]);
      OrZero(v);
      assert Or(0, 0) == 0;
      ShiftLeftFits(v, s, w);
      Pow2Grows(s + w, 8 * l.byteSize);
      OrFits(word, ShiftLeft(v, s), 8 * l.byteSize);
    }
  }

  // ---- integer pixels -----------------------------------------------------------------------

  predicate IsIntegerComponent(t: PixelType) {
    t in {UnsignedByte, SignedByte, UnsignedShort, SignedShort, UnsignedInt, SignedInt}
  }

  function Lowest(t: PixelType): int {
    match t
    case SignedByte => -128
    case SignedShort => -32768
    case SignedInt => -2147483648
    case _ => 0
  }

  function Highest(t: PixelType): nat {
    match t
    case UnsignedByte => 255
    case SignedByte => 127
    case UnsignedShort => 65535
    case SignedShort => 32767
    case UnsignedInt => 4294967295
    case SignedInt => 2147483647
    case _ => 0
  }

  predicate IsSigned(t: PixelType) {
    t in {SignedByte, SignedShort, SignedInt}
  }

  /** The bytes of a component value, two's complement. */
  function ComponentBytes(t: PixelType, v: int): (bytes: seq<Uint8>)
    requires IsIntegerComponent(t) && Lowest(t) <= v <= Highest(t)
    ensures |bytes| == ComponentSize(t)
  {
    Pow2Values();
    LittleEndian(if v < 0 then v + Pow2(8 * ComponentSize(t)) else v, ComponentSize(t))
  }

  /** The value a client reads back from those bytes. */
  function ComponentValue(t: PixelType, bytes: seq<Uint8>): int {
    var word := FromLittleEndian(bytes);
    if IsSigned(t) && word > Highest(t) then word - Pow2(8 * ComponentSize(t)) else word
  }

  lemma Pow2Values()
    ensures Pow2(8) == 256 && Pow2(16) == 65536 && Pow2(32) == 4294967296
  {
    ByteOfPow2(0);
    ByteOfPow2(8);
    ByteOfPow2(16);
    ByteOfPow2(24);
  }

  lemma ComponentRoundTrip(t: PixelType, v: int)
    requires IsIntegerComponent(t) && Lowest(t) <= v <= Highest(t)
    ensures ComponentValue(t, ComponentBytes(t, v)) == v
  {
    Pow2Values();
    var word := if v < 0 then v + Pow2(8 * ComponentSize(t)) else v;
    BytesRoundTrip(word, ComponentSize(t));
  }

  /** Integer sources clamp to the unsigned range of their field. */
  function FieldValues(l: PackedLayout, m: ChannelMapping, source: seq<int>): (values: seq<nat>)
    requires GoodLayout(l) && GoodMapping(m) && |source| == 4 && l.fieldCount <= 4
    ensures |values| == l.fieldCount && ValuesFit(l, values)
  {
    seq(l.fieldCount, ch requires 0 <= ch < l.fieldCount =>
      Clamp(source[m.sourceChannel[ch]], 0, FieldMax(l.width[ch])))
  }

  /** The components of an unpacked integer pixel, one after the other. */
  function Components(m: ChannelMapping, t: PixelType, source: seq<int>, n: nat): (bytes: seq<Uint8>)
    requires GoodMapping(m) && IsIntegerComponent(t) && |source| == 4 && n <= m.channelCount
    ensures |bytes| == n * ComponentSize(t)
  {
    if n == 0 then []
    else
      Components(m, t, source, n - 1) +
      ComponentBytes(t, Clamp(source[m.sourceChannel[n - 1]], Lowest(t), Highest(t)))
  }

  /** The client bytes of one pixel of an integer format. */
  function IntegerPixel(m: ChannelMapping, t: PixelType, source: seq<int>): (bytes: seq<Uint8>)
    requires GoodMapping(m) && m.isInteger && |source| == 4 && DstPixelSize(m, t) != 0
    ensures |bytes| == DstPixelSize(m, t)
  {
    var packed := GetPackedLayout(t);
    if packed.Some? then
      PackedLayoutsAreGood(t);
      var l := packed.value;
      LittleEndian(PackWord(l, FieldValues(l, m, source), l.fieldCount), l.byteSize)
    else
      Components(m, t, source, m.channelCount)
  }

  /** For every packed integer type and all source channels: the client extracts from the written word
      exactly the mapped source, clamped to what the field can hold. */
  lemma PackedPixelExtracts(m: ChannelMapping, t: PixelType, source: seq<int>, ch: nat)
    requires GoodMapping(m) && m.isInteger && |source| == 4 && DstPixelSize(m, t) != 0
    requires GetPackedLayout(t).Some? && ch < m.channelCount
    ensures var l := GetPackedLayout(t).value;
      Field(FromLittleEndian(IntegerPixel(m, t, source)), l.shift[ch], l.width[ch]) ==
      Clamp(source[m.sourceChannel[ch]], 0, FieldMax(l.width[ch]))
  {
    PackedLayoutsAreGood(t);
    var l := GetPackedLayout(t).value;
    var values := FieldValues(l, m, source);
    PackWordExtracts(l, values, l.fieldCount, ch);
    BytesRoundTrip(PackWord(l, values, l.fieldCount), l.byteSize);
  }

  lemma RangeOrdered(t: PixelType)
    ensures Lowest(t) <= Highest(t)
  {
  }

  lemma ComponentsStep(m: ChannelMapping, t: PixelType, source: seq<int>, n: nat)
    requires GoodMapping(m) && IsIntegerComponent(t) && |source| == 4 && 0 < n <= m.channelCount
    ensures Components(m, t, source, n) == Components(m, t, source, n - 1) +
      ComponentBytes(t, Clamp(source[m.sourceChannel[n - 1]], Lowest(t), Highest(t)))
  {
    hide ComponentBytes;
  }

  /** And of an unpacked pixel: component `ch` reads back as the mapped source, clamped to the type. */
  lemma {:induction false} ComponentExtracts(m: ChannelMapping, t: PixelType, source: seq<int>, n: nat, ch: nat)
    requires GoodMapping(m) && IsIntegerComponent(t) && |source| == 4 && ch < n <= m.channelCount
    ensures 0 <= ch * ComponentSize(t) && ch * ComponentSize(t) + ComponentSize(t) <= n * ComponentSize(t)
    ensures var at := ch * ComponentSize(t);
      ComponentValue(t, Components(m, t, source, n)[at..at + ComponentSize(t)]) ==
            Clamp(source[m.sourceChannel[ch]], Lowest(t), Highest(t))
  {
    hide ComponentValue, ComponentBytes, ComponentSize, Components, Lowest, Highest;
    RangeOrdered(t);
    ComponentsStep(m, t, source, n);
    var size := ComponentSize(t);
    var last := Clamp(source[m.sourceChannel[n - 1]], Lowest(t), Highest(t));
    var before := Components(m, t, source, n - 1);
    SlotFits(ch, n, size);
    SlotFits(n - 1, n, size);
    if ch == n - 1 {
      SlotOfLast(before, ComponentBytes(t, last));
      ComponentRoundTrip(t, last);
    } else {
      ComponentExtracts(m, t, source, n - 1, ch);
      SlotFits(ch, n - 1, size);
      SlotOfEarlier(before, ComponentBytes(t, last), ch * size, size);
    }
  }

  const R := 0
  const G := 1
  const B := 2
  const A := 3

  /** The RGBA channels of a client format, in the order in which its name lists them. */
  function ClientChannels(format: PixelFormat): (channels: seq<nat>)
    ensures |channels| <= 4 && forall ch :: 0 <= ch < |channels| ==> channels[ch] < 4
  {
    match format
    case Red | RedInteger => [R]
    case Green | GreenInteger => [G]
    case Blue | BlueInteger => [B]
    case Alpha | AlphaInteger => [A]
    case RG | RGInteger => [R, G]
    case RGB | RGBInteger => [R, G, B]
    case BGR | BGRInteger => [B, G, R]
    case RGBA | RGBAInteger => [R, G, B, A]
    case BGRA | BGRAInteger => [B, G, R, A]
    case OtherFormat => []
  }

  /** The mapping feeds each component from the channel the format names there. */
  lemma MappingFollowsName(format: PixelFormat)
    requires GetChannelMapping(format).Some?
    ensures GetChannelMapping(format).value.channelCount == |ClientChannels(format)|
    ensures forall ch :: 0 <= ch < |ClientChannels(format)| ==>
      GetChannelMapping(format).value.sourceChannel[ch] == ClientChannels(format)[ch]
    ensures GetChannelMapping(format).value.isInteger <==>
      format in {RedInteger, GreenInteger, BlueInteger, AlphaInteger, RGInteger, RGBInteger, BGRInteger, RGBAInteger,
                 BGRAInteger}
  {
  }

  /** For every integer client format: component `ch` of a pixel, read back as a client does, is the
      channel the format names there, clamped to its field or to its type. */
  lemma ClientFormatExtracts(format: PixelFormat, t: PixelType, source: seq<int>, ch: nat)
    requires GetChannelMapping(format).Some? && GetChannelMapping(format).value.isInteger && |source| == 4
    requires DstPixelSize(GetChannelMapping(format).value, t) != 0 && ch < |ClientChannels(format)|
    ensures var pixel := IntegerPixel(GetChannelMapping(format).value, t, source);
      var named := source[ClientChannels(format)[ch]];
      if GetPackedLayout(t).Some? then
        var l := GetPackedLayout(t).value;
        GoodLayout(l) && ch < l.fieldCount &&
        Field(FromLittleEndian(pixel), l.shift[ch], l.width[ch]) == Clamp(named, 0, FieldMax(l.width[ch]))
      else
        var size := ComponentSize(t);
        IsIntegerComponent(t) && 0 <= ch * size && ch * size + size <= |pixel| &&
        ComponentValue(t, pixel[ch * size..ch * size + size]) == Clamp(named, Lowest(t), Highest(t))
  {
    hide GetPackedLayout, Field, FromLittleEndian, IntegerPixel, ComponentValue, GetChannelMapping, ClientChannels;
    var m := GetChannelMapping(format).value;
    MappingFollowsName(format);
    if GetPackedLayout(t).Some? {
      PackedLayoutsAreGood(t);
      PackedPixelExtracts(m, t, source, ch);
    } else {
      IntegerPixelComponents(m, t, source);
      ComponentExtracts(m, t, source, m.channelCount, ch);
    }
  }

  lemma IntegerPixelComponents(m: ChannelMapping, t: PixelType, source: seq<int>)
    requires GoodMapping(m) && m.isInteger && |source| == 4 && DstPixelSize(m, t) != 0 && GetPackedLayout(t).None?
    ensures IsIntegerComponent(t) && IntegerPixel(m, t, source) == Components(m, t, source, m.channelCount)
  {
  }

  /** Slot `ch` of `n` equal slots ends inside them. */
  lemma SlotFits(ch: nat, n: nat, size: nat)
    requires ch < n
    ensures ch * size + size <= n * size
    ensures ch + 1 == n ==> ch * size + size == n * size
  {
    assert (ch + 1) * size == ch * size + size;
    MulGrows(size, ch + 1, n);
  }

  lemma SlotOfEarlier(before: seq<Uint8>, piece: seq<Uint8>, at: nat, size: nat)
    requires at + size <= |before|
    ensures (before + piece)[at..at + size] == before[at..at + size]
  {
  }

  lemma SlotOfLast(before: seq<Uint8>, piece: seq<Uint8>)
    ensures (before + piece)[|before|..|before| + |piece|] == piece
  {
  }

  // ---- normalized values --------------------------------------------------------------------

  /** `llround` of a non-negative value: half rounds up. */
  function RoundHalfUp(x: real): int {
    (x + 0.5).Floor
  }

  /** A step f of M steps, as a step of N steps: round(f/M * N). */
  function Rescale(f: nat, M: nat, N: nat): int
    requires 0 < M
  {
    RoundHalfUp(f as real / M as real * N as real)
  }

  // Products and quotients by name, so that proofs can reason about them without arithmetic.
  function Times(a: nat, b: nat): nat {
    a * b
  }

  function Quotient(a: nat, d: nat): nat
    requires d > 0
  {
    a / d
  }

  /** Rounding a ratio is one integer division. */
  lemma RescaleIsDivision(f: nat, M: nat, N: nat)
    requires 0 < M
    ensures Rescale(f, M, N) == Quotient(2 * Times(f, N) + M, 2 * M)
  {
    var x := f as real / M as real * N as real;
    var num := 2 * (f * N) + M;
    assert x == (f * N) as real / M as real by {
      assert f as real / M as real * N as real == (f as real * N as real) / M as real;
    }
    assert x + 0.5 == num as real / (2 * M) as real by {
      HalfMore((f * N) as real, M as real);
    }
    FloorIsDivision(num, 2 * M);
  }

  lemma HalfMore(a: real, m: real)
    requires m > 0.0
    ensures a / m + 0.5 == (2.0 * a + m) / (2.0 * m)
  {
    assert (2.0 * a + m) / (2.0 * m) == (2.0 * a) / (2.0 * m) + m / (2.0 * m);
    assert (2.0 * a) / (2.0 * m) == a / m;
    assert m / (2.0 * m) == 0.5;
  }

  lemma FloorIsDivision(a: nat, b: nat)
    requires b > 0
    ensures (a as real / b as real).Floor == a / b
  {
    var q := a / b;
    var r := a % b;
    assert a == b * q + r;
    assert a as real / b as real == q as real + r as real / b as real by {
      assert a as real == b as real * q as real + r as real;
    }
    assert 0.0 <= r as real / b as real < 1.0;
  }

  /** A step of M steps at least as fine stays a step: 0 <= round(f/M * N) <= N. */
  lemma RescaleStaysInRange(f: nat, M: nat, N: nat)
    requires 1 <= M && f <= M
    ensures 0 <= Rescale(f, M, N) <= N
  {
    hide Rescale, Times, Quotient;
    RescaleIsDivision(f, M, N);
    TimesFacts(f, M, N);
    QuotientIs(2 * Times(N, M) + M, M, N);
    QuotientGrows(2 * Times(f, N) + M, 2 * Times(N, M) + M, M);
  }

  /** Widening loses nothing: any step of M steps survives the trip to N >= M steps and back. */
  lemma RescaleRoundTrips(f: nat, M: nat, N: nat)
    requires 1 <= M <= N && f <= M
    ensures Rescale(f, M, N) >= 0 && Rescale(Rescale(f, M, N), N, M) == f
  {
    hide Rescale, Times, Quotient;
    RescaleStaysInRange(f, M, N);
    RescaleIsDivision(f, M, N);
    var g := Rescale(f, M, N);
    RescaleIsDivision(g, N, M);
    if M == N {
      QuotientIs(2 * Times(f, M) + M, M, f);
    } else {
      QuotientBounds(2 * Times(f, N) + M, M);
      QuotientIs(2 * Times(g, M) + N, N, f);
    }
  }

  lemma TimesFacts(f: nat, M: nat, N: nat)
    ensures f <= M ==> Times(f, N) <= Times(N, M)
  {
    MulGrows(N, f, M);
  }

  lemma Twice(m: nat, g: nat)
    ensures (2 * m) * g == 2 * (g * m)
  {
  }

  lemma QuotientIs(x: nat, M: nat, q: nat)
    requires M > 0 && 2 * Times(q, M) <= x < 2 * Times(q, M) + 2 * M
    ensures Quotient(x, 2 * M) == q
  {
    Twice(M, q);
    DivIs(x, 2 * M, q);
  }

  lemma QuotientBounds(x: nat, M: nat)
    requires M > 0
    ensures var q := Quotient(x, 2 * M); 2 * Times(q, M) <= x < 2 * Times(q, M) + 2 * M
  {
    hide Quotient;
    QuotientRemainder(x, 2 * M);
    Twice(M, Quotient(x, 2 * M));
  }

  lemma QuotientRemainder(x: nat, d: nat)
    requires d > 0
    ensures d * Quotient(x, d) <= x < d * Quotient(x, d) + d
  {
  }

  lemma QuotientGrows(a: nat, b: nat, M: nat)
    requires M > 0 && a <= b
    ensures Quotient(a, 2 * M) <= Quotient(b, 2 * M)
  {
    DivGrows(a, b, 2 * M);
  }

  /** A field of at most 8 bits encodes to an 8-bit normalized value and back without loss. */
  lemma {:induction false} NarrowFieldSurvivesUNorm8(f: nat, bits: nat)
    requires 1 <= bits <= 8 && f <= FieldMax(bits)
    ensures Rescale(Rescale(f, FieldMax(bits), 255), 255, FieldMax(bits)) == f
  {
    Pow2Grows(1, bits);
    Pow2Grows(bits, 8);
    Pow2Values();
    RescaleRoundTrips(f, FieldMax(bits), 255);
  }

  // ---- normalized pixels --------------------------------------------------------------------

  /** The float encodings this model takes as given: what their bit patterns are is decided elsewhere
      (MG_Util/Math). Values are exact reals here. */
  datatype FloatCodec = FloatCodec(
    decodeHalf: nat -> real, decodeFloat: nat -> real, encodeHalf: real -> nat, encodeFloat: real -> nat,
    encodeF11: real -> nat, encodeF10: real -> nat, encodeRGB9E5: (real, real, real) -> nat)

  function ClampReal(v: real, lo: real, hi: real): (r: real)
    requires lo <= hi
    ensures lo <= r <= hi && (lo <= v <= hi ==> r == v) && (v <= lo ==> r == lo) && (hi <= v ==> r == hi)
  {
    if v < lo then lo else if hi < v then hi else v
  }

  /** `llround`: to the nearest integer, halves away from zero. */
  function RoundAway(x: real): int {
    if x >= 0.0 then RoundHalfUp(x) else -RoundHalfUp(-x)
  }

  /** round(clamp(v, 0, 1) * (2^width - 1)) */
  function NormalizedField(v: real, width: nat): (f: nat)
    ensures f < Pow2(width)
  {
    FractionInRange(ClampReal(v, 0.0, 1.0), FieldMax(width));
    RoundHalfUp(ClampReal(v, 0.0, 1.0) * FieldMax(width) as real)
  }

  /** A fraction of an integer, rounded, is between 0 and that integer. */
  lemma FractionInRange(x: real, max: nat)
    requires 0.0 <= x <= 1.0
    ensures 0.0 <= x * max as real <= max as real
    ensures 0 <= RoundHalfUp(x * max as real) <= max
  {
    FractionBounds(x, max);
  }

  lemma {:induction false} FractionBounds(x: real, max: nat)
    requires 0.0 <= x <= 1.0
    ensures 0.0 <= x * max as real <= max as real
  {
    if max > 0 {
      FractionBounds(x, max - 1);
      assert x * max as real == x * (max - 1) as real + x;
    }
  }

  function NormalizedValues(l: PackedLayout, m: ChannelMapping, source: seq<real>): (values: seq<nat>)
    requires GoodLayout(l) && GoodMapping(m) && |source| == 4 && l.fieldCount <= 4
    ensures |values| == l.fieldCount && ValuesFit(l, values)
  {
    seq(l.fieldCount, ch requires 0 <= ch < l.fieldCount =>
      NormalizedField(source[m.sourceChannel[ch]], l.width[ch]))
  }

  function FloatWord(c: FloatCodec, t: PixelType, l: PackedLayout, x: real, y: real, z: real): nat
    requires |l.shift| >= 3
  {
    if t.UnsignedInt5999Rev? then c.encodeRGB9E5(x, y, z)
    else Or(Or(ShiftLeft(c.encodeF11(x), l.shift[0]), ShiftLeft(c.encodeF11(y), l.shift[1])),
            ShiftLeft(c.encodeF10(z), l.shift[2]))
  }

  function NormalizedComponent(c: FloatCodec, t: PixelType, v: real): (bytes: seq<Uint8>)
    ensures |bytes| == ComponentSize(t) || GetPackedLayout(t).Some?
  {
    if t.Float? then LittleEndian(c.encodeFloat(v), 4)
    else if t.HalfFloat? then LittleEndian(c.encodeHalf(v), 2)
    else if IsIntegerComponent(t) then
      var scaled := ClampReal(v, if IsSigned(t) then -1.0 else 0.0, 1.0) * Highest(t) as real;
      ScaledInRange(t, v);
      ComponentBytes(t, RoundAway(scaled))
    else []
  }

  lemma ScaledInRange(t: PixelType, v: real)
    requires IsIntegerComponent(t)
    ensures var scaled := ClampReal(v, if IsSigned(t) then -1.0 else 0.0, 1.0) * Highest(t) as real;
      Lowest(t) <= RoundAway(scaled) <= Highest(t)
  {
    var x := ClampReal(v, if IsSigned(t) then -1.0 else 0.0, 1.0);
    var top := Highest(t);
    if x >= 0.0 {
      FractionInRange(x, top);
    } else {
      FractionInRange(-x, top);
      assert -(x * top as real) == (-x) * top as real;
      assert Lowest(t) + top <= 0;
    }
  }

  function NormalizedComponents(c: FloatCodec, m: ChannelMapping, t: PixelType, source: seq<real>, n: nat)
    : (bytes: seq<Uint8>)
    requires GoodMapping(m) && GetPackedLayout(t).None? && |source| == 4 && n <= m.channelCount
    ensures |bytes| == n * ComponentSize(t)
  {
    if n == 0 then []
    else
      NormalizedComponents(c, m, t, source, n - 1) + NormalizedComponent(c, t, source[m.sourceChannel[n - 1]])
  }

  /** The client bytes of one pixel of a non-integer format. */
  function NormalizedPixel(c: FloatCodec, m: ChannelMapping, t: PixelType, source: seq<real>): (bytes: seq<Uint8>)
    requires GoodMapping(m) && !m.isInteger && |source| == 4 && DstPixelSize(m, t) != 0
    ensures |bytes| == DstPixelSize(m, t)
  {
    var packed := GetPackedLayout(t);
    if packed.Some? then
      PackedLayoutsAreGood(t);
      var l := packed.value;
      LittleEndian(if l.isFloatPacked
                   then FloatWord(c, t, l, source[m.sourceChannel[0]], source[m.sourceChannel[1]],
                                  source[m.sourceChannel[2]])
                   else PackWord(l, NormalizedValues(l, m, source), l.fieldCount), l.byteSize)
    else
      NormalizedComponents(c, m, t, source, m.channelCount)
  }

  /** Each component of a client word, kept as an 8-bit normalized value in the channel it maps to. */
  predicate KeptAsUNorm8(l: PackedLayout, m: ChannelMapping, fields: seq<nat>, kept: seq<real>)
    requires GoodLayout(l) && GoodMapping(m) && l.fieldCount <= m.channelCount
  {
    |kept| == 4 && |fields| == l.fieldCount &&
    forall ch :: 0 <= ch < l.fieldCount ==>
      1 <= l.width[ch] <= 8 && fields[ch] <= FieldMax(l.width[ch]) &&
      kept[m.sourceChannel[ch]] == Rescale(fields[ch], FieldMax(l.width[ch]), 255) as real / 255.0
  }

  /** A client word whose fields have at most 8 bits survives being stored widened: kept as 8-bit
      normalized channels and read back through the conversion, it is the same word again. */
  lemma {:induction false} NarrowWordsSurviveWidening(c: FloatCodec, m: ChannelMapping, t: PixelType, fields: seq<nat>,
                                                      kept: seq<real>)
    requires GoodMapping(m) && !m.isInteger && DstPixelSize(m, t) != 0 && GetPackedLayout(t).Some?
    requires !GetPackedLayout(t).value.isFloatPacked && GoodLayout(GetPackedLayout(t).value)
    requires KeptAsUNorm8(GetPackedLayout(t).value, m, fields, kept)
    ensures var l := GetPackedLayout(t).value;
      NormalizedPixel(c, m, t, kept) == LittleEndian(PackWord(l, fields, l.fieldCount), l.byteSize)
  {
    hide GetPackedLayout, Rescale;
    var l := GetPackedLayout(t).value;
    var values := NormalizedValues(l, m, kept);
    forall ch | 0 <= ch < l.fieldCount ensures values[ch] == fields[ch] {
      KeptFieldComesBack(fields[ch], l.width[ch], kept[m.sourceChannel[ch]]);
    }
    assert values == fields;
  }

  lemma KeptFieldComesBack(f: nat, width: nat, kept: real)
    requires 1 <= width <= 8 && f <= FieldMax(width)
    requires kept == Rescale(f, FieldMax(width), 255) as real / 255.0
    ensures NormalizedField(kept, width) == f
  {
    hide Rescale, NormalizedField, FieldMax;
    FieldMaxPositive(width);
    NarrowFieldSurvivesUNorm8(f, width);
    RescaleStaysInRange(f, FieldMax(width), 255);
    NormalizedFieldOfStep(Rescale(f, FieldMax(width), 255), width);
  }

  lemma FieldMaxPositive(width: nat)
    requires 1 <= width
    ensures FieldMax(width) >= 1
  {
    Pow2Grows(1, width);
  }

  /** A stored byte that is a step of 255 needs no clamping. */
  lemma NormalizedFieldOfStep(byte: nat, width: nat)
    requires byte <= 255
    ensures NormalizedField(byte as real / 255.0, width) == Rescale(byte, 255, FieldMax(width))
  {
    hide FieldMax;
    var v := byte as real / 255.0;
    assert ClampReal(v, 0.0, 1.0) == v;
    assert v * FieldMax(width) as real == byte as real / 255 as real * FieldMax(width) as real;
  }
}
