/**
 * The record codec of the record-based file manager (src/rbfm/rbfm.cc,
 * src/include/rbfm.h:125-137).
 *
 * Wire format of a record over fields f_0 .. f_{n-1}: ceil(n / 8) null-indicator
 * bytes, the k-th bit from the left set when field k is null; then the values
 * of the non-null fields in order: 4 bytes for an Int or a Real, a 4-byte
 * length followed by that many characters for a VarChar.
 *
 * What the engine stores is not the wire record itself: it charges every
 * non-null VarChar its DECLARED length and copies that many bytes, so the
 * stored image is a prefix of the caller's buffer that is at least as long as
 * the wire record (WireRecordIsPrefixOfStored).
 */
module RecordCodec {
  import opened Bytes

  datatype Option<T> = None | Some(value: T)

  datatype AttrType = TypeInt | TypeReal | TypeVarChar

  /** A column: its name, its type and, for a VarChar, its declared maximum length. */
  datatype Attribute = Attribute(name: string, attrType: AttrType, length: u32)

  /** Number of null-indicator bytes for `numFields` fields: ceil(numFields / 8). */
  function NullIndicatorSize(numFields: nat): (r: nat)
    ensures 8 * r >= numFields && 8 * r < numFields + 8
    ensures numFields > 0 ==> r >= 1
  {
    (numFields + 7) / 8
  }

  /** The mask `1 << (7 - k)`: the k-th bit from the left of a byte. */
  function Mask(k: nat): bv8
    requires k < 8
  {
    [0x80, 0x40, 0x20, 0x10, 0x08, 0x04, 0x02, 0x01][k]
  }

  /** Field i is null iff byte i / 8 of the record has bit `1 << (7 - i % 8)` set. */
  predicate NullBit(data: seq<byte>, i: nat)
    requires i / 8 < |data|
  {
    (data[i / 8] as bv8) & Mask(i % 8) != 0
  }

  /** The null bit of field i lies within the null-indicator bytes. */
  lemma NullByteInRange(i: nat, numFields: nat)
    requires i < numFields
    ensures i / 8 < NullIndicatorSize(numFields)
  {
  }

  /** The null flags of the first `numFields` fields of a record. */
  function NullFlags(data: seq<byte>, numFields: nat): (r: seq<bool>)
    requires NullIndicatorSize(numFields) <= |data|
    ensures |r| == numFields
    ensures forall i :: 0 <= i < numFields ==> r[i] == NullBit(data, i)
  {
    seq(numFields, i requires 0 <= i < numFields => NullBit(data, i))
  }

  /**
   * extractNullInformation: one flag per field, flag i set iff the null bit of
   * field i is set.
   */
  method ExtractNullInformation(data: seq<byte>, recordDescriptor: seq<Attribute>) returns (isNull: seq<bool>)
    requires NullIndicatorSize(|recordDescriptor|) <= |data|
    ensures |isNull| == |recordDescriptor|
    ensures forall i :: 0 <= i < |recordDescriptor| ==> (isNull[i] <==> NullBit(data, i))
    ensures isNull == NullFlags(data, |recordDescriptor|)
  {
    var numFields := |recordDescriptor|;
    var nullIndicatorSize := NullIndicatorSize(numFields);
    var nullsIndicator := data[..nullIndicatorSize];
    isNull := seq(numFields, _ => false);
    for i := 0 to numFields
      invariant |isNull| == numFields
      invariant forall j :: 0 <= j < i ==> (isNull[j] <==> NullBit(data, j))
      invariant forall j :: i <= j < numFields ==> !isNull[j]
    {
      NullByteInRange(i, numFields);
      var byteIndex := i / 8;
      var bitIndex := i % 8;
      var mask := Mask(bitIndex);
      assert nullsIndicator[byteIndex] == data[i / 8];
      if (nullsIndicator[byteIndex] as bv8) & mask != 0 {
        isNull := isNull[i := true];
      }
    }
  }

  /** One null-indicator byte for up to eight fields, the first field in the leftmost bit. */
  function PackByte(flags: seq<bool>): bv8
    requires |flags| <= 8
    decreases |flags|
  {
    if |flags| == 0 then 0
    else PackByte(flags[..|flags| - 1]) | (if flags[|flags| - 1] then Mask(|flags| - 1) else 0)
  }

  lemma MaskDisjoint(j: nat, k: nat)
    requires j < 8 && k < 8
    ensures (Mask(j) & Mask(k) != 0) <==> j == k
  {
  }

  /** A bit is set in `x | y` exactly when it is set in `x` or in `y`. */
  lemma OrBit(x: bv8, y: bv8, m: bv8)
    ensures ((x | y) & m != 0) <==> (x & m != 0 || y & m != 0)
  {
  }

  lemma {:induction false} PackByteBit(flags: seq<bool>, k: nat)
    requires |flags| <= 8 && k < 8
    ensures (PackByte(flags) & Mask(k) != 0) <==> (k < |flags| && flags[k])
    decreases |flags|
  {
    if |flags| > 0 {
      var last := |flags| - 1;
      var init := flags[..last];
      PackByteBit(init, k);
      MaskDisjoint(last, k);
      var lo := PackByte(init);
      var hi: bv8 := if flags[last] then Mask(last) else 0;
      assert PackByte(flags) == lo | hi;
      OrBit(lo, hi, Mask(k));
      assert k < last ==> init[k] == flags[k];
    }
  }

  /** The null-indicator bytes for a list of null flags (the inverse of NullFlags). */
  function EncodeNullBitmap(flags: seq<bool>): (r: seq<byte>)
    ensures |r| == NullIndicatorSize(|flags|)
    decreases |flags|
  {
    if |flags| == 0 then []
    else if |flags| <= 8 then [PackByte(flags) as byte]
    else [PackByte(flags[..8]) as byte] + EncodeNullBitmap(flags[8..])
  }

  /** Decoding the bitmap of a list of flags gives back each flag. */
  lemma NullBitOfFirstByte(e: seq<byte>, flags: seq<bool>, i: nat)
    requires |flags| <= 8 && i < |flags| && |e| >= 1 && e[0] == PackByte(flags) as byte
    ensures NullBit(e, i) == flags[i]
  {
    var b := PackByte(flags);
    assert i / 8 == 0 && i % 8 == i;
    ByteOfBits(e[0], b);
    PackByteBit(flags, i);
  }

  /** A byte converted from bits converts back to the same bits. */
  lemma ByteOfBits(x: byte, b: bv8)
    requires x == b as byte
    ensures x as bv8 == b
  {
  }

  lemma NullBitOfLaterByte(e: seq<byte>, tail: seq<byte>, i: nat)
    requires i >= 8 && |e| == |tail| + 1 && e[1..] == tail && (i - 8) / 8 < |tail|
    ensures i / 8 < |e| && NullBit(e, i) == NullBit(tail, i - 8)
  {
    var j := i - 8;
    assert j / 8 == i / 8 - 1 && j % 8 == i % 8 by {
      assert i == j + 8;
    }
    assert e[i / 8] == tail[j / 8];
  }

  lemma {:induction false} NullBitOfEncoded(flags: seq<bool>, i: nat)
    requires i < |flags|
    ensures i / 8 < |EncodeNullBitmap(flags)|
    ensures NullBit(EncodeNullBitmap(flags), i) == flags[i]
    decreases |flags|
  {
    var e := EncodeNullBitmap(flags);
    NullByteInRange(i, |flags|);
    if i < 8 {
      var head := if |flags| <= 8 then flags else flags[..8];
      NullBitOfFirstByte(e, head, i);
    } else {
      var tail := EncodeNullBitmap(flags[8..]);
      NullBitOfEncoded(flags[8..], i - 8);
      NullBitOfLaterByte(e, tail, i);
    }
  }

  /** The null flags of a record that starts with the bitmap of `flags` are exactly `flags`. */
  lemma NullFlagsRoundTrip(flags: seq<bool>, rest: seq<byte>)
    ensures NullFlags(EncodeNullBitmap(flags) + rest, |flags|) == flags
  {
    var data := EncodeNullBitmap(flags) + rest;
    forall i | 0 <= i < |flags|
      ensures NullBit(data, i) == flags[i]
    {
      NullBitOfEncoded(flags, i);
      assert data[i / 8] == EncodeNullBitmap(flags)[i / 8];
    }
  }

  /** Bytes insertRecord and createRecordStream charge a non-null field: a VarChar is charged its declared length. */
  function StoredFieldSize(a: Attribute): nat
  {
    match a.attrType
    case TypeVarChar => 4 + a.length
    case _ => 4
  }

  /** Bytes charged to the values of the non-null fields. */
  function StoredDataSize(recordDescriptor: seq<Attribute>, isNull: seq<bool>): nat
    requires |isNull| == |recordDescriptor|
    decreases |recordDescriptor|
  {
    var n := |recordDescriptor|;
    if n == 0 then 0
    else StoredDataSize(recordDescriptor[..n - 1], isNull[..n - 1]) +
         (if isNull[n - 1] then 0 else StoredFieldSize(recordDescriptor[n - 1]))
  }

  /** The stored size of a record: its null-indicator bytes and the charged field sizes. */
  function StoredSize(recordDescriptor: seq<Attribute>, isNull: seq<bool>): nat
    requires |isNull| == |recordDescriptor|
  {
    NullIndicatorSize(|recordDescriptor|) + StoredDataSize(recordDescriptor, isNull)
  }

  lemma {:induction false} StoredDataSizeCons(recordDescriptor: seq<Attribute>, isNull: seq<bool>)
    requires |isNull| == |recordDescriptor| > 0
    ensures StoredDataSize(recordDescriptor, isNull) ==
      (if isNull[0] then 0 else StoredFieldSize(recordDescriptor[0])) +
      StoredDataSize(recordDescriptor[1..], isNull[1..])
    decreases |recordDescriptor|
  {
    var n := |recordDescriptor|;
    if n > 1 {
      StoredDataSizeCons(recordDescriptor[..n - 1], isNull[..n - 1]);
      assert recordDescriptor[..n - 1][1..] == recordDescriptor[1..][..n - 2];
      assert isNull[..n - 1][1..] == isNull[1..][..n - 2];
    } else {
      assert recordDescriptor[1..] == [] && isNull[1..] == [];
    }
  }

  /**
   * The size loop of createRecordStream and insertRecord: ceil(n / 8) plus, for
   * every non-null field, 4 bytes for an Int or a Real and 4 plus the declared
   * length for a VarChar.
   */
  method RecordSize(recordDescriptor: seq<Attribute>, isNull: seq<bool>) returns (recordSize: nat)
    requires |isNull| == |recordDescriptor|
    ensures recordSize == StoredSize(recordDescriptor, isNull)
    ensures recordSize >= NullIndicatorSize(|recordDescriptor|)
  {
    recordSize := NullIndicatorSize(|recordDescriptor|);
    for i := 0 to |recordDescriptor|
      invariant recordSize == NullIndicatorSize(|recordDescriptor|) + StoredDataSize(recordDescriptor[..i], isNull[..i])
    {
      assert recordDescriptor[..i + 1][..i] == recordDescriptor[..i];
      assert isNull[..i + 1][..i] == isNull[..i];
      if !isNull[i] {
        match recordDescriptor[i].attrType {
          case TypeVarChar => recordSize := recordSize + 4 + recordDescriptor[i].length;
          case TypeInt => recordSize := recordSize + 4;
          case TypeReal => recordSize := recordSize + 4;
        }
      }
    }
    assert recordDescriptor[..|recordDescriptor|] == recordDescriptor;
    assert isNull[..|isNull|] == isNull;
  }

  /**
   * createRecordStream: copies the null-indicator bytes, then each non-null
   * field's charged size, with the destination and source cursors advancing
   * together; so the stream is exactly the first StoredSize bytes of `data`.
   */
  method CreateRecordStream(data: seq<byte>, recordDescriptor: seq<Attribute>, isNull: seq<bool>) returns (stream: seq<byte>)
    requires |isNull| == |recordDescriptor|
    requires StoredSize(recordDescriptor, isNull) <= |data|
    ensures |stream| == StoredSize(recordDescriptor, isNull)
    ensures stream == data[..StoredSize(recordDescriptor, isNull)]
  {
    var recordSize := RecordSize(recordDescriptor, isNull);
    var recordStream := new byte[recordSize];
    var nullIndicatorSize := NullIndicatorSize(|recordDescriptor|);
    CopyInto(recordStream, 0, data[..nullIndicatorSize]);
    var currentPointer := nullIndicatorSize;
    var dataPointer := nullIndicatorSize;
    for i := 0 to |recordDescriptor|
      invariant currentPointer == dataPointer
      invariant currentPointer == nullIndicatorSize + StoredDataSize(recordDescriptor[..i], isNull[..i])
      invariant currentPointer <= recordSize
      invariant recordStream[..currentPointer] == data[..currentPointer]
    {
      StoredDataSizeStep(recordDescriptor, isNull, i);
      if !isNull[i] {
        var fieldSize := StoredFieldSize(recordDescriptor[i]);
        CopyField(recordStream, currentPointer, data, fieldSize);
        currentPointer := currentPointer + fieldSize;
        dataPointer := dataPointer + fieldSize;
      }
    }
    assert recordDescriptor[..|recordDescriptor|] == recordDescriptor;
    assert isNull[..|isNull|] == isNull;
    stream := recordStream[..];
  }

  /** createRecordStream's copy of one field: the stream, a prefix of `data`, grows by `fieldSize` bytes of it. */
  method CopyField(recordStream: array<byte>, currentPointer: nat, data: seq<byte>, fieldSize: nat)
    requires currentPointer + fieldSize <= recordStream.Length && currentPointer + fieldSize <= |data|
    requires recordStream[..currentPointer] == data[..currentPointer]
    modifies recordStream
    ensures recordStream[..currentPointer + fieldSize] == data[..currentPointer + fieldSize]
  {
    ghost var before := recordStream[..];
    CopyInto(recordStream, currentPointer, data[currentPointer..currentPointer + fieldSize]);
    WriteExtendsPrefix(before, currentPointer, data[currentPointer..currentPointer + fieldSize], data);
  }

  /** One more field in the prefix: its charged size is added, and the prefix stays within the whole. */
  lemma StoredDataSizeStep(recordDescriptor: seq<Attribute>, isNull: seq<bool>, i: nat)
    requires |isNull| == |recordDescriptor| && i < |recordDescriptor|
    ensures StoredDataSize(recordDescriptor[..i + 1], isNull[..i + 1]) ==
      StoredDataSize(recordDescriptor[..i], isNull[..i]) + (if isNull[i] then 0 else StoredFieldSize(recordDescriptor[i]))
    ensures StoredDataSize(recordDescriptor[..i + 1], isNull[..i + 1]) <= StoredDataSize(recordDescriptor, isNull)
  {
    assert recordDescriptor[..i + 1][..i] == recordDescriptor[..i];
    assert isNull[..i + 1][..i] == isNull[..i];
    StoredDataSizePrefix(recordDescriptor, isNull, i + 1);
  }

  /** The charged size of a prefix of the fields never exceeds that of all of them. */
  lemma {:induction false} StoredDataSizePrefix(recordDescriptor: seq<Attribute>, isNull: seq<bool>, k: nat)
    requires |isNull| == |recordDescriptor| && k <= |recordDescriptor|
    ensures StoredDataSize(recordDescriptor[..k], isNull[..k]) <= StoredDataSize(recordDescriptor, isNull)
    decreases |recordDescriptor|
  {
    var n := |recordDescriptor|;
    if k < n {
      StoredDataSizePrefix(recordDescriptor[..n - 1], isNull[..n - 1], k);
      assert recordDescriptor[..n - 1][..k] == recordDescriptor[..k];
      assert isNull[..n - 1][..k] == isNull[..k];
    } else {
      assert recordDescriptor[..k] == recordDescriptor && isNull[..k] == isNull;
    }
  }

  /**
   * The end of a wire-format record whose values start at `pos`, each VarChar
   * taking 4 bytes plus the length stored in its own prefix; None when the
   * record runs past the end of `data`.
   */
  function WireEnd(recordDescriptor: seq<Attribute>, isNull: seq<bool>, data: seq<byte>, pos: nat): Option<nat>
    requires |isNull| == |recordDescriptor|
    decreases |recordDescriptor|
  {
    if |recordDescriptor| == 0 then (if pos <= |data| then Some(pos) else None)
    else if isNull[0] then WireEnd(recordDescriptor[1..], isNull[1..], data, pos)
    else match recordDescriptor[0].attrType
      case TypeVarChar =>
        if pos + 4 <= |data| then WireEnd(recordDescriptor[1..], isNull[1..], data, pos + 4 + ReadU32(data, pos))
        else None
      case _ => WireEnd(recordDescriptor[1..], isNull[1..], data, pos + 4)
  }

  /** Every non-null VarChar of the wire record is no longer than its declared length. */
  predicate WithinDeclared(recordDescriptor: seq<Attribute>, isNull: seq<bool>, data: seq<byte>, pos: nat)
    requires |isNull| == |recordDescriptor|
    decreases |recordDescriptor|
  {
    if |recordDescriptor| == 0 then true
    else if isNull[0] then WithinDeclared(recordDescriptor[1..], isNull[1..], data, pos)
    else match recordDescriptor[0].attrType
      case TypeVarChar =>
        pos + 4 <= |data| && ReadU32(data, pos) <= recordDescriptor[0].length &&
        WithinDeclared(recordDescriptor[1..], isNull[1..], data, pos + 4 + ReadU32(data, pos))
      case _ => WithinDeclared(recordDescriptor[1..], isNull[1..], data, pos + 4)
  }

  /** When the VarChars respect their declared lengths, the wire record ends within the charged size. */
  lemma {:induction false} WireEndWithinStored(recordDescriptor: seq<Attribute>, isNull: seq<bool>, data: seq<byte>, pos: nat)
    requires |isNull| == |recordDescriptor|
    requires WithinDeclared(recordDescriptor, isNull, data, pos)
    requires pos + StoredDataSize(recordDescriptor, isNull) <= |data|
    ensures WireEnd(recordDescriptor, isNull, data, pos).Some?
    ensures WireEnd(recordDescriptor, isNull, data, pos).value <= pos + StoredDataSize(recordDescriptor, isNull)
    decreases |recordDescriptor|
  {
    if |recordDescriptor| > 0 {
      StoredDataSizeCons(recordDescriptor, isNull);
      var rest, restNull := recordDescriptor[1..], isNull[1..];
      if isNull[0] {
        WireEndWithinStored(rest, restNull, data, pos);
      } else if recordDescriptor[0].attrType == TypeVarChar {
        WireEndWithinStored(rest, restNull, data, pos + 4 + ReadU32(data, pos));
      } else {
        WireEndWithinStored(rest, restNull, data, pos + 4);
      }
    }
  }

  /**
   * The stored image of a well-formed record holds the whole wire record as a
   * prefix: what readRecord hands back starts with what insertRecord was given.
   */
  lemma WireRecordIsPrefixOfStored(recordDescriptor: seq<Attribute>, data: seq<byte>)
    requires NullIndicatorSize(|recordDescriptor|) <= |data|
    requires var isNull := NullFlags(data, |recordDescriptor|);
      StoredSize(recordDescriptor, isNull) <= |data| &&
      WithinDeclared(recordDescriptor, isNull, data, NullIndicatorSize(|recordDescriptor|))
    ensures var isNull := NullFlags(data, |recordDescriptor|);
      var stored := data[..StoredSize(recordDescriptor, isNull)];
      var wire := WireEnd(recordDescriptor, isNull, data, NullIndicatorSize(|recordDescriptor|));
      wire.Some? && wire.value <= |stored| && stored[..wire.value] == data[..wire.value]
  {
    var isNull := NullFlags(data, |recordDescriptor|);
    WireEndWithinStored(recordDescriptor, isNull, data, NullIndicatorSize(|recordDescriptor|));
  }

  /** A 4-byte value read into a C `int`: two's complement. */
  function ToInt32(v: u32): (r: int)
    ensures -0x8000_0000 <= r < 0x8000_0000
    ensures r % U32_MODULUS == v
  {
    if v < 0x8000_0000 then v else v - U32_MODULUS
  }

  /** The character for decimal digit d. */
  function DigitChar(d: nat): (c: char)
    requires d < 10
    ensures '0' <= c <= '9' && c as int - '0' as int == d
  {
    "0123456789"[d]
  }

  /** Decimal digits of a natural number, as `operator<<` writes them. */
  function NatToText(n: nat): (r: string)
    ensures |r| >= 1
    ensures forall i :: 0 <= i < |r| ==> '0' <= r[i] <= '9'
    ensures |r| > 1 ==> r[0] != '0'
    decreases n
  {
    if n < 10 then [DigitChar(n)] else NatToText(n / 10) + [DigitChar(n % 10)]
  }

  /** The value a string of decimal digits denotes. */
  function DigitsValue(s: string): nat
    requires forall i :: 0 <= i < |s| ==> '0' <= s[i] <= '9'
    decreases |s|
  {
    if |s| == 0 then 0 else 10 * DigitsValue(s[..|s| - 1]) + (s[|s| - 1] as int - '0' as int)
  }

  /** The decimal text of n denotes n. */
  lemma {:induction false} NatToTextValue(n: nat)
    ensures DigitsValue(NatToText(n)) == n
    decreases n
  {
    var t := NatToText(n);
    if n >= 10 {
      NatToTextValue(n / 10);
      assert t[..|t| - 1] == NatToText(n / 10);
    }
  }

  /** An `int` as `operator<<` writes it. */
  function IntToText(i: int): string
  {
    if i < 0 then "-" + NatToText(-i) else NatToText(i)
  }

  /** Decimal digits as `operator<<` writes a magnitude: at least one, no leading zero. */
  predicate CanonicalDigits(d: string)
  {
    |d| >= 1 && (forall i :: 0 <= i < |d| ==> '0' <= d[i] <= '9') && (|d| > 1 ==> d[0] != '0')
  }

  /** `t` is the decimal text of v: a minus sign for a negative v, then the canonical digits of |v|. */
  predicate DecimalText(t: string, v: int)
  {
    if v < 0 then |t| >= 2 && t[0] == '-' && CanonicalDigits(t[1..]) && DigitsValue(t[1..]) == -v
    else CanonicalDigits(t) && DigitsValue(t) == v
  }

  /** The text IntToText writes for v is the decimal text of v. */
  lemma IntToTextDecimal(v: int)
    ensures DecimalText(IntToText(v), v)
  {
    if v < 0 {
      NatToTextValue(-v);
      assert IntToText(v)[1..] == NatToText(-v);
    } else {
      NatToTextValue(v);
    }
  }

  /** Bytes of a VarChar as the characters of a std::string. */
  function BytesToText(bs: seq<byte>): (r: string)
    ensures |r| == |bs|
  {
    seq(|bs|, i requires 0 <= i < |bs| => bs[i] as char)
  }

  /**
   * What printRecord writes for one field whose value starts at `pos`, and where
   * the next value starts. `showReal` stands for the stream's float formatting.
   */
  function FieldText(a: Attribute, isNull: bool, data: seq<byte>, pos: nat, showReal: seq<byte> -> string): (string, nat)
    requires a.attrType == TypeVarChar && !isNull ==> pos + 4 <= |data| && pos + 4 + ReadU32(data, pos) <= |data|
    requires a.attrType != TypeVarChar && !isNull ==> pos + 4 <= |data|
  {
    if isNull then (a.name + ": NULL", pos)
    else match a.attrType
      case TypeVarChar =>
        var len := ReadU32(data, pos);
        (a.name + ": " + BytesToText(data[pos + 4..pos + 4 + len]), pos + 4 + len)
      case TypeInt => (a.name + ": " + IntToText(ToInt32(ReadU32(data, pos))), pos + 4)
      case TypeReal => (a.name + ": " + showReal(data[pos..pos + 4]), pos + 4)
  }

  lemma WireEndBounds(recordDescriptor: seq<Attribute>, isNull: seq<bool>, data: seq<byte>, pos: nat)
    requires |isNull| == |recordDescriptor| > 0
    requires WireEnd(recordDescriptor, isNull, data, pos).Some?
    ensures var a := recordDescriptor[0];
      (a.attrType == TypeVarChar && !isNull[0] ==> pos + 4 <= |data| && pos + 4 + ReadU32(data, pos) <= |data|) &&
      (a.attrType != TypeVarChar && !isNull[0] ==> pos + 4 <= |data|)
  {
    var a := recordDescriptor[0];
    var next := if isNull[0] then pos else if a.attrType == TypeVarChar then pos + 4 + ReadU32(data, pos) else pos + 4;
    WireEndMonotone(recordDescriptor[1..], isNull[1..], data, next);
  }

  /** The wire record after its first field ends where the whole record ends. */
  lemma WireEndStep(recordDescriptor: seq<Attribute>, isNull: seq<bool>, data: seq<byte>, pos: nat,
                    showReal: seq<byte> -> string)
    requires |isNull| == |recordDescriptor| > 0
    requires WireEnd(recordDescriptor, isNull, data, pos).Some?
    requires var a := recordDescriptor[0];
      (a.attrType == TypeVarChar && !isNull[0] ==> pos + 4 <= |data| && pos + 4 + ReadU32(data, pos) <= |data|) &&
      (a.attrType != TypeVarChar && !isNull[0] ==> pos + 4 <= |data|)
    ensures WireEnd(recordDescriptor[1..], isNull[1..], data, FieldText(recordDescriptor[0], isNull[0], data, pos, showReal).1) ==
      WireEnd(recordDescriptor, isNull, data, pos)
  {
  }

  lemma {:induction false} WireEndMonotone(recordDescriptor: seq<Attribute>, isNull: seq<bool>, data: seq<byte>, pos: nat)
    requires |isNull| == |recordDescriptor|
    requires WireEnd(recordDescriptor, isNull, data, pos).Some?
    ensures pos <= WireEnd(recordDescriptor, isNull, data, pos).value <= |data|
    decreases |recordDescriptor|
  {
    if |recordDescriptor| > 0 {
      var a := recordDescriptor[0];
      var next := if isNull[0] then pos else if a.attrType == TypeVarChar then pos + 4 + ReadU32(data, pos) else pos + 4;
      WireEndMonotone(recordDescriptor[1..], isNull[1..], data, next);
    }
  }

  /**
   * The text printRecord writes for the fields from `pos` on: "name: value"
   * per field, separated by ", ", the last one followed by a line break.
   */
  function Render(recordDescriptor: seq<Attribute>, isNull: seq<bool>, data: seq<byte>, pos: nat,
                  showReal: seq<byte> -> string): string
    requires |isNull| == |recordDescriptor|
    requires WireEnd(recordDescriptor, isNull, data, pos).Some?
    decreases |recordDescriptor|
  {
    if |recordDescriptor| == 0 then ""
    else
      WireEndBounds(recordDescriptor, isNull, data, pos);
      var field := FieldText(recordDescriptor[0], isNull[0], data, pos, showReal);
      WireEndStep(recordDescriptor, isNull, data, pos, showReal);
      field.0 + (if |recordDescriptor| == 1 then "\n" else ", ") +
      Render(recordDescriptor[1..], isNull[1..], data, field.1, showReal)
  }

  /** The switch of printRecord on one field: its text and where the next value starts. */
  method PrintField(a: Attribute, isNull: bool, data: seq<byte>, charData: nat, showReal: seq<byte> -> string)
    returns (piece: string, next: nat)
    requires |data| < 0x8000_0000
    requires a.attrType == TypeVarChar && !isNull ==> charData + 4 <= |data| && charData + 4 + ReadU32(data, charData) <= |data|
    requires a.attrType != TypeVarChar && !isNull ==> charData + 4 <= |data|
    ensures (piece, next) == FieldText(a, isNull, data, charData, showReal)
    ensures isNull ==> piece == a.name + ": NULL" && next == charData
    ensures !isNull ==>
      |a.name| + 2 <= |piece| && piece[..|a.name| + 2] == a.name + ": " &&
      next == charData + (if a.attrType == TypeVarChar then 4 + ReadU32(data, charData) else 4)
    ensures !isNull && a.attrType == TypeVarChar ==>
      |piece| == |a.name| + 2 + ReadU32(data, charData) &&
      forall j :: |a.name| + 2 <= j < |piece| ==> piece[j] as int == data[charData + 4 + (j - |a.name| - 2)]
    ensures !isNull && a.attrType == TypeInt ==>
      DecimalText(piece[|a.name| + 2..], ToInt32(ReadU32(data, charData)))
    ensures !isNull && a.attrType == TypeReal ==>
      piece[|a.name| + 2..] == showReal(data[charData..charData + 4])
  {
    next := charData;
    if !isNull {
      match a.attrType {
        case TypeVarChar =>
          var varcharLength: nat := ToInt32(ReadU32(data, charData));
          var str := BytesToText(data[charData + 4..charData + 4 + varcharLength]);
          piece := a.name + ": " + str;
          next := charData + 4 + varcharLength;
        case TypeInt =>
          var num := ToInt32(ReadU32(data, charData));
          piece := a.name + ": " + IntToText(num);
          next := charData + 4;
          IntToTextDecimal(num);
          assert piece[|a.name| + 2..] == IntToText(num);
        case TypeReal =>
          piece := a.name + ": " + showReal(data[charData..charData + 4]);
          next := charData + 4;
      }
    } else {
      piece := a.name + ": NULL";
    }
  }

  /** Render of a non-empty field list: the first field's text, its separator, then the rest. */
  lemma RenderStep(recordDescriptor: seq<Attribute>, isNull: seq<bool>, data: seq<byte>, pos: nat,
                   showReal: seq<byte> -> string)
    requires |isNull| == |recordDescriptor| > 0
    requires WireEnd(recordDescriptor, isNull, data, pos).Some?
    ensures var a := recordDescriptor[0];
      (a.attrType == TypeVarChar && !isNull[0] ==> pos + 4 <= |data| && pos + 4 + ReadU32(data, pos) <= |data|) &&
      (a.attrType != TypeVarChar && !isNull[0] ==> pos + 4 <= |data|)
    ensures var field := FieldText(recordDescriptor[0], isNull[0], data, pos, showReal);
      WireEnd(recordDescriptor[1..], isNull[1..], data, field.1).Some? &&
      Render(recordDescriptor, isNull, data, pos, showReal) ==
      field.0 + (if |recordDescriptor| == 1 then "\n" else ", ") +
      Render(recordDescriptor[1..], isNull[1..], data, field.1, showReal)
  {
    WireEndBounds(recordDescriptor, isNull, data, pos);
    WireEndStep(recordDescriptor, isNull, data, pos, showReal);
  }

  /**
   * One field of printRecord's loop: the bounds its value needs, and the text
   * written so far plus this field's text, its separator and the rest of the
   * fields is still the whole rendering.
   */
  lemma PrintStep(recordDescriptor: seq<Attribute>, isNull: seq<bool>, data: seq<byte>, i: nat, pos: nat,
                  showReal: seq<byte> -> string, written: string, whole: string)
    requires |isNull| == |recordDescriptor| && i < |recordDescriptor|
    requires WireEnd(recordDescriptor[i..], isNull[i..], data, pos).Some?
    requires written + Render(recordDescriptor[i..], isNull[i..], data, pos, showReal) == whole
    ensures var a := recordDescriptor[i];
      (a.attrType == TypeVarChar && !isNull[i] ==> pos + 4 <= |data| && pos + 4 + ReadU32(data, pos) <= |data|) &&
      (a.attrType != TypeVarChar && !isNull[i] ==> pos + 4 <= |data|)
    ensures var field := FieldText(recordDescriptor[i], isNull[i], data, pos, showReal);
      WireEnd(recordDescriptor[i + 1..], isNull[i + 1..], data, field.1).Some? &&
      written + field.0 + (if i == |recordDescriptor| - 1 then "\n" else ", ") +
      Render(recordDescriptor[i + 1..], isNull[i + 1..], data, field.1, showReal) == whole
  {
    var rest, restNull := recordDescriptor[i..], isNull[i..];
    RenderStep(rest, restNull, data, pos, showReal);
    assert rest[1..] == recordDescriptor[i + 1..] && restNull[1..] == isNull[i + 1..];
  }

  /** The `linebreak` counter of printRecord is a multiple of the field count only at the last field. */
  lemma LinebreakAtLastField(linebreak: nat, numFields: nat)
    requires 0 < linebreak <= numFields
    ensures (linebreak % numFields == 0) <==> linebreak == numFields
  {
    if linebreak < numFields {
      assert linebreak % numFields == linebreak;
    }
  }

  /**
   * printRecord: walks the values with a cursor and keeps a `linebreak` counter;
   * the counter reaches the number of fields exactly at the last field, so every
   * field but the last is followed by ", " and the last by a line break.
   * Returns the text written to the stream.
   */
  method PrintRecord(recordDescriptor: seq<Attribute>, data: seq<byte>, showReal: seq<byte> -> string)
    returns (rc: int, out: string)
    requires NullIndicatorSize(|recordDescriptor|) <= |data| < 0x8000_0000
    requires WireEnd(recordDescriptor, NullFlags(data, |recordDescriptor|), data,
                     NullIndicatorSize(|recordDescriptor|)).Some?
    ensures rc == 0
    ensures out == Render(recordDescriptor, NullFlags(data, |recordDescriptor|), data,
                          NullIndicatorSize(|recordDescriptor|), showReal)
  {
    var isNull := ExtractNullInformation(data, recordDescriptor);
    var nullIndicatorSize := NullIndicatorSize(|recordDescriptor|);
    var charData: nat := nullIndicatorSize;
    var numFields := |recordDescriptor|;
    var linebreak := 1;
    out := "";
    for i := 0 to numFields
      invariant i < numFields ==> linebreak == i + 1
      invariant WireEnd(recordDescriptor[i..], isNull[i..], data, charData).Some?
      invariant out + Render(recordDescriptor[i..], isNull[i..], data, charData, showReal) ==
                Render(recordDescriptor, isNull, data, nullIndicatorSize, showReal)
    {
      PrintStep(recordDescriptor, isNull, data, i, charData, showReal, out,
                Render(recordDescriptor, isNull, data, nullIndicatorSize, showReal));
      var piece;
      piece, charData := PrintField(recordDescriptor[i], isNull[i], data, charData, showReal);
      out := out + piece;
      LinebreakAtLastField(linebreak, numFields);
      if linebreak % numFields != 0 {
        out := out + ", ";
        linebreak := linebreak + 1;
      } else {
        out := out + "\n";
        linebreak := 1;
      }
    }
    rc := 0;
  }
}
