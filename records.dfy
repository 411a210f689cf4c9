/**
 * The two kinds of record in an sdlog2 log and how their bytes are decoded:
 * the 86-byte payload of a schema ("format") record, laid out as the
 * `struct` format "BB4s16s64s", and the body of a data record, unpacked with
 * the little-endian `struct` string a schema record registered.
 */
module Records {
  import opened Wrappers
  import opened Bytes
  import opened LittleEndian
  import opened FormatTable

  /** Size of a schema record's payload: `struct.calcsize("BB4s16s64s")`. */
  const DESCR_PAYLOAD_LEN: nat := 86
  const NAME_LEN: nat := 4
  const FORMAT_LEN: nat := 16
  const LABELS_LEN: nat := 64

  /**
   * A decoded field value. `f` fields keep their four IEEE 754 bytes in wire
   * order; scaled fields keep the raw integer and the multiplier to apply.
   */
  datatype Value =
    | Int(i: int)
    | Scaled(raw: int, scale: Scale)
    | Float32Bits(bits: seq<Byte>)
    | Text(bytes: seq<Byte>)

  /** A decoded field: its label from the schema record and its value. */
  datatype Field = Field(labelText: seq<Byte>, value: Value)

  /**
   * One entry of the registry: the declared record length, the name, the
   * format string, the labels, and the `struct` codes with their
   * multipliers (one FieldSpec per format character).
   */
  datatype Descr = Descr(length: Byte, name: seq<Byte>, format: seq<Byte>, labels: seq<seq<Byte>>, specs: seq<FieldSpec>)

  /** Everything that aborts the decoding of a log. */
  datatype Error =
    | InvalidHeader(head1: Byte, head2: Byte)              // magic bytes are not A3 95
    | BufferUnderflow(left: nat)                           // schema record with fewer than 89 bytes left
    | UnsupportedFormatChar(c: Byte, name: seq<Byte>, typ: Byte)  // KeyError in the format table
    | UnknownMsgType(typ: Byte)                            // KeyError in the registry
    | SizeMismatch(expected: nat, actual: nat)             // struct.error: body size differs from the struct size
    | MissingLabel(index: nat)                             // IndexError: fewer labels than fields
    | Stuck(typ: Byte)                                     // a record that consumes nothing: the source loops forever

  // ---------------------------------------------------------------- schema records

  /**
   * Decodes the payload of a schema record: the type byte, the declared
   * length, and the NUL-stripped name, format string and comma-split labels;
   * the format string is translated through the format table.
   */
  function ParseDescr(payload: seq<Byte>): (r: Result<(Byte, Descr), Error>)
    requires |payload| == DESCR_PAYLOAD_LEN
    ensures r.Ok? <==> Supported(Strip(payload[6..22]))
    ensures r.Ok? ==> r.value.0 == payload[0] && |r.value.1.specs| == |r.value.1.format|
    ensures r.Err? ==> r.error.UnsupportedFormatChar? && r.error.typ == payload[0] && Lookup(r.error.c).None?
  {
    var typ := payload[0];
    var length := payload[1];
    var name := Strip(payload[2..6]);
    var format := Strip(payload[6..22]);
    var labels := Split(Strip(payload[22..86]), COMMA);
    match Translate(format)
    case Err(c) => Err(UnsupportedFormatChar(c, name, typ))
    case Ok(specs) => Ok((typ, Descr(length, name, format, labels, specs)))
  }

  /** The 86-byte schema payload a logger writes: strings NUL-padded to their widths. */
  function EncodeDescr(typ: Byte, length: Byte, name: seq<Byte>, format: seq<Byte>, labels: seq<seq<Byte>>): (p: seq<Byte>)
    requires |labels| >= 1
    requires |name| <= NAME_LEN && |format| <= FORMAT_LEN && |Join(labels, COMMA)| <= LABELS_LEN
    ensures |p| == DESCR_PAYLOAD_LEN
  {
    [typ, length] + Pad(name, NAME_LEN) + Pad(format, FORMAT_LEN) + Pad(Join(labels, COMMA), LABELS_LEN)
  }

  /** Decoding an encoded schema payload gives back exactly what was encoded. */
  lemma ParseEncodeDescr(typ: Byte, length: Byte, name: seq<Byte>, format: seq<Byte>, labels: seq<seq<Byte>>)
    requires |labels| >= 1 && SepFree(labels, COMMA)
    requires |name| <= NAME_LEN && |format| <= FORMAT_LEN && |Join(labels, COMMA)| <= LABELS_LEN
    requires Trimmed(name) && Trimmed(format) && Trimmed(Join(labels, COMMA))
    requires Supported(format)
    ensures ParseDescr(EncodeDescr(typ, length, name, format, labels))
         == Ok((typ, Descr(length, name, format, labels, Translate(format).value)))
  {
    var joined := Join(labels, COMMA);
    EncodeDescrLayout(typ, length, name, format, labels);
    StripPad(name, NAME_LEN);
    StripPad(format, FORMAT_LEN);
    StripPad(joined, LABELS_LEN);
    SplitJoin(labels, COMMA);
    assert Translate(format).Ok?;
  }

  /** Where the fields of an encoded schema payload sit. */
  lemma EncodeDescrLayout(typ: Byte, length: Byte, name: seq<Byte>, format: seq<Byte>, labels: seq<seq<Byte>>)
    requires |labels| >= 1
    requires |name| <= NAME_LEN && |format| <= FORMAT_LEN && |Join(labels, COMMA)| <= LABELS_LEN
    ensures var p := EncodeDescr(typ, length, name, format, labels);
      p[0] == typ && p[1] == length && p[2..6] == Pad(name, NAME_LEN) &&
      p[6..22] == Pad(format, FORMAT_LEN) && p[22..86] == Pad(Join(labels, COMMA), LABELS_LEN)
  {
    var a, b, c := Pad(name, NAME_LEN), Pad(format, FORMAT_LEN), Pad(Join(labels, COMMA), LABELS_LEN);
    var p := [typ, length] + a + b + c;
    assert p[2..6] == a;
    assert p[6..22] == b;
    assert p[22..86] == c;
  }

  // ---------------------------------------------------------------- data records

  /** `struct.calcsize` of the "<" struct string the specs spell. */
  function TotalWidth(specs: seq<FieldSpec>): nat
    decreases |specs|
  {
    if specs == [] then 0 else Width(specs[0].wire) + TotalWidth(specs[1..])
  }

  /** The value `struct.unpack` gives for one code. */
  function UnpackField(w: WireType, bs: seq<Byte>): Value
    requires |bs| == Width(w)
  {
    match w
    case Int8 => Int(Signed(bs))
    case UInt8 => Int(Unsigned(bs))
    case Int16 => Int(Signed(bs))
    case UInt16 => Int(Unsigned(bs))
    case Int32 => Int(Signed(bs))
    case UInt32 => Int(Unsigned(bs))
    case Int64 => Int(Signed(bs))
    case UInt64 => Int(Unsigned(bs))
    case Float32 => Float32Bits(bs)
    case Chars(_) => Text(bs)
  }

  /** The values a field of wire type `w` can hold. */
  predicate Fits(w: WireType, v: Value) {
    match w
    case Int8 => v.Int? && -Half(1) <= v.i < Half(1)
    case UInt8 => v.Int? && 0 <= v.i < Pow256(1)
    case Int16 => v.Int? && -Half(2) <= v.i < Half(2)
    case UInt16 => v.Int? && 0 <= v.i < Pow256(2)
    case Int32 => v.Int? && -Half(4) <= v.i < Half(4)
    case UInt32 => v.Int? && 0 <= v.i < Pow256(4)
    case Int64 => v.Int? && -Half(8) <= v.i < Half(8)
    case UInt64 => v.Int? && 0 <= v.i < Pow256(8)
    case Float32 => v.Float32Bits? && |v.bits| == 4
    case Chars(n) => v.Text? && |v.bytes| == n
  }

  predicate AllFit(specs: seq<FieldSpec>, vs: seq<Value>) {
    |vs| == |specs| && forall i :: 0 <= i < |specs| ==> Fits(specs[i].wire, vs[i])
  }

  /** Every value UnpackField produces fits its wire type. */
  lemma UnpackFieldFits(w: WireType, bs: seq<Byte>)
    requires |bs| == Width(w)
    ensures Fits(w, UnpackField(w, bs))
  {
  }

  lemma AllFitCons(specs: seq<FieldSpec>, v: Value, rest: seq<Value>)
    requires |specs| >= 1 && Fits(specs[0].wire, v) && AllFit(specs[1..], rest)
    ensures AllFit(specs, [v] + rest)
  {
    forall i | 0 <= i < |specs| ensures Fits(specs[i].wire, ([v] + rest)[i]) {
      if i > 0 {
        assert specs[1..][i - 1] == specs[i];
        assert ([v] + rest)[i] == rest[i - 1];
      }
    }
  }

  lemma AllFitTail(specs: seq<FieldSpec>, vs: seq<Value>)
    requires |specs| >= 1 && AllFit(specs, vs)
    ensures Fits(specs[0].wire, vs[0]) && AllFit(specs[1..], vs[1..])
  {
    forall i | 0 <= i < |specs| - 1 ensures Fits(specs[1..][i].wire, vs[1..][i]) {
      assert specs[1..][i] == specs[i + 1] && vs[1..][i] == vs[i + 1];
    }
  }

  /** `struct.unpack` of a body whose size matches the struct string exactly. */
  function UnpackAll(specs: seq<FieldSpec>, bs: seq<Byte>): (vs: seq<Value>)
    requires |bs| == TotalWidth(specs)
    ensures AllFit(specs, vs)
    decreases |specs|
  {
    if specs == [] then []
    else
      var w := Width(specs[0].wire);
      var v := UnpackField(specs[0].wire, bs[..w]);
      var rest := UnpackAll(specs[1..], bs[w..]);
      UnpackFieldFits(specs[0].wire, bs[..w]);
      AllFitCons(specs, v, rest);
      [v] + rest
  }

  /** `struct.unpack(msg_struct, body)`: None is the `struct.error` for a body of the wrong size. */
  function Unpack(specs: seq<FieldSpec>, bs: seq<Byte>): (r: Option<seq<Value>>)
    ensures r.Some? <==> |bs| == TotalWidth(specs)
    ensures r.Some? ==> AllFit(specs, r.value)
  {
    if |bs| == TotalWidth(specs) then Some(UnpackAll(specs, bs)) else None
  }

  /** The bytes a logger writes for one value: the inverse of UnpackField. */
  function PackField(w: WireType, v: Value): (bs: seq<Byte>)
    requires Fits(w, v)
    ensures |bs| == Width(w)
  {
    match w
    case Int8 => EncodeSigned(1, v.i)
    case UInt8 => Encode(1, v.i)
    case Int16 => EncodeSigned(2, v.i)
    case UInt16 => Encode(2, v.i)
    case Int32 => EncodeSigned(4, v.i)
    case UInt32 => Encode(4, v.i)
    case Int64 => EncodeSigned(8, v.i)
    case UInt64 => Encode(8, v.i)
    case Float32 => v.bits
    case Chars(_) => v.bytes
  }

  /** `struct.pack` for a list of values: the bytes of a data record's body. */
  function Pack(specs: seq<FieldSpec>, vs: seq<Value>): (bs: seq<Byte>)
    requires AllFit(specs, vs)
    ensures |bs| == TotalWidth(specs)
    decreases |specs|
  {
    if specs == [] then []
    else
      AllFitTail(specs, vs);
      PackField(specs[0].wire, vs[0]) + Pack(specs[1..], vs[1..])
  }

  lemma UnpackPackField(w: WireType, v: Value)
    requires Fits(w, v)
    ensures UnpackField(w, PackField(w, v)) == v
  {
    match w
    case Int8 => SignedEncode(1, v.i);
    case UInt8 => UnsignedEncode(1, v.i);
    case Int16 => SignedEncode(2, v.i);
    case UInt16 => UnsignedEncode(2, v.i);
    case Int32 => SignedEncode(4, v.i);
    case UInt32 => UnsignedEncode(4, v.i);
    case Int64 => SignedEncode(8, v.i);
    case UInt64 => UnsignedEncode(8, v.i);
    case Float32 =>
    case Chars(_) =>
  }

  lemma PackUnpackField(w: WireType, bs: seq<Byte>)
    requires |bs| == Width(w)
    ensures Fits(w, UnpackField(w, bs)) && PackField(w, UnpackField(w, bs)) == bs
  {
    match w
    case Int8 => EncodeSignedOf(bs);
    case UInt8 => EncodeUnsigned(bs);
    case Int16 => EncodeSignedOf(bs);
    case UInt16 => EncodeUnsigned(bs);
    case Int32 => EncodeSignedOf(bs);
    case UInt32 => EncodeUnsigned(bs);
    case Int64 => EncodeSignedOf(bs);
    case UInt64 => EncodeUnsigned(bs);
    case Float32 =>
    case Chars(_) =>
  }

  /** Unpacking what was packed gives back the values (the round trip over every format code). */
  lemma {:induction false} UnpackPack(specs: seq<FieldSpec>, vs: seq<Value>)
    requires AllFit(specs, vs)
    ensures Unpack(specs, Pack(specs, vs)) == Some(vs)
    decreases |specs|
  {
    if specs != [] {
      var w := Width(specs[0].wire);
      var bs := Pack(specs, vs);
      UnpackPackField(specs[0].wire, vs[0]);
      assert bs[..w] == PackField(specs[0].wire, vs[0]);
      assert bs[w..] == Pack(specs[1..], vs[1..]);
      UnpackPack(specs[1..], vs[1..]);
      assert vs == [vs[0]] + vs[1..];
    }
  }

  /** Packing what was unpacked gives back the bytes. */
  lemma {:induction false} PackUnpack(specs: seq<FieldSpec>, bs: seq<Byte>)
    requires |bs| == TotalWidth(specs)
    ensures Pack(specs, UnpackAll(specs, bs)) == bs
    decreases |specs|
  {
    if specs != [] {
      var w := Width(specs[0].wire);
      var vs := UnpackAll(specs, bs);
      PackUnpackField(specs[0].wire, bs[..w]);
      assert vs[1..] == UnpackAll(specs[1..], bs[w..]);
      PackUnpack(specs[1..], bs[w..]);
      assert bs == bs[..w] + bs[w..];
    }
  }

  /**
   * What the data-record loop does to one unpacked value: a string is
   * NUL-stripped, and a field with a multiplier becomes a scaled value. The
   * table only gives multipliers to integer codes.
   */
  function Finish(v: Value, mult: Option<Scale>): Value {
    var v := if v.Text? then Text(Strip(v.bytes)) else v;
    if mult.Some? && v.Int? then Scaled(v.i, mult.value) else v
  }

  /** The labelled fields of a record from the i-th value on. */
  function LabelledFrom(d: Descr, vs: seq<Value>, i: nat): (fields: seq<Field>)
    requires i <= |vs| <= |d.specs| && |vs| <= |d.labels|
    ensures |fields| == |vs| - i
    decreases |vs| - i
  {
    if i == |vs| then []
    else [Field(d.labels[i], Finish(vs[i], d.specs[i].mult))] + LabelledFrom(d, vs, i + 1)
  }

  /** The labelled fields of a record, in the order of the values. */
  function Labelled(d: Descr, vs: seq<Value>): (fields: seq<Field>)
    requires |vs| <= |d.specs| && |vs| <= |d.labels|
    ensures |fields| == |vs|
  {
    LabelledFrom(d, vs, 0)
  }

  lemma {:induction false} LabelledFromAt(d: Descr, vs: seq<Value>, i: nat, k: nat)
    requires i <= k < |vs| <= |d.specs| && |vs| <= |d.labels|
    ensures LabelledFrom(d, vs, i)[k - i] == Field(d.labels[k], Finish(vs[k], d.specs[k].mult))
    decreases k - i
  {
    if i < k {
      LabelledFromAt(d, vs, i + 1, k);
    }
  }

  /** The i-th field pairs the i-th label with the i-th value, finished by its multiplier. */
  lemma LabelledAt(d: Descr, vs: seq<Value>, k: nat)
    requires k < |vs| <= |d.specs| && |vs| <= |d.labels|
    ensures Labelled(d, vs)[k] == Field(d.labels[k], Finish(vs[k], d.specs[k].mult))
  {
    LabelledFromAt(d, vs, 0, k);
  }

  /**
   * Decodes the body of a data record (its bytes after the header, up to the
   * declared length) with descriptor `d`.
   */
  function DecodeRecord(d: Descr, body: seq<Byte>): (r: Result<seq<Field>, Error>)
    ensures r.Ok? <==> |body| == TotalWidth(d.specs) && |d.specs| <= |d.labels|
    ensures r.Err? && |body| != TotalWidth(d.specs) ==> r.error == SizeMismatch(TotalWidth(d.specs), |body|)
    ensures r.Err? && |body| == TotalWidth(d.specs) ==> r.error == MissingLabel(|d.labels|)
  {
    match Unpack(d.specs, body)
    case None => Err(SizeMismatch(TotalWidth(d.specs), |body|))
    case Some(vs) =>
      if |d.labels| < |vs| then Err(MissingLabel(|d.labels|))
      else Ok(Labelled(d, vs))
  }

  /** A record body packed from values decodes to those values, labelled and finished. */
  lemma DecodePacked(d: Descr, vs: seq<Value>)
    requires AllFit(d.specs, vs) && |d.specs| <= |d.labels|
    ensures DecodeRecord(d, Pack(d.specs, vs)) == Ok(Labelled(d, vs))
  {
    UnpackPack(d.specs, vs);
  }

  /** A `c` field holding the raw 16-bit value 314 decodes to 314 hundredths (3.14). */
  lemma ScaledHundredths()
    ensures Translate([99]) == Ok([FieldSpec(Int16, Some(Hundredths))])
    ensures DecodeRecord(Descr(5, [84], [99], [[86]], Translate([99]).value), [0x3A, 0x01])
         == Ok([Field([86], Scaled(314, Hundredths))])
  {
    assert Lookup(99) == Some(FieldSpec(Int16, Some(Hundredths)));
    TranslateOne(99);
    hide Translate;
    var bs: seq<Byte> := [0x3A, 0x01];
    assert Unsigned(bs[1..][1..]) == 0;
    assert Unsigned(bs) == 314;
    assert Signed(bs) == 314;
    var d := Descr(5, [84], [99], [[86]], [FieldSpec(Int16, Some(Hundredths))]);
    assert TotalWidth(d.specs[1..]) == 0;
    assert bs[..2] == bs && bs[2..] == [];
    assert UnpackField(Int16, bs) == Int(314);
    assert UnpackAll(d.specs, bs) == [Int(314)];
    assert Labelled(d, [Int(314)]) == [Field([86], Scaled(314, Hundredths))];
  }

  /** An `L` field holding 12345670 decodes to 12345670 ten-millionths (1.2345670). */
  lemma ScaledTenMillionths()
    ensures Translate([76]) == Ok([FieldSpec(Int32, Some(TenMillionths))])
    ensures DecodeRecord(Descr(7, [84], [76], [[86]], Translate([76]).value), [0x46, 0x61, 0xBC, 0x00])
         == Ok([Field([86], Scaled(12345670, TenMillionths))])
  {
    assert Lookup(76) == Some(FieldSpec(Int32, Some(TenMillionths)));
    TranslateOne(76);
    hide Translate;
    var bs: seq<Byte> := [0x46, 0x61, 0xBC, 0x00];
    assert Unsigned(bs[1..][1..][1..][1..]) == 0;
    assert Unsigned(bs[1..][1..][1..]) == 0;
    assert Unsigned(bs[1..][1..]) == 0xBC;
    assert Unsigned(bs[1..]) == 0xBC61;
    assert Unsigned(bs) == 12345670;
    assert Signed(bs) == 12345670;
    var d := Descr(7, [84], [76], [[86]], [FieldSpec(Int32, Some(TenMillionths))]);
    assert TotalWidth(d.specs[1..]) == 0;
    assert bs[..4] == bs && bs[4..] == [];
    assert UnpackField(Int32, bs) == Int(12345670);
    assert UnpackAll(d.specs, bs) == [Int(12345670)];
    assert Labelled(d, [Int(12345670)]) == [Field([86], Scaled(12345670, TenMillionths))];
  }
}
