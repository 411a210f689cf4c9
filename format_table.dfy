/**
 * The static table that maps each format character of a schema record to the
 * `struct` code used to unpack the field and to an optional multiplier.
 */
module FormatTable {
  import opened Wrappers
  import opened Bytes

  /** The `struct` codes the table uses, under a "<" (little-endian, standard size) prefix. */
  datatype WireType =
    | Int8      // "b"
    | UInt8     // "B"
    | Int16     // "h"
    | UInt16    // "H"
    | Int32     // "i"
    | UInt32    // "I"
    | Int64     // "q"
    | UInt64    // "Q"
    | Float32   // "f"
    | Chars(size: nat)  // "4s", "16s", "64s"
  {
    predicate IsInteger() {
      !Float32? && !Chars?
    }
  }

  /** The non-None multipliers of the table: 0.01 and 0.0000001. */
  datatype Scale = Hundredths | TenMillionths

  /** One entry of the table: a `struct` code and its multiplier (None when unscaled). */
  datatype FieldSpec = FieldSpec(wire: WireType, mult: Option<Scale>)

  /** Number of bytes `struct.calcsize` gives for one code under "<". */
  function Width(w: WireType): nat {
    match w
    case Int8 => 1
    case UInt8 => 1
    case Int16 => 2
    case UInt16 => 2
    case Int32 => 4
    case UInt32 => 4
    case Int64 => 8
    case UInt64 => 8
    case Float32 => 4
    case Chars(n) => n
  }

  /** The keys of the table. */
  const FORMAT_CHARS: string := "bBhHiIfnNZcCeELMqQ"

  /**
   * Looks a format character up in the table; None is the KeyError that
   * aborts the schema record.
   */
  function Lookup(c: Byte): (r: Option<FieldSpec>)
    ensures r.Some? <==> c as char in FORMAT_CHARS
    ensures r.Some? ==> Width(r.value.wire) > 0
    ensures r.Some? && r.value.mult.Some? ==> r.value.wire.IsInteger()
  {
    match c as char
    case 'b' => Some(FieldSpec(Int8, None))
    case 'B' => Some(FieldSpec(UInt8, None))
    case 'h' => Some(FieldSpec(Int16, None))
    case 'H' => Some(FieldSpec(UInt16, None))
    case 'i' => Some(FieldSpec(Int32, None))
    case 'I' => Some(FieldSpec(UInt32, None))
    case 'f' => Some(FieldSpec(Float32, None))
    case 'n' => Some(FieldSpec(Chars(4), None))
    case 'N' => Some(FieldSpec(Chars(16), None))
    case 'Z' => Some(FieldSpec(Chars(64), None))
    case 'c' => Some(FieldSpec(Int16, Some(Hundredths)))
    case 'C' => Some(FieldSpec(UInt16, Some(Hundredths)))
    case 'e' => Some(FieldSpec(Int32, Some(Hundredths)))
    case 'E' => Some(FieldSpec(UInt32, Some(Hundredths)))
    case 'L' => Some(FieldSpec(Int32, Some(TenMillionths)))
    case 'M' => Some(FieldSpec(Int8, None))
    case 'q' => Some(FieldSpec(Int64, None))
    case 'Q' => Some(FieldSpec(UInt64, None))
    case _ => None
  }

  ghost predicate Supported(fmt: seq<Byte>) {
    forall i :: 0 <= i < |fmt| ==> Lookup(fmt[i]).Some?
  }

  /**
   * Translation of a whole format string: one table entry per character, in
   * order, or the first character that is not in the table.
   */
  function Translate(fmt: seq<Byte>): (r: Result<seq<FieldSpec>, Byte>)
    ensures r.Ok? <==> Supported(fmt)
    ensures r.Ok? ==> |r.value| == |fmt|
    ensures r.Ok? ==> forall i :: 0 <= i < |fmt| ==> Lookup(fmt[i]) == Some(r.value[i])
    ensures r.Err? ==> r.error in fmt && Lookup(r.error).None?
    decreases |fmt|
  {
    if fmt == [] then Ok([])
    else
      match Lookup(fmt[0])
      case None => Err(fmt[0])
      case Some(f) =>
        match Translate(fmt[1..])
        case Err(c) => Err(c)
        case Ok(fs) =>
          assert Supported(fmt) by {
            forall i | 0 <= i < |fmt| ensures Lookup(fmt[i]).Some? {
              if i > 0 { assert fmt[i] == fmt[1..][i - 1]; }
            }
          }
          Ok([f] + fs)
  }

  /** A one-character format string translates to that character's table entry. */
  lemma TranslateOne(c: Byte)
    requires Lookup(c).Some?
    ensures Translate([c]) == Ok([Lookup(c).value])
  {
    assert [c][0] == c && [c][1..] == [];
    assert Translate([]) == Ok([]);
    assert [Lookup(c).value] + [] == [Lookup(c).value];
  }

  /** Translation fails on the first character that the table lacks. */
  lemma {:induction false} TranslateFirstUnsupported(fmt: seq<Byte>, i: nat)
    requires i < |fmt| && Lookup(fmt[i]).None?
    requires forall k :: 0 <= k < i ==> Lookup(fmt[k]).Some?
    ensures Translate(fmt) == Err(fmt[i])
  {
    if i > 0 {
      assert Lookup(fmt[0]).Some?;
      TranslateFirstUnsupported(fmt[1..], i - 1);
    }
  }

  /**
   * The loop of the schema parser that converts a format string character by
   * character, collecting the `struct` codes and the multipliers.
   */
  method TranslateFormat(fmt: seq<Byte>) returns (r: Result<seq<FieldSpec>, Byte>)
    ensures r == Translate(fmt)
  {
    var specs: seq<FieldSpec> := [];
    var i := 0;
    while i < |fmt|
      invariant 0 <= i <= |fmt|
      invariant |specs| == i
      invariant forall k :: 0 <= k < i ==> Lookup(fmt[k]) == Some(specs[k])
    {
      var f := Lookup(fmt[i]);
      if f.None? {
        TranslateFirstUnsupported(fmt, i);
        return Err(fmt[i]);
      }
      specs := specs + [f.value];
      i := i + 1;
    }
    assert Supported(fmt);
    assert Translate(fmt).value == specs;
    r := Ok(specs);
  }
}
