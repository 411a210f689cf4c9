/**
 * The stream driver as the object it is: a parser whose buffer, read
 * position and registry change as records are consumed. Each method is
 * proved against the framing functions: what it does to the state is what
 * SchemaStep, DataStep, Drain and Run say.
 */
module Sdlog2Parser {
  import opened Wrappers
  import opened Bytes
  import opened FormatTable
  import opened Records
  import opened Framing
  import opened FramingProperties

  /** How one pass of the inner loop ended. */
  datatype Status =
    | Consumed              // a record was consumed and the read position moved past it
    | Waiting               // the data record at the read position is not complete yet
    | Broken(error: Error)  // the record at the read position aborts the decode

  class Parser {
    /** The bytes read and not yet dropped. */
    var buffer: seq<Byte>
    /** The read position in `buffer`. */
    var ptr: nat
    /** `msg_descrs`: the descriptor registered for each type byte. */
    var descrs: Registry
    /** What the parser has printed: one event per consumed record, in order. */
    var out: seq<Event>

    ghost predicate Valid()
      reads this
    {
      ptr <= |buffer|
    }

    /** A parser in the state `reset` leaves, with nothing printed. */
    constructor ()
      ensures Valid() && buffer == [] && ptr == 0 && descrs == map[] && out == []
    {
      buffer := [];
      ptr := 0;
      descrs := map[];
      out := [];
    }

    /** `reset`: an empty registry, an empty buffer, the read position at 0. */
    method Reset()
      modifies this
      ensures Valid() && buffer == [] && ptr == 0 && descrs == map[] && out == old(out)
    {
      descrs := map[];
      buffer := [];
      ptr := 0;
    }

    /**
     * `_parse_msg_descr`: a schema record with fewer than 89 bytes left is a
     * buffer underflow; otherwise its payload is decoded, its format string
     * translated, and the descriptor registered under its type byte.
     */
    method ParseMsgDescr() returns (err: Option<Error>)
      requires Valid() && BytesLeft(buffer, ptr) >= HEADER_LEN
      modifies this
      ensures Valid() && buffer == old(buffer)
      ensures var o := SchemaStep(old(buffer), old(ptr), old(descrs));
              && (o.Fatal? ==> err == Some(o.error) && ptr == old(ptr) && descrs == old(descrs) && out == old(out))
              && (o.Advance? ==> err == None && ptr == old(ptr) + o.n && descrs == o.reg && out == old(out) + [o.event])
    {
      hide SchemaStep;
      hide Register;
      hide Strip;
      hide Split;
      hide Translate;
      if BytesLeft(buffer, ptr) < FORMAT_PACKET_LEN {
        ShortSchemaUnderflows(buffer, ptr, descrs);
        return Some(BufferUnderflow(|buffer| - ptr));
      }
      SchemaStepParses(buffer, ptr, descrs);
      var payload := buffer[ptr + HEADER_LEN..ptr + FORMAT_PACKET_LEN];
      var typ, length := payload[0], payload[1];
      var name := Strip(payload[2..6]);
      var format := Strip(payload[6..22]);
      var labels := Split(Strip(payload[22..86]), COMMA);
      var specs := TranslateFormat(format);
      if specs.Err? {
        return Some(UnsupportedFormatChar(specs.error, name, typ));
      }
      var d := Descr(length, name, format, labels, specs.value);
      descrs := descrs[typ := d];
      out := out + [Registered(typ, d)];
      ptr := ptr + FORMAT_PACKET_LEN;
      return None;
    }

    /**
     * `_parse_msg`: unpacks the body of the data record at the read
     * position, then finishes and labels the values one by one (the line it
     * prints is `fields`); a body of the wrong size or a missing label
     * aborts.
     */
    method ParseMsg(d: Descr) returns (err: Option<Error>, fields: seq<Field>)
      requires Valid() && d.length as int <= BytesLeft(buffer, ptr)
      modifies this
      ensures Valid() && buffer == old(buffer) && descrs == old(descrs)
      ensures var o := DataStep(old(buffer), old(ptr), old(descrs), d);
              && (o.Fatal? ==> err == Some(o.error) && ptr == old(ptr) && out == old(out))
              && (o.Advance? ==> err == None && ptr == old(ptr) + o.n && out == old(out) + [o.event])
              && (o.Advance? ==> Fields(o.event) == Ok(fields))
    {
      hide Strip;
      hide Unpack;
      hide Labelled;
      hide LabelledFrom;
      hide TotalWidth;
      var body := Body(buffer, ptr, d.length);
      var unpacked := Unpack(d.specs, body);
      if unpacked.None? {
        return Some(SizeMismatch(TotalWidth(d.specs), |body|)), [];
      }
      var data := unpacked.value;
      fields := [];
      var i := 0;
      while i < |data|
        invariant i <= |data| == |d.specs|
        invariant |fields| == i <= |d.labels|
        invariant forall k :: 0 <= k < i ==> fields[k] == Field(d.labels[k], Finish(data[k], d.specs[k].mult))
      {
        var v := data[i];
        if v.Text? {
          v := Text(Strip(v.bytes));
        }
        var m := d.specs[i].mult;
        if m.Some? && v.Int? {
          v := Scaled(v.i, m.value);
        }
        if i >= |d.labels| {
          return Some(MissingLabel(|d.labels|)), [];
        }
        fields := fields + [Field(d.labels[i], v)];
        i := i + 1;
      }
      forall k | 0 <= k < |data|
        ensures Labelled(d, data)[k] == fields[k]
      {
        LabelledAt(d, data, k);
      }
      assert Labelled(d, data) == fields;
      assert DecodeRecord(d, body) == Ok(fields);
      out := out + [Message(d, body)];
      ptr := ptr + d.length as nat;
      return None, fields;
    }

    /**
     * One pass of the inner loop of `process`: checks the header at the read
     * position, then hands a schema record to ParseMsgDescr and a data
     * record of a registered type to ParseMsg; an unknown type aborts, and
     * a data record whose bytes are not all here yet leaves everything as
     * it is. What happens is what Step says.
     */
    method ConsumeRecord() returns (status: Status)
      requires Valid() && BytesLeft(buffer, ptr) >= HEADER_LEN
      modifies this
      ensures Valid() && buffer == old(buffer)
      ensures var o := Step(old(buffer), old(ptr), old(descrs));
              && (o.Advance? ==> status == Consumed && ptr == old(ptr) + o.n && descrs == o.reg && out == old(out) + [o.event])
              && (o.NeedMore? ==> status == Waiting && ptr == old(ptr) && descrs == old(descrs) && out == old(out))
              && (o.Fatal? ==> status == Broken(o.error) && ptr == old(ptr) && descrs == old(descrs) && out == old(out))
    {
      hide SchemaStep;
      hide DataStep;
      var head1, head2 := buffer[ptr], buffer[ptr + 1];
      if head1 != HEAD1 || head2 != HEAD2 {
        return Broken(InvalidHeader(head1, head2));
      }
      var typ := buffer[ptr + 2];
      if typ == TYPE_FORMAT {
        var err := ParseMsgDescr();
        return if err.Some? then Broken(err.value) else Consumed;
      }
      if typ !in descrs {
        return Broken(UnknownMsgType(typ));
      }
      var d := descrs[typ];
      if BytesLeft(buffer, ptr) < d.length as int {
        return Waiting;
      }
      if Spins(d) {
        return Broken(Stuck(typ));
      }
      var err, fields := ParseMsg(d);
      return if err.Some? then Broken(err.value) else Consumed;
    }

    /**
     * One pass of the outer loop of `process`: the unconsumed bytes and the
     * chunk become the buffer, the read position restarts at 0, and records
     * are consumed while at least a header is left, until one is incomplete
     * or fails. The new state is the one Drain describes.
     */
    method Feed(chunk: seq<Byte>) returns (err: Option<Error>)
      requires Valid()
      modifies this
      ensures Valid() && buffer == old(buffer[ptr..]) + chunk
      ensures var d := Drain(buffer, 0, old(descrs));
              && ptr == d.end && descrs == d.reg && out == old(out) + d.events
              && (d.stop.Failed? ==> err == Some(d.stop.error))
              && (!d.stop.Failed? ==> err == None)
    {
      hide Step;
      hide Drain;
      buffer := buffer[ptr..] + chunk;
      ptr := 0;
      ghost var buf0 := buffer;
      ghost var reg0 := descrs;
      ghost var out0 := out;
      ghost var acc: seq<Event> := [];
      err := None;
      while BytesLeft(buffer, ptr) >= HEADER_LEN
        invariant buffer == buf0 && ptr <= |buffer| && out == out0 + acc && err == None
        invariant Then(Drained(ptr, descrs, acc, Exhausted), Drain(buffer, ptr, descrs)) == Drain(buffer, 0, reg0)
        decreases |buffer| - ptr
      {
        ghost var p0, r0 := ptr, descrs;
        ghost var o := Step(buffer, p0, r0);
        var status := ConsumeRecord();
        if !status.Consumed? {
          DrainStop(buffer, p0, r0);
          assert acc + [] == acc;
          if status.Waiting? {
            break;
          }
          return Some(status.error);
        }
        DrainAdvance(buffer, p0, r0, acc, o.n, o.reg, o.event);
        acc := acc + [o.event];
      }
      if BytesLeft(buffer, ptr) < HEADER_LEN {
        DrainStop(buffer, ptr, descrs);
        assert acc + [] == acc;
      }
    }

    /**
     * `process`: reset, then read the file in blocks of BLOCK_SIZE bytes and
     * feed each to the outer loop until the empty read at the end of the
     * file. The events printed, the registry and the bytes left over are
     * those of DecodeFile; an error stops the decode.
     */
    method Process(file: seq<Byte>) returns (err: Option<Error>)
      modifies this
      ensures Valid()
      ensures var s := DecodeFile(file);
              && out == old(out) + s.events && descrs == s.reg && buffer[ptr..] == s.tail
              && (s.outcome == Completed ==> err == None)
              && (s.outcome.Aborted? ==> err == Some(s.outcome.error))
    {
      hide Drain;
      ghost var out0 := out;
      Reset();
      var off := 0;
      assert file[0..] == file && buffer[ptr..] == [];
      assert Prepend(out0, DecodeFile(file)) == Prepend(out, Run(buffer[ptr..], descrs, Blocks(file[off..]))) by {
        assert out0 + [] == out0;
        assert Prepend([], Run([], map[], Blocks(file))) == Run([], map[], Blocks(file));
      }
      while true
        invariant Valid() && off <= |file|
        invariant Prepend(out0, DecodeFile(file)) == Prepend(out, Run(buffer[ptr..], descrs, Blocks(file[off..])))
        decreases |file| - off
      {
        hide Run;
        var n := if |file| - off < BLOCK_SIZE then |file| - off else BLOCK_SIZE;
        var chunk := file[off..off + n];
        if |chunk| == 0 {
          break;
        }
        ghost var tail, reg, out1 := buffer[ptr..], descrs, out;
        BlocksFrom(file, off);
        RunCons(tail, reg, chunk, Blocks(file[off + n..]));
        err := Feed(chunk);
        ghost var d := Drain(tail + chunk, 0, reg);
        if err.Some? {
          assert Prepend(out0, DecodeFile(file)) == Session(out, buffer[ptr..], descrs, Aborted(d.stop.error)) by {
            assert out1 + d.events == out;
          }
          return;
        }
        PrependPrepend(out1, d.events, Run(buffer[ptr..], descrs, Blocks(file[off + n..])));
        off := off + n;
      }
      assert file[off..] == [] && Blocks([]) == [];
      assert Prepend(out0, DecodeFile(file)) == Session(out, buffer[ptr..], descrs, Completed) by {
        assert out + [] == out;
      }
      err := None;
    }
  }
}
