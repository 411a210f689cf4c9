/**
 * What the framing rules promise: how a single record at the read position
 * is treated, that well-formed records decode to what was encoded, and how
 * the decode behaves at chunk boundaries.
 */
module FramingProperties {
  import opened Wrappers
  import opened Bytes
  import opened FormatTable
  import opened Records
  import opened Framing

  // ---------------------------------------------------------------- single records

  /** A record whose first two bytes are not A3 95 aborts at once: nothing is consumed and nothing is skipped. */
  lemma BadHeaderAborts(buf: seq<Byte>, pos: nat, reg: Registry)
    requires pos + HEADER_LEN <= |buf| && (buf[pos] != HEAD1 || buf[pos + 1] != HEAD2)
    ensures Drain(buf, pos, reg) == Drained(pos, reg, [], Failed(InvalidHeader(buf[pos], buf[pos + 1])))
  {
    hide Register;
    hide DataStep;
  }

  /** A data record whose type has no registered schema aborts the decode. */
  lemma UnknownTypeAborts(buf: seq<Byte>, pos: nat, reg: Registry)
    requires pos + HEADER_LEN <= |buf| && buf[pos] == HEAD1 && buf[pos + 1] == HEAD2
    requires buf[pos + 2] != TYPE_FORMAT && buf[pos + 2] !in reg
    ensures Drain(buf, pos, reg) == Drained(pos, reg, [], Failed(UnknownMsgType(buf[pos + 2])))
  {
    hide Register;
    hide DataStep;
  }

  /** A schema record with fewer than 89 bytes left in the buffer is fatal, even though more input may follow. */
  lemma ShortSchemaAborts(buf: seq<Byte>, pos: nat, reg: Registry)
    requires pos + HEADER_LEN <= |buf| < pos + FORMAT_PACKET_LEN
    requires buf[pos] == HEAD1 && buf[pos + 1] == HEAD2 && buf[pos + 2] == TYPE_FORMAT
    ensures Drain(buf, pos, reg) == Drained(pos, reg, [], Failed(BufferUnderflow(|buf| - pos)))
  {
    hide Register;
    hide DataStep;
  }

  /** An incomplete data record stops the inner loop without moving the read position. */
  lemma IncompleteDataWaits(buf: seq<Byte>, pos: nat, reg: Registry)
    requires pos + HEADER_LEN <= |buf| && buf[pos] == HEAD1 && buf[pos + 1] == HEAD2
    requires buf[pos + 2] != TYPE_FORMAT && buf[pos + 2] in reg && |buf| - pos < reg[buf[pos + 2]].length
    ensures Drain(buf, pos, reg) == Drained(pos, reg, [], Incomplete)
  {
    hide Register;
    hide DataStep;
  }

  /** A valid header with type 0x80 is handed to the schema parser. */
  lemma SchemaDispatch(buf: seq<Byte>, pos: nat, reg: Registry)
    requires pos + HEADER_LEN <= |buf| && buf[pos] == HEAD1 && buf[pos + 1] == HEAD2 && buf[pos + 2] == TYPE_FORMAT
    ensures Step(buf, pos, reg) == SchemaStep(buf, pos, reg)
  {
    hide Register;
    hide DataStep;
  }

  /** A schema record with fewer than 89 bytes left underflows. */
  lemma ShortSchemaUnderflows(buf: seq<Byte>, pos: nat, reg: Registry)
    requires pos + HEADER_LEN <= |buf| < pos + FORMAT_PACKET_LEN
    ensures SchemaStep(buf, pos, reg) == Fatal(BufferUnderflow(|buf| - pos))
  {
    hide Register;
  }

  /** A complete schema record registers what its 86-byte payload decodes to, or fails as it does. */
  lemma SchemaStepParses(buf: seq<Byte>, pos: nat, reg: Registry)
    requires pos + FORMAT_PACKET_LEN <= |buf|
    ensures var p := ParseDescr(buf[pos + HEADER_LEN..pos + FORMAT_PACKET_LEN]);
            SchemaStep(buf, pos, reg)
              == if p.Err? then Fatal(p.error) else Advance(FORMAT_PACKET_LEN, reg[p.value.0 := p.value.1], Registered(p.value.0, p.value.1))
  {
    hide ParseDescr;
  }

  /** A complete data record of a registered type is handed to the record parser. */
  lemma DataDispatch(buf: seq<Byte>, pos: nat, reg: Registry)
    requires pos + HEADER_LEN <= |buf| && buf[pos] == HEAD1 && buf[pos + 1] == HEAD2
    requires buf[pos + 2] != TYPE_FORMAT && buf[pos + 2] in reg
    requires reg[buf[pos + 2]].length as int <= BytesLeft(buf, pos) && !Spins(reg[buf[pos + 2]])
    ensures Step(buf, pos, reg) == DataStep(buf, pos, reg, reg[buf[pos + 2]])
  {
    hide Register;
    hide DataStep;
  }

  /** A complete record that would be consumed without progress stops the decode as Stuck. */
  lemma SpinningAborts(buf: seq<Byte>, pos: nat, reg: Registry)
    requires pos + HEADER_LEN <= |buf| && buf[pos] == HEAD1 && buf[pos + 1] == HEAD2
    requires buf[pos + 2] != TYPE_FORMAT && buf[pos + 2] in reg && Spins(reg[buf[pos + 2]])
    ensures Drain(buf, pos, reg) == Drained(pos, reg, [], Failed(Stuck(buf[pos + 2])))
  {
    hide Register;
    hide DataStep;
  }

  /** A record that is consumed: the loop goes on after it. */
  lemma DrainRecord(buf: seq<Byte>, pos: nat, reg: Registry, n: nat, reg': Registry, ev: Event, rest: Drained)
    requires pos + HEADER_LEN <= |buf| && Step(buf, pos, reg) == Advance(n, reg', ev)
    requires pos + n <= |buf| && rest == Drain(buf, pos + n, reg')
    ensures Drain(buf, pos, reg) == Drained(rest.end, rest.reg, [ev] + rest.events, rest.stop)
  {
    hide Step;
  }

  /**
   * Consuming one record keeps what the inner loop has produced so far plus
   * what it will produce from here equal: the event moves from the rest of
   * the loop to the events already printed.
   */
  lemma DrainAdvance(buf: seq<Byte>, pos: nat, reg: Registry, acc: seq<Event>, n: nat, reg': Registry, ev: Event)
    requires pos + HEADER_LEN <= |buf| && Step(buf, pos, reg) == Advance(n, reg', ev) && pos + n <= |buf|
    ensures Then(Drained(pos, reg, acc, Exhausted), Drain(buf, pos, reg))
         == Then(Drained(pos + n, reg', acc + [ev], Exhausted), Drain(buf, pos + n, reg'))
  {
    hide Step;
    var rest := Drain(buf, pos + n, reg');
    DrainRecord(buf, pos, reg, n, reg', ev, rest);
    assert acc + ([ev] + rest.events) == (acc + [ev]) + rest.events;
  }

  /** The inner loop stopping where it starts: nothing is consumed, and why it stops. */
  lemma DrainStop(buf: seq<Byte>, pos: nat, reg: Registry)
    requires pos <= |buf| && (BytesLeft(buf, pos) < HEADER_LEN || !Step(buf, pos, reg).Advance?)
    ensures var d := Drain(buf, pos, reg);
            && d.end == pos && d.reg == reg && d.events == []
            && (BytesLeft(buf, pos) < HEADER_LEN ==> d.stop == Exhausted)
            && (BytesLeft(buf, pos) >= HEADER_LEN && Step(buf, pos, reg).NeedMore? ==> d.stop == Incomplete)
            && (BytesLeft(buf, pos) >= HEADER_LEN && Step(buf, pos, reg).Fatal? ==> d.stop == Failed(Step(buf, pos, reg).error))
  {
    hide Step;
  }

  /** A buffer holding exactly two records that are consumed yields their two events. */
  lemma TwoRecordDrain(buf: seq<Byte>, reg: Registry, n1: nat, reg1: Registry, ev1: Event, n2: nat, reg2: Registry, ev2: Event)
    requires HEADER_LEN <= n2 && n1 + n2 == |buf|
    requires Step(buf, 0, reg) == Advance(n1, reg1, ev1) && Step(buf, n1, reg1) == Advance(n2, reg2, ev2)
    ensures Drain(buf, 0, reg) == Drained(|buf|, reg2, [ev1, ev2], Exhausted)
  {
    hide Step;
    hide Drain;
    var last := Drained(|buf|, reg2, [], Exhausted);
    DrainStop(buf, |buf|, reg2);
    DrainRecord(buf, n1, reg1, n2, reg2, ev2, last);
    DrainRecord(buf, 0, reg, n1, reg1, ev1, Drained(|buf|, reg2, [ev2], Exhausted));
    assert [ev1] + [ev2] == [ev1, ev2];
  }

  // ---------------------------------------------------------------- encoders

  /** The 89 bytes of a schema record: header with type 0x80, then the payload. */
  function SchemaRecord(typ: Byte, length: Byte, name: seq<Byte>, format: seq<Byte>, labels: seq<seq<Byte>>): (rec: seq<Byte>)
    requires |labels| >= 1
    requires |name| <= NAME_LEN && |format| <= FORMAT_LEN && |Join(labels, COMMA)| <= LABELS_LEN
    ensures |rec| == FORMAT_PACKET_LEN
  {
    [HEAD1, HEAD2, TYPE_FORMAT] + EncodeDescr(typ, length, name, format, labels)
  }

  /** The bytes of a data record: header with the type, then the packed values. */
  function DataRecord(typ: Byte, specs: seq<FieldSpec>, vs: seq<Value>): (rec: seq<Byte>)
    requires AllFit(specs, vs)
    ensures |rec| == HEADER_LEN + TotalWidth(specs)
  {
    [HEAD1, HEAD2, typ] + Pack(specs, vs)
  }

  /** A well-formed schema record: it survives the round trip through the payload layout. */
  ghost predicate ValidSchema(typ: Byte, length: Byte, name: seq<Byte>, format: seq<Byte>, labels: seq<seq<Byte>>) {
    && |labels| >= 1 && SepFree(labels, COMMA)
    && |name| <= NAME_LEN && |format| <= FORMAT_LEN && |Join(labels, COMMA)| <= LABELS_LEN
    && Trimmed(name) && Trimmed(format) && Trimmed(Join(labels, COMMA))
    && Supported(format)
  }

  /** The header and payload of a record held at `pos`. */
  lemma RecordAt(buf: seq<Byte>, pos: nat, rec: seq<Byte>)
    requires HEADER_LEN <= |rec| && pos + |rec| <= |buf| && buf[pos..pos + |rec|] == rec
    ensures buf[pos] == rec[0] && buf[pos + 1] == rec[1] && buf[pos + 2] == rec[2]
    ensures buf[pos + HEADER_LEN..pos + |rec|] == rec[HEADER_LEN..]
  {
    assert forall i :: 0 <= i < |rec| ==> buf[pos + i] == rec[i];
  }

  /**
   * A complete schema record at the read position is consumed whole (89
   * bytes, whatever length it declares) and registers its descriptor under
   * the type byte of its payload, replacing any earlier entry.
   */
  lemma SchemaRecordRegisters(typ: Byte, length: Byte, name: seq<Byte>, format: seq<Byte>, labels: seq<seq<Byte>>,
                              buf: seq<Byte>, pos: nat, reg: Registry)
    requires ValidSchema(typ, length, name, format, labels)
    requires pos + FORMAT_PACKET_LEN <= |buf| && buf[pos..pos + FORMAT_PACKET_LEN] == SchemaRecord(typ, length, name, format, labels)
    ensures var d := Descr(length, name, format, labels, Translate(format).value);
            Step(buf, pos, reg) == Advance(FORMAT_PACKET_LEN, reg[typ := d], Registered(typ, d))
  {
    var rec := SchemaRecord(typ, length, name, format, labels);
    var d := Descr(length, name, format, labels, Translate(format).value);
    RecordAt(buf, pos, rec);
    assert rec[HEADER_LEN..] == EncodeDescr(typ, length, name, format, labels);
    ParseEncodeDescr(typ, length, name, format, labels);
    assert Register(buf[pos + HEADER_LEN..pos + FORMAT_PACKET_LEN], reg) == Advance(FORMAT_PACKET_LEN, reg[typ := d], Registered(typ, d));
  }

  /**
   * A registry entry stays as it is through any run of events in which no
   * schema record re-registers its type: data records change nothing, and
   * a schema record replaces only the entry of its own type.
   */
  lemma {:induction false} ReplayKeepsEntry(reg: Registry, events: seq<Event>, t: Byte)
    requires t in reg
    requires forall i :: 0 <= i < |events| && events[i].Registered? ==> events[i].typ != t
    ensures t in Replay(reg, events) && Replay(reg, events)[t] == reg[t]
    decreases |events|
  {
    if events != [] {
      var reg' := Apply(reg, events[0]);
      assert t in reg' && reg'[t] == reg[t];
      forall i | 0 <= i < |events[1..]| && events[1..][i].Registered?
        ensures events[1..][i].typ != t
      {
        assert events[1..][i] == events[i + 1];
      }
      ReplayKeepsEntry(reg', events[1..], t);
    }
  }

  /**
   * A complete data record at the read position is consumed by exactly its
   * declared length and yields its fields, in declared order, labelled and
   * finished.
   */
  lemma DataRecordDecodes(typ: Byte, d: Descr, vs: seq<Value>, buf: seq<Byte>, pos: nat, reg: Registry)
    requires typ != TYPE_FORMAT && typ in reg && reg[typ] == d
    requires AllFit(d.specs, vs) && |d.specs| <= |d.labels|
    requires d.length as int == HEADER_LEN + TotalWidth(d.specs)
    requires pos + d.length <= |buf| && buf[pos..pos + d.length] == DataRecord(typ, d.specs, vs)
    ensures Step(buf, pos, reg) == Advance(d.length, reg, Message(d, Pack(d.specs, vs)))
    ensures Fields(Message(d, Pack(d.specs, vs))) == Ok(Labelled(d, vs))
  {
    var rec := DataRecord(typ, d.specs, vs);
    RecordAt(buf, pos, rec);
    assert Body(buf, pos, d.length) == Pack(d.specs, vs);
    DecodePacked(d, vs);
  }

  /** Where the two records of a schema-then-data stream sit. */
  /** The two steps over a schema record followed by a data record of its type. */
  lemma SchemaThenDataSteps(typ: Byte, length: Byte, name: seq<Byte>, format: seq<Byte>, labels: seq<seq<Byte>>,
                            vs: seq<Value>, reg: Registry)
    requires ValidSchema(typ, length, name, format, labels) && typ != TYPE_FORMAT
    requires |Translate(format).value| <= |labels|
    requires length as int == HEADER_LEN + TotalWidth(Translate(format).value)
    requires AllFit(Translate(format).value, vs)
    ensures var d := Descr(length, name, format, labels, Translate(format).value);
            var stream := SchemaRecord(typ, length, name, format, labels) + DataRecord(typ, d.specs, vs);
            && |stream| == FORMAT_PACKET_LEN + length as int
            && Step(stream, 0, reg) == Advance(FORMAT_PACKET_LEN, reg[typ := d], Registered(typ, d))
            && Step(stream, FORMAT_PACKET_LEN, reg[typ := d]) == Advance(length as nat, reg[typ := d], Message(d, Pack(d.specs, vs)))
            && Fields(Message(d, Pack(d.specs, vs))) == Ok(Labelled(d, vs))
  {
    hide Step;
    hide EncodeDescr;
    hide Pack;
    var d := Descr(length, name, format, labels, Translate(format).value);
    var schema := SchemaRecord(typ, length, name, format, labels);
    var data := DataRecord(typ, d.specs, vs);
    assert (schema + data)[0..|schema|] == schema;
    assert (schema + data)[|schema|..|schema| + |data|] == data;
    SchemaRecordRegisters(typ, length, name, format, labels, schema + data, 0, reg);
    DataRecordDecodes(typ, d, vs, schema + data, FORMAT_PACKET_LEN, reg[typ := d]);
  }

  /**
   * A schema record followed by a data record of its type decode to the
   * schema event and then the message holding exactly the values that were
   * packed, with both records consumed to the end of the buffer.
   */
  lemma SchemaThenData(typ: Byte, length: Byte, name: seq<Byte>, format: seq<Byte>, labels: seq<seq<Byte>>,
                       vs: seq<Value>, reg: Registry)
    requires ValidSchema(typ, length, name, format, labels) && typ != TYPE_FORMAT
    requires |Translate(format).value| <= |labels|
    requires length as int == HEADER_LEN + TotalWidth(Translate(format).value)
    requires AllFit(Translate(format).value, vs)
    ensures var d := Descr(length, name, format, labels, Translate(format).value);
            var stream := SchemaRecord(typ, length, name, format, labels) + DataRecord(typ, d.specs, vs);
            Drain(stream, 0, reg)
              == Drained(|stream|, reg[typ := d], [Registered(typ, d), Message(d, Pack(d.specs, vs))], Exhausted)
    ensures var d := Descr(length, name, format, labels, Translate(format).value);
            Fields(Message(d, Pack(d.specs, vs))) == Ok(Labelled(d, vs))
  {
    var d := Descr(length, name, format, labels, Translate(format).value);
    var stream := SchemaRecord(typ, length, name, format, labels) + DataRecord(typ, d.specs, vs);
    SchemaThenDataSteps(typ, length, name, format, labels, vs, reg);
    TwoRecordDrain(stream, reg, FORMAT_PACKET_LEN, reg[typ := d], Registered(typ, d),
                   length as nat, reg[typ := d], Message(d, Pack(d.specs, vs)));
  }

  /**
   * The example log of a schema record for type 1 ("TST", format "f", label
   * "VAL", length 7) and one record holding the float 3.5: one schema event,
   * then one message whose field keeps the bytes 00 00 60 40.
   */
  lemma FloatExample(reg: Registry)
    ensures var d := Descr(7, [84, 83, 84], [102], [[86, 65, 76]], [FieldSpec(Float32, None)]);
            var stream := SchemaRecord(1, 7, [84, 83, 84], [102], [[86, 65, 76]])
                          + DataRecord(1, [FieldSpec(Float32, None)], [Float32Bits([0x00, 0x00, 0x60, 0x40])]);
            Drain(stream, 0, reg)
              == Drained(96, reg[1 := d], [Registered(1, d), Message(d, [0x00, 0x00, 0x60, 0x40])], Exhausted)
    ensures var d := Descr(7, [84, 83, 84], [102], [[86, 65, 76]], [FieldSpec(Float32, None)]);
            Fields(Message(d, [0x00, 0x00, 0x60, 0x40])) == Ok([Field([86, 65, 76], Float32Bits([0x00, 0x00, 0x60, 0x40]))])
  {
    hide Step;
    var d := Descr(7, [84, 83, 84], [102], [[86, 65, 76]], [FieldSpec(Float32, None)]);
    var vs := [Float32Bits([0x00, 0x00, 0x60, 0x40])];
    FloatSchema();
    SchemaThenData(1, 7, d.name, d.format, d.labels, vs, reg);
  }

  /** The facts about the example's schema that the example needs. */
  lemma FloatSchema()
    ensures Translate([102]) == Ok([FieldSpec(Float32, None)])
    ensures ValidSchema(1, 7, [84, 83, 84], [102], [[86, 65, 76]])
    ensures TotalWidth([FieldSpec(Float32, None)]) == 4
    ensures Pack([FieldSpec(Float32, None)], [Float32Bits([0x00, 0x00, 0x60, 0x40])]) == [0x00, 0x00, 0x60, 0x40]
    ensures Labelled(Descr(7, [84, 83, 84], [102], [[86, 65, 76]], [FieldSpec(Float32, None)]), [Float32Bits([0x00, 0x00, 0x60, 0x40])])
              == [Field([86, 65, 76], Float32Bits([0x00, 0x00, 0x60, 0x40]))]
  {
    var format: seq<Byte> := [102];
    var specs := [FieldSpec(Float32, None)];
    var vs := [Float32Bits([0x00, 0x00, 0x60, 0x40])];
    assert Lookup(format[0]) == Some(FieldSpec(Float32, None));
    assert Supported(format);
    assert Translate(format).value == specs;
    assert Join([[86, 65, 76]], COMMA) == [86, 65, 76];
    assert TotalWidth(specs[1..]) == 0;
    assert Finish(vs[0], None) == vs[0];
  }

  // ---------------------------------------------------------------- more input after the buffer

  lemma SchemaStepExtend(buf: seq<Byte>, m: seq<Byte>, pos: nat, reg: Registry)
    requires pos + FORMAT_PACKET_LEN <= |buf|
    ensures SchemaStep(buf + m, pos, reg) == SchemaStep(buf, pos, reg)
  {
    assert (buf + m)[pos + HEADER_LEN..pos + FORMAT_PACKET_LEN] == buf[pos + HEADER_LEN..pos + FORMAT_PACKET_LEN];
  }

  lemma DataStepExtend(buf: seq<Byte>, m: seq<Byte>, pos: nat, reg: Registry, d: Descr)
    requires pos + d.length <= |buf|
    ensures DataStep(buf + m, pos, reg, d) == DataStep(buf, pos, reg, d)
  {
    assert Body(buf + m, pos, d.length) == Body(buf, pos, d.length);
  }

  /** A record that is consumed is consumed the same way when more bytes follow the buffer. */
  lemma StepExtend(buf: seq<Byte>, m: seq<Byte>, pos: nat, reg: Registry)
    requires pos + HEADER_LEN <= |buf| && Step(buf, pos, reg).Advance?
    ensures Step(buf + m, pos, reg) == Step(buf, pos, reg)
  {
    var v := buf + m;
    assert v[pos] == buf[pos] && v[pos + 1] == buf[pos + 1] && v[pos + 2] == buf[pos + 2];
    if buf[pos + 2] == TYPE_FORMAT {
      SchemaStepExtend(buf, m, pos, reg);
    } else {
      DataStepExtend(buf, m, pos, reg, reg[buf[pos + 2]]);
    }
  }

  /** The inner loop up to where `a` stopped, followed by the inner loop `b` from there. */
  function Then(a: Drained, b: Drained): Drained {
    Drained(b.end, b.reg, a.events + b.events, b.stop)
  }

  /**
   * Appending bytes to a buffer whose inner loop did not fail changes
   * nothing about the records already consumed: the loop on the longer
   * buffer goes on from where the loop on the shorter one stopped.
   */
  lemma {:induction false} DrainExtend(buf: seq<Byte>, m: seq<Byte>, pos: nat, reg: Registry)
    requires pos <= |buf| && !Drain(buf, pos, reg).stop.Failed?
    ensures var d := Drain(buf, pos, reg);
            Drain(buf + m, pos, reg) == Then(d, Drain(buf + m, d.end, d.reg))
    decreases |buf| - pos
  {
    hide Step;
    hide Drain;
    var d := Drain(buf, pos, reg);
    if BytesLeft(buf, pos) < HEADER_LEN || !Step(buf, pos, reg).Advance? {
      DrainStop(buf, pos, reg);
      assert [] + Drain(buf + m, pos, reg).events == Drain(buf + m, pos, reg).events;
    } else {
      var o := Step(buf, pos, reg);
      var rest := Drain(buf, pos + o.n, o.reg);
      var more := Drain(buf + m, rest.end, rest.reg);
      DrainRecord(buf, pos, reg, o.n, o.reg, o.event, rest);
      DrainExtend(buf, m, pos + o.n, o.reg);
      StepExtend(buf, m, pos, reg);
      DrainRecord(buf + m, pos, reg, o.n, o.reg, o.event, Then(rest, more));
      assert [o.event] + (rest.events + more.events) == [o.event] + rest.events + more.events;
    }
  }

  // ---------------------------------------------------------------- dropping the consumed prefix

  lemma SchemaStepShift(buf: seq<Byte>, k: nat, pos: nat, reg: Registry)
    requires k + pos + HEADER_LEN <= |buf|
    ensures SchemaStep(buf, k + pos, reg) == SchemaStep(buf[k..], pos, reg)
  {
    if k + pos + FORMAT_PACKET_LEN <= |buf| {
      assert buf[k + pos + HEADER_LEN..k + pos + FORMAT_PACKET_LEN] == buf[k..][pos + HEADER_LEN..pos + FORMAT_PACKET_LEN];
    }
  }

  lemma DataStepShift(buf: seq<Byte>, k: nat, pos: nat, reg: Registry, d: Descr)
    requires k + pos + d.length <= |buf|
    ensures DataStep(buf, k + pos, reg, d) == DataStep(buf[k..], pos, reg, d)
  {
    assert Body(buf, k + pos, d.length) == Body(buf[k..], pos, d.length);
  }

  /** A step depends only on the bytes from the read position on. */
  lemma StepShift(buf: seq<Byte>, k: nat, pos: nat, reg: Registry)
    requires k + pos + HEADER_LEN <= |buf|
    ensures Step(buf, k + pos, reg) == Step(buf[k..], pos, reg)
  {
    var w := buf[k..];
    assert w[pos] == buf[k + pos] && w[pos + 1] == buf[k + pos + 1] && w[pos + 2] == buf[k + pos + 2];
    var typ := buf[k + pos + 2];
    if typ == TYPE_FORMAT {
      SchemaStepShift(buf, k, pos, reg);
    } else if typ in reg && reg[typ].length <= |buf| - (k + pos) {
      DataStepShift(buf, k, pos, reg, reg[typ]);
    }
  }

  /**
   * The inner loop depends only on the bytes it has not consumed yet:
   * dropping a consumed prefix of `k` bytes shifts where it stops by `k`
   * and changes nothing else.
   */
  lemma {:induction false} DrainShift(buf: seq<Byte>, k: nat, pos: nat, reg: Registry)
    requires k + pos <= |buf|
    ensures var a := Drain(buf, k + pos, reg);
            var b := Drain(buf[k..], pos, reg);
            a == Drained(k + b.end, b.reg, b.events, b.stop)
    decreases |buf| - k - pos
  {
    hide Step;
    hide Drain;
    if BytesLeft(buf, k + pos) >= HEADER_LEN {
      StepShift(buf, k, pos, reg);
      var o := Step(buf, k + pos, reg);
      if o.Advance? {
        var rest := Drain(buf[k..], pos + o.n, o.reg);
        DrainShift(buf, k, pos + o.n, o.reg);
        DrainRecord(buf, k + pos, reg, o.n, o.reg, o.event, Drained(k + rest.end, rest.reg, rest.events, rest.stop));
        DrainRecord(buf[k..], pos, reg, o.n, o.reg, o.event, rest);
      } else {
        DrainStop(buf, k + pos, reg);
        DrainStop(buf[k..], pos, reg);
      }
    } else {
      DrainStop(buf, k + pos, reg);
      DrainStop(buf[k..], pos, reg);
    }
  }

  // ---------------------------------------------------------------- chunk boundaries

  /** The bytes of a sequence of chunks, in order. */
  function Concat(chunks: seq<seq<Byte>>): seq<Byte>
    decreases |chunks|
  {
    if chunks == [] then [] else chunks[0] + Concat(chunks[1..])
  }

  /** The chunks of a file hold exactly its bytes, in order. */
  lemma {:induction false} BlocksConcat(file: seq<Byte>)
    ensures Concat(Blocks(file)) == file
    decreases |file|
  {
    if |file| > BLOCK_SIZE {
      var rest := Blocks(file[BLOCK_SIZE..]);
      BlocksConcat(file[BLOCK_SIZE..]);
      assert ([file[..BLOCK_SIZE]] + rest)[1..] == rest;
      assert file[..BLOCK_SIZE] + file[BLOCK_SIZE..] == file;
    } else if file != [] {
      assert [file][1..] == [];
      assert file + [] == file;
    }
  }

  /** Every chunk but the last holds a full block. */
  lemma {:induction false} BlocksFull(file: seq<Byte>, i: nat)
    requires i + 1 < |Blocks(file)|
    ensures |Blocks(file)[i]| == BLOCK_SIZE
    decreases |file|
  {
    var rest := Blocks(file[BLOCK_SIZE..]);
    assert Blocks(file) == [file[..BLOCK_SIZE]] + rest;
    if i > 0 {
      BlocksFull(file[BLOCK_SIZE..], i - 1);
    }
  }

  /** The read at offset `off`: the next chunk, then the chunks of the rest of the file. */
  lemma BlocksFrom(file: seq<Byte>, off: nat)
    requires off < |file|
    ensures var n := if |file| - off < BLOCK_SIZE then |file| - off else BLOCK_SIZE;
            Blocks(file[off..]) == [file[off..off + n]] + Blocks(file[off + n..])
  {
    var rest := file[off..];
    if |rest| > BLOCK_SIZE {
      assert rest[..BLOCK_SIZE] == file[off..off + BLOCK_SIZE];
      assert rest[BLOCK_SIZE..] == file[off + BLOCK_SIZE..];
    } else {
      assert file[off..off + |rest|] == rest;
      assert file[off + |rest|..] == [] && Blocks([]) == [];
      assert [rest] + [] == [rest];
    }
  }

  /** The outer loop after the inner loop left `d` on the buffer `w`. */
  function Continue(d: Drained, w: seq<Byte>, cs: seq<seq<Byte>>): Session
    requires d.end <= |w|
  {
    if d.stop.Failed? then Session(d.events, w[d.end..], d.reg, Aborted(d.stop.error))
    else Prepend(d.events, Run(w[d.end..], d.reg, cs))
  }

  function Prepend(events: seq<Event>, s: Session): Session {
    Session(events + s.events, s.tail, s.reg, s.outcome)
  }

  /** One iteration of the outer loop, on a non-empty chunk. */
  lemma RunCons(tail: seq<Byte>, reg: Registry, c: seq<Byte>, cs: seq<seq<Byte>>)
    requires c != []
    ensures Run(tail, reg, [c] + cs) == Continue(Drain(tail + c, 0, reg), tail + c, cs)
  {
    assert ([c] + cs)[0] == c && ([c] + cs)[1..] == cs;
  }

  lemma PrependPrepend(a: seq<Event>, b: seq<Event>, s: Session)
    ensures Prepend(a + b, s) == Prepend(a, Prepend(b, s))
  {
    assert (a + b) + s.events == a + (b + s.events);
  }

  /** The suffix of a suffix is a suffix. */
  lemma SuffixOfSuffix(w: seq<Byte>, j: nat, k: nat)
    requires j + k <= |w|
    ensures w[j..][k..] == w[j + k..]
  {
  }

  /** Two inner loops in a row, the first one not failing, then the outer loop. */
  lemma ContinueThen(d1: Drained, d2: Drained, w: seq<Byte>, cs: seq<seq<Byte>>)
    requires !d1.stop.Failed? && d1.end <= |w| && d2.end <= |w| - d1.end
    ensures Continue(Drained(d1.end + d2.end, d2.reg, d1.events + d2.events, d2.stop), w, cs)
         == Prepend(d1.events, Continue(d2, w[d1.end..], cs))
  {
    var left := w[d1.end + d2.end..];
    SuffixOfSuffix(w, d1.end, d2.end);
    if d2.stop.Failed? {
      var tail := Session(d2.events, left, d2.reg, Aborted(d2.stop.error));
      assert Continue(d2, w[d1.end..], cs) == tail;
    } else {
      var s := Run(left, d2.reg, cs);
      assert Continue(d2, w[d1.end..], cs) == Prepend(d2.events, s);
      PrependPrepend(d1.events, d2.events, s);
    }
  }

  /** Two chunks in front of the rest, taken one at a time. */
  lemma ChunksCons(a: seq<Byte>, b: seq<Byte>, rest: seq<seq<Byte>>)
    ensures [a, b] + rest == [a] + ([b] + rest)
  {
  }

  /** Appending two chunks one after the other is appending them merged. */
  lemma AppendAssoc(x: seq<Byte>, y: seq<Byte>, z: seq<Byte>)
    ensures x + (y + z) == (x + y) + z
  {
  }

  /** The inner loop over the merged chunk: the loop over the first chunk, then over the rest. */
  lemma DrainMerged(w1: seq<Byte>, b: seq<Byte>, reg: Registry)
    requires !Drain(w1, 0, reg).stop.Failed?
    ensures var d1 := Drain(w1, 0, reg);
            var d2 := Drain(w1[d1.end..] + b, 0, d1.reg);
            d1.end + d2.end <= |w1 + b| &&
            Drain(w1 + b, 0, reg) == Drained(d1.end + d2.end, d2.reg, d1.events + d2.events, d2.stop) &&
            (w1 + b)[d1.end..] == w1[d1.end..] + b
  {
    hide Step;
    hide Drain;
    var d1 := Drain(w1, 0, reg);
    var w := w1 + b;
    assert w[d1.end..] == w1[d1.end..] + b;
    DrainExtend(w1, b, 0, reg);
    DrainShift(w, d1.end, 0, d1.reg);
  }

  /**
   * Cutting the input between two chunks instead of passing it as one chunk
   * makes no difference, unless the inner loop on the first part fails
   * (which a schema record cut by the boundary causes).
   */
  lemma RunMerge(tail: seq<Byte>, reg: Registry, a: seq<Byte>, b: seq<Byte>, rest: seq<seq<Byte>>)
    requires a != [] && b != []
    requires !Drain(tail + a, 0, reg).stop.Failed?
    ensures Run(tail, reg, [a, b] + rest) == Run(tail, reg, [a + b] + rest)
  {
    hide Step;
    hide Drain;
    hide Run;
    var w1 := tail + a;
    var d1 := Drain(w1, 0, reg);
    var w2 := w1[d1.end..] + b;
    var d2 := Drain(w2, 0, d1.reg);
    var w := w1 + b;
    DrainMerged(w1, b, reg);
    assert Run(tail, reg, [a + b] + rest) == Prepend(d1.events, Continue(d2, w2, rest)) by {
      AppendAssoc(tail, a, b);
      RunCons(tail, reg, a + b, rest);
      ContinueThen(d1, d2, w, rest);
    }
    assert Run(tail, reg, [a, b] + rest) == Prepend(d1.events, Continue(d2, w2, rest)) by {
      ChunksCons(a, b, rest);
      RunCons(tail, reg, a, [b] + rest);
      RunCons(w1[d1.end..], d1.reg, b, rest);
    }
  }

  /**
   * A step that fails with anything but an underflow fails the same way
   * whatever bytes follow the buffer: every such error is decided by bytes
   * already there.
   */
  lemma StepExtendFails(buf: seq<Byte>, m: seq<Byte>, pos: nat, reg: Registry)
    requires pos + HEADER_LEN <= |buf| && Step(buf, pos, reg).Fatal? && !Step(buf, pos, reg).error.BufferUnderflow?
    ensures Step(buf + m, pos, reg) == Step(buf, pos, reg)
  {
    var v := buf + m;
    assert v[pos] == buf[pos] && v[pos + 1] == buf[pos + 1] && v[pos + 2] == buf[pos + 2];
    var typ := buf[pos + 2];
    if typ == TYPE_FORMAT && pos + FORMAT_PACKET_LEN <= |buf| {
      SchemaStepExtend(buf, m, pos, reg);
    } else if typ != TYPE_FORMAT && typ in reg && reg[typ].length as int <= |buf| - pos {
      DataStepExtend(buf, m, pos, reg, reg[typ]);
    }
  }

  /**
   * An inner loop that fails with anything but an underflow does exactly
   * the same when more bytes follow the buffer.
   */
  lemma {:induction false} DrainExtendFails(buf: seq<Byte>, m: seq<Byte>, pos: nat, reg: Registry)
    requires pos <= |buf| && Drain(buf, pos, reg).stop.Failed? && !Drain(buf, pos, reg).stop.error.BufferUnderflow?
    ensures Drain(buf + m, pos, reg) == Drain(buf, pos, reg)
    decreases |buf| - pos
  {
    hide Step;
    hide Drain;
    if BytesLeft(buf, pos) >= HEADER_LEN {
      var o := Step(buf, pos, reg);
      if o.Advance? {
        var rest := Drain(buf, pos + o.n, o.reg);
        DrainRecord(buf, pos, reg, o.n, o.reg, o.event, rest);
        DrainExtendFails(buf, m, pos + o.n, o.reg);
        StepExtend(buf, m, pos, reg);
        DrainRecord(buf + m, pos, reg, o.n, o.reg, o.event, rest);
      } else {
        DrainStop(buf, pos, reg);
        if o.Fatal? {
          StepExtendFails(buf, m, pos, reg);
          DrainStop(buf + m, pos, reg);
        }
      }
    }
  }

  /**
   * Cutting the input between two chunks where the loop on the first part
   * fails with anything but an underflow: the decode prints the same
   * events and aborts with the same error; only the second chunk is left
   * over unread as well.
   */
  lemma RunMergeFails(tail: seq<Byte>, reg: Registry, a: seq<Byte>, b: seq<Byte>, rest: seq<seq<Byte>>)
    requires a != [] && b != []
    requires Drain(tail + a, 0, reg).stop.Failed? && !Drain(tail + a, 0, reg).stop.error.BufferUnderflow?
    ensures var split := Run(tail, reg, [a, b] + rest);
            var merged := Run(tail, reg, [a + b] + rest);
            && merged.events == split.events && merged.reg == split.reg && merged.outcome == split.outcome
            && merged.tail == split.tail + b
  {
    hide Step;
    hide Drain;
    hide Run;
    var w1 := tail + a;
    var d1 := Drain(w1, 0, reg);
    DrainExtendFails(w1, b, 0, reg);
    assert tail + (a + b) == w1 + b;
    RunCons(tail, reg, a + b, rest);
    assert [a, b] + rest == [a] + ([b] + rest);
    RunCons(tail, reg, a, [b] + rest);
    assert (w1 + b)[d1.end..] == w1[d1.end..] + b;
  }

  /** A schema record alone in the buffer registers and leaves nothing over. */
  lemma SchemaRecordAlone(typ: Byte, length: Byte, name: seq<Byte>, format: seq<Byte>, labels: seq<seq<Byte>>, reg: Registry)
    requires ValidSchema(typ, length, name, format, labels)
    ensures var d := Descr(length, name, format, labels, Translate(format).value);
            Drain(SchemaRecord(typ, length, name, format, labels), 0, reg)
              == Drained(FORMAT_PACKET_LEN, reg[typ := d], [Registered(typ, d)], Exhausted)
  {
    hide Step;
    hide Drain;
    var rec := SchemaRecord(typ, length, name, format, labels);
    var d := Descr(length, name, format, labels, Translate(format).value);
    assert rec[0..FORMAT_PACKET_LEN] == rec;
    SchemaRecordRegisters(typ, length, name, format, labels, rec, 0, reg);
    DrainStop(rec, FORMAT_PACKET_LEN, reg[typ := d]);
    var last := Drained(FORMAT_PACKET_LEN, reg[typ := d], [], Exhausted);
    DrainRecord(rec, 0, reg, FORMAT_PACKET_LEN, reg[typ := d], Registered(typ, d), last);
    assert [Registered(typ, d)] + [] == [Registered(typ, d)];
  }

  /** The first part of a cut schema record: the buffer underflows. */
  lemma SchemaRecordCut(typ: Byte, length: Byte, name: seq<Byte>, format: seq<Byte>, labels: seq<seq<Byte>>,
                        k: nat, reg: Registry)
    requires ValidSchema(typ, length, name, format, labels)
    requires HEADER_LEN <= k < FORMAT_PACKET_LEN
    ensures var rec := SchemaRecord(typ, length, name, format, labels);
            Drain([] + rec[..k], 0, reg) == Drained(0, reg, [], Failed(BufferUnderflow(k)))
  {
    var rec := SchemaRecord(typ, length, name, format, labels);
    assert [] + rec[..k] == rec[..k];
    assert rec[..k][0] == HEAD1 && rec[..k][1] == HEAD2 && rec[..k][2] == TYPE_FORMAT;
    ShortSchemaAborts(rec[..k], 0, reg);
  }

  /**
   * The exception to RunMerge: a schema record cut by a chunk boundary
   * aborts the decode, while the same bytes in one chunk decode.
   */
  lemma SplitSchemaRecordAborts(typ: Byte, length: Byte, name: seq<Byte>, format: seq<Byte>, labels: seq<seq<Byte>>,
                                k: nat, reg: Registry)
    requires ValidSchema(typ, length, name, format, labels)
    requires HEADER_LEN <= k < FORMAT_PACKET_LEN
    ensures var rec := SchemaRecord(typ, length, name, format, labels);
            && Run([], reg, [rec[..k], rec[k..]]).outcome == Aborted(BufferUnderflow(k))
            && Run([], reg, [rec]).outcome == Completed
  {
    hide Step;
    hide Drain;
    var rec := SchemaRecord(typ, length, name, format, labels);
    SchemaRecordCut(typ, length, name, format, labels, k, reg);
    assert [rec[..k], rec[k..]] == [rec[..k]] + [rec[k..]];
    RunCons([], reg, rec[..k], [rec[k..]]);
    SchemaRecordAlone(typ, length, name, format, labels, reg);
    assert [] + rec == rec && [rec] == [rec] + [];
    RunCons([], reg, rec, []);
  }

  /**
   * At the end of input the bytes of an unfinished record are dropped
   * without error: the decode completes and they are simply left over.
   */
  lemma TrailingBytesDropped(tail: seq<Byte>, reg: Registry, a: seq<Byte>)
    requires a != [] && !Drain(tail + a, 0, reg).stop.Failed?
    ensures var d := Drain(tail + a, 0, reg);
            Run(tail, reg, [a]) == Session(d.events, (tail + a)[d.end..], d.reg, Completed)
  {
    hide Step;
    var d := Drain(tail + a, 0, reg);
    assert [a][1..] == [];
    assert d.events + [] == d.events;
  }
}
