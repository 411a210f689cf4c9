/**
 * The framing rules of the stream driver, as functions of the buffer, the
 * read position `ptr` in it and the registry: what the record at `ptr` does
 * (Step), what the inner loop does from `ptr` on (Drain), and what the whole
 * decode does to a sequence of chunks (Run).
 */
module Framing {
  import opened Wrappers
  import opened Bytes
  import opened FormatTable
  import opened Records

  const BLOCK_SIZE: nat := 8192  // chunk size of the reader; chunks are an input here
  const HEADER_LEN: nat := 3
  const HEAD1: Byte := 0xA3
  const HEAD2: Byte := 0x95
  const FORMAT_PACKET_LEN: nat := 89
  const TYPE_FORMAT: Byte := 0x80

  /** `msg_descrs`: type byte to descriptor. */
  type Registry = map<Byte, Descr>

  /** What the decoder reports per consumed record. */
  datatype Event =
    | Registered(typ: Byte, descr: Descr)
    | Message(descr: Descr, body: seq<Byte>)  // a data record: its descriptor and its bytes after the header

  /** Result of examining the record at the read position. */
  datatype StepOutcome =
    | Advance(n: nat, reg: Registry, event: Event)  // the record is consumed: ptr moves by n
    | NeedMore                                       // incomplete data record: wait for the next chunk
    | Fatal(error: Error)

  /** The registry after one event: a schema record replaces the entry for its type. */
  function Apply(reg: Registry, ev: Event): Registry {
    if ev.Registered? then reg[ev.typ := ev.descr] else reg
  }

  /** The registry after the events of `events`, applied in order. */
  function Replay(reg: Registry, events: seq<Event>): Registry
    decreases |events|
  {
    if events == [] then reg else Replay(Apply(reg, events[0]), events[1..])
  }

  /** `_bytes_left`. */
  function BytesLeft(buf: seq<Byte>, pos: nat): int {
    |buf| - pos
  }

  /** The registration a schema payload (the 86 bytes after the header) asks for. */
  function Register(payload: seq<Byte>, reg: Registry): (r: StepOutcome)
    requires |payload| == DESCR_PAYLOAD_LEN
    ensures !r.NeedMore?
    ensures r.Advance? ==> r.n == FORMAT_PACKET_LEN && r.event.Registered? && r.event.typ == payload[0]
    ensures r.Advance? ==> r.reg == Apply(reg, r.event)
  {
    var parsed := ParseDescr(payload);
    if parsed.Err? then Fatal(parsed.error)
    else
      var (typ, d) := parsed.value;
      Advance(FORMAT_PACKET_LEN, reg[typ := d], Registered(typ, d))
  }

  /** `_parse_msg_descr` on a buffer whose record at `pos` has the schema type. */
  function SchemaStep(buf: seq<Byte>, pos: nat, reg: Registry): (r: StepOutcome)
    requires pos + HEADER_LEN <= |buf|
    ensures !r.NeedMore?
    ensures r.Advance? ==> r.n == FORMAT_PACKET_LEN && r.event.Registered? && r.reg == Apply(reg, r.event)
  {
    if |buf| < pos + FORMAT_PACKET_LEN then Fatal(BufferUnderflow(|buf| - pos))
    else Register(buf[pos + HEADER_LEN..pos + FORMAT_PACKET_LEN], reg)
  }

  /**
   * The bytes a data record of declared length `length` at `pos` is
   * unpacked from: `buffer[ptr+3:ptr+length]`, empty when `length` < 3.
   */
  function Body(buf: seq<Byte>, pos: nat, length: nat): seq<Byte>
    requires pos + length <= |buf|
  {
    if length >= HEADER_LEN then buf[pos + HEADER_LEN..pos + length] else []
  }

  /**
   * `_parse_msg` on a buffer holding at least the declared length from
   * `pos`: the record is consumed when its body decodes (DataStepDecodes),
   * and the decode error aborts otherwise.
   */
  function DataStep(buf: seq<Byte>, pos: nat, reg: Registry, d: Descr): (r: StepOutcome)
    requires pos + d.length <= |buf|
    ensures !r.NeedMore?
    ensures r.Advance? ==> r.n == d.length && r.event == Message(d, Body(buf, pos, d.length)) && r.reg == reg
  {
    var body := Body(buf, pos, d.length);
    if |body| != TotalWidth(d.specs) then Fatal(SizeMismatch(TotalWidth(d.specs), |body|))
    else if |d.labels| < |d.specs| then Fatal(MissingLabel(|d.labels|))
    else Advance(d.length, reg, Message(d, body))
  }

  /** The fields a message event prints: its body decoded with its descriptor. */
  function Fields(ev: Event): (r: Result<seq<Field>, Error>)
    requires ev.Message?
  {
    DecodeRecord(ev.descr, ev.body)
  }

  /**
   * A data record is consumed exactly when its body decodes; the fields of
   * its event are the decoded ones, and a decode error is the error that
   * aborts.
   */
  lemma DataStepDecodes(buf: seq<Byte>, pos: nat, reg: Registry, d: Descr)
    requires pos + d.length <= |buf|
    ensures var r := DataStep(buf, pos, reg, d);
            var dec := DecodeRecord(d, Body(buf, pos, d.length));
            && (r.Advance? <==> dec.Ok?)
            && (r.Advance? ==> Fields(r.event) == dec)
            && (r.Fatal? ==> dec == Err(r.error))
  {
  }

  /**
   * A data record of this type is decoded without moving the read position
   * (declared length 0, a body that decodes): the source repeats it forever.
   */
  predicate Spins(d: Descr) {
    d.length == 0 && TotalWidth(d.specs) == 0 && |d.specs| <= |d.labels|
  }

  /**
   * One iteration of the inner loop, with at least 3 bytes left. A record
   * that Spins would repeat forever in the source; here it is the error
   * Stuck.
   */
  function Step(buf: seq<Byte>, pos: nat, reg: Registry): (r: StepOutcome)
    requires pos + HEADER_LEN <= |buf|
    ensures r.Advance? ==> 0 < r.n <= BytesLeft(buf, pos)
    ensures r.Advance? ==> r.reg == Apply(reg, r.event)
    ensures r.Advance? && r.event.Registered? ==> buf[pos + 2] == TYPE_FORMAT && r.n == FORMAT_PACKET_LEN
    ensures r.Advance? && r.event.Message? ==> buf[pos + 2] != TYPE_FORMAT && buf[pos + 2] in reg && r.n == reg[buf[pos + 2]].length
    ensures r.NeedMore? ==> buf[pos + 2] != TYPE_FORMAT && buf[pos + 2] in reg && BytesLeft(buf, pos) < reg[buf[pos + 2]].length
  {
    var head1, head2, typ := buf[pos], buf[pos + 1], buf[pos + 2];
    if head1 != HEAD1 || head2 != HEAD2 then Fatal(InvalidHeader(head1, head2))
    else if typ == TYPE_FORMAT then SchemaStep(buf, pos, reg)
    else if typ !in reg then Fatal(UnknownMsgType(typ))
    else if BytesLeft(buf, pos) < reg[typ].length then NeedMore
    else if Spins(reg[typ]) then Fatal(Stuck(typ))
    else DataStep(buf, pos, reg, reg[typ])
  }

  /** Why the inner loop stopped. */
  datatype Stop =
    | Exhausted         // fewer than 3 bytes left
    | Incomplete        // an incomplete data record: `break`, read the next chunk
    | Failed(error: Error)

  /** The effect of the inner loop: where ptr ends, the registry, the events, and why it stopped. */
  datatype Drained = Drained(end: nat, reg: Registry, events: seq<Event>, stop: Stop)

  /**
   * The inner loop from `pos`: records are consumed while at least 3 bytes
   * are left, until one is incomplete or fails.
   */
  function Drain(buf: seq<Byte>, pos: nat, reg: Registry): (r: Drained)
    requires pos <= |buf|
    ensures pos <= r.end <= |buf|
    ensures r.stop == Exhausted <==> BytesLeft(buf, r.end) < HEADER_LEN
    decreases |buf| - pos
  {
    if BytesLeft(buf, pos) < HEADER_LEN then Drained(pos, reg, [], Exhausted)
    else
      var o := Step(buf, pos, reg);
      if o.NeedMore? then Drained(pos, reg, [], Incomplete)
      else if o.Fatal? then Drained(pos, reg, [], Failed(o.error))
      else
        var rest := Drain(buf, pos + o.n, o.reg);
        Drained(rest.end, rest.reg, [o.event] + rest.events, rest.stop)
  }

  /** The registry the inner loop leaves is the one its events build. */
  lemma {:induction false} DrainReplays(buf: seq<Byte>, pos: nat, reg: Registry)
    requires pos <= |buf|
    ensures Drain(buf, pos, reg).reg == Replay(reg, Drain(buf, pos, reg).events)
    decreases |buf| - pos
  {
    hide Step;
    if BytesLeft(buf, pos) >= HEADER_LEN {
      var o := Step(buf, pos, reg);
      if o.Advance? {
        var rest := Drain(buf, pos + o.n, o.reg);
        DrainReplays(buf, pos + o.n, o.reg);
        var evs := [o.event] + rest.events;
        assert evs[0] == o.event && evs[1..] == rest.events;
      }
    }
  }

  /** How the decode of a whole log ended: end of input, or an error that aborted it. */
  datatype Outcome = Completed | Aborted(error: Error)

  /** Everything the decoder reported, the bytes it left unconsumed, and the final registry. */
  datatype Session = Session(events: seq<Event>, tail: seq<Byte>, reg: Registry, outcome: Outcome)

  /**
   * The outer loop from a given tail and registry: each chunk is appended to
   * the unconsumed tail `buffer[ptr:]`, ptr restarts at 0, and the inner
   * loop runs; an empty chunk is the end of input, and whatever is still
   * buffered then is dropped.
   */
  function Run(tail: seq<Byte>, reg: Registry, chunks: seq<seq<Byte>>): (s: Session)
    ensures s.outcome.Aborted? ==> |s.tail| >= HEADER_LEN
    ensures s.reg == Replay(reg, s.events)
    decreases |chunks|
  {
    if chunks == [] || chunks[0] == [] then Session([], tail, reg, Completed)
    else
      var buf := tail + chunks[0];
      var d := Drain(buf, 0, reg);
      DrainReplays(buf, 0, reg);
      if d.stop.Failed? then Session(d.events, buf[d.end..], d.reg, Aborted(d.stop.error))
      else
        var s := Run(buf[d.end..], d.reg, chunks[1..]);
        ReplayAppend(reg, d.events, s.events);
        Session(d.events + s.events, s.tail, s.reg, s.outcome)
  }

  /** `process` on a sequence of chunks: the decode from an empty buffer and an empty registry. */
  function Decode(chunks: seq<seq<Byte>>): Session {
    Run([], map[], chunks)
  }

  /** The chunks `f.read(BLOCK_SIZE)` returns for a file, up to the empty read that ends the loop. */
  function Blocks(file: seq<Byte>): (chunks: seq<seq<Byte>>)
    ensures forall i :: 0 <= i < |chunks| ==> 0 < |chunks[i]| <= BLOCK_SIZE
    decreases |file|
  {
    if file == [] then []
    else if |file| <= BLOCK_SIZE then [file]
    else [file[..BLOCK_SIZE]] + Blocks(file[BLOCK_SIZE..])
  }

  /** `process(fn)`: the decode of a whole log file. */
  function DecodeFile(file: seq<Byte>): Session {
    Decode(Blocks(file))
  }

  lemma {:induction false} ReplayAppend(reg: Registry, a: seq<Event>, b: seq<Event>)
    ensures Replay(reg, a + b) == Replay(Replay(reg, a), b)
    decreases |a|
  {
    if a != [] {
      assert (a + b)[0] == a[0] && (a + b)[1..] == a[1..] + b;
      ReplayAppend(Apply(reg, a[0]), a[1..], b);
    } else {
      assert a + b == b;
    }
  }
}
