/** The serial-MIDI decoder of the sound module, as pure functions on an
    explicit decoder state: one step per wire byte (`Step`), the handler call
    a completed message selects (`DispatchCommand`), and the left fold of
    `Step` over a byte stream (`Run`). */
module MidiProtocol {

  /** A wire byte or a stored data byte (`uint8_t`, bit operations as written). */
  type byte = bv8

  /** A `uint8_t` used as a count or an index. */
  newtype uint8 = x: int | 0 <= x < 0x100

  /** The pitch-bend value type (`int16_t`). */
  newtype int16 = x: int | -0x8000 <= x < 0x8000

  /** Capacity of the data buffer, and the data length of an extended message. */
  const MaxMidiData: uint8 := 32

  /** The kinds of message; the declaration order is the enumerator value. */
  datatype MidiStatus =
    | NoteOff | NoteOn | PolyKeyPressure | ControlChange
    | ProgramChange | ChannelPressure | PitchBend | Extended | Unknown
  {
    /** The value of the enumerator `MidiStatus_<kind>`. */
    function Code(): nat
    {
      match this
      case NoteOff => 0
      case NoteOn => 1
      case PolyKeyPressure => 2
      case ControlChange => 3
      case ProgramChange => 4
      case ChannelPressure => 5
      case PitchBend => 6
      case Extended => 7
      case Unknown => 8
    }
  }

  /** `static_cast<MidiStatus>(code)` for the eight codes a status byte yields. */
  function StatusOfCode(code: nat): (st: MidiStatus)
    requires code < 8
    ensures st.Code() == code
    ensures st != MidiStatus.Unknown
  {
    if code == 0 then MidiStatus.NoteOff
    else if code == 1 then MidiStatus.NoteOn
    else if code == 2 then MidiStatus.PolyKeyPressure
    else if code == 3 then MidiStatus.ControlChange
    else if code == 4 then MidiStatus.ProgramChange
    else if code == 5 then MidiStatus.ChannelPressure
    else if code == 6 then MidiStatus.PitchBend
    else MidiStatus.Extended
  }

  /** Expected data bytes per status code, 0x8n .. 0xFn. */
  const MidiStatusToDataLength: seq<uint8> := [2, 2, 2, 2, 1, 1, 2, MaxMidiData]

  /** One call of an event handler; the log of these stands for the handlers. */
  datatype Event =
    | NoteOn(channel: byte, note: byte, velocity: byte)
    | NoteOff(channel: byte, note: byte)
    | ControlChange(channel: byte, controller: byte, value: byte)
    | PitchBend(channel: byte, bend: int16)
    | ProgramChange(channel: byte, program: byte)
    | Sysex(payload: seq<byte>)

  datatype Option<T> = None | Some(value: T)

  function OptionToSeq<T>(o: Option<T>): seq<T>
  {
    match o
    case None => []
    case Some(v) => [v]
  }

  /** The decoder's fields: status, channel, data bytes still expected, next
      write index, and the contents of the data buffer. */
  datatype DecoderState = DecoderState(
    status: MidiStatus,
    channel: byte,
    remaining: uint8,
    index: uint8,
    data: seq<byte>)

  /** The state every reachable decoder is in: the buffer has its fixed size,
      the pending writes fit into it, and a known status comes with a 4-bit
      channel. */
  predicate Valid(s: DecoderState)
  {
    && |s.data| == MaxMidiData as int
    && (s.status != MidiStatus.Unknown ==> s.channel < 16)
    && s.index as int + s.remaining as int <= MaxMidiData as int
  }

  /** The buffer holds only 7-bit data bytes (also kept by every step). */
  predicate SevenBit(data: seq<byte>)
  {
    forall i :: 0 <= i < |data| ==> data[i] < 0x80
  }

  /** The state at process start. */
  const Init: DecoderState :=
    DecoderState(MidiStatus.Unknown, 0xFF, 0, 0, seq(MaxMidiData as int, _ => 0))

  /** A byte with the high bit set begins a message. */
  predicate IsStatusByte(b: byte)
  {
    b & 0x80 != 0
  }

  /** Pitch-bend value: the 14-bit number `(d1 << 7) | d0`, re-biased by
      0x2000, computed in `int16_t`. The checked conversion to `int16` covers
      the final value; `PitchBendNoWrap` covers the intermediate ones. */
  function PitchBendValue(d0: byte, d1: byte): (v: int16)
    ensures d0 < 0x80 && d1 < 0x80 ==> -0x2000 <= v as int < 0x2000
  {
    var raw: bv16 := ((d1 as bv16) << 7) | (d0 as bv16);
    (raw as int - 0x2000) as int16
  }

  /** The handler call a completed message selects, if any. */
  function DispatchCommand(s: DecoderState): (e: Option<Event>)
    requires |s.data| == MaxMidiData as int
    ensures e.Some? <==> s.status in {MidiStatus.NoteOff, MidiStatus.NoteOn,
                                      MidiStatus.ControlChange, MidiStatus.ProgramChange,
                                      MidiStatus.PitchBend}
    ensures e.Some? ==> !e.value.Sysex? && e.value.channel == s.channel
    ensures e.Some? && e.value.NoteOn? ==> e.value.velocity != 0
  {
    var d0 := s.data[0];
    match s.status
    case NoteOff => Some(Event.NoteOff(s.channel, d0))
    case NoteOn =>
      if s.data[1] == 0 then Some(Event.NoteOff(s.channel, d0))
      else Some(Event.NoteOn(s.channel, d0, s.data[1]))
    case PitchBend => Some(Event.PitchBend(s.channel, PitchBendValue(d0, s.data[1])))
    case ControlChange => Some(Event.ControlChange(s.channel, d0, s.data[1]))
    case ProgramChange => Some(Event.ProgramChange(s.channel, d0))
    case _ => None
  }

  /** What one step produces: the new state and the handler calls made. */
  datatype Outcome = Outcome(state: DecoderState, events: seq<Event>)

  /** Decoding one wire byte. */
  function Step(s: DecoderState, b: byte): (r: Outcome)
    requires Valid(s)
    ensures Valid(r.state)
    ensures |r.events| <= 1
  {
    if IsStatusByte(b) then
      if s.status == MidiStatus.Extended then
        Outcome(s.(status := MidiStatus.Unknown), [Event.Sysex(s.data[..s.index])])
      else
        var st := StatusOfCode((b >> 4) as int - 8);
        Outcome(s.(status := st,
                   remaining := MidiStatusToDataLength[st.Code()],
                   index := 0,
                   channel := b & 0x0F),
                [])
    else if s.remaining > 0 then
      var t := s.(data := s.data[s.index := b], index := s.index + 1, remaining := s.remaining - 1);
      Outcome(t, if t.remaining == 0 then OptionToSeq(DispatchCommand(t)) else [])
    else
      Outcome(s, [])
  }

  /** Decoding a byte stream in order: the left fold of `Step`, collecting the
      handler calls in the order they are made. */
  function Run(s: DecoderState, bs: seq<byte>): (r: Outcome)
    requires Valid(s)
    ensures Valid(r.state)
    ensures |r.events| <= |bs|
    decreases |bs|
  {
    if bs == [] then Outcome(s, [])
    else
      var before := Run(s, bs[..|bs| - 1]);
      var last := Step(before.state, bs[|bs| - 1]);
      Outcome(last.state, before.events + last.events)
  }

  /** One more byte at the end of the stream is one more step. */
  lemma RunSnoc(s: DecoderState, bs: seq<byte>, b: byte)
    requires Valid(s)
    ensures Run(s, bs + [b]).state == Step(Run(s, bs).state, b).state
    ensures Run(s, bs + [b]).events == Run(s, bs).events + Step(Run(s, bs).state, b).events
  {
    assert (bs + [b])[..|bs|] == bs;
  }
}
