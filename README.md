# Serial-MIDI decoder of the Arduino MIDI sound module

This project models the MIDI input decoder of the sound module
(`arduino-midi-sound-module/midi.h`, class `Midi`) and proves what it does with
a serial MIDI byte stream.

The decoder reads one wire byte at a time. A byte with the high bit set is a
status byte: it starts a channel voice message (0x8n to 0xEn) or a system
message (0xFn, "Extended"). A byte with the high bit clear is a data byte: it is
stored in a 32-byte buffer while the current message still expects data. When
the last expected data byte arrives, the message is handed to exactly one of the
handlers `noteOff`, `noteOn`, `controlChange`, `programChange` or `pitchBend`,
or to none of them. A system message collects up to 32 data bytes and is handed
to `sysex` when the next status byte arrives. That status byte is consumed as
the terminator. `dispatch()` drains the receive queue and decodes each byte in
order.

The model has three modules:

- `MidiProtocol` (`midi_protocol.dfy`): the message kinds (`MidiStatus`), the
  data-length table, the handler calls (`Event`), the decoder state as a value
  (`DecoderState`) and the pure functions. `Step` decodes one byte.
  `DispatchCommand` selects the handler call for a completed message.
  `PitchBendValue` is the `int16_t` pitch-bend arithmetic. `Run` is the left
  fold of `Step` over a byte stream.
- `MidiDecoder` (`midi_decoder.dfy`): the class `Midi`. Its instance fields
  `midiStatus`, `midiChannel`, `midiDataRemaining`, `midiDataIndex` and the
  array `midiData` stand for the static members of the same names (lines
  172-176); one `Midi` object is the single decoder, and its fields are updated
  in place. `Decode` and `Dispatch` are proved equal
  to `Step` and `Run`. The field `log` records the handler calls made, oldest
  first, in place of the handlers themselves.
- `MidiProperties` (`midi_properties.dfy`): the guarantees, stated over `Step`
  and `Run` and proved as lemmas. It also holds two reference definitions,
  `ExpectedDataLength` and `ChannelVoiceEvents`, written independently of the
  decoder's table and switch; several lemmas compare the decoder against them.
  From the MIDI 1.0 Detailed Specification they take the data lengths of
  0x8n..0xEn (two bytes, one for program change and channel pressure) and the
  note-on with velocity 0 that means note-off. The rest follows `midi.h`'s own
  choices: 32 data bytes for 0xFn, which is `maxMidiData` (lines 158, 169),
  where system exclusive has variable length in MIDI; the handler each message
  goes to (lines 181-209); and no call for key or channel pressure (the
  `default` at line 211).

Types: wire bytes, stored data bytes and the channel are `bv8`, so the source's
`& 0x80`, `>> 4` and `& 0x0F` appear exactly as written. The counters
`midiDataRemaining` and `midiDataIndex` are a `uint8` newtype over `int`; every
`+ 1` and `- 1` on them is proved to stay in range. The pitch-bend value is an
`int16` newtype. Its computation uses `bv16` shift and or; `PitchBendNoWrap`
proves that for any two bytes each intermediate value of the `int16_t`
arithmetic of lines 195-198 fits: `d1 << 7` loses no bits, the or with `d0` is
at most 0x7FFF, and the final value lies in [-0x2000, 0x5FFF].

Facts about `midi.h` that a reader might not expect:

- Sysex accumulation is bounded: the table entry for 0xFn is `maxMidiData`
  (32, lines 158 and 169, looked up at line 249), and a data byte is stored
  only while the expected count is non-zero (lines 253-255), so at most 32
  data bytes are stored and every later one is dropped. `SysexCollects` and `SysexMessage` prove
  truncation to 32 bytes. `DataByteAccepted` proves that every write is in
  bounds.
- The status byte that ends a sysex resets neither the write index nor the
  expected count (lines 242-246). The decoder then holds status Unknown while
  still expecting `32 - index` data bytes. Such data bytes are stored but never
  reach a handler (`UnknownNeverDispatches`).
- Any 0xFn byte, including real-time bytes such as 0xF8, starts an Extended
  message (line 248). Any status byte, not only 0xF7, ends one and is swallowed
  (lines 242-245, `SysexTerminatorConsumedScenario`).

## Model

| member | source | states |
|---|---|---|
| MidiProtocol.StatusOfCode | arduino-midi-sound-module/midi.h:144-154 | the kind `static_cast` gives each code 0..7 has that enumerator value (the values `MidiStatus.Code` lists, lines 144-154) and is never Unknown |
| MidiProtocol.PitchBendValue | arduino-midi-sound-module/midi.h:194-199 | the final value, `d1 << 7` or-ed with `d0` minus 0x2000, is an `int16_t` for any two bytes; for 7-bit bytes the value lies in [-8192, 8191] |
| MidiProtocol.DispatchCommand | arduino-midi-sound-module/midi.h:178-212 | a handler is called exactly for NoteOff, NoteOn, ControlChange, ProgramChange and PitchBend, never `sysex`, always on the message's channel; a note-on is never passed a zero velocity |
| MidiProtocol.Step | arduino-midi-sound-module/midi.h:240-261 | one decoded byte keeps the buffer bound `index + remaining <= 32` and the 4-bit channel of a known status, and makes at most one handler call |
| MidiProtocol.Run | arduino-midi-sound-module/midi.h:264-269 | decoding a stream in order keeps the decoder invariant and makes at most one handler call per byte |
| MidiProtocol.RunSnoc | arduino-midi-sound-module/midi.h:264-268 | one more dequeued byte is one more decode step, its calls appended after the earlier ones |
| MidiDecoder.Midi.constructor | arduino-midi-sound-module/midi.h:272-276 | the initial state: Unknown, channel 0xFF, nothing expected, index 0, a zeroed buffer, no handler calls |
| MidiDecoder.Midi.Decode | arduino-midi-sound-module/midi.h:240-261 | updating the fields and the array in place gives exactly the state `Step` gives, and appends exactly its handler calls |
| MidiDecoder.Midi.Dispatch | arduino-midi-sound-module/midi.h:264-269 | draining the queue decodes every byte in FIFO order: the new state and the calls are those of the left fold `Run` |
| MidiProperties.InitValid | arduino-midi-sound-module/midi.h:272-276 | the initial state satisfies the decoder invariant and its buffer is 7-bit |
| MidiProperties.RunAppend | arduino-midi-sound-module/midi.h:264-268 | decoding `a + b` is decoding `a`, then `b` from the state `a` left; draining in several calls equals draining once |
| MidiProperties.StatusByteStartsMessage | arduino-midi-sound-module/midi.h:241-251 | a status byte outside a sysex sets the status to `(b >> 4) - 8` (never Unknown), the channel to `b & 0x0F` (< 16), the index to 0 and the expected count to the entry of the `midiStatusToDataLength` table (lines 161-170) that `ExpectedDataLength` also gives (2, 2, 2, 2, 1, 1, 2 or 32), keeps the buffer and calls no handler |
| MidiProperties.StatusByteEndsSysex | arduino-midi-sound-module/midi.h:242-246 | a status byte inside a sysex makes exactly one `sysex` call with `midiData[0..midiDataIndex)`, sets Unknown and leaves channel, index, expected count and buffer unchanged |
| MidiProperties.OrphanDataByteIgnored | arduino-midi-sound-module/midi.h:253 | a data byte while nothing is expected changes nothing and calls no handler |
| MidiProperties.DataByteAccepted | arduino-midi-sound-module/midi.h:253-258 | an expected data byte is written in bounds at the index and nowhere else; index + 1, remaining - 1, status and channel kept; a handler is called only when remaining reaches 0, and then it is the dispatched command |
| MidiProperties.NoRunningStatus | arduino-midi-sound-module/midi.h:253-258 | completing a message keeps its status and leaves nothing expected, so the next data byte without a status byte is dropped |
| MidiProperties.DataBytesAloneIgnored | arduino-midi-sound-module/midi.h:253-259 | any run of data bytes while nothing is expected leaves the state unchanged and calls no handler |
| MidiProperties.DataBytesFromInitIgnored | arduino-midi-sound-module/midi.h:272-276 | from the initial state, data bytes alone never call a handler and never change the state |
| MidiProperties.StepKeepsSevenBit | arduino-midi-sound-module/midi.h:252-255 | only data bytes are stored, so the buffer stays 7-bit |
| MidiProperties.RunKeepsSevenBit | arduino-midi-sound-module/midi.h:264-268 | the buffer stays 7-bit across any byte stream |
| MidiProperties.StepEventsWellFormed | arduino-midi-sound-module/midi.h:178-212 | every call made by one step has arguments in the handler ranges: channel < 16, 7-bit data, non-zero note-on velocity, pitch bend in [-8192, 8191], sysex of at most 32 7-bit bytes |
| MidiProperties.RunEventsWellFormed | arduino-midi-sound-module/midi.h:240-261 | on any input from a reachable state, every handler call has arguments in those ranges; no sysex exceeds 32 bytes |
| MidiProperties.SysexDataStep | arduino-midi-sound-module/midi.h:249-258 | inside a sysex a data byte is appended while there is room and dropped once 32 are held; it never triggers a call |
| MidiProperties.SysexCollects | arduino-midi-sound-module/midi.h:241-258 | after 0xFn and data bytes `ds`, the decoder is Extended, holds exactly the first min(length of `ds`, 32) bytes of `ds` and has called nothing |
| MidiProperties.UnknownNeverDispatches | arduino-midi-sound-module/midi.h:242-258 | after a sysex ends, data bytes never reach a handler until a new status byte arrives |
| MidiProperties.SysexMessage | arduino-midi-sound-module/midi.h:241-258 | 0xFn, data `ds`, then any status byte make exactly one `sysex` call carrying `ds` truncated to 32 bytes, and the decoder returns to Unknown |
| MidiProperties.DispatchAgreesWithTable | arduino-midi-sound-module/midi.h:178-212 | for a completed channel voice message, the dispatched command is the call `ChannelVoiceEvents` gives the message |
| MidiProperties.ChannelMessageSteps | arduino-midi-sound-module/midi.h:240-261 | byte by byte through one channel voice message: no call before the last data byte, then the call `ChannelVoiceEvents` gives, with nothing left expected |
| MidiProperties.CompleteChannelMessage | arduino-midi-sound-module/midi.h:178-212 | outside a sysex, a status byte 0x8n..0xEn with its data bytes makes exactly the call `ChannelVoiceEvents` gives (note-on velocity 0 as note-off; nothing for key or channel pressure) and leaves the decoder waiting for a status byte |
| MidiProperties.PitchBendNoWrap | arduino-midi-sound-module/midi.h:195-198 | for any two bytes, `d1 << 7` loses no bits, the or with `d0` is at most 0x7FFF and the final value lies in [-0x2000, 0x5FFF], so no step of the `int16_t` computation overflows |
| MidiProperties.PitchBendArithmetic | arduino-midi-sound-module/midi.h:194-199 | for 7-bit bytes the value is `d1 * 128 + d0 - 0x2000`, in [-8192, 8191] |
| MidiProperties.PitchBendRoundTrip | arduino-midi-sound-module/midi.h:194-199 | splitting `v + 0x2000` into its low and high seven bits gives two data bytes that decode back to `v` |
| MidiProperties.PitchBendMessageRoundTrip | arduino-midi-sound-module/midi.h:194-199 | feeding `[0xEn, lsb, msb]` for an encoded `v` makes exactly the call `pitchBend(n, v)` |
| MidiProperties.NoteOnScenario | arduino-midi-sound-module/midi.h:186-193 | `[0x90, 0x3C, 0x40]` from start makes exactly `noteOn(0, 60, 64)` |
| MidiProperties.NoteOnZeroVelocityScenario | arduino-midi-sound-module/midi.h:186-189 | `[0x90, 0x3C, 0x00]` from start makes exactly `noteOff(0, 60)` |
| MidiProperties.ControlChangeScenario | arduino-midi-sound-module/midi.h:202-205 | `[0xB0, 0x07, 0x7F]` from start makes exactly `controlChange(0, 7, 127)` |
| MidiProperties.SysexScenario | arduino-midi-sound-module/midi.h:242-246 | `[0xF0, 0x01, 0x02, 0xF7]` from start makes exactly `sysex(2, [0x01, 0x02])` and ends in Unknown |
| MidiProperties.RunningStatusScenario | arduino-midi-sound-module/midi.h:253-258 | a second note sent without its own status byte is dropped: only the first `noteOn` is made |
| MidiProperties.SysexTerminatorConsumedScenario | arduino-midi-sound-module/midi.h:242-246 | a note-on status byte that ends a sysex is consumed, so only the `sysex` call is made |

## Left out

- `Midi::begin` (lines 223-231) writes the AVR USART baud and frame registers. This is hardware configuration.
- `Midi::enqueue` and the `USART_RX_vect` interrupt handler (lines 234-236, 280-282) copy `UDR0` into the queue. The concurrency between this producer and the `dispatch` loop is not modelled; `Dispatch` takes the bytes the queue yields, oldest first.
- The `RingBuffer<uint8_t, 6>` queue: `ringbuffer.h` is not part of this model. The model does not cover its capacity or whatever it does when full (`enqueue`, lines 234-236, ignores the result of `_midiBuffer.enqueue`); only its FIFO order is assumed.
- The handler bodies `noteOn`, `noteOff`, `controlChange`, `pitchBend`, `programChange` and `sysex` (lines 137-142) are external. Each call is recorded as an `Event` in `log`. `sysex(cbData, bytes)` becomes `Sysex(payload)` with `|payload| == cbData`.
- The running-status code at lines 214-217 is commented out. It is not modelled as behaviour; its absence is proved as `NoRunningStatus`.
