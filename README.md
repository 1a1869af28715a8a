# Broadcast payload codec of `tp4.cc`, modelled in Dafny

`scratch/tp4.cc` is an ns-3 program. Each Wi-Fi node broadcasts one packet
holding its send time, and every node in range logs the packet it receives.
Its own logic is small:

- a payload codec. `createPacket` writes a vector of doubles as text: each
  value but the last is followed by `','`; the last is followed by a NUL
  byte. `extractPayload`
  reads the packet as a C string, splits it at `','` with `boost::split`, and
  converts each segment with `std::atof`.
- two handlers. `sendPacket` encodes the one-value payload `[now]`.
  `ReceivePacket` decodes a packet and takes element 0 as the send time.
- the setup in `main`. It refuses more than 250 nodes, then schedules node
  `i` to send at simulated second `i`.

The model keeps the numbers abstract. A value of type `V` is written out by
a `render: V -> seq<char>` parameter, which stands for `ostream << double`.
A segment is read back by a `parse: seq<char> -> V` parameter, which stands
for `atof`. Every law is stated for an arbitrary `render` and `parse`. The
round-trip laws assume only that a rendered value holds no `','` and no NUL
(`IsToken`). The identity law also assumes that `parse` undoes `render`. The
handlers use `V := real` for simulated time. Packet bytes are `seq<char>`.

Files:

- `framing.dfy` (module `Framing`): pure functions for joining with a
  separator (`Join`), splitting at a delimiter set the way `boost::split`
  does (`Split`), and reading a C string (`UntilNul`). The framing laws are
  lemmas here.
- `codec.dfy` (module `Codec`): the specification functions `Encode`,
  `Segments` and `Decode`. It has the two source functions as methods with
  loops, `CreatePacket` and `ExtractPayload`, each proved equal to its
  specification. It also has the counting and round-trip lemmas.
- `endpoint.dfy` (module `Endpoint`): `SendPacket`, `ReceivePacket`, and
  `Deliver`, which is one send handed unchanged to one receiver.
- `setup.dfy` (module `Setup`): the node-count guard and the scheduling loop.

Edge cases, as the code handles them:

- `createPacket` accepts an empty vector and emits zero bytes, so
  `Encode([])` is `[]` and `CreatePacket` has no precondition.
- `extractPayload` cuts the text at the first NUL (`tp4.cc:83`) before it
  splits, so there is no trailing empty segment. `CutAtTerminator` and
  `SegmentsOfEncode` state this.
- The delimiter argument is the literal `",\0 "`. Boost reads such a literal
  only up to its embedded NUL, so the decoder splits at `','` alone
  (`SplitDelimiters`). `SegmentsUnderLiteralDelimiters` shows that reading
  all three characters gives the same segments on any text without a space.
  Rendered numbers contain no space.

## Model

| member | source | states |
|---|---|---|
| Framing.Split | scratch/tp4.cc:85 | `boost::split` always yields at least one segment, even for empty text |
| Framing.UntilNul | scratch/tp4.cc:83 | the string built from the buffer is the prefix before the first NUL: shorter than the buffer, a prefix of it, NUL-free, and followed in the buffer by a NUL |
| Framing.SplitCount | scratch/tp4.cc:85 | there is one segment more than there are delimiter characters |
| Framing.SplitSegmentsFree | scratch/tp4.cc:85 | no segment contains a delimiter character |
| Framing.SplitSameDelimiters | scratch/tp4.cc:85 | two delimiter sets that agree on every character of the text produce the same segments |
| Framing.SplitJoin | scratch/tp4.cc:63-85 | splitting undoes joining when no segment contains a delimiter |
| Framing.JoinSplit | scratch/tp4.cc:63-85 | joining the segments with the separator returns the split text exactly |
| Framing.JoinLength | scratch/tp4.cc:63-70 | the joined text is the total segment length plus one separator for each pair of neighbours |
| Framing.JoinCount | scratch/tp4.cc:63-70 | when the segments are free of a character set, the joined text contains n-1 of those characters if the separator belongs to the set, and none otherwise |
| Framing.UntilNulIgnoresSuffix | scratch/tp4.cc:83 | bytes after the first NUL do not change the string |
| Framing.UntilNulOfTerminated | scratch/tp4.cc:83 | a NUL-free text followed by a NUL is read back exactly, whatever comes after the NUL |
| Codec.CreatePacket | scratch/tp4.cc:58-72 | the index loop builds exactly `Encode` of the rendered values: ',' after each value but the last, NUL after the last, and the whole string including the NUL becomes the packet |
| Codec.ExtractPayload | scratch/tp4.cc:78-91 | the push_back loop returns one value per segment, in order, with element k the parse of segment k, and at least one value |
| Codec.EncodeLength | scratch/tp4.cc:63-71 | the packet length is the sum of the token lengths plus one byte per value, for every payload including the empty one |
| Codec.EncodeDelimiters | scratch/tp4.cc:63-70 | for n >= 1 tokens the packet has exactly n-1 commas and exactly one NUL, and the NUL is the last byte |
| Codec.CutAtTerminator | scratch/tp4.cc:83 | for an encoded packet, reading the C string drops exactly the final byte |
| Codec.DecodeIgnoresTrailing | scratch/tp4.cc:83 | nothing after the first NUL changes the decoded values |
| Codec.DecodeCount | scratch/tp4.cc:85-89 | the decoder returns the comma count plus one values, so never zero and `payload.at(0)` is always defined |
| Codec.SegmentsUnderLiteralDelimiters | scratch/tp4.cc:85 | splitting at ',', NUL and space gives the same segments as splitting at ',' whenever the string holds no space |
| Codec.SegmentsRejoin | scratch/tp4.cc:83-85 | rejoining the segments with ',' restores the C string exactly |
| Codec.SegmentsOfEncode | scratch/tp4.cc:58-85 | the segments of an encoded packet are exactly the tokens, in order and with the same count, when no token contains ',' or NUL |
| Codec.DecodeEncode | scratch/tp4.cc:58-89 | decoding an encoded payload gives as many values as the payload has, value k being the parse of the rendering of value k |
| Codec.DecodeEncodeIdentity | scratch/tp4.cc:58-89 | when parsing undoes rendering on the payload, decoding undoes encoding |
| Codec.EncodeInjective | scratch/tp4.cc:58-72 | two token lists with the same packet are equal, for every payload including the empty one |
| Codec.SegmentsOfMalformedPacket | scratch/tp4.cc:83-85 | "3.5,oops" followed by NUL has the segments "3.5" and "oops" |
| Codec.MalformedSegmentReadsAsZero | scratch/tp4.cc:86-89 | with a parser that, like `atof`, gives zero for text that cannot start a number, "3.5,oops" decodes to [parse("3.5"), zero] and does not fail |
| Endpoint.SendPacket | scratch/tp4.cc:111-120 | the packet is the one-value payload [now] encoded: the rendered time followed by NUL |
| Endpoint.ReceivePacket | scratch/tp4.cc:97-105 | the decoded payload has an element 0, and the record holds the receiving node, the parse of the first segment as send time, and the current time |
| Endpoint.SentPacketDecodes | scratch/tp4.cc:100-116 | a packet from the send handler has the one segment "rendered send time" and decodes to exactly one value |
| Endpoint.Deliver | scratch/tp4.cc:97-120 | a packet passed unchanged from sendPacket to ReceivePacket yields the record (receiver, parse(render(send time)), receipt time), which is the send time itself when parsing undoes rendering |
| Setup.ScheduleSends | scratch/tp4.cc:140-225 | the configuration is refused exactly when nWifi > 250 (:140-144), and then nothing is scheduled; otherwise the loop (:209-225) schedules nWifi sends, entry k being node k at second k |
| Setup.SendTimesIncrease | scratch/tp4.cc:209-225 | send times strictly increase with node id, so they are distinct |
| Setup.EachNodeSendsOnce | scratch/tp4.cc:209-225 | every node id below nWifi sends exactly once, and no other id sends |

## Left out

- `scratch/tp1.cc` in full: it sets up nodes, echo applications, mobility and tracing, and has no protocol logic.
- The ns-3 machinery in `tp4.cc` is left out: the simulator's event queue, `Run`, `Stop` and `Destroy`; socket creation, bind, connect, broadcast and `Recv`; `Packet` and `CopyData`; Wi-Fi channel, PHY, MAC and range propagation; mobility; IPv4 addressing and routing; pcap, ASCII tracing and animation. These are calls into a library whose code is not part of this model. The schedule is only the list of (node, second) pairs the loop registers.
- Dispatch by the simulator is not modelled. This includes the stop at second 10 (`tp4.cc:227`), which keeps nodes with ids above 10 from sending when the simulator stops on time.
- Which nodes receive a broadcast is not modelled, since the channel model decides it. `Deliver` is one sender and one receiver with the bytes passed over unchanged.
- Node ids are assumed equal to the loop index `i`. The Wi-Fi nodes are the only nodes the program creates, so ns-3 numbers them 0 to nWifi-1.
- Floating point is abstract. `ostream << double` rendering (six significant digits, so the real-number round trip is lossy) becomes the `render` parameter. `atof` prefix parsing becomes the `parse` parameter. Codec.MalformedSegmentReadsAsZero: states the "non-number gives 0" behaviour of `atof` only as a hypothesis on `parse`, for text whose first character cannot start a number. It says nothing about numeric prefixes such as "3x".
- Latency (receipt time minus send time) is not modelled. It depends on the simulator's clock and on the lossy rendering of the send time.
- A packet without a NUL byte is excluded by a precondition on `ExtractPayload` and `ReceivePacket`. The source would read past the end of its buffer there, which is undefined behaviour.
- Logging (`NS_LOG_*`), command-line parsing, and the heap buffer that `extractPayload` never frees are left out.
- The 32-bit `uint` loop counters in `createPacket` and `extractPayload` are modelled as unbounded. They would only wrap for vectors of 2^32 elements or more. The `main` loop counter is modelled as `uint32`.
