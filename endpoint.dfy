/**
 * The send and receive handlers of scratch/tp4.cc. A node's send handler
 * encodes a payload holding only the current simulated time; a node's
 * receive handler decodes a packet and reads its first value as the time
 * the packet was sent.
 *
 * Simulated times are doubles in the source and `real` here; the clock
 * value, the receiving node's id and the packet handed over by the socket
 * are parameters, since the simulator and the sockets are not modelled.
 */
module Endpoint {
  import opened Framing
  import opened Codec

  /** What a receive handler logs: receiving node, decoded send time, time of receipt. */
  datatype Delivery = Delivery(receiver: nat, sentAt: real, receivedAt: real)

  /** `sendPacket`: a one-value payload holding the current time, encoded. */
  method SendPacket(now: real, render: real -> seq<char>) returns (packet: seq<char>)
    ensures packet == Encode([render(now)])
    ensures packet == render(now) + [NullTerminator]
  {
    var data := [now];
    packet := CreatePacket(data, render);
    assert Tokens(data, render) == [render(now)];
  }

  /** `ReceivePacket`: the first decoded value is taken as the send time. */
  method ReceivePacket(packet: seq<char>, receiver: nat, now: real, parse: seq<char> -> real)
    returns (record: Delivery)
    requires NullTerminator in packet
    ensures |Decode(packet, parse)| >= 1
    ensures record == Delivery(receiver, parse(Segments(packet)[0]), now)
  {
    var payload := ExtractPayload(packet, parse);
    var recNodeId := receiver;
    var sendTime := payload[0];
    record := Delivery(recNodeId, sendTime, now);
  }

  /**
   * A packet from the send handler decodes to exactly one value: the parse
   * of the rendered send time.
   */
  lemma SentPacketDecodes(now: real, render: real -> seq<char>, parse: seq<char> -> real)
    requires IsToken(render(now))
    ensures NullTerminator in Encode([render(now)])
    ensures Segments(Encode([render(now)])) == [render(now)]
    ensures Decode(Encode([render(now)]), parse) == [parse(render(now))]
  {
    SegmentsOfEncode([render(now)]);
  }

  /**
   * One broadcast from sender to receiver, with the transport handing the
   * bytes over unchanged: the receiver logs its own id, the send time as
   * rendered and parsed, and its own clock.
   */
  method Deliver(sendTime: real, receiver: nat, receiptTime: real,
                 render: real -> seq<char>, parse: seq<char> -> real)
    returns (record: Delivery)
    requires IsToken(render(sendTime))
    ensures record == Delivery(receiver, parse(render(sendTime)), receiptTime)
    ensures parse(render(sendTime)) == sendTime ==> record.sentAt == sendTime
  {
    var packet := SendPacket(sendTime, render);
    SentPacketDecodes(sendTime, render, parse);
    record := ReceivePacket(packet, receiver, receiptTime, parse);
  }
}
