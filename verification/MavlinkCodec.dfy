/** The object that encodes messages and parses received bytes, as the source has it. */
module MavlinkCodec {
  import opened Bytes
  import opened Mavlink
  import opened X25

  class MAVLink {
    var seqNo: byte
    const sourceSystem: byte
    const sourceComponent: byte
    var buf: seq<byte>
    var bufIndex: nat
    var expectedLength: nat

    /** Everything in front of `bufIndex` has been handed out. */
    ghost predicate Valid()
      reads this
    {
      bufIndex <= |buf| && expectedLength >= 8
    }

    function Unread(): seq<byte>
      requires bufIndex <= |buf|
      reads this
    {
      buf[bufIndex..]
    }

    constructor (sourceSystem: byte := 0, sourceComponent: byte := 0)
      ensures Valid() && Unread() == [] && seqNo == 0
      ensures this.sourceSystem == sourceSystem && this.sourceComponent == sourceComponent
    {
      this.seqNo, this.sourceSystem, this.sourceComponent := 0, sourceSystem, sourceComponent;
      this.buf, this.bufIndex, this.expectedLength := [], 0, 8;
    }

    /** Fields that do not fit raise an error before anything changes. */
    method Encode(message: Message, forceMavlink1: bool := false) returns (packet: Option<seq<byte>>)
      modifies `seqNo
      ensures packet == if message.Fits()
                        then Some(Framed(message, forceMavlink1, old(seqNo), sourceSystem, sourceComponent)) else None
      ensures seqNo as int == if message.Fits() then (old(seqNo) as int + 1) % 256 else old(seqNo) as int
    {
      if !message.Fits() {
        return None;
      }
      var packed := PackMessage(message, forceMavlink1);
      seqNo := ((seqNo as int + 1) % 256) as byte;
      packet := Some(packed);
    }

    method PackMessage(message: Message, forceMavlink1: bool) returns (msgbuf: seq<byte>)
      requires message.Fits()
      ensures msgbuf == Framed(message, forceMavlink1, seqNo, sourceSystem, sourceComponent)
    {
      var payload := message.Payload();
      var plen: nat := |payload|;
      assert payload[..plen] == payload;
      if !forceMavlink1 {
        plen := SignificantLength(payload);
      }
      assert payload[..plen] == Shortened(message, forceMavlink1);
      var header := Header(forceMavlink1, plen as byte, seqNo, sourceSystem, sourceComponent, message.Id());
      msgbuf := header + payload[..plen];
      var crc := new X25Crc();
      crc.Accumulate(msgbuf[1..]);
      crc.Accumulate([CrcExtra(message.Id())]);
      Crc16Concat(msgbuf[1..], [CrcExtra(message.Id())], INITIAL);
      msgbuf := msgbuf + ToLe(crc.crc as int, 2);
    }

    /** Trailing zeros are not transmitted, except for the first byte. */
    static method SignificantLength(payload: seq<byte>) returns (plen: nat)
      requires payload != []
      ensures plen <= |payload| && payload[..plen] == Stripped(payload)
    {
      plen := |payload|;
      assert payload[..plen] == payload;
      while plen > 1 && payload[plen - 1] == 0
        invariant 1 <= plen <= |payload| && Stripped(payload[..plen]) == Stripped(payload)
      {
        assert payload[..plen][..plen - 1] == payload[..plen - 1];
        plen := plen - 1;
      }
    }

    /** Takes some bytes, and hands out the next packet if it is complete. */
    method ParseChar(c: seq<byte>) returns (m: Option<Packet>)
      requires Valid()
      modifies `buf, `bufIndex, `expectedLength
      ensures Valid() && m == First(old(Unread()) + c)
      ensures Unread() == (old(Unread()) + c)[if m.Some? then |m.value.raw| else 0..]
    {
      hide First;
      ghost var before := Unread();
      buf := buf + c;
      assert Unread() == before + c;
      m := ParseCharLegacy();
      if m == None && bufIndex == |buf| && bufIndex != 0 {
        buf, bufIndex := [], 0;
      }
    }

    method ParseCharLegacy() returns (m: Option<Packet>)
      requires Valid()
      modifies `bufIndex, `expectedLength
      ensures Valid() && m == First(old(Unread()))
      ensures Unread() == old(Unread())[if m.Some? then |m.value.raw| else 0..]
    {
      hide First, Decoded;
      ghost var s := Unread();
      var headerLength := 6;
      if |buf| - bufIndex >= 1 && buf[bufIndex] == MARKER_V2 {
        headerLength := 10;
      }
      if |buf| - bufIndex >= 1 && buf[bufIndex] != MARKER_V1 && buf[bufIndex] != MARKER_V2 {
        FirstStray(s);
        m := Some(Bad([buf[bufIndex]]));
        bufIndex := bufIndex + 1;
        expectedLength := headerLength + 2;
        return;
      }
      var incompatFlags := 0;
      if |buf| - bufIndex >= 3 {
        expectedLength, incompatFlags := buf[bufIndex + 1] as nat, buf[bufIndex + 2] as nat;
        if buf[bufIndex] == MARKER_V2 && incompatFlags % 2 == 1 {
          expectedLength := expectedLength + SIGNATURE_LENGTH;
        }
        expectedLength := expectedLength + headerLength + 2;
        assert expectedLength == FrameLength(s);
      }
      if expectedLength >= headerLength + 2 && |buf| - bufIndex >= expectedLength {
        FirstFrame(s);
        var packet := TakeFrame(incompatFlags);
        expectedLength := headerLength + 2;
        m := Some(packet);
      } else {
        FirstUnfinished(s);
        m := None;
      }
    }

    /** Takes a complete frame out of the buffer. */
    method TakeFrame(incompatFlags: nat) returns (packet: Packet)
      requires bufIndex + expectedLength <= |buf| && IsFrame(Unread()[..expectedLength])
      requires incompatFlags == buf[bufIndex + 2] as nat
      modifies `bufIndex
      ensures bufIndex == old(bufIndex) + expectedLength
      ensures packet == Decoded(old(Unread())[..expectedLength])
      ensures Unread() == old(Unread())[expectedLength..]
    {
      var mbuf := buf[bufIndex..bufIndex + expectedLength];
      assert mbuf == Unread()[..expectedLength];
      bufIndex := bufIndex + expectedLength;
      packet := HandleFrame(mbuf, incompatFlags);
    }

    static method HandleFrame(mbuf: seq<byte>, incompatFlags: nat) returns (packet: Packet)
      requires IsFrame(mbuf) && incompatFlags == mbuf[2] as nat
      ensures packet == Decoded(mbuf)
    {
      if mbuf[0] == MARKER_V2 && incompatFlags > 1 {
        return Bad(mbuf);
      }
      var decoded := Decode(mbuf);
      packet := if decoded.Some? then decoded.value else Bad(mbuf);
    }

    /** Nothing is returned for an error, which makes the packet bad data. A wrong length cannot occur. */
    static method Decode(msgbuf: seq<byte>) returns (m: Option<Packet>)
      requires IsFrame(msgbuf) && IncompatFlags(msgbuf) <= 1
      ensures Decoded(msgbuf) == if m.Some? then m.value else Bad(msgbuf)
      ensures Classified(if m.Some? then m.value else Bad(msgbuf))
    {
      hide Classified;
      DecodedIsClassified(msgbuf);
      var v2 := msgbuf[0] != MARKER_V1;
      var headerLength := if v2 then 10 else 6;
      var length := msgbuf[1];
      var at := if v2 then 4 else 2;
      var id := if v2 then FromLe(msgbuf[7..10]) else msgbuf[5] as nat;
      var signatureLength := if v2 && msgbuf[2] % 2 == 1 then SIGNATURE_LENGTH else 0;
      if length as int != |msgbuf| - (headerLength + 2 + signatureLength) {
        return None;
      }
      if SizeOf(id) == None {
        return Some(Unknown(msgbuf, id));
      }
      var end := |msgbuf| - 2 - signatureLength;
      var genuine := CheckCrc(msgbuf, end, id);
      if !genuine {
        return None;
      }
      var message := Unpack(id, msgbuf[headerLength..end]);
      if message == None {
        return None;
      }
      m := Some(Known(msgbuf, msgbuf[at], msgbuf[at + 1], msgbuf[at + 2], message.value));
    }

    static method CheckCrc(msgbuf: seq<byte>, end: nat, id: nat) returns (genuine: bool)
      requires IsFrame(msgbuf) && end == PayloadEnd(msgbuf) && id == IdOf(msgbuf)
      ensures genuine == ChecksumHolds(msgbuf)
    {
      var crc := new X25Crc();
      crc.Accumulate(msgbuf[1..end] + [CrcExtra(id)]);
      genuine := FromLe(msgbuf[end..end + 2]) == crc.crc as int;
    }

    static method Unpack(id: nat, payload: seq<byte>) returns (message: Option<Message>)
      requires SizeOf(id).Some?
      ensures message == FromPayload(id, Resized(payload, SizeOf(id).value))
    {
      var size, mbuf := SizeOf(id).value, payload;
      if |mbuf| < size {
        mbuf := mbuf + Fill(0, size - |mbuf|);
      }
      assert mbuf[..size] == Resized(payload, size);
      message := FromPayload(id, mbuf[..size]);
    }

    /** Takes some bytes, and hands out all packets that are complete; nothing if there is none. */
    method ParseBuffer(data: seq<byte>) returns (packets: Option<seq<Packet>>)
      requires Valid()
      modifies `buf, `bufIndex, `expectedLength
      ensures Valid()
      ensures (if packets == None then [] else packets.value, Unread()) == ParseAll(old(Unread()) + data)
      ensures packets.Some? ==> packets.value != [] && forall p :: p in packets.value ==> Classified(p)
    {
      hide First, Classified;
      PacketsAreClassified(Unread() + data);
      ghost var s := Unread() + data;
      var m := ParseChar(data);
      if m == None {
        return None;
      }
      var all := [m.value];
      assert Unread() + [] == Unread();
      while true
        invariant Valid() && all != []
        invariant ParseAll(s) == (all + ParseAll(Unread()).0, ParseAll(Unread()).1)
        decreases |Unread()|
      {
        ghost var unread := Unread();
        assert unread + [] == unread;
        m := ParseChar([]);
        if m == None {
          assert all + [] == all;
          return Some(all);
        }
        assert all + ([m.value] + ParseAll(Unread()).0) == (all + [m.value]) + ParseAll(Unread()).0;
        all := all + [m.value];
      }
    }
  }
}
