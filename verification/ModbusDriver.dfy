/**
 The driver of kernel/drivers/modbus.c over a serial line, modelled as the bytes sent and the bytes still to be
 received.
 */
module ModbusDriver {
  import opened Words
  import opened Bits
  import opened ShiftRegister
  import opened ModbusFrames

  class Line {
    var sent: seq<byte>
    var incoming: seq<byte>

    constructor (incoming: seq<byte>)
      ensures sent == [] && this.incoming == incoming
    {
      sent, this.incoming := [], incoming;
    }

    method UartSend(b: byte)
      modifies this`sent
      ensures sent == old(sent) + [b]
    {
      sent := sent + [b];
    }

    /** The driver waits for a byte; only waits that end are modelled. */
    method UartRecv() returns (b: byte)
      requires incoming != []
      modifies this`incoming
      ensures [b] + incoming == old(incoming)
    {
      b, incoming := incoming[0], incoming[1..];
    }

    method SendAll(buffer: array<byte>)
      modifies this`sent
      ensures sent == old(sent) + buffer[..]
    {
      var i := 0;
      while i < buffer.Length
        invariant 0 <= i <= buffer.Length
        invariant sent == old(sent) + buffer[..i]
      {
        UartSend(buffer[i]);
        i := i + 1;
      }
    }

    method ReceiveAll(buffer: array<byte>)
      requires |incoming| >= buffer.Length
      modifies this`incoming, buffer
      ensures buffer[..] + incoming == old(incoming)
    {
      var i := 0;
      while i < buffer.Length
        invariant 0 <= i <= buffer.Length && |incoming| >= buffer.Length - i
        invariant buffer[..i] + incoming == old(incoming)
      {
        ghost var before := incoming;
        buffer[i] := UartRecv();
        assert buffer[..i + 1] == buffer[..i] + [buffer[i]];
        i := i + 1;
      }
    }

    /** Bit by bit, over the first `length` bytes. */
    method ModbusCrc16(buffer: array<byte>, length: u32) returns (crc: u16)
      requires length <= buffer.Length
      ensures crc == Crc16(buffer[..length])
    {
      AbsorbFits(FIRST, buffer[..length]);
      var c: nat := 0xFFFF;
      var i := 0;
      while i < length
        invariant 0 <= i <= length
        invariant Absorb(P16, c, buffer[i..length]) == Crc16(buffer[..length])
      {
        assert buffer[i..length][0] == buffer[i] && buffer[i..length][1..] == buffer[i + 1..length];
        c := Xor(c, buffer[i]);
        c := EightShifts(c);
        i := i + 1;
      }
      crc := c;
    }

    method EightShifts(x: nat) returns (c: nat)
      ensures c == Steps(P16, x, 8)
    {
      c := x;
      var j: nat := 0;
      while j < 8
        invariant 0 <= j <= 8
        invariant Steps(P16, c, 8 - j) == Steps(P16, x, 8)
      {
        if c % 2 == 1 {
          c := c / 2;
          c := Xor(c, 0xA001);
        } else {
          c := c / 2;
        }
        j := j + 1;
      }
    }

    /** Puts the checksum of the first six bytes behind them, low byte first. */
    method Seal(request: array<byte>)
      requires request.Length == 8
      modifies request
      ensures request[..] == Frame(old(request[..6]))
    {
      var crc := ModbusCrc16(request, 6);
      ghost var m := request[..6];
      TwoBytes(crc);
      request[6] := crc % 256;
      request[7] := crc / 256 % 256;
      assert request[..6] == m;
      assert request[..] == request[..6] + [request[6], request[7]];
    }

    method Request(slave: byte, code: byte, first: u16, second: u16) returns (request: array<byte>)
      ensures fresh(request)
      ensures request[..] == Frame([slave, code, High(first), LowByte(first), High(second), LowByte(second)])
    {
      request := new byte[8](_ => 0);
      request[0], request[1], request[2], request[3], request[4], request[5] :=
        slave, code, first / 256 % 256, first % 256, second / 256 % 256, second % 256;
      assert request[..6] == [slave, code, High(first), LowByte(first), High(second), LowByte(second)];
      Seal(request);
    }

    /** Sends a read request, and decodes the seven bytes that come back. */
    method ReadHoldingRegister(slave: byte, register: u16) returns (value: u16)
      requires |incoming| >= 7
      modifies this
      ensures sent == old(sent) + ReadRequest(slave, register)
      ensures incoming == old(incoming)[7..] && value == Decode(old(incoming)[..7])
    {
      var request := Request(slave, 0x03, register, 1);
      var response := new byte[7](_ => 0);
      SendAll(request);
      ReceiveAll(response);
      assert response[..] == old(incoming)[..7];
      assert response[..][..5] == response[..5];
      var received := Word16(response[6], response[5]);
      var calculated := ModbusCrc16(response, 5);
      if received != calculated {
        return CRC_ERROR;
      }
      value := Word16(response[3], response[4]);
    }

    /** Sends a write request; true exactly when the eight bytes that come back echo it. */
    method WriteRegister(slave: byte, register: u16, value: u16) returns (ok: bool)
      requires |incoming| >= 8
      modifies this
      ensures sent == old(sent) + WriteRequest(slave, register, value)
      ensures incoming == old(incoming)[8..]
      ensures ok <==> old(incoming)[..8] == WriteRequest(slave, register, value)
    {
      var request := Request(slave, 0x06, register, value);
      var response := new byte[8](_ => 0);
      SendAll(request);
      ReceiveAll(response);
      assert response[..] == old(incoming)[..8];
      ok := SameBytes(request, response);
    }

    method SameBytes(request: array<byte>, response: array<byte>) returns (ok: bool)
      requires request.Length == response.Length
      ensures ok <==> response[..] == request[..]
    {
      var i := 0;
      while i < request.Length
        invariant 0 <= i <= request.Length
        invariant forall k :: 0 <= k < i ==> request[k] == response[k]
      {
        if request[i] != response[i] {
          assert request[..][i] != response[..][i];
          return false;
        }
        i := i + 1;
      }
      ok := true;
    }
  }
}
