/**
  The client of gdb_protocol.c and the actions of scanner.l, with the packet and
  error buffers filled in place, proved against the protocol on values.
 */
module GdbProtocol {
  import opened Words
  import opened ScannerRules
  import opened Matcher
  import opened GdbFrames
  import opened GdbLink
  import opened GdbMemory

  class Gdb {
    const packet: array<byte>
    var len: int
    /** The writes made on the descriptor. */
    var wire: seq<seq<byte>>
    var answer: seq<byte>

    /** gdb_init_data; the program's packet has MAX_PACKET_SIZE bytes. */
    constructor (capacity: nat)
      ensures packet.Length == capacity && fresh(packet) && len == 0 && wire == [] && answer == []
    {
      packet := new byte[capacity](_ => 0);
      len, wire, answer := 0, [], [];
    }

    ghost predicate Valid()
      reads this
    {
      0 <= len <= packet.Length
    }

    method RioWriten(bytes: seq<byte>)
      modifies this`wire
      ensures wire == old(wire) + [bytes]
    {
      wire := wire + [bytes];
    }

    method SendAck()
      modifies this`wire
      ensures wire == old(wire) + [ACK]
    {
      RioWriten([PLUS]);
    }

    method RequireRetransmission()
      modifies this`wire
      ensures wire == old(wire) + [NACK]
    {
      RioWriten([MINUS]);
    }

    method TransmitPacket()
      requires Valid()
      modifies this`wire
      ensures wire == old(wire) + [packet[..len]]
    {
      RioWriten(packet[..len]);
    }

    /** sprintf or strcpy into the packet: the text and a final NUL. */
    method Put(at: nat, text: seq<byte>)
      requires at + |text| < packet.Length
      modifies packet
      ensures packet[..at] == old(packet[..at])
      ensures packet[at..at + |text|] == text && packet[at + |text|] == 0
      ensures packet[at + |text| + 1..] == old(packet[at + |text| + 1..])
    {
      for i := 0 to |text|
        invariant packet[..at] == old(packet[..at])
        invariant packet[at..at + i] == text[..i]
        invariant packet[at + i..] == old(packet[at + i..])
      {
        packet[at + i] := text[i];
      }
      packet[at + |text|] := 0;
    }

    /** The loop of gdb_send_buffer: it counts len down to -1. */
    method SumPayload() returns (check: byte, i: nat)
      requires 0 <= len && 1 + len <= packet.Length
      modifies this`len
      ensures i == 1 + old(len) && check == Checksum(packet[1..i])
    {
      check, i := 0, 1;
      while len != 0
        invariant 0 <= len && i + len == 1 + old(len)
        invariant check == Checksum(packet[1..i])
        decreases len
      {
        len := len - 1;
        assert packet[1..i + 1][..i - 1] == packet[1..i];
        var sum: int := check + packet[i];
        check := sum % 0x100;
        i := i + 1;
      }
      len := len - 1;
    }

    method SendBuffer()
      requires Valid() && len + 4 < packet.Length
      modifies this`len, this`wire, packet
      ensures Valid() && packet[..len] == Frame(old(packet[1..1 + len]))
      ensures wire == old(wire) + [Frame(old(packet[1..1 + len]))]
    {
      ghost var payload := packet[1..1 + len];
      packet[0] := DOLLAR;
      assert packet[1..1 + len] == payload;
      var check, i := SumPayload();
      packet[i] := HASH;
      i := i + 1;
      assert packet[..i] == [DOLLAR] + payload + [HASH];
      Put(i, Hex(check, 2));
      i := i + 2;
      assert packet[..i] == packet[..i - 2] + packet[i - 2..i];
      packet[i] := 0;
      len := i;
      TransmitPacket();
    }

    /** sprintf "%02x" behind what is written since at. */
    method AppendHex(at: nat, data: nat, b: byte)
      requires at <= data && data + 2 < packet.Length
      modifies packet
      ensures packet[..at] == old(packet[..at])
      ensures packet[at..data + 2] == old(packet[at..data]) + Hex(b, 2)
    {
      ghost var before := packet[..data];
      Put(data, Hex(b, 2));
      assert packet[..at] == before[..at];
      assert packet[at..data + 2] == before[at..] + packet[data..data + 2];
    }

    /** One byte of a value, in hexadecimal behind the bytes done. */
    method AppendByte(at: nat, data: nat, b: byte, ghost done: seq<byte>)
      requires at <= data && data + 2 < packet.Length && packet[at..data] == HexBytes(done)
      modifies packet
      ensures packet[..at] == old(packet[..at])
      ensures packet[at..data + 2] == HexBytes(done + [b])
    {
      HexBytesSnoc(done, b);
      AppendHex(at, data, b);
    }

    /** The loop of write_uint32: four bytes, forwards or backwards, in hexadecimal. */
    method WriteBytes(forwards: bool, at: nat, bytes: seq<byte>, ghost wanted: seq<byte>)
      requires 0 < at && at + 8 < packet.Length && |bytes| == |wanted| == 4
      requires forall k :: 0 <= k < 4 ==> wanted[k] == bytes[if forwards then k else 3 - k]
      modifies packet
      ensures packet[..at] == old(packet[..at])
      ensures packet[at..at + 8] == HexBytes(wanted)
    {
      var i: int, step: int := if forwards then 0 else 3, if forwards then 1 else -1;
      var data := at;
      ghost var n := 0;
      while 0 <= i < 4
        invariant n <= 4 && data == at + 2 * n
        invariant i == if forwards then n else 3 - n
        invariant packet[..at] == old(packet[..at]) && packet[at..data] == HexBytes(wanted[..n])
        decreases 4 - n
      {
        assert wanted[..n + 1] == wanted[..n] + [bytes[i]];
        AppendByte(at, data, bytes[i], wanted[..n]);
        data := data + 2;
        i := i + step;
        n := n + 1;
      }
      assert wanted[..4] == wanted;
    }

    /** write_uint32: the bytes of the host's memory in the order of the target. */
    method WriteUint32(host: Host, target: Host, at: nat, value: word)
      requires 0 < at && at + 8 < packet.Length
      modifies packet
      ensures packet[..at] == old(packet[..at])
      ensures packet[at..at + 8] == HexBytes(WordImage(target, value))
    {
      WriteBytes(host == target, at, WordImage(host, value), WordImage(target, value));
    }

    /** A whole register packet, ready to be sent. */
    method PrepareRegister(host: Host, target: Host, num: byte, value: word)
      requires FitsPacket(RegisterPayload(target, num, value), packet.Length)
      modifies this`len, packet
      ensures Valid() && len + 4 < packet.Length
      ensures packet[1..1 + len] == RegisterPayload(target, num, value)
    {
      var head := [LETTER_P] + Hex(num, 2) + [EQUALS];
      Put(1, head);
      ghost var before := packet[..5];
      assert packet[1..5] == head == before[1..];
      WriteUint32(host, target, 5, value);
      assert packet[1..5] == packet[..5][1..] == head;
      assert packet[1..13] == packet[1..5] + packet[5..13];
      len := 12;
    }

    /** One byte of a payload, escaped if it has to be. */
    method PutEscaped(dest: nat, c: byte) returns (n: nat)
      requires 20 <= dest && dest + |EscapeByte(c)| <= packet.Length
      modifies packet
      ensures n == |EscapeByte(c)|
      ensures packet[20..dest + n] == old(packet[20..dest]) + EscapeByte(c)
    {
      ghost var before := packet[20..dest];
      if c == DOLLAR || c == HASH || c == 0x7d {
        packet[dest] := 0x7d;
        packet[dest + 1] := Flip(c);
        n := 2;
      } else {
        packet[dest] := c;
        n := 1;
      }
      assert packet[20..dest] == before && packet[dest..dest + n] == EscapeByte(c);
      assert packet[20..dest + n] == packet[20..dest] + packet[dest..dest + n];
    }

    /** The next byte of a chunk of which done is already in the packet. */
    method EscapeNext(dest: nat, c: byte, ghost all: seq<byte>, ghost k: nat, ghost done: seq<byte>) returns (n: nat)
      requires Filling(all, k, done) && k < |all| && |done| < 1017 && c == all[k]
      requires 20 + |Chunk(all)| <= packet.Length && dest == 20 + |done| && packet[20..dest] == done
      modifies packet
      ensures n == |EscapeByte(c)| && dest + n <= packet.Length
      ensures packet[20..dest + n] == done + EscapeByte(c)
      ensures Filling(all, k + 1, done + EscapeByte(c))
    {
      FillStep(all, k, done);
      n := PutEscaped(dest, c);
    }

    /**
      The inner loop of gdb_write_memory: escape bytes of data from pos on into the
      packet after the header, until the payload is full or the data used up.
     */
    method FillChunk(data: seq<byte>, from: nat) returns (bytesCopied: nat, bufferSize: nat)
      requires from <= |data| && 20 + |Chunk(data[from..])| <= packet.Length
      modifies packet
      ensures bytesCopied == ChunkSize(data[from..], 0)
      ensures bufferSize == |Chunk(data[from..])| && packet[20..20 + bufferSize] == Chunk(data[from..])
    {
      ghost var all, done := data[from..], [];
      var pos := from;
      bytesCopied, bufferSize := 0, 0;
      StartFilling(all);
      while bufferSize < MAX_BUFFER_SIZE - 1 && pos < |data|
        invariant pos == from + bytesCopied <= |data|
        invariant |done| == bufferSize && 20 + bufferSize <= packet.Length && packet[20..20 + bufferSize] == done
        invariant Filling(all, bytesCopied, done)
        decreases |data| - pos
      {
        assert data[pos] == all[bytesCopied];
        var n := EscapeNext(20 + bufferSize, data[pos], all, bytesCopied, done);
        done := done + EscapeByte(data[pos]);
        bufferSize := bufferSize + n;
        bytesCopied := bytesCopied + 1;
        pos := pos + 1;
      }
      StopFilling(all, bytesCopied, done);
    }

    /** The header of a memory-write packet: the colon takes the place of the final NUL. */
    method PutHeader(address: word, bytesCopied: nat)
      requires 20 <= packet.Length && bytesCopied < 0x1_0000_0000
      modifies packet
      ensures packet[1..20] == XHeader(address, bytesCopied)
      ensures packet[20..] == old(packet[20..])
    {
      var text := [LETTER_X] + Hex(address, 8) + [COMMA] + Hex(bytesCopied, 8);
      Put(1, text);
      assert packet[1..19] == text;
      packet[19] := COLON;
      assert packet[1..20] == packet[1..19] + [COLON];
    }

    /** A whole memory-write packet, ready to be sent. */
    method PrepareChunk(address: word, data: seq<byte>, from: nat) returns (bytesCopied: nat)
      requires from <= |data| && FitsPacket(XPayload(address, FirstChunk(data[from..])), packet.Length)
      modifies this`len, packet
      ensures bytesCopied == ChunkSize(data[from..], 0)
      ensures Valid() && len + 4 < packet.Length
      ensures packet[1..1 + len] == XPayload(address, FirstChunk(data[from..]))
    {
      var bufferSize;
      bytesCopied, bufferSize := FillChunk(data, from);
      ghost var tail := packet[20..];
      assert tail[..bufferSize] == packet[20..20 + bufferSize];
      PutHeader(address, bytesCopied);
      assert packet[20..20 + bufferSize] == packet[20..][..bufferSize];
      assert packet[1..20 + bufferSize] == packet[1..20] + packet[20..20 + bufferSize];
      len := 19 + bufferSize;
    }

    /** gdb_packet_check on the text of a frame. */
    method PacketCheck(text: seq<byte>) returns (ok: bool)
      requires IsFrame(text)
      modifies this`wire, this`answer
      ensures ok == ChecksumOk(text)
      ensures wire == old(wire) + [if ok then ACK else NACK]
      ensures answer == if ok then text else old(answer)
    {
      var check: byte := 0;
      for i := 1 to |text| - 3
        invariant check == Checksum(text[1..i])
      {
        assert text[1..i + 1][..i - 1] == text[1..i];
        var sum: int := check + text[i];
        check := sum % 0x100;
      }
      var given := Parse([text[|text| - 2], text[|text| - 1]]);
      if check == given {
        SendAck();
        answer := text;
        return true;
      }
      RequireRetransmission();
      ok := false;
    }
  }

  class Scanner {
    const gdb: Gdb
    const buffer: array<byte>
    var len: nat
    /** The bytes received, and how many of them are scanned. */
    const received: seq<byte>
    var pos: nat

    constructor (gdb: Gdb, received: seq<byte>)
      requires gdb.Valid()
      ensures this.gdb == gdb && this.received == received && pos == 0 && len == 0
      ensures fresh(buffer) && Valid()
    {
      this.gdb, this.received, pos, len := gdb, received, 0, 0;
      buffer := new byte[MAX_ERROR_SIZE](_ => 0);
    }

    ghost predicate Valid()
      reads this, gdb
    {
      && gdb.Valid() && buffer != gdb.packet
      && buffer.Length == MAX_ERROR_SIZE && len <= 1023 && pos <= |received|
    }

    ghost function Value(): Link
      requires Valid()
      reads this, buffer, gdb, gdb.packet
    {
      Link(gdb.packet[..gdb.len], buffer[..len], gdb.wire)
    }

    ghost function Rest(): seq<byte>
      requires Valid()
      reads this, gdb
    {
      received[pos..]
    }

    method HandleError()
      requires Valid()
      modifies this`len, buffer, gdb`wire
      ensures Valid() && Value() == GdbLink.HandleError(old(Value()))
    {
      if len != 0 {
        buffer[len] := 0;
        gdb.RequireRetransmission();
        len := 0;
      }
    }

    method AddCharacterToError(c: byte)
      requires Valid()
      modifies this`len, buffer, gdb`wire
      ensures Valid() && Value() == GdbLink.AddCharacterToError(old(Value()), c)
    {
      if len > MAX_ERROR_SIZE - 2 {
        HandleError();
      }
      buffer[len] := c;
      len := len + 1;
    }

    /** The switch of yylex over the rule that matched. */
    method Action(yyAct: nat, text: seq<byte>) returns (returned: bool)
      requires Valid() && Lexical(Lexeme(yyAct, text))
      modifies this`len, buffer, gdb`wire, gdb`answer
      ensures Valid() && Value() == Act(old(Value()), Lexeme(yyAct, text))
      ensures returned == Accepted(Lexeme(yyAct, text))
      ensures returned ==> gdb.answer == text && len == 0
    {
      returned := false;
      match yyAct
      case 1 =>
        HandleError();
      case 2 =>
        HandleError();
        gdb.TransmitPacket();
      case 3 =>
        HandleError();
        returned := gdb.PacketCheck(text);
      case 4 =>
        AddCharacterToError(text[0]);
      case _ =>
    }

    method Yylex() returns (answer: Answer)
      requires Valid()
      modifies this`len, this`pos, buffer, gdb`wire, gdb`answer
      ensures Valid() && Outcome(Value(), Rest(), answer) == GdbLink.Yylex(old(Value()), old(Rest()))
      ensures answer.Received? ==> gdb.answer == answer.frame
      ensures len == 0
    {
      ghost var goal := GdbLink.Yylex(Value(), Rest());
      while pos < |received|
        invariant Valid() && GdbLink.Yylex(Value(), Rest()) == goal
        decreases |received| - pos
      {
        var yyAct, yyCp := YyMatch(received, pos);
        var text := received[pos..yyCp];
        FirstLexical(Rest());
        ghost var rest := Rest()[|text|..];
        var returned := Action(yyAct, text);
        pos := yyCp;
        assert Rest() == rest;
        if returned {
          return Received(text);
        }
      }
      HandleError();
      answer := Eof;
    }
  }

  // ----- the operations of the client -----

  /** gdb_send_buffer, on a payload that is already in the packet. */
  method SendPrepared(scanner: Scanner, ghost payload: seq<byte>)
    requires scanner.Valid() && scanner.gdb.len + 4 < scanner.gdb.packet.Length
    requires scanner.gdb.packet[1..1 + scanner.gdb.len] == payload
    modifies scanner.gdb`len, scanner.gdb`wire, scanner.gdb.packet
    ensures scanner.Valid() && scanner.Rest() == old(scanner.Rest())
    ensures scanner.Value() == Send(old(scanner.Value()), payload)
  {
    scanner.gdb.SendBuffer();
  }

  /** gdb_send_data. */
  method SendData(scanner: Scanner, data: seq<byte>)
    requires scanner.Valid() && FitsPacket(data, scanner.gdb.packet.Length)
    modifies scanner.gdb`len, scanner.gdb`wire, scanner.gdb.packet
    ensures scanner.Valid() && scanner.Rest() == old(scanner.Rest())
    ensures scanner.Value() == Send(old(scanner.Value()), data)
  {
    var gdb := scanner.gdb;
    gdb.Put(1, data);
    gdb.len := |data|;
    gdb.SendBuffer();
  }

  /** gdb_step: the packet "s", then one answer. */
  method Step(scanner: Scanner) returns (answer: Answer)
    requires scanner.Valid() && FitsPacket([115], scanner.gdb.packet.Length)
    modifies scanner, scanner.buffer, scanner.gdb, scanner.gdb.packet
    ensures scanner.Valid()
    ensures Session(scanner.Value(), scanner.Rest(), [answer])
            == Exchange(old(scanner.Value()), [[115]], old(scanner.Rest()))
  {
    SendData(scanner, [115]);
    answer := scanner.Yylex();
  }

  method WriteRegister(scanner: Scanner, host: Host, target: Host, num: byte, value: word) returns (answer: Answer)
    requires scanner.Valid() && FitsPacket(RegisterPayload(target, num, value), scanner.gdb.packet.Length)
    modifies scanner, scanner.buffer, scanner.gdb, scanner.gdb.packet
    ensures scanner.Valid()
    ensures Session(scanner.Value(), scanner.Rest(), [answer])
            == Exchange(old(scanner.Value()), [RegisterPayload(target, num, value)], old(scanner.Rest()))
  {
    ghost var before, received := scanner.Value(), scanner.Rest();
    scanner.gdb.PrepareRegister(host, target, num, value);
    assert scanner.Value() == before.(packet := scanner.Value().packet) && scanner.Rest() == received;
    SendPrepared(scanner, RegisterPayload(target, num, value));
    answer := scanner.Yylex();
  }

  /** One turn of the outer loop of gdb_write_memory; rest is what is left of the data. */
  method WriteChunk(scanner: Scanner, address: word, data: seq<byte>, from: nat, ghost rest: seq<byte>)
      returns (bytesCopied: nat, answer: Answer)
    requires scanner.Valid() && from <= |data| && rest == data[from..]
    requires FitsPacket(XPayload(address, FirstChunk(rest)), scanner.gdb.packet.Length)
    modifies scanner, scanner.buffer, scanner.gdb, scanner.gdb.packet
    ensures scanner.Valid()
    ensures bytesCopied == ChunkSize(rest, 0)
    ensures Outcome(scanner.Value(), scanner.Rest(), answer)
            == Yylex(Send(old(scanner.Value()), XPayload(address, FirstChunk(rest))), old(scanner.Rest()))
  {
    ghost var before, received := scanner.Value(), scanner.Rest();
    bytesCopied := scanner.gdb.PrepareChunk(address, data, from);
    assert scanner.Value() == before.(packet := scanner.Value().packet) && scanner.Rest() == received;
    SendPrepared(scanner, XPayload(address, FirstChunk(rest)));
    answer := scanner.Yylex();
  }

  /** What is left to do for rest, after these answers, completes the run goal. */
  predicate Owes(goal: Session, answers: seq<Answer>, l: Link, at: word, rest: seq<byte>, input: seq<byte>, capacity: nat) {
    && AllFitPacket(XPackets(at, rest), capacity)
    && After(answers, Exchange(l, XPackets(at, rest), input)) == goal
  }

  lemma WriteTurn(goal: Session, answers: seq<Answer>, l: Link, at: word, rest: seq<byte>, input: seq<byte>, capacity: nat)
    requires rest != [] && Owes(goal, answers, l, at, rest, input, capacity)
    ensures
      var k, p := ChunkSize(rest, 0), XPayload(at, FirstChunk(rest));
      var o := Yylex(Send(l, p), input);
      && 1 <= k && FitsPacket(p, capacity)
      && Owes(goal, answers + [o.answer], o.link, AddWord(at, k), rest[k..], o.rest, capacity)
  {
    XPacketsFirst(at, rest);
    FirstFits(XPackets(at, rest), capacity);
    ExchangeTurn(answers, l, XPackets(at, rest), input);
  }

  lemma OwesAll(l: Link, at: word, data: seq<byte>, input: seq<byte>, capacity: nat)
    requires AllFitPacket(XPackets(at, data), capacity)
    ensures Owes(Exchange(l, XPackets(at, data), input), [], l, at, data, input, capacity)
  {
    var s := Exchange(l, XPackets(at, data), input);
    assert [] + s.answers == s.answers;
  }

  lemma OwesNothing(goal: Session, answers: seq<Answer>, l: Link, at: word, input: seq<byte>, capacity: nat)
    requires Owes(goal, answers, l, at, [], input, capacity)
    ensures Session(l, input, answers) == goal
  {
    assert answers + [] == answers;
  }

  /** The same turn, within a run; left is what is then left of the data. */
  method WriteNext(scanner: Scanner, at: word, data: seq<byte>, from: nat, ghost rest: seq<byte>,
                   ghost goal: Session, ghost answers: seq<Answer>)
      returns (bytesCopied: nat, next: word, answer: Answer, ghost left: seq<byte>, ghost l: Link)
    requires scanner.Valid() && from < |data| && rest == data[from..]
    requires Owes(goal, answers, scanner.Value(), at, rest, scanner.Rest(), scanner.gdb.packet.Length)
    modifies scanner, scanner.buffer, scanner.gdb, scanner.gdb.packet
    ensures scanner.Valid() && 1 <= bytesCopied <= |data| - from && bytesCopied < 0x1_0000_0000
    ensures next == AddWord(at, bytesCopied) && left == data[from + bytesCopied..] && l == scanner.Value()
    ensures Owes(goal, answers + [answer], l, next, left, scanner.Rest(), scanner.gdb.packet.Length)
  {
    WriteTurn(goal, answers, scanner.Value(), at, rest, scanner.Rest(), scanner.gdb.packet.Length);
    bytesCopied, answer := WriteChunk(scanner, at, data, from, rest);
    next, left, l := AddWord(at, bytesCopied), rest[bytesCopied..], scanner.Value();
    assert left == data[from + bytesCopied..];
  }

  /** The outer loop of gdb_write_memory: one packet and one answer after the other. */
  method WritePackets(scanner: Scanner, address: word, data: seq<byte>) returns (answers: seq<Answer>)
    requires scanner.Valid() && AllFitPacket(XPackets(address, data), scanner.gdb.packet.Length)
    modifies scanner, scanner.buffer, scanner.gdb, scanner.gdb.packet
    ensures scanner.Valid()
    ensures Session(scanner.Value(), scanner.Rest(), answers)
            == Exchange(old(scanner.Value()), XPackets(address, data), old(scanner.Rest()))
  {
    ghost var l, rest := scanner.Value(), data;
    ghost var goal := Exchange(l, XPackets(address, data), scanner.Rest());
    var at: word, from: nat, size: nat := address, 0, |data|;
    answers := [];
    OwesAll(l, address, data, scanner.Rest(), scanner.gdb.packet.Length);
    assert data[0..] == data;
    while size > 0
      invariant scanner.Valid() && from + size == |data| && rest == data[from..] && l == scanner.Value()
      invariant Owes(goal, answers, l, at, rest, scanner.Rest(), scanner.gdb.packet.Length)
      decreases size
    {
      var bytesCopied, answer;
      bytesCopied, at, answer, rest, l := WriteNext(scanner, at, data, from, rest, goal, answers);
      answers := answers + [answer];
      from := from + bytesCopied;
      size := size - bytesCopied;
    }
    assert rest == [];
    OwesNothing(goal, answers, l, at, scanner.Rest(), scanner.gdb.packet.Length);
  }

  /**
    gdb_write_memory, for all data whose packets fit the buffer: see PacketsFitIff
    for the buffer of the program. What it puts on the wire leaves data in memory.
   */
  method WriteMemory(scanner: Scanner, address: word, data: seq<byte>) returns (answers: seq<Answer>)
    requires scanner.Valid() && AllFitPacket(XPackets(address, data), scanner.gdb.packet.Length)
    modifies scanner, scanner.buffer, scanner.gdb, scanner.gdb.packet
    ensures scanner.Valid()
    ensures Session(scanner.Value(), scanner.Rest(), answers)
            == Exchange(old(scanner.Value()), XPackets(address, data), old(scanner.Rest()))
    ensures forall mem: Memory :: Arrived(old(scanner.Value()).wire, scanner.Value().wire, address, data, mem)
  {
    ghost var l, received := scanner.Value(), scanner.Rest();
    answers := WritePackets(scanner, address, data);
    forall mem: Memory { MemoryRunArrives(l, address, data, received, mem); }
  }

  /** The program's own packet: it serves every write of at most 1000 escaped bytes. */
  method WriteSmallMemory(scanner: Scanner, address: word, data: seq<byte>) returns (answers: seq<Answer>)
    requires scanner.Valid() && scanner.gdb.packet.Length == MAX_PACKET_SIZE && |Escape(data)| <= 1000
    modifies scanner, scanner.buffer, scanner.gdb, scanner.gdb.packet
    ensures scanner.Valid()
    ensures Session(scanner.Value(), scanner.Rest(), answers)
            == Exchange(old(scanner.Value()), XPackets(address, data), old(scanner.Rest()))
    ensures forall mem: Memory :: Arrived(old(scanner.Value()).wire, scanner.Value().wire, address, data, mem)
  {
    PacketsFitIff(address, data);
    answers := WriteMemory(scanner, address, data);
  }
}
