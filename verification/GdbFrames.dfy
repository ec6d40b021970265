/**
  The packets of the remote protocol as values: hexadecimal numbers, checksums,
  frames, escaped memory writes and register writes, with their readers.
 */
module GdbFrames {
  import opened Words
  import opened ScannerRules

  const ESCAPE: byte := 0x7d
  const LETTER_P: byte := 80
  const LETTER_X: byte := 88
  const EQUALS: byte := 61
  const COMMA: byte := 44
  const COLON: byte := 58

  // ----- hexadecimal numbers -----

  function HexDigit(d: nat): (c: byte)
    requires d < 16
    ensures IsHex(c) && !IsMark(c)
  {
    if d < 10 then 48 + d else 87 + d
  }

  function DigitValue(c: byte): (d: nat)
    requires IsHex(c)
    ensures d < 16
  {
    if c <= 57 then c - 48 else if c <= 70 then c - 55 else c - 87
  }

  function Pow16(digits: nat): nat {
    if digits == 0 then 1 else 16 * Pow16(digits - 1)
  }

  /** printf of a number below 16 to the digits with that many digits, padded with zeros. */
  function Hex(n: nat, digits: nat): (s: seq<byte>)
    ensures |s| == digits
    ensures forall i :: 0 <= i < |s| ==> IsHex(s[i]) && !IsMark(s[i])
  {
    if digits == 0 then [] else Hex(n / 16, digits - 1) + [HexDigit(n % 16)]
  }

  predicate AllHex(s: seq<byte>) {
    forall i :: 0 <= i < |s| ==> IsHex(s[i])
  }

  /** sscanf "%x" on these digits. */
  function Parse(s: seq<byte>): nat
    requires AllHex(s)
  {
    if s == [] then 0 else 16 * Parse(s[..|s| - 1]) + DigitValue(s[|s| - 1])
  }

  lemma {:induction false} ParseHex(n: nat, digits: nat)
    requires n < Pow16(digits)
    ensures Parse(Hex(n, digits)) == n
  {
    if digits > 0 {
      ParseHex(n / 16, digits - 1);
      var s := Hex(n, digits);
      assert s[..|s| - 1] == Hex(n / 16, digits - 1);
    }
  }

  lemma Powers()
    ensures Pow16(2) == 0x100 && Pow16(8) == 0x1_0000_0000
  {
    assert Pow16(4) == 0x1_0000;
  }

  // ----- frames -----

  /** The unsigned char sum of the bytes of a packet. */
  function Checksum(s: seq<byte>): byte {
    if s == [] then 0
    else
      var sum: int := Checksum(s[..|s| - 1]) + s[|s| - 1];
      if sum < 0x100 then sum else sum - 0x100
  }

  /** What gdb_send_buffer makes of a payload. */
  function Frame(payload: seq<byte>): seq<byte> {
    [DOLLAR] + payload + [HASH] + Hex(Checksum(payload), 2)
  }

  function Body(frame: seq<byte>): seq<byte>
    requires |frame| >= 4
  {
    frame[1..|frame| - 3]
  }

  /** gdb_packet_check accepts a frame whose two digits give the sum of its body. */
  predicate ChecksumOk(frame: seq<byte>)
    requires IsFrame(frame)
  {
    Checksum(Body(frame)) == Parse([frame[|frame| - 2], frame[|frame| - 1]])
  }

  lemma FrameShape(payload: seq<byte>)
    requires Unmarked(payload)
    ensures IsFrame(Frame(payload)) && Body(Frame(payload)) == payload && ChecksumOk(Frame(payload))
  {
    var f := Frame(payload);
    assert forall i :: 1 <= i < |f| - 3 ==> f[i] == payload[i - 1];
    assert [f[|f| - 2], f[|f| - 1]] == Hex(Checksum(payload), 2);
    Powers();
    ParseHex(Checksum(payload), 2);
  }

  datatype Item = Plus | Minus | Packet(payload: seq<byte>)

  function Render(x: Item): seq<byte> {
    match x case Plus => [PLUS] case Minus => [MINUS] case Packet(p) => Frame(p)
  }

  function Stream(xs: seq<Item>): seq<byte> {
    if xs == [] then [] else Render(xs[0]) + Stream(xs[1..])
  }

  function LexemeOf(x: Item): Lexeme {
    Lexeme(match x case Plus => 1 case Minus => 2 case Packet(_) => 3, Render(x))
  }

  function LexemesOf(xs: seq<Item>): seq<Lexeme> {
    seq(|xs|, i requires 0 <= i < |xs| => LexemeOf(xs[i]))
  }

  predicate AllUnmarked(xs: seq<Item>) {
    forall i :: 0 <= i < |xs| ==> xs[i].Packet? ==> Unmarked(xs[i].payload)
  }

  lemma FirstOfItem(x: Item, rest: seq<byte>)
    requires x.Packet? ==> Unmarked(x.payload)
    ensures First(Render(x) + rest) == LexemeOf(x)
  {
    var s := Render(x) + rest;
    assert s[..|Render(x)|] == Render(x);
    if x.Packet? {
      FrameShape(x.payload);
      FrameLengthRight(s, |Render(x)|);
    }
  }

  lemma {:induction false} StreamScans(xs: seq<Item>)
    requires AllUnmarked(xs)
    ensures Lexemes(Stream(xs)) == LexemesOf(xs)
  {
    if xs != [] {
      var x, rest := Render(xs[0]), Stream(xs[1..]);
      FirstOfItem(xs[0], rest);
      StreamScans(xs[1..]);
      assert (x + rest)[|x|..] == rest;
      assert LexemesOf(xs) == [LexemeOf(xs[0])] + LexemesOf(xs[1..]);
    }
  }

  /**
    Sending and scanning undo each other: any sequence of acknowledgements and
    frames with unmarked payloads is cut into exactly these, in order, and every
    frame passes the checksum.
   */
  lemma ScanUndoesSend(xs: seq<Item>)
    requires AllUnmarked(xs)
    ensures Lexemes(Stream(xs)) == LexemesOf(xs)
    ensures forall i :: 0 <= i < |xs| && xs[i].Packet? ==>
      var f := LexemesOf(xs)[i].text;
      IsFrame(f) && ChecksumOk(f) && Body(f) == xs[i].payload
  {
    StreamScans(xs);
    forall i | 0 <= i < |xs| && xs[i].Packet? { FrameShape(xs[i].payload); }
  }

  // ----- escaping -----

  predicate IsSpecial(c: byte) {
    c == DOLLAR || c == HASH || c == ESCAPE
  }

  /** Exclusive or with 0x20. */
  function Flip(c: byte): byte {
    if c / 32 % 2 == 0 then c + 32 else c - 32
  }

  function EscapeByte(c: byte): (s: seq<byte>)
    ensures 1 <= |s| <= 2 && Unmarked(s)
  {
    if IsSpecial(c) then [ESCAPE, Flip(c)] else [c]
  }

  function Escape(s: seq<byte>): (t: seq<byte>)
    ensures Unmarked(t)
  {
    if s == [] then [] else EscapeByte(s[0]) + Escape(s[1..])
  }

  /** The receiver's reading of escaped data. */
  function Unescape(t: seq<byte>): seq<byte> {
    if t == [] then []
    else if t[0] == ESCAPE && |t| >= 2 then [Flip(t[1])] + Unescape(t[2..])
    else [t[0]] + Unescape(t[1..])
  }

  lemma {:induction false} UnescapeUndoesEscape(s: seq<byte>)
    ensures Unescape(Escape(s)) == s
  {
    if s != [] {
      UnescapeUndoesEscape(s[1..]);
      assert Escape(s)[|EscapeByte(s[0])|..] == Escape(s[1..]);
    }
  }

  // ----- memory writes -----

  const MAX_BUFFER_SIZE := 1018

  /** How many bytes of data one packet takes when used payload bytes are already filled. */
  function ChunkSize(data: seq<byte>, used: nat): (k: nat)
    ensures k <= |data|
    ensures data != [] && used < 1017 ==> k >= 1
    ensures k <= (if used < 1017 then 1017 - used else 0)
    decreases |data|
  {
    if data == [] || used >= 1017 then 0 else 1 + ChunkSize(data[1..], used + |EscapeByte(data[0])|)
  }

  lemma {:induction false} ChunkFits(data: seq<byte>, used: nat)
    requires used <= MAX_BUFFER_SIZE
    ensures used + |Escape(data[..ChunkSize(data, used)])| <= MAX_BUFFER_SIZE
    decreases |data|
  {
    var k := ChunkSize(data, used);
    if k > 0 {
      ChunkFits(data[1..], used + |EscapeByte(data[0])|);
      assert data[..k][1..] == data[1..][..k - 1];
    }
  }

  /** One step of the greedy chunk: its first byte is taken and escaped. */
  lemma ChunkStep(data: seq<byte>, used: nat)
    requires data != [] && used < 1017
    ensures
      var k, n := ChunkSize(data, used), |EscapeByte(data[0])|;
      && k >= 1 && k - 1 == ChunkSize(data[1..], used + n)
      && Escape(data[..k]) == EscapeByte(data[0]) + Escape(data[1..][..k - 1])
  {
    var k := ChunkSize(data, used);
    assert data[..k][1..] == data[1..][..k - 1];
  }

  /** The bytes of data that one packet takes, and the payload they fill. */
  function FirstChunk(data: seq<byte>): seq<byte> {
    data[..ChunkSize(data, 0)]
  }

  function Chunk(data: seq<byte>): seq<byte> {
    Escape(FirstChunk(data))
  }

  /** "X address,count:". */
  function XHeader(address: word, count: nat): (h: seq<byte>)
    ensures |h| == 19
  {
    [LETTER_X] + Hex(address, 8) + [COMMA] + Hex(count, 8) + [COLON]
  }

  /** The header followed by the escaped bytes. */
  function XPayload(address: word, bytes: seq<byte>): seq<byte> {
    XHeader(address, |bytes|) + Escape(bytes)
  }

  /** The payloads gdb_write_memory sends for a buffer. */
  function XPackets(address: word, data: seq<byte>): seq<seq<byte>>
    decreases |data|
  {
    if data == [] then []
    else
      var k := ChunkSize(data, 0);
      [XPayload(address, FirstChunk(data))] + XPackets(AddWord(address, k), data[k..])
  }

  lemma XPacketsFirst(address: word, data: seq<byte>)
    requires data != []
    ensures
      var k, ps := ChunkSize(data, 0), XPackets(address, data);
      ps != [] && ps[0] == XPayload(address, FirstChunk(data)) && ps[1..] == XPackets(AddWord(address, k), data[k..])
  {
  }

  /** A memory write as the receiver understands it. */
  datatype MemWrite = MemWrite(address: nat, count: nat, bytes: seq<byte>)

  predicate IsX(p: seq<byte>) {
    && |p| >= 19 && p[0] == LETTER_X && p[9] == COMMA && p[18] == COLON
    && AllHex(p[1..9]) && AllHex(p[10..18])
  }

  function DecodeX(p: seq<byte>): MemWrite
    requires IsX(p)
  {
    MemWrite(Parse(p[1..9]), Parse(p[10..18]), Unescape(p[19..]))
  }

  /** One packet carries its declared number of bytes to its declared address, in an unmarked payload. */
  lemma XPayloadDecodes(address: word, bytes: seq<byte>)
    requires |bytes| < 0x1_0000_0000
    ensures
      var p := XPayload(address, bytes);
      && IsX(p) && DecodeX(p) == MemWrite(address, |bytes|, bytes)
      && |p| == 19 + |Escape(bytes)| && Unmarked(p)
  {
    var p := XPayload(address, bytes);
    assert p[1..9] == Hex(address, 8);
    assert p[10..18] == Hex(|bytes|, 8);
    assert p[19..] == Escape(bytes);
    Powers();
    ParseHex(address, 8);
    ParseHex(|bytes|, 8);
    UnescapeUndoesEscape(bytes);
    XPayloadUnmarked(address, bytes);
  }

  lemma XPayloadUnmarked(address: word, bytes: seq<byte>)
    ensures Unmarked(XPayload(address, bytes))
  {
    var a, n, e := Hex(address, 8), Hex(|bytes|, 8), Escape(bytes);
    var p := XPayload(address, bytes);
    forall i | 0 <= i < |p|
      ensures !IsMark(p[i])
    {
      assert p[i] == if i == 0 then LETTER_X else if i < 9 then a[i - 1] else if i == 9 then COMMA
                     else if i < 18 then n[i - 10] else if i == 18 then COLON else e[i - 19];
    }
  }

  /** The single-byte writes of consecutive bytes; addresses wrap at 2 to the 32. */
  function At(address: word, bytes: seq<byte>): seq<(word, byte)> {
    seq(|bytes|, i requires 0 <= i < |bytes| => ((address + i) % 0x1_0000_0000, bytes[i]))
  }

  lemma WrapTwice(address: word, k: nat, i: nat)
    requires k < 0x1_0000_0000
    ensures (AddWord(address, k) + i) % 0x1_0000_0000 == (address + (k + i)) % 0x1_0000_0000
  {
  }

  lemma AtSplit(address: word, data: seq<byte>, k: nat)
    requires k <= |data| && k < 0x1_0000_0000
    ensures At(address, data) == At(address, data[..k]) + At(AddWord(address, k), data[k..])
  {
    var t := At(AddWord(address, k), data[k..]);
    forall i | 0 <= i < |t|
      ensures t[i] == ((address + (k + i)) % 0x1_0000_0000, data[k + i])
    {
      WrapTwice(address, k, i);
    }
  }

  predicate AllX(ps: seq<seq<byte>>) {
    forall i :: 0 <= i < |ps| ==> IsX(ps[i]) && DecodeX(ps[i]).address < 0x1_0000_0000
  }

  /** The byte writes that a receiver performs for a list of payloads, in order. */
  function Deliver(ps: seq<seq<byte>>): seq<(word, byte)>
    requires AllX(ps)
  {
    if ps == [] then []
    else
      var w := DecodeX(ps[0]);
      At(w.address, w.bytes) + Deliver(ps[1..])
  }

  /** A payload is unmarked, small enough and counts its bytes right. */
  predicate Sound(p: seq<byte>) {
    && IsX(p) && Unmarked(p) && |p| <= 19 + MAX_BUFFER_SIZE
    && 1 <= DecodeX(p).count == |DecodeX(p).bytes|
  }

  lemma DeliverCons(p: seq<byte>, ps: seq<seq<byte>>)
    requires IsX(p) && DecodeX(p).address < 0x1_0000_0000 && AllX(ps)
    ensures AllX([p] + ps)
    ensures Deliver([p] + ps) == At(DecodeX(p).address, DecodeX(p).bytes) + Deliver(ps)
  {
    assert ([p] + ps)[1..] == ps;
  }

  /** The first packet of a memory write: a sound one, for a non-empty part of the buffer. */
  lemma ChunkSound(address: word, data: seq<byte>)
    requires data != []
    ensures
      var k := ChunkSize(data, 0);
      var p := XPayload(address, data[..k]);
      1 <= k <= 1017 && Sound(p) && DecodeX(p) == MemWrite(address, k, data[..k])
  {
    ChunkFits(data, 0);
    XPayloadDecodes(address, data[..ChunkSize(data, 0)]);
  }

  lemma {:induction false} PacketsSound(address: word, data: seq<byte>)
    ensures forall i :: 0 <= i < |XPackets(address, data)| ==> Sound(XPackets(address, data)[i])
    ensures AllX(XPackets(address, data))
    decreases |data|
  {
    if data != [] {
      ChunkSound(address, data);
      PacketsSound(AddWord(address, ChunkSize(data, 0)), data[ChunkSize(data, 0)..]);
    }
  }

  lemma {:induction false} PacketsDeliver(address: word, data: seq<byte>)
    requires AllX(XPackets(address, data))
    ensures Deliver(XPackets(address, data)) == At(address, data)
    decreases |data|
  {
    if data != [] {
      var k := ChunkSize(data, 0);
      var p, ps := XPayload(address, data[..k]), XPackets(AddWord(address, k), data[k..]);
      PacketsSound(AddWord(address, k), data[k..]);
      PacketsDeliver(AddWord(address, k), data[k..]);
      ChunkSound(address, data);
      DeliverCons(p, ps);
      AtSplit(address, data, k);
    }
  }

  /**
    Memory writes are faithful: whatever the address and the buffer, the packets
    are sound and deliver the bytes of the buffer in order at consecutive addresses.
   */
  lemma MemoryWriteFaithful(address: word, data: seq<byte>)
    ensures
      var ps := XPackets(address, data);
      && (forall i :: 0 <= i < |ps| ==> Sound(ps[i]))
      && AllX(ps) && Deliver(ps) == At(address, data)
  {
    PacketsSound(address, data);
    PacketsDeliver(address, data);
  }

  /**
    From the buffer to the receiver: the frames of a memory write, scanned from the
    byte stream, pass their checksums and their bodies deliver the buffer.
   */
  lemma MemoryArrives(address: word, data: seq<byte>)
    ensures
      var ps := XPackets(address, data);
      var lexemes := Lexemes(Stream(AsItems(ps)));
      && AllX(ps) && Deliver(ps) == At(address, data)
      && |lexemes| == |ps|
      && forall i :: 0 <= i < |ps| ==> Carries(lexemes[i], ps[i])
  {
    PacketsSound(address, data);
    PacketsDeliver(address, data);
    FramesArrive(XPackets(address, data));
  }

  function AsItems(ps: seq<seq<byte>>): seq<Item> {
    seq(|ps|, i requires 0 <= i < |ps| => Packet(ps[i]))
  }

  /** A lexeme that is a frame with this body and passes the checksum. */
  predicate Carries(x: Lexeme, p: seq<byte>) {
    IsFrame(x.text) && ChecksumOk(x.text) && Body(x.text) == p
  }

  lemma FramesArrive(ps: seq<seq<byte>>)
    requires forall i :: 0 <= i < |ps| ==> Unmarked(ps[i])
    ensures
      var lexemes := Lexemes(Stream(AsItems(ps)));
      |lexemes| == |ps| && forall i :: 0 <= i < |ps| ==> Carries(lexemes[i], ps[i])
  {
    StreamScans(AsItems(ps));
    forall i | 0 <= i < |ps| { FrameShape(ps[i]); }
  }

  // ----- filling a chunk byte by byte -----

  /** done holds the first k bytes of data, escaped; the greedy chunk goes on from there. */
  predicate Filling(data: seq<byte>, k: nat, done: seq<byte>) {
    && k <= |data| && |done| <= MAX_BUFFER_SIZE
    && k + ChunkSize(data[k..], |done|) == ChunkSize(data, 0)
    && done + Escape(data[k..][..ChunkSize(data[k..], |done|)]) == Chunk(data)
  }

  lemma StartFilling(data: seq<byte>)
    ensures Filling(data, 0, [])
  {
    assert data[0..] == data;
    assert [] + Chunk(data) == Chunk(data);
  }

  /** The same for what is left of the data: its first byte is escaped behind done. */
  lemma FillRest(rest: seq<byte>, done: seq<byte>, chunk: seq<byte>)
    requires rest != [] && |done| < 1017
    requires done + Escape(rest[..ChunkSize(rest, |done|)]) == chunk
    ensures
      var x := EscapeByte(rest[0]);
      && |done| + |x| <= |chunk|
      && ChunkSize(rest, |done|) == 1 + ChunkSize(rest[1..], |done| + |x|)
      && (done + x) + Escape(rest[1..][..ChunkSize(rest[1..], |done| + |x|)]) == chunk
  {
    var x := EscapeByte(rest[0]);
    ChunkStep(rest, |done|);
    var left := Escape(rest[1..][..ChunkSize(rest[1..], |done| + |x|)]);
    assert done + (x + left) == (done + x) + left;
  }

  lemma FillStep(data: seq<byte>, k: nat, done: seq<byte>)
    requires Filling(data, k, done) && k < |data| && |done| < 1017
    ensures |done| + |EscapeByte(data[k])| <= |Chunk(data)|
    ensures Filling(data, k + 1, done + EscapeByte(data[k]))
  {
    FillRest(data[k..], done, Chunk(data));
    assert data[k..][1..] == data[k + 1..] && data[k..][0] == data[k];
  }

  lemma StopFilling(data: seq<byte>, k: nat, done: seq<byte>)
    requires Filling(data, k, done) && (k == |data| || |done| >= 1017)
    ensures k == ChunkSize(data, 0) && done == Chunk(data)
  {
    assert ChunkSize(data[k..], |done|) == 0;
    assert done + [] == done;
  }

  // ----- the size of the packet buffer -----

  const MAX_PACKET_SIZE := 1024

  /** '$', the payload, '#', two digits and a NUL fit a buffer. */
  predicate FitsPacket(p: seq<byte>, capacity: nat) {
    |p| + 5 <= capacity
  }

  predicate AllFitPacket(ps: seq<seq<byte>>, capacity: nat) {
    forall i :: 0 <= i < |ps| ==> FitsPacket(ps[i], capacity)
  }

  lemma FirstFits(ps: seq<seq<byte>>, capacity: nat)
    requires ps != [] && AllFitPacket(ps, capacity)
    ensures FitsPacket(ps[0], capacity) && AllFitPacket(ps[1..], capacity)
  {
  }

  /** A chunk that leaves bytes behind is full, up to half an escape. */
  lemma {:induction false} ChunkFull(data: seq<byte>, used: nat)
    requires ChunkSize(data, used) < |data|
    ensures used + |Escape(data[..ChunkSize(data, used)])| >= 1017
    decreases |data|
  {
    if used < 1017 {
      ChunkFull(data[1..], used + |EscapeByte(data[0])|);
      ChunkStep(data, used);
    }
  }

  lemma {:induction false} EscapePrefix(data: seq<byte>, k: nat)
    requires k <= |data|
    ensures |Escape(data[..k])| <= |Escape(data)|
  {
    if k > 0 {
      EscapePrefix(data[1..], k - 1);
      assert data[..k][1..] == data[1..][..k - 1];
    }
  }

  /**
    The declared size does not count the 19 bytes of header: the packets of a memory
    write fit the buffer exactly when the whole escaped data is at most 1000 bytes.
   */
  lemma PacketsFitIff(address: word, data: seq<byte>)
    ensures AllFitPacket(XPackets(address, data), MAX_PACKET_SIZE) <==> |Escape(data)| <= 1000
  {
    if data != [] {
      var k, ps := ChunkSize(data, 0), XPackets(address, data);
      XPacketsFirst(address, data);
      EscapePrefix(data, k);
      assert |ps[0]| == 19 + |Escape(data[..k])|;
      if k < |data| {
        ChunkFull(data, 0);
        assert !FitsPacket(ps[0], MAX_PACKET_SIZE);
      } else {
        assert data[..k] == data && data[k..] == [] && ps == [ps[0]];
      }
    }
  }

  /** Bytes that are not special stand for themselves. */
  lemma {:induction false} PlainEscape(s: seq<byte>)
    requires forall i :: 0 <= i < |s| ==> !IsSpecial(s[i])
    ensures Escape(s) == s
  {
    if s != [] { PlainEscape(s[1..]); }
  }

  /** So 1001 zero bytes do not fit, wherever they go. */
  lemma PacketsMayNotFit(address: word)
    ensures !AllFitPacket(XPackets(address, seq(1001, _ => 0)), MAX_PACKET_SIZE)
  {
    var data: seq<byte> := seq(1001, _ => 0);
    PlainEscape(data);
    PacketsFitIff(address, data);
  }

  /** A buffer of 1042 bytes, header included, serves every memory write. */
  lemma PacketsFitFull(address: word, data: seq<byte>)
    ensures AllFitPacket(XPackets(address, data), 1042)
  {
    PacketsSound(address, data);
  }

  // ----- register writes -----

  function HexBytes(s: seq<byte>): (t: seq<byte>)
    ensures |t| == 2 * |s| && Unmarked(t) && AllHex(t)
  {
    if s == [] then [] else HexBytes(s[..|s| - 1]) + Hex(s[|s| - 1], 2)
  }

  lemma HexBytesSnoc(s: seq<byte>, b: byte)
    ensures HexBytes(s + [b]) == HexBytes(s) + Hex(b, 2)
  {
    assert (s + [b])[..|s|] == s;
  }

  /** "P num=" and the bytes of the value in the order of the target. */
  function RegisterPayload(target: Host, num: byte, value: word): seq<byte> {
    [LETTER_P] + Hex(num, 2) + [EQUALS] + HexBytes(WordImage(target, value))
  }

  predicate IsRegister(p: seq<byte>) {
    |p| == 12 && p[0] == LETTER_P && p[3] == EQUALS && AllHex(p[1..3]) && AllHex(p[4..])
  }

  function PairValue(s: seq<byte>, i: nat): byte
    requires AllHex(s) && 2 * i + 1 < |s|
  {
    16 * DigitValue(s[2 * i]) + DigitValue(s[2 * i + 1])
  }

  /** The register and the value a target of this byte order reads. */
  function DecodeRegister(target: Host, p: seq<byte>): (nat, word)
    requires IsRegister(p)
  {
    var s := p[4..];
    (Parse(p[1..3]),
     WordIn(target, [PairValue(s, 0), PairValue(s, 1), PairValue(s, 2), PairValue(s, 3)]))
  }

  /** The value of two digits. */
  lemma PairOfByte(b: byte)
    ensures 16 * DigitValue(Hex(b, 2)[0]) + DigitValue(Hex(b, 2)[1]) == b
  {
    assert Hex(b / 16, 1) == Hex(b / 16 / 16, 0) + [HexDigit(b / 16 % 16)];
    assert Hex(b, 2) == [HexDigit(b / 16), HexDigit(b % 16)];
  }

  lemma {:induction false} PairOfHexBytes(s: seq<byte>, i: nat)
    requires i < |s|
    ensures PairValue(HexBytes(s), i) == s[i]
  {
    var front, last := s[..|s| - 1], s[|s| - 1];
    var t, u, v := HexBytes(s), HexBytes(front), Hex(last, 2);
    assert t == u + v;
    if i < |s| - 1 {
      PairOfHexBytes(front, i);
      assert t[2 * i] == u[2 * i] && t[2 * i + 1] == u[2 * i + 1];
    } else {
      assert t[2 * i] == v[0] && t[2 * i + 1] == v[1];
      PairOfByte(last);
    }
  }

  /** Register frames decode to the register and the value. */
  lemma RegisterRoundTrip(target: Host, num: byte, value: word)
    ensures
      var p := RegisterPayload(target, num, value);
      IsRegister(p) && Unmarked(p) && DecodeRegister(target, p) == (num, value)
  {
    var p, s := RegisterPayload(target, num, value), WordImage(target, value);
    assert p[1..3] == Hex(num, 2) && p[4..] == HexBytes(s);
    RegisterUnmarked(target, num, value);
    Powers();
    ParseHex(num, 2);
    PairOfHexBytes(s, 0);
    PairOfHexBytes(s, 1);
    PairOfHexBytes(s, 2);
    PairOfHexBytes(s, 3);
    assert s == [s[0], s[1], s[2], s[3]];
    WordRoundTrip(target, value);
  }

  lemma RegisterUnmarked(target: Host, num: byte, value: word)
    ensures Unmarked(RegisterPayload(target, num, value))
  {
    var p, n, s := RegisterPayload(target, num, value), Hex(num, 2), HexBytes(WordImage(target, value));
    forall i | 0 <= i < |p|
      ensures !IsMark(p[i])
    {
      assert p[i] == if i == 0 then LETTER_P else if i < 3 then n[i - 1] else if i == 3 then EQUALS else s[i - 4];
    }
  }
}
