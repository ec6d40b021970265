/**
  Bytes, halves and words of the ELF32 format, the memory image a host gives
  them, and the byte reversals of util.h.
 */
module Words {
  import Bytes

  type byte = Bytes.byte
  type half = x: int | 0 <= x < 0x1_0000
  type word = x: int | 0 <= x < 0x1_0000_0000

  /** What is_big_endian() answers on the machine the program runs on. */
  datatype Host = BigEndian | LittleEndian

  /** An unsigned 32-bit sum wraps around. */
  function AddWord(x: word, y: word): word {
    var sum: int := x + y;
    if sum < 0x1_0000_0000 then sum else sum - 0x1_0000_0000
  }

  /** So does a difference. */
  function SubWord(x: word, y: word): word {
    var difference: int := x - y;
    if difference >= 0 then difference else difference + 0x1_0000_0000
  }

  /** The value whose bytes are these, the most significant one first. */
  function Compose(b3: int, b2: int, b1: int, b0: int): (x: int)
    requires 0 <= b3 < 0x100 && 0 <= b2 < 0x100 && 0 <= b1 < 0x100 && 0 <= b0 < 0x100
    ensures 0 <= x < 0x1_0000_0000
  {
    b3 * 0x100_0000 + b2 * 0x1_0000 + b1 * 0x100 + b0
  }

  /** The four bytes of a word: each is a shifted word less the bytes above it. */
  function Byte3(x: word): byte { x / 0x100_0000 }
  function Byte2(x: word): byte { x / 0x1_0000 - x / 0x100_0000 * 0x100 }
  function Byte1(x: word): byte { x / 0x100 - x / 0x1_0000 * 0x100 }
  function Byte0(x: word): byte { x - x / 0x100 * 0x100 }

  /** The macro reverse_2. */
  function Reverse2(x: half): half {
    (x % 0x100) * 0x100 + x / 0x100
  }

  /** The macro reverse_4. */
  function Reverse4(x: word): word {
    Compose(Byte0(x), Byte1(x), Byte2(x), Byte3(x))
  }

  lemma BytesOfComposed(b3: byte, b2: byte, b1: byte, b0: byte)
    ensures
      var x := Compose(b3, b2, b1, b0);
      Byte3(x) == b3 && Byte2(x) == b2 && Byte1(x) == b1 && Byte0(x) == b0
  {
    var x := Compose(b3, b2, b1, b0);
    assert x / 0x1_0000 == b3 * 0x100 + b2;
    assert x / 0x100 == b3 * 0x1_0000 + b2 * 0x100 + b1;
    assert x / 0x100 % 0x100 == b1 by {
      assert x / 0x100 == 0x100 * (b3 * 0x100 + b2) + b1;
    }
  }

  lemma ComposedOfBytes(x: word)
    ensures Compose(Byte3(x), Byte2(x), Byte1(x), Byte0(x)) == x
  {
    assert x / 0x100 / 0x100 == x / 0x1_0000;
    assert x / 0x1_0000 / 0x100 == x / 0x100_0000;
  }

  // ----- the bytes of one member -----

  /**
    A member of an ELF structure by its bytes, the most significant one first: an
    unsigned char, a Half, or a Word/Addr/Off.
   */
  datatype Field = B(b: byte) | H(h1: byte, h0: byte) | W(w3: byte, w2: byte, w1: byte, w0: byte)

  datatype Width = One | Two | Four {
    function Size(): nat {
      match this case One => 1 case Two => 2 case Four => 4
    }
  }

  function WidthOf(f: Field): Width {
    match f case B(_) => One case H(_, _) => Two case W(_, _, _, _) => Four
  }

  function HalfField(x: half): Field { H(x / 0x100, x % 0x100) }
  function WordField(x: word): Field { W(Byte3(x), Byte2(x), Byte1(x), Byte0(x)) }

  function HalfOf(f: Field): half
    requires f.H?
  {
    Compose(0, 0, f.h1, f.h0)
  }

  function WordOf(f: Field): word
    requires f.W?
  {
    Compose(f.w3, f.w2, f.w1, f.w0)
  }

  /** The bytes a host keeps in memory for a member; fwrite copies exactly these. */
  function FieldImage(host: Host, f: Field): (s: seq<byte>)
    ensures |s| == WidthOf(f).Size()
  {
    match f
    case B(b) => [b]
    case H(b1, b0) => if host.BigEndian? then [b1, b0] else [b0, b1]
    case W(b3, b2, b1, b0) => if host.BigEndian? then [b3, b2, b1, b0] else [b0, b1, b2, b3]
  }

  /** The member a host sees once fread has filled its memory with s. */
  function FieldOf(host: Host, w: Width, s: seq<byte>): (f: Field)
    requires |s| == w.Size()
    ensures WidthOf(f) == w
  {
    match w
    case One => B(s[0])
    case Two => if host.BigEndian? then H(s[0], s[1]) else H(s[1], s[0])
    case Four => if host.BigEndian? then W(s[0], s[1], s[2], s[3]) else W(s[3], s[2], s[1], s[0])
  }

  function WordImage(host: Host, x: word): (s: seq<byte>)
    ensures |s| == 4
  {
    FieldImage(host, WordField(x))
  }

  function WordIn(host: Host, s: seq<byte>): word
    requires |s| == 4
  {
    WordOf(FieldOf(host, Four, s))
  }

  function SwapField(f: Field): Field {
    match f
    case B(b) => B(b)
    case H(b1, b0) => H(b0, b1)
    case W(b3, b2, b1, b0) => W(b0, b1, b2, b3)
  }

  /** "if (!is_big_endian()) swap_endianess". */
  function ToFileOrder(host: Host, f: Field): Field {
    if host.BigEndian? then f else SwapField(f)
  }

  // ----- the macros reverse the bytes of a member -----

  lemma ReversedHalf(f: Field)
    requires f.H?
    ensures Reverse2(HalfOf(f)) == HalfOf(SwapField(f))
  {
    var x := HalfOf(f);
    assert x / 0x100 == f.h1 && x % 0x100 == f.h0;
  }

  lemma ReversedWord(f: Field)
    requires f.W?
    ensures Reverse4(WordOf(f)) == WordOf(SwapField(f))
  {
    BytesOfComposed(f.w3, f.w2, f.w1, f.w0);
  }

  lemma FieldOfReversedHalf(x: half)
    ensures HalfField(Reverse2(x)) == SwapField(HalfField(x))
  {
    assert Reverse2(x) / 0x100 == x % 0x100 && Reverse2(x) % 0x100 == x / 0x100;
  }

  lemma FieldOfReversedWord(x: word)
    ensures WordField(Reverse4(x)) == SwapField(WordField(x))
  {
    BytesOfComposed(Byte0(x), Byte1(x), Byte2(x), Byte3(x));
  }

  lemma WordOfField(x: word)
    ensures WordOf(WordField(x)) == x
  {
    ComposedOfBytes(x);
  }

  lemma ReversedHalfTwice(x: half)
    ensures Reverse2(Reverse2(x)) == x
  {
    FieldOfReversedHalf(x);
  }

  lemma ReversedWordTwice(x: word)
    ensures Reverse4(Reverse4(x)) == x
  {
    ReversedWord(SwapField(WordField(x)));
    WordOfField(x);
  }

  lemma WordRoundTrip(host: Host, x: word)
    ensures WordIn(host, WordImage(host, x)) == x
  {
    WordOfField(x);
  }

  /** Swapping first makes every host write the big-endian bytes of a word. */
  lemma WordWrittenAlike(host: Host, x: word)
    ensures WordImage(host, if host.BigEndian? then x else Reverse4(x)) == WordImage(BigEndian, x)
  {
    FieldOfReversedWord(x);
  }

  /** Swapping after the read makes every host see the big-endian word. */
  lemma WordReadAlike(host: Host, s: seq<byte>)
    requires |s| == 4
    ensures (if host.BigEndian? then WordIn(host, s) else Reverse4(WordIn(host, s))) == WordIn(BigEndian, s)
  {
    ReversedWord(FieldOf(host, Four, s));
  }

  // ----- structures are lists of members -----

  function LayoutSize(ws: seq<Width>): nat {
    if ws == [] then 0 else ws[0].Size() + LayoutSize(ws[1..])
  }

  function Layout(fs: seq<Field>): seq<Width> {
    seq(|fs|, i requires 0 <= i < |fs| => WidthOf(fs[i]))
  }

  lemma LayoutOfRest(fs: seq<Field>)
    requires fs != []
    ensures Layout(fs)[0] == WidthOf(fs[0]) && Layout(fs)[1..] == Layout(fs[1..])
  {
  }

  function Image(host: Host, fs: seq<Field>): (s: seq<byte>)
    ensures |s| == LayoutSize(Layout(fs))
  {
    if fs == [] then []
    else
      LayoutOfRest(fs);
      FieldImage(host, fs[0]) + Image(host, fs[1..])
  }

  /** Member-by-member reading, as read_Half, read_Word, read_Addr and read_Off do. */
  function Members(host: Host, ws: seq<Width>, s: seq<byte>): (fs: seq<Field>)
    requires |s| == LayoutSize(ws)
    ensures Layout(fs) == ws
  {
    if ws == [] then []
    else
      var fs := [FieldOf(host, ws[0], s[..ws[0].Size()])] + Members(host, ws[1..], s[ws[0].Size()..]);
      LayoutOfRest(fs);
      fs
  }

  function SwapAll(host: Host, fs: seq<Field>): seq<Field> {
    seq(|fs|, i requires 0 <= i < |fs| => ToFileOrder(host, fs[i]))
  }

  lemma SwapKeepsLayout(host: Host, fs: seq<Field>)
    ensures Layout(SwapAll(host, fs)) == Layout(fs)
  {
  }

  lemma {:induction false} MembersOfImage(host: Host, fs: seq<Field>)
    ensures Members(host, Layout(fs), Image(host, fs)) == fs
  {
    if fs != [] {
      var s, n := Image(host, fs), WidthOf(fs[0]).Size();
      MembersOfImage(host, fs[1..]);
      LayoutOfRest(fs);
      assert s[..n] == FieldImage(host, fs[0]) && s[n..] == Image(host, fs[1..]);
    }
  }

  /** Swapping all members first makes every host write the same bytes. */
  lemma {:induction false} WrittenAlike(host: Host, fs: seq<Field>)
    ensures Image(host, SwapAll(host, fs)) == Image(BigEndian, fs)
  {
    if fs != [] {
      WrittenAlike(host, fs[1..]);
      LayoutOfRest(fs);
      LayoutOfRest(SwapAll(host, fs));
      assert SwapAll(host, fs)[1..] == SwapAll(host, fs[1..]);
    }
  }

  /** Swapping all members after the read makes every host see the same members. */
  lemma {:induction false} ReadAlike(host: Host, ws: seq<Width>, s: seq<byte>)
    requires |s| == LayoutSize(ws)
    ensures SwapAll(host, Members(host, ws, s)) == Members(BigEndian, ws, s)
  {
    if ws != [] {
      var n := ws[0].Size();
      ReadAlike(host, ws[1..], s[n..]);
      assert Members(host, ws, s)[1..] == Members(host, ws[1..], s[n..]);
    }
  }
}
