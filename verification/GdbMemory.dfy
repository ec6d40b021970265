/**
  What a memory write leaves in the memory of the target: the bytes that a run puts
  on the wire, acknowledgements, requests and repeated frames included, are scanned
  by the receiver and its writes are performed.
 */
module GdbMemory {
  import opened Words
  import opened ScannerRules
  import opened GdbFrames
  import opened GdbLink

  // ----- memory -----

  type Memory = map<word, byte>

  /** The memory after these writes, in order. */
  function Store(mem: Memory, writes: seq<(word, byte)>): Memory
    decreases |writes|
  {
    if writes == [] then mem else Store(mem[writes[0].0 := writes[0].1], writes[1..])
  }

  predicate Written(writes: seq<(word, byte)>, a: word) {
    exists i :: 0 <= i < |writes| && writes[i].0 == a
  }

  predicate SameAt(m: Memory, m': Memory, a: word) {
    (a in m <==> a in m') && (a in m ==> m[a] == m'[a])
  }

  lemma WrittenFirst(writes: seq<(word, byte)>, a: word)
    requires writes != []
    ensures Written(writes, a) <==> a == writes[0].0 || Written(writes[1..], a)
  {
    if Written(writes[1..], a) {
      var i :| 0 <= i < |writes[1..]| && writes[1..][i].0 == a;
      assert writes[i + 1].0 == a;
    }
    if i :| 0 < i < |writes| && writes[i].0 == a { assert writes[1..][i - 1].0 == a; }
  }

  lemma {:induction false} StoreConcat(mem: Memory, ws: seq<(word, byte)>, vs: seq<(word, byte)>)
    ensures Store(mem, ws + vs) == Store(Store(mem, ws), vs)
    decreases |ws|
  {
    if ws == [] {
      assert ws + vs == vs;
    } else {
      assert (ws + vs)[1..] == ws[1..] + vs;
      StoreConcat(mem[ws[0].0 := ws[0].1], ws[1..], vs);
    }
  }

  lemma {:induction false} StoreElsewhere(mem: Memory, writes: seq<(word, byte)>, a: word)
    requires !Written(writes, a)
    ensures SameAt(Store(mem, writes), mem, a)
    decreases |writes|
  {
    if writes != [] {
      WrittenFirst(writes, a);
      StoreElsewhere(mem[writes[0].0 := writes[0].1], writes[1..], a);
    }
  }

  /** Memories that differ at written addresses only become equal. */
  lemma {:induction false} StoreLevels(m: Memory, m': Memory, writes: seq<(word, byte)>)
    requires forall a :: SameAt(m, m', a) || Written(writes, a)
    ensures Store(m, writes) == Store(m', writes)
    decreases |writes|
  {
    if writes == [] {
      forall a: word
        ensures (a in m <==> a in m') && (a in m ==> m[a] == m'[a])
      {
        assert SameAt(m, m', a) || Written(writes, a);
      }
      assert m.Keys == m'.Keys;
    } else {
      var w := writes[0];
      forall a
        ensures SameAt(m[w.0 := w.1], m'[w.0 := w.1], a) || Written(writes[1..], a)
      {
        WrittenFirst(writes, a);
        assert SameAt(m, m', a) || Written(writes, a);
      }
      StoreLevels(m[w.0 := w.1], m'[w.0 := w.1], writes[1..]);
    }
  }

  /** Performing the same writes again changes nothing. */
  lemma StoreTwice(mem: Memory, writes: seq<(word, byte)>)
    ensures Store(Store(mem, writes), writes) == Store(mem, writes)
  {
    forall a
      ensures SameAt(Store(mem, writes), mem, a) || Written(writes, a)
    {
      if !Written(writes, a) { StoreElsewhere(mem, writes, a); }
    }
    StoreLevels(Store(mem, writes), mem, writes);
  }

  // ----- repeated packets -----

  predicate Positive(counts: seq<nat>) {
    forall i :: 0 <= i < |counts| ==> counts[i] >= 1
  }

  /** Each payload as often as its count says. */
  function Repeat(ps: seq<seq<byte>>, counts: seq<nat>): seq<seq<byte>>
    requires |ps| == |counts|
  {
    if ps == [] then [] else Copies(ps[0], counts[0]) + Repeat(ps[1..], counts[1..])
  }

  function WritesOf(p: seq<byte>): seq<(word, byte)>
    requires IsX(p) && DecodeX(p).address < 0x1_0000_0000
  {
    At(DecodeX(p).address, DecodeX(p).bytes)
  }

  /** Storing what a list of packets says is storing the first and then the others. */
  lemma StoreCons(mem: Memory, p: seq<byte>, ps: seq<seq<byte>>)
    requires IsX(p) && DecodeX(p).address < 0x1_0000_0000 && AllX(ps)
    ensures AllX([p] + ps)
    ensures Store(mem, Deliver([p] + ps)) == Store(Store(mem, WritesOf(p)), Deliver(ps))
  {
    DeliverCons(p, ps);
    StoreConcat(mem, WritesOf(p), Deliver(ps));
  }

  lemma FirstOfX(ps: seq<seq<byte>>)
    requires AllX(ps) && ps != []
    ensures IsX(ps[0]) && DecodeX(ps[0]).address < 0x1_0000_0000 && AllX(ps[1..])
  {
  }

  /** One copy less of the first payload. */
  function OneLess(counts: seq<nat>): (less: seq<nat>)
    requires counts != [] && counts[0] > 1 && Positive(counts)
    ensures |less| == |counts| && less[0] == counts[0] - 1 && less[1..] == counts[1..] && Positive(less)
  {
    counts[0 := counts[0] - 1]
  }

  lemma CopiesFirst(w: seq<byte>, n: nat, later: seq<seq<byte>>)
    requires n >= 1
    ensures Copies(w, n) + later == [w] + (Copies(w, n - 1) + later)
  {
    assert Copies(w, n) == [w] + Copies(w, n - 1);
  }

  lemma NoCopies(w: seq<byte>, later: seq<seq<byte>>)
    ensures Copies(w, 0) + later == later
  {
  }

  lemma RepeatStep(ps: seq<seq<byte>>, counts: seq<nat>)
    requires |ps| == |counts| && ps != [] && Positive(counts)
    ensures Repeat(ps, counts)
            == [ps[0]] + if counts[0] > 1 then Repeat(ps, OneLess(counts)) else Repeat(ps[1..], counts[1..])
  {
    var n, later := counts[0], Repeat(ps[1..], counts[1..]);
    CopiesFirst(ps[0], n, later);
    if n > 1 {
      assert Repeat(ps, OneLess(counts)) == Copies(ps[0], n - 1) + later;
    } else {
      NoCopies(ps[0], later);
    }
  }

  /** Whatever number of copies of each packet the target accepts, at least one, the memory is the same. */
  lemma {:induction false} RepeatsHarmless(mem: Memory, ps: seq<seq<byte>>, counts: seq<nat>)
    requires |ps| == |counts| && Positive(counts) && AllX(ps)
    ensures AllX(Repeat(ps, counts)) && Store(mem, Deliver(Repeat(ps, counts))) == Store(mem, Deliver(ps))
    decreases |ps|, if counts == [] then 0 else counts[0]
  {
    if ps != [] {
      var p, rest := ps[0], ps[1..];
      FirstOfX(ps);
      RepeatStep(ps, counts);
      assert ps == [p] + rest;
      var m := Store(mem, WritesOf(p));
      StoreCons(mem, p, rest);
      if counts[0] > 1 {
        RepeatsHarmless(m, ps, OneLess(counts));
        StoreCons(mem, p, Repeat(ps, OneLess(counts)));
        StoreCons(m, p, rest);
        StoreTwice(mem, WritesOf(p));
      } else {
        RepeatsHarmless(m, rest, counts[1..]);
        StoreCons(mem, p, Repeat(rest, counts[1..]));
      }
    }
  }

  // ----- the data in memory -----

  /** No two bytes of at most 2 to the 32 go to the same address. */
  lemma AtDistinct(address: word, data: seq<byte>, i: nat, j: nat)
    requires i < j < |data| <= 0x1_0000_0000
    ensures At(address, data)[i].0 != At(address, data)[j].0
  {
  }

  lemma {:induction false} LastWriteStays(mem: Memory, writes: seq<(word, byte)>, i: nat)
    requires i < |writes| && forall j :: i < j < |writes| ==> writes[j].0 != writes[i].0
    ensures writes[i].0 in Store(mem, writes) && Store(mem, writes)[writes[i].0] == writes[i].1
    decreases i
  {
    var m, later := mem[writes[0].0 := writes[0].1], writes[1..];
    if i == 0 {
      forall j | 0 <= j < |later| ensures later[j].0 != writes[0].0 { assert later[j] == writes[j + 1]; }
      StoreElsewhere(m, later, writes[0].0);
    } else {
      assert later[i - 1] == writes[i];
      forall j | i - 1 < j < |later| ensures later[j].0 != later[i - 1].0 { assert later[j] == writes[j + 1]; }
      LastWriteStays(m, later, i - 1);
    }
  }

  /** A stored buffer is found byte by byte from its address, and other addresses are as before. */
  lemma StoredData(mem: Memory, address: word, data: seq<byte>)
    requires |data| <= 0x1_0000_0000
    ensures
      var m := Store(mem, At(address, data));
      && (forall i :: 0 <= i < |data| ==> At(address, data)[i].0 in m && m[At(address, data)[i].0] == data[i])
      && forall a :: Written(At(address, data), a) || SameAt(m, mem, a)
  {
    var ws := At(address, data);
    forall i | 0 <= i < |data|
      ensures ws[i].0 in Store(mem, ws) && Store(mem, ws)[ws[i].0] == data[i]
    {
      forall j | i < j < |ws| ensures ws[j].0 != ws[i].0 { AtDistinct(address, data, i, j); }
      LastWriteStays(mem, ws, i);
    }
    forall a | !Written(ws, a)
      ensures SameAt(Store(mem, ws), mem, a)
    {
      StoreElsewhere(mem, ws, a);
    }
  }

  // ----- the receiver -----

  /** The writes as one stream of bytes. */
  function Bytes(ws: seq<seq<byte>>): seq<byte> {
    if ws == [] then [] else ws[0] + Bytes(ws[1..])
  }

  /** The bodies of the frames that pass, as the receiver takes them. */
  function Bodies(xs: seq<Lexeme>): seq<seq<byte>> {
    if xs == [] then []
    else
      var last := xs[|xs| - 1];
      Bodies(xs[..|xs| - 1]) + if Accepted(last) then [Body(last.text)] else []
  }

  function Frames(ps: seq<seq<byte>>): seq<seq<byte>> {
    seq(|ps|, i requires 0 <= i < |ps| => Frame(ps[i]))
  }

  function ItemOf(w: seq<byte>): Item {
    if w == ACK then Plus else if w == NACK then Minus else if |w| >= 4 then Packet(Body(w)) else Minus
  }

  function ItemsOf(ws: seq<seq<byte>>): seq<Item> {
    seq(|ws|, i requires 0 <= i < |ws| => ItemOf(ws[i]))
  }

  /** A write that renders an acknowledgement, a request or an unmarked payload. */
  predicate Proper(w: seq<byte>) {
    Render(ItemOf(w)) == w && (ItemOf(w).Packet? ==> Unmarked(ItemOf(w).payload))
  }

  predicate AllProper(ws: seq<seq<byte>>) {
    forall i :: 0 <= i < |ws| ==> Proper(ws[i])
  }

  predicate AllPlain(ps: seq<seq<byte>>) {
    forall i :: 0 <= i < |ps| ==> Unmarked(ps[i])
  }

  lemma FrameProper(p: seq<byte>)
    requires Unmarked(p)
    ensures Frame(p) != ACK && Frame(p) != NACK && Proper(Frame(p)) && ItemOf(Frame(p)) == Packet(p)
    ensures Accepted(LexemeOf(Packet(p))) && Body(Frame(p)) == p
  {
    FrameShape(p);
  }

  lemma ProperFirst(ws: seq<seq<byte>>)
    requires AllProper(ws) && ws != []
    ensures Render(ItemsOf(ws)[0]) == ws[0] && ItemsOf(ws)[1..] == ItemsOf(ws[1..]) && AllProper(ws[1..])
  {
    assert Proper(ws[0]);
  }

  lemma {:induction false} ProperBytes(ws: seq<seq<byte>>)
    requires AllProper(ws)
    ensures Bytes(ws) == Stream(ItemsOf(ws))
  {
    if ws != [] {
      ProperFirst(ws);
      ProperBytes(ws[1..]);
    }
  }

  lemma ControlProper(w: seq<byte>)
    requires w == ACK || w == NACK
    ensures Proper(w) && !Accepted(LexemeOf(ItemOf(w)))
  {
  }

  lemma ProperSnoc(front: seq<seq<byte>>, last: seq<byte>)
    requires AllProper(front) && Proper(last)
    ensures AllProper(front + [last])
  {
  }

  /** The last of the writes, among the bodies found. */
  lemma BodiesSnoc(front: seq<seq<byte>>, last: seq<byte>)
    ensures
      var x := LexemeOf(ItemOf(last));
      Bodies(LexemesOf(ItemsOf(front + [last])))
      == Bodies(LexemesOf(ItemsOf(front))) + if Accepted(x) then [Body(x.text)] else []
  {
    var xs := LexemesOf(ItemsOf(front + [last]));
    assert xs[..|xs| - 1] == LexemesOf(ItemsOf(front));
  }

  lemma LastFrame(ps: seq<seq<byte>>, before: seq<seq<byte>>, last: seq<byte>)
    requires before + [last] == Frames(ps)
    ensures ps != [] && last == Frame(ps[|ps| - 1]) && before == Frames(ps[..|ps| - 1])
  {
    assert |Frames(ps)| == |ps| && (before + [last])[|before|] == last;
    assert before == (before + [last])[..|before|];
  }

  /** The writes are proper, and these bodies are found in them. */
  predicate Finds(ws: seq<seq<byte>>, ps: seq<seq<byte>>) {
    AllProper(ws) && Bodies(LexemesOf(ItemsOf(ws))) == ps
  }

  lemma FindsControl(front: seq<seq<byte>>, last: seq<byte>, ps: seq<seq<byte>>)
    requires Finds(front, ps) && (last == ACK || last == NACK)
    ensures Finds(front + [last], ps)
  {
    ControlProper(last);
    ProperSnoc(front, last);
    BodiesSnoc(front, last);
  }

  lemma FindsFrame(front: seq<seq<byte>>, ps: seq<seq<byte>>, p: seq<byte>)
    requires Finds(front, ps) && Unmarked(p)
    ensures Finds(front + [Frame(p)], ps + [p])
  {
    FrameProper(p);
    ProperSnoc(front, Frame(p));
    BodiesSnoc(front, Frame(p));
  }

  /** In writes that contain exactly the frames of ps, ps is found. */
  lemma {:induction false} BodiesFound(ws: seq<seq<byte>>, ps: seq<seq<byte>>)
    requires FrameWrites(ws) == Frames(ps) && AllPlain(ps)
    ensures Finds(ws, ps)
    decreases |ws|
  {
    if ws == [] {
      assert |Frames(ps)| == |ps|;
    } else {
      var front, last := ws[..|ws| - 1], ws[|ws| - 1];
      assert ws == front + [last];
      if last == ACK || last == NACK {
        BodiesFound(front, ps);
        FindsControl(front, last, ps);
      } else {
        LastFrame(ps, FrameWrites(front), last);
        var rest, p := ps[..|ps| - 1], ps[|ps| - 1];
        assert ps == rest + [p];
        BodiesFound(front, rest);
        FindsFrame(front, rest, p);
      }
    }
  }

  lemma ProperUnmarked(ws: seq<seq<byte>>)
    requires AllProper(ws)
    ensures AllUnmarked(ItemsOf(ws))
  {
    forall i | 0 <= i < |ws|
      ensures ItemsOf(ws)[i].Packet? ==> Unmarked(ItemsOf(ws)[i].payload)
    {
      assert Proper(ws[i]);
    }
  }

  /** Scanning such writes as one stream finds them. */
  lemma ReceiverFinds(ws: seq<seq<byte>>, ps: seq<seq<byte>>)
    requires FrameWrites(ws) == Frames(ps) && AllPlain(ps)
    ensures Bodies(Lexemes(Bytes(ws))) == ps
  {
    BodiesFound(ws, ps);
    ProperBytes(ws);
    ProperUnmarked(ws);
    StreamScans(ItemsOf(ws));
  }

  // ----- the run -----

  /** How often the frame of each payload goes out: once, and once for each '-' of its call. */
  function Sends(n: nat, input: seq<byte>): (counts: seq<nat>)
    ensures |counts| == n && Positive(counts)
  {
    if n == 0 then [] else [1 + Minuses(Consumed(input))] + Sends(n - 1, Left(input))
  }

  lemma FramesConcat(ps: seq<seq<byte>>, qs: seq<seq<byte>>)
    ensures Frames(ps + qs) == Frames(ps) + Frames(qs)
  {
  }

  lemma {:induction false} TransmissionsRepeat(ps: seq<seq<byte>>, input: seq<byte>)
    ensures Transmissions(ps, input) == Frames(Repeat(ps, Sends(|ps|, input)))
    decreases |ps|
  {
    if ps != [] {
      var counts := Sends(|ps|, input);
      assert counts[1..] == Sends(|ps| - 1, Left(input));
      TransmissionsRepeat(ps[1..], Left(input));
      assert Frames(Copies(ps[0], counts[0])) == Copies(Frame(ps[0]), counts[0]);
      FramesConcat(Copies(ps[0], counts[0]), Repeat(ps[1..], counts[1..]));
    }
  }

  lemma {:induction false} RepeatPlain(ps: seq<seq<byte>>, counts: seq<nat>)
    requires |ps| == |counts| && AllPlain(ps)
    ensures AllPlain(Repeat(ps, counts))
  {
    if ps != [] { RepeatPlain(ps[1..], counts[1..]); }
  }

  lemma {:induction false} CallGrows(l: Link, input: seq<byte>)
    ensures l.wire <= Yylex(l, input).link.wire
    decreases |input|
  {
    if input != [] {
      FirstLexical(input);
      var x := First(input);
      assert l.wire <= Act(l, x).wire;
      if !Accepted(x) { CallGrows(Act(l, x), input[|x.text|..]); }
    }
  }

  /** What is written stays written. */
  lemma {:induction false} RunGrows(l: Link, payloads: seq<seq<byte>>, input: seq<byte>)
    ensures l.wire <= Exchange(l, payloads, input).link.wire
    decreases |payloads|
  {
    if payloads != [] {
      var o := Yylex(Send(l, payloads[0]), input);
      CallGrows(Send(l, payloads[0]), input);
      RunGrows(o.link, payloads[1..], o.rest);
    }
  }

  lemma {:induction false} FrameWritesConcat(vs: seq<seq<byte>>, ws: seq<seq<byte>>)
    ensures FrameWrites(vs + ws) == FrameWrites(vs) + FrameWrites(ws)
    decreases |ws|
  {
    if ws == [] {
      assert vs + ws == vs;
    } else {
      assert (vs + ws)[..|vs + ws| - 1] == vs + ws[..|ws| - 1];
      FrameWritesConcat(vs, ws[..|ws| - 1]);
    }
  }

  /** The bytes a run adds to the wire. */
  function Added(before: seq<seq<byte>>, after: seq<seq<byte>>): seq<byte> {
    if before <= after then Bytes(after[|before|..]) else []
  }

  lemma SameTail(xs: seq<seq<byte>>, ys: seq<seq<byte>>, zs: seq<seq<byte>>)
    requires xs + ys == xs + zs
    ensures ys == zs
  {
    assert ys == (xs + ys)[|xs|..] && zs == (xs + zs)[|xs|..];
  }

  /** The frames among the added writes. */
  lemma AddedFrames(before: seq<seq<byte>>, after: seq<seq<byte>>, frames: seq<seq<byte>>)
    requires before <= after && FrameWrites(after) == FrameWrites(before) + frames
    ensures FrameWrites(after[|before|..]) == frames
  {
    var ws := after[|before|..];
    assert after == before + ws;
    FrameWritesConcat(before, ws);
    SameTail(FrameWrites(before), FrameWrites(ws), frames);
  }

  /** Over any run of unmarked payloads the receiver finds each of them, as often as it was sent. */
  lemma RunArrives(l: Link, ps: seq<seq<byte>>, input: seq<byte>)
    requires AllPlain(ps)
    ensures
      var after := Exchange(l, ps, input).link.wire;
      && l.wire <= after
      && Bodies(Lexemes(Added(l.wire, after))) == Repeat(ps, Sends(|ps|, input))
  {
    var after, sent := Exchange(l, ps, input).link.wire, Repeat(ps, Sends(|ps|, input));
    RunGrows(l, ps, input);
    RunTransmits(l, ps, input);
    AddedFrames(l.wire, after, Transmissions(ps, input));
    TransmissionsRepeat(ps, input);
    RepeatPlain(ps, Sends(|ps|, input));
    ReceiverFinds(after[|l.wire|..], sent);
  }

  /** The receiver of what was added to the wire performs the write of data at address. */
  predicate Arrived(before: seq<seq<byte>>, after: seq<seq<byte>>, address: word, data: seq<byte>, mem: Memory) {
    var bodies := Bodies(Lexemes(Added(before, after)));
    && before <= after
    && AllX(bodies) && Store(mem, Deliver(bodies)) == Store(mem, At(address, data))
  }

  /**
    End to end: over a memory write, whatever is received and however often frames
    are asked for again, scanning the bytes put on the wire and performing every
    write found leaves the buffer in memory.
   */
  lemma MemoryRunArrives(l: Link, address: word, data: seq<byte>, input: seq<byte>, mem: Memory)
    ensures Arrived(l.wire, Exchange(l, XPackets(address, data), input).link.wire, address, data, mem)
  {
    var ps := XPackets(address, data);
    MemoryWriteFaithful(address, data);
    assert AllPlain(ps) by { forall i | 0 <= i < |ps| ensures Unmarked(ps[i]) { assert Sound(ps[i]); } }
    RunArrives(l, ps, input);
    RepeatsHarmless(mem, ps, Sends(|ps|, input));
  }
}
