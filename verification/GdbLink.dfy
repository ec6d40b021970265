/**
  The protocol on values: what each lexeme makes the client write, what a call of
  yylex does, and what holds over every run of sends and calls.
 */
module GdbLink {
  import opened Bytes
  import opened ScannerRules
  import opened GdbFrames

  /** The packet buffer up to its length, the error buffer up to its length, and the writes so far. */
  datatype Link = Link(packet: seq<byte>, err: seq<byte>, wire: seq<seq<byte>>)

  datatype Answer = Eof | Received(frame: seq<byte>)

  const ACK: seq<byte> := [PLUS]
  const NACK: seq<byte> := [MINUS]

  const MAX_ERROR_SIZE := 1024

  // ----- the actions of the rules -----

  function Write(l: Link, w: seq<byte>): Link {
    l.(wire := l.wire + [w])
  }

  function HandleError(l: Link): Link {
    if l.err == [] then l else Write(l, NACK).(err := [])
  }

  function AddCharacterToError(l: Link, c: byte): Link {
    var m := if |l.err| > 1022 then HandleError(l) else l;
    m.(err := m.err + [c])
  }

  predicate Lexical(x: Lexeme) {
    1 <= x.rule <= 5 && Matches(x.rule, x.text)
  }

  /** A frame that gdb_packet_check accepts. */
  predicate Accepted(x: Lexeme) {
    x.rule == 3 && IsFrame(x.text) && ChecksumOk(x.text)
  }

  function Act(l: Link, x: Lexeme): Link
    requires Lexical(x)
  {
    match x.rule
    case 1 => HandleError(l)
    case 2 => Write(HandleError(l), l.packet)
    case 3 => Write(HandleError(l), if Accepted(x) then ACK else NACK)
    case 4 => AddCharacterToError(l, x.text[0])
    case _ => l
  }

  lemma FirstLexical(s: seq<byte>)
    requires s != []
    ensures Lexical(First(s))
  {
    FirstIsLongest(s);
    assert s[..|First(s).text|] == First(s).text;
  }

  datatype Outcome = Outcome(link: Link, rest: seq<byte>, answer: Answer)

  /** One call of yylex: lexemes until an accepted frame or the end of the input. */
  function Yylex(l: Link, input: seq<byte>): Outcome
    decreases |input|
  {
    if input == [] then Outcome(HandleError(l), [], Eof)
    else
      FirstLexical(input);
      var x := First(input);
      var m, rest := Act(l, x), input[|x.text|..];
      if Accepted(x) then Outcome(m, rest, Received(x.text)) else Yylex(m, rest)
  }

  /** gdb_send_buffer. */
  function Send(l: Link, payload: seq<byte>): Link {
    Write(l.(packet := Frame(payload)), Frame(payload))
  }

  datatype Session = Session(link: Link, rest: seq<byte>, answers: seq<Answer>)

  /** A run of the client: each payload is sent, then one answer is awaited. */
  function Exchange(l: Link, payloads: seq<seq<byte>>, input: seq<byte>): Session
    decreases |payloads|
  {
    if payloads == [] then Session(l, input, [])
    else
      var o := Yylex(Send(l, payloads[0]), input);
      var s := Exchange(o.link, payloads[1..], o.rest);
      s.(answers := [o.answer] + s.answers)
  }

  function After(earlier: seq<Answer>, s: Session): Session {
    s.(answers := earlier + s.answers)
  }

  /** A run goes on from what its first send and call leave. */
  lemma ExchangeTurn(earlier: seq<Answer>, l: Link, payloads: seq<seq<byte>>, input: seq<byte>)
    requires payloads != []
    ensures
      var o := Yylex(Send(l, payloads[0]), input);
      After(earlier, Exchange(l, payloads, input))
      == After(earlier + [o.answer], Exchange(o.link, payloads[1..], o.rest))
  {
    var o := Yylex(Send(l, payloads[0]), input);
    var t := Exchange(o.link, payloads[1..], o.rest);
    assert earlier + ([o.answer] + t.answers) == (earlier + [o.answer]) + t.answers;
  }

  // ----- the lexemes a run consumes -----

  function Consumed(input: seq<byte>): seq<Lexeme>
    decreases |input|
  {
    if input == [] then []
    else
      var x := First(input);
      [x] + if Accepted(x) then [] else Consumed(input[|x.text|..])
  }

  /** What the next call finds. */
  function Left(input: seq<byte>): (rest: seq<byte>)
    ensures |rest| <= |input|
    decreases |input|
  {
    if input == [] then []
    else
      var x := First(input);
      if Accepted(x) then input[|x.text|..] else Left(input[|x.text|..])
  }

  /** The lexemes of n calls. */
  function ConsumedBy(n: nat, input: seq<byte>): seq<Lexeme> {
    if n == 0 then [] else Consumed(input) + ConsumedBy(n - 1, Left(input))
  }

  lemma {:induction false} ConsumedThenLeft(input: seq<byte>)
    ensures Lexemes(input) == Consumed(input) + Lexemes(Left(input))
    decreases |input|
  {
    if input != [] {
      var x := First(input);
      if !Accepted(x) { ConsumedThenLeft(input[|x.text|..]); }
    }
  }

  /** Successive calls consume the lexemes of the input in order, without gap or repetition. */
  lemma {:induction false} ConsumedInOrder(n: nat, input: seq<byte>)
    ensures ConsumedBy(n, input) <= Lexemes(input)
  {
    if n > 0 {
      ConsumedThenLeft(input);
      ConsumedInOrder(n - 1, Left(input));
    }
  }

  // ----- counting -----

  function Count(ws: seq<seq<byte>>, w: seq<byte>): nat {
    if ws == [] then 0 else Count(ws[..|ws| - 1], w) + if ws[|ws| - 1] == w then 1 else 0
  }

  lemma CountWrite(l: Link, v: seq<byte>, w: seq<byte>)
    ensures Count(Write(l, v).wire, w) == Count(l.wire, w) + if v == w then 1 else 0
  {
    assert Write(l, v).wire[..|l.wire|] == l.wire;
  }

  predicate IsMinus(x: Lexeme) { x.rule == 2 }
  predicate Rejected(x: Lexeme) { x.rule == 3 && !Accepted(x) }
  predicate IsJunk(x: Lexeme) { x.rule == 4 }

  function Minuses(xs: seq<Lexeme>): nat {
    if xs == [] then 0 else (if IsMinus(xs[0]) then 1 else 0) + Minuses(xs[1..])
  }

  function Rejections(xs: seq<Lexeme>): nat {
    if xs == [] then 0 else (if Rejected(xs[0]) then 1 else 0) + Rejections(xs[1..])
  }

  function Acceptances(xs: seq<Lexeme>): nat {
    if xs == [] then 0 else (if Accepted(xs[0]) then 1 else 0) + Acceptances(xs[1..])
  }

  /** The retransmission requests n junk bytes are worth: n / 1023, rounded up. */
  function Requests(n: nat): nat {
    (n + 1022) / 1023
  }

  /**
    The requests for all the junk of xs, n junk bytes being pending: junk bytes
    form groups that recognised lexemes and the end of xs close; newlines do not count.
   */
  function JunkRequests(n: nat, xs: seq<Lexeme>): nat
    decreases |xs|
  {
    if xs == [] then Requests(n)
    else if IsJunk(xs[0]) then JunkRequests(n + 1, xs[1..])
    else if xs[0].rule == 5 then JunkRequests(n, xs[1..])
    else Requests(n) + JunkRequests(0, xs[1..])
  }

  /** The bytes in the error buffer once n junk bytes are pending. */
  function Pending(n: nat): nat {
    if n == 0 then 0 else (n - 1) % 1023 + 1
  }

  /** The requests already made for them. */
  function Made(n: nat): nat {
    if n == 0 then 0 else (n - 1) / 1023
  }

  lemma RequestsMade(n: nat)
    ensures Requests(n) == Made(n) + if n == 0 then 0 else 1
    ensures Pending(n) <= 1023 && (Pending(n) == 0 <==> n == 0)
  {
  }

  lemma OneMore(n: nat)
    ensures Pending(n + 1) == (if Pending(n) > 1022 then 1 else Pending(n) + 1)
    ensures Made(n + 1) == Made(n) + if Pending(n) > 1022 then 1 else 0
  {
  }

  // ----- one lexeme -----

  /** The junk pending after a lexeme. */
  function PendingAfter(n: nat, x: Lexeme): nat {
    if IsJunk(x) then n + 1 else if x.rule == 5 then n else 0
  }

  /** The requests a lexeme causes when n junk bytes are pending. */
  function RequestsAt(n: nat, x: Lexeme): nat {
    if IsJunk(x) then Made(n + 1) - Made(n)
    else if x.rule == 5 then 0
    else (if n == 0 then 0 else 1) + if Rejected(x) then 1 else 0
  }

  lemma HandleErrorCounts(l: Link, w: seq<byte>)
    ensures
      var m := HandleError(l);
      && m.packet == l.packet && m.err == []
      && |m.wire| == |l.wire| + (if l.err == [] then 0 else 1)
      && Count(m.wire, w) == Count(l.wire, w) + if l.err != [] && w == NACK then 1 else 0
  {
    CountWrite(l, NACK, w);
  }

  /** Every rule keeps the packet and the bound on the error buffer, and writes what it should. */
  lemma ActAccount(l: Link, x: Lexeme, n: nat, w: seq<byte>)
    requires Lexical(x) && |l.err| == Pending(n)
    requires |l.packet| != 1 && (w == ACK || w == NACK || w == l.packet)
    ensures
      var m := Act(l, x);
      && m.packet == l.packet
      && |m.err| == Pending(PendingAfter(n, x))
      && Made(n) <= Made(n + 1)
      && |m.wire| == |l.wire| + RequestsAt(n, x) + (if IsMinus(x) then 1 else 0) + (if Accepted(x) then 1 else 0)
      && Count(m.wire, w) == Count(l.wire, w)
           + (if w == ACK then (if Accepted(x) then 1 else 0)
              else if w == NACK then RequestsAt(n, x)
              else if IsMinus(x) then 1 else 0)
  {
    OneMore(n);
    RequestsMade(n);
    HandleErrorCounts(l, w);
    match x.rule
    case 1 =>
    case 2 => CountWrite(HandleError(l), l.packet, w);
    case 3 => CountWrite(HandleError(l), if Accepted(x) then ACK else NACK, w);
    case 4 =>
    case _ =>
  }

  lemma JunkStep(n: nat, x: Lexeme, xs: seq<Lexeme>)
    requires Lexical(x)
    ensures Made(n) <= Made(n + 1)
    ensures JunkRequests(n, [x] + xs) + (if Rejected(x) then 1 else 0) + Made(PendingAfter(n, x))
            == Made(n) + RequestsAt(n, x) + JunkRequests(PendingAfter(n, x), xs)
  {
    OneMore(n);
    RequestsMade(n);
    assert ([x] + xs)[1..] == xs;
  }

  // ----- one call -----

  /**
    The account of a call that starts with n junk bytes pending: the packet stays,
    the error buffer ends empty, each '-' rewrites the packet once, each accepted
    frame is acknowledged once, each rejected frame and each started group of 1023
    junk bytes asks for a retransmission once, and nothing else is written.
   */
  lemma {:induction false} YylexAccount(l: Link, input: seq<byte>, n: nat, w: seq<byte>)
    requires |l.err| == Pending(n)
    requires |l.packet| != 1 && (w == ACK || w == NACK || w == l.packet)
    ensures
      var o, xs := Yylex(l, input), Consumed(input);
      && o.link.packet == l.packet && o.link.err == [] && o.rest == Left(input)
      && Acceptances(xs) == (if o.answer.Received? then 1 else 0)
      && (o.answer.Received? ==> xs != [] && Accepted(xs[|xs| - 1]) && o.answer.frame == xs[|xs| - 1].text)
      && |o.link.wire| + Made(n) == |l.wire| + JunkRequests(n, xs) + Rejections(xs) + Minuses(xs) + Acceptances(xs)
      && (w == ACK ==> Count(o.link.wire, w) == Count(l.wire, w) + Acceptances(xs))
      && (w == NACK ==> Count(o.link.wire, w) + Made(n) == Count(l.wire, w) + JunkRequests(n, xs) + Rejections(xs))
      && (w == l.packet ==> Count(o.link.wire, w) == Count(l.wire, w) + Minuses(xs))
    decreases |input|
  {
    if input == [] {
      HandleErrorCounts(l, w);
      RequestsMade(n);
    } else {
      FirstLexical(input);
      var x := First(input);
      var m, rest := Act(l, x), input[|x.text|..];
      ActAccount(l, x, n, w);
      if Accepted(x) {
        JunkStep(n, x, []);
        assert Consumed(input) == [x];
      } else {
        YylexAccount(m, rest, PendingAfter(n, x), w);
        JunkStep(n, x, Consumed(rest));
        assert Consumed(input)[1..] == Consumed(rest);
      }
    }
  }

  /** n junk bytes, with newlines anywhere between them, cost exactly n / 1023 requests, rounded up. */
  lemma {:induction false} JunkCost(n: nat, junk: seq<Lexeme>, xs: seq<Lexeme>)
    requires forall i :: 0 <= i < |junk| ==> IsJunk(junk[i]) || junk[i].rule == 5
    requires xs == [] || (!IsJunk(xs[0]) && xs[0].rule != 5)
    ensures JunkRequests(n, junk + xs) == Requests(n + JunkBytes(junk)) + if xs == [] then 0 else JunkRequests(0, xs[1..])
    decreases |junk|
  {
    if junk == [] {
      assert junk + xs == xs;
    } else {
      assert (junk + xs)[1..] == junk[1..] + xs;
      JunkCost(if IsJunk(junk[0]) then n + 1 else n, junk[1..], xs);
    }
  }

  function JunkBytes(xs: seq<Lexeme>): nat {
    if xs == [] then 0 else (if IsJunk(xs[0]) then 1 else 0) + JunkBytes(xs[1..])
  }

  /**
    A call that starts with an empty error buffer and consumes n junk bytes, with
    newlines anywhere between them, and then a recognised lexeme or the end of the
    input: the junk makes it write '-' exactly n / 1023 times, rounded up, before
    what the rest of the lexemes makes it write.
   */
  lemma JunkCausesRequests(l: Link, input: seq<byte>, junk: seq<Lexeme>, xs: seq<Lexeme>)
    requires l.err == [] && |l.packet| != 1 && Consumed(input) == junk + xs
    requires forall i :: 0 <= i < |junk| ==> IsJunk(junk[i]) || junk[i].rule == 5
    requires xs == [] || (!IsJunk(xs[0]) && xs[0].rule != 5)
    ensures Count(Yylex(l, input).link.wire, NACK)
            == Count(l.wire, NACK) + Requests(JunkBytes(junk)) + LaterRequests(xs)
  {
    CallRequests(l, input);
    JunkShare(junk, xs);
  }

  /** The requests made for a recognised lexeme and what follows it. */
  function LaterRequests(xs: seq<Lexeme>): nat {
    Rejections(xs) + if xs == [] then 0 else JunkRequests(0, xs[1..])
  }

  lemma JunkShare(junk: seq<Lexeme>, xs: seq<Lexeme>)
    requires forall i :: 0 <= i < |junk| ==> IsJunk(junk[i]) || junk[i].rule == 5
    requires xs == [] || (!IsJunk(xs[0]) && xs[0].rule != 5)
    ensures JunkRequests(0, junk + xs) + Rejections(junk + xs) == Requests(JunkBytes(junk)) + LaterRequests(xs)
  {
    JunkCost(0, junk, xs);
    NoRejections(junk, xs);
  }

  lemma CallRequests(l: Link, input: seq<byte>)
    requires l.err == [] && |l.packet| != 1
    ensures Count(Yylex(l, input).link.wire, NACK)
            == Count(l.wire, NACK) + JunkRequests(0, Consumed(input)) + Rejections(Consumed(input))
  {
    YylexAccount(l, input, 0, NACK);
  }

  lemma {:induction false} NoRejections(junk: seq<Lexeme>, xs: seq<Lexeme>)
    requires forall i :: 0 <= i < |junk| ==> IsJunk(junk[i]) || junk[i].rule == 5
    ensures Rejections(junk + xs) == Rejections(xs)
  {
    if junk == [] {
      assert junk + xs == xs;
    } else {
      assert (junk + xs)[1..] == junk[1..] + xs;
      NoRejections(junk[1..], xs);
    }
  }

  // ----- a whole run -----

  function Replies(answers: seq<Answer>): nat {
    if answers == [] then 0 else (if answers[0].Received? then 1 else 0) + Replies(answers[1..])
  }

  predicate Closed(xs: seq<Lexeme>) {
    xs == [] || (!IsJunk(xs[|xs| - 1]) && xs[|xs| - 1].rule != 5)
  }

  lemma {:induction false} SumsConcat(xs: seq<Lexeme>, ys: seq<Lexeme>)
    ensures Minuses(xs + ys) == Minuses(xs) + Minuses(ys)
    ensures Rejections(xs + ys) == Rejections(xs) + Rejections(ys)
    ensures Acceptances(xs + ys) == Acceptances(xs) + Acceptances(ys)
  {
    if xs == [] {
      assert xs + ys == ys;
    } else {
      SumsConcat(xs[1..], ys);
      assert (xs + ys)[1..] == xs[1..] + ys;
    }
  }

  lemma {:induction false} JunkConcat(n: nat, xs: seq<Lexeme>, ys: seq<Lexeme>)
    requires ys == [] || (xs != [] && Closed(xs))
    ensures JunkRequests(n, xs + ys) == JunkRequests(n, xs) + JunkRequests(0, ys)
    decreases |xs|
  {
    if ys == [] {
      assert xs + ys == xs;
    } else {
      assert (xs + ys)[1..] == xs[1..] + ys;
      if xs[1..] == [] {
        assert xs[1..] + ys == ys;
      } else if IsJunk(xs[0]) {
        JunkConcat(n + 1, xs[1..], ys);
      } else if xs[0].rule == 5 {
        JunkConcat(n, xs[1..], ys);
      } else {
        JunkConcat(0, xs[1..], ys);
      }
    }
  }

  /** After a call either the input is exhausted or an accepted frame was the last lexeme. */
  lemma {:induction false} LeftOrClosed(input: seq<byte>)
    ensures Left(input) == [] || (Consumed(input) != [] && Closed(Consumed(input)))
    decreases |input|
  {
    if input != [] {
      var x := First(input);
      var next := input[|x.text|..];
      if !Accepted(x) {
        LeftOrClosed(next);
        var xs := Consumed(next);
        assert Consumed(input) == [x] + xs;
        if xs != [] { assert Consumed(input)[|xs|] == xs[|xs| - 1]; }
      }
    }
  }

  lemma {:induction false} NothingLeft(n: nat)
    ensures ConsumedBy(n, []) == []
  {
    if n > 0 { NothingLeft(n - 1); }
  }

  /**
    Between two states of the client there were this many sends and these lexemes:
    each accepted frame was acknowledged once; each rejected frame, and each started
    group of 1023 junk bytes, asked for a retransmission once; and the other writes
    are one frame for each send and one for each '-'.
   */
  predicate Accounted(before: Link, after: Link, sends: nat, xs: seq<Lexeme>) {
    && after.err == []
    && Count(after.wire, ACK) == Count(before.wire, ACK) + Acceptances(xs)
    && Count(after.wire, NACK) == Count(before.wire, NACK) + Rejections(xs) + JunkRequests(0, xs)
    && |after.wire| == |before.wire| + sends + Minuses(xs)
                       + Acceptances(xs) + Rejections(xs) + JunkRequests(0, xs)
  }

  predicate SumsAdd(xs: seq<Lexeme>, ys: seq<Lexeme>, zs: seq<Lexeme>) {
    && Minuses(zs) == Minuses(xs) + Minuses(ys)
    && Rejections(zs) == Rejections(xs) + Rejections(ys)
    && Acceptances(zs) == Acceptances(xs) + Acceptances(ys)
    && JunkRequests(0, zs) == JunkRequests(0, xs) + JunkRequests(0, ys)
  }

  lemma TurnAccount(l: Link, payload: seq<byte>, input: seq<byte>)
    requires l.err == []
    ensures
      var o, xs := Yylex(Send(l, payload), input), Consumed(input);
      && Accounted(l, o.link, 1, xs)
      && o.rest == Left(input) && o.link.packet == Frame(payload)
      && Acceptances(xs) == (if o.answer.Received? then 1 else 0)
  {
    var m := l.(packet := Frame(payload));
    CountWrite(m, Frame(payload), ACK);
    CountWrite(m, Frame(payload), NACK);
    YylexAccount(Send(l, payload), input, 0, ACK);
    YylexAccount(Send(l, payload), input, 0, NACK);
  }

  lemma TurnSums(n: nat, input: seq<byte>)
    ensures SumsAdd(Consumed(input), ConsumedBy(n, Left(input)), ConsumedBy(n + 1, input))
  {
    SumsConcat(Consumed(input), ConsumedBy(n, Left(input)));
    LeftOrClosed(input);
    if Left(input) == [] { NothingLeft(n); }
    JunkConcat(0, Consumed(input), ConsumedBy(n, Left(input)));
  }

  lemma AccountsAdd(a: Link, b: Link, c: Link, m: nat, n: nat, xs: seq<Lexeme>, ys: seq<Lexeme>, zs: seq<Lexeme>)
    requires Accounted(a, b, m, xs) && Accounted(b, c, n, ys) && SumsAdd(xs, ys, zs)
    ensures Accounted(a, c, m + n, zs)
  {
  }

  /** Between two sends, and after the last one, the packet buffer keeps the last frame sent. */
  lemma {:induction false} RunKeepsLastFrame(l: Link, payloads: seq<seq<byte>>, input: seq<byte>)
    requires l.err == [] && payloads != []
    ensures Exchange(l, payloads, input).link.packet == Frame(payloads[|payloads| - 1])
    decreases |payloads|
  {
    var o := Yylex(Send(l, payloads[0]), input);
    TurnAccount(l, payloads[0], input);
    if |payloads| > 1 { RunKeepsLastFrame(o.link, payloads[1..], o.rest); }
  }

  // ----- what is transmitted -----

  /** The writes other than '+' and '-'. */
  function FrameWrites(ws: seq<seq<byte>>): seq<seq<byte>> {
    if ws == [] then []
    else
      var last := ws[|ws| - 1];
      FrameWrites(ws[..|ws| - 1]) + if last == ACK || last == NACK then [] else [last]
  }

  function Copies(w: seq<byte>, n: nat): seq<seq<byte>> {
    seq(n, _ => w)
  }

  /** The frame of each payload: once when it is sent, and once for each '-' of the call that follows. */
  function Transmissions(payloads: seq<seq<byte>>, input: seq<byte>): seq<seq<byte>>
    decreases |payloads|
  {
    if payloads == [] then []
    else
      Copies(Frame(payloads[0]), 1 + Minuses(Consumed(input))) + Transmissions(payloads[1..], Left(input))
  }

  lemma FrameWritesWrite(l: Link, v: seq<byte>)
    ensures FrameWrites(Write(l, v).wire) == FrameWrites(l.wire) + if v == ACK || v == NACK then [] else [v]
  {
    assert Write(l, v).wire[..|l.wire|] == l.wire;
  }

  lemma HandleErrorTransmits(l: Link)
    ensures FrameWrites(HandleError(l).wire) == FrameWrites(l.wire)
  {
    FrameWritesWrite(l, NACK);
  }

  /** Only '-' makes a rule transmit, and what it transmits is the packet. */
  lemma ActTransmits(l: Link, x: Lexeme)
    requires Lexical(x) && |l.packet| != 1
    ensures Act(l, x).packet == l.packet
    ensures FrameWrites(Act(l, x).wire) == FrameWrites(l.wire) + if IsMinus(x) then [l.packet] else []
  {
    var h, before := HandleError(l), FrameWrites(l.wire);
    HandleErrorTransmits(l);
    match x.rule
    case 1 =>
    case 2 =>
      FrameWritesWrite(h, l.packet);
      assert FrameWrites(Write(h, l.packet).wire) == before + [l.packet];
    case 3 =>
      var reply := if Accepted(x) then ACK else NACK;
      FrameWritesWrite(h, reply);
      assert FrameWrites(Write(h, reply).wire) == before + [];
    case 4 =>
    case _ =>
  }

  /** One more copy in front. */
  lemma CopiesStep(before: seq<seq<byte>>, w: seq<byte>, once: bool, n: nat)
    ensures (before + if once then [w] else []) + Copies(w, n) == before + Copies(w, (if once then 1 else 0) + n)
  {
    assert (if once then [w] else []) + Copies(w, n) == Copies(w, (if once then 1 else 0) + n);
    assert (before + if once then [w] else []) + Copies(w, n) == before + ((if once then [w] else []) + Copies(w, n));
  }

  /** A call goes on after a lexeme that does not end it. */
  lemma YylexStep(l: Link, input: seq<byte>)
    requires input != []
    ensures
      var x := First(input);
      var rest := input[|x.text|..];
      && Lexical(x)
      && Yylex(l, input) == (if Accepted(x) then Outcome(Act(l, x), rest, Received(x.text)) else Yylex(Act(l, x), rest))
      && Left(input) == (if Accepted(x) then rest else Left(rest))
      && Minuses(Consumed(input))
         == (if IsMinus(x) then 1 else 0) + if Accepted(x) then 0 else Minuses(Consumed(rest))
  {
    FirstLexical(input);
    var x := First(input);
    var more := if Accepted(x) then [] else Consumed(input[|x.text|..]);
    assert Consumed(input) == [x] + more && ([x] + more)[1..] == more;
  }

  lemma {:induction false} YylexTransmits(l: Link, input: seq<byte>)
    requires |l.packet| != 1
    ensures
      var o := Yylex(l, input);
      && o.link.packet == l.packet && o.rest == Left(input)
      && FrameWrites(o.link.wire) == FrameWrites(l.wire) + Copies(l.packet, Minuses(Consumed(input)))
    decreases |input|
  {
    if input == [] {
      HandleErrorTransmits(l);
    } else {
      YylexStep(l, input);
      var x := First(input);
      var rest, once := input[|x.text|..], IsMinus(x);
      ActTransmits(l, x);
      if !Accepted(x) {
        YylexTransmits(Act(l, x), rest);
        CopiesStep(FrameWrites(l.wire), l.packet, once, Minuses(Consumed(rest)));
      }
    }
  }

  lemma TurnTransmits(l: Link, payload: seq<byte>, input: seq<byte>)
    ensures
      var o := Yylex(Send(l, payload), input);
      && o.rest == Left(input)
      && FrameWrites(o.link.wire)
         == FrameWrites(l.wire) + Copies(Frame(payload), 1 + Minuses(Consumed(input)))
  {
    var f := Frame(payload);
    FrameWritesWrite(l.(packet := f), f);
    YylexTransmits(Send(l, payload), input);
    CopiesStep(FrameWrites(l.wire), f, true, Minuses(Consumed(input)));
  }

  /** The link after the first send and call of a run. */
  lemma FirstTurn(l: Link, payloads: seq<seq<byte>>, input: seq<byte>) returns (m: Link)
    requires payloads != []
    ensures Exchange(l, payloads, input).link == Exchange(m, payloads[1..], Left(input)).link
    ensures FrameWrites(m.wire) == FrameWrites(l.wire) + Copies(Frame(payloads[0]), 1 + Minuses(Consumed(input)))
  {
    m := Yylex(Send(l, payloads[0]), input).link;
    TurnTransmits(l, payloads[0], input);
  }

  /** Over a whole run the frames on the wire are those of the payloads, in order, each resent for each '-'. */
  lemma {:induction false} RunTransmits(l: Link, payloads: seq<seq<byte>>, input: seq<byte>)
    ensures FrameWrites(Exchange(l, payloads, input).link.wire)
            == FrameWrites(l.wire) + Transmissions(payloads, input)
    decreases |payloads|
  {
    if payloads != [] {
      var m := FirstTurn(l, payloads, input);
      RunTransmits(m, payloads[1..], Left(input));
      var before, now := FrameWrites(l.wire), Copies(Frame(payloads[0]), 1 + Minuses(Consumed(input)));
      var later := Transmissions(payloads[1..], Left(input));
      assert (before + now) + later == before + (now + later);
    }
  }

  /** The first turn and the turns after it. */
  lemma TurnsAdd(a: Link, b: Link, c: Link, n: nat, input: seq<byte>)
    requires Accounted(a, b, 1, Consumed(input)) && Accounted(b, c, n, ConsumedBy(n, Left(input)))
    ensures Accounted(a, c, n + 1, ConsumedBy(n + 1, input))
  {
    TurnSums(n, input);
    AccountsAdd(a, b, c, 1, n, Consumed(input), ConsumedBy(n, Left(input)), ConsumedBy(n + 1, input));
  }

  /** The same link, as to what it owes. */
  lemma FirstAccount(l: Link, payloads: seq<seq<byte>>, input: seq<byte>) returns (m: Link)
    requires payloads != [] && l.err == []
    ensures Exchange(l, payloads, input).link == Exchange(m, payloads[1..], Left(input)).link
    ensures Accounted(l, m, 1, Consumed(input)) && m.err == []
  {
    m := Yylex(Send(l, payloads[0]), input).link;
    TurnAccount(l, payloads[0], input);
  }

  lemma NothingOwed(l: Link)
    requires l.err == []
    ensures Accounted(l, l, 0, [])
  {
  }

  lemma {:induction false} RunCounts(l: Link, payloads: seq<seq<byte>>, input: seq<byte>)
    requires l.err == []
    ensures Accounted(l, Exchange(l, payloads, input).link, |payloads|, ConsumedBy(|payloads|, input))
    decreases |payloads|
  {
    if payloads == [] {
      NothingOwed(l);
    } else {
      var m := FirstAccount(l, payloads, input);
      RunCounts(m, payloads[1..], Left(input));
      TurnsAdd(l, m, Exchange(m, payloads[1..], Left(input)).link, |payloads| - 1, input);
    }
  }

  /** One answer for each payload, and as many frames among them as were accepted. */
  lemma {:induction false} RunAnswers(l: Link, payloads: seq<seq<byte>>, input: seq<byte>)
    requires l.err == []
    ensures
      var answers := Exchange(l, payloads, input).answers;
      |answers| == |payloads| && Replies(answers) == Acceptances(ConsumedBy(|payloads|, input))
    decreases |payloads|
  {
    if payloads != [] {
      var o, n := Yylex(Send(l, payloads[0]), input), |payloads| - 1;
      TurnAccount(l, payloads[0], input);
      RunAnswers(o.link, payloads[1..], o.rest);
      var t := Exchange(o.link, payloads[1..], o.rest);
      assert Exchange(l, payloads, input).answers == [o.answer] + t.answers;
      assert ([o.answer] + t.answers)[1..] == t.answers;
      SumsConcat(Consumed(input), ConsumedBy(n, Left(input)));
    }
  }

  /**
    Safety over every run, for any payloads and any received bytes: the writes are
    accounted for by the sends and the lexemes consumed: so many '+' and '-', and
    otherwise, in order, the frame of each payload, resent for each '-' received.
    There is one answer for each payload, and as many of them are frames as there
    were accepted ones.
   */
  lemma RunAccount(l: Link, payloads: seq<seq<byte>>, input: seq<byte>)
    requires l.err == []
    ensures
      var s, xs := Exchange(l, payloads, input), ConsumedBy(|payloads|, input);
      && Accounted(l, s.link, |payloads|, xs)
      && |s.answers| == |payloads| && Replies(s.answers) == Acceptances(xs)
      && FrameWrites(s.link.wire) == FrameWrites(l.wire) + Transmissions(payloads, input)
  {
    RunCounts(l, payloads, input);
    RunAnswers(l, payloads, input);
    RunTransmits(l, payloads, input);
  }
}
