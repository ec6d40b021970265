/**
  The table-driven matcher of scanner.c, proved to return the longest match of
  the earliest rule of scanner.l.
 */
module Matcher {
  import opened Bytes
  import opened ScannerTables
  import opened ScannerRules

  // ----- the character classes -----

  /** The class of a byte; yy_get_previous_state and yy_try_NUL_trans take class 1 for NUL. */
  function Class(c: byte): nat {
    if c == NEWLINE then 2
    else if c == HASH then 3
    else if c == DOLLAR then 4
    else if c == PLUS then 5
    else if c == MINUS then 6
    else if IsHex(c) then 7
    else 1
  }

  lemma LowClasses(c: byte)
    requires 0 < c < 64
    ensures |EC_LOW| == 64 && EC_LOW[c] == Class(c)
  {
  }

  lemma MiddleClasses(c: byte)
    requires 64 <= c < 128
    ensures |EC_MIDDLE| == 64 && EC_MIDDLE[c - 64] == Class(c)
  {
  }

  lemma HighClasses(c: nat)
    requires c < 64
    ensures |EC_HIGH| == 64 && EC_HIGH[c] == 1
  {
  }

  /** The table yy_ec sorts the bytes into seven classes. */
  lemma EcIsClass(c: byte)
    ensures |YY_EC| == 256
    ensures c != 0 ==> YY_EC[c] == Class(c)
  {
    assert |EC_LOW| == |EC_MIDDLE| == |EC_HIGH| == 64;
    if 0 < c < 64 {
      LowClasses(c);
    } else if 64 <= c < 128 {
      MiddleClasses(c);
    } else if c >= 128 {
      HighClasses(if c < 192 then c - 128 else c - 192);
    }
  }

  // ----- the compressed transitions -----

  /** States 1 to 13 and the template state 14. */
  predicate IsState(s: nat) { 1 <= s <= 14 }

  /** How many defaults separate a state from the jam state 13, at most. */
  function Depth(s: nat): nat {
    if s == 13 then 0 else if s == 2 || s == 6 || s == 9 then 2 else 1
  }

  /** A failed check leads to a state nearer to state 13, with a class of that state. */
  lemma DefaultDescends(s: nat, c: nat)
    requires IsState(s) && c < 8
    ensures |YY_BASE| == |YY_DEF| == 15 && |YY_CHK| == |YY_NXT| == 22 && |YY_META| == 8
    ensures YY_BASE[s] + c < 22
    ensures YY_CHK[YY_BASE[s] + c] != s ==>
      IsState(YY_DEF[s]) && Depth(YY_DEF[s]) < Depth(s) && YY_META[c] < 8
  {
  }

  /** The transition the tables encode. */
  function Next(s: nat, c: nat): nat
    requires IsState(s) && c < 8
    decreases Depth(s)
  {
    DefaultDescends(s, c);
    if YY_CHK[YY_BASE[s] + c] == s then YY_NXT[YY_BASE[s] + c]
    else
      var d := YY_DEF[s];
      Next(d, if d >= 14 then YY_META[c] else c)
  }

  lemma NextFromStart(c: nat)
    requires 1 <= c < 8
    ensures Next(1, c) == [4, 5, 4, 6, 7, 8, 4][c - 1]
  {
  }

  lemma NextInFrame(s: nat, c: nat)
    requires (s == 6 || s == 9) && 1 <= c < 8
    ensures Next(s, c) == if c == 3 then 10 else if c == 4 then 13 else 9
  {
    assert Next(13, 2) == 13;
    assert Next(14, 2) == 13 && Next(14, 1) == 9;
  }

  lemma NextInSum(s: nat, c: nat)
    requires (s == 10 || s == 11) && 1 <= c < 8
    ensures Next(s, c) == if c == 7 then s + 1 else 13
  {
    assert Next(13, c) == 13;
  }

  // ----- what a state knows about the bytes read so far -----

  /** s is '$' followed by bytes without marks. */
  predicate Opened(s: seq<byte>) {
    |s| >= 1 && s[0] == DOLLAR && Unmarked(s[1..])
  }

  /** No frame starts with s, and none is a prefix of s. */
  predicate Dead(s: seq<byte>) {
    && |s| >= 2
    && (|| (Opened(s[..|s| - 1]) && s[|s| - 1] == DOLLAR)
        || (|s| >= 3 && Opened(s[..|s| - 2]) && s[|s| - 2] == HASH && !IsHex(s[|s| - 1]))
        || (|s| >= 4 && Opened(s[..|s| - 3]) && s[|s| - 3] == HASH && IsHex(s[|s| - 2]) && !IsHex(s[|s| - 1])))
  }

  /** The bytes read when the matcher is in a state. */
  predicate Knows(state: nat, s: seq<byte>) {
    match state
    case 1 => s == []
    case 4 => |s| == 1 && s[0] !in {NEWLINE, DOLLAR, PLUS, MINUS}
    case 5 => s == [NEWLINE]
    case 6 => s == [DOLLAR]
    case 7 => s == [PLUS]
    case 8 => s == [MINUS]
    case 9 => |s| >= 2 && Opened(s)
    case 10 => |s| >= 2 && Opened(s[..|s| - 1]) && s[|s| - 1] == HASH
    case 11 => |s| >= 3 && Opened(s[..|s| - 2]) && s[|s| - 2] == HASH && IsHex(s[|s| - 1])
    case 12 => IsFrame(s)
    case 13 => Dead(s)
    case _ => false
  }

  predicate Running(state: nat) {
    state == 1 || state == 6 || state == 9 || state == 10 || state == 11
  }

  lemma KnowsNext(state: nat, s: seq<byte>, c: byte)
    requires Running(state) && Knows(state, s)
    ensures Knows(Next(state, Class(c)), s + [c])
  {
    var t := s + [c];
    assert t[..|t| - 1] == s;
    match state
    case 1 => NextFromStart(Class(c));
    case 6 =>
      NextInFrame(6, Class(c));
      assert t[1..] == [c];
    case 9 =>
      NextInFrame(9, Class(c));
      assert t[1..] == s[1..] + [c];
    case 10 =>
      NextInSum(10, Class(c));
      assert t[..|t| - 2] == s[..|s| - 1];
    case 11 =>
      NextInSum(11, Class(c));
      assert t[..|t| - 3] == s[..|s| - 2];
      if IsHex(c) {
        assert forall i :: 1 <= i < |t| - 3 ==> t[i] == t[..|t| - 3][1..][i - 1];
      }
  }

  /** While the matcher runs inside a possible frame, what it read does not start with a frame. */
  lemma BodyUnmarked(state: nat, s: seq<byte>)
    requires state == 6 || state == 9 || state == 10 || state == 11 || state == 13
    requires Knows(state, s)
    ensures FrameLength(s) == 0
  {
    assert forall k :: 1 <= k <= |s| && Unmarked(s[..k][1..]) ==> forall i :: 1 <= i < k ==> s[i] == s[..k][1..][i - 1];
  }

  /** Once the matcher has jammed, no continuation is a frame. */
  lemma DeadForever(s: seq<byte>, m: nat)
    requires m <= |s| && Dead(s[..m])
    ensures FrameLength(s) == 0
  {
    BodyUnmarked(13, s[..m]);
    FirstMarkEarly(s, m, 1);
  }

  lemma {:induction false} FirstMarkEarly(s: seq<byte>, m: nat, i: nat)
    requires i <= m <= |s| && FirstMark(s[..m], i) < m
    ensures FirstMark(s, i) == FirstMark(s[..m], i)
    decreases m - i
  {
    if i < m && !IsMark(s[i]) { FirstMarkEarly(s, m, i + 1); }
  }

  // ----- the matcher -----

  /** The inner loop of yy_match: follow the defaults until the check succeeds. */
  method Transition(state: nat, yyC: nat) returns (next: nat)
    requires IsState(state) && yyC < 8
    ensures next == Next(state, yyC)
  {
    var current: nat, c: nat := state, yyC;
    DefaultDescends(current, c);
    while YY_CHK[YY_BASE[current] + c] != current
      invariant IsState(current) && c < 8
      invariant |YY_BASE| == 15 && |YY_CHK| == |YY_NXT| == 22 && YY_BASE[current] + c < 22
      invariant Next(current, c) == Next(state, yyC)
      decreases Depth(current)
    {
      DefaultDescends(current, c);
      current := YY_DEF[current];
      if current >= 14 {
        c := YY_META[c];
      }
      DefaultDescends(current, c);
    }
    next := YY_NXT[YY_BASE[current] + c];
  }

  /** What is left to say when the scan stops. */
  lemma StopIsFirst(s: seq<byte>, state: nat, m: nat)
    requires 1 <= m <= |s| && Knows(state, s[..m])
    requires !Running(state) || m == |s|
    ensures
      First(s) == (if state == 12 then Lexeme(3, s[..m])
                   else if state == 5 then Lexeme(5, s[..1])
                   else if state == 7 then Lexeme(1, s[..1])
                   else if state == 8 then Lexeme(2, s[..1])
                   else Lexeme(4, s[..1]))
    ensures state == 4 || state == 5 || state == 6 || state == 7 || state == 8 ==> m == 1
  {
    assert s[..m][0] == s[0];
    if state == 12 {
      FrameLengthRight(s, m);
    } else if state == 13 {
      DeadForever(s, m);
    } else if Running(state) {
      assert s[..m] == s;
      BodyUnmarked(state, s);
    }
  }

  /** The states of the automaton that the matcher can be in. */
  predicate Reachable(state: nat) {
    state == 1 || 4 <= state <= 13
  }

  lemma StateTables(state: nat)
    requires Reachable(state)
    ensures |YY_BASE| == 15 && |YY_ACCEPT| == 14
    ensures YY_BASE[state] == 14 <==> !Running(state)
    ensures YY_ACCEPT[state] ==
      if state == 4 || state == 6 then 4 else if state == 5 then 5
      else if state == 7 then 1 else if state == 8 then 2 else if state == 12 then 3 else 0
  {
  }

  /** One turn of the outer loop of yy_match. */
  method ReadByte(state: nat, c: byte, ghost s: seq<byte>) returns (next: nat)
    requires Running(state) && Knows(state, s)
    ensures Reachable(next) && next != 1 && Knows(next, s + [c])
    ensures next == 6 ==> s == []
    ensures next == 9 || next == 10 || next == 11 || next == 13 ==> state == 6 || state == 9 || state == 10 || state == 11
  {
    EcIsClass(c);
    var yyC := if c == 0 then 1 else YY_EC[c];
    KnowsNext(state, s, c);
    next := Transition(state, yyC);
  }

  /** What the scan leaves: the state, and where it last saw a rule accept. */
  ghost predicate Scanned(s: seq<byte>, m: nat, state: nat, lastState: nat, lastCp: nat, yyBp: nat) {
    && m <= |s| && Reachable(state) && Knows(state, s[..m])
    && (state == 9 || state == 10 || state == 11 || state == 13 ==> lastState == 6 && lastCp == yyBp + 1)
  }

  /** yy_match: run the automaton and remember the last accepting state. */
  method Scan(input: seq<byte>, yyBp: nat) returns (state: nat, yyCp: nat, lastState: nat, lastCp: nat)
    requires yyBp < |input|
    ensures yyBp < yyCp <= |input|
    ensures Scanned(input[yyBp..], yyCp - yyBp, state, lastState, lastCp, yyBp)
    ensures !Running(state) || yyCp == |input|
  {
    ghost var s := input[yyBp..];
    state, lastState, lastCp, yyCp := 1, 0, yyBp, yyBp;
    while true
      invariant yyBp <= yyCp < |input|
      invariant Running(state) && Scanned(s, yyCp - yyBp, state, lastState, lastCp, yyBp)
      invariant state == 6 ==> yyCp == yyBp + 1
      decreases |input| - yyCp
    {
      StateTables(state);
      if YY_ACCEPT[state] != 0 {
        lastState, lastCp := state, yyCp;
      }
      assert s[..yyCp - yyBp] + [input[yyCp]] == s[..yyCp + 1 - yyBp];
      state := ReadByte(state, input[yyCp], s[..yyCp - yyBp]);
      yyCp := yyCp + 1;
      StateTables(state);
      if YY_BASE[state] == 14 || yyCp == |input| {
        return;
      }
    }
  }

  /**
    yy_match and yy_find_action for a non-empty rest of the input: when the scan
    ends in a state that accepts nothing, back up to the last one that did.
   */
  method YyMatch(input: seq<byte>, yyBp: nat) returns (yyAct: nat, yyCp: nat)
    requires yyBp < |input|
    ensures yyBp < yyCp <= |input|
    ensures Lexeme(yyAct, input[yyBp..yyCp]) == First(input[yyBp..])
    ensures Longest(input[yyBp..], yyAct, yyCp - yyBp)
  {
    ghost var s := input[yyBp..];
    var state, lastState, lastCp;
    state, yyCp, lastState, lastCp := Scan(input, yyBp);
    StopIsFirst(s, state, yyCp - yyBp);
    StateTables(state);
    yyAct := YY_ACCEPT[state];
    if yyAct == 0 {
      yyCp := lastCp;
      state := lastState;
      StateTables(state);
      yyAct := YY_ACCEPT[state];
    }
    assert input[yyBp..yyCp] == s[..yyCp - yyBp];
    FirstIsLongest(s);
  }
}
