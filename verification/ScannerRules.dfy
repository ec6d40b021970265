/**
  The lexical rules of scanner.l: what each of them matches, which match is the
  longest, and the cut of an input into lexemes.
 */
module ScannerRules {
  import opened Bytes

  const NEWLINE: byte := 10
  const HASH: byte := 35
  const DOLLAR: byte := 36
  const PLUS: byte := 43
  const MINUS: byte := 45

  predicate IsHex(c: byte) {
    48 <= c <= 57 || 65 <= c <= 70 || 97 <= c <= 102
  }

  predicate IsMark(c: byte) {
    c == DOLLAR || c == HASH
  }

  /** No '$' and no '#'. */
  predicate Unmarked(s: seq<byte>) {
    forall i :: 0 <= i < |s| ==> !IsMark(s[i])
  }

  /** The pattern of rule 3: '$', bytes without marks, '#', two hexadecimal digits. */
  predicate IsFrame(s: seq<byte>) {
    && |s| >= 4
    && s[0] == DOLLAR && s[|s| - 3] == HASH && IsHex(s[|s| - 2]) && IsHex(s[|s| - 1])
    && forall i :: 1 <= i < |s| - 3 ==> !IsMark(s[i])
  }

  /** Rules are numbered in the order of the file; the fifth is the default rule. */
  predicate Matches(rule: nat, s: seq<byte>) {
    match rule
    case 1 => s == [PLUS]
    case 2 => s == [MINUS]
    case 3 => IsFrame(s)
    case 4 => |s| == 1 && s[0] != NEWLINE
    case 5 => |s| == 1
    case _ => false
  }

  /** The longest match at the start of s, and the earliest rule that gives it. */
  ghost predicate Longest(s: seq<byte>, rule: nat, len: nat) {
    && 1 <= len <= |s|
    && Matches(rule, s[..len])
    && (forall r: nat, n: nat :: len < n <= |s| ==> !Matches(r, s[..n]))
    && (forall r: nat :: r < rule ==> !Matches(r, s[..len]))
  }

  lemma LongestUnique(s: seq<byte>, rule: nat, len: nat, rule': nat, len': nat)
    requires Longest(s, rule, len) && Longest(s, rule', len')
    ensures rule == rule' && len == len'
  {
  }

  // ----- a direct account of the longest match -----

  /** The first mark from i on, or the length of s. */
  function FirstMark(s: seq<byte>, i: nat): (k: nat)
    requires i <= |s|
    ensures i <= k <= |s|
    ensures k < |s| ==> IsMark(s[k])
    ensures forall j :: i <= j < k ==> !IsMark(s[j])
    decreases |s| - i
  {
    if i == |s| || IsMark(s[i]) then i else FirstMark(s, i + 1)
  }

  /** The length of the frame that starts s, or 0. */
  function FrameLength(s: seq<byte>): (n: nat)
    ensures n <= |s|
  {
    if s == [] || s[0] != DOLLAR then 0
    else
      var k := FirstMark(s, 1);
      if k + 2 < |s| && s[k] == HASH && IsHex(s[k + 1]) && IsHex(s[k + 2]) then k + 3 else 0
  }

  lemma FrameLengthRight(s: seq<byte>, n: nat)
    requires n <= |s|
    ensures IsFrame(s[..n]) <==> n > 0 && n == FrameLength(s)
  {
    if IsFrame(s[..n]) {
      var f := s[..n];
      var k := FirstMark(s, 1);
      assert forall i :: 0 <= i < n ==> f[i] == s[i];
      assert k == n - 3;
    }
  }

  datatype Lexeme = Lexeme(rule: nat, text: seq<byte>)

  /** The lexeme at the start of s. */
  function First(s: seq<byte>): (x: Lexeme)
    requires s != []
    ensures 1 <= |x.text| <= |s| && x.text == s[..|x.text|]
  {
    if s[0] == PLUS then Lexeme(1, s[..1])
    else if s[0] == MINUS then Lexeme(2, s[..1])
    else if FrameLength(s) > 0 then Lexeme(3, s[..FrameLength(s)])
    else if s[0] != NEWLINE then Lexeme(4, s[..1])
    else Lexeme(5, s[..1])
  }

  lemma FirstIsLongest(s: seq<byte>)
    requires s != []
    ensures Longest(s, First(s).rule, |First(s).text|)
  {
    var x := First(s);
    FrameLengthRight(s, |x.text|);
    forall r: nat, n: nat | |x.text| < n <= |s|
      ensures !Matches(r, s[..n])
    {
      FrameLengthRight(s, n);
    }
  }

  /** The lexeme at the start of an input is its only longest match of the earliest rule. */
  lemma LongestIsFirst(s: seq<byte>, rule: nat, len: nat)
    requires s != []
    ensures Longest(s, rule, len) <==> len <= |s| && First(s) == Lexeme(rule, s[..len])
  {
    FirstIsLongest(s);
    if Longest(s, rule, len) {
      LongestUnique(s, rule, len, First(s).rule, |First(s).text|);
    }
  }

  /** The cut of an input into lexemes. */
  function Lexemes(s: seq<byte>): seq<Lexeme> {
    if s == [] then [] else [First(s)] + Lexemes(s[|First(s).text|..])
  }

  function Texts(xs: seq<Lexeme>): seq<byte> {
    if xs == [] then [] else xs[0].text + Texts(xs[1..])
  }

  /** Nothing is lost: the lexemes concatenate to the input. */
  lemma {:induction false} LexemesCoverInput(s: seq<byte>)
    ensures Texts(Lexemes(s)) == s
  {
    if s != [] {
      var n := |First(s).text|;
      LexemesCoverInput(s[n..]);
      assert s == s[..n] + s[n..];
    }
  }
}
