/**
  The line filter filtre.pl: one pass over the lines with a mode and two stacks,
  proved to print what a recursive reading of the nested blocks prints.
 */
module Filtre {

  /** A directive line: the lower-case name it carries, and the line itself. */
  datatype Tag = Tag(name: string, text: string)

  /** A line once it has been matched against the directives of the chosen type. */
  datatype Line = Begin(tag: Tag) | Else(tag: Tag) | End(tag: Tag) | Text(text: string)

  /** --supprime, --conserve, --herite, --conserve-autres and --inverse. */
  datatype Options = Options(cut: set<string>, keep: set<string>, herite: bool, autres: bool, reverse: bool)

  /**
    The mode is positive where text is shown: 1, or 2 in the alternative of a block
    that is not. Elsewhere it is 0, or -1 where --herite hides alternatives as well.
   */
  datatype State = State(mode: int, modes: seq<int>, names: seq<string>)

  const START := State(1, [], [])

  /** Whether directives of this name stay in the output. */
  predicate Conserved(o: Options, name: string) {
    name !in o.keep && o.autres
  }

  // ----- the script -----

  /** Whether the script prints a line it meets in state s. */
  predicate Prints(o: Options, s: State, line: Line) {
    match line
    case Begin(tag) => s.mode > 0 && tag.name !in o.cut && Conserved(o, tag.name)
    case Else(tag) => s.mode > 0 && Conserved(o, tag.name)
    case End(tag) => s.mode == 1 && Conserved(o, tag.name)
    case Text(_) => (s.mode > 0) != o.reverse
  }

  /** A named end that does not carry the name of the innermost open block. */
  predicate Mismatched(s: State, tag: Tag) {
    s.names != [] && tag.name != "" && tag.name != s.names[|s.names| - 1]
  }

  function Next(o: Options, s: State, line: Line): State {
    match line
    case Begin(tag) =>
      var mode := if s.mode <= 0 then (if o.herite then -1 else 0) else if tag.name in o.cut then 0 else 1;
      State(mode, s.modes + [s.mode], s.names + [tag.name])
    case Else(tag) =>
      s.(mode := if s.mode > 0 then (if Conserved(o, tag.name) then 1 else 0) else if s.mode < 0 then s.mode else 2)
    case End(tag) =>
      if s.modes == [] || s.names == [] || Mismatched(s, tag) then s
      else State(s.modes[|s.modes| - 1], s.modes[..|s.modes| - 1], s.names[..|s.names| - 1])
    case Text(_) => s
  }

  function Final(o: Options, s: State, lines: seq<Line>): State
    decreases |lines|
  {
    if lines == [] then s else Final(o, Next(o, s, lines[0]), lines[1..])
  }

  /** The lines printed. */
  function Output(o: Options, s: State, lines: seq<Line>): seq<Line>
    decreases |lines|
  {
    if lines == [] then []
    else (if Prints(o, s, lines[0]) then [lines[0]] else []) + Output(o, Next(o, s, lines[0]), lines[1..])
  }

  class Script {
    const o: Options
    var mode: int
    var modesStack: seq<int>
    var namesStack: seq<string>

    constructor (o: Options)
      ensures this.o == o && Now() == START
    {
      this.o := o;
      mode, modesStack, namesStack := 1, [], [];
    }

    ghost function Now(): State
      reads this
    {
      State(mode, modesStack, namesStack)
    }

    /** One turn of the main loop. */
    method OneLine(line: Line) returns (printed: bool)
      requires |modesStack| == |namesStack|
      modifies this`mode, this`modesStack, this`namesStack
      ensures Now() == Next(o, old(Now()), line) && printed == Prints(o, old(Now()), line)
      ensures |modesStack| == |namesStack|
    {
      match line
      case Begin(tag) =>
        modesStack := modesStack + [mode];
        namesStack := namesStack + [tag.name];
        if mode <= 0 {
          mode := if o.herite then -1 else 0;
        } else {
          mode := if tag.name in o.cut then 0 else 1;
        }
        printed := mode > 0 && Conserved(o, tag.name);
      case End(tag) =>
        printed := mode == 1 && Conserved(o, tag.name);
        if modesStack != [] {
          var formerMode, top := mode, |modesStack| - 1;
          mode, modesStack := modesStack[top], modesStack[..top];
          var expectedName := namesStack[top];
          namesStack := namesStack[..top];
          if tag.name != "" && tag.name != expectedName {
            modesStack := modesStack + [mode];
            namesStack := namesStack + [expectedName];
            mode := formerMode;
          }
        }
      case Else(tag) =>
        printed := mode > 0 && Conserved(o, tag.name);
        if mode > 0 {
          mode := if Conserved(o, tag.name) then 1 else 0;
        } else if mode == 0 {
          mode := 2;
        }
      case Text(_) =>
        printed := (mode > 0 && !o.reverse) || (mode <= 0 && o.reverse);
    }

    /** The main loop. */
    method Filter(lines: seq<Line>) returns (output: seq<Line>)
      requires |modesStack| == |namesStack|
      modifies this`mode, this`modesStack, this`namesStack
      ensures output == Output(o, old(Now()), lines) && Now() == Final(o, old(Now()), lines)
      ensures |modesStack| == |namesStack|
    {
      output := [];
      ghost var rest := lines;
      for i := 0 to |lines|
        invariant |modesStack| == |namesStack| && rest == lines[i..]
        invariant output + Output(o, Now(), rest) == Output(o, old(Now()), lines)
        invariant Final(o, Now(), rest) == Final(o, old(Now()), lines)
      {
        var printed := OneLine(lines[i]);
        rest := rest[1..];
        if printed {
          output := output + [lines[i]];
        }
      }
    }
  }

  lemma {:induction false} RunAppend(o: Options, s: State, a: seq<Line>, b: seq<Line>)
    ensures Final(o, s, a + b) == Final(o, Final(o, s, a), b)
    ensures Output(o, s, a + b) == Output(o, s, a) + Output(o, Final(o, s, a), b)
    decreases |a|
  {
    if a == [] {
      assert a + b == b;
    } else {
      assert (a + b)[1..] == a[1..] + b;
      RunAppend(o, Next(o, s, a[0]), a[1..], b);
    }
  }

  // ----- any input -----

  lemma {:induction false} EqualHeights(o: Options, s: State, lines: seq<Line>)
    requires |s.modes| == |s.names|
    ensures var t := Final(o, s, lines); |t.modes| == |t.names|
    decreases |lines|
  {
    if lines != [] { EqualHeights(o, Next(o, s, lines[0]), lines[1..]); }
  }

  /** An end changes nothing exactly if it is surplus or mismatched. */
  lemma EndIgnored(o: Options, s: State, tag: Tag)
    requires |s.modes| == |s.names|
    ensures Next(o, s, End(tag)) == s <==> s.names == [] || Mismatched(s, tag)
  {
    if s.names != [] && !Mismatched(s, tag) {
      assert |Next(o, s, End(tag)).modes| < |s.modes|;
    }
  }

  function TextsOf(lines: seq<Line>): seq<Line> {
    if lines == [] then []
    else (if lines[0].Text? then [lines[0]] else []) + TextsOf(lines[1..])
  }

  function DirectivesOf(lines: seq<Line>): seq<Line> {
    if lines == [] then []
    else (if lines[0].Text? then [] else [lines[0]]) + DirectivesOf(lines[1..])
  }

  lemma DirectivesCons(shown: bool, line: Line, lines: seq<Line>)
    ensures DirectivesOf(If(shown, line) + lines) == If(shown && !line.Text?, line) + DirectivesOf(lines)
  {
    assert [] + lines == lines && ([line] + lines)[1..] == lines;
    assert [] + DirectivesOf(lines) == DirectivesOf(lines);
  }

  /** Each text line is in one of the two outputs; each directive is in both or in none. */
  ghost predicate Partitioned(lines: seq<Line>, a: seq<Line>, b: seq<Line>) {
    forall x :: multiset(a)[x] + (if x.Text? then multiset(b)[x] else 0)
             == (if x.Text? then multiset(lines)[x] else multiset(b)[x])
  }

  lemma OneMoreLine(line: Line, lines: seq<Line>, a: seq<Line>, b: seq<Line>, shown: bool, shownInverse: bool)
    requires Partitioned(lines, a, b) && (shown == shownInverse <==> !line.Text?)
    ensures Partitioned([line] + lines, If(shown, line) + a, If(shownInverse, line) + b)
  {
    assert [] + a == a && [] + b == b;
  }

  /** --inverse changes nothing but which text lines are printed. */
  lemma InverseStep(o: Options, inverse: Options, s: State, line: Line)
    requires inverse == o.(reverse := !o.reverse)
    ensures Next(inverse, s, line) == Next(o, s, line)
    ensures Prints(o, s, line) == Prints(inverse, s, line) <==> !line.Text?
  {
  }

  /** Every text line is printed either with --inverse or without, and the directives alike. */
  lemma {:induction false} InversePartitions(o: Options, inverse: Options, s: State, lines: seq<Line>)
    requires inverse == o.(reverse := !o.reverse)
    ensures Partitioned(lines, Output(o, s, lines), Output(inverse, s, lines))
    decreases |lines|
  {
    if lines != [] {
      var line, rest := lines[0], lines[1..];
      var n := Next(o, s, line);
      InverseStep(o, inverse, s, line);
      InversePartitions(o, inverse, n, rest);
      OneMoreLine(line, rest, Output(o, n, rest), Output(inverse, n, rest), Prints(o, s, line), Prints(inverse, s, line));
      assert lines == [line] + rest;
    }
  }

  lemma {:induction false} InverseKeepsDirectives(o: Options, inverse: Options, s: State, lines: seq<Line>)
    requires inverse == o.(reverse := !o.reverse)
    ensures DirectivesOf(Output(o, s, lines)) == DirectivesOf(Output(inverse, s, lines))
    decreases |lines|
  {
    if lines != [] {
      var line, n, rest := lines[0], Next(o, s, lines[0]), lines[1..];
      InverseStep(o, inverse, s, line);
      InverseKeepsDirectives(o, inverse, n, rest);
      DirectivesCons(Prints(o, s, line), line, Output(o, n, rest));
      DirectivesCons(Prints(inverse, s, line), line, Output(inverse, n, rest));
    }
  }

  /** The stacks never get lower than h while these lines are read. */
  predicate StaysInside(o: Options, s: State, lines: seq<Line>, h: nat)
    decreases |lines|
  {
    && h <= |s.modes|
    && (lines != [] ==> StaysInside(o, Next(o, s, lines[0]), lines[1..], h))
  }

  /** Hidden for good: whatever closes above height h leads back to mode -1. */
  predicate Inherited(s: State, h: nat) {
    s.mode == -1 && |s.modes| == |s.names| && forall i :: h <= i < |s.modes| ==> s.modes[i] == -1
  }

  lemma {:induction false} InheritedStays(o: Options, s: State, lines: seq<Line>, h: nat)
    requires o.herite && Inherited(s, h) && StaysInside(o, s, lines, h)
    ensures Inherited(Final(o, s, lines), h)
    ensures Output(o, s, lines) == if o.reverse then TextsOf(lines) else []
    decreases |lines|
  {
    if lines != [] {
      InheritedStays(o, Next(o, s, lines[0]), lines[1..], h);
    }
  }

  /**
    With --herite, a block opened where text is hidden hides all it contains, at any
    depth, for as long as it is not closed: no directive is printed there, and text
    only with --inverse.
   */
  lemma HiddenBlockHidesAll(o: Options, s: State, tag: Tag, lines: seq<Line>)
    requires o.herite && s.mode <= 0 && |s.modes| == |s.names|
    requires StaysInside(o, Next(o, s, Begin(tag)), lines, |s.modes| + 1)
    ensures Output(o, s, [Begin(tag)] + lines) == if o.reverse then TextsOf(lines) else []
  {
    assert ([Begin(tag)] + lines)[1..] == lines;
    InheritedStays(o, Next(o, s, Begin(tag)), lines, |s.modes| + 1);
  }

  // ----- well nested documents -----

  datatype Forest =
    | Nil
    | Prose(text: string, rest: Forest)
    | Block(open: Tag, body: Forest, alt: Alternative, close: Tag, rest: Forest)

  datatype Alternative = NoAlternative | Alternative(tag: Tag, part: Forest)

  function Flatten(f: Forest): seq<Line> {
    match f
    case Nil => []
    case Prose(text, rest) => [Text(text)] + Flatten(rest)
    case Block(open, body, alt, close, rest) =>
      ([Begin(open)] + Flatten(body)) + (FlattenAlternative(alt) + [End(close)]) + Flatten(rest)
  }

  function FlattenAlternative(alt: Alternative): seq<Line> {
    if alt.NoAlternative? then [] else [Else(alt.tag)] + Flatten(alt.part)
  }

  /** Each end carries the name of its block, or none. */
  predicate WellNamed(f: Forest) {
    match f
    case Nil => true
    case Prose(_, rest) => WellNamed(rest)
    case Block(open, body, alt, close, rest) =>
      && (close.name == "" || close.name == open.name)
      && WellNamed(body) && (alt.Alternative? ==> WellNamed(alt.part)) && WellNamed(rest)
  }

  predicate BodyShown(o: Options, f: Forest, shown: bool)
    requires f.Block?
  {
    shown && f.open.name !in o.cut
  }

  /** A hidden body shows its alternative, unless hiding is inherited; a shown one, if alternatives are conserved. */
  predicate AlternativeShown(o: Options, f: Forest, shown: bool)
    requires f.Block? && f.alt.Alternative?
  {
    if BodyShown(o, f, shown) then Conserved(o, f.alt.tag.name) else shown || !o.herite
  }

  /** What to print of a document that stands where text is shown, or hidden. */
  function Render(o: Options, f: Forest, shown: bool): seq<Line>
    decreases f, 1
  {
    match f
    case Nil => []
    case Prose(text, rest) =>
      (if shown != o.reverse then [Text(text)] else []) + Render(o, rest, shown)
    case Block(open, body, alt, close, rest) =>
      var here := BodyShown(o, f, shown);
      (If(here && Conserved(o, open.name), Begin(open)) + Render(o, body, here))
      + (RenderAlternative(o, f, shown)
         + If(here && (alt.NoAlternative? || Conserved(o, alt.tag.name)) && Conserved(o, close.name), End(close)))
      + Render(o, rest, shown)
  }

  function RenderAlternative(o: Options, f: Forest, shown: bool): seq<Line>
    requires f.Block?
    decreases f, 0
  {
    if f.alt.NoAlternative? then []
    else
      If(BodyShown(o, f, shown) && Conserved(o, f.alt.tag.name), Else(f.alt.tag))
      + Render(o, f.alt.part, AlternativeShown(o, f, shown))
  }

  function If(b: bool, line: Line): seq<Line> {
    if b then [line] else []
  }

  /**
    The script prints what the nesting says and comes back to the state in which it
    entered the document.
   */
  lemma {:induction false} ScriptFollowsNesting(o: Options, f: Forest, s: State)
    requires WellNamed(f) && |s.modes| == |s.names|
    ensures Final(o, s, Flatten(f)) == s
    ensures Output(o, s, Flatten(f)) == Render(o, f, s.mode > 0)
    decreases f, 1
  {
    match f
    case Nil =>
    case Prose(text, rest) =>
      ScriptFollowsNesting(o, rest, s);
      assert Flatten(f)[1..] == Flatten(rest);
    case Block(open, body, alt, close, rest) =>
      OpenAndBody(o, f, s);
      AlternativeAndEnd(o, f, s);
      ScriptFollowsNesting(o, rest, s);
      var first, second := [Begin(open)] + Flatten(body), FlattenAlternative(alt) + [End(close)];
      RunAppend(o, s, first, second);
      RunAppend(o, s, first + second, Flatten(rest));
  }

  lemma RunCons(o: Options, s: State, line: Line, lines: seq<Line>)
    ensures Final(o, s, [line] + lines) == Final(o, Next(o, s, line), lines)
    ensures Output(o, s, [line] + lines) == If(Prints(o, s, line), line) + Output(o, Next(o, s, line), lines)
  {
    assert ([line] + lines)[1..] == lines;
  }

  lemma {:induction false} OpenAndBody(o: Options, f: Forest, s: State)
    requires f.Block? && WellNamed(f) && |s.modes| == |s.names|
    ensures
      var lines := [Begin(f.open)] + Flatten(f.body);
      var here := BodyShown(o, f, s.mode > 0);
      && Final(o, s, lines) == Next(o, s, Begin(f.open))
      && Output(o, s, lines) == If(here && Conserved(o, f.open.name), Begin(f.open)) + Render(o, f.body, here)
    decreases f, 0
  {
    RunCons(o, s, Begin(f.open), Flatten(f.body));
    ScriptFollowsNesting(o, f.body, Next(o, s, Begin(f.open)));
  }

  lemma {:induction false} AlternativeAndEnd(o: Options, f: Forest, s: State)
    requires f.Block? && WellNamed(f) && |s.modes| == |s.names|
    ensures
      var t := Next(o, s, Begin(f.open));
      var lines := FlattenAlternative(f.alt) + [End(f.close)];
      var closed := BodyShown(o, f, s.mode > 0) && (f.alt.NoAlternative? || Conserved(o, f.alt.tag.name));
      && Final(o, t, lines) == s
      && Output(o, t, lines) ==
         RenderAlternative(o, f, s.mode > 0) + If(closed && Conserved(o, f.close.name), End(f.close))
    decreases f, 0
  {
    var t := Next(o, s, Begin(f.open));
    var last := [End(f.close)];
    if f.alt.NoAlternative? {
      assert FlattenAlternative(f.alt) + last == last;
      EndCloses(o, s, t, f.open, f.close);
    } else {
      var u := Next(o, t, Else(f.alt.tag));
      assert FlattenAlternative(f.alt) + last == [Else(f.alt.tag)] + (Flatten(f.alt.part) + last);
      RunCons(o, t, Else(f.alt.tag), Flatten(f.alt.part) + last);
      RunAppend(o, u, Flatten(f.alt.part), last);
      ScriptFollowsNesting(o, f.alt.part, u);
      EndCloses(o, s, u, f.open, f.close);
    }
  }

  /** The end of a block opened in state s leads back to s. */
  lemma EndCloses(o: Options, s: State, t: State, open: Tag, close: Tag)
    requires |s.modes| == |s.names| && (close.name == "" || close.name == open.name)
    requires t.modes == s.modes + [s.mode] && t.names == s.names + [open.name]
    ensures Final(o, t, [End(close)]) == s
    ensures Output(o, t, [End(close)]) == If(t.mode == 1 && Conserved(o, close.name), End(close))
  {
    assert t.modes[..|s.modes|] == s.modes && t.names[..|s.names|] == s.names;
    assert [End(close)] == [End(close)] + [];
    RunCons(o, t, End(close), []);
  }

  // ----- filtering in several passes -----

  function Append(f: Forest, g: Forest): Forest {
    match f
    case Nil => g
    case Prose(text, rest) => Prose(text, Append(rest, g))
    case Block(open, body, alt, close, rest) => Block(open, body, alt, close, Append(rest, g))
  }

  /** The document in which each block with a name in cut gives way to its alternative. */
  function Prune(cut: set<string>, f: Forest): Forest {
    match f
    case Nil => Nil
    case Prose(text, rest) => Prose(text, Prune(cut, rest))
    case Block(open, body, alt, close, rest) =>
      if open.name in cut then
        Append(if alt.NoAlternative? then Nil else Prune(cut, alt.part), Prune(cut, rest))
      else
        var newAlt := if alt.NoAlternative? then alt else Alternative(alt.tag, Prune(cut, alt.part));
        Block(open, Prune(cut, body), newAlt, close, Prune(cut, rest))
  }

  lemma {:induction false} FlattenAppend(f: Forest, g: Forest)
    ensures Flatten(Append(f, g)) == Flatten(f) + Flatten(g)
    ensures WellNamed(Append(f, g)) <==> WellNamed(f) && WellNamed(g)
  {
    match f
    case Nil => assert [] + Flatten(g) == Flatten(g);
    case Prose(text, rest) => FlattenAppend(rest, g);
    case Block(open, body, alt, close, rest) => FlattenAppend(rest, g);
  }

  lemma {:induction false} AppendAssociative(f: Forest, g: Forest, h: Forest)
    ensures Append(Append(f, g), h) == Append(f, Append(g, h))
  {
    if !f.Nil? { AppendAssociative(f.rest, g, h); }
  }

  lemma {:induction false} PruneAppend(cut: set<string>, f: Forest, g: Forest)
    ensures Prune(cut, Append(f, g)) == Append(Prune(cut, f), Prune(cut, g))
  {
    if !f.Nil? {
      PruneAppend(cut, f.rest, g);
      if f.Block? && f.alt.Alternative? {
        AppendAssociative(Prune(cut, f.alt.part), Prune(cut, f.rest), Prune(cut, g));
      }
    }
  }

  /** Cutting some names and then others is cutting them all. */
  lemma {:induction false} PruneTwice(a: set<string>, b: set<string>, f: Forest)
    ensures Prune(b, Prune(a, f)) == Prune(a + b, f)
  {
    match f
    case Nil =>
    case Prose(_, rest) => PruneTwice(a, b, rest);
    case Block(open, body, alt, close, rest) =>
      PruneTwice(a, b, body);
      PruneTwice(a, b, rest);
      if alt.Alternative? {
        PruneTwice(a, b, alt.part);
        PruneAppend(b, Prune(a, alt.part), Prune(a, rest));
      }
  }

  /** The options under which the output is again a document: --herite and --conserve-autres. */
  predicate KeepsDocuments(o: Options) {
    o.herite && o.autres && o.keep == {} && !o.reverse
  }

  lemma {:induction false} HiddenPrintsNothing(o: Options, f: Forest)
    requires KeepsDocuments(o)
    ensures Render(o, f, false) == []
  {
    match f
    case Nil =>
    case Prose(_, rest) => HiddenPrintsNothing(o, rest);
    case Block(open, body, alt, close, rest) =>
      HiddenPrintsNothing(o, body);
      HiddenPrintsNothing(o, rest);
      if alt.Alternative? { HiddenPrintsNothing(o, alt.part); }
  }

  lemma {:induction false} PruneKeepsNames(cut: set<string>, f: Forest)
    requires WellNamed(f)
    ensures WellNamed(Prune(cut, f))
  {
    match f
    case Nil =>
    case Prose(_, rest) => PruneKeepsNames(cut, rest);
    case Block(open, body, alt, close, rest) =>
      PruneKeepsNames(cut, body);
      PruneKeepsNames(cut, rest);
      if alt.Alternative? { PruneKeepsNames(cut, alt.part); }
      FlattenAppend(if alt.NoAlternative? then Nil else Prune(cut, alt.part), Prune(cut, rest));
  }

  /** The output where text is shown is the pruned document. */
  lemma {:induction false} RenderPrunes(o: Options, f: Forest)
    requires KeepsDocuments(o)
    ensures Render(o, f, true) == Flatten(Prune(o.cut, f))
    decreases f, 1
  {
    match f
    case Nil =>
    case Prose(_, rest) => RenderPrunes(o, rest);
    case Block(open, body, alt, close, rest) =>
      RenderPrunes(o, rest);
      if open.name in o.cut {
        RenderCutBlock(o, f);
      } else {
        RenderPrunes(o, body);
        if alt.Alternative? { RenderPrunes(o, alt.part); }
      }
  }

  lemma {:induction false} RenderCutBlock(o: Options, f: Forest)
    requires KeepsDocuments(o) && f.Block? && f.open.name in o.cut
    requires Render(o, f.rest, true) == Flatten(Prune(o.cut, f.rest))
    ensures Render(o, f, true) == Flatten(Prune(o.cut, f))
    decreases f, 0
  {
    var part := if f.alt.NoAlternative? then Nil else Prune(o.cut, f.alt.part);
    if f.alt.Alternative? { RenderPrunes(o, f.alt.part); }
    OnlyAlternativeShown(o, f);
    FlattenAppend(part, Prune(o.cut, f.rest));
  }

  lemma OnlyAlternativeShown(o: Options, f: Forest)
    requires KeepsDocuments(o) && f.Block? && f.open.name in o.cut
    ensures
      Render(o, f, true) ==
      (if f.alt.NoAlternative? then [] else Render(o, f.alt.part, true)) + Render(o, f.rest, true)
  {
    HiddenPrintsNothing(o, f.body);
    var alternative := RenderAlternative(o, f, true);
    assert ([] + []) + (alternative + []) == alternative;
    if f.alt.Alternative? {
      assert alternative == [] + Render(o, f.alt.part, true) == Render(o, f.alt.part, true);
    }
  }

  /** On well nested documents, two passes of the script do what one pass with all the names does. */
  lemma TwoPassesAreOne(o: Options, a: set<string>, b: set<string>, f: Forest)
    requires KeepsDocuments(o) && WellNamed(f)
    ensures
      Output(o.(cut := b), START, Output(o.(cut := a), START, Flatten(f)))
      == Output(o.(cut := a + b), START, Flatten(f))
  {
    ScriptFollowsNesting(o.(cut := a), f, START);
    RenderPrunes(o.(cut := a), f);
    PruneKeepsNames(a, f);
    ScriptFollowsNesting(o.(cut := b), Prune(a, f), START);
    RenderPrunes(o.(cut := b), Prune(a, f));
    ScriptFollowsNesting(o.(cut := a + b), f, START);
    RenderPrunes(o.(cut := a + b), f);
    PruneTwice(a, b, f);
  }
}
