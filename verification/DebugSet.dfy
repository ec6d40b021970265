/**
  The set of debugged file names of debug.c: a sorted table of at most 64 C strings,
  filled by insertion and consulted by binary search.
 */
module DebugSet {
  import opened Bytes

  const MAX_FILES_NUMBER := 64

  /** A C string: the bytes before its NUL. */
  type Name = seq<byte>

  // ----- strcmp is a total order -----

  /** The sign of strcmp: the first difference decides, and a proper prefix comes first. */
  function Strcmp(s: Name, t: Name): (r: int)
    ensures -1 <= r <= 1
  {
    if s == [] || t == [] then
      if s == t then 0 else if s == [] then -1 else 1
    else if s[0] != t[0] then
      if s[0] < t[0] then -1 else 1
    else
      Strcmp(s[1..], t[1..])
  }

  lemma {:induction false} StrcmpIsZero(s: Name, t: Name)
    ensures Strcmp(s, t) == 0 <==> s == t
  {
    if s != [] && t != [] && s[0] == t[0] {
      StrcmpIsZero(s[1..], t[1..]);
      assert s == [s[0]] + s[1..] && t == [t[0]] + t[1..];
    }
  }

  lemma {:induction false} StrcmpReversed(s: Name, t: Name)
    ensures Strcmp(t, s) == -Strcmp(s, t)
  {
    if s != [] && t != [] && s[0] == t[0] { StrcmpReversed(s[1..], t[1..]); }
  }

  lemma {:induction false} StrcmpTransitive(s: Name, t: Name, u: Name)
    requires Strcmp(s, t) <= 0 && Strcmp(t, u) <= 0
    ensures Strcmp(s, u) <= 0
    ensures Strcmp(s, t) < 0 || Strcmp(t, u) < 0 ==> Strcmp(s, u) < 0
  {
    if s != [] && t != [] && u != [] && s[0] == t[0] == u[0] {
      StrcmpTransitive(s[1..], t[1..], u[1..]);
    }
  }

  predicate Below(s: Name, t: Name) {
    Strcmp(s, t) < 0
  }

  ghost predicate Sorted(names: seq<Name>) {
    forall i, j :: 0 <= i < j < |names| ==> !Below(names[j], names[i])
  }

  // ----- insertion -----

  /** The position at which name is inserted: the first one, from i on, not below it. */
  function Position(names: seq<Name>, name: Name, i: nat): (k: nat)
    requires i <= |names|
    ensures i <= k <= |names|
    ensures forall j :: i <= j < k ==> Below(names[j], name)
    ensures k < |names| ==> !Below(names[k], name)
    decreases |names| - i
  {
    if i < |names| && Below(names[i], name) then Position(names, name, i + 1) else i
  }

  function Insert(names: seq<Name>, name: Name): seq<Name> {
    var k := Position(names, name, 0);
    names[..k] + [name] + names[k..]
  }

  lemma InsertAddsOne(names: seq<Name>, name: Name)
    ensures multiset(Insert(names, name)) == multiset(names) + multiset{name}
    ensures |Insert(names, name)| == |names| + 1
  {
    var k := Position(names, name, 0);
    assert names == names[..k] + names[k..];
  }

  /** What precedes the position is below name, what follows is not. */
  lemma Split(names: seq<Name>, name: Name, j: nat)
    requires Sorted(names) && j < |names|
    ensures Below(names[j], name) <==> j < Position(names, name, 0)
  {
    var k := Position(names, name, 0);
    if k < j && Below(names[j], name) {
      assert !Below(names[j], names[k]);
      StrcmpReversed(names[j], names[k]);
      StrcmpTransitive(names[k], names[j], name);
    }
  }

  lemma InsertKeepsSorted(names: seq<Name>, name: Name)
    requires Sorted(names)
    ensures Sorted(Insert(names, name))
  {
    var k := Position(names, name, 0);
    forall j | 0 <= j < |names|
      ensures if j < k then !Below(name, names[j]) else !Below(names[j], name)
    {
      Split(names, name, j);
      StrcmpReversed(names[j], name);
    }
  }

  function InsertAll(names: seq<Name>): seq<Name> {
    if names == [] then [] else Insert(InsertAll(names[..|names| - 1]), names[|names| - 1])
  }

  lemma {:induction false} InsertAllKeepsSorted(names: seq<Name>)
    ensures Sorted(InsertAll(names))
  {
    if names != [] {
      var before := names[..|names| - 1];
      InsertAllKeepsSorted(before);
      InsertKeepsSorted(InsertAll(before), names[|names| - 1]);
    }
  }

  lemma {:induction false} InsertAllPermutes(names: seq<Name>)
    ensures multiset(InsertAll(names)) == multiset(names) && |InsertAll(names)| == |names|
  {
    if names != [] {
      var before, last := names[..|names| - 1], names[|names| - 1];
      var table := InsertAll(before);
      InsertAllPermutes(before);
      InsertAddsOne(table, last);
      assert multiset(names) == multiset(before) + multiset{last} by { assert names == before + [last]; }
    }
  }

  /** Insertions, in any order, make a sorted permutation of the inserted names. */
  lemma InsertAllSorts(names: seq<Name>)
    ensures Sorted(InsertAll(names))
    ensures multiset(InsertAll(names)) == multiset(names) && |InsertAll(names)| == |names|
  {
    InsertAllKeepsSorted(names);
    InsertAllPermutes(names);
  }

  /** A sorted table is determined by what it holds. */
  lemma {:induction false} SortedIsUnique(a: seq<Name>, b: seq<Name>)
    requires Sorted(a) && Sorted(b) && multiset(a) == multiset(b)
    ensures a == b
  {
    if a == [] || b == [] {
      assert |multiset(a)| == |a| && |multiset(b)| == |b|;
    } else {
      SameFirst(a, b);
      assert a == [a[0]] + a[1..] && b == [b[0]] + b[1..];
      assert multiset(a[1..]) == multiset(a) - multiset{a[0]};
      assert multiset(b[1..]) == multiset(b) - multiset{b[0]};
      SortedIsUnique(a[1..], b[1..]);
    }
  }

  lemma SameFirst(a: seq<Name>, b: seq<Name>)
    requires Sorted(a) && Sorted(b) && multiset(a) == multiset(b) && a != [] && b != []
    ensures a[0] == b[0]
  {
    assert a[0] in multiset(b) && b[0] in multiset(a);
    var i :| 0 <= i < |b| && b[i] == a[0];
    var j :| 0 <= j < |a| && a[j] == b[0];
    StrcmpReversed(a[0], b[0]);
    StrcmpIsZero(a[0], b[0]);
  }

  /** The order of the insertions does not matter. */
  lemma OrderIrrelevant(a: seq<Name>, b: seq<Name>)
    requires multiset(a) == multiset(b)
    ensures InsertAll(a) == InsertAll(b)
  {
    InsertAllSorts(a);
    InsertAllSorts(b);
    SortedIsUnique(InsertAll(a), InsertAll(b));
  }

  // ----- the table -----

  class Table {
    const files: array<Name>
    var nb: nat

    constructor ()
      ensures Valid() && Names() == [] && fresh(files)
    {
      files := new Name[MAX_FILES_NUMBER](_ => []);
      nb := 0;
    }

    ghost predicate Valid()
      reads this, files
    {
      files.Length == MAX_FILES_NUMBER && nb <= MAX_FILES_NUMBER && Sorted(files[..nb])
    }

    ghost function Names(): seq<Name>
      requires nb <= files.Length
      reads this, files
    {
      files[..nb]
    }

    /**
      Whether add_debug_to stays inside the table: there is a free cell, or the name
      goes after all those of a full table and is ignored.
     */
    ghost predicate Fits(name: Name)
      requires Valid()
      reads this, files
    {
      nb < MAX_FILES_NUMBER || Position(Names(), name, 0) == MAX_FILES_NUMBER
    }

    /** The search of add_debug_to. */
    method FindPosition(name: Name) returns (i: nat)
      requires nb <= files.Length == MAX_FILES_NUMBER
      ensures i == Position(Names(), name, 0)
    {
      i := 0;
      while i < nb && i < MAX_FILES_NUMBER && Strcmp(files[i], name) < 0
        invariant i <= nb && Position(Names(), name, i) == Position(Names(), name, 0)
      {
        i := i + 1;
      }
    }

    /** Its shift: the names from i on move up by one cell. */
    method OpenGap(i: nat)
      requires i <= nb < files.Length
      modifies files
      ensures files[..i] == old(files[..i]) && files[i + 1..nb + 1] == old(files[i..nb])
    {
      var j := nb;
      while j > i
        invariant i <= j <= nb
        invariant files[..j] == old(files[..j]) && files[j + 1..nb + 1] == old(files[j..nb])
      {
        files[j] := files[j - 1];
        j := j - 1;
      }
    }

    /** The shift, and the new name in the gap. */
    method InsertAt(i: nat, name: Name)
      requires i <= nb < files.Length
      modifies files
      ensures files[..nb + 1] == old(files[..i]) + [name] + old(files[i..nb])
    {
      OpenGap(i);
      files[i] := name;
      assert files[..nb + 1] == files[..i] + [files[i]] + files[i + 1..nb + 1];
    }

    /** add_debug_to. */
    method AddDebugTo(name: Name)
      requires Valid() && Fits(name)
      modifies this`nb, files
      ensures Valid()
      ensures Names() == if old(nb) < MAX_FILES_NUMBER then Insert(old(Names()), name) else old(Names())
    {
      var i := FindPosition(name);
      if i >= MAX_FILES_NUMBER {
        return;
      }
      ghost var was := Names();
      InsertKeepsSorted(was, name);
      InsertAt(i, name);
      nb := nb + 1;
      assert files[..nb] == Insert(was, name) by {
        assert was[..i] == old(files[..i]) && was[i..] == old(files[i..nb]);
      }
    }

    /** __is_debugged: a binary search, right for every sorted table. */
    method IsDebugged(name: Name) returns (result: int)
      requires Valid()
      ensures result == if name in Names() then 1 else 0
    {
      StrcmpIsZero(name, name);
      var from, upTo := 0, nb - 1;
      while from < upTo
        invariant 0 <= from <= upTo + 1 <= nb
        invariant forall k :: 0 <= k < from ==> files[k] != name
        invariant forall k :: upTo < k < nb ==> files[k] != name
        decreases upTo - from
      {
        var middle := (from + upTo) / 2;
        var order := Strcmp(files[middle], name);
        NotEarlier(Names(), name, middle);
        if order < 0 {
          from := middle + 1;
        } else if order > 0 {
          upTo := middle - 1;
        } else {
          StrcmpIsZero(files[middle], name);
          assert Names()[middle] == name;
          return 1;
        }
      }
      if from == upTo {
        StrcmpIsZero(files[from], name);
        if Strcmp(files[from], name) == 0 {
          assert Names()[from] == name;
          return 1;
        }
      }
      result := 0;
    }
  }

  /** One comparison in a sorted table rules out one side of it. */
  lemma NotEarlier(names: seq<Name>, name: Name, m: nat)
    requires Sorted(names) && m < |names|
    ensures Strcmp(names[m], name) < 0 ==> forall k :: 0 <= k <= m ==> names[k] != name
    ensures Strcmp(names[m], name) > 0 ==> forall k :: m <= k < |names| ==> names[k] != name
  {
    StrcmpReversed(names[m], name);
    StrcmpIsZero(name, name);
  }

  /** The insertions of one run of the program; the table then answers for exactly these names. */
  method AddAll(names: seq<Name>) returns (table: Table)
    requires |names| <= MAX_FILES_NUMBER
    ensures fresh(table) && table.Valid() && table.Names() == InsertAll(names)
    ensures multiset(table.Names()) == multiset(names)
  {
    table := new Table();
    for i := 0 to |names|
      invariant fresh(table) && fresh(table.files) && table.Valid()
      invariant table.Names() == InsertAll(names[..i]) && table.nb == i
    {
      assert names[..i + 1][..i] == names[..i];
      table.AddDebugTo(names[i]);
    }
    assert names[..|names|] == names;
    InsertAllSorts(names);
  }

  /** A table filled with at most 64 names answers 1 exactly for these names. */
  method AddThenAsk(names: seq<Name>, name: Name) returns (result: int)
    requires |names| <= MAX_FILES_NUMBER
    ensures result == if name in names then 1 else 0
  {
    var table := AddAll(names);
    assert name in table.Names() <==> name in multiset(table.Names());
    assert name in names <==> name in multiset(names);
    result := table.IsDebugged(name);
  }
}
