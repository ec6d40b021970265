/**
  A FILE* opened on a byte array: a content and a position that fseek, fread
  and fwrite move.
 */
module FileModel {
  import opened Words

  function Zeros(n: nat): seq<byte> {
    seq(n, _ => 0)
  }

  /** The content after s is written at p: a write past the end fills the gap with zeros. */
  function Overwrite(c: seq<byte>, p: nat, s: seq<byte>): (r: seq<byte>)
    ensures p + |s| <= |c| ==> |r| == |c|
  {
    if s == [] then c
    else if p + |s| <= |c| then c[..p] + s + c[p + |s|..]
    else if p <= |c| then c[..p] + s
    else c + Zeros(p - |c|) + s
  }

  /** The bytes s stand at position p. */
  predicate Holds(c: seq<byte>, p: nat, s: seq<byte>) {
    p + |s| <= |c| && c[p..p + |s|] == s
  }

  predicate Apart(p: nat, n: nat, q: nat, m: nat) {
    p + n <= q || q + m <= p
  }

  lemma OverwriteHolds(c: seq<byte>, p: nat, s: seq<byte>)
    requires p + |s| <= |c|
    ensures Holds(Overwrite(c, p, s), p, s)
  {
  }

  lemma OverwriteByte(c: seq<byte>, p: nat, s: seq<byte>, k: nat)
    requires p + |s| <= |c| && k < |c|
    ensures Overwrite(c, p, s)[k] == if p <= k < p + |s| then s[k - p] else c[k]
  {
  }

  lemma HeldByte(c: seq<byte>, p: nat, s: seq<byte>, k: nat)
    requires Holds(c, p, s) && p <= k < p + |s|
    ensures c[k] == s[k - p]
  {
    assert c[p..p + |s|][k - p] == c[k];
  }

  /** Two contents of the same length agree on n bytes from p. */
  predicate AgreeOn(c: seq<byte>, d: seq<byte>, p: nat, n: nat) {
    p + n <= |c| == |d| && c[p..p + n] == d[p..p + n]
  }

  lemma SameSlice(c: seq<byte>, d: seq<byte>, p: nat, n: nat)
    requires p + n <= |c| && p + n <= |d| && forall k :: p <= k < p + n ==> c[k] == d[k]
    ensures c[p..p + n] == d[p..p + n]
  {
  }

  lemma StillHeld(c: seq<byte>, d: seq<byte>, p: nat, s: seq<byte>)
    requires Holds(c, p, s) && |d| == |c| && forall k :: p <= k < p + |s| ==> d[k] == c[k]
    ensures Holds(d, p, s)
  {
    SameSlice(c, d, p, |s|);
  }

  lemma OverwriteKeeps(c: seq<byte>, p: nat, s: seq<byte>, q: nat, n: nat)
    requires p + |s| <= |c| && q + n <= |c|
    requires Apart(p, |s|, q, n)
    ensures Overwrite(c, p, s)[q..q + n] == c[q..q + n]
  {
    forall k | q <= k < q + n
      ensures Overwrite(c, p, s)[k] == c[k]
    {
      OverwriteByte(c, p, s, k);
    }
  }

  // ----- runs of writes -----

  /** fseek to a position, then fwrite; empty bytes stand for no write. */
  datatype Patch = Patch(at: nat, bytes: seq<byte>)

  predicate AllFit(ps: seq<Patch>, len: nat) {
    forall i :: 0 <= i < |ps| ==> ps[i].at + |ps[i].bytes| <= len
  }

  /** The content after the first n patches. */
  function PatchAll(c: seq<byte>, ps: seq<Patch>, n: nat): (d: seq<byte>)
    requires n <= |ps| && AllFit(ps, |c|)
    ensures |d| == |c|
  {
    if n == 0 then c else Overwrite(PatchAll(c, ps, n - 1), ps[n - 1].at, ps[n - 1].bytes)
  }

  predicate Covers(p: Patch, k: nat) {
    p.at <= k < p.at + |p.bytes|
  }

  /** Two patches are the same one or touch disjoint bytes. */
  predicate Compatible(p: Patch, q: Patch) {
    p == q || p.bytes == [] || q.bytes == [] || Apart(p.at, |p.bytes|, q.at, |q.bytes|)
  }

  predicate AllCompatible(ps: seq<Patch>) {
    forall i, j :: 0 <= i < |ps| && 0 <= j < |ps| ==> Compatible(ps[i], ps[j])
  }

  lemma {:induction false} UncoveredByteKept(c: seq<byte>, ps: seq<Patch>, n: nat, k: nat)
    requires n <= |ps| && AllFit(ps, |c|) && k < |c|
    requires forall i :: 0 <= i < n ==> !Covers(ps[i], k)
    ensures PatchAll(c, ps, n)[k] == c[k]
  {
    if n > 0 {
      UncoveredByteKept(c, ps, n - 1, k);
      OverwriteByte(PatchAll(c, ps, n - 1), ps[n - 1].at, ps[n - 1].bytes, k);
    }
  }

  lemma {:induction false} UncoveredRegionKept(c: seq<byte>, ps: seq<Patch>, n: nat, q: nat, m: nat)
    requires n <= |ps| && AllFit(ps, |c|) && q + m <= |c|
    requires forall i :: 0 <= i < n ==> ps[i].bytes == [] || Apart(ps[i].at, |ps[i].bytes|, q, m)
    ensures PatchAll(c, ps, n)[q..q + m] == c[q..q + m]
  {
    if n > 0 {
      UncoveredRegionKept(c, ps, n - 1, q, m);
      if ps[n - 1].bytes != [] {
        OverwriteKeeps(PatchAll(c, ps, n - 1), ps[n - 1].at, ps[n - 1].bytes, q, m);
      }
    }
  }

  lemma {:induction false} PatchHeld(c: seq<byte>, ps: seq<Patch>, n: nat, j: nat)
    requires j < n <= |ps| && AllFit(ps, |c|) && AllCompatible(ps)
    ensures Holds(PatchAll(c, ps, n), ps[j].at, ps[j].bytes)
  {
    var d, p, q := PatchAll(c, ps, n - 1), ps[j], ps[n - 1];
    assert Compatible(p, q);
    if p == q {
      OverwriteHolds(d, q.at, q.bytes);
    } else {
      PatchHeld(c, ps, n - 1, j);
      if p.bytes != [] && q.bytes != [] {
        OverwriteKeeps(d, q.at, q.bytes, p.at, |p.bytes|);
      }
    }
  }

  lemma PatchedByte(c: seq<byte>, ps: seq<Patch>, j: nat, k: nat)
    requires j < |ps| && AllFit(ps, |c|) && AllCompatible(ps) && Covers(ps[j], k)
    ensures PatchAll(c, ps, |ps|)[k] == ps[j].bytes[k - ps[j].at]
  {
    PatchHeld(c, ps, |ps|, j);
    HeldByte(PatchAll(c, ps, |ps|), ps[j].at, ps[j].bytes, k);
  }

  lemma {:induction false} PatchSetByte(c: seq<byte>, ps: seq<Patch>, qs: seq<Patch>, k: nat)
    requires AllFit(ps, |c|) && AllFit(qs, |c|) && AllCompatible(ps) && AllCompatible(qs)
    requires forall p :: p in ps <==> p in qs
    requires k < |c|
    ensures PatchAll(c, ps, |ps|)[k] == PatchAll(c, qs, |qs|)[k]
  {
    if j :| 0 <= j < |ps| && Covers(ps[j], k) {
      assert ps[j] in qs;
      var i :| 0 <= i < |qs| && qs[i] == ps[j];
      PatchedByte(c, ps, j, k);
      PatchedByte(c, qs, i, k);
    } else {
      UncoveredByteKept(c, ps, |ps|, k);
      assert forall i :: 0 <= i < |qs| ==> qs[i] in ps;
      UncoveredByteKept(c, qs, |qs|, k);
    }
  }

  lemma PatchSetBytes(c: seq<byte>, ps: seq<Patch>, qs: seq<Patch>)
    requires AllFit(ps, |c|) && AllFit(qs, |c|) && AllCompatible(ps) && AllCompatible(qs)
    requires forall p :: p in ps <==> p in qs
    ensures forall k :: 0 <= k < |c| ==> PatchAll(c, ps, |ps|)[k] == PatchAll(c, qs, |qs|)[k]
  {
    forall k | 0 <= k < |c|
      ensures PatchAll(c, ps, |ps|)[k] == PatchAll(c, qs, |qs|)[k]
    {
      PatchSetByte(c, ps, qs, k);
    }
  }

  lemma SameBytes(c: seq<byte>, d: seq<byte>)
    requires |c| == |d| && forall k :: 0 <= k < |c| ==> c[k] == d[k]
    ensures c == d
  {
  }

  lemma CompatibleSet(ps: seq<Patch>, qs: seq<Patch>)
    requires AllCompatible(ps) && forall q :: q in qs ==> q in ps
    ensures AllCompatible(qs)
  {
    forall i, j | 0 <= i < |qs| && 0 <= j < |qs|
      ensures Compatible(qs[i], qs[j])
    {
      assert qs[i] in ps && qs[j] in ps;
    }
  }

  /** The content depends on the set of patches only: order and repetition do not matter. */
  lemma PatchSetDetermines(c: seq<byte>, ps: seq<Patch>, qs: seq<Patch>)
    requires AllFit(ps, |c|) && AllFit(qs, |c|) && AllCompatible(ps)
    requires forall p :: p in ps <==> p in qs
    ensures PatchAll(c, ps, |ps|) == PatchAll(c, qs, |qs|)
  {
    CompatibleSet(ps, qs);
    PatchSetBytes(c, ps, qs);
    SameBytes(PatchAll(c, ps, |ps|), PatchAll(c, qs, |qs|));
  }

  lemma {:induction false} EqualWrites(c: seq<byte>, ps: seq<Patch>, qs: seq<Patch>, n: nat)
    requires n <= |ps| == |qs| && AllFit(ps, |c|) && AllFit(qs, |c|)
    requires forall i :: 0 <= i < n ==> ps[i] == qs[i] || ps[i].bytes == qs[i].bytes == []
    ensures PatchAll(c, ps, n) == PatchAll(c, qs, n)
  {
    if n > 0 { EqualWrites(c, ps, qs, n - 1); }
  }

  class Stream {
    var content: seq<byte>
    var pos: nat

    constructor (initial: seq<byte>)
      ensures content == initial && pos == 0
    {
      content, pos := initial, 0;
    }

    method Seek(p: nat)
      modifies `pos
      ensures pos == p
    {
      pos := p;
    }

    /** fread of n bytes; it is short at the end of the file. */
    method Read(n: nat) returns (s: seq<byte>)
      modifies `pos
      ensures old(pos) + n <= |content| ==> s == content[old(pos)..old(pos) + n]
      ensures |content| <= old(pos) + n ==> s == content[if old(pos) <= |content| then old(pos) else |content|..]
      ensures pos == old(pos) + |s|
    {
      var from := if pos <= |content| then pos else |content|;
      var to := if from + n <= |content| then from + n else |content|;
      s := content[from..to];
      pos := pos + |s|;
    }

    method Write(s: seq<byte>)
      modifies this
      ensures content == Overwrite(old(content), old(pos), s)
      ensures pos == old(pos) + |s|
    {
      content := Overwrite(content, pos, s);
      pos := pos + |s|;
    }
  }
}
