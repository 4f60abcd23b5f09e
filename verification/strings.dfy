/** Text helpers shared by the expression parser and the table layout:
    first-occurrence search, repetition and separator joining. */
module Strings {
  import opened Wrappers

  /** The index of the first element of `s` satisfying `p`, if there is one. */
  function FindFirst<T>(s: seq<T>, p: T -> bool): (r: Option<nat>)
    ensures r.Some? ==> r.value < |s| && p(s[r.value])
    ensures r.Some? ==> forall j :: 0 <= j < r.value ==> !p(s[j])
    ensures r.None? <==> forall j :: 0 <= j < |s| ==> !p(s[j])
  {
    if |s| == 0 then None
    else if p(s[0]) then Some(0)
    else
      match FindFirst(s[1..], p)
      case None => None
      case Some(k) => Some(k + 1)
  }

  /** `t` occurs in `line` starting at position `p`. */
  predicate OccursAt(line: string, t: string, p: int) {
    0 <= p && p + |t| <= |line| && line[p..p + |t|] == t
  }

  /** `t` occurs in `line` as a contiguous piece. */
  ghost predicate Contains(line: string, t: string) {
    exists p :: OccursAt(line, t, p)
  }

  /** A piece of `line` that begins with `t` places `t` at the piece's start. */
  lemma PrefixOccurs(line: string, start: nat, piece: string, t: string)
    requires start + |piece| <= |line| && line[start..start + |piece|] == piece
    requires |t| <= |piece| && piece[..|t|] == t
    ensures OccursAt(line, t, start)
  {
    assert line[start..start + |t|] == piece[..|t|];
  }

  /** `n` copies of the character `c`. */
  function Repeat(c: char, n: nat): (r: string)
    ensures |r| == n
    ensures forall i :: 0 <= i < |r| ==> r[i] == c
  {
    if n == 0 then "" else [c] + Repeat(c, n - 1)
  }

  /** The parts separated by `sep`; no parts give the empty string. */
  function Join(sep: string, parts: seq<string>): string
  {
    if |parts| == 0 then ""
    else if |parts| == 1 then parts[0]
    else parts[0] + sep + Join(sep, parts[1..])
  }

  /** Sum of the lengths of the parts. */
  function TotalLength(parts: seq<string>): nat
  {
    if |parts| == 0 then 0 else |parts[0]| + TotalLength(parts[1..])
  }

  /** Where the `j`-th part starts in `Join(sep, parts)`. */
  function FieldOffset(sepLength: nat, lengths: seq<nat>, j: nat): nat
    requires j <= |lengths|
  {
    if j == 0 then 0 else lengths[0] + sepLength + FieldOffset(sepLength, lengths[1..], j - 1)
  }

  /** The lengths of the parts, in order. */
  function Lengths(parts: seq<string>): (ls: seq<nat>)
    ensures |ls| == |parts|
    ensures forall j :: 0 <= j < |parts| ==> ls[j] == |parts[j]|
  {
    seq(|parts|, j requires 0 <= j < |parts| => |parts[j]|)
  }

  /** A joined line is as long as its parts plus one separator between each two. */
  lemma {:induction false} JoinLength(sep: string, parts: seq<string>)
    requires |parts| > 0
    ensures |Join(sep, parts)| == TotalLength(parts) + |sep| * (|parts| - 1)
    decreases |parts|
  {
    if |parts| > 1 {
      JoinLength(sep, parts[1..]);
    }
  }

  /** Parts of pairwise equal lengths join into lines of equal length. */
  lemma {:induction false} JoinSameShape(sep: string, a: seq<string>, b: seq<string>)
    requires Lengths(a) == Lengths(b)
    ensures |Join(sep, a)| == |Join(sep, b)|
    decreases |a|
  {
    assert |a| == |Lengths(a)| == |Lengths(b)| == |b|;
    if |a| > 1 {
      assert Lengths(a[1..]) == Lengths(a)[1..];
      assert Lengths(b[1..]) == Lengths(b)[1..];
      JoinSameShape(sep, a[1..], b[1..]);
      assert |a[0]| == Lengths(a)[0] == Lengths(b)[0] == |b[0]|;
    } else if |a| == 1 {
      assert |a[0]| == Lengths(a)[0] == Lengths(b)[0] == |b[0]|;
    }
  }

  /** The `j`-th part sits in the joined line at the offset its predecessors' lengths fix. */
  lemma {:induction false} JoinFieldAt(sep: string, parts: seq<string>, j: nat)
    requires j < |parts|
    ensures FieldOffset(|sep|, Lengths(parts), j) + |parts[j]| <= |Join(sep, parts)|
    ensures Join(sep, parts)[FieldOffset(|sep|, Lengths(parts), j)..FieldOffset(|sep|, Lengths(parts), j) + |parts[j]|] == parts[j]
    decreases j
  {
    var line := Join(sep, parts);
    if j == 0 {
      if |parts| > 1 {
        assert line == parts[0] + (sep + Join(sep, parts[1..]));
      }
    } else {
      var rest := Join(sep, parts[1..]);
      assert line == (parts[0] + sep) + rest;
      assert Lengths(parts[1..]) == Lengths(parts)[1..];
      JoinFieldAt(sep, parts[1..], j - 1);
      var off := FieldOffset(|sep|, Lengths(parts[1..]), j - 1);
      assert FieldOffset(|sep|, Lengths(parts), j) == |parts[0]| + |sep| + off;
      assert line[|parts[0]| + |sep| + off..|parts[0]| + |sep| + off + |parts[j]|] == rest[off..off + |parts[j]|];
    }
  }
}
