// Byte strings, search patterns and their occurrences.
module Patterns {
  import opened Bytes

  datatype Mask = NoMask | Masked(bytes: seq<Byte>)

  datatype Pattern = Pattern(bytes: seq<Byte>, mask: Mask)

  ghost predicate WellFormed(p: Pattern) {
    p.mask.Masked? ==> |p.mask.bytes| == |p.bytes|
  }

  function And(a: Byte, b: Byte): Byte {
    ((a as bv8) & (b as bv8)) as Byte
  }

  predicate ByteMatches(b: Byte, p: Pattern, k: nat)
    requires k < |p.bytes| && (p.mask.Masked? ==> k < |p.mask.bytes|)
  {
    match p.mask
    case Masked(m) => And(b, m[k]) == p.bytes[k]
    case NoMask => b == p.bytes[k]
  }

  predicate Agrees(s: seq<Byte>, j: nat, p: Pattern, k: nat)
    requires j + k < |s| && k < |p.bytes| && (p.mask.Masked? ==> k < |p.mask.bytes|)
  {
    ByteMatches(s[j + k], p, k)
  }

  ghost predicate MatchesAt(s: seq<Byte>, j: int, p: Pattern)
    requires WellFormed(p)
  {
    && 0 <= j && j + |p.bytes| <= |s|
    && forall k {:trigger Agrees(s, j, p, k)} :: 0 <= k < |p.bytes| ==> Agrees(s, j, p, k)
  }

  ghost predicate Absent(s: seq<Byte>, p: Pattern)
    requires WellFormed(p)
  {
    forall j :: !MatchesAt(s, j, p)
  }

  // The first match of the first pattern that matches anywhere; -1 when none does
  ghost predicate FirstMatch(ps: seq<Pattern>, s: seq<Byte>, found: int)
    requires forall i :: 0 <= i < |ps| ==> WellFormed(ps[i])
  {
    if found == -1 then forall i :: 0 <= i < |ps| ==> Absent(s, ps[i])
    else exists i :: 0 <= i < |ps| && (forall h :: 0 <= h < i ==> Absent(s, ps[h])) && FirstOf(s, ps[i], found)
  }

  ghost predicate FirstOf(s: seq<Byte>, p: Pattern, found: int)
    requires WellFormed(p)
  {
    MatchesAt(s, found, p) && forall j :: j < found ==> !MatchesAt(s, j, p)
  }

  // The list of patterns, ended by a null pattern in C, is a sequence here; an image shorter than a pattern would make
  // the bound on j wrap.
  method SearchPatternInBuffer(patterns: seq<Pattern>, buf: array<Byte>, start: nat, size: nat) returns (found: int)
    requires start + size <= buf.Length
    requires forall i :: 0 <= i < |patterns| ==> WellFormed(patterns[i]) && |patterns[i].bytes| <= size
    ensures FirstMatch(patterns, buf[start..start + size], found)
  {
    hide And;
    ghost var s := buf[start..start + size];
    for i := 0 to |patterns|
      invariant forall h :: 0 <= h < i ==> Absent(s, patterns[h])
    {
      var p := patterns[i];
      for j := 0 to size - |p.bytes| + 1
        invariant forall h :: h < j ==> !MatchesAt(s, h, p)
      {
        var matched := true;
        var k := 0;
        while k < |p.bytes|
          invariant 0 <= k <= |p.bytes| && matched
          invariant forall h {:trigger Agrees(s, j, p, h)} :: 0 <= h < k ==> Agrees(s, j, p, h)
        {
          assert Agrees(s, j, p, k) == ByteMatches(buf[start + j + k], p, k);
          if !ByteMatches(buf[start + j + k], p, k) {
            matched := false;
            break;
          }
          k := k + 1;
        }
        if matched {
          assert FirstOf(s, p, j);
          return j;
        }
      }
      assert Absent(s, p);
    }
    return -1;
  }

  // ---- plain strings

  predicate Same(s: seq<Byte>, j: nat, b: seq<Byte>, k: nat)
    requires j + k < |s| && k < |b|
  {
    s[j + k] == b[k]
  }

  predicate At(s: seq<Byte>, j: int, b: seq<Byte>) {
    0 <= j && j + |b| <= |s| && forall k {:trigger Same(s, j, b, k)} :: 0 <= k < |b| ==> Same(s, j, b, k)
  }

  ghost function Occurrences(s: seq<Byte>, b: seq<Byte>): set<int> {
    set j | 0 <= j <= |s| && At(s, j, b)
  }

  lemma PlainMatch(s: seq<Byte>, j: int, b: seq<Byte>)
    ensures MatchesAt(s, j, Pattern(b, NoMask)) <==> At(s, j, b)
  {
    var p := Pattern(b, NoMask);
    if MatchesAt(s, j, p) {
      forall k {:trigger Same(s, j, b, k)} | 0 <= k < |b| ensures Same(s, j, b, k) { assert Agrees(s, j, p, k); }
    } else if At(s, j, b) {
      forall k {:trigger Agrees(s, j, p, k)} | 0 <= k < |b| ensures Agrees(s, j, p, k) { assert Same(s, j, b, k); }
    }
  }
}
