// Bytes, byte strings and writes into a buffer.
module Bytes {
  type Byte = x: int | 0 <= x < 256

  // s with b written at position at
  function Splice(s: seq<Byte>, at: nat, b: seq<Byte>): (r: seq<Byte>)
    requires at + |b| <= |s|
    ensures |r| == |s|
    ensures forall i {:trigger r[i]} :: 0 <= i < |s| ==> r[i] == if at <= i < at + |b| then b[i - at] else s[i]
  {
    s[..at] + b + s[at + |b|..]
  }

  // Two writes side by side are one write.
  lemma SpliceSplice(s: seq<Byte>, at: nat, b: seq<Byte>, c: seq<Byte>)
    requires at + |b| + |c| <= |s|
    ensures Splice(Splice(s, at, b), at + |b|, c) == Splice(s, at, b + c)
  {}

  // memcpy(buf + at, b, |b|)
  method CopyInto(buf: array<Byte>, at: nat, b: seq<Byte>)
    requires at + |b| <= buf.Length
    modifies buf
    ensures buf[..] == Splice(old(buf[..]), at, b)
  {
    forall i | 0 <= i < |b| { buf[at + i] := b[i]; }
  }

  function LittleEndian(b: seq<Byte>): nat {
    if b == [] then 0 else b[0] as nat + 0x100 * LittleEndian(b[1..])
  }

  // t holds the characters of text at position at.
  ghost predicate Reads(t: seq<Byte>, at: nat, text: string) {
    at + |text| <= |t| && forall i :: 0 <= i < |text| ==> t[at + i] as int == text[i] as int
  }

  lemma Little(b: seq<Byte>, k: nat)
    requires k < |b|
    ensures LittleEndian(b[k..]) == b[k] as nat + 0x100 * LittleEndian(b[k + 1..])
    ensures LittleEndian(b[|b|..]) == 0
  {
    assert b[k..][1..] == b[k + 1..];
  }

  lemma Little2(b: seq<Byte>)
    requires |b| == 2
    ensures LittleEndian(b) == b[0] as nat + 0x100 * b[1] as nat
  {
    Little(b, 1);
    Little(b, 0);
    assert b[0..] == b;
  }

  lemma Little4(b: seq<Byte>)
    requires |b| == 4
    ensures LittleEndian(b) == Word4(b)
  {
    Little(b, 3);
    Little(b, 2);
    Little(b, 1);
    Little(b, 0);
    assert b[0..] == b;
  }

  function Bytes4(w: nat): (b: seq<Byte>)
    requires w < 0x1_0000_0000
    ensures |b| == 4
  {
    [w % 0x100, w / 0x100 % 0x100, w / 0x1_0000 % 0x100, w / 0x100_0000]
  }

  function Word4(b: seq<Byte>): nat
    requires |b| == 4
  {
    var b0: int, b1: int, b2: int, b3: int := b[0], b[1], b[2], b[3];
    b0 + 0x100 * b1 + 0x1_0000 * b2 + 0x100_0000 * b3
  }

  lemma Word4Bytes4(w: nat)
    requires w < 0x1_0000_0000
    ensures Word4(Bytes4(w)) == w
  {
    var a := w / 0x100;
    var b := a / 0x100;
    assert w / 0x1_0000 == b && w / 0x100_0000 == b / 0x100;
  }
}
