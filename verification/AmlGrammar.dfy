// The part of the AML grammar that the table uses (ACPI 6.5, sections 20.2.2, 20.2.3, 20.2.4 and 20.2.5): a reader
// and a writer of term lists that know nothing of the emitter's nodes.
module AmlGrammar {
  import opened Bytes
  import opened Aml

  type Seg = seq<Byte>

  datatype Name = Absolute(segs: seq<Seg>) | Local(seg: Seg)

  datatype Value = Zero | Text(chars: seq<Byte>)

  datatype Term =
    | Scope(name: Name, body: seq<Term>)
    | If(cond: Value, body: seq<Term>)
    | External(name: Name, kind: Byte, arguments: Byte)
    | Define(name: Name, value: Value)

  datatype Parsed<T> = Fail | Got(value: T, rest: seq<Byte>)

  // ---- reading

  predicate LeadNameChar(b: Byte) { 0x41 <= b <= 0x5a || b == 0x5f }
  predicate NameChar(b: Byte) { LeadNameChar(b) || 0x30 <= b <= 0x39 }

  predicate IsSeg(s: seq<Byte>) {
    |s| == 4 && LeadNameChar(s[0]) && NameChar(s[1]) && NameChar(s[2]) && NameChar(s[3])
  }

  function ReadSegs(s: seq<Byte>, n: nat): (r: Parsed<seq<Seg>>)
    ensures r.Got? ==> |r.rest| <= |s|
    decreases n
  {
    if n == 0 then Got([], s)
    else if |s| < 4 || !IsSeg(s[..4]) then Fail
    else
      match ReadSegs(s[4..], n - 1)
      case Fail => Fail
      case Got(segs, rest) => Got([s[..4]] + segs, rest)
  }

  // NameString: an optional root character, then a NamePath
  function ReadName(s: seq<Byte>): (r: Parsed<Name>)
    ensures r.Got? ==> |r.rest| < |s|
  {
    if s == [] then Fail
    else if s[0] == 0x5c then
      match ReadPath(s[1..])
      case Fail => Fail
      case Got(segs, rest) => Got(Absolute(segs), rest)
    else if |s| < 4 || !IsSeg(s[..4]) then Fail
    else Got(Local(s[..4]), s[4..])
  }

  // NamePath: a NameSeg, a DualNamePath, a MultiNamePath with its count, or a NullName
  function ReadPath(s: seq<Byte>): (r: Parsed<seq<Seg>>)
    ensures r.Got? ==> |r.rest| <= |s|
  {
    if s == [] then Fail
    else if s[0] == 0x2e then ReadSegs(s[1..], 2)
    else if s[0] == 0x2f then
      if |s| < 2 || s[1] == 0 then Fail else ReadSegs(s[2..], s[1])
    else if s[0] == 0 then Got([], s[1..])
    else ReadSegs(s, 1)
  }

  function ReadText(s: seq<Byte>): (r: Parsed<seq<Byte>>)
    ensures r.Got? ==> |r.rest| < |s|
  {
    if s == [] || s[0] > 0x7f then Fail
    else if s[0] == 0 then Got([], s[1..])
    else
      match ReadText(s[1..])
      case Fail => Fail
      case Got(chars, rest) => Got([s[0]] + chars, rest)
  }

  function ReadValue(s: seq<Byte>): (r: Parsed<Value>)
    ensures r.Got? ==> |r.rest| < |s|
  {
    if s == [] then Fail
    else if s[0] == 0 then Got(Zero, s[1..])
    else if s[0] == 0x0d then
      match ReadText(s[1..])
      case Fail => Fail
      case Got(chars, rest) => Got(Text(chars), rest)
    else Fail
  }

  // The content of a package, found by its length, and what follows the package
  function ReadPackage(s: seq<Byte>): (r: Parsed<seq<Byte>>)
    ensures r.Got? ==> |r.value| + |r.rest| < |s|
  {
    if s == [] || |s| < PkgWidth(s[0]) then Fail
    else
      var length := PkgValue(s);
      if PkgWidth(s[0]) <= length <= |s| then Got(s[PkgWidth(s[0])..length], s[length..]) else Fail
  }

  // ScopeOp, IfOp, ExternalOp and NameOp
  function ReadTerm(s: seq<Byte>): (r: Parsed<Term>)
    ensures r.Got? ==> |r.rest| < |s|
    decreases |s|, 0
  {
    if s == [] then Fail
    else if s[0] == 0x10 then
      match ReadPackage(s[1..])
      case Fail => Fail
      case Got(content, rest) =>
        match ReadName(content)
        case Fail => Fail
        case Got(name, terms) =>
          match ReadTerms(terms)
          case Fail => Fail
          case Got(body, _) => Got(Scope(name, body), rest)
    else if s[0] == 0xa0 then
      match ReadPackage(s[1..])
      case Fail => Fail
      case Got(content, rest) =>
        match ReadValue(content)
        case Fail => Fail
        case Got(cond, terms) =>
          match ReadTerms(terms)
          case Fail => Fail
          case Got(body, _) => Got(If(cond, body), rest)
    else if s[0] == 0x15 then
      match ReadName(s[1..])
      case Fail => Fail
      case Got(name, rest) => if |rest| < 2 then Fail else Got(External(name, rest[0], rest[1]), rest[2..])
    else if s[0] == 0x08 then
      match ReadName(s[1..])
      case Fail => Fail
      case Got(name, rest) =>
        match ReadValue(rest)
        case Fail => Fail
        case Got(v, rest') => Got(Define(name, v), rest')
    else Fail
  }

  // A TermList fills the bytes it is given.
  function ReadTerms(s: seq<Byte>): (r: Parsed<seq<Term>>)
    decreases |s|, 1
  {
    if s == [] then Got([], [])
    else
      match ReadTerm(s)
      case Fail => Fail
      case Got(t, rest) =>
        match ReadTerms(rest)
        case Fail => Fail
        case Got(ts, _) => Got([t] + ts, [])
  }

  // ---- writing

  function WriteSegs(segs: seq<Seg>): seq<Byte> {
    if segs == [] then [] else segs[0] + WriteSegs(segs[1..])
  }

  function WriteName(name: Name): seq<Byte> {
    match name
    case Local(seg) => seg
    case Absolute(segs) =>
      if |segs| == 2 then [0x5c, 0x2e] + WriteSegs(segs) else [0x5c, 0x2f, |segs| % 0x100] + WriteSegs(segs)
  }

  function WriteValue(v: Value): seq<Byte> {
    match v
    case Zero => [0]
    case Text(chars) => [0x0d] + chars + [0]
  }

  function WriteTerm(t: Term): (s: seq<Byte>)
    ensures |s| > 0
    decreases t
  {
    match t
    case Scope(name, body) => [SCOPE_OP] + Wrapped(WriteName(name) + WriteTerms(body))
    case If(cond, body) => [IF_OP] + Wrapped(WriteValue(cond) + WriteTerms(body))
    case External(name, kind, arguments) => [EXTERNAL_OP] + WriteName(name) + [kind, arguments]
    case Define(name, v) => [0x08] + WriteName(name) + WriteValue(v)
  }

  function WriteTerms(ts: seq<Term>): seq<Byte>
    decreases ts
  {
    if ts == [] then [] else WriteTerm(ts[0]) + WriteTerms(ts[1..])
  }

  // ---- reading back what was written

  ghost predicate ValidName(name: Name) {
    match name
    case Local(seg) => IsSeg(seg)
    case Absolute(segs) => 1 <= |segs| <= 255 && forall i {:trigger segs[i]} :: 0 <= i < |segs| ==> IsSeg(segs[i])
  }

  ghost predicate ValidValue(v: Value) {
    v.Text? ==> forall i {:trigger v.chars[i]} :: 0 <= i < |v.chars| ==> 1 <= v.chars[i] <= 0x7f
  }

  // A package of 2^28 bytes or more has no PkgLength.
  ghost predicate Fits(content: seq<Byte>) {
    |content| + Width(|content|) < 0x1000_0000
  }

  ghost predicate ValidTerm(t: Term)
    decreases t
  {
    match t
    case Scope(name, body) => ValidName(name) && ValidTerms(body) && Fits(WriteName(name) + WriteTerms(body))
    case If(cond, body) => ValidValue(cond) && ValidTerms(body) && Fits(WriteValue(cond) + WriteTerms(body))
    case External(name, _, _) => ValidName(name)
    case Define(name, v) => ValidName(name) && ValidValue(v)
  }

  ghost predicate ValidTerms(ts: seq<Term>)
    decreases ts
  {
    forall i {:trigger ts[i]} :: 0 <= i < |ts| ==> ValidTerm(ts[i])
  }

  lemma {:induction false} ReadSegsBack(segs: seq<Seg>, rest: seq<Byte>)
    requires forall i {:trigger segs[i]} :: 0 <= i < |segs| ==> IsSeg(segs[i])
    ensures ReadSegs(WriteSegs(segs) + rest, |segs|) == Got(segs, rest)
    ensures |WriteSegs(segs)| == 4 * |segs|
  {
    if segs == [] {
      assert WriteSegs(segs) + rest == rest;
    } else {
      var s := WriteSegs(segs) + rest;
      var s' := WriteSegs(segs[1..]) + rest;
      ReadSegsBack(segs[1..], rest);
      assert segs == [segs[0]] + segs[1..];
      SegFirst(segs, rest);
      hide WriteSegs, IsSeg;
      assert ReadSegs(s', |segs| - 1) == Got(segs[1..], rest);
    }
  }

  lemma SegFirst(segs: seq<Seg>, rest: seq<Byte>)
    requires segs != [] && |segs[0]| == 4
    ensures var s := WriteSegs(segs) + rest;
      |s| >= 4 && s[..4] == segs[0] && s[4..] == WriteSegs(segs[1..]) + rest
  {
    assert WriteSegs(segs) + rest == segs[0] + (WriteSegs(segs[1..]) + rest);
  }

  lemma ReadNameBack(name: Name, rest: seq<Byte>)
    requires ValidName(name)
    ensures ReadName(WriteName(name) + rest) == Got(name, rest)
  {
    hide ReadSegs, WriteSegs;
    var s := WriteName(name) + rest;
    match name
    case Local(seg) =>
      assert s[..4] == seg && s[4..] == rest;
    case Absolute(segs) =>
      ReadSegsBack(segs, rest);
      if |segs| == 2 {
        assert s[1..][1..] == WriteSegs(segs) + rest;
      } else {
        assert s[1..][2..] == WriteSegs(segs) + rest;
      }
  }

  lemma {:induction false} ReadTextBack(chars: seq<Byte>, rest: seq<Byte>)
    requires forall i {:trigger chars[i]} :: 0 <= i < |chars| ==> 1 <= chars[i] <= 0x7f
    ensures ReadText(chars + [0] + rest) == Got(chars, rest)
  {
    var s := chars + [0] + rest;
    if chars == [] {
      assert s[1..] == rest;
    } else {
      ReadTextBack(chars[1..], rest);
      assert chars == [chars[0]] + chars[1..];
      assert s[1..] == chars[1..] + [0] + rest;
    }
  }

  lemma ReadValueBack(v: Value, rest: seq<Byte>)
    requires ValidValue(v)
    ensures ReadValue(WriteValue(v) + rest) == Got(v, rest)
  {
    var s := WriteValue(v) + rest;
    match v
    case Zero => assert s[1..] == rest;
    case Text(chars) =>
      ReadTextBack(chars, rest);
      assert s[1..] == chars + [0] + rest;
  }

  lemma ReadPackageBack(content: seq<Byte>, rest: seq<Byte>)
    requires Fits(content)
    ensures ReadPackage(Wrapped(content) + rest) == Got(content, rest)
  {
    var length := |content| + Width(|content|);
    var s := Wrapped(content) + rest;
    var p := PkgLength(length);
    WidthsAgree(|content|);
    PkgRoundTrip(length, content + rest);
    hide PkgLength, PkgWidth, PkgValue;
    assert s == p + (content + rest);
    assert s[|p|..length] == content && s[length..] == rest;
  }

  lemma {:induction false} ReadTermBack(t: Term, rest: seq<Byte>)
    requires ValidTerm(t)
    ensures ReadTerm(WriteTerm(t) + rest) == Got(t, rest)
    decreases t
  {
    hide ReadPackage, ReadName, ReadValue, Wrapped, WriteName, WriteValue, ReadTerms, WriteTerms;
    var s := WriteTerm(t) + rest;
    match t
    case Scope(name, body) =>
      var content := WriteName(name) + WriteTerms(body);
      assert s[1..] == Wrapped(content) + rest;
      ReadPackageBack(content, rest);
      ReadNameBack(name, WriteTerms(body));
      ReadTermsBack(body);
    case If(cond, body) =>
      var content := WriteValue(cond) + WriteTerms(body);
      assert s[1..] == Wrapped(content) + rest;
      ReadPackageBack(content, rest);
      ReadValueBack(cond, WriteTerms(body));
      ReadTermsBack(body);
    case External(name, kind, arguments) =>
      var r := [kind, arguments] + rest;
      assert s[1..] == WriteName(name) + r;
      ReadNameBack(name, r);
      assert r[2..] == rest;
    case Define(name, v) =>
      assert s[1..] == WriteName(name) + (WriteValue(v) + rest);
      ReadNameBack(name, WriteValue(v) + rest);
      ReadValueBack(v, rest);
  }

  lemma {:induction false} ReadTermsBack(ts: seq<Term>)
    requires ValidTerms(ts)
    ensures ReadTerms(WriteTerms(ts)) == Got(ts, [])
    decreases ts
  {
    if ts != [] {
      hide ReadTerm, WriteTerm, ValidTerm;
      assert ts == [ts[0]] + ts[1..];
      ReadTermBack(ts[0], WriteTerms(ts[1..]));
      ReadTermsBack(ts[1..]);
    }
  }
}
