/**
Intel HEX: records and their text, the memory map they describe, its segments, and the
image of a range.
*/
module HexRecords {
  import opened BitVectors
  import opened Wrappers

  datatype HexError =
    | InvalidByte | DataAfterEof | MissingColon | MalformedLength | CountMismatch | BadChecksum
    | Conflict | EofNotEmpty | BadSegment | BadLinear | Unsupported | MissingEof | OutsideRange

  datatype Result<T> = Ok(value: T) | Err(error: HexError)

  // ----- digits and bytes -----

  const UPPER := "0123456789ABCDEF"
  const LOWER := "0123456789abcdef"

  function ValueOf(c: char): (v: Option<nat>)
    ensures v.Some? ==> v.value < 16
  {
    if '0' <= c <= '9' then Some((c - '0') as nat)
    else if 'A' <= c <= 'F' then Some((c - 'A') as nat + 10)
    else if 'a' <= c <= 'f' then Some((c - 'a') as nat + 10)
    else None
  }

  /** The character is the digit, in either case. */
  predicate IsDigit(c: char, v: nat) {
    v < 16 && (c == UPPER[v] || c == LOWER[v])
  }

  /** A byte as two digits, each in either case. */
  predicate IsPair(h: char, l: char, b: Byte) {
    IsDigit(h, b / 16) && IsDigit(l, b % 16)
  }

  /** Bytes as pairs of digits. */
  predicate HexOf(s: string, bytes: seq<Byte>)
    decreases |bytes|
  {
    if bytes == [] then s == ""
    else |s| >= 2 && IsPair(s[0], s[1], bytes[0]) && HexOf(s[2..], bytes[1..])
  }

  /** _parse_byte */
  function ReadPair(h: char, l: char): Option<Byte> {
    match (ValueOf(h), ValueOf(l))
    case (Some(x), Some(y)) => Some(x * 16 + y)
    case _ => None
  }

  /** _parse_byte on every pair. */
  function ReadBytes(s: string): Result<seq<Byte>>
    requires |s| % 2 == 0
    decreases |s|
  {
    if s == "" then Ok([])
    else
      match (ReadPair(s[0], s[1]), ReadBytes(s[2..]))
      case (None, _) => Err(InvalidByte)
      case (_, Err(e)) => Err(e)
      case (Some(b), Ok(rest)) => Ok([b] + rest)
  }

  lemma DigitValue(c: char, v: nat)
    ensures IsDigit(c, v) <==> ValueOf(c) == Some(v)
  {
  }

  /** A pair is read as the byte it spells, and only then. */
  lemma PairRead(h: char, l: char, b: Byte)
    ensures ReadPair(h, l) == Some(b) <==> IsPair(h, l, b)
  {
    DigitValue(h, b / 16);
    DigitValue(l, b % 16);
    if ReadPair(h, l) == Some(b) {
      PairValue(b, ValueOf(h).value, ValueOf(l).value);
    }
  }

  lemma PairValue(b: Byte, h: nat, l: nat)
    requires b == h * 16 + l && l < 16
    ensures b / 16 == h && b % 16 == l
  {
  }

  /** What is read is the bytes that the digits spell, and nothing else is read. */
  lemma {:induction false} BytesRead(s: string, bytes: seq<Byte>)
    requires HexOf(s, bytes)
    ensures |s| == 2 * |bytes| && ReadBytes(s) == Ok(bytes)
    decreases |bytes|
  {
    if bytes != [] {
      BytesRead(s[2..], bytes[1..]);
      PairRead(s[0], s[1], bytes[0]);
      assert [bytes[0]] + bytes[1..] == bytes;
    }
  }

  lemma {:induction false} BytesSpelled(s: string)
    requires |s| % 2 == 0 && ReadBytes(s).Ok?
    ensures HexOf(s, ReadBytes(s).value)
    decreases |s|
  {
    if s != "" {
      BytesSpelled(s[2..]);
      var bytes := ReadBytes(s).value;
      PairRead(s[0], s[1], bytes[0]);
      assert bytes[1..] == ReadBytes(s[2..]).value;
    }
  }

  // ----- lines -----

  predicate IsSpace(c: char) {
    c == ' ' || c == '\t'
  }

  /** str.strip */
  function Strip(s: string): string
    decreases |s|
  {
    if s == "" then ""
    else if IsSpace(s[0]) then Strip(s[1..])
    else if IsSpace(s[|s| - 1]) then Strip(s[..|s| - 1])
    else s
  }

  predicate Blank(s: string) {
    forall i :: 0 <= i < |s| ==> s[i] == ' ' || s[i] == '\t'
  }

  /** `i` and `j` mark what is left of the line between its blanks. */
  predicate Trimmed(line: string, i: int, j: int) {
    && 0 <= i < j <= |line| && Blank(line[..i]) && Blank(line[j..])
    && !IsSpace(line[i]) && !IsSpace(line[j - 1])
  }

  lemma {:induction false} StripTrims(line: string, i: int, j: int)
    requires Trimmed(line, i, j)
    ensures Strip(line) == line[i..j]
    decreases |line|
  {
    if i > 0 {
      assert line[..i][0] == line[0];
      WithoutFirst(line, line[1..], i, j);
      StripTrims(line[1..], i - 1, j - 1);
    } else if j < |line| {
      var n := |line| - 1;
      assert line[j..][n - j] == line[n];
      WithoutLast(line, line[..n], i, j);
      StripTrims(line[..n], i, j);
    }
  }

  lemma WithoutFirst(line: string, rest: string, i: nat, j: nat)
    requires 0 < i < j <= |line| && rest == line[1..]
    ensures rest[..i - 1] == line[..i][1..] && rest[i - 1..j - 1] == line[i..j] && rest[j - 1..] == line[j..]
  {
  }

  lemma WithoutLast(line: string, rest: string, i: nat, j: nat)
    requires i < j < |line| && rest == line[..|line| - 1]
    ensures rest[..i] == line[..i] && rest[i..j] == line[i..j] && rest[j..] == line[j..][..|rest| - j]
  {
  }

  lemma {:induction false} StripBlank(line: string)
    requires Blank(line)
    ensures Strip(line) == ""
    decreases |line|
  {
    if line != "" {
      StripBlank(line[1..]);
    }
  }

  /** Whatever strip leaves is between blanks. */
  lemma {:induction false} StripIsTrimmed(line: string) returns (i: nat, j: nat)
    requires !Blank(line)
    ensures Trimmed(line, i, j)
    decreases |line|
  {
    if IsSpace(line[0]) {
      i, j := StripIsTrimmed(line[1..]);
      assert line[..i + 1] == [line[0]] + line[1..][..i] && line[1..][j..] == line[j + 1..];
      i, j := i + 1, j + 1;
    } else if IsSpace(line[|line| - 1]) {
      var n := |line| - 1;
      i, j := StripIsTrimmed(line[..n]);
      assert line[j..] == line[..n][j..] + [line[n]] && line[..n][..i] == line[..i];
    } else {
      i, j := 0, |line|;
    }
  }

  /** sum(payload) */
  function Sum(bytes: seq<Byte>): nat
    decreases |bytes|
  {
    if bytes == [] then 0 else bytes[0] as int + Sum(bytes[1..])
  }

  lemma {:induction false} SumSnoc(bytes: seq<Byte>, b: Byte)
    ensures Sum(bytes + [b]) == Sum(bytes) + b
    decreases |bytes|
  {
    if bytes == [] {
      assert bytes + [b] == [b] && [b][1..] == [];
    } else {
      assert (bytes + [b])[1..] == bytes[1..] + [b];
      SumSnoc(bytes[1..], b);
    }
  }

  datatype Record = Record(offset: nat, kind: Byte, data: seq<Byte>)

  predicate Renderable(r: Record) {
    r.offset < 0x1_0000 && |r.data| < 256
  }

  function Body(r: Record): (b: seq<Byte>)
    requires Renderable(r)
    ensures |b| == 4 + |r.data|
  {
    [|r.data|, r.offset / 256, r.offset % 256, r.kind] + r.data
  }

  /** The bytes added up in one byte, which wraps. */
  function Total(bytes: seq<Byte>): Byte
    decreases |bytes|
  {
    if bytes == [] then 0 else ((Total(bytes[..|bytes| - 1]) as int) + bytes[|bytes| - 1] as int) % 256
  }

  lemma {:induction false} TotalIsSum(bytes: seq<Byte>)
    ensures Total(bytes) == Sum(bytes) % 256
    decreases |bytes|
  {
    if bytes != [] {
      var (init, b) := (bytes[..|bytes| - 1], bytes[|bytes| - 1]);
      TotalIsSum(init);
      SumSnoc(init, b);
      assert init + [b] == bytes;
      AddsUp(Sum(init), b);
    }
  }

  lemma AddsUp(x: nat, b: Byte)
    ensures (x % 256 + b) % 256 == (x + b) % 256
  {
  }

  /** The byte that brings the total to zero. */
  function Checksum(body: seq<Byte>): Byte {
    (256 - Total(body) as int) % 256
  }

  /** The payload of a record, with its checksum. */
  function Payload(r: Record): (p: seq<Byte>)
    requires Renderable(r)
    ensures |p| == 5 + |r.data|
  {
    Body(r) + [Checksum(Body(r))]
  }

  /** A colon and the digits of these bytes, each in either case. */
  predicate Spells(s: string, bytes: seq<Byte>) {
    s != "" && s[0] == ':' && HexOf(s[1..], bytes)
  }

  /** A line that renders a record: its payload spelled between blanks. */
  ghost predicate Renders(line: string, r: Record)
    requires Renderable(r)
  {
    exists i, j :: 0 <= i <= j <= |line| && Blank(line[..i]) && Spells(line[i..j], Payload(r)) && Blank(line[j..])
  }

  /** One stripped, non-empty line. */
  function DecodeLine(line: string): Result<Record> {
    if line == "" || line[0] != ':' then Err(MissingColon)
    else if |line| < 11 || (|line| - 1) % 2 != 0 then Err(MalformedLength)
    else
      match ReadBytes(line[1..])
      case Err(e) => Err(e)
      case Ok(payload) =>
        if |payload| < 5 || |payload| != (payload[0] as int) + 5 then Err(CountMismatch)
        else if Sum(payload) % 256 != 0 then Err(BadChecksum)
        else Ok(Record((payload[1] as int) * 256 + payload[2] as int, payload[3], payload[4..4 + payload[0] as int]))
  }

  lemma ChecksumCloses(body: seq<Byte>, b: Byte)
    ensures Sum(body + [b]) % 256 == 0 <==> b == Checksum(body)
  {
    TotalIsSum(body);
    SumSnoc(body, b);
    Closes(Sum(body), b);
  }

  lemma Closes(x: nat, b: Byte)
    ensures (x + b) % 256 == 0 <==> b == (256 - x % 256) % 256
  {
  }

  lemma PayloadFields(r: Record)
    requires Renderable(r)
    ensures var p := Payload(r);
            && p[0] == |r.data| && (p[1] as int) * 256 + p[2] as int == r.offset && p[3] == r.kind
            && p[4..4 + |r.data|] == r.data && Sum(p) % 256 == 0
  {
    ChecksumCloses(Body(r), Checksum(Body(r)));
  }

  function RecordOf(p: seq<Byte>): Record
    requires |p| >= 5 && |p| == (p[0] as int) + 5
  {
    Record((p[1] as int) * 256 + p[2] as int, p[3], p[4..4 + p[0] as int])
  }

  lemma PayloadOf(p: seq<Byte>)
    requires |p| >= 5 && |p| == (p[0] as int) + 5 && Sum(p) % 256 == 0
    ensures Renderable(RecordOf(p)) && Payload(RecordOf(p)) == p
  {
    var (body, b) := (p[..|p| - 1], p[|p| - 1]);
    assert p == body + [b];
    ChecksumCloses(body, b);
    BodyOf(p, RecordOf(p));
  }

  lemma BodyOf(p: seq<Byte>, r: Record)
    requires |p| >= 5 && |p| == (p[0] as int) + 5 && r == RecordOf(p)
    ensures Renderable(r) && Body(r) == p[..|p| - 1]
  {
    assert p[..|p| - 1] == [p[0], p[1], p[2], p[3]] + p[4..|p| - 1];
  }

  lemma {:induction false} TextDecoded(line: string, payload: seq<Byte>)
    requires |line| == 1 + 2 * |payload| && line[0] == ':' && |payload| >= 5
    requires ReadBytes(line[1..]) == Ok(payload) && |payload| == (payload[0] as int) + 5 && Sum(payload) % 256 == 0
    ensures DecodeLine(line) == Ok(RecordOf(payload))
  {
  }

  lemma LineRead(line: string, r: Record)
    requires Renderable(r) && Spells(line, Payload(r))
    ensures DecodeLine(line) == Ok(r)
  {
    var p := Payload(r);
    PayloadFields(r);
    BytesRead(line[1..], p);
    RecordBack(r, p);
    TextDecoded(line, p);
  }

  lemma RecordBack(r: Record, p: seq<Byte>)
    requires |p| == 5 + |r.data| && p[0] == |r.data| && (p[1] as int) * 256 + p[2] as int == r.offset && p[3] == r.kind
    requires p[4..4 + |r.data|] == r.data
    ensures RecordOf(p) == r
  {
  }

  /** A line is read as a record exactly if it spells the record and its checksum. */
  lemma LineReadIff(line: string, r: Record)
    ensures DecodeLine(line) == Ok(r) <==> Renderable(r) && Spells(line, Payload(r))
  {
    if DecodeLine(line) == Ok(r) {
      BytesSpelled(line[1..]);
      PayloadOf(ReadBytes(line[1..]).value);
    }
    if Renderable(r) && Spells(line, Payload(r)) {
      LineRead(line, r);
    }
  }

  lemma {:induction false} HexEnds(s: string, bytes: seq<Byte>)
    requires HexOf(s, bytes) && bytes != []
    ensures s != "" && !IsSpace(s[|s| - 1])
    decreases |bytes|
  {
    if |bytes| > 1 {
      HexEnds(s[2..], bytes[1..]);
    }
  }

  /** A rendered record is read as the record it was. */
  lemma RecordRead(line: string, r: Record)
    requires Renderable(r) && Renders(line, r)
    ensures Strip(line) != "" && DecodeLine(Strip(line)) == Ok(r)
  {
    var i, j :| 0 <= i <= j <= |line| && Blank(line[..i]) && Spells(line[i..j], Payload(r)) && Blank(line[j..]);
    TrimmedRead(line, i, j, line[i..j], r);
  }

  lemma {:induction false} TrimmedRead(line: string, i: nat, j: nat, text: string, r: Record)
    requires Renderable(r) && i <= j <= |line| && text == line[i..j]
    requires Blank(line[..i]) && Spells(text, Payload(r)) && Blank(line[j..])
    ensures Strip(line) == text && text != "" && DecodeLine(text) == Ok(r)
  {
    SpelledEnds(text, Payload(r));
    TextTrims(line, i, j, text);
    LineRead(text, r);
  }

  lemma SpelledEnds(text: string, bytes: seq<Byte>)
    requires Spells(text, bytes) && bytes != []
    ensures text != "" && !IsSpace(text[0]) && !IsSpace(text[|text| - 1])
  {
    var digits := text[1..];
    HexEnds(digits, bytes);
    assert text[|text| - 1] == digits[|digits| - 1];
  }

  lemma {:induction false} TextTrims(line: string, i: nat, j: nat, text: string)
    requires i <= j <= |line| && text == line[i..j] && Blank(line[..i]) && Blank(line[j..])
    requires text != "" && !IsSpace(text[0]) && !IsSpace(text[|text| - 1])
    ensures Strip(line) == text
  {
    TextBetween(line, i, j, text);
    StripTrims(line, i, j);
  }

  lemma {:induction false} TextBetween(line: string, i: nat, j: nat, text: string)
    requires i <= j <= |line| && text == line[i..j] && text != ""
    ensures i < j && text[0] == line[i] && text[|text| - 1] == line[j - 1]
  {
  }

  /** And a line that is read as a record renders it. */
  lemma RecordRendered(line: string, r: Record)
    requires DecodeLine(Strip(line)) == Ok(r)
    ensures Renderable(r) && Renders(line, r)
  {
    LineReadIff(Strip(line), r);
    if Blank(line) {
      StripBlank(line);
    } else {
      var i, j := StripIsTrimmed(line);
      StripTrims(line, i, j);
    }
  }

  lemma BlankIff(line: string)
    ensures Blank(line) <==> Strip(line) == ""
  {
    if Blank(line) {
      StripBlank(line);
    } else {
      var i, j := StripIsTrimmed(line);
      StripTrims(line, i, j);
    }
  }

  // ----- every record has renderings -----

  lemma {:induction false} HexExists(bytes: seq<Byte>, upper: bool) returns (s: string)
    ensures HexOf(s, bytes)
    decreases |bytes|
  {
    if bytes == [] {
      s := "";
    } else {
      var rest := HexExists(bytes[1..], upper);
      var digits := if upper then UPPER else LOWER;
      s := [digits[bytes[0] / 16], digits[bytes[0] % 16]] + rest;
      assert s[2..] == rest;
    }
  }

  lemma RenderingExists(r: Record, upper: bool) returns (line: string)
    requires Renderable(r)
    ensures Renders(line, r)
  {
    var digits := HexExists(Payload(r), upper);
    line := ":" + digits;
    assert line[1..] == digits && line[0..|line|] == line && Spells(line[0..|line|], Payload(r));
  }
}

/**
The memory map of a list of records: which byte each record puts where.
*/
module HexMaps {
  import opened BitVectors
  import opened Wrappers

  type Memory = map<nat, Byte>

  /** The placements of a record list, in order. */
  type Placement = (nat, Byte)

  /** Bytes put in place one after the other; a different byte at the same address conflicts. */
  function Collect(ps: seq<Placement>): Option<Memory>
    decreases |ps|
  {
    if ps == [] then Some(map[])
    else
      var n := |ps| - 1;
      var before := Collect(ps[..n]);
      var (a, v) := ps[n];
      if before.None? then None
      else if a in before.value && before.value[a] != v then None
      else Some(before.value[a := v])
  }

  predicate Clash(ps: seq<Placement>, i: int, j: int) {
    0 <= i < |ps| && 0 <= j < |ps| && ps[i].0 == ps[j].0 && ps[i].1 != ps[j].1
  }

  ghost predicate Consistent(ps: seq<Placement>) {
    forall i, j :: !Clash(ps, i, j)
  }

  /** `m` is exactly what the placements say. */
  ghost predicate Describes(ps: seq<Placement>, m: Memory) {
    && (forall i :: 0 <= i < |ps| ==> ps[i].0 in m && m[ps[i].0] == ps[i].1)
    && (forall a :: a in m ==> exists i :: 0 <= i < |ps| && ps[i].0 == a)
  }

  /** There is no conflict if and only if no address is given two bytes, and then the map is
      exactly what the placements say. */
  lemma {:induction false} CollectDescribes(ps: seq<Placement>)
    ensures Collect(ps).Some? <==> Consistent(ps)
    ensures Collect(ps).Some? ==> Describes(ps, Collect(ps).value)
    decreases |ps|
  {
    if ps != [] {
      var n := |ps| - 1;
      var (a, v) := ps[n];
      assert ps == ps[..n] + [(a, v)];
      CollectDescribes(ps[..n]);
      if Collect(ps[..n]).None? {
        ClashStays(ps[..n], (a, v));
      } else {
        LastOne(ps[..n], Collect(ps[..n]).value, a, v);
      }
    }
  }

  lemma ClashStays(ps: seq<Placement>, p: Placement)
    requires !Consistent(ps)
    ensures !Consistent(ps + [p])
  {
    var i, j :| Clash(ps, i, j);
    assert Clash(ps + [p], i, j);
  }

  lemma LastOne(ps: seq<Placement>, m: Memory, a: nat, v: Byte)
    requires Describes(ps, m)
    ensures Consistent(ps + [(a, v)]) <==> a !in m || m[a] == v
    ensures a !in m || m[a] == v ==> Describes(ps + [(a, v)], m[a := v])
  {
    if a in m && m[a] != v {
      var i :| 0 <= i < |ps| && ps[i].0 == a;
      assert Clash(ps + [(a, v)], i, |ps|);
    } else {
      OneMore(ps, m, a, v);
    }
  }

  lemma OneMore(ps: seq<Placement>, m: Memory, a: nat, v: Byte)
    requires Describes(ps, m) && (a in m ==> m[a] == v)
    ensures Describes(ps + [(a, v)], m[a := v]) && Consistent(ps + [(a, v)])
  {
    var qs := ps + [(a, v)];
    assert qs[|ps|] == (a, v);
    var next := m[a := v];
    forall x | x in next ensures exists i :: 0 <= i < |qs| && qs[i].0 == x {
      if x != a {
        var i :| 0 <= i < |ps| && ps[i].0 == x;
        assert qs[i].0 == x;
      }
    }
  }

  /** Only what is placed matters, not in which order. */
  lemma OrderIrrelevant(ps: seq<Placement>, m: Memory)
    requires Describes(ps, m)
    ensures Collect(ps) == Some(m)
  {
    CollectDescribes(ps);
    var n := Collect(ps).value;
    forall a | a in m ensures a in n && n[a] == m[a] {
      var i :| 0 <= i < |ps| && ps[i].0 == a;
    }
    forall a | a in n ensures a in m {
      var i :| 0 <= i < |ps| && ps[i].0 == a;
    }
    assert n == m;
  }

  lemma {:induction false} CollectPrefix(ps: seq<Placement>, qs: seq<Placement>)
    requires Collect(ps).None?
    ensures Collect(ps + qs).None?
    decreases |qs|
  {
    if qs == [] {
      assert ps + qs == ps;
    } else {
      CollectPrefix(ps, qs[..|qs| - 1]);
      assert (ps + qs)[..|ps + qs| - 1] == ps + qs[..|qs| - 1];
    }
  }
}

/**
parse_ihex: the records of a text, line by line.
*/
module HexParser {
  import opened BitVectors
  import opened Wrappers
  import opened HexRecords
  import opened HexMaps

  datatype State = State(memory: Memory, linear: nat, segment: nat, eof: bool)

  const EMPTY := State(map[], 0, 0, false)

  /** Where a data record puts its bytes. */
  function PlaceBytes(base: nat, data: seq<Byte>): (ps: seq<Placement>)
    ensures |ps| == |data|
  {
    seq(|data|, i requires 0 <= i < |data| => (base + i, data[i]))
  }

  function PutAll(m: Memory, base: nat, data: seq<Byte>): Option<Memory>
    decreases |data|
  {
    if data == [] then Some(m)
    else
      var n := |data| - 1;
      var before := PutAll(m, base, data[..n]);
      if before.None? then None
      else if base + n in before.value && before.value[base + n] != data[n] then None
      else Some(before.value[base + n := data[n]])
  }

  function Word(data: seq<Byte>): nat
    requires |data| == 2
  {
    (data[0] as int) * 256 + data[1] as int
  }

  function StepRecord(s: State, r: Record): Result<State> {
    if r.kind == 0 then
      match PutAll(s.memory, s.linear + s.segment + r.offset, r.data)
      case None => Err(Conflict)
      case Some(m) => Ok(s.(memory := m))
    else if r.kind == 1 then
      if r.data != [] then Err(EofNotEmpty) else Ok(s.(eof := true))
    else if r.kind == 2 then
      if |r.data| != 2 then Err(BadSegment) else Ok(s.(segment := Word(r.data) * 16, linear := 0))
    else if r.kind == 4 then
      if |r.data| != 2 then Err(BadLinear) else Ok(s.(linear := Word(r.data) * 0x1_0000, segment := 0))
    else if r.kind == 3 || r.kind == 5 then Ok(s)
    else Err(Unsupported)
  }

  function Step(s: State, raw: string): Result<State> {
    var line := Strip(raw);
    if line == "" then Ok(s)
    else if s.eof then Err(DataAfterEof)
    else
      match DecodeLine(line)
      case Err(e) => Err(e)
      case Ok(r) => StepRecord(s, r)
  }

  function Run(lines: seq<string>): Result<State>
    decreases |lines|
  {
    if lines == [] then Ok(EMPTY)
    else
      match Run(lines[..|lines| - 1])
      case Err(e) => Err(e)
      case Ok(s) => Step(s, lines[|lines| - 1])
  }

  function Parse(lines: seq<string>): Result<Memory> {
    match Run(lines)
    case Err(e) => Err(e)
    case Ok(s) => if s.eof then Ok(s.memory) else Err(MissingEof)
  }

  lemma {:induction false} RunStops(lines: seq<string>, n: nat)
    requires n <= |lines| && Run(lines[..n]).Err?
    ensures Run(lines) == Run(lines[..n])
    decreases |lines| - n
  {
    if n < |lines| {
      assert lines[..n + 1][..n] == lines[..n];
      RunStops(lines, n + 1);
    } else {
      assert lines[..n] == lines;
    }
  }

  lemma RunGrows(lines: seq<string>, k: nat, s: State, next: Result<State>)
    requires k < |lines| && Run(lines[..k]) == Ok(s) && next == Step(s, lines[k])
    ensures Run(lines[..k + 1]) == next
  {
    assert lines[..k + 1][..k] == lines[..k];
  }

  lemma ParseStops(lines: seq<string>, k: nat, s: State, e: HexError)
    requires k < |lines| && Run(lines[..k]) == Ok(s) && Step(s, lines[k]) == Err(e)
    ensures Parse(lines) == Err(e)
  {
    RunGrows(lines, k, s, Err(e));
    RunStops(lines, k + 1);
  }

  /** The loop over a data record. */
  method PutData(start: Memory, base: nat, data: seq<Byte>) returns (r: Option<Memory>)
    ensures r == PutAll(start, base, data)
  {
    var memory: Memory := start;
    assert data[..0] == [];
    for i := 0 to |data|
      invariant PutAll(start, base, data[..i]) == Some(memory)
    {
      assert data[..i + 1][..i] == data[..i];
      if base + i in memory && memory[base + i] != data[i] {
        PutStops(start, base, data, i + 1);
        return None;
      }
      memory := memory[base + i := data[i]];
    }
    assert data[..|data|] == data;
    return Some(memory);
  }

  /** One record, in the loop of parse_ihex. */
  method ParseRecord(s: State, record: Record) returns (r: Result<State>)
    ensures r == StepRecord(s, record)
  {
    var data := record.data;
    if record.kind == 0 {
      var placed := PutData(s.memory, s.linear + s.segment + record.offset, data);
      return if placed.None? then Err(Conflict) else Ok(s.(memory := placed.value));
    } else if record.kind == 1 {
      return if data != [] then Err(EofNotEmpty) else Ok(s.(eof := true));
    } else if record.kind == 2 {
      return if |data| != 2 then Err(BadSegment) else Ok(s.(segment := Word(data) * 16, linear := 0));
    } else if record.kind == 4 {
      return if |data| != 2 then Err(BadLinear) else Ok(s.(linear := Word(data) * 0x1_0000, segment := 0));
    } else if record.kind == 3 || record.kind == 5 {
      return Ok(s);
    }
    return Err(Unsupported);
  }

  /** parse_ihex */
  method ParseIhex(lines: seq<string>) returns (r: Result<Memory>)
    ensures r == Parse(lines)
  {
    var s := EMPTY;
    for k := 0 to |lines|
      invariant Run(lines[..k]) == Ok(s)
    {
      RunGrows(lines, k, s, Step(s, lines[k]));
      var line := Strip(lines[k]);
      if line == "" {
        continue;
      }
      if s.eof {
        ParseStops(lines, k, s, DataAfterEof);
        return Err(DataAfterEof);
      }
      var record := DecodeLine(line);
      if record.Err? {
        ParseStops(lines, k, s, record.error);
        return Err(record.error);
      }
      var next := ParseRecord(s, record.value);
      if next.Err? {
        ParseStops(lines, k, s, next.error);
        return Err(next.error);
      }
      s := next.value;
    }
    assert lines[..|lines|] == lines;
    return if s.eof then Ok(s.memory) else Err(MissingEof);
  }

  lemma {:induction false} PutStops(m: Memory, base: nat, data: seq<Byte>, n: nat)
    requires n <= |data| && PutAll(m, base, data[..n]).None?
    ensures PutAll(m, base, data).None?
    decreases |data| - n
  {
    if n < |data| {
      assert data[..n + 1][..n] == data[..n];
      PutStops(m, base, data, n + 1);
    } else {
      assert data[..n] == data;
    }
  }

  // ----- what the records describe -----

  /** The base of the records that follow, as two big-endian bytes give it: in units of 16
      bytes after a kind 2 record, of 64 KiB after a kind 4 record. */
  function Base(rs: seq<Record>): nat
    decreases |rs|
  {
    if rs == [] then 0
    else
      var r := rs[|rs| - 1];
      if r.kind == 2 && |r.data| == 2 then 0x1000 * r.data[0] + 0x10 * r.data[1]
      else if r.kind == 4 && |r.data| == 2 then 0x100_0000 * r.data[0] + 0x1_0000 * r.data[1]
      else Base(rs[..|rs| - 1])
  }

  /** Every byte of every data record, at its address, in order. */
  function Places(rs: seq<Record>): seq<Placement>
    decreases |rs|
  {
    if rs == [] then []
    else
      var n := |rs| - 1;
      Places(rs[..n]) + if rs[n].kind == 0 then PlaceBytes(Base(rs[..n]) + rs[n].offset, rs[n].data) else []
  }

  lemma {:induction false} PutIsCollect(ps: seq<Placement>, m: Memory, base: nat, data: seq<Byte>)
    requires Collect(ps) == Some(m)
    ensures Collect(ps + PlaceBytes(base, data)) == PutAll(m, base, data)
    decreases |data|
  {
    var qs := PlaceBytes(base, data);
    if data == [] {
      assert ps + qs == ps;
    } else {
      var n := |data| - 1;
      PutIsCollect(ps, m, base, data[..n]);
      assert (ps + qs)[..|ps| + n] == ps + PlaceBytes(base, data[..n]);
    }
  }

  lemma {:induction false} PlacesNext(rs: seq<Record>, r: Record)
    ensures Places(rs + [r]) == if r.kind == 0 then Places(rs) + PlaceBytes(Base(rs) + r.offset, r.data) else Places(rs)
  {
    assert (rs + [r])[..|rs|] == rs;
    assert Places(rs) + [] == Places(rs);
  }

  lemma {:induction false} BaseNext(rs: seq<Record>, r: Record)
    ensures Base(rs + [r]) == if r.kind == 2 && |r.data| == 2 then 0x1000 * r.data[0] + 0x10 * r.data[1]
                              else if r.kind == 4 && |r.data| == 2 then 0x100_0000 * r.data[0] + 0x1_0000 * r.data[1]
                              else Base(rs)
  {
    assert (rs + [r])[..|rs|] == rs;
  }

  /** A base record sets the base to the number in it, whatever its offset. */
  lemma BaseSet(rs: seq<Record>, offset: nat, u: nat)
    requires u < 0x1_0000
    ensures Base(rs + [Record(offset, 2, [u / 256, u % 256])]) == 16 * u
    ensures Base(rs + [Record(offset, 4, [u / 256, u % 256])]) == 0x1_0000 * u
  {
    BaseNext(rs, Record(offset, 2, [u / 256, u % 256]));
    BaseNext(rs, Record(offset, 4, [u / 256, u % 256]));
  }

  lemma {:induction false} StepCollects(ps: seq<Placement>, qs: seq<Placement>, r: Record, s: State)
    requires Collect(ps) == Some(s.memory)
    requires qs == if r.kind == 0 then ps + PlaceBytes(s.linear + s.segment + r.offset, r.data) else ps
    ensures StepRecord(s, r).Ok? ==> Collect(qs) == Some(StepRecord(s, r).value.memory)
    ensures StepRecord(s, r) == Err(Conflict) ==> Collect(qs).None?
  {
    if r.kind == 0 {
      var base := s.linear + s.segment + r.offset;
      PutIsCollect(ps, s.memory, base, r.data);
      DataStep(s, r, base);
    } else {
      OtherStep(s, r);
    }
  }

  lemma DataStep(s: State, r: Record, base: nat)
    requires r.kind == 0 && base == s.linear + s.segment + r.offset
    ensures var placed := PutAll(s.memory, base, r.data);
            StepRecord(s, r) == if placed.None? then Err(Conflict) else Ok(s.(memory := placed.value))
  {
  }

  lemma OtherStep(s: State, r: Record)
    requires r.kind != 0
    ensures StepRecord(s, r) != Err(Conflict) && (StepRecord(s, r).Ok? ==> StepRecord(s, r).value.memory == s.memory)
  {
  }

  /** One more record, on the map and on the text's side. */
  lemma {:induction false} StepPlaces(rs: seq<Record>, r: Record, s: State)
    requires Collect(Places(rs)) == Some(s.memory) && Base(rs) == s.linear + s.segment
    ensures StepRecord(s, r).Ok? ==>
              && Collect(Places(rs + [r])) == Some(StepRecord(s, r).value.memory)
              && Base(rs + [r]) == StepRecord(s, r).value.linear + StepRecord(s, r).value.segment
    ensures StepRecord(s, r) == Err(Conflict) ==> Collect(Places(rs + [r])).None?
  {
    var ps, next := Places(rs), rs + [r];
    PlacesNext(rs, r);
    StepCollects(ps, Places(next), r, s);
    BaseNext(rs, r);
    if StepRecord(s, r).Ok? {
      StepBase(r, s);
    }
  }

  lemma StepBase(r: Record, s: State)
    requires StepRecord(s, r).Ok?
    ensures var t := StepRecord(s, r).value;
            t.linear + t.segment ==
            if r.kind == 2 && |r.data| == 2 then 0x1000 * r.data[0] + 0x10 * r.data[1]
            else if r.kind == 4 && |r.data| == 2 then 0x100_0000 * r.data[0] + 0x1_0000 * r.data[1]
            else s.linear + s.segment
  {
  }

  // ----- any rendering of a map -----

  /** Records a rendering may use besides the final EOF. */
  predicate Usable(r: Record) {
    && Renderable(r)
    && (r.kind == 0 || r.kind == 3 || r.kind == 5 || ((r.kind == 2 || r.kind == 4) && |r.data| == 2))
  }

  predicate AllUsable(rs: seq<Record>) {
    forall i :: 0 <= i < |rs| ==> Usable(rs[i])
  }

  /** An EOF record is empty, and its offset is not looked at. */
  predicate IsEof(r: Record) {
    Renderable(r) && r.kind == 1 && r.data == []
  }

  /** Lines that render the records in their order, with blank lines anywhere. */
  ghost predicate Written(lines: seq<string>, rs: seq<Record>)
    requires AllUsable(rs)
    decreases |lines|
  {
    if lines == [] then rs == []
    else
      var (init, line) := (lines[..|lines| - 1], lines[|lines| - 1]);
      if Blank(line) then Written(init, rs)
      else rs != [] && Renders(line, rs[|rs| - 1]) && Written(init, rs[..|rs| - 1])
  }

  lemma StepRendered(s: State, line: string, r: Record)
    requires Usable(r) && Renders(line, r) && !s.eof
    ensures Step(s, line) == StepRecord(s, r)
  {
    RecordRead(line, r);
  }

  lemma RunNext(lines: seq<string>, line: string)
    ensures Run(lines + [line]) == if Run(lines).Err? then Run(lines) else Step(Run(lines).value, line)
  {
    assert (lines + [line])[..|lines|] == lines;
  }

  /** What running a rendering gives: the collected map, or a conflict. */
  predicate RunsAs(rs: seq<Record>, r: Result<State>) {
    if Collect(Places(rs)).None? then r == Err(Conflict)
    else
      && r.Ok? && !r.value.eof
      && Collect(Places(rs)) == Some(r.value.memory) && Base(rs) == r.value.linear + r.value.segment
  }

  lemma RunsOn(rs: seq<Record>, r: Record, s: State)
    requires Usable(r) && RunsAs(rs, Ok(s))
    ensures RunsAs(rs + [r], StepRecord(s, r))
  {
    StepPlaces(rs, r, s);
  }

  lemma {:induction false} RunText(lines: seq<string>, rs: seq<Record>)
    requires AllUsable(rs) && Written(lines, rs)
    ensures RunsAs(rs, Run(lines))
    decreases |lines|
  {
    if lines != [] {
      var (init, line) := (lines[..|lines| - 1], lines[|lines| - 1]);
      assert init + [line] == lines;
      if Blank(line) {
        RunText(init, rs);
        RunBlank(init, line);
      } else {
        var (qs, r) := (rs[..|rs| - 1], rs[|rs| - 1]);
        assert qs + [r] == rs;
        RunText(init, qs);
        RunRecord(init, line, qs, r);
      }
    }
  }

  lemma RunBlank(lines: seq<string>, line: string)
    requires Blank(line)
    ensures Run(lines + [line]) == Run(lines)
  {
    BlankIff(line);
    RunNext(lines, line);
  }

  /** One more line that renders a record. */
  lemma {:induction false} RunRecord(lines: seq<string>, line: string, qs: seq<Record>, r: Record)
    requires AllUsable(qs) && Usable(r) && Renders(line, r) && RunsAs(qs, Run(lines))
    ensures RunsAs(qs + [r], Run(lines + [line]))
  {
    var before := Run(lines);
    RunNext(lines, line);
    if before.Err? {
      PlacesPrefix(qs, r);
    } else {
      StepRendered(before.value, line, r);
      RunsOn(qs, r, before.value);
    }
  }

  lemma PlacesPrefix(rs: seq<Record>, r: Record)
    requires Collect(Places(rs)).None?
    ensures Collect(Places(rs + [r])).None?
  {
    assert (rs + [r])[..|rs|] == rs;
    CollectPrefix(Places(rs), PlaceBytes(Base(rs) + r.offset, r.data));
    assert Places(rs) + [] == Places(rs);
  }

  /** A whole text: the records, the EOF record, and nothing but blank lines after it. */
  ghost predicate IsText(lines: seq<string>, rs: seq<Record>)
    requires AllUsable(rs)
  {
    exists n, e :: EndsAt(lines, rs, n, e)
  }

  ghost predicate EndsAt(lines: seq<string>, rs: seq<Record>, n: int, e: Record)
    requires AllUsable(rs)
  {
    && 0 <= n < |lines| && Written(lines[..n], rs) && IsEof(e) && Renders(lines[n], e)
    && forall i :: n < i < |lines| ==> Blank(lines[i])
  }

  /** Any checksummed rendering of a map, its records in any order, each digit in either case
      and blanks and blank lines anywhere around them, is read back as that map. */
  lemma RenderingRead(lines: seq<string>, rs: seq<Record>, m: Memory)
    requires AllUsable(rs) && IsText(lines, rs)
    requires Describes(Places(rs), m)
    ensures Parse(lines) == Ok(m)
  {
    OrderIrrelevant(Places(rs), m);
    TextRun(lines, rs);
  }

  // ----- nothing else is accepted -----

  lemma RenderedSays(line: string, r: Record)
    requires Renderable(r) && Renders(line, r)
    ensures !Blank(line)
  {
    RecordRead(line, r);
    BlankIff(line);
  }

  /** What the loop has gone through without an error is records and blank lines, and after an
      EOF record blank lines alone. */
  lemma {:induction false} RunWritten(lines: seq<string>) returns (rs: seq<Record>)
    requires Run(lines).Ok?
    ensures AllUsable(rs) && if Run(lines).value.eof then IsText(lines, rs) else Written(lines, rs)
    decreases |lines|
  {
    if lines == [] {
      rs := [];
    } else {
      var (init, line) := (lines[..|lines| - 1], lines[|lines| - 1]);
      assert init + [line] == lines;
      BlankIff(line);
      rs := RunWritten(init);
      assert lines[..|lines| - 1] == init && lines[|lines| - 1] == line;
      if Blank(line) {
        if Run(init).value.eof {
          TextGoesOn(init, line, rs);
        }
      } else {
        rs := RecordWritten(init, line, rs);
      }
    }
  }

  lemma {:induction false} RecordWritten(lines: seq<string>, line: string, rs: seq<Record>) returns (more: seq<Record>)
    requires !Blank(line) && Strip(line) != ""
    requires Run(lines).Ok? && Step(Run(lines).value, line).Ok?
    requires AllUsable(rs) && if Run(lines).value.eof then IsText(lines, rs) else Written(lines, rs)
    ensures AllUsable(more)
    ensures if Step(Run(lines).value, line).value.eof then IsText(lines + [line], more) else Written(lines + [line], more)
  {
    var r := StepTakes(Run(lines).value, line);
    if r.kind == 1 {
      more := rs;
      TextEnds(lines, line, rs, r);
    } else {
      more := rs + [r];
      WrittenMore(lines, line, rs, r);
    }
  }

  lemma StepTakes(s: State, line: string) returns (r: Record)
    requires Strip(line) != "" && Step(s, line).Ok?
    ensures !s.eof && Renderable(r) && Renders(line, r)
    ensures if r.kind == 1 then IsEof(r) && Step(s, line).value.eof else Usable(r) && !Step(s, line).value.eof
  {
    r := DecodeLine(Strip(line)).value;
    RecordRendered(line, r);
  }

  lemma TextEnds(lines: seq<string>, line: string, rs: seq<Record>, e: Record)
    requires AllUsable(rs) && Written(lines, rs) && IsEof(e) && Renders(line, e)
    ensures IsText(lines + [line], rs)
  {
    assert (lines + [line])[..|lines|] == lines;
    assert EndsAt(lines + [line], rs, |lines|, e);
  }

  lemma {:induction false} WrittenMore(lines: seq<string>, line: string, rs: seq<Record>, r: Record)
    requires AllUsable(rs) && Written(lines, rs) && Usable(r) && Renders(line, r)
    ensures AllUsable(rs + [r]) && Written(lines + [line], rs + [r])
  {
    RenderedSays(line, r);
    assert (lines + [line])[..|lines|] == lines && (rs + [r])[..|rs|] == rs;
  }

  lemma TextGoesOn(lines: seq<string>, line: string, rs: seq<Record>)
    requires AllUsable(rs) && IsText(lines, rs) && Blank(line)
    ensures IsText(lines + [line], rs)
  {
    var n, e :| EndsAt(lines, rs, n, e);
    assert (lines + [line])[..n] == lines[..n];
    assert EndsAt(lines + [line], rs, n, e);
  }

  /** The records of a text describe the map. */
  ghost predicate TextOf(lines: seq<string>, rs: seq<Record>, m: Memory) {
    AllUsable(rs) && IsText(lines, rs) && Describes(Places(rs), m)
  }

  /** An accepted text consists of checksummed records with an EOF record at the end, and its
      map is exactly what its data records say. */
  lemma AcceptedDescribes(lines: seq<string>) returns (rs: seq<Record>)
    requires Parse(lines).Ok?
    ensures TextOf(lines, rs, Parse(lines).value)
  {
    rs := RunWritten(lines);
    TextRun(lines, rs);
    CollectDescribes(Places(rs));
  }

  /** A text is accepted as a map if and only if it is a text of records that describe it. */
  lemma AcceptedIff(lines: seq<string>, m: Memory)
    ensures Parse(lines) == Ok(m) <==> exists rs :: TextOf(lines, rs, m)
  {
    if Parse(lines) == Ok(m) {
      var rs := AcceptedDescribes(lines);
    }
    if rs :| TextOf(lines, rs, m) {
      RenderingRead(lines, rs, m);
    }
  }

  /** A rendering is refused if and only if two of its records give different bytes to one
      address. */
  lemma RefusedIffClash(lines: seq<string>, rs: seq<Record>)
    requires AllUsable(rs) && IsText(lines, rs)
    ensures if Consistent(Places(rs)) then Parse(lines).Ok? else Parse(lines) == Err(Conflict)
  {
    CollectDescribes(Places(rs));
    TextRun(lines, rs);
  }

  lemma {:induction false} TextRun(lines: seq<string>, rs: seq<Record>)
    requires AllUsable(rs) && IsText(lines, rs)
    ensures Parse(lines) == if Collect(Places(rs)).None? then Err(Conflict) else Ok(Collect(Places(rs)).value)
  {
    var n, e :| EndsAt(lines, rs, n, e);
    RunToEof(lines[..n], lines[n], rs, e);
    RunPastEof(lines, n, lines[..n] + [lines[n]]);
  }

  lemma {:induction false} RunPastEof(lines: seq<string>, n: nat, head: seq<string>)
    requires n < |lines| && head == lines[..n] + [lines[n]]
    requires forall i :: n < i < |lines| ==> Blank(lines[i])
    ensures Run(lines) == Run(head)
  {
    assert lines[..n + 1] == head;
    BlanksRead(lines, n + 1);
  }

  /** Every list of such records has a text. */
  lemma TextExists(rs: seq<Record>, upper: bool) returns (lines: seq<string>)
    requires AllUsable(rs)
    ensures IsText(lines, rs)
  {
    var init := WrittenExists(rs, upper);
    var line := RenderingExists(Record(0, 1, []), upper);
    TextEnds(init, line, rs, Record(0, 1, []));
    lines := init + [line];
  }

  lemma {:induction false} WrittenExists(rs: seq<Record>, upper: bool) returns (lines: seq<string>)
    requires AllUsable(rs)
    ensures Written(lines, rs)
    decreases |rs|
  {
    if rs == [] {
      lines := [];
    } else {
      var (qs, r) := (rs[..|rs| - 1], rs[|rs| - 1]);
      var init := WrittenExists(qs, upper);
      var line := RenderingExists(r, upper);
      WrittenMore(init, line, qs, r);
      assert qs + [r] == rs;
      lines := init + [line];
    }
  }

  lemma {:induction false} RunToEof(lines: seq<string>, line: string, rs: seq<Record>, e: Record)
    requires AllUsable(rs) && Written(lines, rs) && IsEof(e) && Renders(line, e)
    ensures var r := Run(lines + [line]);
            match Collect(Places(rs))
            case None => r == Err(Conflict)
            case Some(m) => r.Ok? && r.value.eof && r.value.memory == m
  {
    RunText(lines, rs);
    EofRead(lines, line, e);
  }

  lemma {:induction false} EofRead(lines: seq<string>, line: string, e: Record)
    requires IsEof(e) && Renders(line, e)
    ensures var r := Run(lines);
            Run(lines + [line]) ==
            if r.Err? then r else if r.value.eof then Err(DataAfterEof) else Ok(r.value.(eof := true))
  {
    RunNext(lines, line);
    RecordRead(line, e);
  }

  lemma {:induction false} BlanksRead(lines: seq<string>, n: nat)
    requires n <= |lines| && forall i :: n <= i < |lines| ==> Blank(lines[i])
    ensures Run(lines) == Run(lines[..n])
    decreases |lines|
  {
    if n < |lines| {
      BlankIff(lines[|lines| - 1]);
      BlanksRead(lines[..|lines| - 1], n);
      assert lines[..|lines| - 1][..n] == lines[..n];
    } else {
      assert lines[..n] == lines;
    }
  }
}

/**
load_ihex and image_for_range: the segments of a memory map, and the bytes of a range.
*/
module HexImage {
  import opened BitVectors
  import opened HexRecords
  import opened HexMaps
  import opened HexParser

  datatype Segment = Segment(address: nat, data: seq<Byte>)

  predicate Holds(s: Segment, a: nat) {
    s.address <= a < s.address + |s.data|
  }

  /** Segments in ascending order, none empty, none touching the next: ascending, disjoint
      and maximal. */
  predicate Separate(segments: seq<Segment>) {
    && (forall i :: 0 <= i < |segments| ==> segments[i].data != [])
    && (forall i, j :: 0 <= i < j < |segments| ==> segments[i].address + |segments[i].data| < segments[j].address)
  }

  /** The bytes of the segments are the map's. */
  ghost predicate Faithful(segments: seq<Segment>, m: Memory) {
    forall i: nat, a: nat :: i < |segments| && Holds(segments[i], a) ==> a in m && m[a] == segments[i].data[a - segments[i].address]
  }

  ghost predicate Reaches(segments: seq<Segment>, a: nat) {
    exists i :: 0 <= i < |segments| && Holds(segments[i], a)
  }

  /** Exactly the map: its bytes, and every address of it. */
  ghost predicate SegmentsOf(segments: seq<Segment>, m: Memory) {
    && Separate(segments) && Faithful(segments, m)
    && forall a :: a in m ==> Reaches(segments, a)
  }

  // ----- sorted addresses -----

  predicate Ascending(s: seq<nat>) {
    forall i, j :: 0 <= i < j < |s| ==> s[i] < s[j]
  }

  method Least(keys: set<nat>) returns (k: nat)
    requires keys != {}
    ensures k in keys && forall x :: x in keys ==> k <= x
  {
    k :| k in keys;
    var rest := keys - {k};
    while rest != {}
      invariant k in keys && rest <= keys
      invariant forall x :: x in keys && x !in rest ==> k <= x
      decreases rest
    {
      var x :| x in rest;
      if x < k {
        k := x;
      }
      rest := rest - {x};
    }
  }

  /** sorted(memory) */
  method Sorted(keys: set<nat>) returns (s: seq<nat>)
    ensures Ascending(s) && (forall a :: a in keys <==> a in s)
  {
    s := [];
    var rest := keys;
    while rest != {}
      invariant rest <= keys && Ascending(s)
      invariant forall a :: a in keys <==> a in rest || a in s
      invariant forall i, a :: 0 <= i < |s| && a in rest ==> s[i] < a
      decreases rest
    {
      var k := Least(rest);
      s := s + [k];
      rest := rest - {k};
    }
  }

  // ----- coalescing -----

  /** The segments closed so far and the open one, after the first `n` addresses. */
  ghost predicate Open(segments: seq<Segment>, last: Segment, m: Memory, s: seq<nat>, n: nat) {
    && 0 < n <= |s|
    && Separate(segments + [last]) && Faithful(segments + [last], m)
    && last.address + |last.data| == s[n - 1] + 1
    && forall k :: 0 <= k < n ==> Reaches(segments + [last], s[k])
  }

  lemma SeparateGrown(segments: seq<Segment>, last: Segment, v: Byte)
    requires Separate(segments + [last])
    ensures Separate(segments + [last.(data := last.data + [v])])
  {
    var before, after := segments + [last], segments + [last.(data := last.data + [v])];
    forall i | 0 <= i < |after| ensures after[i].data != [] {
      assert before[i].data != [];
    }
    forall i, j | 0 <= i < j < |after| ensures after[i].address + |after[i].data| < after[j].address {
      assert before[i] == after[i] && before[j].address == after[j].address;
    }
  }

  lemma FaithfulGrown(segments: seq<Segment>, last: Segment, m: Memory, a: nat)
    requires Faithful(segments + [last], m) && a == last.address + |last.data| && a in m
    ensures Faithful(segments + [last.(data := last.data + [m[a]])], m)
  {
    var before, after := segments + [last], segments + [last.(data := last.data + [m[a]])];
    forall i: nat, x: nat | i < |after| && Holds(after[i], x)
      ensures x in m && m[x] == after[i].data[x - after[i].address]
    {
      if i < |segments| || x < a {
        assert Holds(before[i], x);
      }
    }
  }

  lemma ReachesGrown(segments: seq<Segment>, last: Segment, v: Byte, a: nat)
    requires Reaches(segments + [last], a) || a == last.address + |last.data|
    ensures Reaches(segments + [last.(data := last.data + [v])], a)
  {
    var before, after := segments + [last], segments + [last.(data := last.data + [v])];
    if Reaches(before, a) {
      var i :| 0 <= i < |before| && Holds(before[i], a);
      assert Holds(after[i], a);
    } else {
      assert Holds(after[|segments|], a);
    }
  }

  lemma Grown(segments: seq<Segment>, last: Segment, m: Memory, s: seq<nat>, n: nat)
    requires Open(segments, last, m, s, n) && n < |s| && s[n] == s[n - 1] + 1 && s[n] in m
    ensures Open(segments, last.(data := last.data + [m[s[n]]]), m, s, n + 1)
  {
    var v := m[s[n]];
    SeparateGrown(segments, last, v);
    FaithfulGrown(segments, last, m, s[n]);
    forall k | 0 <= k < n + 1 ensures Reaches(segments + [last.(data := last.data + [v])], s[k]) {
      ReachesGrown(segments, last, v, s[k]);
    }
  }

  lemma SeparateClosed(segments: seq<Segment>, last: Segment, next: Segment)
    requires Separate(segments + [last]) && last.address + |last.data| < next.address && next.data != []
    ensures Separate(segments + [last] + [next])
  {
    var before := segments + [last];
    var after := before + [next];
    forall i | 0 <= i < |after| ensures after[i].data != [] {
      assert i < |before| ==> before[i].data != [];
    }
    forall i, j | 0 <= i < j < |after| ensures after[i].address + |after[i].data| < after[j].address {
      assert before[i] == after[i];
      if j < |before| {
        assert before[j] == after[j];
      } else if i < |segments| {
        assert before[i].address + |before[i].data| < before[|segments|].address;
      }
    }
  }

  lemma FaithfulClosed(before: seq<Segment>, m: Memory, a: nat)
    requires Faithful(before, m) && a in m
    ensures Faithful(before + [Segment(a, [m[a]])], m)
  {
    var after := before + [Segment(a, [m[a]])];
    forall i: nat, x: nat | i < |after| && Holds(after[i], x)
      ensures x in m && m[x] == after[i].data[x - after[i].address]
    {
      assert i < |before| ==> Holds(before[i], x);
    }
  }

  lemma ReachesClosed(before: seq<Segment>, next: Segment, a: nat)
    requires Reaches(before, a) || Holds(next, a)
    ensures Reaches(before + [next], a)
  {
    var after := before + [next];
    if Reaches(before, a) {
      var i :| 0 <= i < |before| && Holds(before[i], a);
      assert Holds(after[i], a);
    } else {
      assert Holds(after[|before|], a);
    }
  }

  lemma Closed(segments: seq<Segment>, last: Segment, m: Memory, s: seq<nat>, n: nat)
    requires Open(segments, last, m, s, n) && n < |s| && s[n] > s[n - 1] + 1 && s[n] in m
    ensures Open(segments + [last], Segment(s[n], [m[s[n]]]), m, s, n + 1)
  {
    var next := Segment(s[n], [m[s[n]]]);
    SeparateClosed(segments, last, next);
    FaithfulClosed(segments + [last], m, s[n]);
    forall k | 0 <= k < n + 1 ensures Reaches(segments + [last] + [next], s[k]) {
      ReachesClosed(segments + [last], next, s[k]);
    }
  }

  /** load_ihex, after parsing. */
  method Coalesce(m: Memory) returns (segments: seq<Segment>)
    ensures SegmentsOf(segments, m)
  {
    if m.Keys == {} {
      return [];
    }
    var addresses := Sorted(m.Keys);
    assert addresses != [] by {
      var a :| a in m.Keys;
      assert a in addresses;
    }
    segments := [];
    var start, prev := addresses[0], addresses[0];
    var buf := [m[start]];
    ghost var first := [] + [Segment(start, buf)];
    assert Holds(first[0], addresses[0]);
    for n := 1 to |addresses|
      invariant prev == addresses[n - 1]
      invariant Open(segments, Segment(start, buf), m, addresses, n)
    {
      var address := addresses[n];
      if address == prev + 1 {
        Grown(segments, Segment(start, buf), m, addresses, n);
        buf := buf + [m[address]];
      } else {
        Closed(segments, Segment(start, buf), m, addresses, n);
        segments := segments + [Segment(start, buf)];
        start := address;
        buf := [m[address]];
      }
      prev := address;
    }
    segments := segments + [Segment(start, buf)];
  }

  // ----- the image of a range -----

  predicate Within(s: Segment, start: nat, size: nat) {
    start <= s.address && s.address + |s.data| <= start + size
  }

  /** What the image holds for address `a` after these segments. */
  function Lookup(segments: seq<Segment>, a: nat, fill: Byte): Byte
    decreases |segments|
  {
    if segments == [] then fill
    else
      var s := segments[|segments| - 1];
      if Holds(s, a) then s.data[a - s.address] else Lookup(segments[..|segments| - 1], a, fill)
  }

  /** Segments of a map are looked up as the map. */
  lemma {:induction false} LookupIs(segments: seq<Segment>, m: Memory, a: nat, fill: Byte)
    requires Faithful(segments, m)
    ensures Reaches(segments, a) ==> a in m && Lookup(segments, a, fill) == m[a]
    ensures !Reaches(segments, a) ==> Lookup(segments, a, fill) == fill
    decreases |segments|
  {
    if segments != [] {
      var n := |segments| - 1;
      var rest := segments[..n];
      forall i: nat, x: nat | i < |rest| && Holds(rest[i], x)
        ensures x in m && m[x] == rest[i].data[x - rest[i].address]
      {
        assert Holds(segments[i], x);
      }
      LookupIs(rest, m, a, fill);
      if Reaches(segments, a) && !Holds(segments[n], a) {
        var i :| 0 <= i < |segments| && Holds(segments[i], a);
        assert Holds(rest[i], a);
      }
      if Reaches(rest, a) {
        var i :| 0 <= i < |rest| && Holds(rest[i], a);
        assert Holds(segments[i], a);
      }
    }
  }

  /** image_for_range: refused if and only if a segment leaves the range. */
  method ImageForRange(segments: seq<Segment>, start: nat, size: nat, fill: Byte) returns (r: Result<seq<Byte>>)
    ensures r.Ok? <==> forall i :: 0 <= i < |segments| ==> Within(segments[i], start, size)
    ensures r.Err? ==> r == Err(OutsideRange)
    ensures r.Ok? ==> |r.value| == size && forall k :: 0 <= k < size ==> r.value[k] == Lookup(segments, start + k, fill)
  {
    var image := seq(size, _ => fill);
    for n := 0 to |segments|
      invariant |image| == size
      invariant forall i :: 0 <= i < n ==> Within(segments[i], start, size)
      invariant forall k :: 0 <= k < size ==> image[k] == Lookup(segments[..n], start + k, fill)
    {
      var s := segments[n];
      if !Within(s, start, size) {
        return Err(OutsideRange);
      }
      var offset := s.address - start;
      assert segments[..n + 1][..n] == segments[..n];
      image := image[..offset] + s.data + image[offset + |s.data|..];
    }
    assert segments[..|segments|] == segments;
    return Ok(image);
  }

  /** What an image holds: the map's bytes, and `fill` everywhere else. */
  predicate ImageOf(image: seq<Byte>, m: Memory, start: nat, fill: Byte) {
    forall k :: 0 <= k < |image| ==> image[k] == if start + k in m then m[start + k] else fill
  }

  /** From text to image. It fails exactly if the text is refused or a byte of its map lies
      outside the range. */
  method LoadImage(lines: seq<string>, start: nat, size: nat, fill: Byte) returns (r: Result<seq<Byte>>)
    ensures r.Ok? <==> Parse(lines).Ok? && forall a :: a in Parse(lines).value ==> start <= a < start + size
    ensures r.Ok? ==> |r.value| == size && ImageOf(r.value, Parse(lines).value, start, fill)
  {
    var parsed := ParseIhex(lines);
    if parsed.Err? {
      return Err(parsed.error);
    }
    var m := parsed.value;
    var segments := Coalesce(m);
    r := ImageForRange(segments, start, size, fill);
    RangeIsMap(segments, m, start, size);
    if r.Ok? {
      forall k | 0 <= k < size ensures r.value[k] == if start + k in m then m[start + k] else fill {
        LookupIs(segments, m, start + k, fill);
      }
    }
  }

  /** The segments stay in the range if and only if the map does. */
  lemma RangeIsMap(segments: seq<Segment>, m: Memory, start: nat, size: nat)
    requires SegmentsOf(segments, m)
    ensures (forall i :: 0 <= i < |segments| ==> Within(segments[i], start, size))
       <==> forall a :: a in m ==> start <= a < start + size
  {
    if forall i :: 0 <= i < |segments| ==> Within(segments[i], start, size) {
      forall a | a in m ensures start <= a < start + size {
        assert Reaches(segments, a);
      }
    }
    if forall a :: a in m ==> start <= a < start + size {
      forall i | 0 <= i < |segments| ensures Within(segments[i], start, size) {
        var first: nat, last: nat := segments[i].address, segments[i].address + |segments[i].data| - 1;
        assert Holds(segments[i], first) && first in m;
        assert Holds(segments[i], last) && last in m;
      }
    }
  }
}
