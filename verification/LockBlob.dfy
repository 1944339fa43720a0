/** The text form of lock records: one line per record, tab-separated fields. */
module LockBlob {
  import opened Bytes
  import opened LockTable

  const I64_MAX: u64 := 0x7FFF_FFFF_FFFF_FFFF

  /** What the parser lets through. */
  predicate Accepted(r: PosixLockRecord) {
    && (r.typ == F_RDLCK || r.typ == F_WRLCK) && r.start <= I64_MAX
    && (r.end.Some? ==> r.start <= r.end.value <= I64_MAX)
  }

  // ---- numbers

  predicate IsDigit(c: char) { '0' <= c <= '9' }

  function Digit(d: nat): (c: char)
    requires d < 10
    ensures IsDigit(c) && c as int - '0' as int == d
  {
    '0' + d as char
  }

  function Decimal(n: nat): string {
    if n < 10 then [Digit(n)] else Decimal(n / 10) + [Digit(n % 10)]
  }

  function SignedDecimal(n: int): string { if n < 0 then "-" + Decimal(-n) else Decimal(n) }

  /** The number a digit string stands for; leading zeros are allowed, an empty string is not a number. */
  function DigitsValue(s: string): Option<nat> {
    if s == "" then None
    else
      var last := s[|s| - 1];
      if !IsDigit(last) then None
      else if |s| == 1 then Some(last as int - '0' as int)
      else match DigitsValue(s[..|s| - 1]) case None => None case Some(v) => Some(10 * v + (last as int - '0' as int))
  }

  function ParseUnsigned(s: string, max: nat): Option<nat> {
    var digits := if s != "" && s[0] == '+' then s[1..] else s;
    match DigitsValue(digits) case Some(v) => if v <= max then Some(v) else None case None => None
  }

  function ParseI32(s: string): Option<i32> {
    if s != "" && s[0] == '-' then
      match DigitsValue(s[1..])
      case Some(v) => if v <= 0x8000_0000 then Some((0 - (v as int)) as i32) else None
      case None => None
    else
      match ParseUnsigned(s, 0x7FFF_FFFF) case Some(v) => Some(v as i32) case None => None
  }

  function ParseU64(s: string): Option<u64> {
    match ParseUnsigned(s, 0xFFFF_FFFF_FFFF_FFFF) case Some(v) => Some(v as u64) case None => None
  }

  function ParseU32(s: string): Option<u32> {
    match ParseUnsigned(s, 0xFFFF_FFFF) case Some(v) => Some(v as u32) case None => None
  }

  lemma {:induction false} DecimalRoundTrip(n: nat)
    ensures DigitsValue(Decimal(n)) == Some(n)
    ensures Decimal(n) != "" && forall c | c in Decimal(n) :: IsDigit(c)
  {
    if n >= 10 {
      DecimalRoundTrip(n / 10);
      var s := Decimal(n);
      assert s[..|s| - 1] == Decimal(n / 10);
    }
  }

  lemma UnsignedRoundTrip(n: nat, max: nat)
    requires n <= max
    ensures ParseUnsigned(Decimal(n), max) == Some(n)
  {
    DecimalRoundTrip(n);
    assert Decimal(n)[0] in Decimal(n);
  }

  // ---- splitting and joining

  function Join(parts: seq<string>, c: char): string {
    if parts == [] then "" else if |parts| == 1 then parts[0] else parts[0] + [c] + Join(parts[1..], c)
  }

  function Split(s: string, c: char): (parts: seq<string>)
    ensures parts != []
  {
    if s == "" then [""]
    else
      var rest := Split(s[1..], c);
      if s[0] == c then [""] + rest else [[s[0]] + rest[0]] + rest[1..]
  }

  lemma {:induction false} SplitOne(p: string, c: char)
    requires c !in p
    ensures Split(p, c) == [p]
  {
    if p != "" {
      SplitOne(p[1..], c);
      assert p == [p[0]] + p[1..];
    }
  }

  lemma {:induction false} SplitFirst(p: string, s: string, c: char)
    requires c !in p
    ensures Split(p + [c] + s, c) == [p] + Split(s, c)
  {
    var all := p + [c] + s;
    if p == "" {
      assert all[1..] == s;
    } else {
      SplitFirst(p[1..], s, c);
      assert all[1..] == p[1..] + [c] + s && p == [p[0]] + p[1..];
    }
  }

  lemma {:induction false} SplitJoin(parts: seq<string>, c: char)
    requires parts != [] && forall p | p in parts :: c !in p
    ensures Split(Join(parts, c), c) == parts
  {
    if |parts| == 1 {
      SplitOne(parts[0], c);
    } else {
      SplitJoin(parts[1..], c);
      SplitFirst(parts[0], Join(parts[1..], c), c);
    }
  }

  function StripReturn(line: string): string {
    if line != "" && line[|line| - 1] == '\r' then line[..|line| - 1] else line
  }

  /** The lines of a text: a carriage return before a newline belongs to the line break, and a final
      newline does not start another line. */
  function Lines(text: string): seq<string> {
    var parts := Split(text, '\n');
    var n := |parts| - 1;
    seq(n, i requires 0 <= i < n => StripReturn(parts[i])) + if parts[n] == "" then [] else [parts[n]]
  }

  lemma LinesOfJoin(lines: seq<string>)
    requires forall l | l in lines :: l != "" && '\n' !in l && '\r' !in l
    ensures Lines(Join(lines, '\n')) == lines
  {
    if lines == [] {
      assert Split("", '\n') == [""];
    } else {
      SplitJoin(lines, '\n');
      forall i | 0 <= i < |lines|
        ensures StripReturn(lines[i]) == lines[i] && lines[i] != ""
      {
        assert lines[i] in lines;
      }
    }
  }

  /** A text whose every line ends with a carriage return and a newline. */
  function WithReturns(lines: seq<string>): string {
    if lines == [] then "" else lines[0] + "\r" + "\n" + WithReturns(lines[1..])
  }

  lemma {:induction false} SplitWithReturns(lines: seq<string>)
    requires forall l | l in lines :: '\n' !in l
    ensures Split(WithReturns(lines), '\n')
            == seq(|lines|, i requires 0 <= i < |lines| => lines[i] + "\r") + [""]
  {
    if lines != [] {
      SplitWithReturns(lines[1..]);
      SplitFirst(lines[0] + "\r", WithReturns(lines[1..]), '\n');
    }
  }

  /** Such a text has the same lines as one with newlines only. */
  lemma LinesWithReturns(lines: seq<string>)
    requires forall l | l in lines :: '\n' !in l
    ensures Lines(WithReturns(lines)) == lines
  {
    SplitWithReturns(lines);
    forall i | 0 <= i < |lines| ensures StripReturn(lines[i] + "\r") == lines[i] {
      assert (lines[i] + "\r")[..|lines[i]|] == lines[i];
    }
  }

  // ---- records

  function EndText(end: Option<u64>): string { match end case Some(e) => Decimal(e as int) case None => "" }

  function Fields(r: PosixLockRecord): seq<string> {
    [Decimal(r.owner as int), SignedDecimal(r.typ as int), Decimal(r.start as int), EndText(r.end),
     Decimal(r.pid as int)]
  }

  function PrintRecord(r: PosixLockRecord): string { Join(Fields(r), '\t') }

  function PrintRecords(records: Records): string {
    Join(seq(|records|, i requires 0 <= i < |records| => PrintRecord(records[i])), '\n')
  }

  function ParseEnd(s: string): Option<Option<u64>> {
    if s == "" then Some(None) else match ParseU64(s) case Some(e) => Some(Some(e)) case None => None
  }

  /** Old rows have no pid field; more than five fields are an error. */
  function ParsePid(fields: seq<string>): Option<u32> {
    if |fields| == 4 then Some(0) else if |fields| == 5 then ParseU32(fields[4]) else None
  }

  /** The record the fields of a line stand for, whatever its values. */
  function ParseFields(line: string): Option<PosixLockRecord> {
    var fields := Split(line, '\t');
    if |fields| < 4 then None
    else
      var owner, typ, start := ParseU64(fields[0]), ParseI32(fields[1]), ParseU64(fields[2]);
      var end, pid := ParseEnd(fields[3]), ParsePid(fields);
      if owner.None? || typ.None? || start.None? || end.None? || pid.None? then None
      else Some(PosixLockRecord(owner.value, typ.value, start.value, end.value, pid.value))
  }

  function ParseLine(line: string): Option<PosixLockRecord> {
    match ParseFields(line) case Some(r) => if Accepted(r) then Some(r) else None case None => None
  }

  /** The lines stand for the records, one each. */
  ghost predicate Reads(lines: seq<string>, records: Records) {
    |lines| == |records| && forall n | 0 <= n < |lines| :: ParseLine(lines[n]) == Some(records[n])
  }

  /** Reads the whole blob or nothing; whatever is read is well formed. */
  method LockRecordsFromBlob(blob: string) returns (records: Option<Records>)
    ensures forall rs: Records :: Reads(Lines(blob), rs) <==> records == Some(rs)
    ensures records.None? <==> exists line | line in Lines(blob) :: ParseLine(line).None?
    ensures records.Some? ==> forall r | r in records.value :: Accepted(r)
  {
    var found: Records := [];
    var lines := Lines(blob);
    for n := 0 to |lines|
      invariant Reads(lines[..n], found)
      invariant forall r | r in found :: Accepted(r)
    {
      var r := ParseLine(lines[n]);
      if r.None? {
        assert lines[n] in lines;
        return None;
      }
      found := found + [r.value];
    }
    assert lines[..|lines|] == lines;
    forall rs: Records | Reads(lines, rs) ensures rs == found {
      forall n | 0 <= n < |lines| ensures rs[n] == found[n] { assert ParseLine(lines[n]) == Some(found[n]); }
    }
    return Some(found);
  }

  lemma EndRoundTrip(end: Option<u64>)
    ensures ParseEnd(EndText(end)) == Some(end) && forall c | c in EndText(end) :: IsDigit(c)
  {
    if end.Some? {
      UnsignedRoundTrip(end.value as int, 0xFFFF_FFFF_FFFF_FFFF);
      DecimalRoundTrip(end.value as int);
    }
  }

  predicate IsNumeric(c: char) { IsDigit(c) || c == '-' }

  lemma I32RoundTrip(n: i32)
    ensures ParseI32(SignedDecimal(n as int)) == Some(n) && forall c | c in SignedDecimal(n as int) :: IsNumeric(c)
  {
    var v: nat := if n < 0 then -(n as int) else n as int;
    DecimalRoundTrip(v);
    var digits := Decimal(v);
    if n < 0 {
      assert ("-" + digits)[1..] == digits;
    } else {
      UnsignedRoundTrip(v, 0x7FFF_FFFF);
      assert digits[0] in digits;
    }
  }

  lemma FieldsAreClean(r: PosixLockRecord)
    ensures forall f | f in Fields(r) :: forall c | c in f :: IsNumeric(c)
  {
    DecimalRoundTrip(r.owner as int);
    I32RoundTrip(r.typ);
    DecimalRoundTrip(r.start as int);
    EndRoundTrip(r.end);
    DecimalRoundTrip(r.pid as int);
  }

  lemma FieldsRoundTrip(r: PosixLockRecord)
    ensures ParseU64(Fields(r)[0]) == Some(r.owner) && ParseI32(Fields(r)[1]) == Some(r.typ)
    ensures ParseU64(Fields(r)[2]) == Some(r.start) && ParseEnd(Fields(r)[3]) == Some(r.end)
    ensures ParseU32(Fields(r)[4]) == Some(r.pid)
  {
    UnsignedRoundTrip(r.owner as int, 0xFFFF_FFFF_FFFF_FFFF);
    I32RoundTrip(r.typ);
    UnsignedRoundTrip(r.start as int, 0xFFFF_FFFF_FFFF_FFFF);
    EndRoundTrip(r.end);
    UnsignedRoundTrip(r.pid as int, 0xFFFF_FFFF);
  }

  /** Printing and parsing gives every record back; the parser then refuses what it does not accept. */
  lemma RecordRoundTrip(r: PosixLockRecord)
    ensures ParseFields(PrintRecord(r)) == Some(r)
    ensures ParseLine(PrintRecord(r)) == if Accepted(r) then Some(r) else None
  {
    FieldsAreClean(r);
    SplitJoin(Fields(r), '\t');
    FieldsRoundTrip(r);
  }

  lemma JoinNext(p: string, parts: seq<string>, c: char)
    requires parts != []
    ensures Join([p] + parts, c) == p + [c] + Join(parts, c)
  {
    assert ([p] + parts)[1..] == parts;
  }

  lemma JoinFour(a: string, b: string, c: string, d: string)
    ensures Join([a, b, c, d], '\t') == a + "\t" + b + "\t" + c + "\t" + d
  {
    JoinNext(c, [d], '\t');
    JoinNext(b, [c, d], '\t');
    JoinNext(a, [b, c, d], '\t');
    assert [a] + [b, c, d] == [a, b, c, d] && [b] + [c, d] == [b, c, d] && [c] + [d] == [c, d];
  }

  lemma JoinFive(a: string, b: string, c: string, d: string, e: string)
    ensures Join([a, b, c, d, e], '\t') == a + "\t" + b + "\t" + c + "\t" + d + "\t" + e
  {
    JoinFour(b, c, d, e);
    JoinNext(a, [b, c, d, e], '\t');
    assert [a] + [b, c, d, e] == [a, b, c, d, e];
  }

  /** A line has four or five fields. */
  lemma WrongFieldCount(fields: seq<string>)
    requires |fields| != 0 && |fields| != 4 && |fields| != 5 && forall f | f in fields :: '\t' !in f
    ensures ParseLine(Join(fields, '\t')) == None
  {
    SplitJoin(fields, '\t');
  }

  /** What a line of five decimal fields stands for: owner, type, start, end (or nothing) and pid. */
  lemma FiveFieldLine(owner: u64, typ: i32, start: u64, end: Option<u64>, pid: u32)
    ensures ParseLine(Decimal(owner as int) + "\t" + SignedDecimal(typ as int) + "\t" + Decimal(start as int) + "\t"
                      + EndText(end) + "\t" + Decimal(pid as int))
            == var r := PosixLockRecord(owner, typ, start, end, pid); if Accepted(r) then Some(r) else None
  {
    var r := PosixLockRecord(owner, typ, start, end, pid);
    RecordRoundTrip(r);
    var f := Fields(r);
    JoinFive(f[0], f[1], f[2], f[3], f[4]);
  }

  /** What an old line of four decimal fields stands for: the same with pid 0. */
  lemma FourFieldLine(owner: u64, typ: i32, start: u64, end: Option<u64>)
    ensures ParseLine(Decimal(owner as int) + "\t" + SignedDecimal(typ as int) + "\t" + Decimal(start as int) + "\t"
                      + EndText(end))
            == var r := PosixLockRecord(owner, typ, start, end, 0); if Accepted(r) then Some(r) else None
  {
    var r := PosixLockRecord(owner, typ, start, end, 0);
    var f := Fields(r);
    var fields := [f[0], f[1], f[2], f[3]];
    JoinFour(f[0], f[1], f[2], f[3]);
    FieldsAreClean(r);
    assert forall p | p in fields :: p in f;
    SplitJoin(fields, '\t');
    FieldsRoundTrip(r);
  }

  lemma OldRowText()
    ensures Decimal(41) + "\t" + SignedDecimal(F_WRLCK as int) + "\t" + Decimal(7) + "\t" + EndText(Some(19))
            == "41\t1\t7\t19"
  {
    assert Decimal(41) == Decimal(4) + [Digit(1)] && Decimal(19) == Decimal(1) + [Digit(9)];
  }

  /** The old row of the repository's own example. */
  lemma OldRowExample()
    ensures ParseLine("41\t1\t7\t19") == Some(PosixLockRecord(41, F_WRLCK, 7, Some(19), 0))
  {
    FourFieldLine(41, F_WRLCK, 7, Some(19));
    OldRowText();
  }

  lemma PrintedLineIsClean(r: PosixLockRecord)
    ensures PrintRecord(r) != "" && '\n' !in PrintRecord(r) && '\r' !in PrintRecord(r)
  {
    FieldsAreClean(r);
    DecimalRoundTrip(r.owner as int);
    JoinChars(Fields(r), '\t');
  }

  lemma {:induction false} JoinChars(parts: seq<string>, c: char)
    requires forall p | p in parts :: forall d | d in p :: IsNumeric(d)
    ensures forall d | d in Join(parts, c) :: IsNumeric(d) || d == c
    ensures parts != [] && parts[0] != "" ==> Join(parts, c) != ""
  {
    if |parts| == 1 {
      assert parts[0] in parts;
    } else if |parts| > 1 {
      assert parts[0] in parts && forall p | p in parts[1..] :: p in parts;
      JoinChars(parts[1..], c);
    }
  }

  /** The lines of a printed list are the printed records. */
  lemma PrintedLines(records: Records)
    ensures |Lines(PrintRecords(records))| == |records|
    ensures forall i | 0 <= i < |records| :: Lines(PrintRecords(records))[i] == PrintRecord(records[i])
  {
    var lines := seq(|records|, i requires 0 <= i < |records| => PrintRecord(records[i]));
    forall l | l in lines ensures l != "" && '\n' !in l && '\r' !in l {
      var i :| 0 <= i < |lines| && lines[i] == l;
      PrintedLineIsClean(records[i]);
    }
    LinesOfJoin(lines);
  }

  /** Printing and reading back gives the same records, exactly for the lists of valid records. */
  lemma BlobRoundTrip(records: Records)
    ensures (forall r | r in records :: Accepted(r)) <==> Reads(Lines(PrintRecords(records)), records)
  {
    PrintedLines(records);
    forall i | 0 <= i < |records|
      ensures ParseLine(PrintRecord(records[i])) == if Accepted(records[i]) then Some(records[i]) else None
    {
      RecordRoundTrip(records[i]);
    }
    if Reads(Lines(PrintRecords(records)), records) {
      forall r | r in records ensures Accepted(r) { var i :| 0 <= i < |records| && records[i] == r; }
    }
  }

  /** Whatever was read prints to a blob that reads the same, even where the original blob had old
      four-field lines, plus signs or leading zeros. */
  lemma ReprintedBlobReadsTheSame(blob: string, records: Records)
    requires Reads(Lines(blob), records)
    ensures Reads(Lines(PrintRecords(records)), records)
  {
    forall r | r in records ensures Accepted(r) {
      var n :| 0 <= n < |records| && records[n] == r;
      assert ParseLine(Lines(blob)[n]) == Some(r);
    }
    BlobRoundTrip(records);
  }

  /** What the request leaves of an open-ended record of its owner starts or ends past the largest file offset. */
  predicate LeavesUnreadable(records: Records, owner: u64, start: u64, end: u64) {
    && (I64_MAX <= end < LAST || I64_MAX + 1 < start)
    && exists r | r in records :: r.owner == owner && r.end.None? && r.start <= end
  }

  /** Clearing a range of accepted records leaves accepted records except in one case: an open-ended
      record of the owner is cut beyond the largest file offset. */
  lemma UpdateIsAcceptedIff(records: Records, owner: u64, start: u64, end: u64)
    requires forall r | r in records :: Accepted(r)
    ensures (forall r | r in Cleared(records, owner, start, end) :: Accepted(r)) <==>
            !LeavesUnreadable(records, owner, start, end)
  {
    var cleared := Cleared(records, owner, start, end);
    if LeavesUnreadable(records, owner, start, end) {
      var r :| r in records && r.owner == owner && r.end.None? && r.start <= end;
      var piece := if I64_MAX <= end < LAST then r.(start := end + 1) else r.(end := Some(start - 1));
      assert piece in Pieces(r, owner, start, end);
      PieceIsKept(records, owner, start, end, r, piece);
      assert !Accepted(piece);
    } else {
      forall r | r in cleared ensures Accepted(r) {
        var q := SourceOf(records, owner, start, end, r);
      }
    }
  }

  lemma {:induction false} SourceOf(records: Records, owner: u64, start: u64, end: u64, p: PosixLockRecord)
    returns (r: PosixLockRecord)
    requires p in Cleared(records, owner, start, end)
    ensures r in records && p in Pieces(r, owner, start, end)
  {
    var last, rest := records[|records| - 1], records[..|records| - 1];
    if p in Cleared(rest, owner, start, end) {
      r := SourceOf(rest, owner, start, end, p);
    } else {
      r := last;
    }
  }
}
