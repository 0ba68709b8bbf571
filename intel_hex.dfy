/** `intel_hex_parser` of `intel_hex_handler.py`: reads the lines of an
    Intel-HEX image into a map from segment key to the bytes of that segment.

    Each line is cut to its record (`hex_line[1:-3]`: no colon, no checksum,
    no line end) and read field by field: the byte count (two hex digits),
    the address (four), the record type (two) and the data. A data record
    (00) appends its bytes to the current segment, whatever its address; an
    extended segment address record (02) opens an empty segment keyed by its
    value times 16 plus the address of the line that follows it, and makes it
    current; every other record type leaves the segments alone. The
    checksum is never looked at. */
module IntelHex {
  import opened Base
  import opened Auxiliary

  const RECORD_DATA: string := "00"
  const RECORD_EXTENDED_SEGMENT: string := "02"

  /** An extended segment address counts in paragraphs of sixteen bytes. */
  const SEGMENT_SHIFT: nat := 0x10

  /** Why the parser stops. `BadHex` is the `ValueError` of `int(..., 16)`
      on a field that is not hexadecimal, `MissingNextLine` the `IndexError`
      of an 02 record on the last line, `LengthMismatch` the exception the
      parser raises itself. Each names the index of the line being parsed. */
  datatype HexError =
    | BadHex(line: nat)
    | MissingNextLine(line: nat)
    | LengthMismatch(line: nat, calculated: nat, declared: nat)

  /** The loop's variables: `binary_segments`, `current_bin_segment` and
      `address_extension`. */
  datatype Parser = Parser(segments: map<nat, seq<byte>>, current: nat, extension: nat)

  /** Before the first line: one empty segment, keyed 0, current. */
  const Start: Parser := Parser(map[0 := []], 0, 0)

  /** Segment 0 and the current segment always exist. */
  predicate Consistent(p: Parser)
  {
    0 in p.segments && p.current in p.segments
  }

  // ---- the fields of a line ----

  /** `hex_line[1:-3]`: the record without its colon, checksum and line end. */
  function Record(line: string): (rec: string)
    ensures |line| >= 4 ==> rec == line[1..|line| - 3]
  {
    Slice(line, 1, -3)
  }

  /** `hex_line[0:2]`: the byte count digits. */
  function CountField(rec: string): (f: string)
    ensures |f| <= 2 && (|rec| >= 2 ==> f == rec[..2])
  {
    Slice(rec, 0, 2)
  }

  /** `hex_line[2:6]`: the address digits. */
  function AddressField(rec: string): (f: string)
    ensures |f| <= 4 && (|rec| >= 6 ==> f == rec[2..6])
  {
    Slice(rec, 2, 6)
  }

  /** `hex_line[6:8]`: the record type digits. */
  function TypeField(rec: string): (f: string)
    ensures |f| <= 2 && (|rec| >= 8 ==> f == rec[6..8])
  {
    Slice(rec, 6, 8)
  }

  /** `hex_line[8:]`: the data digits, empty for a record shorter than 8. */
  function DataField(rec: string): (f: string)
    ensures |rec| >= 8 ==> f == rec[8..] && |f| == |rec| - 8
    ensures |rec| <= 8 ==> f == []
  {
    SliceFrom(rec, 8)
  }

  /** The address of a line read from the line before it:
      `line[1:][2:6]`, which keeps the line's checksum. */
  function NextAddressField(line: string): (a: string)
    ensures |line| >= 7 ==> a == line[3..7]
  {
    Slice(SliceFrom(line, 1), 2, 6)
  }

  /** `hexstr_to_int_list(split_by_n(s, 2))`: each pair of hex digits as one
      byte, a last odd digit as a byte of its own; `None` where `int(e, 16)`
      raises. */
  function HexBytes(s: string): (r: Option<seq<byte>>)
    ensures r.Some? <==> forall i :: 0 <= i < |s| ==> IsHexDigit(s[i])
    ensures r.Some? ==> |r.value| == (|s| + 1) / 2
    decreases |s|
  {
    if |s| == 0 then Some([])
    else
      var n := if |s| < 2 then |s| else 2;
      assert Pow16(2) == 256;
      match HexValue(s[..n])
      case None => None
      case Some(v) =>
        match HexBytes(s[n..])
        case None =>
          assert exists i :: 0 <= i < |s[n..]| && !IsHexDigit(s[n..][i]);
          None
        case Some(rest) => Some([v as byte] + rest)
  }

  /** Two upper-case hex digits per byte, the way an image file spells its
      data. */
  function HexPairs(bytes: seq<byte>): (s: string)
    ensures |s| == 2 * |bytes|
  {
    if bytes == [] then "" else ByteToHex(bytes[0])[..2] + HexPairs(bytes[1..])
  }

  /** Reading the data field back gives the bytes it spells. */
  lemma {:induction false} HexBytesPairs(bytes: seq<byte>)
    ensures HexBytes(HexPairs(bytes)) == Some(bytes)
  {
    if bytes != [] {
      var s := HexPairs(bytes);
      var pair := ByteToHex(bytes[0])[..2];
      assert s == pair + HexPairs(bytes[1..]);
      assert s[..2] == pair && s[2..] == HexPairs(bytes[1..]);
      assert HexValue(pair) == Some(bytes[0] as nat);
      HexBytesPairs(bytes[1..]);
      assert [bytes[0]] + bytes[1..] == bytes;
    }
  }

  // ---- one line ----

  /** An 02 record: the value of its data field times 16, plus the address
      of the next line, keys a new, empty segment that becomes current. */
  function ExtendSegment(lines: seq<string>, i: nat, p: Parser, rec: string, count: nat): (r: Result<Parser, HexError>)
    requires i < |lines|
    ensures r.Ok? ==> r.value.segments == p.segments[r.value.current := []] && r.value.extension % SEGMENT_SHIFT == 0
    ensures r.Err? ==> r.error.line == i
  {
    match HexValue(Slice(rec, 8, 8 + count * 2))
    case None => Err(BadHex(i))
    case Some(value) =>
      var extension := value * SEGMENT_SHIFT;
      if i + 1 >= |lines| then Err(MissingNextLine(i))
      else match HexValue(NextAddressField(lines[i + 1]))
        case None => Err(BadHex(i))
        case Some(first) =>
          var key := first + extension;
          Ok(Parser(p.segments[key := []], key, extension))
  }

  /** A 00 record: once its address parses (and is then dropped) and its
      declared count matches its data, the data is appended to the current
      segment. */
  function AppendData(i: nat, p: Parser, rec: string, count: nat): (r: Result<Parser, HexError>)
    requires p.current in p.segments
    ensures r.Ok? ==> && p.current in r.value.segments
                      && r.value == p.(segments := p.segments[p.current := r.value.segments[p.current]])
                      && |p.segments[p.current]| <= |r.value.segments[p.current]|
                      && r.value.segments[p.current][..|p.segments[p.current]|] == p.segments[p.current]
    ensures r.Err? ==> r.error.line == i
  {
    match HexValue(AddressField(rec))
    case None => Err(BadHex(i))
    case Some(_) =>
      var data := DataField(rec);
      var calculated := |data| / 2;
      if count != calculated then Err(LengthMismatch(i, calculated, count))
      else match HexBytes(data)
        case None => Err(BadHex(i))
        case Some(bytes) => Ok(p.(segments := p.segments[p.current := p.segments[p.current] + bytes]))
  }

  /** One pass of the parser's loop, on line `i`. */
  function Step(lines: seq<string>, i: nat, p: Parser): (r: Result<Parser, HexError>)
    requires i < |lines| && Consistent(p)
    ensures r.Ok? ==> Consistent(r.value)
    ensures r.Err? ==> r.error.line == i
  {
    var rec := Record(lines[i]);
    match HexValue(CountField(rec))
    case None => Err(BadHex(i))
    case Some(count) =>
      var kind := TypeField(rec);
      if kind == RECORD_EXTENDED_SEGMENT then ExtendSegment(lines, i, p, rec, count)
      else if kind == RECORD_DATA then AppendData(i, p, rec, count)
      else Ok(p)
  }

  /** The parser's state after the first `n` lines. */
  function ParseUpTo(lines: seq<string>, n: nat): (r: Result<Parser, HexError>)
    requires n <= |lines|
    ensures r.Ok? ==> Consistent(r.value)
    ensures r.Err? ==> r.error.line < n
  {
    if n == 0 then Ok(Start)
    else match ParseUpTo(lines, n - 1)
      case Err(e) => Err(e)
      case Ok(p) => Step(lines, n - 1, p)
  }

  /** `intel_hex_parser(hex_string_lines)`: the segments once every line is
      read. Segment 0 is always there. */
  function Parse(lines: seq<string>): (r: Result<map<nat, seq<byte>>, HexError>)
    ensures r.Ok? ==> 0 in r.value
    ensures r.Err? ==> r.error.line < |lines|
  {
    match ParseUpTo(lines, |lines|)
    case Err(e) => Err(e)
    case Ok(p) => Ok(p.segments)
  }

  /** Once a line fails, the parse fails with that line's error. */
  lemma {:induction false} ErrorStops(lines: seq<string>, n: nat)
    requires n <= |lines| && ParseUpTo(lines, n).Err?
    ensures Parse(lines) == Err(ParseUpTo(lines, n).error)
    decreases |lines| - n
  {
    if n < |lines| {
      assert ParseUpTo(lines, n + 1) == ParseUpTo(lines, n);
      ErrorStops(lines, n + 1);
    }
  }

  /** The parser's loop over the lines. */
  method IntelHexParser(lines: seq<string>) returns (r: Result<map<nat, seq<byte>>, HexError>)
    ensures r == Parse(lines)
  {
    var currentBinSegment: nat := 0;
    var binarySegments: map<nat, seq<byte>> := map[currentBinSegment := []];
    var addressExtension: nat := 0;
    var lineNum: nat := 0;
    while lineNum < |lines|
      invariant lineNum <= |lines|
      invariant ParseUpTo(lines, lineNum) == Ok(Parser(binarySegments, currentBinSegment, addressExtension))
    {
      var next := ParseLine(lines, lineNum, Parser(binarySegments, currentBinSegment, addressExtension));
      if next.Err? {
        ErrorStops(lines, lineNum + 1);
        return Err(next.error);
      }
      binarySegments, currentBinSegment, addressExtension := next.value.segments, next.value.current, next.value.extension;
      lineNum := lineNum + 1;
    }
    r := Ok(binarySegments);
  }

  /** The body of the parser's loop, on line `lineNum`. */
  method ParseLine(lines: seq<string>, lineNum: nat, p: Parser) returns (r: Result<Parser, HexError>)
    requires lineNum < |lines| && Consistent(p)
    ensures r == Step(lines, lineNum, p)
  {
    var hexLine := Slice(lines[lineNum], 1, -3);
    var numOfData := HexValue(Slice(hexLine, 0, 2));
    if numOfData.None? {
      return Err(BadHex(lineNum));
    }
    var recordType := Slice(hexLine, 6, 8);
    var addressRaw := Slice(hexLine, 2, 6);
    r := Ok(p);
    if recordType == RECORD_EXTENDED_SEGMENT {
      r := ExtendedSegmentRecord(lines, lineNum, p, hexLine, numOfData.value);
    }
    if recordType == RECORD_DATA {
      r := DataRecord(lineNum, p, hexLine, numOfData.value);
    }
  }

  /** The 02 branch of the loop body. */
  method ExtendedSegmentRecord(lines: seq<string>, lineNum: nat, p: Parser, hexLine: string, numOfData: nat)
    returns (r: Result<Parser, HexError>)
    requires lineNum < |lines|
    ensures r == ExtendSegment(lines, lineNum, p, hexLine, numOfData)
  {
    var addressExtension := HexValue(Slice(hexLine, 8, 8 + numOfData * 2));
    if addressExtension.None? {
      return Err(BadHex(lineNum));
    }
    var extension := addressExtension.value * SEGMENT_SHIFT;
    if lineNum + 1 >= |lines| {
      return Err(MissingNextLine(lineNum));
    }
    var firstAddress := HexValue(Slice(SliceFrom(lines[lineNum + 1], 1), 2, 6));
    if firstAddress.None? {
      return Err(BadHex(lineNum));
    }
    var firstAddressInNewSegment := firstAddress.value + extension;
    return Ok(Parser(p.segments[firstAddressInNewSegment := []], firstAddressInNewSegment, extension));
  }

  /** The 00 branch of the loop body. */
  method DataRecord(lineNum: nat, p: Parser, hexLine: string, numOfData: nat) returns (r: Result<Parser, HexError>)
    requires p.current in p.segments
    ensures r == AppendData(lineNum, p, hexLine, numOfData)
  {
    var address := HexValue(Slice(hexLine, 2, 6));
    if address.None? {
      return Err(BadHex(lineNum));
    }
    var hexData := SliceFrom(hexLine, 8);
    var calcNumOfData := |hexData| / 2;
    if numOfData != calcNumOfData {
      return Err(LengthMismatch(lineNum, calcNumOfData, numOfData));
    }
    var rawBinLine := HexBytes(hexData);
    if rawBinLine.None? {
      return Err(BadHex(lineNum));
    }
    var segments := p.segments[p.current := p.segments[p.current] + rawBinLine.value];
    return Ok(p.(segments := segments));
  }

  // ---- what a line does ----

  /** A data record appends the bytes its data field spells to the current
      segment and changes nothing else; its address plays no part. */
  lemma DataRecordAppends(lines: seq<string>, i: nat, p: Parser)
    requires i < |lines| && Consistent(p)
    requires var rec := Record(lines[i]);
      && TypeField(rec) == RECORD_DATA && HexValue(AddressField(rec)).Some?
      && HexValue(CountField(rec)) == Some(|DataField(rec)| / 2)
      && HexBytes(DataField(rec)).Some?
    ensures var bytes := HexBytes(DataField(Record(lines[i]))).value;
      && Step(lines, i, p).Ok?
      && Step(lines, i, p).value.current == p.current
      && Step(lines, i, p).value.extension == p.extension
      && Step(lines, i, p).value.segments.Keys == p.segments.Keys
      && Step(lines, i, p).value.segments[p.current] == p.segments[p.current] + bytes
      && forall k :: k in p.segments && k != p.current ==> Step(lines, i, p).value.segments[k] == p.segments[k]
  {
  }

  /** Two data records that differ only in their address do the same. */
  lemma AddressUnused(lines: seq<string>, i: nat, p: Parser, count: string, address: string, other: string, data: string, checksum: string)
    requires i < |lines| && Consistent(p)
    requires |count| == 2 && |address| == 4 && |other| == 4 && |checksum| == 3
    requires HexValue(address).Some? && HexValue(other).Some?
    requires lines[i] == ":" + count + address + RECORD_DATA + data + checksum
    ensures Step(lines[i := ":" + count + other + RECORD_DATA + data + checksum], i, p) == Step(lines, i, p)
  {
    var moved := ":" + count + other + RECORD_DATA + data + checksum;
    LineFields(lines[i], count, address, RECORD_DATA, data, checksum);
    LineFields(moved, count, other, RECORD_DATA, data, checksum);
    assert lines[i := moved][i] == moved;
  }

  /** The count check of a data record, both ways: with a readable count
      and address, the line fails with `LengthMismatch` naming its index
      exactly when the declared count is not half the data field's length. */
  lemma LengthChecked(lines: seq<string>, i: nat, p: Parser)
    requires i < |lines| && Consistent(p)
    requires var rec := Record(lines[i]);
      && TypeField(rec) == RECORD_DATA && HexValue(AddressField(rec)).Some?
      && HexValue(CountField(rec)).Some?
    ensures var rec := Record(lines[i]);
      var declared, calculated := HexValue(CountField(rec)).value, |DataField(rec)| / 2;
      (Step(lines, i, p) == Err(LengthMismatch(i, calculated, declared))) <==> declared != calculated
  {
  }

  /** An 02 record opens an empty segment at its value times 16 plus the
      next line's address, makes it current and keeps every other segment. */
  lemma ExtensionOpensSegment(lines: seq<string>, i: nat, p: Parser)
    requires i + 1 < |lines| && Consistent(p)
    requires var rec := Record(lines[i]);
      && TypeField(rec) == RECORD_EXTENDED_SEGMENT && HexValue(CountField(rec)).Some?
      && HexValue(Slice(rec, 8, 8 + HexValue(CountField(rec)).value * 2)).Some?
      && HexValue(NextAddressField(lines[i + 1])).Some?
    ensures var rec := Record(lines[i]);
      var value := HexValue(Slice(rec, 8, 8 + HexValue(CountField(rec)).value * 2)).value;
      var key := value * 16 + HexValue(NextAddressField(lines[i + 1])).value;
      && Step(lines, i, p).Ok?
      && Step(lines, i, p).value.current == key
      && Step(lines, i, p).value.extension == value * 16
      && Step(lines, i, p).value.segments == p.segments[key := []]
  {
  }

  /** End-of-file (01), start segment address (03) and every other record
      type leave the parser as it was, once the count parses. */
  lemma OtherRecordsIgnored(lines: seq<string>, i: nat, p: Parser)
    requires i < |lines| && Consistent(p)
    requires var rec := Record(lines[i]);
      && TypeField(rec) != RECORD_DATA && TypeField(rec) != RECORD_EXTENDED_SEGMENT
      && HexValue(CountField(rec)).Some?
    ensures Step(lines, i, p) == Ok(p)
  {
  }

  // ---- the checksum is never read ----

  /** The parse reads a line only through its record and through the
      address the line before it reads: lines that agree there parse
      alike. */
  lemma {:induction false} SameRecordsSameParse(a: seq<string>, b: seq<string>, n: nat)
    requires |a| == |b| && n <= |a|
    requires SameRecords(a, b)
    ensures ParseUpTo(a, n) == ParseUpTo(b, n)
  {
    if n > 0 {
      SameRecordsSameParse(a, b, n - 1);
      var before := ParseUpTo(a, n - 1);
      if before.Ok? {
        SameRecordsAt(a, b, n - 1);
        SameStep(a, b, n - 1, before.value);
        ParseUpToNext(a, n - 1);
        ParseUpToNext(b, n - 1);
      }
    }
  }

  lemma ParseUpToNext(lines: seq<string>, n: nat)
    requires n < |lines| && ParseUpTo(lines, n).Ok?
    ensures ParseUpTo(lines, n + 1) == Step(lines, n, ParseUpTo(lines, n).value)
  {
  }

  /** Two files whose lines agree in everything the parser reads. */
  ghost predicate SameRecords(a: seq<string>, b: seq<string>)
  {
    |a| == |b| && forall j :: 0 <= j < |a| ==> Record(a[j]) == Record(b[j]) && NextAddressField(a[j]) == NextAddressField(b[j])
  }

  lemma SameRecordsAt(a: seq<string>, b: seq<string>, i: nat)
    requires SameRecords(a, b) && i < |a|
    ensures Record(a[i]) == Record(b[i])
    ensures i + 1 < |a| ==> NextAddressField(a[i + 1]) == NextAddressField(b[i + 1])
  {
  }

  lemma SameStep(a: seq<string>, b: seq<string>, i: nat, p: Parser)
    requires |a| == |b| && i < |a| && Consistent(p)
    requires Record(a[i]) == Record(b[i])
    requires i + 1 < |a| ==> NextAddressField(a[i + 1]) == NextAddressField(b[i + 1])
    ensures Step(a, i, p) == Step(b, i, p)
  {
    var rec := Record(a[i]);
    match HexValue(CountField(rec))
    case None =>
    case Some(count) =>
      assert ExtendSegment(a, i, p, rec, count) == ExtendSegment(b, i, p, rec, count);
  }

  /** Replacing the checksum and line end of any line (the last three
      characters) with anything else changes nothing. */
  lemma ChecksumIgnored(lines: seq<string>, i: nat, checksum: string)
    requires i < |lines| && |lines[i]| >= 10 && |checksum| == 3
    ensures var line := lines[i];
      Parse(lines[i := line[..|line| - 3] + checksum]) == Parse(lines)
  {
    var line := lines[i];
    var other := line[..|line| - 3] + checksum;
    var lines' := lines[i := other];
    assert Record(other) == Record(line) by {
      assert other[1..|other| - 3] == line[1..|line| - 3];
    }
    assert NextAddressField(other) == NextAddressField(line) by {
      assert other[3..7] == line[3..7];
    }
    assert SameRecords(lines', lines);
    SameRecordsSameParse(lines', lines, |lines|);
  }

  // ---- the example in the parser's documentation ----

  /** Every character `HexPairs` writes is a hex digit. */
  lemma {:induction false} HexPairsDigits(bytes: seq<byte>)
    ensures forall j :: 0 <= j < |HexPairs(bytes)| ==> IsHexDigit(HexPairs(bytes)[j])
  {
    if bytes != [] {
      HexPairsDigits(bytes[1..]);
      var pair := ByteToHex(bytes[0])[..2];
      assert HexValue(pair).Some?;
      assert HexPairs(bytes) == pair + HexPairs(bytes[1..]);
    }
  }

  /** A well-formed data record, whatever its address and checksum: the
      count spelled as one byte, a two-byte address, type 00 and the data
      two digits per byte. Parsing it appends exactly its bytes to the
      current segment. */
  lemma WellFormedDataRecord(lines: seq<string>, i: nat, p: Parser, address: seq<byte>, bytes: seq<byte>, checksum: string)
    requires i < |lines| && Consistent(p)
    requires |bytes| < 256 && |address| == 2 && |checksum| == 3
    requires lines[i] == ":" + HexPairs([|bytes|]) + HexPairs(address) + RECORD_DATA + HexPairs(bytes) + checksum
    ensures Step(lines, i, p) == Ok(p.(segments := p.segments[p.current := p.segments[p.current] + bytes]))
  {
    LineFields(lines[i], HexPairs([|bytes|]), HexPairs(address), RECORD_DATA, HexPairs(bytes), checksum);
    ByteSpelling(|bytes|);
    HexPairsDigits(address);
    HexBytesPairs(bytes);
    var rec := Record(lines[i]);
    assert HexValue(AddressField(rec)).Some?;
    assert |DataField(rec)| / 2 == |bytes|;
    assert HexValue(CountField(rec)) == Some(|DataField(rec)| / 2);
    DataRecordAppends(lines, i, p);
  }

  /** A line cut into its fields. */
  lemma LineFields(line: string, count: string, address: string, kind: string, data: string, checksum: string)
    requires |count| == 2 && |address| == 4 && |kind| == 2 && |checksum| == 3
    requires line == ":" + count + address + kind + data + checksum
    ensures var rec := Record(line);
      && CountField(rec) == count && AddressField(rec) == address
      && TypeField(rec) == kind && DataField(rec) == data
  {
    var rec := Record(line);
    assert rec == count + address + kind + data;
  }

  /** One byte spelled as two digits reads back as itself. */
  lemma ByteSpelling(b: byte)
    ensures HexValue(HexPairs([b])) == Some(b)
  {
    assert HexPairs([b]) == ByteToHex(b)[..2] + HexPairs([]);
  }

  /** The sixteen bytes of the data record in the parser's documentation,
      `:10010000214601360121470136007EFE09D2190140`: count 0x10, address
      0x0100, type 00, these bytes, checksum 0x40. */
  const ExampleBytes: seq<byte> := [0x21, 0x46, 0x01, 0x36, 0x01, 0x21, 0x47, 0x01, 0x36, 0x00, 0x7E, 0xFE, 0x09, 0xD2, 0x19, 0x01]

  /** The documented data record appends its sixteen bytes to the current
      segment. */
  lemma ExampleRecord(lines: seq<string>, i: nat, p: Parser)
    requires i < |lines| && Consistent(p)
    requires lines[i] == ":" + HexPairs([16]) + HexPairs([0x01, 0x00]) + RECORD_DATA + HexPairs(ExampleBytes) + "40\n"
    ensures Step(lines, i, p).Ok?
    ensures Step(lines, i, p).value.segments == p.segments[p.current := p.segments[p.current] + ExampleBytes]
  {
    WellFormedDataRecord(lines, i, p, [0x01, 0x00], ExampleBytes, "40\n");
  }

  // ---- the data record under Python 2 ----

  /** A decimal digit. */
  function DigitChar(d: nat): (c: char)
    requires d < 10
    ensures '0' <= c <= '9'
  {
    (48 + d) as char
  }

  /** `str(n)` for a natural number: its decimal digits. */
  function Decimal(n: nat): (s: string)
    ensures 1 <= |s|
    decreases n
  {
    if n < 10 then [DigitChar(n)] else Decimal(n / 10) + [DigitChar(n % 10)]
  }

  /** The elements of a list as `str` writes them: decimals joined by `, `. */
  function ReprItems(values: seq<byte>): (s: string)
    ensures |values| == 0 <==> s == []
    ensures |values| > 0 ==> |s| >= 3 * |values| - 2
  {
    if |values| == 0 then []
    else if |values| == 1 then Decimal(values[0])
    else Decimal(values[0]) + ", " + ReprItems(values[1..])
  }

  /** `bytes(hexstr_list_as_int)` as Python 2 evaluates it: there `bytes` is
      `str`, so the call yields the text of the list, brackets and all,
      rather than one byte per element. The text is always longer than the
      list it spells. */
  function Py2Bytes(values: seq<byte>): (s: string)
    ensures |s| >= 2 && s[0] == '[' && s[|s| - 1] == ']'
    ensures |s| >= 3 * |values| && |s| > |values|
  {
    "[" + ReprItems(values) + "]"
  }

  /** As written, a sixteen-byte data record whose first byte is 0x21, the
      documented one among them, appends the text `[33, ...` (at least 48
      characters) to its segment instead of its sixteen bytes. */
  lemma DocumentedRecordAsText(values: seq<byte>)
    requires |values| == |ExampleBytes| && values[0] == ExampleBytes[0]
    ensures Py2Bytes(values)[..5] == "[33, "
    ensures |Py2Bytes(values)| >= 48
  {
    var first := Decimal(values[0]);
    assert first == "33";
    assert ReprItems(values) == first + ", " + ReprItems(values[1..]);
  }
}
