/**
 * Motorola S-records as `load` reads them: one text line per `fgets`,
 * the record type in the second character, the data field from offset
 * 6 + 2 * type up to the carriage return, and the last two characters of
 * that field taken as the record checksum.
 */
module SRecord {
  import opened Opt
  import opened Hex
  import opened Strings

  /**
   * `temp_line[i]` for a line that `fgets` stored with its terminating NUL:
   * the NUL right after the last character.
   */
  function CharAt(line: seq<char>, i: nat): char
  {
    if i < |line| then line[i] else '\0'
  }

  /** A byte as C's signed `char`: 0x80 and above are negative. */
  function Signed(c: char): (r: int)
    ensures c as int < 256 ==> -128 <= r < 128
    ensures r == c as int || r == c as int - 256
  {
    if 128 <= c as int < 256 then c as int - 256 else c as int
  }

  /**
   * `temp_line[1] - '0'` on a signed `char`: the type digit, or a negative
   * or large value when it is no digit.
   */
  function RecordType(line: seq<char>): int
  {
    Signed(CharAt(line, 1)) - '0' as int
  }

  /** The first line whose type digit is at least 1: where the skip loop stops. */
  function FirstRecord(lines: seq<seq<char>>): (i: nat)
    ensures i <= |lines|
    ensures forall k :: 0 <= k < i ==> RecordType(lines[k]) < 1
    ensures i < |lines| ==> RecordType(lines[i]) >= 1
  {
    if lines == [] then 0
    else if RecordType(lines[0]) >= 1 then 0
    else 1 + FirstRecord(lines[1..])
  }

  /** The record loop goes on while the line starts with `S` and its type is at most 5. */
  predicate InRange(line: seq<char>)
  {
    CharAt(line, 0) == 'S' && RecordType(line) <= 5
  }

  /**
   * Where the data field starts: after `S`, the type, two count digits and
   * 2 + 2 * type address digits (four for S1, six for S2, eight for S3).
   */
  function DataStart(line: seq<char>): int
  {
    6 + 2 * RecordType(line)
  }

  /**
   * The data field, re-rendered, without its checksum: every character from
   * the data offset up to the first `\r` goes through `hextoint` and `%x`,
   * and the last two are dropped. None when the line has no such field: the
   * offset lies outside the line, no `\r` follows it, or fewer than two
   * characters precede the `\r`.
   */
  function Payload(line: seq<char>): (r: Option<seq<char>>)
    ensures r.Some? ==> AllLowerHex(r.value)
  {
    var start := DataStart(line);
    if start < 0 || start > |line| then None
    else
      match IndexOf(line[start..], '\r')
      case None => None
      case Some(k) =>
        if k < 2 then None
        else Some(Lowered(line[start..start + k - 2]))
  }

  /** Every character through `hextoint` and `%x`. */
  function Lowered(s: seq<char>): (r: seq<char>)
    ensures |r| == |s| && AllLowerHex(r)
    ensures forall i :: 0 <= i < |s| ==> r[i] == Rehex(s[i])
  {
    seq(|s|, i requires 0 <= i < |s| => Rehex(s[i]))
  }

  /**
   * The payload carries the data characters in order, each with its value
   * kept and its case lowered; the checksum characters and the `\r` are not
   * part of it.
   */
  lemma PayloadCharacters(line: seq<char>)
    requires Payload(line).Some?
    ensures var start, p := DataStart(line), Payload(line).value;
      && 0 <= start && start + |p| + 2 < |line|
      && line[start + |p| + 2] == '\r'
      && '\r' !in line[start..start + |p| + 2]
      && forall i :: 0 <= i < |p| ==> p[i] == Rehex(line[start + i])
  {
    var start := DataStart(line);
    var k := IndexOf(line[start..], '\r').value;
    assert line[start..][..k] == line[start..start + k];
  }

  /** Each pair of payload digits stands for the byte the record holds there. */
  lemma PayloadBytes(line: seq<char>, i: nat)
    requires Payload(line).Some? && 2 * i + 1 < |Payload(line).value|
    ensures var start, p := DataStart(line), Payload(line).value;
      AsciiHexToByte(p[2 * i], p[2 * i + 1]) == AsciiHexToByte(line[start + 2 * i], line[start + 2 * i + 1])
  {
    PayloadCharacters(line);
  }

  /** Data written in lowercase hex goes out exactly as it stands in the record. */
  lemma PayloadOfLowercase(line: seq<char>)
    requires Payload(line).Some?
    requires var start := DataStart(line); 0 <= start && AllLowerHex(line[start..start + |Payload(line).value|])
    ensures Payload(line).value == line[DataStart(line)..DataStart(line) + |Payload(line).value|]
  {
    PayloadCharacters(line);
    var start, p := DataStart(line), Payload(line).value;
    forall i | 0 <= i < |p| ensures p[i] == line[start + i] {
      assert line[start..start + |p|][i] == line[start + i];
    }
  }

  /**
   * The `sprintf` loop of `load`: `pkt` is filled one re-rendered character
   * at a time until `\r`, then cut two characters short.
   */
  method ExtractPayload(line: seq<char>) returns (pkt: Option<seq<char>>)
    ensures pkt == Payload(line)
  {
    var start := DataStart(line);
    if start < 0 || start > |line| {
      return None;
    }
    var buf: seq<char> := [];
    var n := start;
    while n < |line| && line[n] != '\r'
      invariant start <= n <= |line|
      invariant '\r' !in line[start..n]
      invariant buf == Lowered(line[start..n])
    {
      assert line[start..n + 1] == line[start..n] + [line[n]];
      buf := buf + [Rehex(line[n])];
      n := n + 1;
    }
    if n == |line| {
      assert line[start..] == line[start..n];
      return None;
    }
    assert line[start..][..n - start] == line[start..n];
    IndexOfFirst(line[start..n], '\r', line[n + 1..]);
    assert line[start..] == line[start..n] + ['\r'] + line[n + 1..];
    if |buf| < 2 {
      return None;
    }
    assert buf[..|buf| - 2] == Lowered(line[start..n - 2]);
    pkt := Some(buf[..|buf| - 2]);
  }

  /** An S1 record with mixed-case data: the payload is its lowercased data, without the checksum. */
  lemma PayloadExample()
    ensures Payload("S1070000aBcD1234\r\n") == Some("abcd12")
  {
    var line := "S1070000aBcD1234\r\n";
    var data, tail := "aBcD1234", "\n";
    assert RecordType(line) == 1;
    assert line[8..] == data + ['\r'] + tail;
    IndexOfFirst(data, '\r', tail);
    PayloadAt(line, 8, 8);
    assert line[8..14] == "aBcD12";
    RehexExample();
  }

  /** The payload of a line whose data field starts at `start` and whose `\r` comes `k` characters later. */
  lemma PayloadAt(line: seq<char>, start: nat, k: nat)
    requires DataStart(line) == start <= |line|
    requires IndexOf(line[start..], '\r') == Some(k) && k >= 2
    ensures Payload(line) == Some(Lowered(line[start..start + k - 2]))
  {
  }

  lemma RehexExample()
    ensures Lowered("aBcD12") == "abcd12"
  {
    var r := Lowered("aBcD12");
    assert r[1] == 'b' && r[3] == 'd';
  }

  /**
   * A file saved with a UTF-8 byte order mark: the mark's second byte is
   * negative as a signed `char`, so the skip loop passes over the first
   * line and stops at the S1 record after it.
   */
  lemma ByteOrderMarkSkipped()
    ensures var bom := "\U{EF}\U{BB}\U{BF}S00600004844521B\r\n";
      RecordType(bom) == -117 && FirstRecord([bom, "S1070000aBcD1234\r\n"]) == 1
  {
    var bom := "\U{EF}\U{BB}\U{BF}S00600004844521B\r\n";
    var lines := [bom, "S1070000aBcD1234\r\n"];
    assert lines[1..] == ["S1070000aBcD1234\r\n"];
    assert RecordType(lines[1]) == 1;
  }
}
