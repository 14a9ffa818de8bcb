/**
 * The commands the loader sends to the boot monitor, as they are
 * formatted with `sprintf`/`snprintf` and string literals, and a parser
 * that reads them back, so that the rendering can be shown unambiguous.
 */
module Commands {
  import opened Opt
  import opened Hex
  import opened Strings
  import Framing

  datatype Command =
    | MemWrite(addr: nat, len: nat, payload: seq<char>)  // `M%lx,%x:%s` (load)
    | Continue(addr: nat)                                 // `c%lx` (run)
    | MemRead(addr: nat, len: nat)                        // `m%lx,%x` (memdump)
    | RegDump                                             // `g`
    | Reset                                               // `r`
    | QueryOffsets                                        // `qOffsets`
    | QueryId                                             // `qID`

  /** Characters that would cut a command short or break its framing. */
  predicate Plain(s: seq<char>)
  {
    '\0' !in s && '#' !in s && '$' !in s
  }

  /** The command text; numbers are rendered by `%x`, lowercase and without leading zeros. */
  function Render(c: Command): seq<char>
  {
    match c
    case MemWrite(a, n, p) => ['M'] + (HexString(a) + [','] + (HexString(n) + [':'] + p))
    case Continue(a) => ['c'] + HexString(a)
    case MemRead(a, n) => ['m'] + (HexString(a) + [','] + HexString(n))
    case RegDump => "g"
    case Reset => "r"
    case QueryOffsets => "qOffsets"
    case QueryId => "qID"
  }

  /**
   * A command goes out whole: its text is not empty and holds no NUL,
   * `#` or `$` unless a payload put one there.
   */
  lemma RenderPlain(c: Command)
    requires c.MemWrite? ==> Plain(c.payload)
    ensures |Render(c)| > 0 && Plain(Render(c))
  {
    match c
    case MemWrite(a, n, p) =>
      var ha, hn := HexString(a), HexString(n);
      HexPlain(ha);
      HexPlain(hn);
      PlainAppend(hn + [':'], p);
      PlainAppend(ha + [','], hn + [':'] + p);
      PlainAppend(['M'], ha + [','] + (hn + [':'] + p));
    case Continue(a) =>
      HexPlain(HexString(a));
      PlainAppend(['c'], HexString(a));
    case MemRead(a, n) =>
      var ha, hn := HexString(a), HexString(n);
      HexPlain(ha);
      HexPlain(hn);
      PlainAppend(ha + [','], hn);
      PlainAppend(['m'], ha + [','] + hn);
    case _ =>
  }

  lemma PlainAppend(a: seq<char>, b: seq<char>)
    requires Plain(a) && Plain(b)
    ensures Plain(a + b)
  {
  }

  lemma HexPlain(s: seq<char>)
    requires AllLowerHex(s)
    ensures Plain(s) && ',' !in s && ':' !in s
  {
    forall i | 0 <= i < |s| ensures s[i] != '\0' && s[i] != '#' && s[i] != '$' && s[i] != ',' && s[i] != ':' {
      assert IsLowerHex(s[i]);
    }
  }

  /** `memdump` always asks for a full reply buffer's worth of bytes. */
  function MemDump(start: nat): (c: Command)
    ensures c.MemRead? && c.addr == start
    ensures Render(c) == ['m'] + (HexString(start) + [','] + "400")
  {
    BufferLengthDigits();
    MemRead(start, Framing.MAXRESPONSELEN)
  }

  lemma BufferLengthDigits()
    ensures HexString(Framing.MAXRESPONSELEN) == "400"
  {
    assert HexString(4) == [Digits[4]];
    assert HexString(64) == HexString(4) + [Digits[0]];
    assert HexString(1024) == HexString(64) + [Digits[0]];
  }

  /** A number as `%x` writes it, and only that. */
  function Number(s: seq<char>): (r: Option<nat>)
    ensures r.Some? ==> HexString(r.value) == s
  {
    match ParseHex(s)
    case None => None
    case Some(v) => if HexString(v) == s then Some(v) else None
  }

  /** The digits `Number` accepts are exactly the canonical ones. */
  lemma NumberCanonical(s: seq<char>)
    ensures Number(s).Some? <==> |s| > 0 && AllLowerHex(s) && (s[0] != '0' || |s| == 1)
  {
    if |s| > 0 && AllLowerHex(s) && (s[0] != '0' || |s| == 1) {
      HexStringCanonical(s);
    }
  }

  lemma NumberOfHexString(n: nat)
    ensures Number(HexString(n)) == Some(n)
  {
    HexStringRoundTrip(n);
  }

  /** Reads a command back from its text. */
  function Parse(s: seq<char>): Option<Command>
  {
    if s == [] then None
    else if s[0] == 'M' then ParseMemWrite(s[1..])
    else if s[0] == 'm' then ParseMemRead(s[1..])
    else if s[0] == 'c' then ParseContinue(s[1..])
    else if s == "g" then Some(RegDump)
    else if s == "r" then Some(Reset)
    else if s == "qOffsets" then Some(QueryOffsets)
    else if s == "qID" then Some(QueryId)
    else None
  }

  /** What follows `M`: address, `,`, length, `:`, payload. */
  function ParseMemWrite(body: seq<char>): Option<Command>
  {
    match IndexOf(body, ',')
    case None => None
    case Some(i) =>
      var rest := body[i + 1..];
      match IndexOf(rest, ':')
      case None => None
      case Some(j) =>
        match (Number(body[..i]), Number(rest[..j]))
        case (Some(a), Some(n)) => Some(MemWrite(a, n, rest[j + 1..]))
        case _ => None
  }

  /** What follows `m`: address, `,`, length. */
  function ParseMemRead(body: seq<char>): Option<Command>
  {
    match IndexOf(body, ',')
    case None => None
    case Some(i) =>
      match (Number(body[..i]), Number(body[i + 1..]))
      case (Some(a), Some(n)) => Some(MemRead(a, n))
      case _ => None
  }

  /** What follows `c`: the address. */
  function ParseContinue(body: seq<char>): Option<Command>
  {
    match Number(body)
    case None => None
    case Some(a) => Some(Continue(a))
  }

  /** Every command is read back from its text. */
  lemma ParseRender(c: Command)
    ensures Parse(Render(c)) == Some(c)
  {
    var s := Render(c);
    match c
    case MemWrite(a, n, p) =>
      var body := HexString(a) + [','] + (HexString(n) + [':'] + p);
      assert s[0] == 'M' && s[1..] == body;
      MemWriteBack(a, n, p);
    case Continue(a) =>
      assert s[0] == 'c' && s[1..] == HexString(a);
      NumberOfHexString(a);
    case MemRead(a, n) =>
      var body := HexString(a) + [','] + HexString(n);
      assert s == ['m'] + body;
      assert s[0] == 'm' && s[1..] == body;
      MemReadBack(a, n);
    case RegDump =>
    case Reset =>
    case QueryOffsets =>
    case QueryId =>
  }

  lemma MemWriteBack(a: nat, n: nat, p: seq<char>)
    ensures ParseMemWrite(HexString(a) + [','] + (HexString(n) + [':'] + p)) == Some(MemWrite(a, n, p))
  {
    var ha, hn := HexString(a), HexString(n);
    var rest := hn + [':'] + p;
    var body := ha + [','] + rest;
    HexPlain(ha);
    HexPlain(hn);
    IndexOfFirst(ha, ',', rest);
    IndexOfFirst(hn, ':', p);
    assert body[..|ha|] == ha && body[|ha| + 1..] == rest;
    assert rest[..|hn|] == hn && rest[|hn| + 1..] == p;
    NumberOfHexString(a);
    NumberOfHexString(n);
  }

  lemma MemReadBack(a: nat, n: nat)
    ensures ParseMemRead(HexString(a) + [','] + HexString(n)) == Some(MemRead(a, n))
  {
    var ha, hn := HexString(a), HexString(n);
    var body := ha + [','] + hn;
    HexPlain(ha);
    IndexOfFirst(ha, ',', hn);
    assert body[..|ha|] == ha && body[|ha| + 1..] == hn;
    NumberOfHexString(a);
    NumberOfHexString(n);
  }

  /** Only the text of a command is read as that command. */
  lemma RenderParse(s: seq<char>, c: Command)
    requires Parse(s) == Some(c)
    ensures Render(c) == s
  {
    var body := s[1..];
    assert s == [s[0]] + body;
    if s[0] == 'M' {
      assert Parse(s) == ParseMemWrite(body);
      MemWriteText(body);
    } else if s[0] == 'm' {
      assert Parse(s) == ParseMemRead(body);
      MemReadText(body);
    } else if s[0] == 'c' {
      assert Parse(s) == ParseContinue(body);
      assert HexString(Number(body).value) == body;
    } else {
      KeywordText(s, c);
    }
  }

  lemma KeywordText(s: seq<char>, c: Command)
    requires Parse(s) == Some(c) && s[0] != 'M' && s[0] != 'm' && s[0] != 'c'
    ensures Render(c) == s
  {
  }

  lemma MemWriteText(body: seq<char>)
    requires ParseMemWrite(body).Some?
    ensures Render(ParseMemWrite(body).value) == ['M'] + body
  {
    var i := IndexOf(body, ',').value;
    var rest := body[i + 1..];
    var j := IndexOf(rest, ':').value;
    var a, n := Number(body[..i]).value, Number(rest[..j]).value;
    var p := rest[j + 1..];
    assert ParseMemWrite(body) == Some(MemWrite(a, n, p));
    SplitAt(rest, j);
    SplitAt(body, i);
  }

  lemma MemReadText(body: seq<char>)
    requires ParseMemRead(body).Some?
    ensures Render(ParseMemRead(body).value) == ['m'] + body
  {
    var i := IndexOf(body, ',').value;
    var a, n := Number(body[..i]).value, Number(body[i + 1..]).value;
    assert ParseMemRead(body) == Some(MemRead(a, n));
    SplitAt(body, i);
  }

  /** Distinct commands have distinct texts. */
  lemma RenderInjective(c: Command, d: Command)
    requires Render(c) == Render(d)
    ensures c == d
  {
    ParseRender(c);
    ParseRender(d);
  }
}
