/**
 * The serial line the loader talks through (`board->com`), replaced by a
 * script. The C port is opened non-blocking: one `write` of one byte may
 * be refused, one `read` of one byte may find no data.
 */
module Transport {
  /** What one `read(com, &ch, 1)` yields. */
  datatype ReadResult = NoData | Byte(b: char)

  /**
   * The line as a value: the outcomes of the coming write attempts (true:
   * the byte was taken), what the coming reads return, and every byte the
   * line has taken so far, in order. Past the end of `accepts` every write
   * is taken; past the end of `input` the line stays silent for good.
   */
  datatype Line = Line(accepts: seq<bool>, input: seq<ReadResult>, output: seq<char>)

  /** One write attempt of one byte. */
  function WriteOnce(l: Line, c: char): (Line, bool)
  {
    if l.accepts == [] then (l.(output := l.output + [c]), true)
    else if l.accepts[0] then (l.(accepts := l.accepts[1..], output := l.output + [c]), true)
    else (l.(accepts := l.accepts[1..]), false)
  }

  /** The next read result, and the script after it. */
  function NextRead(rs: seq<ReadResult>): (ReadResult, seq<ReadResult>)
  {
    if rs == [] then (NoData, []) else (rs[0], rs[1..])
  }

  /** One read attempt of one byte. */
  function ReadOnce(l: Line): (Line, ReadResult)
  {
    var n := NextRead(l.input);
    (l.(input := n.1), n.0)
  }

  /** The bytes among a run of read results, in arrival order. */
  function Data(rs: seq<ReadResult>): (r: seq<char>)
    ensures |r| <= |rs|
  {
    if rs == [] then []
    else match rs[0]
      case NoData => Data(rs[1..])
      case Byte(b) => [b] + Data(rs[1..])
  }

  /** The empty polls among a run of read results. */
  function Polls(rs: seq<ReadResult>): nat
  {
    if rs == [] then 0 else (if rs[0].NoData? then 1 else 0) + Polls(rs[1..])
  }

  /** A string as the reads that deliver it byte by byte. */
  function AsReads(s: seq<char>): (r: seq<ReadResult>)
    ensures |r| == |s| && Data(r) == s && Polls(r) == 0
  {
    if s == [] then [] else [Byte(s[0])] + AsReads(s[1..])
  }

  lemma {:induction false} DataAppend(a: seq<ReadResult>, b: seq<ReadResult>)
    ensures Data(a + b) == Data(a) + Data(b) && Polls(a + b) == Polls(a) + Polls(b)
    decreases |a|
  {
    if a == [] {
      assert a + b == b;
    } else {
      assert (a + b)[0] == a[0] && (a + b)[1..] == a[1..] + b;
      DataAppend(a[1..], b);
    }
  }

  /** The serial port object: the script and the log as mutable state. */
  class Port {
    var accepts: seq<bool>
    var input: seq<ReadResult>
    var output: seq<char>

    function State(): Line
      reads this
    {
      Line(accepts, input, output)
    }

    constructor (accepts: seq<bool>, input: seq<ReadResult>)
      ensures State() == Line(accepts, input, [])
    {
      this.accepts := accepts;
      this.input := input;
      this.output := [];
    }

    /** `write(com, &c, 1)`: one attempt to hand one byte to the line. */
    method Write(c: char) returns (accepted: bool)
      modifies this
      ensures (State(), accepted) == WriteOnce(old(State()), c)
    {
      accepted := accepts == [] || accepts[0];
      if accepts != [] {
        accepts := accepts[1..];
      }
      if accepted {
        output := output + [c];
      }
    }

    /** `read(com, &ch, 1)`: one poll of the line. */
    method Read() returns (r: ReadResult)
      modifies this
      ensures (State(), r) == ReadOnce(old(State()))
    {
      if input == [] {
        r := NoData;
      } else {
        r := input[0];
        input := input[1..];
      }
    }

    /**
     * True when no read will ever deliver a byte again. The C program
     * would poll forever at this point; the model stops and says so.
     */
    predicate Silent()
      reads this
    {
      input == []
    }
  }
}
