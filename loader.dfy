/**
 * `load`: the S-record file sent to the monitor as `M` packets. Leading
 * lines are skipped until one whose type digit is at least 1; from there
 * every line that starts with `S` and has type at most 5 becomes one
 * packet at the next load address. A refused packet ends the load; a bad
 * reply is only reported; the address advances after every packet sent.
 */
module Loader {
  import opened Opt
  import opened Transport
  import opened Framing
  import opened Commands
  import opened Session
  import opened SRecord

  /** One `M` packet: where it was aimed, how many bytes it claims, its digits, and what came of it. */
  datatype Packet = Packet(addr: nat, len: nat, payload: seq<char>, reply: Reply)

  /**
   * Why the record loop ended: the records ran out or a line outside the
   * range came; a line in range had no data field; a packet was refused;
   * or the line fell silent while `receive` waited for a checksum byte,
   * where the C program would wait forever.
   */
  datatype Stop = Finished | Malformed | SendFailed | Stalled

  /** A load as a whole: the stop, the line where it happened, the packets, and the serial line after. */
  datatype LoadRun = LoadRun(stop: Stop, index: nat, packets: seq<Packet>, line: Line)

  /** The packet length `load` claims: half the digits, rounded down. */
  function PacketLength(payload: seq<char>): nat
  {
    |payload| / 2
  }

  /**
   * What one `send` of a command followed, when it reports OK, by one
   * `receive` does to the line; `QuerySpec` in the model of the protocol.
   */
  type Exchange = (Line, Command) -> (Line, Reply)

  /** What came of one line of the record loop. */
  datatype Attempt = OutOfRange | NoDataField | Tried(pk: Packet, after: Line)

  /**
   * One line of the record loop: a line out of range ends it, a line in
   * range without a data field is malformed, and any other line is sent
   * as one `M` packet aimed at `addr`.
   */
  function Try(ex: Exchange, line: seq<char>, addr: nat, l: Line): (a: Attempt)
    ensures a.OutOfRange? <==> !InRange(line)
    ensures a.NoDataField? <==> InRange(line) && Payload(line).None?
    ensures a.Tried? ==> PacketOf(line, a.pk) && a.pk.addr == addr
  {
    if !InRange(line) then OutOfRange
    else
      match Payload(line)
      case None => NoDataField
      case Some(p) =>
        var q := ex(l, MemWrite(addr, PacketLength(p), p));
        Tried(Packet(addr, PacketLength(p), p, q.1), q.0)
  }

  /** The record loop from line `i` on, with `addr` the next load address. */
  function LoadFrom(ex: Exchange, lines: seq<seq<char>>, i: nat, addr: nat, l: Line): LoadRun
    decreases |lines| - i
  {
    if i >= |lines| then LoadRun(Finished, i, [], l)
    else
      match Try(ex, lines[i], addr, l)
      case OutOfRange => LoadRun(Finished, i, [], l)
      case NoDataField => LoadRun(Malformed, i, [], l)
      case Tried(pk, after) =>
        if !GoesOn(pk) then LoadRun(if pk.reply.NotSent? then SendFailed else Stalled, i, [pk], after)
        else
          var rest := LoadFrom(ex, lines, i + 1, addr + pk.len, after);
          LoadRun(rest.stop, rest.index, [pk] + rest.packets, rest.line)
  }

  /** True when the loop goes on past a packet with this outcome. */
  predicate GoesOn(pk: Packet)
  {
    !pk.reply.NotSent? && !(pk.reply.Answer? && pk.reply.status == Hung)
  }

  /** `load` with base address `base` over the lines of the file. */
  function LoadSpec(lines: seq<seq<char>>, base: nat, l: Line): LoadRun
  {
    LoadFrom(QuerySpec, lines, FirstRecord(lines), base, l)
  }

  /**
   * The packets are aimed at consecutive ranges: the first at the base
   * address, each next one right after the bytes the previous one claimed,
   * whatever the monitor replied.
   */
  lemma {:induction false} LoadAddresses(ex: Exchange, lines: seq<seq<char>>, i: nat, addr: nat, l: Line)
    ensures var r := LoadFrom(ex, lines, i, addr, l);
      && (|r.packets| > 0 ==> r.packets[0].addr == addr)
      && forall k :: 0 <= k < |r.packets| - 1 ==> r.packets[k + 1].addr == r.packets[k].addr + r.packets[k].len
    decreases |lines| - i
  {
    if i < |lines| {
      var t := Try(ex, lines[i], addr, l);
      if t.Tried? && GoesOn(t.pk) {
        var r := LoadFrom(ex, lines, i, addr, l);
        var rest := LoadFrom(ex, lines, i + 1, addr + t.pk.len, t.after);
        assert r.packets == [t.pk] + rest.packets;
        LoadAddresses(ex, lines, i + 1, addr + t.pk.len, t.after);
        forall k | 0 <= k < |r.packets| - 1
          ensures r.packets[k + 1].addr == r.packets[k].addr + r.packets[k].len
        {
          assert r.packets[k + 1] == rest.packets[k];
          if k > 0 {
            assert r.packets[k] == rest.packets[k - 1];
          }
        }
      }
    }
  }

  /**
   * Packet k comes from line i + k: each such line starts with `S`, has
   * type at most 5 and a data field, and the packet carries that field's
   * payload and half its length. The loop ended at `index`, after one
   * packet per line before it, plus the refused or unanswered one.
   */
  lemma {:induction false} LoadRecords(ex: Exchange, lines: seq<seq<char>>, i: nat, addr: nat, l: Line)
    requires i <= |lines|
    ensures var r := LoadFrom(ex, lines, i, addr, l);
      && i <= r.index <= |lines|
      && |r.packets| == r.index - i + (if r.stop == SendFailed || r.stop == Stalled then 1 else 0)
      && FromLines(lines, i, r.packets)
    decreases |lines| - i
  {
    if i < |lines| {
      var t := Try(ex, lines[i], addr, l);
      if t.Tried? {
        var r := LoadFrom(ex, lines, i, addr, l);
        if GoesOn(t.pk) {
          var rest := LoadFrom(ex, lines, i + 1, addr + t.pk.len, t.after);
          assert r.packets == [t.pk] + rest.packets;
          LoadRecords(ex, lines, i + 1, addr + t.pk.len, t.after);
          FromLinesCons(lines, i, t.pk, rest.packets);
        } else {
          assert r.packets == [t.pk] + [];
          FromLinesCons(lines, i, t.pk, []);
        }
      }
    }
  }

  /** The packet carries the data field of a line in range, and half its length. */
  predicate PacketOf(line: seq<char>, pk: Packet)
  {
    InRange(line) && Payload(line) == Some(pk.payload) && pk.len == PacketLength(pk.payload)
  }

  /** The packets come from the lines from `i` on, one line each, in order. */
  predicate FromLines(lines: seq<seq<char>>, i: nat, packets: seq<Packet>)
    decreases |packets|
  {
    packets == [] || (i < |lines| && PacketOf(lines[i], packets[0]) && FromLines(lines, i + 1, packets[1..]))
  }

  lemma FromLinesCons(lines: seq<seq<char>>, i: nat, pk: Packet, packets: seq<Packet>)
    requires i < |lines| && PacketOf(lines[i], pk) && FromLines(lines, i + 1, packets)
    ensures FromLines(lines, i, [pk] + packets)
  {
    assert ([pk] + packets)[0] == pk && ([pk] + packets)[1..] == packets;
  }

  /** Packet k comes from line i + k. */
  lemma {:induction false} FromLinesIndex(lines: seq<seq<char>>, i: nat, packets: seq<Packet>, k: nat)
    requires FromLines(lines, i, packets) && k < |packets|
    ensures i + k < |lines| && PacketOf(lines[i + k], packets[k])
    decreases k
  {
    if k > 0 {
      FromLinesIndex(lines, i + 1, packets[1..], k - 1);
      assert packets[1..][k - 1] == packets[k];
    }
  }

  /**
   * How the loop ends: the loop went on past every packet but the last
   * (a reply with ERROR does not stop it); it stops on a refused packet
   * exactly when the last packet was refused, and stalls exactly when the
   * line fell silent during the last one; it finishes only at the end of
   * the file or at a line out of range, and is malformed only at a line in
   * range without a data field.
   */
  lemma LoadStops(ex: Exchange, lines: seq<seq<char>>, i: nat, addr: nat, l: Line)
    ensures var r := LoadFrom(ex, lines, i, addr, l);
      && AllGoOn(r.packets)
      && (r.stop == SendFailed <==> LastIs(r.packets, false))
      && (r.stop == Stalled <==> LastIs(r.packets, true))
      && (r.stop == Finished ==> r.index >= |lines| || !InRange(lines[r.index]))
      && (r.stop == Malformed ==> r.index < |lines| && InRange(lines[r.index]) && Payload(lines[r.index]).None?)
  {
    LoadLast(ex, lines, i, addr, l);
    LoadEnds(ex, lines, i, addr, l);
  }

  /** The loop stops on a packet only at the last one, and exactly when that one was refused or left unanswered. */
  lemma {:induction false} LoadLast(ex: Exchange, lines: seq<seq<char>>, i: nat, addr: nat, l: Line)
    ensures var r := LoadFrom(ex, lines, i, addr, l);
      && AllGoOn(r.packets)
      && (r.stop == SendFailed <==> LastIs(r.packets, false))
      && (r.stop == Stalled <==> LastIs(r.packets, true))
    decreases |lines| - i
  {
    if i < |lines| {
      var t := Try(ex, lines[i], addr, l);
      if t.Tried? && GoesOn(t.pk) {
        var rest := LoadFrom(ex, lines, i + 1, addr + t.pk.len, t.after);
        assert LoadFrom(ex, lines, i, addr, l).packets == [t.pk] + rest.packets;
        LoadLast(ex, lines, i + 1, addr + t.pk.len, t.after);
        LastCons(t.pk, rest.packets);
        AllGoOnCons(t.pk, rest.packets);
      }
    }
  }

  /** The loop finishes only past the end or out of range, and is malformed only at a line without data field. */
  lemma {:induction false} LoadEnds(ex: Exchange, lines: seq<seq<char>>, i: nat, addr: nat, l: Line)
    ensures var r := LoadFrom(ex, lines, i, addr, l);
      && (r.stop == Finished ==> r.index >= |lines| || !InRange(lines[r.index]))
      && (r.stop == Malformed ==> r.index < |lines| && InRange(lines[r.index]) && Payload(lines[r.index]).None?)
    decreases |lines| - i
  {
    if i < |lines| {
      var t := Try(ex, lines[i], addr, l);
      if t.Tried? && GoesOn(t.pk) {
        LoadEnds(ex, lines, i + 1, addr + t.pk.len, t.after);
      }
    }
  }

  /** The loop went on past every packet but the last. */
  predicate AllGoOn(packets: seq<Packet>)
  {
    forall k :: 0 <= k < |packets| - 1 ==> GoesOn(packets[k])
  }

  /** The last packet stopped the loop: refused, or (when `silent`) sent and left unanswered. */
  predicate LastIs(packets: seq<Packet>, silent: bool)
  {
    |packets| > 0 && !GoesOn(packets[|packets| - 1]) && packets[|packets| - 1].reply.NotSent? != silent
  }

  lemma AllGoOnCons(pk: Packet, packets: seq<Packet>)
    requires GoesOn(pk) && AllGoOn(packets)
    ensures AllGoOn([pk] + packets)
  {
    var all := [pk] + packets;
    forall k | 0 <= k < |all| - 1 ensures GoesOn(all[k]) {
      if k > 0 {
        assert all[k] == packets[k - 1];
      }
    }
  }

  lemma LastCons(pk: Packet, packets: seq<Packet>)
    requires GoesOn(pk)
    ensures forall silent :: LastIs([pk] + packets, silent) == LastIs(packets, silent)
  {
    if |packets| > 0 {
      assert ([pk] + packets)[|packets|] == packets[|packets| - 1];
    }
  }

  /**
   * In `load` every packet is either refused or answered, since `receive`
   * always follows a good `send` of an `M` packet; so the load stalls
   * exactly when the last reply came with the line gone silent.
   */
  lemma PacketsAnswered(lines: seq<seq<char>>, base: nat, l: Line)
    ensures var r := LoadSpec(lines, base, l);
      && AllAnswered(r.packets)
      && (r.stop == Stalled <==> |r.packets| > 0 && r.packets[|r.packets| - 1].reply.Answer?
                                 && r.packets[|r.packets| - 1].reply.status == Hung)
  {
    forall l': Line, c: Command | Answered(c)
      ensures QuerySpec(l', c).1.NotSent? || QuerySpec(l', c).1.Answer?
    {
      AnsweredReply(l', c);
    }
    PacketsAnsweredFrom(QuerySpec, lines, FirstRecord(lines), base, l);
    LoadStops(QuerySpec, lines, FirstRecord(lines), base, l);
  }

  lemma {:induction false} PacketsAnsweredFrom(ex: Exchange, lines: seq<seq<char>>, i: nat, addr: nat, l: Line)
    requires forall l': Line, c: Command | Answered(c) :: ex(l', c).1.NotSent? || ex(l', c).1.Answer?
    ensures AllAnswered(LoadFrom(ex, lines, i, addr, l).packets)
    decreases |lines| - i
  {
    if i < |lines| {
      var t := Try(ex, lines[i], addr, l);
      if t.Tried? {
        TryExchange(ex, lines[i], addr, l);
        assert Answered(MemWrite(addr, t.pk.len, t.pk.payload));
        var rest := LoadFrom(ex, lines, i + 1, addr + t.pk.len, t.after);
        if GoesOn(t.pk) {
          assert LoadFrom(ex, lines, i, addr, l).packets == [t.pk] + rest.packets;
          PacketsAnsweredFrom(ex, lines, i + 1, addr + t.pk.len, t.after);
          AllAnsweredCons(t.pk, rest.packets);
        } else {
          assert LoadFrom(ex, lines, i, addr, l).packets == [t.pk] + [];
          AllAnsweredCons(t.pk, []);
        }
      }
    }
  }

  lemma AllAnsweredCons(pk: Packet, packets: seq<Packet>)
    requires pk.reply.NotSent? || pk.reply.Answer?
    requires AllAnswered(packets)
    ensures AllAnswered([pk] + packets)
  {
    var all := [pk] + packets;
    forall k | 0 <= k < |all| ensures all[k].reply.NotSent? || all[k].reply.Answer? {
      if k > 0 {
        assert all[k] == packets[k - 1];
      }
    }
  }

  /** Every packet was refused or answered. */
  predicate AllAnswered(packets: seq<Packet>)
  {
    forall k :: 0 <= k < |packets| ==> packets[k].reply.NotSent? || packets[k].reply.Answer?
  }

  /** A packet that went out was the `M` command for its line, and the exchange gave its reply. */
  lemma TryExchange(ex: Exchange, line: seq<char>, addr: nat, l: Line)
    requires Try(ex, line, addr, l).Tried?
    ensures var t := Try(ex, line, addr, l);
      (t.after, t.pk.reply) == ex(l, MemWrite(addr, t.pk.len, t.pk.payload))
  {
  }

  /** One turn of the record loop, at a line that exists. */
  lemma LoadStep(ex: Exchange, lines: seq<seq<char>>, i: nat, addr: nat, l: Line)
    requires i < |lines|
    ensures var r := LoadFrom(ex, lines, i, addr, l);
      match Try(ex, lines[i], addr, l)
      case OutOfRange => r.stop == Finished && r.line == l
      case NoDataField => r.stop == Malformed && r.line == l
      case Tried(pk, after) =>
        if GoesOn(pk) then SameEnd(r, LoadFrom(ex, lines, i + 1, addr + pk.len, after))
        else r.stop == (if pk.reply.NotSent? then SendFailed else Stalled) && r.line == after
  {
  }

  /** Two runs that end the same way on the same line. */
  predicate SameEnd(a: LoadRun, b: LoadRun)
  {
    a.stop == b.stop && a.line == b.line
  }

  /** The skip loop stops exactly at the first line of type at least 1. */
  lemma {:induction false} FirstRecordAt(lines: seq<seq<char>>, i: nat)
    requires i <= |lines|
    requires forall k :: 0 <= k < i ==> RecordType(lines[k]) < 1
    requires i < |lines| ==> RecordType(lines[i]) >= 1
    ensures FirstRecord(lines) == i
    decreases i
  {
    if i > 0 {
      assert RecordType(lines[0]) < 1;
      FirstRecordAt(lines[1..], i - 1);
    }
  }

  /**
   * `load` over the lines `fgets` returns, from base address `base`.
   * Reading the file stops at its end; `fgets` leaves the last line in the
   * buffer, but the loops test its result first.
   */
  method Load(board: Board, lines: seq<seq<char>>, base: nat) returns (stop: Stop)
    requires board.Valid()
    modifies board.port, board.status
    ensures var r := LoadSpec(lines, base, old(board.port.State()));
      stop == r.stop && board.port.State() == r.line
  {
    var i := 0;
    while i < |lines| && RecordType(lines[i]) < 1
      invariant i <= |lines|
      invariant forall k :: 0 <= k < i ==> RecordType(lines[k]) < 1
    {
      i := i + 1;
    }
    FirstRecordAt(lines, i);
    stop := RecordLoop(board, lines, i, base, QuerySpec);
  }

  /**
   * The record loop of `load` from line `i` on. It is proved for any
   * exchange `ex` that agrees with `QuerySpec`, so that the loop's proof
   * reasons about one turn at a time and never about a whole exchange.
   */
  method RecordLoop(board: Board, lines: seq<seq<char>>, i: nat, base: nat, ghost ex: Exchange) returns (stop: Stop)
    requires board.Valid() && i <= |lines|
    requires forall l: Line, c: Command {:trigger QuerySpec(l, c)} :: ex(l, c) == QuerySpec(l, c)
    modifies board.port, board.status
    ensures var r := LoadFrom(ex, lines, i, base, old(board.port.State()));
      stop == r.stop && board.port.State() == r.line
  {
    ghost var goal := LoadFrom(ex, lines, i, base, board.port.State());
    var addr, k := base, i;
    while k < |lines|
      invariant k <= |lines|
      invariant board.Valid()
      invariant SameEnd(goal, LoadFrom(ex, lines, k, addr, board.port.State()))
      decreases |lines| - k
    {
      var done, len;
      ghost var before := board.port.State();
      done, stop, len := LoadLine(board, lines[k], addr, ex);
      LoadStep(ex, lines, k, addr, before);
      if done {
        return;
      }
      addr := addr + len;
      k := k + 1;
    }
    stop := Finished;
  }

  /**
   * One turn of the record loop on `line`: either the loop ends here with
   * `stop`, or the packet of `len` bytes went out and the loop goes on.
   */
  method LoadLine(board: Board, line: seq<char>, addr: nat, ghost ex: Exchange) returns (done: bool, stop: Stop, len: nat)
    requires board.Valid()
    requires forall l: Line, c: Command {:trigger QuerySpec(l, c)} :: ex(l, c) == QuerySpec(l, c)
    modifies board.port, board.status
    ensures board.Valid()
    ensures var t := Try(ex, line, addr, old(board.port.State()));
      match t
      case OutOfRange => done && stop == Finished && unchanged(board.port)
      case NoDataField => done && stop == Malformed && unchanged(board.port)
      case Tried(pk, after) =>
        board.port.State() == after && len == pk.len
        && done == !GoesOn(pk)
        && (done ==> stop == if pk.reply.NotSent? then SendFailed else Stalled)
    ensures var t := Try(ex, line, addr, old(board.port.State()));
      !(t.Tried? && t.pk.reply.Answer?) ==> board.status[..] == old(board.status[..])
    ensures var t := Try(ex, line, addr, old(board.port.State()));
      t.Tried? && t.pk.reply.Answer? ==>
        HoldsReply(board.status[..], old(board.status[..]),
                   ReceiveSpec(SendSpec(old(board.port.State()), Render(MemWrite(addr, t.pk.len, t.pk.payload))).0).stored)
  {
    if !InRange(line) {
      return true, Finished, 0;
    }
    var pkt := ExtractPayload(line);
    if pkt.None? {
      return true, Malformed, 0;
    }
    len := PacketLength(pkt.value);
    var reply := Query(board, MemWrite(addr, len, pkt.value));
    if reply.NotSent? {
      return true, SendFailed, len;
    }
    if reply.Answer? && reply.status == Hung {
      return true, Stalled, len;
    }
    done, stop := false, Finished;
  }
}
