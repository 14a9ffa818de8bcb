/**
 * One exchange with the monitor, as `load`, `run`, `regdump`, `memdump`,
 * `reset`, `query_offsets` and the ROM-version query all do it: `send`
 * the command and, when that reports OK and the command is answered,
 * `receive` the reply. `run` does not wait for one.
 */
module Session {
  import opened Transport
  import opened Hex
  import opened Framing
  import opened Commands

  /**
   * What an exchange yields: the command was not sent (ERROR from `send`),
   * sent with no reply expected, or sent and answered with a status and the
   * reply as a C string (what the callers print or copy).
   */
  datatype Reply = NotSent | Sent | Answer(status: Status, text: seq<char>)

  /** `run` sends `c%lx` and waits for nothing; every other command is answered. */
  predicate Answered(c: Command)
  {
    !c.Continue?
  }

  function QuerySpec(l: Line, c: Command): (Line, Reply)
  {
    var s := SendSpec(l, Render(c));
    if !s.1 then (s.0, NotSent)
    else if !Answered(c) then (s.0, Sent)
    else
      var r := ReceiveSpec(s.0);
      (r.line, Answer(r.status, CString(r.stored)))
  }

  method Query(board: Board, c: Command) returns (reply: Reply)
    requires board.Valid()
    modifies board.port, board.status
    ensures (board.port.State(), reply) == QuerySpec(old(board.port.State()), c)
    ensures !reply.Answer? ==> board.status[..] == old(board.status[..])
    ensures reply.Answer? ==>
      HoldsReply(board.status[..], old(board.status[..]),
                 ReceiveSpec(SendSpec(old(board.port.State()), Render(c)).0).stored)
  {
    var ok := board.Send(Render(c));
    if !ok {
      return NotSent;
    }
    if !Answered(c) {
      return Sent;
    }
    ghost var l := board.port.State();
    var st := board.Receive();
    ghost var stored := ReceiveSpec(l).stored;
    CStringOfBuffer(board.status[..], stored);
    reply := Answer(st, CString(board.status[..]));
  }

  /**
   * An answered command is either refused or answered, never left without
   * a reply; `c` is never answered, and no byte of the line is read for it.
   */
  lemma AnsweredReply(l: Line, c: Command)
    ensures Answered(c) ==> QuerySpec(l, c).1.NotSent? || QuerySpec(l, c).1.Answer?
    ensures !Answered(c) ==> !QuerySpec(l, c).1.Answer? && QuerySpec(l, c).0.input == l.input
  {
  }

  /** A refused command is never followed by a read: the reply stays on the line. */
  lemma NoReceiveAfterFailedSend(l: Line, c: Command)
    requires !SendSpec(l, Render(c)).1
    ensures QuerySpec(l, c).1 == NotSent
    ensures QuerySpec(l, c).0.input == l.input
  {
  }

  /**
   * Against a line that takes every byte and answers with a well-formed
   * packet, the exchange sends the framed command, takes the reply whole,
   * acknowledges it with `$+#2b`, and reports it with OK.
   */
  lemma QueryLoopback(l: Line, c: Command, text: seq<char>, more: seq<ReadResult>)
    requires forall i :: 0 <= i < |l.accepts| ==> l.accepts[i]
    requires Answered(c) && |Render(c)| + 4 < MAXPKTERROR
    requires '#' !in text && '\0' !in text && |text| + 2 <= MAXRESPONSELEN
    requires l.input == AsReads(Frame(text)) + more
    ensures QuerySpec(l, c).1 == Answer(Ok, ['$'] + text + ['#'])
    ensures QuerySpec(l, c).0.output == l.output + Frame(Render(c)) + Frame("+")
    ensures QuerySpec(l, c).0.input == more
  {
    var cmd := Render(c);
    SendWithoutRejections(l, cmd);
    SendCounter(l, cmd);
    var l1 := SendSpec(l, cmd).0;
    assert forall i :: 0 <= i < |l1.accepts| ==> l1.accepts[i] by {
      forall i | 0 <= i < |l1.accepts| ensures l1.accepts[i] {
        assert l1.accepts[i] == l.accepts[|l.accepts| - |l1.accepts| + i];
      }
    }
    ReceiveFrame(l1, text, more);
    SendWithoutRejections(l1.(input := more), "+");
    var stored := ['$'] + text + ['#'];
    assert '\0' !in stored;
    CStringWhole(stored);
  }

  /** The ROM-version query goes out as `$qID#fe`. */
  lemma QueryIdFrame()
    ensures Frame(Render(QueryId)) == "$qID#fe"
  {
    CksumExamples();
  }
}
