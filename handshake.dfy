/**
 * `hint`: loading an S-record image through the CMON boot monitor's own
 * handshake instead of `M` packets. The loader greets the monitor, waits
 * for ENQ, answers `*`, waits for the magic `L`, `O`, `x`, then streams the
 * image one byte per echo; a `>` in place of an echo is the monitor's
 * prompt, after which the loader starts the program with ACK, `g` and two
 * newlines and hands the line over to the user.
 *
 * The nested read-until loops of the C function are modelled as a state
 * machine: `Step` takes one received byte to the next state and the bytes
 * to write, and the `Hint` method drives it over the serial line.
 */
module Handshake {
  import opened Transport

  /** The monitor's enquiry, and the acknowledgement that ends a transfer. */
  const ENQ: char := 5 as char
  const ACK: char := 6 as char

  /** What the loader writes before anything else: a file name line with the name `x`. */
  const Greeting: seq<char> := "l : x\n"

  /** The bytes scanned for, in this order, after the `*` answer. */
  const Magic: seq<char> := "LOx"

  /**
   * Where `hint` is waiting. `matched` counts the magic bytes seen so far;
   * `sent` is the image byte whose echo is awaited.
   */
  datatype Phase =
    | AwaitEnq
    | AwaitMagic(matched: nat)
    | AwaitEcho(sent: char)
    | AwaitPrompt
    | AwaitGo
    | AwaitNewline
    | HandedOff

  /** The phase, and how many image bytes `fgetc` has handed out so far. */
  datatype HintState = HintState(phase: Phase, next: nat)

  const Start: HintState := HintState(AwaitEnq, 0)

  /**
   * The next turn of the image loop: the next byte of the file is written
   * and its echo awaited; at the end of the file control goes back to
   * waiting for ENQ, and the file stays at its end.
   */
  function StartNext(image: seq<char>, next: nat): (HintState, seq<char>)
  {
    if next < |image| then (HintState(AwaitEcho(image[next]), next + 1), [image[next]])
    else (HintState(AwaitEnq, next), [])
  }

  /** One received byte: the next state, and the bytes written in answer. */
  function Step(image: seq<char>, s: HintState, b: char): (HintState, seq<char>)
  {
    match s.phase
    case AwaitEnq =>
      if b == ENQ then (s.(phase := AwaitMagic(0)), ['*']) else (s, [])
    case AwaitMagic(k) =>
      if k < |Magic| && b == Magic[k] then
        if k + 1 == |Magic| then StartNext(image, s.next) else (s.(phase := AwaitMagic(k + 1)), [])
      else (s, [])
    case AwaitEcho(c) =>
      if b == c then StartNext(image, s.next)
      else if b == '>' then (s.(phase := AwaitPrompt), [ACK, '\n'])
      else (s, [])
    case AwaitPrompt =>
      if b == '>' then (s.(phase := AwaitGo), ['g']) else (s, [])
    case AwaitGo =>
      if b == 'g' then (s.(phase := AwaitNewline), ['\n']) else (s, [])
    case AwaitNewline =>
      if b == '\n' then (s.(phase := HandedOff), []) else (s, [])
    case HandedOff => (s, [])
  }

  /** The machine over a run of received bytes: the final state and everything it wrote. */
  function Run(image: seq<char>, s: HintState, bs: seq<char>): (HintState, seq<char>)
    decreases |bs|
  {
    if bs == [] then (s, [])
    else
      var st := Step(image, s, bs[0]);
      var r := Run(image, st.0, bs[1..]);
      (r.0, st.1 + r.1)
  }

  /**
   * What holds of every reachable state: the file position is within the
   * image, the byte awaited as echo is the last one handed out, and fewer
   * than all magic bytes have been matched while scanning.
   */
  predicate Inv(image: seq<char>, s: HintState)
  {
    && s.next <= |image|
    && (s.phase.AwaitEcho? ==> 0 < s.next && s.phase.sent == image[s.next - 1])
    && (s.phase.AwaitMagic? ==> s.phase.matched < |Magic|)
  }

  lemma {:induction false} StepInv(image: seq<char>, s: HintState, b: char)
    requires Inv(image, s)
    ensures Inv(image, Step(image, s, b).0)
  {
  }

  /** Every state the machine reaches from a good state is good. */
  lemma {:induction false} RunInv(image: seq<char>, s: HintState, bs: seq<char>)
    requires Inv(image, s)
    ensures Inv(image, Run(image, s, bs).0)
    decreases |bs|
  {
    if bs != [] {
      StepInv(image, s, bs[0]);
      RunInv(image, Step(image, s, bs[0]).0, bs[1..]);
    }
  }

  /** `Run` over a non-empty run of bytes: the first byte's step, then the rest. */
  lemma {:induction false} RunUnfold(image: seq<char>, s: HintState, bs: seq<char>)
    requires bs != []
    ensures var st := Step(image, s, bs[0]);
      var r := Run(image, st.0, bs[1..]);
      Run(image, s, bs) == (r.0, st.1 + r.1)
  {
  }

  /** `Run` over a single byte is that byte's step. */
  lemma {:induction false} RunOne(image: seq<char>, s: HintState, b: char)
    ensures Run(image, s, [b]) == Step(image, s, b)
  {
    RunUnfold(image, s, [b]);
    assert [b][1..] == [];
    assert Step(image, s, b).1 + [] == Step(image, s, b).1;
  }

  /** Two runs of bytes in turn are their concatenation. */
  lemma {:induction false} RunAppend(image: seq<char>, s: HintState, a: seq<char>, b: seq<char>)
    ensures var ra := Run(image, s, a);
      var rb := Run(image, ra.0, b);
      Run(image, s, a + b) == (rb.0, ra.1 + rb.1)
    decreases |a|
  {
    if a == [] {
      assert a + b == b;
      assert [] + Run(image, s, b).1 == Run(image, s, b).1;
    } else {
      var st := Step(image, s, a[0]);
      assert (a + b)[0] == a[0] && (a + b)[1..] == a[1..] + b;
      RunUnfold(image, s, a);
      RunUnfold(image, s, a + b);
      RunAppend(image, st.0, a[1..], b);
      var ra' := Run(image, st.0, a[1..]);
      var rb := Run(image, ra'.0, b);
      assert st.1 + (ra'.1 + rb.1) == st.1 + ra'.1 + rb.1;
    }
  }

  /** Bytes that the current state ignores leave it in place and make it write nothing. */
  lemma {:induction false} Idle(image: seq<char>, s: HintState, bs: seq<char>)
    requires forall i :: 0 <= i < |bs| ==> Step(image, s, bs[i]) == (s, [])
    ensures Run(image, s, bs) == (s, [])
    decreases |bs|
  {
    if bs != [] {
      assert Step(image, s, bs[0]) == (s, []);
      RunUnfold(image, s, bs);
      Idle(image, s, bs[1..]);
      assert Step(image, s, bs[0]).1 + [] == [];
    }
  }

  /** Until an ENQ arrives, nothing is written and the machine keeps waiting. */
  lemma {:induction false} NothingBeforeEnq(image: seq<char>, n: nat, bs: seq<char>)
    requires ENQ !in bs
    ensures Run(image, HintState(AwaitEnq, n), bs) == (HintState(AwaitEnq, n), [])
  {
    Idle(image, HintState(AwaitEnq, n), bs);
  }

  /** An ENQ is answered with `*` and starts the scan for the magic bytes. */
  lemma {:induction false} EnqAnswered(image: seq<char>, n: nat)
    ensures Step(image, HintState(AwaitEnq, n), ENQ) == (HintState(AwaitMagic(0), n), ['*'])
  {
  }

  /**
   * How far the scan for `L`, `O`, `x` gets through some bytes, from
   * `k` bytes already matched: each magic byte is looked for only after
   * the one before it was seen, and other bytes are dropped.
   */
  function Scan(k: nat, bs: seq<char>): (r: nat)
    requires k <= |Magic|
    ensures k <= r <= |Magic|
    decreases |bs|
  {
    if bs == [] || k == |Magic| then k
    else Scan(if bs[0] == Magic[k] then k + 1 else k, bs[1..])
  }

  /** `L`, `O` and `x` occur in this order among the bytes. */
  predicate MagicIn(bs: seq<char>)
  {
    exists i, j, k :: 0 <= i < j < k < |bs| && bs[i] == 'L' && bs[j] == 'O' && bs[k] == 'x'
  }

  /** The bytes hold the magic bytes from position `k` on, in order. */
  predicate MagicFrom(k: nat, bs: seq<char>)
    requires k <= |Magic|
  {
    match k
    case 0 => MagicIn(bs)
    case 1 => exists j, m :: 0 <= j < m < |bs| && bs[j] == 'O' && bs[m] == 'x'
    case 2 => exists m :: 0 <= m < |bs| && bs[m] == 'x'
    case _ => true
  }

  /** The scan completes exactly when the rest of the magic bytes occur in order. */
  lemma {:induction false} ScanComplete(k: nat, bs: seq<char>)
    requires k <= |Magic|
    ensures Scan(k, bs) == |Magic| <==> MagicFrom(k, bs)
    decreases |bs|
  {
    if bs == [] || k == |Magic| {
    } else {
      var k' := if bs[0] == Magic[k] then k + 1 else k;
      ScanComplete(k', bs[1..]);
      MagicStep(k, bs);
    }
  }

  /** The magic condition after one byte, in terms of the condition on the rest. */
  lemma {:induction false} MagicStep(k: nat, bs: seq<char>)
    requires k < |Magic| && bs != []
    ensures MagicFrom(k, bs) <==> MagicFrom(if bs[0] == Magic[k] then k + 1 else k, bs[1..])
  {
    var rest := bs[1..];
    if k == 0 {
      if MagicIn(bs) {
        var i, j, m :| 0 <= i < j < m < |bs| && bs[i] == 'L' && bs[j] == 'O' && bs[m] == 'x';
        if bs[0] == 'L' {
          assert rest[j - 1] == 'O' && rest[m - 1] == 'x';
        } else {
          assert rest[i - 1] == 'L' && rest[j - 1] == 'O' && rest[m - 1] == 'x';
        }
      }
      if bs[0] == 'L' {
        if MagicFrom(1, rest) {
          var j, m :| 0 <= j < m < |rest| && rest[j] == 'O' && rest[m] == 'x';
          assert bs[0] == 'L' && bs[j + 1] == 'O' && bs[m + 1] == 'x';
        }
      } else if MagicIn(rest) {
        var i, j, m :| 0 <= i < j < m < |rest| && rest[i] == 'L' && rest[j] == 'O' && rest[m] == 'x';
        assert bs[i + 1] == 'L' && bs[j + 1] == 'O' && bs[m + 1] == 'x';
      }
    } else if k == 1 {
      if MagicFrom(1, bs) {
        var j, m :| 0 <= j < m < |bs| && bs[j] == 'O' && bs[m] == 'x';
        if bs[0] == 'O' {
          assert rest[m - 1] == 'x';
        } else {
          assert rest[j - 1] == 'O' && rest[m - 1] == 'x';
        }
      }
      if bs[0] == 'O' {
        if MagicFrom(2, rest) {
          var m :| 0 <= m < |rest| && rest[m] == 'x';
          assert bs[0] == 'O' && bs[m + 1] == 'x';
        }
      } else if MagicFrom(1, rest) {
        var j, m :| 0 <= j < m < |rest| && rest[j] == 'O' && rest[m] == 'x';
        assert bs[j + 1] == 'O' && bs[m + 1] == 'x';
      }
    } else {
      if MagicFrom(2, bs) && bs[0] != 'x' {
        var m :| 0 <= m < |bs| && bs[m] == 'x';
        assert rest[m - 1] == 'x';
      }
      if bs[0] != 'x' && MagicFrom(2, rest) {
        var m :| 0 <= m < |rest| && rest[m] == 'x';
        assert bs[m + 1] == 'x';
      }
    }
  }

  /**
   * While the magic bytes have not all been seen in order, the scan only
   * advances: nothing is written and no image byte goes out.
   */
  lemma {:induction false} MagicScan(image: seq<char>, k: nat, n: nat, bs: seq<char>)
    requires k < |Magic| && Scan(k, bs) < |Magic|
    ensures Run(image, HintState(AwaitMagic(k), n), bs) == (HintState(AwaitMagic(Scan(k, bs)), n), [])
    decreases |bs|
  {
    if bs != [] {
      var k' := if bs[0] == Magic[k] then k + 1 else k;
      assert Scan(k, bs) == Scan(k', bs[1..]);
      RunUnfold(image, HintState(AwaitMagic(k), n), bs);
      assert Step(image, HintState(AwaitMagic(k), n), bs[0]) == (HintState(AwaitMagic(k'), n), []);
      MagicScan(image, k', n, bs[1..]);
      var none: seq<char> := [];
      assert none + none == none;
    }
  }

  /** The byte that completes the magic starts the image: its first byte goes out. */
  lemma {:induction false} MagicThenImage(image: seq<char>, n: nat, bs: seq<char>)
    requires Scan(0, bs) == |Magic| - 1
    ensures Run(image, HintState(AwaitMagic(0), n), bs + ['x']) == StartNext(image, n)
  {
    var s2 := HintState(AwaitMagic(2), n);
    MagicScan(image, 0, n, bs);
    RunAppend(image, HintState(AwaitMagic(0), n), bs, ['x']);
    RunOne(image, s2, 'x');
    assert Step(image, s2, 'x') == StartNext(image, n);
    assert [] + StartNext(image, n).1 == StartNext(image, n).1;
  }

  /** The magic bytes themselves, right after the `*`. */
  lemma {:induction false} MagicRun(image: seq<char>, n: nat)
    ensures Run(image, HintState(AwaitMagic(0), n), Magic) == StartNext(image, n)
  {
    var lo := Magic[..2];
    assert lo == ['L'] + ['O'];
    assert Scan(0, lo) == Scan(1, ['O']) == Scan(2, []) == 2;
    MagicThenImage(image, n, lo);
    assert lo + ['x'] == Magic;
  }

  /**
   * While the awaited echo and the prompt stay away, the loader writes
   * nothing: image byte k + 1 goes out only after byte k came back.
   */
  lemma {:induction false} EchoWait(image: seq<char>, c: char, n: nat, bs: seq<char>)
    requires c !in bs && '>' !in bs
    ensures Run(image, HintState(AwaitEcho(c), n), bs) == (HintState(AwaitEcho(c), n), [])
  {
    Idle(image, HintState(AwaitEcho(c), n), bs);
  }

  /**
   * A monitor that echoes every byte gets the rest of the image, byte by
   * byte, and at the end of the image the loader waits for ENQ again.
   */
  lemma {:induction false} PerfectEcho(image: seq<char>, n: nat)
    requires 0 < n <= |image|
    ensures Run(image, HintState(AwaitEcho(image[n - 1]), n), image[n - 1..]) == (HintState(AwaitEnq, |image|), image[n..])
    decreases |image| - n
  {
    var s := HintState(AwaitEcho(image[n - 1]), n);
    assert image[n - 1..][0] == image[n - 1] && image[n - 1..][1..] == image[n..];
    RunUnfold(image, s, image[n - 1..]);
    assert Step(image, s, image[n - 1]) == StartNext(image, n);
    var sn := StartNext(image, n);
    if n < |image| {
      assert sn == (HintState(AwaitEcho(image[n]), n + 1), [image[n]]);
      PerfectEcho(image, n + 1);
      assert Run(image, sn.0, image[n..]) == (HintState(AwaitEnq, |image|), image[n + 1..]);
      assert image[n..] == [image[n]] + image[n + 1..];
    } else {
      assert image[n..] == [];
      assert sn.1 + [] == image[n..];
    }
  }

  /** An ENQ followed by the magic bytes: `*`, then the next image byte if there is one. */
  lemma {:induction false} EnqMagic(image: seq<char>, n: nat)
    ensures var sn := StartNext(image, n);
      Run(image, HintState(AwaitEnq, n), [ENQ] + Magic) == (sn.0, ['*'] + sn.1)
  {
    var s0 := HintState(AwaitEnq, n);
    RunOne(image, s0, ENQ);
    MagicRun(image, n);
    RunAppend(image, s0, [ENQ], Magic);
  }

  /**
   * The whole transfer: after the ENQ and the magic bytes, a monitor that
   * echoes every byte has received `*` and then the image, and the loader
   * waits for the next ENQ.
   */
  lemma {:induction false} Transfer(image: seq<char>)
    requires image != []
    ensures Run(image, Start, [ENQ] + Magic + image) == (HintState(AwaitEnq, |image|), ['*'] + image)
  {
    var s2 := HintState(AwaitEcho(image[0]), 1);
    var head := [ENQ] + Magic;
    EnqMagic(image, 0);
    assert Run(image, Start, head) == (s2, ['*'] + [image[0]]);
    PerfectEcho(image, 1);
    assert image[0..] == image;
    RunAppend(image, Start, head, image);
    assert ['*'] + [image[0]] + image[1..] == ['*'] + image;
  }

  /** Once the image is exhausted, another ENQ and magic get only `*`: the file stays at its end. */
  lemma {:induction false} ImageExhausted(image: seq<char>)
    ensures Run(image, HintState(AwaitEnq, |image|), [ENQ] + Magic) == (HintState(AwaitEnq, |image|), ['*'])
  {
    EnqMagic(image, |image|);
    assert ['*'] + [] == ['*'];
  }

  /**
   * The handoff: a `>` in place of an echo is answered with ACK and a
   * newline; then `g` only after the next `>`, a newline only after the
   * `g` came back, and the line is handed over at the next newline. The
   * first three ensures pin each wait: up to the awaited byte nothing more
   * is written.
   */
  lemma {:induction false} Handoff(image: seq<char>, c: char, n: nat, p1: seq<char>, p2: seq<char>, p3: seq<char>)
    requires c != '>' && '>' !in p1 && 'g' !in p2 && '\n' !in p3
    ensures Run(image, HintState(AwaitEcho(c), n), ['>'] + p1)
         == (HintState(AwaitPrompt, n), [ACK, '\n'])
    ensures Run(image, HintState(AwaitEcho(c), n), ['>'] + (p1 + ['>']) + p2)
         == (HintState(AwaitGo, n), [ACK, '\n', 'g'])
    ensures Run(image, HintState(AwaitEcho(c), n), ['>'] + (p1 + ['>']) + (p2 + ['g']) + p3)
         == (HintState(AwaitNewline, n), [ACK, '\n', 'g', '\n'])
    ensures Run(image, HintState(AwaitEcho(c), n), ['>'] + (p1 + ['>']) + (p2 + ['g']) + (p3 + ['\n']))
         == (HintState(HandedOff, n), [ACK, '\n', 'g', '\n'])
  {
    var s0 := HintState(AwaitEcho(c), n);
    var s1, s2, s3 := s0.(phase := AwaitPrompt), s0.(phase := AwaitGo), s0.(phase := AwaitNewline);
    var s4 := s0.(phase := HandedOff);
    RunOne(image, s0, '>');
    WaitThen(image, s1, p1, '>', s2, ['g']);
    WaitThen(image, s2, p2, 'g', s3, ['\n']);
    WaitThen(image, s3, p3, '\n', s4, []);
    var x0, x1, x2, x3 := ['>'], p1 + ['>'], p2 + ['g'], p3 + ['\n'];
    var o1, o2, o3 := [ACK, '\n'], [ACK, '\n', 'g'], [ACK, '\n', 'g', '\n'];
    assert o1 + ['g'] == o2 && o2 + ['\n'] == o3 && o3 + [] == o3;
    assert o1 + [] == o1 && o2 + [] == o2;
    RunChain(image, s0, x0, x1, s1, o1, s2, ['g']);
    RunChain(image, s0, x0 + x1, x2, s2, o2, s3, ['\n']);
    RunChain(image, s0, x0 + x1 + x2, x3, s3, o3, s4, []);
    Idle(image, s1, p1);
    Idle(image, s2, p2);
    Idle(image, s3, p3);
    RunChain(image, s0, x0, p1, s1, o1, s1, []);
    RunChain(image, s0, x0 + x1, p2, s2, o2, s2, []);
    RunChain(image, s0, x0 + x1 + x2, p3, s3, o3, s3, []);
  }

  /** Two runs whose results are known, one after the other. */
  lemma {:induction false} RunChain(image: seq<char>, s: HintState, a: seq<char>, b: seq<char>,
                                    t: HintState, o1: seq<char>, u: HintState, o2: seq<char>)
    requires Run(image, s, a) == (t, o1) && Run(image, t, b) == (u, o2)
    ensures Run(image, s, a + b) == (u, o1 + o2)
  {
    RunAppend(image, s, a, b);
  }

  /**
   * A wait: bytes other than `w` are ignored in `s`, and `w` moves `s` on
   * to `u` writing `out`.
   */
  lemma {:induction false} WaitThen(image: seq<char>, s: HintState, p: seq<char>, w: char, u: HintState, out: seq<char>)
    requires forall i :: 0 <= i < |p| ==> Step(image, s, p[i]) == (s, [])
    requires Step(image, s, w) == (u, out)
    ensures Run(image, s, p + [w]) == (u, out)
  {
    Idle(image, s, p);
    RunOne(image, s, w);
    RunAppend(image, s, p, [w]);
    assert [] + out == out;
  }

  /** After the handoff the machine neither moves nor writes. */
  lemma {:induction false} HandedOffStays(image: seq<char>, n: nat, bs: seq<char>)
    ensures Run(image, HintState(HandedOff, n), bs) == (HintState(HandedOff, n), [])
  {
    Idle(image, HintState(HandedOff, n), bs);
  }

  /**
   * Writes whose result `hint` ignores: one attempt per byte; a byte the
   * line refuses is lost.
   */
  function Emit(l: Line, bs: seq<char>): (r: Line)
    ensures r.input == l.input
    decreases |bs|
  {
    if bs == [] then l else Emit(WriteOnce(l, bs[0]).0, bs[1..])
  }

  /** The line takes every write attempt. */
  predicate TakesAll(l: Line)
  {
    forall i :: 0 <= i < |l.accepts| ==> l.accepts[i]
  }

  /** On a line that takes every write, the ignored writes lose nothing. */
  lemma {:induction false} EmitTaken(l: Line, bs: seq<char>)
    requires TakesAll(l)
    ensures Emit(l, bs).output == l.output + bs && TakesAll(Emit(l, bs))
    decreases |bs|
  {
    if bs != [] {
      var l1 := WriteOnce(l, bs[0]).0;
      assert l1.output == l.output + [bs[0]];
      assert TakesAll(l1) by {
        if l.accepts != [] {
          assert forall i :: 0 <= i < |l1.accepts| ==> l1.accepts[i] == l.accepts[i + 1];
        }
      }
      EmitTaken(l1, bs[1..]);
      assert l.output + [bs[0]] + bs[1..] == l.output + bs;
    }
  }

  /** What came of `hint`: the line at the end, and where the machine stopped. */
  datatype HintResult = HintResult(line: Line, state: HintState)

  /**
   * The read loop: empty polls are skipped, each byte goes through `Step`
   * and its answer is written. It ends at the handoff, or when the line has
   * fallen silent for good, where the C loop would poll forever.
   */
  function Drive(image: seq<char>, l: Line, s: HintState): HintResult
    decreases |l.input|
  {
    if s.phase.HandedOff? || l.input == [] then HintResult(l, s)
    else
      var rest := l.(input := l.input[1..]);
      match l.input[0]
      case NoData => Drive(image, rest, s)
      case Byte(b) =>
        var st := Step(image, s, b);
        Drive(image, Emit(rest, st.1), st.0)
  }

  /** `hint` from the greeting on. */
  function HintSpec(image: seq<char>, l: Line): HintResult
  {
    Drive(image, Emit(l, Greeting), Start)
  }

  /**
   * On a line that takes every write, the loader writes exactly what the
   * machine answers to the bytes the line delivers, and stops in the
   * machine's final state.
   */
  lemma {:induction false} DriveRun(image: seq<char>, l: Line, s: HintState)
    requires TakesAll(l)
    ensures var d := Drive(image, l, s);
      var r := Run(image, s, Data(l.input));
      d.line.output == l.output + r.1 && d.state == r.0
    decreases |l.input|
  {
    if s.phase.HandedOff? {
      HandedOffStays(image, s.next, Data(l.input));
      assert s == HintState(HandedOff, s.next);
    } else if l.input != [] {
      var rest := l.(input := l.input[1..]);
      assert TakesAll(rest);
      match l.input[0]
      case NoData =>
        DriveRun(image, rest, s);
      case Byte(b) =>
        var st := Step(image, s, b);
        var e := Emit(rest, st.1);
        EmitTaken(rest, st.1);
        DriveRun(image, e, st.0);
        DriveRunByte(image, l, s, b);
    }
  }

  /** The byte case of `DriveRun`, from the fact for the line after the byte's answer. */
  lemma {:induction false} DriveRunByte(image: seq<char>, l: Line, s: HintState, b: char)
    requires !s.phase.HandedOff? && l.input != [] && l.input[0] == Byte(b)
    requires var rest := l.(input := l.input[1..]);
      var st := Step(image, s, b);
      var e := Emit(rest, st.1);
      var d := Drive(image, e, st.0);
      var r := Run(image, st.0, Data(e.input));
      e.output == l.output + st.1 && d.line.output == e.output + r.1 && d.state == r.0
    ensures var d := Drive(image, l, s);
      var r := Run(image, s, Data(l.input));
      d.line.output == l.output + r.1 && d.state == r.0
  {
    var st := Step(image, s, b);
    var r := Run(image, st.0, Data(l.input[1..]));
    DriveByte(image, l, s, b);
    assert l.output + st.1 + r.1 == l.output + (st.1 + r.1);
  }

  /** A received byte, in `Drive` and in `Run`. */
  lemma {:induction false} DriveByte(image: seq<char>, l: Line, s: HintState, b: char)
    requires !s.phase.HandedOff? && l.input != [] && l.input[0] == Byte(b)
    ensures var rest := l.(input := l.input[1..]);
      var st := Step(image, s, b);
      var r := Run(image, st.0, Data(rest.input));
      && Drive(image, l, s) == Drive(image, Emit(rest, st.1), st.0)
      && Run(image, s, Data(l.input)) == (r.0, st.1 + r.1)
  {
    var bs := Data(l.input);
    assert bs == [b] + Data(l.input[1..]);
    assert bs[0] == b && bs[1..] == Data(l.input[1..]);
    RunUnfold(image, s, bs);
  }

  /**
   * `hint` on a line that takes every write: the greeting, then the
   * machine's answers to every byte delivered, and nothing else.
   */
  lemma {:induction false} HintOutput(image: seq<char>, l: Line)
    requires TakesAll(l)
    ensures var h := HintSpec(image, l);
      var r := Run(image, Start, Data(l.input));
      h.line.output == l.output + Greeting + r.1 && h.state == r.0
  {
    EmitTaken(l, Greeting);
    DriveRun(image, Emit(l, Greeting), Start);
  }

  /** Before any ENQ, `hint` writes its greeting and nothing more. */
  lemma {:induction false} GreetingOnly(image: seq<char>, l: Line)
    requires TakesAll(l) && ENQ !in Data(l.input)
    ensures HintSpec(image, l).line.output == l.output + Greeting
    ensures HintSpec(image, l).state == Start
  {
    HintOutput(image, l);
    NothingBeforeEnq(image, 0, Data(l.input));
  }

  /** `write(board->com, &c, 1)` for each byte in turn, the result ignored. */
  method WriteEach(port: Port, bs: seq<char>)
    modifies port
    ensures port.State() == Emit(old(port.State()), bs)
  {
    var k := 0;
    while k < |bs|
      invariant k <= |bs|
      invariant Emit(old(port.State()), bs) == Emit(port.State(), bs[k..])
    {
      assert bs[k..][0] == bs[k] && bs[k..][1..] == bs[k + 1..];
      var taken := port.Write(bs[k]);
      k := k + 1;
    }
  }

  /**
   * `hint` from the greeting up to the handoff, over an image already read
   * from the file. Returns the state it stopped in: `HandedOff`, or any
   * other phase when the line fell silent first.
   */
  method Hint(port: Port, image: seq<char>) returns (s: HintState)
    modifies port
    ensures HintResult(port.State(), s) == HintSpec(image, old(port.State()))
  {
    WriteEach(port, Greeting);
    s := Start;
    while !s.phase.HandedOff? && !port.Silent()
      invariant Drive(image, port.State(), s) == HintSpec(image, old(port.State()))
      decreases |port.input|
    {
      var r := port.Read();
      if r.Byte? {
        var st := Step(image, s, r.b);
        WriteEach(port, st.1);
        s := st.0;
      }
    }
  }
}
