/**
 * The checksummed packet protocol of the board's boot monitor (`send` and
 * `receive`): `$<command>#<checksum>` goes out byte by byte under a shared
 * attempt counter; a reply is read up to its `#`, its two checksum
 * characters are read and dropped, and a reply that held the `#` is
 * acknowledged.
 */
module Framing {
  import opened Opt
  import opened Hex
  import opened Transport

  /** Ceiling of the attempt counters of `send` and `receive`. */
  const MAXPKTERROR: nat := 65535
  /** Longest reply `receive` stores. */
  const MAXRESPONSELEN: nat := 1024

  /** What `send` and `receive` report; `Hung` marks where the C loop would wait forever. */
  datatype Status = Ok | Error | Hung

  /** The packet `send` writes for a command. */
  function Frame(cmd: seq<char>): seq<char>
  {
    ['$'] + cmd + ['#'] + Cksum(cmd)
  }

  /** `after` is what is left of `before` once a prefix has been used up. */
  predicate Suffix<T(==)>(after: seq<T>, before: seq<T>)
  {
    |after| <= |before| && after == before[|before| - |after|..]
  }

  /** The prefix of `before` that was used up to leave `after`. */
  function Consumed<T>(before: seq<T>, after: seq<T>): seq<T>
    requires |after| <= |before|
  {
    before[..|before| - |after|]
  }

  /** The refused attempts in a run of write outcomes. */
  function Rejections(ws: seq<bool>): nat
  {
    if ws == [] then 0 else (if ws[0] then 0 else 1) + Rejections(ws[1..])
  }

  lemma {:induction false} RejectionsAppend(a: seq<bool>, b: seq<bool>)
    ensures Rejections(a + b) == Rejections(a) + Rejections(b)
    decreases |a|
  {
    if a == [] {
      assert a + b == b;
    } else {
      assert (a + b)[0] == a[0] && (a + b)[1..] == a[1..] + b;
      RejectionsAppend(a[1..], b);
    }
  }

  lemma {:induction false} NoRejections(ws: seq<bool>)
    requires forall i :: 0 <= i < |ws| ==> ws[i]
    ensures Rejections(ws) == 0
    decreases |ws|
  {
    if ws != [] {
      NoRejections(ws[1..]);
    }
  }

  /** Using up a script in two steps uses up their concatenation. */
  lemma ConsumedTwice(a: seq<bool>, b: seq<bool>, c: seq<bool>)
    requires Suffix(b, a) && Suffix(c, b)
    ensures Suffix(c, a)
    ensures Rejections(Consumed(a, c)) == Rejections(Consumed(a, b)) + Rejections(Consumed(b, c))
  {
    assert Consumed(a, c) == Consumed(a, b) + Consumed(b, c);
    RejectionsAppend(Consumed(a, b), Consumed(b, c));
  }

  /**
   * One byte through `do { n = write(...); timeout++; } while (n != 1)`:
   * the line once the byte is taken, and the attempts that took.
   */
  function Offer(l: Line, c: char): (Line, nat)
    decreases |l.accepts|
  {
    var w := WriteOnce(l, c);
    if w.1 then (w.0, 1)
    else var o := Offer(w.0, c); (o.0, o.1 + 1)
  }

  /** The byte is taken once; every refused attempt before it is counted. */
  lemma {:induction false} OfferFacts(l: Line, c: char)
    ensures var o := Offer(l, c);
      && o.0.input == l.input && o.0.output == l.output + [c]
      && Suffix(o.0.accepts, l.accepts)
      && o.1 == 1 + Rejections(Consumed(l.accepts, o.0.accepts))
    decreases |l.accepts|
  {
    var w := WriteOnce(l, c);
    if w.1 {
      assert l.accepts != [] ==> Consumed(l.accepts, w.0.accepts) == [true];
    } else {
      OfferFacts(w.0, c);
      var o := Offer(w.0, c);
      assert Consumed(l.accepts, o.0.accepts) == [false] + Consumed(w.0.accepts, o.0.accepts);
    }
  }

  /**
   * One of `send`'s four loops: the bytes of `s` go out, each retried until
   * taken, while the shared counter is below the ceiling. C stops at the
   * first NUL; the strings the model sends hold none.
   */
  function Put(l: Line, s: seq<char>, count: nat): (Line, nat)
    decreases |s|
  {
    if s == [] || count >= MAXPKTERROR then (l, count)
    else
      var o := Offer(l, s[0]);
      Put(o.0, s[1..], count + o.1)
  }

  /**
   * What one of `send`'s loops does: the line takes a prefix of `s`; the
   * counter grows by one per attempt, taken or refused; a byte is left out
   * only once the counter has reached the ceiling, and none is started
   * after that.
   */
  lemma PutFacts(l: Line, s: seq<char>, count: nat)
    ensures var r := Put(l, s, count);
      && r.0.input == l.input
      && |l.output| <= |r.0.output| <= |l.output| + |s|
      && r.0.output == l.output + s[..|r.0.output| - |l.output|]
      && Suffix(r.0.accepts, l.accepts)
      && r.1 == count + (|r.0.output| - |l.output|) + Rejections(Consumed(l.accepts, r.0.accepts))
      && (|r.0.output| < |l.output| + |s| ==> r.1 >= MAXPKTERROR)
      && (count >= MAXPKTERROR ==> r == (l, count))
  {
    PutOutput(l, s, count);
    PutCount(l, s, count);
  }

  /** The line takes a prefix of `s`, and nothing once the counter is at the ceiling. */
  lemma {:induction false} PutOutput(l: Line, s: seq<char>, count: nat)
    ensures var r := Put(l, s, count);
      && r.0.input == l.input
      && |l.output| <= |r.0.output| <= |l.output| + |s|
      && r.0.output == l.output + s[..|r.0.output| - |l.output|]
      && (count >= MAXPKTERROR ==> r == (l, count))
    decreases |s|
  {
    if s != [] && count < MAXPKTERROR {
      OfferFacts(l, s[0]);
      var o := Offer(l, s[0]);
      PutOutput(o.0, s[1..], count + o.1);
      PutUnfold(l, s, count);
      PutStep(l, s, o.0, Put(o.0, s[1..], count + o.1).0);
    }
  }

  /** Every attempt counts once, and a byte is left out only at the ceiling. */
  lemma {:induction false} PutCount(l: Line, s: seq<char>, count: nat)
    ensures var r := Put(l, s, count);
      && Suffix(r.0.accepts, l.accepts)
      && |l.output| <= |r.0.output|
      && r.1 == count + (|r.0.output| - |l.output|) + Rejections(Consumed(l.accepts, r.0.accepts))
      && (|r.0.output| < |l.output| + |s| ==> r.1 >= MAXPKTERROR)
    decreases |s|
  {
    if s == [] || count >= MAXPKTERROR {
      assert Consumed(l.accepts, l.accepts) == [];
    } else {
      OfferFacts(l, s[0]);
      var o := Offer(l, s[0]);
      PutCount(o.0, s[1..], count + o.1);
      PutUnfold(l, s, count);
      ConsumedTwice(l.accepts, o.0.accepts, Put(o.0, s[1..], count + o.1).0.accepts);
    }
  }

  /** One byte offered, then the rest. */
  lemma PutUnfold(l: Line, s: seq<char>, count: nat)
    requires s != [] && count < MAXPKTERROR
    ensures Put(l, s, count) == Put(Offer(l, s[0]).0, s[1..], count + Offer(l, s[0]).1)
  {
  }

  /** The output of one byte followed by the output of the rest. */
  lemma PutStep(l: Line, s: seq<char>, l1: Line, l2: Line)
    requires s != []
    requires l1.output == l.output + [s[0]]
    requires |l1.output| <= |l2.output| <= |l1.output| + |s| - 1
    requires l2.output == l1.output + s[1..][..|l2.output| - |l1.output|]
    ensures |l.output| <= |l2.output| <= |l.output| + |s|
    ensures l2.output == l.output + s[..|l2.output| - |l.output|]
  {
    var k := |l2.output| - |l1.output|;
    assert [s[0]] + s[1..][..k] == s[..k + 1];
  }

  /**
   * `send`: the whole frame under one counter. What the line took is a
   * prefix of the frame; OK means the counter stayed below the ceiling,
   * and then the whole frame went out.
   */
  function SendSpec(l: Line, cmd: seq<char>): (r: (Line, bool))
    ensures r.0.input == l.input
    ensures |l.output| <= |r.0.output| <= |l.output| + |Frame(cmd)|
    ensures r.0.output == l.output + Frame(cmd)[..|r.0.output| - |l.output|]
    ensures r.1 ==> r.0.output == l.output + Frame(cmd)
  {
    PutFacts(l, Frame(cmd), 0);
    var p := Put(l, Frame(cmd), 0);
    (p.0, p.1 < MAXPKTERROR)
  }

  /**
   * `send`'s verdict: every write attempt, taken or refused, counts once,
   * and the result is OK exactly when the attempts stayed below the ceiling.
   */
  lemma SendCounter(l: Line, cmd: seq<char>)
    ensures var r := SendSpec(l, cmd);
      var written := |r.0.output| - |l.output|;
      && Suffix(r.0.accepts, l.accepts)
      && (r.1 <==> written + Rejections(Consumed(l.accepts, r.0.accepts)) < MAXPKTERROR)
  {
    PutFacts(l, Frame(cmd), 0);
  }

  /** A line that never refuses a write gets the whole frame, and `send` reports OK. */
  lemma SendWithoutRejections(l: Line, cmd: seq<char>)
    requires forall i :: 0 <= i < |l.accepts| ==> l.accepts[i]
    requires |cmd| + 4 < MAXPKTERROR
    ensures SendSpec(l, cmd).1
    ensures SendSpec(l, cmd).0.output == l.output + Frame(cmd)
  {
    PutFacts(l, Frame(cmd), 0);
    var p := Put(l, Frame(cmd), 0);
    var used := Consumed(l.accepts, p.0.accepts);
    assert forall i :: 0 <= i < |used| ==> used[i] by {
      forall i | 0 <= i < |used| ensures used[i] {
        assert used[i] == l.accepts[i];
      }
    }
    NoRejections(used);
  }

  /** The acknowledgement `receive` sends is the framed packet `$+#2b`. */
  lemma AckFrame()
    ensures Frame("+") == "$+#2b"
  {
    CksumExamples();
  }

  /** The reply ends with the terminator. */
  predicate EndsWithHash(s: seq<char>)
  {
    |s| > 0 && s[|s| - 1] == '#'
  }

  /** No terminator anywhere but possibly in the last place. */
  predicate HashOnlyAtEnd(s: seq<char>)
  {
    forall i :: 0 <= i < |s| - 1 ==> s[i] != '#'
  }

  /**
   * The reply loop of `receive`: a byte read is stored, an empty poll is
   * counted, until a `#` is stored, the polls reach the ceiling, or the
   * buffer holds MAXRESPONSELEN bytes. Returns the stored reply, the poll
   * count, and the rest of the script.
   */
  function Fill(input: seq<ReadResult>, stored: seq<char>, polls: nat): (seq<char>, nat, seq<ReadResult>)
    decreases MAXPKTERROR - polls, MAXRESPONSELEN - |stored|
  {
    if EndsWithHash(stored) || polls >= MAXPKTERROR || |stored| >= MAXRESPONSELEN then (stored, polls, input)
    else
      var next := NextRead(input);
      match next.0
      case NoData => Fill(next.1, stored, polls + 1)
      case Byte(b) => Fill(next.1, stored + [b], polls)
  }

  /**
   * What the reply loop does: the reply grows by exactly the bytes read,
   * in arrival order, and never past MAXRESPONSELEN; the count grows by
   * exactly the empty polls; it stops at the first `#`, at the ceiling or
   * with the buffer full, and the ceiling is reached only without `#` and
   * with room left.
   */
  lemma FillFacts(input: seq<ReadResult>, stored: seq<char>, polls: nat)
    requires polls <= MAXPKTERROR && |stored| <= MAXRESPONSELEN
    ensures var f := Fill(input, stored, polls);
      && |stored| <= |f.0| <= MAXRESPONSELEN && polls <= f.1 <= MAXPKTERROR
      && Suffix(f.2, input)
      && f.0 == stored + Data(Consumed(input, f.2))
      && f.1 >= polls + Polls(Consumed(input, f.2))
      && (f.2 != [] ==> f.1 == polls + Polls(Consumed(input, f.2)))
      && (EndsWithHash(f.0) || f.1 == MAXPKTERROR || |f.0| == MAXRESPONSELEN)
      && (f.1 == MAXPKTERROR && polls < MAXPKTERROR ==> !EndsWithHash(f.0) && |f.0| < MAXRESPONSELEN)
      && (HashOnlyAtEnd(stored) ==> HashOnlyAtEnd(f.0))
  {
    FillConsumes(input, stored, polls);
    FillEnds(input, stored, polls);
  }

  /** The reply loop stores exactly the bytes it reads and counts the empty polls. */
  lemma {:induction false} FillConsumes(input: seq<ReadResult>, stored: seq<char>, polls: nat)
    ensures var f := Fill(input, stored, polls);
      && Suffix(f.2, input)
      && f.0 == stored + Data(Consumed(input, f.2))
      && f.1 >= polls + Polls(Consumed(input, f.2))
      && (f.2 != [] ==> f.1 == polls + Polls(Consumed(input, f.2)))
    decreases MAXPKTERROR - polls, MAXRESPONSELEN - |stored|
  {
    if EndsWithHash(stored) || polls >= MAXPKTERROR || |stored| >= MAXRESPONSELEN {
      assert Consumed(input, input) == [];
    } else if input == [] {
      FillConsumes([], stored, polls + 1);
    } else {
      var rest := input[1..];
      FillUnfold(input, stored, polls);
      if input[0].NoData? {
        FillConsumes(rest, stored, polls + 1);
      } else {
        FillConsumes(rest, stored + [input[0].b], polls);
      }
      ConsumedFirst(input, Fill(input, stored, polls).2);
    }
  }

  /** One turn of the reply loop. */
  lemma FillUnfold(input: seq<ReadResult>, stored: seq<char>, polls: nat)
    requires !EndsWithHash(stored) && polls < MAXPKTERROR && |stored| < MAXRESPONSELEN && input != []
    ensures input[0].NoData? ==> Fill(input, stored, polls) == Fill(input[1..], stored, polls + 1)
    ensures input[0].Byte? ==> Fill(input, stored, polls) == Fill(input[1..], stored + [input[0].b], polls)
  {
  }

  /** The reply loop stops at the first `#`, at the ceiling or with the buffer full. */
  lemma {:induction false} FillEnds(input: seq<ReadResult>, stored: seq<char>, polls: nat)
    requires polls <= MAXPKTERROR && |stored| <= MAXRESPONSELEN
    ensures var f := Fill(input, stored, polls);
      && |f.0| <= MAXRESPONSELEN && polls <= f.1 <= MAXPKTERROR
      && (EndsWithHash(f.0) || f.1 == MAXPKTERROR || |f.0| == MAXRESPONSELEN)
      && (f.1 == MAXPKTERROR && polls < MAXPKTERROR ==> !EndsWithHash(f.0) && |f.0| < MAXRESPONSELEN)
      && (HashOnlyAtEnd(stored) ==> HashOnlyAtEnd(f.0))
    decreases MAXPKTERROR - polls, MAXRESPONSELEN - |stored|
  {
    if EndsWithHash(stored) || polls == MAXPKTERROR || |stored| == MAXRESPONSELEN {
    } else if input == [] {
      FillEnds([], stored, polls + 1);
    } else {
      var rest := input[1..];
      match input[0] {
        case NoData =>
          FillEnds(rest, stored, polls + 1);
        case Byte(b) =>
          assert HashOnlyAtEnd(stored) ==> HashOnlyAtEnd(stored + [b]);
          FillEnds(rest, stored + [b], polls);
      }
    }
  }

  /** Using up a script from its first result on: that result, then the rest. */
  lemma ConsumedFirst(input: seq<ReadResult>, after: seq<ReadResult>)
    requires input != [] && Suffix(after, input[1..])
    ensures Suffix(after, input)
    ensures Consumed(input, after) == [input[0]] + Consumed(input[1..], after)
    ensures Data(Consumed(input, after))
         == (if input[0].Byte? then [input[0].b] else []) + Data(Consumed(input[1..], after))
    ensures Polls(Consumed(input, after))
         == (if input[0].NoData? then 1 else 0) + Polls(Consumed(input[1..], after))
  {
    var used := Consumed(input, after);
    assert used == [input[0]] + Consumed(input[1..], after);
    assert used[0] == input[0] && used[1..] == Consumed(input[1..], after);
  }

  /**
   * The checksum loop of `receive`: `n` more bytes are read and dropped,
   * whatever they are. None when the line falls silent first; the C loop
   * then polls forever.
   */
  function SkipChecksum(input: seq<ReadResult>, n: nat): Option<seq<ReadResult>>
    decreases |input|
  {
    if n == 0 then Some(input)
    else if input == [] then None
    else SkipChecksum(input[1..], if input[0].Byte? then n - 1 else n)
  }

  /**
   * The checksum loop takes exactly `n` bytes, the last one read being a
   * byte, and falls silent only when fewer than `n` bytes remain.
   */
  lemma {:induction false} SkipChecksumFacts(input: seq<ReadResult>, n: nat)
    ensures var r := SkipChecksum(input, n);
      && (r.Some? ==> Suffix(r.value, input) && |Data(Consumed(input, r.value))| == n)
      && (r.Some? && n > 0 ==> |r.value| < |input| && input[|input| - |r.value| - 1].Byte?)
      && (r.None? ==> |Data(input)| < n)
    decreases |input|
  {
    if n == 0 {
      assert Consumed(input, input) == [];
    } else if input != [] {
      var m := if input[0].Byte? then n - 1 else n;
      SkipChecksumFacts(input[1..], m);
      var r := SkipChecksum(input[1..], m);
      if r.Some? {
        assert Consumed(input, r.value) == [input[0]] + Consumed(input[1..], r.value);
        assert ([input[0]] + Consumed(input[1..], r.value))[1..] == Consumed(input[1..], r.value);
      }
    }
  }

  /** A reply as `strstr` sees it: up to its first NUL. */
  function CString(s: seq<char>): (r: seq<char>)
    ensures |r| <= |s| && r == s[..|r|] && '\0' !in r
    ensures |r| < |s| ==> s[|r|] == '\0'
  {
    if s == [] || s[0] == '\0' then [] else [s[0]] + CString(s[1..])
  }

  /** Without a NUL, the C string is the whole buffer. */
  lemma CStringWhole(s: seq<char>)
    requires '\0' !in s
    ensures CString(s) == s
  {
  }

  /** A buffer holding `stored` and then a NUL reads as the C string of `stored`. */
  lemma {:induction false} CStringOfBuffer(buffer: seq<char>, stored: seq<char>)
    requires |stored| < |buffer| && buffer[..|stored|] == stored && buffer[|stored|] == '\0'
    ensures CString(buffer) == CString(stored)
    decreases |stored|
  {
    if stored != [] && stored[0] != '\0' {
      assert buffer[0] == stored[0];
      assert buffer[1..][..|stored| - 1] == stored[1..];
      CStringOfBuffer(buffer[1..], stored[1..]);
    }
  }

  /** The outcome of `receive`: the line afterwards, the stored reply, and the status. */
  datatype Received = Received(line: Line, stored: seq<char>, status: Status)

  /**
   * `receive`: the reply loop, then two checksum bytes (never checked),
   * then the acknowledgement `send("+")` when the stored reply holds a
   * `#`. ERROR iff the polls reached the ceiling; the outcome of the
   * acknowledgement plays no part.
   */
  function ReceiveSpec(l: Line): Received
  {
    var f := Fill(l.input, [], 0);
    match SkipChecksum(f.2, 2)
    case None => Received(l.(input := []), f.0, Hung)
    case Some(after) =>
      var l1 := l.(input := after);
      var l2 := if '#' in CString(f.0) then SendSpec(l1, "+").0 else l1;
      Received(l2, f.0, if f.1 >= MAXPKTERROR then Error else Ok)
  }

  /** Among replies that hold `#` only at the end, `strstr` finds it iff it is there and no NUL came before. */
  lemma HashVisible(s: seq<char>)
    requires HashOnlyAtEnd(s)
    ensures '#' in CString(s) <==> EndsWithHash(s) && '\0' !in s
  {
    var c := CString(s);
    if '#' in c {
      var i :| 0 <= i < |c| && c[i] == '#';
      assert s[i] == '#';
      assert i == |s| - 1;
      assert c == s;
    }
    if EndsWithHash(s) && '\0' !in s {
      assert |c| == |s|;
      assert c[|s| - 1] == '#';
    }
  }

  /**
   * What `receive` stores and reports: a prefix of the bytes the line
   * delivers, in arrival order, at most MAXRESPONSELEN of them, with `#` at
   * most at its end; nothing is written when it hangs; and OK exactly when
   * the terminator arrived or the buffer filled, ERROR when the polls ran
   * out first.
   */
  lemma {:induction false} ReceiveFacts(l: Line)
    ensures var r := ReceiveSpec(l);
      && |r.stored| <= MAXRESPONSELEN
      && HashOnlyAtEnd(r.stored)
      && r.stored <= Data(l.input)
      && (r.status == Hung ==> r.line.accepts == l.accepts && r.line.output == l.output)
      && (r.status != Hung ==>
            (r.status == Ok <==> EndsWithHash(r.stored) || |r.stored| == MAXRESPONSELEN))
  {
    ReceiveStored(l);
    ReceiveStatus(l);
  }

  /** The stored reply: a prefix of the delivered bytes, bounded, with `#` at most at its end. */
  lemma {:induction false} ReceiveStored(l: Line)
    ensures var r := ReceiveSpec(l);
      && |r.stored| <= MAXRESPONSELEN
      && HashOnlyAtEnd(r.stored)
      && r.stored <= Data(l.input)
  {
    FillFacts(l.input, [], 0);
    var f := Fill(l.input, [], 0);
    assert ReceiveSpec(l).stored == f.0;
    var used := Consumed(l.input, f.2);
    assert l.input == used + f.2;
    DataAppend(used, f.2);
  }

  /** The reported status: `Hung` writes nothing, OK exactly at the `#` or a full buffer. */
  lemma {:induction false} ReceiveStatus(l: Line)
    ensures var r := ReceiveSpec(l);
      && (r.status == Hung ==> r.line.accepts == l.accepts && r.line.output == l.output)
      && (r.status != Hung ==>
            (r.status == Ok <==> EndsWithHash(r.stored) || |r.stored| == MAXRESPONSELEN))
  {
    FillFacts(l.input, [], 0);
  }

  /**
   * The acknowledgement: after the two checksum bytes, `$+#2b` is sent
   * when the reply ends with `#` and holds no NUL, and nothing otherwise.
   */
  lemma ReceiveAcks(l: Line)
    requires ReceiveSpec(l).status != Hung
    ensures var r := ReceiveSpec(l);
      var after := SkipChecksum(Fill(l.input, [], 0).2, 2).value;
      && Suffix(after, Fill(l.input, [], 0).2)
      && |Data(Consumed(Fill(l.input, [], 0).2, after))| == 2
      && r.line == (if EndsWithHash(r.stored) && '\0' !in r.stored
                    then SendSpec(l.(input := after), "+").0
                    else l.(input := after))
  {
    FillFacts(l.input, [], 0);
    SkipChecksumFacts(Fill(l.input, [], 0).2, 2);
    HashVisible(Fill(l.input, [], 0).0);
  }

  /** Bytes without a terminator are stored one by one while there is room. */
  lemma {:induction false} FillBytes(bs: seq<char>, tail: seq<ReadResult>, stored: seq<char>, polls: nat)
    requires '#' !in bs && !EndsWithHash(stored)
    requires polls < MAXPKTERROR && |stored| + |bs| <= MAXRESPONSELEN
    ensures Fill(AsReads(bs) + tail, stored, polls) == Fill(tail, stored + bs, polls)
    decreases |bs|
  {
    if bs == [] {
      assert AsReads(bs) + tail == tail;
      assert stored + bs == stored;
    } else {
      FillBytesStep(bs, tail, stored, polls);
      FillBytes(bs[1..], tail, stored + [bs[0]], polls);
      AppendFirst(stored, bs);
    }
  }

  /** The first byte of a run read and stored. */
  lemma FillBytesStep(bs: seq<char>, tail: seq<ReadResult>, stored: seq<char>, polls: nat)
    requires bs != [] && bs[0] != '#' && !EndsWithHash(stored)
    requires polls < MAXPKTERROR && |stored| < MAXRESPONSELEN
    ensures Fill(AsReads(bs) + tail, stored, polls) == Fill(AsReads(bs[1..]) + tail, stored + [bs[0]], polls)
  {
    var next := AsReads(bs[1..]) + tail;
    assert AsReads(bs) == [Byte(bs[0])] + AsReads(bs[1..]);
    assert AsReads(bs) + tail == [Byte(bs[0])] + next;
    FillByte(bs[0], next, stored, polls);
  }

  /** Appending the first element, then the rest, appends the whole. */
  lemma AppendFirst<T>(a: seq<T>, b: seq<T>)
    requires b != []
    ensures a + [b[0]] + b[1..] == a + b
  {
    assert [b[0]] + b[1..] == b;
  }

  /** One byte other than `#` is stored while there is room. */
  lemma FillByte(b: char, next: seq<ReadResult>, stored: seq<char>, polls: nat)
    requires b != '#' && !EndsWithHash(stored)
    requires polls < MAXPKTERROR && |stored| < MAXRESPONSELEN
    ensures !EndsWithHash(stored + [b])
    ensures Fill([Byte(b)] + next, stored, polls) == Fill(next, stored + [b], polls)
  {
    assert NextRead([Byte(b)] + next) == (Byte(b), next);
  }

  /**
   * A reply shaped like a packet of ours is taken in whole: `$`, the
   * text and `#` are stored, the two checksum characters are consumed,
   * the reply is acknowledged, and `receive` reports OK.
   */
  lemma ReceiveFrame(l: Line, text: seq<char>, more: seq<ReadResult>)
    requires '#' !in text && '\0' !in text && |text| + 2 <= MAXRESPONSELEN
    requires l.input == AsReads(Frame(text)) + more
    ensures ReceiveSpec(l).stored == ['$'] + text + ['#']
    ensures ReceiveSpec(l).status == Ok
    ensures ReceiveSpec(l).line == SendSpec(l.(input := more), "+").0
  {
    var ck := Cksum(text);
    var rest := AsReads(ck) + more;
    var stored := ['$'] + text + ['#'];
    FillFrame(text, more);
    SkipTwo(ck, more);
    assert '#' in CString(stored) by {
      assert '\0' !in stored;
      HashVisible(stored);
    }
  }

  /** The reply loop stores a packet of ours up to and including its `#`. */
  lemma FillFrame(text: seq<char>, more: seq<ReadResult>)
    requires '#' !in text && |text| + 2 <= MAXRESPONSELEN
    ensures Fill(AsReads(Frame(text)) + more, [], 0) == (['$'] + text + ['#'], 0, AsReads(Cksum(text)) + more)
  {
    var body := ['$'] + text;
    var ck := Cksum(text);
    var rest := AsReads(ck) + more;
    assert Frame(text) == body + (['#'] + ck);
    AsReadsAppend(body, ['#'] + ck);
    AsReadsAppend(['#'], ck);
    assert AsReads(['#']) == [Byte('#')] by {
      assert ['#'][1..] == [];
    }
    var tail := [Byte('#')] + rest;
    assert AsReads(Frame(text)) + more == AsReads(body) + tail;
    assert '#' !in body && !EndsWithHash([]);
    FillBytes(body, tail, [], 0);
    assert [] + body == body;
    HashStep(body, rest, 0);
  }

  /** With room left and no terminator yet, a `#` is stored and ends the loop. */
  lemma HashStep(stored: seq<char>, rest: seq<ReadResult>, polls: nat)
    requires !EndsWithHash(stored) && |stored| < MAXRESPONSELEN && polls < MAXPKTERROR
    ensures Fill([Byte('#')] + rest, stored, polls) == (stored + ['#'], polls, rest)
  {
    var input := [Byte('#')] + rest;
    assert NextRead(input) == (Byte('#'), rest);
    assert EndsWithHash(stored + ['#']);
  }

  /** The checksum loop drops two bytes that arrive back to back. */
  lemma SkipTwo(ck: seq<char>, more: seq<ReadResult>)
    requires |ck| == 2
    ensures SkipChecksum(AsReads(ck) + more, 2) == Some(more)
  {
    var rest := AsReads(ck) + more;
    assert AsReads(ck) == [Byte(ck[0]), Byte(ck[1])] by {
      assert ck[1..][1..] == [];
    }
    assert rest[0] == Byte(ck[0]) && rest[1..][0] == Byte(ck[1]) && rest[1..][1..] == more;
    assert SkipChecksum(rest[1..][1..], 0) == Some(more);
    assert SkipChecksum(rest[1..], 1) == Some(more);
  }

  lemma {:induction false} AsReadsAppend(a: seq<char>, b: seq<char>)
    ensures AsReads(a + b) == AsReads(a) + AsReads(b)
    decreases |a|
  {
    if a == [] {
      assert a + b == b;
    } else {
      assert (a + b)[0] == a[0] && (a + b)[1..] == a[1..] + b;
      AsReadsAppend(a[1..], b);
    }
  }

  /**
   * With the buffer sized as in the source, a reply of MAXRESPONSELEN bytes
   * without `#` puts the terminating NUL at index MAXRESPONSELEN, one past
   * the end of `char status[MAXRESPONSELEN]`.
   */
  lemma TerminatorPastEndAsWritten()
    ensures var input := AsReads(seq(MAXRESPONSELEN, _ => 'a'));
      |Fill(input, [], 0).0| == MAXRESPONSELEN
  {
    var bs := seq(MAXRESPONSELEN, _ => 'a');
    assert '#' !in bs;
    assert AsReads(bs) + [] == AsReads(bs);
    FillBytes(bs, [], [], 0);
    assert [] + bs == bs;
  }

  /**
   * What `status` looks like after `receive`: the stored reply, a NUL
   * right after it, and beyond that whatever the buffer held before.
   */
  predicate HoldsReply(buffer: seq<char>, before: seq<char>, stored: seq<char>)
  {
    && |buffer| == |before| && |stored| < |buffer|
    && buffer[..|stored|] == stored && buffer[|stored|] == '\0'
    && buffer[|stored| + 1..] == before[|stored| + 1..]
  }

  /** The board as the protocol sees it: the line and the reply buffer. */
  class Board {
    const port: Port
    /** `board->status`, with one slot beyond MAXRESPONSELEN for the NUL. */
    const status: array<char>

    ghost predicate Valid()
    {
      status.Length == MAXRESPONSELEN + 1
    }

    constructor (port: Port)
      ensures this.port == port && Valid() && fresh(status)
      ensures forall i :: 0 <= i < status.Length ==> status[i] == '\0'
    {
      this.port := port;
      status := new char[MAXRESPONSELEN + 1](_ => '\0');
    }

    /** One of `send`'s loops over a string, with the shared counter. */
    method PutString(s: seq<char>, count: nat) returns (count': nat)
      modifies port
      ensures (port.State(), count') == Put(old(port.State()), s, count)
    {
      count' := count;
      var i := 0;
      while i < |s| && count' < MAXPKTERROR
        invariant 0 <= i <= |s|
        invariant Put(old(port.State()), s, count) == Put(port.State(), s[i..], count')
      {
        ghost var before, countBefore := port.State(), count';
        var taken := false;
        while !taken
          invariant count' >= countBefore
          invariant !taken ==> Offer(before, s[i]) == (Offer(port.State(), s[i]).0, Offer(port.State(), s[i]).1 + (count' - countBefore))
          invariant taken ==> Offer(before, s[i]) == (port.State(), count' - countBefore)
          decreases |port.accepts|, if taken then 0 else 1
        {
          taken := port.Write(s[i]);
          count' := count' + 1;
        }
        assert s[i..][1..] == s[i + 1..];
        i := i + 1;
      }
    }

    /** `send`: `$`, the command, `#` and the checksum, under one counter. */
    method Send(cmd: seq<char>) returns (ok: bool)
      modifies port
      ensures (port.State(), ok) == SendSpec(old(port.State()), cmd)
    {
      ghost var l0 := port.State();
      var timeout := PutString("$", 0);
      timeout := PutString(cmd, timeout);
      timeout := PutString("#", timeout);
      timeout := PutString(Cksum(cmd), timeout);
      PutAppend(l0, ['$'], cmd, 0);
      PutAppend(l0, ['$'] + cmd, ['#'], 0);
      PutAppend(l0, ['$'] + cmd + ['#'], Cksum(cmd), 0);
      ok := timeout < MAXPKTERROR;
    }

    /**
     * `receive`: the reply goes into `status` in place, followed by a NUL;
     * nothing else in the buffer changes.
     */
    method Receive() returns (st: Status)
      requires Valid()
      modifies port, status
      ensures var r := ReceiveSpec(old(port.State()));
        && port.State() == r.line && st == r.status
        && |r.stored| < status.Length
        && status[..|r.stored|] == r.stored && status[|r.stored|] == '\0'
        && status[|r.stored| + 1..] == old(status[|r.stored| + 1..])
    {
      var len, polls := ReadReply();
      var complete := DropChecksum();
      if !complete {
        return Hung;
      }
      if '#' in CString(status[..len]) {
        var _ := Send("+");
      }
      st := if polls >= MAXPKTERROR then Error else Ok;
    }

    /** The reply loop of `receive`, filling `status` through `tptr`. */
    method ReadReply() returns (len: nat, polls: nat)
      requires Valid()
      modifies port, status
      ensures len < status.Length && status[len] == '\0'
      ensures Fill(old(port.input), [], 0) == (status[..len], polls, port.input)
      ensures port.accepts == old(port.accepts) && port.output == old(port.output)
      ensures status[len + 1..] == old(status[len + 1..])
    {
      ghost var l0 := port.State();
      FillFacts(l0.input, [], 0);
      polls, len := 0, 0;
      var last := '\0';  // `readch` before the first read: anything but '#'
      while last != '#' && polls < MAXPKTERROR && len < MAXRESPONSELEN
        invariant polls <= MAXPKTERROR && len <= MAXRESPONSELEN
        invariant port.accepts == l0.accepts && port.output == l0.output
        invariant last == '#' <==> EndsWithHash(status[..len])
        invariant Fill(l0.input, [], 0) == Fill(port.input, status[..len], polls)
        invariant status[len..] == old(status[len..])
        decreases MAXPKTERROR - polls, MAXRESPONSELEN - len
      {
        var r := port.Read();
        match r
        case NoData =>
          polls := polls + 1;
        case Byte(b) =>
          assert status[len + 1..] == status[len..][1..];
          assert old(status[len + 1..]) == old(status[len..])[1..];
          status[len] := b;
          assert status[..len + 1] == status[..len] + [b];
          len := len + 1;
          last := b;
      }
      ghost var stored := status[..len];
      status[len] := '\0';
      assert status[..len] == stored;
      assert status[len + 1..] == old(status[len + 1..]);
    }

    /** The checksum loop of `receive`: two bytes read and dropped; false where C would poll forever. */
    method DropChecksum() returns (complete: bool)
      modifies port
      ensures var r := SkipChecksum(old(port.input), 2);
        && complete == r.Some?
        && port.State() == old(port.State()).(input := if r.Some? then r.value else [])
    {
      var n := 0;
      while n < 2
        invariant n <= 2
        invariant SkipChecksum(old(port.input), 2) == SkipChecksum(port.input, 2 - n)
        invariant port.accepts == old(port.accepts) && port.output == old(port.output)
        decreases |port.input|
      {
        if port.Silent() {
          return false;
        }
        var r := port.Read();
        if r.Byte? {
          n := n + 1;
        }
      }
      complete := true;
    }
  }

  /** `send`'s loops compose: two strings in turn are their concatenation. */
  lemma {:induction false} PutAppend(l: Line, a: seq<char>, b: seq<char>, count: nat)
    ensures Put(l, a + b, count) == Put(Put(l, a, count).0, b, Put(l, a, count).1)
    decreases |a|
  {
    if a == [] {
      assert a + b == b;
    } else if count < MAXPKTERROR {
      var o := Offer(l, a[0]);
      assert (a + b)[0] == a[0] && (a + b)[1..] == a[1..] + b;
      PutAppend(o.0, a[1..], b, count + o.1);
    } else {
      var r := Put(l, a, count);
      assert r == (l, count);
    }
  }
}
