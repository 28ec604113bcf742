/** `hexlog_write`: the loop that forwards a chunk to the sink, calling
    `write` until the accepted counts add up to the chunk's size. Each call
    of `write` is an answer taken from a script, in order. The loop as
    written (`WriteLoop`) resends the front of the buffer after a partial
    write; `IntendedLoop` is the loop with `buf + off`, kept beside it. */
module FullWrite {
  import opened HexlogBase

  /** What one `write` call answers: the number of bytes it accepted, an
      interruption (-1 with EINTR), or any other error. A count above the
      request is cut to the request: `write` never accepts more than asked. */
  datatype WriteAnswer = Accepted(count: nat) | Interrupted | Failed

  /** How a run of the loop ends: its return value, the bytes the sink
      received in order, the sum of the accepted counts, and the number of
      `write` calls it made. */
  datatype WriteResult = WriteResult(rv: int, sent: seq<byte>, accepted: nat, calls: nat)

  /** A run that first sent `p`, accepting `a` bytes in `c` calls, then went on as `r`. */
  function Then(p: seq<byte>, a: nat, c: nat, r: Option<WriteResult>): Option<WriteResult> {
    match r
    case None => None
    case Some(w) => Some(WriteResult(w.rv, p + w.sent, a + w.accepted, c + w.calls))
  }

  /** `hexlog_write(fd, buf, |buf|)` from `off` on, as written: every call
      is `write(fd, buf, size - off)`, so it hands over the FRONT of `buf`,
      not the bytes from `off` on. A `continue` after EINTR goes to the
      loop's `off < size` test. None when the script runs out first. */
  function WriteLoop(buf: seq<byte>, off: nat, script: seq<WriteAnswer>): Option<WriteResult>
    requires off <= |buf|
    decreases |script|
  {
    if |script| == 0 then None
    else match script[0]
      case Failed => Some(WriteResult(-1, [], 0, 1))
      case Interrupted =>
        if off < |buf| then Then([], 0, 1, WriteLoop(buf, off, script[1..]))
        else Some(WriteResult(0, [], 0, 1))
      case Accepted(c) =>
        var n := Min(c, |buf| - off);
        if off + n < |buf| then Then(buf[..n], n, 1, WriteLoop(buf, off + n, script[1..]))
        else Some(WriteResult(0, buf[..n], n, 1))
  }

  /** The loop returns 0 exactly when the accepted counts have reached the
      size, and -1 only on a failure, which is the last answer it read; it
      reads answers from the front of the script and the sink receives one
      byte per accepted byte. */
  lemma {:induction false} WriteOutcome(buf: seq<byte>, off: nat, script: seq<WriteAnswer>)
    requires off <= |buf|
    requires WriteLoop(buf, off, script).Some?
    ensures var w := WriteLoop(buf, off, script).value;
      && (w.rv == 0 || w.rv == -1)
      && 0 < w.calls <= |script|
      && |w.sent| == w.accepted
      && (w.rv == 0 ==> off + w.accepted == |buf|)
      && (w.rv == -1 <==> script[w.calls - 1] == Failed)
      && (w.rv == -1 ==> off + w.accepted <= |buf|)
      && Failed !in script[..w.calls - 1]
    decreases |script|
  {
    var w := WriteLoop(buf, off, script).value;
    match script[0]
    case Failed =>
    case Interrupted =>
      if off < |buf| {
        WriteOutcome(buf, off, script[1..]);
        var v := WriteLoop(buf, off, script[1..]).value;
        assert script[..w.calls - 1] == [script[0]] + script[1..][..v.calls - 1];
      }
    case Accepted(c) =>
      var n := Min(c, |buf| - off);
      if off + n < |buf| {
        WriteOutcome(buf, off + n, script[1..]);
        var v := WriteLoop(buf, off + n, script[1..]).value;
        assert script[..w.calls - 1] == [script[0]] + script[1..][..v.calls - 1];
      }
  }

  /** The script with its interruptions removed. */
  function Uninterrupted(script: seq<WriteAnswer>): seq<WriteAnswer>
    decreases |script|
  {
    if |script| == 0 then []
    else (if script[0] == Interrupted then [] else [script[0]]) + Uninterrupted(script[1..])
  }

  /** The retry after EINTR loses nothing: dropping the interruptions from
      the script leaves the return value and what the sink receives as they
      were, as long as something is still to be written. */
  lemma {:induction false} InterruptsRetried(buf: seq<byte>, off: nat, script: seq<WriteAnswer>)
    requires off < |buf|
    requires WriteLoop(buf, off, script).Some?
    ensures WriteLoop(buf, off, Uninterrupted(script)).Some?
    ensures WriteLoop(buf, off, Uninterrupted(script)).value.rv == WriteLoop(buf, off, script).value.rv
    ensures WriteLoop(buf, off, Uninterrupted(script)).value.sent == WriteLoop(buf, off, script).value.sent
    decreases |script|
  {
    var u := Uninterrupted(script[1..]);
    match script[0]
    case Interrupted =>
      assert Uninterrupted(script) == u;
      InterruptsRetried(buf, off, script[1..]);
    case Failed =>
      assert Uninterrupted(script) == [Failed] + u;
    case Accepted(c) =>
      assert Uninterrupted(script) == [script[0]] + u;
      assert ([script[0]] + u)[1..] == u;
      var n := Min(c, |buf| - off);
      if off + n < |buf| {
        InterruptsRetried(buf, off + n, script[1..]);
      }
  }

  /** Every `write` call accepts its whole request (or fails): the case in
      which the way the request is addressed does not matter. */
  predicate WholeRequests(buf: seq<byte>, script: seq<WriteAnswer>) {
    forall i :: 0 <= i < |script| && script[i].Accepted? ==> script[i].count >= |buf|
  }

  /** As written, the loop is right when every write accepts its whole
      request: a successful run hands the sink exactly `buf`. */
  lemma {:induction false} WholeRequestsDeliver(buf: seq<byte>, script: seq<WriteAnswer>)
    requires WholeRequests(buf, script)
    requires WriteLoop(buf, 0, script).Some? && WriteLoop(buf, 0, script).value.rv == 0
    ensures WriteLoop(buf, 0, script).value.sent == buf
    decreases |script|
  {
    match script[0]
    case Interrupted =>
      if |buf| == 0 {
        return;
      }
      assert WholeRequests(buf, script[1..]) by {
        forall i | 0 <= i < |script[1..]| && script[1..][i].Accepted?
          ensures script[1..][i].count >= |buf|
        {
          assert script[1..][i] == script[i + 1];
        }
      }
      WholeRequestsDeliver(buf, script[1..]);
    case Accepted(c) =>
      assert script[0].count >= |buf|;
      assert buf[..|buf|] == buf;
  }

  /** As written, a partial write makes the next call resend the front of
      the buffer. Four bytes written as two and two: the sink gets the first
      two bytes twice and the call still reports success. */
  lemma PartialWriteRepeats()
    ensures var r := WriteLoop([1, 2, 3, 4], 0, [Accepted(2), Accepted(2)]);
      r.Some? && r.value.rv == 0 && r.value.sent == [1, 2, 1, 2] != [1, 2, 3, 4]
  {
    var buf: seq<byte> := [1, 2, 3, 4];
    var s := [Accepted(2), Accepted(2)];
    assert s[1..] == [Accepted(2)];
    assert s[1..][1..] == [];
    assert buf[..2] == [1, 2];
    assert WriteLoop(buf, 2, s[1..]) == Some(WriteResult(0, [1, 2], 2, 1));
  }

  /** The loop as evidently intended: each call hands `write` the bytes
      from `off` on (`write(fd, buf + off, size - off)`). */
  function IntendedLoop(buf: seq<byte>, off: nat, script: seq<WriteAnswer>): Option<WriteResult>
    requires off <= |buf|
    decreases |script|
  {
    if |script| == 0 then None
    else match script[0]
      case Failed => Some(WriteResult(-1, [], 0, 1))
      case Interrupted =>
        if off < |buf| then Then([], 0, 1, IntendedLoop(buf, off, script[1..]))
        else Some(WriteResult(0, [], 0, 1))
      case Accepted(c) =>
        var n := Min(c, |buf| - off);
        if off + n < |buf| then Then(buf[off..off + n], n, 1, IntendedLoop(buf, off + n, script[1..]))
        else Some(WriteResult(0, buf[off..off + n], n, 1))
  }

  /** As intended, the sink receives the accepted bytes in order, and a
      successful run delivers `buf` from `off` to its end, however the
      writes were split. */
  lemma {:induction false} IntendedDelivers(buf: seq<byte>, off: nat, script: seq<WriteAnswer>)
    requires off <= |buf|
    requires IntendedLoop(buf, off, script).Some?
    ensures var w := IntendedLoop(buf, off, script).value;
      && off + w.accepted <= |buf|
      && w.sent == buf[off..off + w.accepted]
      && (w.rv == 0 ==> w.sent == buf[off..])
    decreases |script|
  {
    match script[0]
    case Failed =>
    case Interrupted =>
      if off < |buf| {
        IntendedDelivers(buf, off, script[1..]);
      }
    case Accepted(c) =>
      var n := Min(c, |buf| - off);
      if off + n < |buf| {
        IntendedDelivers(buf, off + n, script[1..]);
        var v := IntendedLoop(buf, off + n, script[1..]).value;
        assert buf[off..off + n] + buf[off + n..off + n + v.accepted] == buf[off..off + n + v.accepted];
      }
  }

  /** The correction changes only which bytes the sink receives: the return
      value, the accepted count, the calls made and the number of bytes sent
      are those of the loop as written. */
  lemma {:induction false} SameControl(buf: seq<byte>, off: nat, script: seq<WriteAnswer>)
    requires off <= |buf|
    ensures WriteLoop(buf, off, script).Some? <==> IntendedLoop(buf, off, script).Some?
    ensures WriteLoop(buf, off, script).Some? ==>
      var w, v := WriteLoop(buf, off, script).value, IntendedLoop(buf, off, script).value;
      w.rv == v.rv && w.accepted == v.accepted && w.calls == v.calls && |w.sent| == |v.sent|
    decreases |script|
  {
    if |script| > 0 {
      match script[0]
      case Failed =>
      case Interrupted =>
        if off < |buf| {
          SameControl(buf, off, script[1..]);
        }
      case Accepted(c) =>
        var n := Min(c, |buf| - off);
        if off + n < |buf| {
          SameControl(buf, off + n, script[1..]);
        }
    }
  }

  /** The bytes the answer at position `k` accepts when `off` bytes are done. */
  function Taken(buf: seq<byte>, off: nat, a: WriteAnswer): nat
    requires off <= |buf|
  {
    if a.Accepted? then Min(a.count, |buf| - off) else 0
  }

  /** The first answer of the script: a failure ends the loop with -1;
      otherwise `Taken` bytes go out and the loop ends with 0 or goes on with
      the rest of the script. */
  lemma WriteLoopFirst(buf: seq<byte>, off: nat, script: seq<WriteAnswer>)
    requires off <= |buf| && 0 < |script|
    requires WriteLoop(buf, off, script).Some?
    ensures var n, w := Taken(buf, off, script[0]), WriteLoop(buf, off, script).value;
      && off + n <= |buf|
      && (script[0].Failed? ==> w.rv == -1 && w.sent == [])
      && (!script[0].Failed? && off + n == |buf| ==> w.rv == 0 && w.sent == buf[..n])
      && (!script[0].Failed? && off + n < |buf| ==>
            WriteLoop(buf, off + n, script[1..]).Some? &&
            w.rv == WriteLoop(buf, off + n, script[1..]).value.rv &&
            w.sent == buf[..n] + WriteLoop(buf, off + n, script[1..]).value.sent)
  {
    if script[0].Interrupted? {
      assert buf[..0] + [] == [];
    }
  }

  /** Mid-loop state of `hexlog_write`: `off` bytes accepted, `sent` on the
      wire, and the `answers` still to come finish the run `whole`. */
  ghost predicate Pending(b: seq<byte>, whole: WriteResult, off: nat, answers: seq<WriteAnswer>, sent: seq<byte>) {
    && off <= |b|
    && WriteLoop(b, off, answers).Some?
    && whole.rv == WriteLoop(b, off, answers).value.rv
    && whole.sent == sent + WriteLoop(b, off, answers).value.sent
  }

  /** One pass of the do-while in `hexlog_write`: one `write` call, then the
      `off < size` test. */
  method WriteCall(b: seq<byte>, off: nat, answers: seq<WriteAnswer>, sent: seq<byte>, ghost whole: WriteResult)
    returns (done: bool, rv: int, off': nat, answers': seq<WriteAnswer>, sent': seq<byte>)
    requires Pending(b, whole, off, answers, sent)
    ensures done ==> rv == whole.rv && sent' == whole.sent
    ensures !done ==> Pending(b, whole, off', answers', sent')
    ensures |answers'| < |answers|
  {
    WriteLoopFirst(b, off, answers);
    var answer := answers[0];
    answers' := answers[1..];
    if answer.Failed? {
      assert sent + [] == sent;
      return true, -1, off, answers', sent;
    }
    var n := Taken(b, off, answer);
    ghost var rest := WriteLoop(b, off + n, answers');
    off', sent' := off, sent;
    if answer.Accepted? {
      sent' := sent + b[..n];
      off' := off + n;
    } else {
      assert b[..n] == [];
      assert sent == sent + b[..n];
    }
    if !(off' < |b|) {
      return true, 0, off', answers', sent';
    }
    assert whole.sent == (sent + b[..n]) + rest.value.sent;
    done, rv := false, 0;
  }

  /** `hexlog_write(fd, buf, size)`, as written. Returns what `write` calls
      put on the wire, in order, with the return value. */
  method HexlogWrite(buf: array<byte>, size: nat, script: seq<WriteAnswer>) returns (rv: int, sent: seq<byte>)
    requires size <= buf.Length
    requires WriteLoop(buf[..size], 0, script).Some?
    ensures rv == WriteLoop(buf[..size], 0, script).value.rv
    ensures sent == WriteLoop(buf[..size], 0, script).value.sent
  {
    var b := buf[..size];
    ghost var whole := WriteLoop(b, 0, script).value;
    var off: nat := 0;
    var answers := script;
    sent, rv := [], 0;
    var done := false;
    while !done
      invariant !done ==> Pending(b, whole, off, answers, sent)
      invariant done ==> rv == whole.rv && sent == whole.sent
      decreases |answers|
    {
      done, rv, off, answers, sent := WriteCall(b, off, answers, sent, whole);
    }
  }
}
