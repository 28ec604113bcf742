/** `event_loop`: the supervisor's `poll` loop over four descriptor slots:
    standard input (relayed to the child), the child's output (relayed to
    standard output), the signal channel, and the child's input, watched
    only for hang-up. The relays and `sigread` are not run here: what they
    return is an input of each pass. */
module EventLoop {
  import opened HexlogBase

  /** The slots of `rfd`. */
  const STDIN_SLOT: nat := 0
  const CHILD_OUT_SLOT: nat := 1
  const SIGNAL_SLOT: nat := 2
  const CHILD_IN_SLOT: nat := 3

  /** What one `poll` call reports: failure with EINTR, another failure, or
      for each slot whether its `revents` hold the condition `event_loop`
      tests (POLLHUP for the child's input; POLLIN, POLLERR, POLLHUP or
      POLLNVAL for the others). `poll` reports nothing for a slot whose
      descriptor is -1. */
  datatype Poll = PollInterrupted | PollFailed | Ready(hangup: bool, stdin: bool, child: bool, signal: bool)

  /** One pass through the loop: the `poll` answer, what `relay` returns for
      each endpoint and `sigread` returns, should they be called, and whether
      the `close` calls the pass makes succeed. */
  datatype Pass = Pass(poll: Poll, relayStdin: int, relayChild: int, sigread: int, closeOk: bool)

  /** How a pass ends: the loop goes on with these slots, or returns. */
  datatype Step = Continue(rfd: seq<int>) | Return(rv: int)

  predicate Open(rfd: seq<int>, slot: nat)
    requires |rfd| == 4 && slot < 4
  {
    rfd[slot] >= 0
  }

  /** Closing the stdin endpoint: both its descriptors are closed and its
      two slots set to -1. */
  function CloseStdin(rfd: seq<int>, p: Pass): Step
    requires |rfd| == 4
  {
    if p.closeOk then Continue(rfd[STDIN_SLOT := -1][CHILD_IN_SLOT := -1]) else Return(-1)
  }

  /** The stdin endpoint's part of a pass. */
  function StdinPart(rfd: seq<int>, p: Pass): Step
    requires |rfd| == 4 && p.poll.Ready?
  {
    if !(p.poll.stdin && Open(rfd, STDIN_SLOT)) then Continue(rfd)
    else if p.relayStdin == 0 then CloseStdin(rfd, p)
    else if p.relayStdin == -1 then Return(-1)
    else Continue(rfd)
  }

  /** The child-output endpoint's part of a pass. */
  function ChildPart(rfd: seq<int>, p: Pass): Step
    requires |rfd| == 4 && p.poll.Ready?
  {
    if !(p.poll.child && Open(rfd, CHILD_OUT_SLOT)) then Continue(rfd)
    else if p.relayChild == 0 then (if p.closeOk then Continue(rfd[CHILD_OUT_SLOT := -1]) else Return(-1))
    else if p.relayChild == -1 then Return(-1)
    else Continue(rfd)
  }

  /** The signal channel's part of a pass. */
  function SignalPart(rfd: seq<int>, p: Pass): Step
    requires |rfd| == 4 && p.poll.Ready?
  {
    if !(p.poll.signal && Open(rfd, SIGNAL_SLOT)) then Continue(rfd)
    else if p.sigread == 0 then Return(0)
    else if p.sigread == -1 then Return(-1)
    else Continue(rfd)
  }

  /** One pass of the `for (;;)` loop of `event_loop`. */
  function LoopPass(rfd: seq<int>, p: Pass): Step
    requires |rfd| == 4
  {
    match p.poll
    case PollInterrupted => Continue(rfd)
    case PollFailed => Return(-1)
    case Ready(_, _, _, _) =>
      if p.poll.hangup && Open(rfd, CHILD_IN_SLOT) then CloseStdin(rfd, p)
      else match StdinPart(rfd, p)
        case Return(rv) => Return(rv)
        case Continue(r0) =>
          match ChildPart(r0, p)
          case Return(rv) => Return(rv)
          case Continue(r1) => SignalPart(r1, p)
  }

  /** The slots as `event_loop` watches them: the two slots of the stdin
      endpoint are open or closed together, and the signal slot is open. */
  predicate Watch(rfd: seq<int>) {
    |rfd| == 4 && (Open(rfd, STDIN_SLOT) <==> Open(rfd, CHILD_IN_SLOT)) && Open(rfd, SIGNAL_SLOT)
  }

  /** What a pass can do: return 0 only when the signal channel was ready
      and `sigread` reported the child's exit, return -1 only on a failure
      of `poll`, a `close`, a relay or `sigread`, and otherwise only close
      slots (never reopen one), keeping `Watch`. An end of file on a ready,
      open endpoint deactivates that endpoint's slots. */
  lemma PassEffects(rfd: seq<int>, p: Pass)
    requires Watch(rfd)
    ensures match LoopPass(rfd, p)
      case Return(rv) =>
        && (rv == 0 || rv == -1)
        && (rv == 0 ==> p.poll.Ready? && p.poll.signal && p.sigread == 0)
        && (rv == -1 ==> p.poll.PollFailed? || !p.closeOk || p.relayStdin == -1 || p.relayChild == -1 || p.sigread == -1)
      case Continue(r) =>
        && Watch(r)
        && r[SIGNAL_SLOT] == rfd[SIGNAL_SLOT]
        && (forall k :: 0 <= k < 4 ==> r[k] == rfd[k] || r[k] == -1)
        && (p.poll.Ready? && p.poll.stdin && Open(rfd, STDIN_SLOT) && p.relayStdin == 0 ==>
              r[STDIN_SLOT] == -1 && r[CHILD_IN_SLOT] == -1)
        && (p.poll.Ready? && !(p.poll.hangup && Open(rfd, CHILD_IN_SLOT)) &&
            p.poll.child && Open(rfd, CHILD_OUT_SLOT) && p.relayChild == 0 ==>
              r[CHILD_OUT_SLOT] == -1)
  {
  }

  /** EINTR from `poll` retries: the pass changes nothing. A hang-up on the
      child's input closes the stdin endpoint and ends the pass before any
      relay runs. */
  lemma PassPolls(rfd: seq<int>, p: Pass)
    requires Watch(rfd)
    ensures p.poll.PollInterrupted? ==> LoopPass(rfd, p) == Continue(rfd)
    ensures p.poll.PollFailed? ==> LoopPass(rfd, p) == Return(-1)
    ensures p.poll.Ready? && p.poll.hangup && Open(rfd, CHILD_IN_SLOT) ==> LoopPass(rfd, p) == CloseStdin(rfd, p)
  {
  }

  /** The passes `event_loop` makes from the slots `rfd` until it returns.
      None when it has not returned by the end of `passes`. */
  function Run(rfd: seq<int>, passes: seq<Pass>): Option<int>
    requires |rfd| == 4
    decreases |passes|
  {
    if |passes| == 0 then None
    else match LoopPass(rfd, passes[0])
      case Return(rv) => Some(rv)
      case Continue(r) => if |r| == 4 then Run(r, passes[1..]) else None
  }

  /** `event_loop` returns 0 or -1, and 0 only after a pass in which
      `sigread` reported the child's exit. */
  lemma {:induction false} RunOutcome(rfd: seq<int>, passes: seq<Pass>)
    requires Watch(rfd)
    requires Run(rfd, passes).Some?
    ensures Run(rfd, passes).value == 0 || Run(rfd, passes).value == -1
    ensures Run(rfd, passes).value == 0 ==>
      exists i :: 0 <= i < |passes| && passes[i].poll.Ready? && passes[i].poll.signal && passes[i].sigread == 0
    decreases |passes|
  {
    PassEffects(rfd, passes[0]);
    match LoopPass(rfd, passes[0])
    case Return(rv) =>
    case Continue(r) =>
      RunOutcome(r, passes[1..]);
      if Run(rfd, passes).value == 0 {
        var i :| 0 <= i < |passes[1..]| && passes[1..][i].poll.Ready? && passes[1..][i].poll.signal && passes[1..][i].sigread == 0;
        assert passes[i + 1] == passes[1..][i];
      }
  }

  /** The `rfd` array of `event_loop`, as it sets it up. */
  function Initial(stdin: int, child: int, signal: int, childIn: int): seq<int> {
    [stdin, child, signal, childIn]
  }

  /** One pass of the loop over the `rfd` array. */
  method RunPass(rfd: array<int>, p: Pass) returns (done: bool, rv: int)
    requires rfd.Length == 4
    modifies rfd
    ensures LoopPass(old(rfd[..]), p) == if done then Return(rv) else Continue(rfd[..])
  {
    rv := 0;
    done := false;
    if p.poll.PollInterrupted? {
      return;
    }
    if p.poll.PollFailed? {
      return true, -1;
    }
    if p.poll.hangup && rfd[CHILD_IN_SLOT] >= 0 {
      if !p.closeOk {
        return true, -1;
      }
      rfd[STDIN_SLOT] := -1;
      rfd[CHILD_IN_SLOT] := -1;
      return;
    }
    if p.poll.stdin && rfd[STDIN_SLOT] >= 0 {
      if p.relayStdin == 0 {
        if !p.closeOk {
          return true, -1;
        }
        rfd[STDIN_SLOT] := -1;
        rfd[CHILD_IN_SLOT] := -1;
      } else if p.relayStdin == -1 {
        return true, -1;
      }
    }
    if p.poll.child && rfd[CHILD_OUT_SLOT] >= 0 {
      if p.relayChild == 0 {
        if !p.closeOk {
          return true, -1;
        }
        rfd[CHILD_OUT_SLOT] := -1;
      } else if p.relayChild == -1 {
        return true, -1;
      }
    }
    if p.poll.signal && rfd[SIGNAL_SLOT] >= 0 {
      if p.sigread == 0 {
        return true, 0;
      } else if p.sigread == -1 {
        return true, -1;
      }
    }
  }

  /** `event_loop`, given the descriptors of its four slots and the passes
      the loop makes. */
  method Loop(stdin: int, child: int, signal: int, childIn: int, passes: seq<Pass>) returns (rv: int)
    requires Run(Initial(stdin, child, signal, childIn), passes).Some?
    ensures rv == Run(Initial(stdin, child, signal, childIn), passes).value
  {
    var rfd := new int[4];
    rfd[STDIN_SLOT], rfd[CHILD_OUT_SLOT], rfd[SIGNAL_SLOT], rfd[CHILD_IN_SLOT] := stdin, child, signal, childIn;
    assert rfd[..] == Initial(stdin, child, signal, childIn);
    ghost var whole := Run(rfd[..], passes);
    var rest := passes;
    while true
      invariant rfd.Length == 4
      invariant Run(rfd[..], rest) == whole
      decreases |rest|
    {
      var done;
      ghost var before := rfd[..];
      done, rv := RunPass(rfd, rest[0]);
      if done {
        return;
      }
      assert LoopPass(before, rest[0]) == Continue(rfd[..]);
      rest := rest[1..];
    }
  }
}
