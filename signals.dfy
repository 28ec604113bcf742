/** `sigread` and the global direction mask it updates. The signal handler
    writes each caught signal number as one `int` into a socket; `sigread`
    reads one back and applies it to the mask `dir` that gates logging. */
module SignalControl {
  import opened HexlogBase

  /** `sizeof(int)`: the byte count of one record on the signal channel. */
  const SIG_SIZE: int := 4

  /** `dir & bit ? dir & ~bit : dir | bit`: `dir` with one bit flipped. */
  function Toggle(d: int, bit: int): (r: int)
    requires bit == IN || bit == OUT
    ensures HasBit(r, bit) <==> !HasBit(d, bit)
    ensures bit == IN ==> (HasBit(r, OUT) <==> HasBit(d, OUT))
    ensures bit == OUT ==> (HasBit(r, IN) <==> HasBit(d, IN))
    ensures IsMask(d) ==> IsMask(r)
  {
    if HasBit(d, bit) then d - bit else d + bit
  }

  /** Flipping the same bit twice restores the mask. */
  lemma ToggleTwice(d: int, bit: int)
    requires bit == IN || bit == OUT
    ensures Toggle(Toggle(d, bit), bit) == d
  {
  }

  /** A mask is determined by its two bits. */
  lemma MaskBits(d: int, e: int)
    requires IsMask(d) && IsMask(e)
    requires HasBit(d, IN) == HasBit(e, IN) && HasBit(d, OUT) == HasBit(e, OUT)
    ensures d == e
  {
  }

  /** What one call of `sigread` returns and leaves in `dir`. */
  datatype Outcome = Outcome(rv: int, dir: int)

  /** `sigread` on a read of `n` bytes that delivered the signal number `sig`. */
  function SigStep(dir: int, n: int, sig: int): (o: Outcome)
    ensures o.rv == -1 <==> n != SIG_SIZE
    ensures o.rv == 0 <==> n == SIG_SIZE && sig == SIGCHLD
    ensures o.rv == 1 <==> n == SIG_SIZE && sig != SIGCHLD
    ensures IsMask(dir) ==> IsMask(o.dir)
  {
    if n != SIG_SIZE then Outcome(-1, dir)
    else if sig == SIGCHLD then Outcome(0, dir)
    else if sig == SIGHUP then Outcome(1, NONE)
    else if sig == SIGUSR1 then Outcome(1, Toggle(dir, IN))
    else if sig == SIGUSR2 then Outcome(1, Toggle(dir, OUT))
    else Outcome(1, dir)
  }

  /** The mask `sigread` leaves after reading the signal `sig` in full. */
  function Apply(dir: int, sig: int): int {
    SigStep(dir, SIG_SIZE, sig).dir
  }

  /** Per signal: SIGUSR1 flips only IN and SIGUSR2 only OUT, SIGHUP clears
      the mask whatever it held, and every other value (SIGCHLD included)
      leaves it as it was; a short read changes nothing either. */
  lemma SignalEffects(dir: int, n: int, sig: int)
    requires IsMask(dir)
    ensures n != SIG_SIZE ==> SigStep(dir, n, sig).dir == dir
    ensures n == SIG_SIZE && sig == SIGHUP ==> SigStep(dir, n, sig).dir == NONE
    ensures n == SIG_SIZE && sig == SIGUSR1 ==>
      (HasBit(SigStep(dir, n, sig).dir, IN) != HasBit(dir, IN)) &&
      (HasBit(SigStep(dir, n, sig).dir, OUT) == HasBit(dir, OUT))
    ensures n == SIG_SIZE && sig == SIGUSR2 ==>
      (HasBit(SigStep(dir, n, sig).dir, OUT) != HasBit(dir, OUT)) &&
      (HasBit(SigStep(dir, n, sig).dir, IN) == HasBit(dir, IN))
    ensures n == SIG_SIZE && sig !in [SIGHUP, SIGUSR1, SIGUSR2] ==> SigStep(dir, n, sig).dir == dir
  {
  }

  /** A user signal applied twice restores the mask. */
  lemma UserSignalTwice(dir: int, sig: int)
    requires sig == SIGUSR1 || sig == SIGUSR2
    ensures Apply(Apply(dir, sig), sig) == dir
  {
    ToggleTwice(dir, if sig == SIGUSR1 then IN else OUT);
  }

  /** The two user signals commute. */
  lemma UserSignalsCommute(dir: int)
    requires IsMask(dir)
    ensures Apply(Apply(dir, SIGUSR1), SIGUSR2) == Apply(Apply(dir, SIGUSR2), SIGUSR1)
  {
    MaskBits(Apply(Apply(dir, SIGUSR1), SIGUSR2), Apply(Apply(dir, SIGUSR2), SIGUSR1));
  }

  /** The mask after `sigread` has read each signal of `sigs` in turn. */
  function MaskAfter(dir: int, sigs: seq<int>): (d: int)
    ensures IsMask(dir) ==> IsMask(d)
    decreases |sigs|
  {
    if |sigs| == 0 then dir else MaskAfter(Apply(dir, sigs[0]), sigs[1..])
  }

  lemma {:induction false} MaskAfterAppend(dir: int, s: seq<int>, t: seq<int>)
    ensures MaskAfter(dir, s + t) == MaskAfter(MaskAfter(dir, s), t)
    decreases |s|
  {
    if |s| > 0 {
      assert (s + t)[1..] == s[1..] + t;
      MaskAfterAppend(Apply(dir, s[0]), s[1..], t);
    } else {
      assert s + t == t;
    }
  }

  /** SIGHUP forgets the history: what follows it starts from NONE, not from
      the mask given on the command line. */
  lemma HangupForgets(dir: int, s: seq<int>, t: seq<int>)
    ensures MaskAfter(dir, s + [SIGHUP] + t) == MaskAfter(NONE, t)
  {
    MaskAfterAppend(dir, s + [SIGHUP], t);
    MaskAfterAppend(dir, s, [SIGHUP]);
  }

  /** How many times `sig` occurs in `sigs`. */
  function Count(sigs: seq<int>, sig: int): nat
    decreases |sigs|
  {
    if |sigs| == 0 then 0 else (if sigs[0] == sig then 1 else 0) + Count(sigs[1..], sig)
  }

  /** Without a SIGHUP, the IN bit ends up flipped once per SIGUSR1 and the
      OUT bit once per SIGUSR2. */
  lemma {:induction false} MaskParity(dir: int, sigs: seq<int>)
    requires IsMask(dir)
    requires SIGHUP !in sigs
    ensures HasBit(MaskAfter(dir, sigs), IN) <==> (HasBit(dir, IN) != (Count(sigs, SIGUSR1) % 2 == 1))
    ensures HasBit(MaskAfter(dir, sigs), OUT) <==> (HasBit(dir, OUT) != (Count(sigs, SIGUSR2) % 2 == 1))
    decreases |sigs|
  {
    if |sigs| > 0 {
      assert sigs == [sigs[0]] + sigs[1..];
      var next := Apply(dir, sigs[0]);
      SignalEffects(dir, SIG_SIZE, sigs[0]);
      MaskParity(next, sigs[1..]);
    }
  }

  /** The global `dir`, with `sigread` as its only writer after start-up. */
  class Control {
    var dir: int

    predicate Valid()
      reads this
    {
      IsMask(dir)
    }

    /** `dir` as `direction` set it from the command line. */
    constructor(d: int)
      requires IsMask(d)
      ensures Valid() && dir == d
    {
      dir := d;
    }

    /** `sigread`, given the byte count `n` its read returned and the signal
        number `sig` it read. */
    method SigRead(n: int, sig: int) returns (rv: int)
      requires Valid()
      modifies this
      ensures Valid()
      ensures Outcome(rv, dir) == SigStep(old(dir), n, sig)
    {
      if n != SIG_SIZE {
        return -1;
      }
      if sig == SIGCHLD {
        return 0;
      } else if sig == SIGHUP {
        dir := NONE;
      } else if sig == SIGUSR1 {
        if HasBit(dir, IN) {
          dir := dir - IN;
        } else {
          dir := dir + IN;
        }
      } else if sig == SIGUSR2 {
        if HasBit(dir, OUT) {
          dir := dir - OUT;
        } else {
          dir := dir + OUT;
        }
      }
      return 1;
    }
  }
}
