/** The two pure pieces of hexlog's `main`: the command-line direction token
    and the exit status the supervisor passes on once the child is reaped. */
module Cli {
  import opened HexlogBase

  /** The tokens `direction` accepts, in the order it tries them. */
  const Tokens: seq<string> := ["none", "in", "out", "inout"]

  /** `direction`: the mask a token names, or None when the token is not one
      of the four (the C function then returns -1 and leaves the mask alone). */
  function Direction(name: string): (d: Option<int>)
    ensures d.Some? <==> name in Tokens
    ensures d.Some? ==> IsMask(d.value)
    ensures d.Some? ==> (HasBit(d.value, IN) <==> name == "in" || name == "inout")
    ensures d.Some? ==> (HasBit(d.value, OUT) <==> name == "out" || name == "inout")
  {
    if name == "none" then Some(NONE)
    else if name == "in" then Some(IN)
    else if name == "out" then Some(OUT)
    else if name == "inout" then Some(IN + OUT)
    else None
  }

  /** The token that names a mask; the inverse of `Direction`. */
  function DirectionName(d: int): (name: string)
    requires IsMask(d)
    ensures name in Tokens
  {
    Tokens[d]
  }

  /** Every mask has a token, and the token parses back to it. */
  lemma DirectionOnto(d: int)
    requires IsMask(d)
    ensures Direction(DirectionName(d)) == Some(d)
  {
  }

  /** Every accepted token is the name of the mask it parses to, so no two
      tokens name the same mask. */
  lemma DirectionOneToOne(name: string)
    requires Direction(name).Some?
    ensures DirectionName(Direction(name).value) == name
  {
  }

  /** What `waitpid` reports about the child. Exit codes are 0..255 and
      termination signals 1..127, as the status word encodes them. */
  datatype WaitStatus = Exited(code: int) | Signaled(sig: int) | Other

  predicate ValidStatus(s: WaitStatus) {
    match s
    case Exited(c) => 0 <= c <= 255
    case Signaled(g) => 1 <= g <= 127
    case Other => true
  }

  /** The code `main` exits with for a reaped child. */
  function ExitCode(s: WaitStatus): (code: int)
    requires ValidStatus(s)
    ensures 0 <= code <= 255
    ensures code >= 128 ==> !s.Other?
  {
    match s
    case Exited(c) => c
    case Signaled(g) => 128 + g
    case Other => 0
  }

  /** The code tells normal exits apart from deaths by signal except where a
      child chose to exit with 129..255: an exit code below 128 is the child's
      own, a signal is recovered as code - 128, and only an exit code of 0
      can stand for a status that is neither. */
  lemma ExitCodeDecodes(s: WaitStatus)
    requires ValidStatus(s)
    ensures ExitCode(s) < 128 ==> s == Exited(ExitCode(s)) || (s == Other && ExitCode(s) == 0)
    ensures ExitCode(s) > 128 ==> s == Signaled(ExitCode(s) - 128) || s == Exited(ExitCode(s))
    ensures ExitCode(s) == 128 ==> s == Exited(128)
  {
  }

  /** Two statuses that map to the same code: the ambiguity the mapping has. */
  lemma ExitCodeAmbiguous()
    ensures ExitCode(Exited(137)) == ExitCode(Signaled(9))
    ensures ExitCode(Exited(0)) == ExitCode(Other)
  {
  }

  /** The code `main` exits with after the event loop: 111 when the loop
      failed or the child could not be reaped, else the child's status mapped
      by `ExitCode`. */
  function MainExit(loop: int, wait: Option<WaitStatus>): (code: int)
    requires wait.Some? ==> ValidStatus(wait.value)
    ensures 0 <= code <= 255
    ensures loop < 0 ==> code == 111
    ensures wait.None? ==> code == 111
    ensures loop >= 0 && wait.Some? ==> code == ExitCode(wait.value)
  {
    if loop < 0 then 111
    else match wait
      case None => 111
      case Some(s) => ExitCode(s)
  }
}
