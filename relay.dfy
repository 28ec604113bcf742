/** `relay`: one transfer between an endpoint's input and output. It reads a
    chunk of up to 4096 bytes, forwards as many bytes as it read to the
    output through `hexlog_write` (see `Forwards`), and then,
    when the direction is being logged, appends it to the endpoint's carry
    buffer and dumps the largest 16-aligned prefix of carry and chunk, so
    every dump line but the last of a session is a full sixteen bytes. */
module Relay {
  import opened HexlogBase
  import opened HexDump
  import opened FullWrite

  /** The size of `hexlog_t.buf`. */
  const BUF_SIZE: nat := 8192
  /** The size of the chunk buffer `relay` reads into. */
  const CHUNK_SIZE: nat := 4096

  /** What one `read` call answers: the bytes it delivered (none at end of
      file), an interruption (-1 with EINTR), or any other error. `read`
      never delivers more than asked: bytes past the 4096th are cut. */
  datatype ReadAnswer = Data(bytes: seq<byte>) | ReadInterrupted | ReadFailed

  /** The read loop at the top of `relay`: the first answer that is not an
      interruption. None when the script runs out first. */
  function ReadRetry(script: seq<ReadAnswer>): (r: Option<ReadAnswer>)
    ensures r.Some? ==> !r.value.ReadInterrupted?
    decreases |script|
  {
    if |script| == 0 then None
    else if script[0].ReadInterrupted? then ReadRetry(script[1..])
    else Some(script[0])
  }

  /** The retry skips exactly the interruptions in front: the answer it
      settles on is the first other one in the script. */
  lemma {:induction false} ReadRetrySkips(script: seq<ReadAnswer>, i: nat)
    requires i < |script| && !script[i].ReadInterrupted?
    requires forall j :: 0 <= j < i ==> script[j].ReadInterrupted?
    ensures ReadRetry(script) == Some(script[i])
    decreases i
  {
    if i > 0 {
      assert script[0].ReadInterrupted?;
      assert forall j :: 0 <= j < i - 1 ==> script[1..][j] == script[j + 1];
      ReadRetrySkips(script[1..], i - 1);
    }
  }

  /** The bytes a `Data` answer puts in the chunk buffer. */
  function Delivered(a: ReadAnswer): (data: seq<byte>)
    requires a.Data?
    ensures |data| <= CHUNK_SIZE
    ensures |data| <= |a.bytes| && data == a.bytes[..|data|]
    ensures |a.bytes| <= CHUNK_SIZE ==> data == a.bytes
  {
    a.bytes[..Min(|a.bytes|, CHUNK_SIZE)]
  }

  /** Whether `dir` logs the endpoint reading from `fdin`: the one reading
      standard input is gated by IN, the other by OUT. */
  predicate Logged(fdin: int, dir: int) {
    if fdin == STDIN_FILENO then HasBit(dir, IN) else HasBit(dir, OUT)
  }

  /** The carry and the new chunk, split into what is dumped and what is kept. */
  datatype Split = Split(dumped: seq<byte>, kept: seq<byte>)

  /** The largest 16-aligned prefix of `all` and the fewer than sixteen bytes
      after it. */
  function Align(all: seq<byte>): (s: Split)
    ensures s.dumped + s.kept == all
    ensures |s.dumped| % 16 == 0 && |s.kept| < 16
  {
    var len := (|all| / 16) * 16;
    assert all[..len] + all[len..] == all;
    Split(all[..len], all[len..])
  }

  /** `Align` is the only way to cut a sequence into a 16-aligned prefix and
      fewer than sixteen bytes after it. */
  lemma AlignUnique(all: seq<byte>, p: seq<byte>, q: seq<byte>)
    requires p + q == all && |p| % 16 == 0 && |q| < 16
    ensures Align(all) == Split(p, q)
  {
    var s := Align(all);
    DivMod(|p| / 16, |q|, 16);
    assert |s.dumped| == |p|;
    assert p == all[..|p|] && s.dumped == all[..|p|];
    assert q == all[|p|..] && s.kept == all[|p|..];
  }

  /** The state a call of `relay` ends in, given the carry it started from:
      its return value, what it forwarded, what it dumped, and the new carry. */
  datatype Outcome = Outcome(rv: int, forwarded: seq<byte>, dumped: seq<byte>, carry: seq<byte>)

  /** `relay` on an endpoint reading from `fdin`, with the mask `dir`, the
      carry `carry`, and the answers its `read` and `write` calls get. None
      when one of the scripts runs out before the call ends. */
  function RelayStep(fdin: int, dir: int, carry: seq<byte>, input: seq<ReadAnswer>, output: seq<WriteAnswer>): Option<Outcome> {
    match ReadRetry(input)
    case None => None
    case Some(a) =>
      if a.ReadFailed? then Some(Outcome(-1, [], [], carry))
      else
        var data := Delivered(a);
        if |data| == 0 then Some(Outcome(0, [], [], carry))
        else match WriteLoop(data, 0, output)
          case None => None
          case Some(w) =>
            if w.rv == -1 then Some(Outcome(-1, w.sent, [], carry))
            else if !Logged(fdin, dir) then Some(Outcome(1, w.sent, [], []))
            else
              var s := Align(carry + data);
              Some(Outcome(1, w.sent, s.dumped, s.kept))
  }

  /** Carry bound: a carry shorter than sixteen bytes stays shorter than
      sixteen, whatever the call does. */
  lemma CarryBound(fdin: int, dir: int, carry: seq<byte>, input: seq<ReadAnswer>, output: seq<WriteAnswer>)
    requires |carry| < 16
    requires RelayStep(fdin, dir, carry, input, output).Some?
    ensures |RelayStep(fdin, dir, carry, input, output).value.carry| < 16
  {
  }

  /** A call that reads `data` and forwards it with success, on a logged
      direction: nothing is lost or duplicated between the dump and the new
      carry; a multiple of sixteen bytes is dumped, ((off+n)/16)*16 of them;
      (off+n) % 16 bytes are kept; and a dump happens only when off+n > 15. */
  lemma Conservation(fdin: int, dir: int, carry: seq<byte>, input: seq<ReadAnswer>, output: seq<WriteAnswer>)
    requires RelayStep(fdin, dir, carry, input, output).Some?
    requires RelayStep(fdin, dir, carry, input, output).value.rv == 1
    requires Logged(fdin, dir)
    ensures var r, data := RelayStep(fdin, dir, carry, input, output).value, Delivered(ReadRetry(input).value);
      && r.dumped + r.carry == carry + data
      && |r.dumped| == ((|carry| + |data|) / 16) * 16
      && |r.carry| == (|carry| + |data|) % 16
      && (|r.dumped| > 0 <==> |carry| + |data| > 15)
  {
    var data := Delivered(ReadRetry(input).value);
    var s := Align(carry + data);
    DivMod((|carry| + |data|) / 16, (|carry| + |data|) % 16, 16);
    DivMod(|s.dumped| / 16, |s.kept|, 16);
  }

  /** A direction that is not logged: once a chunk has been read and
      forwarded, the call returns 1 with what the write loop sent, dumps
      nothing and drops the carry. */
  lemma Unlogged(fdin: int, dir: int, carry: seq<byte>, input: seq<ReadAnswer>, output: seq<WriteAnswer>)
    requires RelayStep(fdin, dir, carry, input, output).Some?
    requires !Logged(fdin, dir)
    ensures var r, a := RelayStep(fdin, dir, carry, input, output).value, ReadRetry(input).value;
      && (a.Data? && |Delivered(a)| > 0 && WriteLoop(Delivered(a), 0, output).value.rv == 0 ==>
            r.rv == 1 && r.forwarded == WriteLoop(Delivered(a), 0, output).value.sent)
      && (r.rv == 1 ==> r.dumped == [] && r.carry == [])
  {
  }

  /** Relay happens before logging: what is forwarded and what is returned
      do not depend on the direction mask. */
  lemma ForwardFirst(fdin: int, d1: int, d2: int, carry: seq<byte>, input: seq<ReadAnswer>, output: seq<WriteAnswer>)
    requires RelayStep(fdin, d1, carry, input, output).Some?
    ensures RelayStep(fdin, d2, carry, input, output).Some?
    ensures RelayStep(fdin, d1, carry, input, output).value.forwarded == RelayStep(fdin, d2, carry, input, output).value.forwarded
    ensures RelayStep(fdin, d1, carry, input, output).value.rv == RelayStep(fdin, d2, carry, input, output).value.rv
  {
  }

  /** The calls that do not return 1: end of file returns 0, a read error
      or a failed forward returns -1, and in each of them the carry is left
      as it was and nothing is dumped. */
  lemma Failures(fdin: int, dir: int, carry: seq<byte>, input: seq<ReadAnswer>, output: seq<WriteAnswer>)
    requires RelayStep(fdin, dir, carry, input, output).Some?
    ensures var r, a := RelayStep(fdin, dir, carry, input, output).value, ReadRetry(input).value;
      && (r.rv == 0 || r.rv == 1 || r.rv == -1)
      && (r.rv == 0 <==> a.Data? && |Delivered(a)| == 0)
      && (a.ReadFailed? ==> r.rv == -1 && r.forwarded == [])
      && (r.rv == -1 && a.Data? ==> WriteLoop(Delivered(a), 0, output).value.rv == -1)
      && (r.rv != 1 ==> r.carry == carry && r.dumped == [])
  {
    var a := ReadRetry(input).value;
    if a.Data? && |Delivered(a)| > 0 {
      WriteOutcome(Delivered(a), 0, output);
    }
  }

  /** What `relay` forwards. A call that returns 1 has forwarded as many
      bytes as it read; when every `write` took its whole request they are
      the chunk itself. With the corrected `hexlog_write` the chunk goes out
      unaltered however the writes are split, and the call returns the same. */
  lemma Forwards(fdin: int, dir: int, carry: seq<byte>, input: seq<ReadAnswer>, output: seq<WriteAnswer>)
    requires RelayStep(fdin, dir, carry, input, output).Some?
    ensures var r, a := RelayStep(fdin, dir, carry, input, output).value, ReadRetry(input).value;
      && (r.rv == 1 ==> a.Data? && |r.forwarded| == |Delivered(a)|)
      && (r.rv == 1 && WholeRequests(Delivered(a), output) ==> r.forwarded == Delivered(a))
      && (r.rv == 1 ==> IntendedLoop(Delivered(a), 0, output).Some? &&
                        IntendedLoop(Delivered(a), 0, output).value.rv == 0 &&
                        IntendedLoop(Delivered(a), 0, output).value.sent == Delivered(a))
  {
    var a := ReadRetry(input).value;
    if a.Data? && |Delivered(a)| > 0 {
      var data := Delivered(a);
      WriteOutcome(data, 0, output);
      SameControl(data, 0, output);
      if WriteLoop(data, 0, output).value.rv == 0 {
        IntendedDelivers(data, 0, output);
        assert data[0..] == data;
        if WholeRequests(data, output) {
          WholeRequestsDeliver(data, output);
        }
      }
    }
  }

  /** The partial write of `hexlog_write` at the level of `relay`: four bytes
      read from the child and written two and two reach the caller as
      1,2,1,2, and the call still returns 1. */
  lemma PartialRelayRepeats()
    ensures var r := RelayStep(3, NONE, [], [Data([1, 2, 3, 4])], [Accepted(2), Accepted(2)]);
      r.Some? && r.value.rv == 1 && r.value.forwarded == [1, 2, 1, 2]
  {
    var a := Data([1, 2, 3, 4]);
    assert ReadRetry([a]) == Some(a);
    assert Delivered(a) == [1, 2, 3, 4];
    PartialWriteRepeats();
  }

  /** The first `memcpy` of `relay` copies `len` bytes of the chunk buffer,
      not `len - off`: more than the call dumps, but inside both buffers,
      since off + len <= 15 + 4096 < 8192. The dumped bytes of the chunk
      and the bytes kept after them are exactly the `n` it read. */
  lemma OverCopyInBounds(off: nat, n: nat)
    requires off < 16 && 0 < n <= CHUNK_SIZE && off + n > 15
    ensures var len := ((off + n) / 16) * 16;
      && off <= len <= CHUNK_SIZE
      && off + len < BUF_SIZE
      && (len - off) + (off + n) % 16 == n
  {
    DivMod((off + n) / 16, (off + n) % 16, 16);
  }

  /** After the first `memcpy`, the buffer's first `len` bytes are the
      first `len` bytes of carry and chunk together. */
  lemma DumpedPrefix(b: seq<byte>, carry: seq<byte>, chunk: seq<byte>, len: nat, n: nat)
    requires |carry| <= len <= |carry| + n && n <= |chunk| && len <= |chunk| && |carry| + len <= |b|
    requires b[..|carry|] == carry && b[|carry|..|carry| + len] == chunk[..len]
    ensures b[..len] == (carry + chunk[..n])[..len]
  {
    var off := |carry|;
    assert b[..len] == b[..off] + b[off..len];
    assert b[off..len] == b[off..off + len][..len - off];
    assert (carry + chunk[..n])[..len] == carry + chunk[..len - off];
  }

  /** After the second `memcpy`, the buffer starts with what follows the
      dumped prefix of carry and chunk. */
  lemma KeptSuffix(b: seq<byte>, carry: seq<byte>, chunk: seq<byte>, len: nat, n: nat)
    requires |carry| <= len <= |carry| + n && n <= |chunk| && |carry| + n - len <= |b|
    requires b[..|carry| + n - len] == chunk[len - |carry|..n]
    ensures b[..|carry| + n - len] == (carry + chunk[..n])[len..]
  {
    assert (carry + chunk[..n])[len..] == chunk[..n][len - |carry|..];
  }

  /** `memcpy(dst + d, src + s, len)` between two distinct buffers. */
  method Memcpy(dst: array<byte>, d: nat, src: array<byte>, s: nat, len: nat)
    requires dst != src && d + len <= dst.Length && s + len <= src.Length
    modifies dst
    ensures dst[..d] == old(dst[..d])
    ensures dst[d..d + len] == src[s..s + len]
    ensures dst[d + len..] == old(dst[d + len..])
  {
    forall j | d <= j < d + len {
      dst[j] := src[j - d + s];
    }
  }

  /** The read loop of `relay`: `read` into `chunk` until an answer other
      than EINTR; returns its count, -1 for an error. */
  method ReadChunk(chunk: array<byte>, input: seq<ReadAnswer>) returns (n: int)
    requires chunk.Length == CHUNK_SIZE
    requires ReadRetry(input).Some?
    modifies chunk
    ensures ReadRetry(input).value.ReadFailed? ==> n == -1
    ensures ReadRetry(input).value.Data? ==> 0 <= n == |Delivered(ReadRetry(input).value)| && chunk[..n] == Delivered(ReadRetry(input).value)
  {
    var rest := input;
    while true
      invariant ReadRetry(rest) == ReadRetry(input)
      decreases |rest|
    {
      var answer := rest[0];
      rest := rest[1..];
      if answer.ReadFailed? {
        return -1;
      }
      if answer.Data? {
        var data := Delivered(answer);
        forall j | 0 <= j < |data| {
          chunk[j] := data[j];
        }
        assert chunk[..|data|] == data;
        return |data|;
      }
    }
  }

  /** One side of the supervisor: the descriptor it reads from, the one it
      forwards to, the label (`tag`) of its dump lines, and its carry buffer. */
  class Endpoint {
    const fdin: int
    const fdout: int
    const tag: string
    const buf: array<byte>
    var off: nat

    ghost predicate Valid()
      reads this
    {
      buf.Length == BUF_SIZE && off < 16
    }

    /** The bytes read but not dumped yet. */
    function Carry(): seq<byte>
      reads this, buf
      requires Valid()
    {
      buf[..off]
    }

    /** An endpoint as `main` sets it up: zeroed, so with an empty carry. */
    constructor(fdin: int, fdout: int, tag: string)
      ensures Valid() && this.fdin == fdin && this.fdout == fdout && this.tag == tag
      ensures Carry() == []
    {
      this.fdin, this.fdout, this.tag := fdin, fdout, tag;
      buf := new byte[BUF_SIZE];
      off := 0;
    }

    /** The logging half of `relay`: append the `n` bytes of `chunk` to the
        carry, dump the 16-aligned prefix, keep the rest. */
    method Store(chunk: array<byte>, n: nat) returns (log: string)
      requires Valid() && chunk.Length == CHUNK_SIZE && 0 < n <= CHUNK_SIZE
      modifies this, buf
      ensures Valid()
      ensures var s := Align(old(Carry()) + chunk[..n]);
        log == DumpText(tag, s.dumped) && Carry() == s.kept
    {
      ghost var all := Carry() + chunk[..n];
      if off + n > 15 {
        log := DumpAligned(chunk, n, Carry(), all);
      } else {
        log := Accumulate(chunk, n, Carry(), all);
      }
    }

    /** `Store` once carry and chunk reach sixteen bytes: copy the chunk in
        behind the carry, dump the aligned prefix, move the rest to the front. */
    method DumpAligned(chunk: array<byte>, n: nat, ghost carry: seq<byte>, ghost all: seq<byte>) returns (log: string)
      requires Valid() && chunk.Length == CHUNK_SIZE && 0 < n <= CHUNK_SIZE
      requires carry == Carry() && all == carry + chunk[..n] && off + n > 15
      modifies this, buf
      ensures Valid()
      ensures log == DumpText(tag, Align(all).dumped) && Carry() == Align(all).kept
    {
      var len := ((off + n) / 16) * 16;
      var rem := (off + n) % 16;
      OverCopyInBounds(off, n);
      CopyIn(chunk, n, len, carry, all);
      log := Hexdump(tag, buf, len);
      assert log == DumpText(tag, Align(all).dumped);
      MoveRest(chunk, n, len, rem, carry, all);
      off := rem;
    }

    /** The first `memcpy`: `len` bytes of the chunk behind the carry. */
    method CopyIn(chunk: array<byte>, n: nat, len: nat, ghost carry: seq<byte>, ghost all: seq<byte>)
      requires Valid() && chunk.Length == CHUNK_SIZE && 0 < n <= CHUNK_SIZE
      requires carry == Carry() && all == carry + chunk[..n]
      requires len == ((off + n) / 16) * 16 && off <= len <= CHUNK_SIZE && off + len < BUF_SIZE
      modifies buf
      ensures buf[..len] == Align(all).dumped
    {
      Memcpy(buf, off, chunk, 0, len);
      DumpedPrefix(buf[..], carry, chunk[..], len, n);
    }

    /** The second `memcpy`: the `rem` bytes after the dumped prefix to the
        front of the buffer. */
    method MoveRest(chunk: array<byte>, n: nat, len: nat, rem: nat, ghost carry: seq<byte>, ghost all: seq<byte>)
      requires Valid() && chunk.Length == CHUNK_SIZE && 0 < n <= CHUNK_SIZE
      requires |carry| == off && all == carry + chunk[..n]
      requires len == ((off + n) / 16) * 16 && rem == (off + n) % 16
      requires off <= len <= CHUNK_SIZE && (len - off) + rem == n
      modifies buf
      ensures buf[..rem] == Align(all).kept
    {
      if rem > 0 {
        Memcpy(buf, 0, chunk, len - off, rem);
      }
      assert buf[..rem] == chunk[..][len - off..n];
      KeptSuffix(buf[..], carry, chunk[..], len, n);
    }

    /** `Store` while carry and chunk stay under sixteen bytes: append. */
    method Accumulate(chunk: array<byte>, n: nat, ghost carry: seq<byte>, ghost all: seq<byte>) returns (log: string)
      requires Valid() && chunk.Length == CHUNK_SIZE && 0 < n <= CHUNK_SIZE
      requires carry == Carry() && all == carry + chunk[..n] && off + n <= 15
      modifies this, buf
      ensures Valid()
      ensures log == DumpText(tag, Align(all).dumped) && Carry() == Align(all).kept
    {
      Memcpy(buf, off, chunk, 0, n);
      off := off + n;
      assert buf[..off] == all;
      assert Align(all).dumped == all[..0] == [];
      EmptyDump(tag);
      log := "";
    }

    /** `relay`, with the mask `dir` and the answers its `read` and `write`
        calls get. Returns its return value, the bytes the output received,
        and the text it wrote to the log. */
    method Relay(dir: int, input: seq<ReadAnswer>, output: seq<WriteAnswer>) returns (rv: int, forwarded: seq<byte>, log: string)
      requires Valid()
      requires RelayStep(fdin, dir, Carry(), input, output).Some?
      modifies this, buf
      ensures Valid()
      ensures var r := RelayStep(fdin, dir, old(Carry()), input, output).value;
        rv == r.rv && forwarded == r.forwarded && log == DumpText(tag, r.dumped) && Carry() == r.carry
    {
      EmptyDump(tag);
      var chunk := new byte[CHUNK_SIZE];
      var n := ReadChunk(chunk, input);
      if n < 1 {
        return n, [], "";
      }
      var w;
      w, forwarded := HexlogWrite(chunk, n, output);
      if w == -1 {
        return -1, forwarded, "";
      }
      WriteOutcome(chunk[..n], 0, output);
      if fdin == STDIN_FILENO {
        if !HasBit(dir, IN) {
          off := 0;
          return 1, forwarded, "";
        }
      } else {
        if !HasBit(dir, OUT) {
          off := 0;
          return 1, forwarded, "";
        }
      }
      log := Store(chunk, n);
      rv := 1;
    }

    /** What `main` dumps of the endpoint after the event loop ends: the
        carry, when there is one. */
    method Flush() returns (log: string)
      requires Valid()
      ensures log == if off > 0 then Line(tag, Carry()) else ""
    {
      log := "";
      if off > 0 {
        log := Hexdump(tag, buf, off);
        FlushOneLine(tag, buf[..off]);
      }
    }
  }

  /** A dump of nothing output nothing. */
  lemma EmptyDump(tag: string)
    ensures DumpText(tag, []) == ""
  {
  }

  /** A carry of 1 to 15 bytes dumps as one short line. */
  lemma FlushOneLine(tag: string, carry: seq<byte>)
    requires 0 < |carry| < 16
    ensures DumpText(tag, carry) == Line(tag, carry)
  {
    assert ChunksFrom(carry, 16) == [];
    assert LineChunk(carry, 0) == carry;
    assert Chunks(carry) == [carry];
    assert [carry][1..] == [];
    assert Render(tag, [carry]) == Line(tag, carry) + Render(tag, []);
  }
}
