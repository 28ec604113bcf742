/** The hex-dump log formatter: `hexdump` renders a byte range as lines of
    sixteen upper-case hex triplets, an ASCII column and the endpoint's label.
    The formatter's output stream (stderr) is modelled as the text it receives. */
module HexDump {
  import opened HexlogBase

  /** Upper-case hexadecimal digit of a value below 16, as `%X` prints it. */
  function HexDigit(v: int): (c: char)
    requires 0 <= v < 16
    ensures '0' <= c <= '9' || 'A' <= c <= 'F'
    ensures (v < 10) == ('0' <= c <= '9')
  {
    if v < 10 then ('0' as int + v) as char else ('A' as int + v - 10) as char
  }

  /** Value of an upper-case hexadecimal digit: the inverse of HexDigit. */
  function DigitValue(c: char): int {
    if '0' <= c <= '9' then c as int - '0' as int else c as int - 'A' as int + 10
  }

  /** `%02X` applied to one byte. */
  function Hex2(b: byte): (s: string)
    ensures |s| == 2
  {
    [HexDigit(b as int / 16), HexDigit(b as int % 16)]
  }

  /** What one `"%02X "` writes: a byte's two digits and a space. */
  function Triplet(b: byte): (s: string)
    ensures |s| == 3
  {
    Hex2(b) + " "
  }

  /** The two digits of Hex2 are upper-case hex digits and read back as the byte. */
  lemma Hex2RoundTrip(b: byte)
    ensures forall k :: 0 <= k < 2 ==> '0' <= Hex2(b)[k] <= '9' || 'A' <= Hex2(b)[k] <= 'F'
    ensures 16 * DigitValue(Hex2(b)[0]) + DigitValue(Hex2(b)[1]) == b as int
  {
  }

  /** Bytes shown verbatim in the ASCII column: space through tilde. */
  predicate Printable(b: byte) {
    0x20 <= b <= 0x7E
  }

  /** The ASCII column's rendering of one byte. */
  function AsciiChar(b: byte): char {
    if Printable(b) then b as int as char else '.'
  }

  /** `n` space characters. */
  function Spaces(n: nat): (s: string)
    ensures |s| == n && forall k :: 0 <= k < n ==> s[k] == ' '
  {
    if n == 0 then "" else Spaces(n - 1) + " "
  }

  /** Column `p` (0..15) of the hex field: the byte's two digits and a space,
      or three blanks past the end of the chunk; the column after the eighth
      byte carries one more space. */
  function Cell(chunk: seq<byte>, p: nat): string {
    (if p < |chunk| then Triplet(chunk[p]) else "   ") + (if p == 7 then " " else "")
  }

  /** Columns `a` up to (not including) `b` of the hex field. */
  function Cells(chunk: seq<byte>, a: nat, b: nat): string
    decreases b
  {
    if b <= a then "" else Cells(chunk, a, b - 1) + Cell(chunk, b - 1)
  }

  /** The hex field of one line: sixteen columns and a closing space. */
  function HexField(chunk: seq<byte>): string {
    Cells(chunk, 0, 16) + " "
  }

  /** The ASCII column of one line: one character per byte of the chunk. */
  function AsciiField(chunk: seq<byte>): (s: string)
    ensures |s| == |chunk| && forall k :: 0 <= k < |chunk| ==> s[k] == AsciiChar(chunk[k])
  {
    if |chunk| == 0 then "" else AsciiField(chunk[..|chunk| - 1]) + [AsciiChar(chunk[|chunk| - 1])]
  }

  /** What one `"|%s|%s\n"` writes after the hex field. */
  function LineEnd(ascii: string, tag: string): string {
    "|" + ascii + "|" + tag + "\n"
  }

  /** One dump line: `<hex field>|<ascii>|<label>\n`. */
  function Line(tag: string, chunk: seq<byte>): string {
    HexField(chunk) + LineEnd(AsciiField(chunk), tag)
  }

  /** The bytes of the dump line that starts at offset `base`: sixteen, or
      what is left of the range. */
  function LineChunk(data: seq<byte>, base: nat): (chunk: seq<byte>)
    requires base < |data|
    ensures 0 < |chunk| <= 16
  {
    data[base .. Min(base + 16, |data|)]
  }

  /** The byte ranges of the lines a dump of `data` writes from offset `base` on. */
  function ChunksFrom(data: seq<byte>, base: nat): seq<seq<byte>>
    decreases |data| - base
  {
    if base >= |data| then [] else [LineChunk(data, base)] + ChunksFrom(data, base + 16)
  }

  function Chunks(data: seq<byte>): seq<seq<byte>> {
    ChunksFrom(data, 0)
  }

  /** The text of the lines rendering `chunks`, one after another. */
  function Render(tag: string, chunks: seq<seq<byte>>): string
    decreases |chunks|
  {
    if |chunks| == 0 then "" else Line(tag, chunks[0]) + Render(tag, chunks[1..])
  }

  /** The full text a dump of `data` writes to the log. */
  function DumpText(tag: string, data: seq<byte>): string {
    Render(tag, Chunks(data))
  }

  /** What `%s` prints of a character buffer: everything before the first NUL. */
  function CString(s: seq<char>): string
    decreases |s|
  {
    if |s| == 0 || s[0] == '\0' then "" else [s[0]] + CString(s[1..])
  }

  lemma {:induction false} CStringAt(s: seq<char>, k: nat)
    requires k < |s| && s[k] == '\0'
    requires forall p :: 0 <= p < k ==> s[p] != '\0'
    ensures CString(s) == s[..k]
    decreases k
  {
    if k > 0 {
      CStringAt(s[1..], k - 1);
    }
  }

  // ---- String algebra on abstract strings ----
  // Stated over plain string variables, so that the line proofs below can
  // regroup concatenations of large terms without unfolding them.

  lemma Assoc3(a: string, b: string, c: string)
    ensures a + b + c == a + (b + c)
  {
  }

  lemma Assoc4(a: string, b: string, c: string, e: string)
    ensures a + (b + c + e) == a + b + c + e
  {
    Assoc3(b, c, e);
    Assoc3(a, b + c, e);
    Assoc3(a, b, c);
  }

  lemma SliceAfter(x: string, y: string, m: nat)
    requires m <= |y|
    ensures (x + y)[|x|..|x| + m] == y[..m]
  {
  }

  /** Rewriting both halves of a concatenation. */
  lemma Substitute(w: string, p: string, q: string, p': string, q': string)
    requires w == p + q && p == p' && q == q'
    ensures w == p' + q'
  {
  }

  lemma AppendEmpty(x: string)
    ensures x + "" == x
  {
  }

  /** A string of blanks only is Spaces of its length. */
  lemma AllSpaces(s: string)
    requires forall q :: 0 <= q < |s| ==> s[q] == ' '
    ensures s == Spaces(|s|)
  {
  }

  lemma SpacesConcat(a: nat, b: nat)
    ensures Spaces(a) + Spaces(b) == Spaces(a + b)
  {
    var s := Spaces(a) + Spaces(b);
    assert forall q :: 0 <= q < |s| ==> s[q] == ' ';
    AllSpaces(s);
  }

  /** Blanks appended to a string that ends in blanks. */
  lemma AppendSpaces(x: string, y: string, n: nat, m: nat)
    requires x == y + Spaces(n)
    ensures x + Spaces(m) == y + Spaces(n + m)
  {
    SpacesConcat(n, m);
    Assoc3(y, Spaces(n), Spaces(m));
  }

  // ---- Layout of the hex field ----

  lemma CellWidth(chunk: seq<byte>, p: nat)
    ensures |Cell(chunk, p)| == 3 + (if p == 7 then 1 else 0)
  {
  }

  lemma {:induction false} CellsLength(chunk: seq<byte>, a: nat, b: nat)
    requires a <= b
    ensures |Cells(chunk, a, b)| == 3 * (b - a) + (if a <= 7 < b then 1 else 0)
    decreases b
  {
    if b > a {
      CellsLength(chunk, a, b - 1);
      CellWidth(chunk, b - 1);
      assert |Cells(chunk, a, b)| == |Cells(chunk, a, b - 1)| + |Cell(chunk, b - 1)|;
    }
  }

  lemma {:induction false} CellsSplit(chunk: seq<byte>, a: nat, m: nat, b: nat)
    requires a <= m <= b
    ensures Cells(chunk, a, b) == Cells(chunk, a, m) + Cells(chunk, m, b)
    decreases b
  {
    if b > m {
      CellsSplit(chunk, a, m, b - 1);
      assert Cells(chunk, a, b) == Cells(chunk, a, b - 1) + Cell(chunk, b - 1);
      assert Cells(chunk, m, b) == Cells(chunk, m, b - 1) + Cell(chunk, b - 1);
      Assoc3(Cells(chunk, a, m), Cells(chunk, m, b - 1), Cell(chunk, b - 1));
    } else {
      assert Cells(chunk, m, b) == "";
      AppendEmpty(Cells(chunk, a, m));
    }
  }

  /** The width of columns `a` up to `b`: three characters each, one more
      when they include the eighth. */
  function BlankWidth(a: nat, b: nat): nat
    requires a <= b
  {
    3 * (b - a) + (if a <= 7 < b then 1 else 0)
  }

  /** Columns past the end of the chunk are blank. */
  lemma {:induction false} CellsBlank(chunk: seq<byte>, a: nat, b: nat)
    requires |chunk| <= a <= b
    ensures Cells(chunk, a, b) == Spaces(BlankWidth(a, b))
    decreases b
  {
    if b > a {
      CellsBlank(chunk, a, b - 1);
      var m := 3 + (if b - 1 == 7 then 1 else 0);
      assert Cell(chunk, b - 1) == Spaces(m);
      SpacesConcat(BlankWidth(a, b - 1), m);
      assert BlankWidth(a, b - 1) + m == BlankWidth(a, b);
    }
  }

  /** The last of the first `b` columns holds byte `b - 1`. */
  lemma CellsLast(chunk: seq<byte>, k: nat, b: nat)
    requires k + 1 == b <= |chunk|
    ensures Cells(chunk, 0, b) == Cells(chunk, 0, k) + Triplet(chunk[k]) + (if b == 8 then " " else "")
  {
    assert Cells(chunk, 0, b) == Cells(chunk, 0, k) + Cell(chunk, k);
    Assoc3(Cells(chunk, 0, k), Triplet(chunk[k]), if b == 8 then " " else "");
  }

  /** The start of byte `p`'s triplet in the hex field. */
  function Column(p: nat): nat {
    3 * p + (if p >= 8 then 1 else 0)
  }

  lemma CellHead(chunk: seq<byte>, p: nat)
    ensures |Cell(chunk, p)| == 3 + (if p == 7 then 1 else 0)
    ensures Cell(chunk, p)[..3] == if p < |chunk| then Triplet(chunk[p]) else "   "
    ensures p == 7 ==> Cell(chunk, p)[3] == ' '
  {
  }

  /** A three-character window at the start of the second of four parts. */
  lemma SliceMid(h: string, a: string, b: string, c: string, e: string, col: nat)
    requires h == a + b + c + e && |a| == col && |b| >= 3
    ensures |h| >= col + 3
    ensures h[col..col + 3] == b[..3]
  {
    Assoc4(a, b, c, e);
    SliceAfter(a, b + c + e, 3);
  }

  /** Every line's hex field is 50 characters wide, with a space after the
      eighth column and a closing space. */
  lemma HexFieldWidth(chunk: seq<byte>)
    ensures |HexField(chunk)| == 50
    ensures HexField(chunk)[24] == ' ' && HexField(chunk)[49] == ' '
  {
    var front := Cells(chunk, 0, 8);
    var back := Cells(chunk, 8, 16);
    var seven := Cells(chunk, 0, 7);
    CellsSplit(chunk, 0, 8, 16);
    CellsLength(chunk, 0, 8);
    CellsLength(chunk, 8, 16);
    CellsLength(chunk, 0, 7);
    CellHead(chunk, 7);
    assert front == seven + Cell(chunk, 7);
    assert front[24] == ' ';
    assert HexField(chunk) == front + back + " ";
  }

  /** Byte `p` of the chunk shows as its two upper-case digits and a space
      starting at Column(p) of the hex field; a missing byte as three blanks. */
  lemma HexFieldLayout(chunk: seq<byte>, p: nat)
    requires p < 16
    ensures |HexField(chunk)| >= Column(p) + 3
    ensures HexField(chunk)[Column(p)..Column(p) + 3] == if p < |chunk| then Triplet(chunk[p]) else "   "
  {
    var pre := Cells(chunk, 0, p);
    var cell := Cell(chunk, p);
    var post := Cells(chunk, p + 1, 16);
    CellsSplit(chunk, 0, p + 1, 16);
    assert Cells(chunk, 0, p + 1) == pre + cell;
    CellsLength(chunk, 0, p);
    CellHead(chunk, p);
    var h := HexField(chunk);
    assert h == pre + cell + post + " ";
    assert |pre| == Column(p);
    SliceMid(h, pre, cell, post, " ", Column(p));
    assert h[Column(p)..Column(p) + 3] == cell[..3];
  }

  // ---- Lines ----

  function Flatten(chunks: seq<seq<byte>>): seq<byte>
    decreases |chunks|
  {
    if |chunks| == 0 then [] else chunks[0] + Flatten(chunks[1..])
  }

  /** From offset `base` a dump writes ceil((size - base) / 16) lines. */
  lemma {:induction false} ChunksFromCount(data: seq<byte>, base: nat)
    ensures |ChunksFrom(data, base)| == if base >= |data| then 0 else (|data| - base + 15) / 16
    decreases |data| - base
  {
    if base < |data| {
      ChunksFromCount(data, base + 16);
    }
  }

  /** Line `k` from offset `base` covers the sixteen bytes from base + 16k, or
      what is left of them. */
  lemma {:induction false} ChunksFromAt(data: seq<byte>, base: nat, k: nat)
    requires k < |ChunksFrom(data, base)|
    ensures base + 16 * k < |data|
    ensures ChunksFrom(data, base)[k] == LineChunk(data, base + 16 * k)
    decreases k
  {
    var rest := ChunksFrom(data, base + 16);
    assert ChunksFrom(data, base) == [LineChunk(data, base)] + rest;
    if k > 0 {
      ChunksFromAt(data, base + 16, k - 1);
    }
  }

  /** A dump has ceil(size/16) lines, none for an empty range; every line but
      the last covers sixteen bytes, and the last covers the rest (1 to 16). */
  lemma DumpShape(data: seq<byte>, i: nat)
    requires i < |Chunks(data)|
    ensures |Chunks(data)| == (|data| + 15) / 16 > 0
    ensures i < |Chunks(data)| - 1 ==> Chunks(data)[i] == data[16 * i .. 16 * i + 16]
    ensures i == |Chunks(data)| - 1 ==> 0 < |data| - 16 * i <= 16 && Chunks(data)[i] == data[16 * i ..]
  {
    ChunksFromCount(data, 0);
    ChunksFromAt(data, 0, i);
  }

  lemma SliceJoin(data: seq<byte>, a: nat, b: nat)
    requires a <= b <= |data|
    ensures data[a..] == data[a..b] + data[b..]
  {
  }

  lemma AppendEmptyBytes(x: seq<byte>)
    ensures x + [] == x
  {
  }

  /** Concatenating the lines' byte ranges gives back the dumped bytes. */
  lemma {:induction false} ChunksFromCover(data: seq<byte>, base: nat)
    requires base <= |data|
    ensures Flatten(ChunksFrom(data, base)) == data[base..]
    decreases |data| - base
  {
    if base < |data| {
      var head := LineChunk(data, base);
      var rest := ChunksFrom(data, base + 16);
      assert ChunksFrom(data, base)[1..] == rest;
      assert Flatten(ChunksFrom(data, base)) == head + Flatten(rest);
      if base + 16 <= |data| {
        ChunksFromCover(data, base + 16);
        SliceJoin(data, base, base + 16);
      } else {
        assert rest == [];
        AppendEmptyBytes(head);
      }
    }
  }

  lemma ChunksCover(data: seq<byte>)
    ensures Flatten(Chunks(data)) == data
  {
    ChunksFromCover(data, 0);
  }

  /** The ASCII column shows printable bytes verbatim and everything else as a dot. */
  lemma AsciiFieldLayout(chunk: seq<byte>, k: nat)
    requires k < |chunk|
    ensures Printable(chunk[k]) ==> AsciiField(chunk)[k] == chunk[k] as int as char
    ensures !Printable(chunk[k]) ==> AsciiField(chunk)[k] == '.'
    ensures AsciiField(chunk)[k] != '\0'
  {
  }

  /** The lines from offset `base` on. */
  function Rest(tag: string, data: seq<byte>, base: nat): string {
    Render(tag, ChunksFrom(data, base))
  }

  /** The first of the lines from offset `base`, followed by the others. */
  lemma RestUnfold(tag: string, data: seq<byte>, base: nat, next: nat)
    requires base < |data| && next == base + 16
    ensures Rest(tag, data, base) == Line(tag, LineChunk(data, base)) + Rest(tag, data, next)
  {
    assert ChunksFrom(data, base)[1..] == ChunksFrom(data, next);
  }

  lemma AlignedPrev(base: nat)
    requires base >= 16 && base % 16 == 0
    ensures (base - 16) % 16 == 0
  {
    DivMod(base / 16 - 1, 0, 16);
  }

  /** The whole lines before offset `base`. */
  function Done(tag: string, data: seq<byte>, base: nat): string
    requires base <= |data|
    decreases base
  {
    if base < 16 then "" else Done(tag, data, base - 16) + Line(tag, data[base - 16 .. base])
  }

  /** Finishing the line at `base` appends it to the lines before it. */
  lemma DoneNext(tag: string, data: seq<byte>, base: nat, next: nat)
    requires next == base + 16 && next <= |data|
    ensures Done(tag, data, next) == Done(tag, data, base) + Line(tag, LineChunk(data, base))
  {
    assert next - 16 == base;
  }

  /** The lines before an aligned offset followed by those after it are the dump. */
  lemma {:induction false} DoneThenRest(tag: string, data: seq<byte>, base: nat)
    requires base <= |data| && base % 16 == 0
    ensures Done(tag, data, base) + Rest(tag, data, base) == DumpText(tag, data)
    decreases base
  {
    if base >= 16 {
      var prev := base - 16;
      AlignedPrev(base);
      DoneThenRest(tag, data, prev);
      var before, line, after := Done(tag, data, prev), Line(tag, LineChunk(data, prev)), Rest(tag, data, base);
      RestUnfold(tag, data, prev, base);
      assert Rest(tag, data, prev) == line + after;
      DoneNext(tag, data, prev, base);
      assert Done(tag, data, base) == before + line;
      Assoc3(before, line, after);
    } else {
      assert base == 0;
    }
  }

  // ---- The loop of `hexdump` ----

  /** What the loop writes after a short final line's `k` columns and the
      space that follows its last byte: one more space when the line stops
      at or before the eighth column, and blank triplets up to column sixteen. */
  function Pad(k: nat): string
    requires k < 16
  {
    (if k <= 8 then " " else "") + Spaces(3 * (16 - k))
  }

  /** What the loop writes for byte `col` of a line holding `chunk`: the
      byte's triplet; a space after the eighth and the sixteenth column and
      after the last byte; and where the line ends, the padding of a short
      line and the line's ASCII column and label. */
  function EmitAt(tag: string, chunk: seq<byte>, col: nat): string
    requires col < |chunk| <= 16
  {
    Triplet(chunk[col])
    + (if col == 7 || col == 15 || col + 1 == |chunk| then " " else "")
    + (if col == 15 then LineEnd(AsciiField(chunk), tag)
       else if col + 1 == |chunk| then Pad(col + 1) + LineEnd(AsciiField(chunk), tag)
       else "")
  }

  /** What the loop writes for the first `n` bytes of a line. */
  function LineText(tag: string, chunk: seq<byte>, n: nat): string
    requires n <= |chunk| <= 16
    decreases n
  {
    if n == 0 then "" else LineText(tag, chunk, n - 1) + EmitAt(tag, chunk, n - 1)
  }

  /** Inside a line the loop writes the hex field's columns. */
  lemma EmitInLine(tag: string, chunk: seq<byte>, col: nat)
    requires col + 1 < |chunk| <= 16
    ensures EmitAt(tag, chunk, col) == Triplet(chunk[col]) + (if col == 7 then " " else "")
  {
    AppendEmpty(Triplet(chunk[col]) + (if col == 7 then " " else ""));
  }

  lemma {:induction false} LineTextCells(tag: string, chunk: seq<byte>, n: nat)
    requires n < |chunk| <= 16
    ensures LineText(tag, chunk, n) == Cells(chunk, 0, n)
    decreases n
  {
    if n > 0 {
      LineTextCells(tag, chunk, n - 1);
      EmitInLine(tag, chunk, n - 1);
      CellsLast(chunk, n - 1, n);
      Assoc3(Cells(chunk, 0, n - 1), Triplet(chunk[n - 1]), if n == 8 then " " else "");
    }
  }

  /** At the last byte of a line the loop ends it. */
  lemma EmitLast(tag: string, chunk: seq<byte>, k: nat)
    requires k + 1 == |chunk| <= 16
    ensures |chunk| == 16 ==> EmitAt(tag, chunk, k) == Triplet(chunk[k]) + " " + LineEnd(AsciiField(chunk), tag)
    ensures |chunk| < 16 ==> EmitAt(tag, chunk, k) == Triplet(chunk[k]) + " " + (Pad(|chunk|) + LineEnd(AsciiField(chunk), tag))
  {
  }

  /** Blanks that close a short line's hex field, as the loop writes them. */
  lemma PadBlank(k: nat)
    requires 0 < k < 16
    ensures (if k == 8 then " " else "") + Spaces(BlankWidth(k, 16)) + " " == " " + Pad(k)
  {
    var lhs := (if k == 8 then " " else "") + Spaces(BlankWidth(k, 16)) + " ";
    var rhs := " " + Pad(k);
    assert forall q :: 0 <= q < |lhs| ==> lhs[q] == ' ';
    assert forall q :: 0 <= q < |rhs| ==> rhs[q] == ' ';
    AllSpaces(lhs);
    AllSpaces(rhs);
  }

  /** A short line's hex field: its columns, the space after the last byte
      and the padding. */
  lemma ShortHexField(chunk: seq<byte>, k: nat)
    requires k + 1 == |chunk| < 16
    ensures HexField(chunk) == Cells(chunk, 0, k) + Triplet(chunk[k]) + (" " + Pad(|chunk|))
  {
    var n := |chunk|;
    var x := Cells(chunk, 0, k) + Triplet(chunk[k]);
    var e := if n == 8 then " " else "";
    var b := Spaces(BlankWidth(n, 16));
    CellsSplit(chunk, 0, n, 16);
    CellsLast(chunk, k, n);
    CellsBlank(chunk, n, 16);
    Substitute(Cells(chunk, 0, 16), Cells(chunk, 0, n), Cells(chunk, n, 16), x + e, b);
    assert HexField(chunk) == x + e + b + " ";
    PadBlank(n);
    Assoc4(x, e, b, " ");
  }

  lemma Assoc5(a: string, b: string, c: string, p: string, e: string)
    ensures a + b + c + (p + e) == a + (b + c + (p + e))
  {
    Assoc3(a, b + c, p + e);
    Assoc3(a, b, c);
  }

  lemma FullGlue(c: string, t: string, e: string)
    ensures c + (t + " " + e) == c + t + "" + " " + e
  {
    AppendEmpty(c + t);
    Assoc4(c, t, " ", e);
  }

  lemma ShortGlue(c: string, t: string, p: string, e: string)
    ensures c + (t + " " + (p + e)) == c + t + (" " + p) + e
  {
    Assoc5(c, t, " ", p, e);
    Assoc3(c + t, " " + p, e);
    Assoc3(" ", p, e);
  }

  /** The last step of a line, in terms of what came before it. */
  lemma LineTextLast(tag: string, chunk: seq<byte>, k: nat)
    requires k + 1 == |chunk| <= 16
    ensures LineText(tag, chunk, |chunk|) == Cells(chunk, 0, k) + EmitAt(tag, chunk, k)
  {
    assert LineText(tag, chunk, |chunk|) == LineText(tag, chunk, k) + EmitAt(tag, chunk, k);
    LineTextCells(tag, chunk, k);
  }

  lemma FullLineText(tag: string, chunk: seq<byte>)
    requires |chunk| == 16
    ensures LineText(tag, chunk, |chunk|) == Line(tag, chunk)
  {
    var c := Cells(chunk, 0, 15);
    var t := Triplet(chunk[15]);
    var e := LineEnd(AsciiField(chunk), tag);
    LineTextLast(tag, chunk, 15);
    EmitLast(tag, chunk, 15);
    CellsLast(chunk, 15, 16);
    FullGlue(c, t, e);
  }

  lemma ShortLineText(tag: string, chunk: seq<byte>, k: nat)
    requires 0 < |chunk| < 16 && k + 1 == |chunk|
    ensures LineText(tag, chunk, |chunk|) == Line(tag, chunk)
  {
    var c := Cells(chunk, 0, k);
    var t := Triplet(chunk[k]);
    var e := LineEnd(AsciiField(chunk), tag);
    LineTextLast(tag, chunk, k);
    EmitLast(tag, chunk, k);
    assert LineText(tag, chunk, |chunk|) == c + (t + " " + (Pad(|chunk|) + e));
    ShortHexField(chunk, k);
    assert Line(tag, chunk) == c + t + (" " + Pad(|chunk|)) + e;
    ShortGlue(c, t, Pad(|chunk|), e);
  }

  /** The text the loop writes for a whole line is the line. */
  lemma LineTextIsLine(tag: string, chunk: seq<byte>)
    requires 0 < |chunk| <= 16
    ensures LineText(tag, chunk, |chunk|) == Line(tag, chunk)
  {
    if |chunk| == 16 {
      FullLineText(tag, chunk);
    } else {
      ShortLineText(tag, chunk, |chunk| - 1);
    }
  }

  lemma DivMod(q: nat, r: nat, m: nat)
    requires 0 <= r < m && (m == 8 || m == 16)
    ensures (m * q + r) / m == q && (m * q + r) % m == r
  {
  }

  /** Where byte `base + col` sits, in the terms the loop tests. */
  lemma Position(i: nat, base: nat, col: nat)
    requires i == base + col && base % 16 == 0 && col < 16
    ensures i % 16 == col
    ensures (i + 1) % 16 == (if col == 15 then 0 else col + 1)
    ensures (i + 1) % 8 == 0 <==> col == 7 || col == 15
    ensures (base + 16) % 16 == 0
  {
    var q := base / 16;
    assert base == 16 * q;
    DivMod(q, col, 16);
    DivMod(q + 1, 0, 16);
    if col < 15 {
      DivMod(q, col + 1, 16);
    }
    if col < 7 {
      DivMod(2 * q, col + 1, 8);
    } else if col < 15 {
      DivMod(2 * q + 1, col - 7, 8);
    } else {
      DivMod(2 * q + 2, 0, 8);
    }
  }

  /** How the loop's test for the last byte reads on the current line. */
  lemma LastInLine(d: seq<byte>, base: nat, col: nat)
    requires col < 16 && base + col < |d|
    ensures col < |LineChunk(d, base)|
    ensures LineChunk(d, base)[col] == d[base + col]
    ensures col < 15 ==> (base + col + 1 == |d| <==> col + 1 == |LineChunk(d, base)|)
    ensures col == 15 ==> col + 1 == |LineChunk(d, base)|
    ensures col == 15 || base + col + 1 == |d| ==> LineChunk(d, base) == d[base .. base + col + 1]
  {
  }

  /** What the loop has written when it reaches byte `col` of the line at `base`. */
  function Progress(tag: string, d: seq<byte>, base: nat, col: nat): string
    requires col <= 16 && base + col <= |d|
  {
    if base < |d| then Done(tag, d, base) + LineText(tag, LineChunk(d, base), col) else Done(tag, d, base)
  }

  /** One iteration of the loop appends what it writes for the current byte. */
  lemma ProgressStep(tag: string, d: seq<byte>, base: nat, col: nat)
    requires col < 16 && base + col < |d|
    ensures col < |LineChunk(d, base)|
    ensures col < 15 ==> Progress(tag, d, base, col + 1) == Progress(tag, d, base, col) + EmitAt(tag, LineChunk(d, base), col)
    ensures col == 15 ==> Progress(tag, d, base + 16, 0) == Progress(tag, d, base, col) + EmitAt(tag, LineChunk(d, base), col)
  {
    LastInLine(d, base, col);
    if col < 15 {
      ProgressInLine(tag, d, base, col, LineChunk(d, base));
    } else {
      ProgressLineEnd(tag, d, base, col, LineChunk(d, base));
    }
  }

  lemma ProgressInLine(tag: string, d: seq<byte>, base: nat, col: nat, chunk: seq<byte>)
    requires col < 15 && base + col < |d| && chunk == LineChunk(d, base) && col < |chunk|
    ensures Progress(tag, d, base, col + 1) == Progress(tag, d, base, col) + EmitAt(tag, chunk, col)
  {
    assert Progress(tag, d, base, col + 1) == Done(tag, d, base) + (LineText(tag, chunk, col) + EmitAt(tag, chunk, col));
    Assoc3(Done(tag, d, base), LineText(tag, chunk, col), EmitAt(tag, chunk, col));
  }

  lemma ProgressLineEnd(tag: string, d: seq<byte>, base: nat, col: nat, chunk: seq<byte>)
    requires col == 15 && base + col < |d| && chunk == LineChunk(d, base) && |chunk| == 16
    ensures Progress(tag, d, base + 16, 0) == Progress(tag, d, base, col) + EmitAt(tag, chunk, col)
  {
    var done := Done(tag, d, base);
    var next := base + 16;
    assert LineText(tag, chunk, 16) == LineText(tag, chunk, col) + EmitAt(tag, chunk, col);
    LineTextIsLine(tag, chunk);
    DoneNext(tag, d, base, next);
    assert Done(tag, d, next) == done + (LineText(tag, chunk, col) + EmitAt(tag, chunk, col));
    Assoc3(done, LineText(tag, chunk, col), EmitAt(tag, chunk, col));
    if next < |d| {
      AppendEmpty(Done(tag, d, next));
    }
  }

  /** When the loop has passed every byte it has written the dump. */
  lemma ProgressEnd(tag: string, d: seq<byte>, base: nat, col: nat)
    requires base % 16 == 0 && col < 16 && base + col == |d|
    ensures Progress(tag, d, base, col) == DumpText(tag, d)
  {
    DoneThenRest(tag, d, base);
    if base < |d| {
      var chunk := LineChunk(d, base);
      assert |chunk| == col;
      LineTextIsLine(tag, chunk);
      RestUnfold(tag, d, base, base + 16);
      AppendEmpty(Line(tag, chunk));
    } else {
      AppendEmpty(Done(tag, d, base));
    }
  }

  /** The ASCII buffer holds the column of the bytes of the line at `base`
      seen so far, and its last slot the string's terminator. */
  ghost predicate AsciiSoFar(ascii: seq<char>, d: seq<byte>, base: nat, col: nat)
    requires col <= 16 && base + col <= |d|
  {
    |ascii| == 17 && ascii[16] == '\0' && forall p :: 0 <= p < col ==> ascii[p] == AsciiChar(d[base + p])
  }

  /** Recording byte `col` keeps the buffer up to date; at the sixteenth byte
      it is also ready for the next line. */
  lemma AsciiRecord(ascii: seq<char>, d: seq<byte>, base: nat, col: nat, c: char)
    requires col < 16 && base + col < |d| && AsciiSoFar(ascii, d, base, col)
    requires c == AsciiChar(d[base + col])
    ensures AsciiSoFar(ascii[col := c], d, base, col + 1)
    ensures col == 15 ==> AsciiSoFar(ascii[col := c], d, base + 16, 0)
  {
  }

  /** The terminator written after a short line's last byte. */
  lemma AsciiTerminate(ascii: seq<char>, d: seq<byte>, base: nat, k: nat)
    requires k < 16 && base + k <= |d| && AsciiSoFar(ascii, d, base, k)
    ensures AsciiSoFar(ascii[k := '\0'], d, base, k) && ascii[k := '\0'][k] == '\0'
  {
  }

  /** The ASCII buffer the loop fills holds a line's ASCII column up to its NUL. */
  lemma AsciiBuffer(buf: seq<char>, d: seq<byte>, base: nat, chunk: seq<byte>)
    requires |chunk| <= 16 && base + |chunk| <= |d| && chunk == d[base .. base + |chunk|]
    requires AsciiSoFar(buf, d, base, |chunk|) && buf[|chunk|] == '\0'
    ensures CString(buf) == AsciiField(chunk)
  {
    CStringAt(buf, |chunk|);
    assert buf[..|chunk|] == AsciiField(chunk);
  }

  /** The blanks the loop writes after a short line's last byte are its padding. */
  lemma PadText(spaced: string, padded: string, out: string, k: nat)
    requires 0 < k < 16
    requires padded == spaced + (if k <= 8 then " " else "") && out == padded + Spaces(3 * (16 - k))
    ensures out == spaced + Pad(k)
  {
    Assoc3(spaced, if k <= 8 then " " else "", Spaces(3 * (16 - k)));
  }

  /** A byte inside a line: its triplet, and a space after the eighth column. */
  lemma MidStep(tag: string, chunk: seq<byte>, col: nat, b: byte, text: string)
    requires col + 1 < |chunk| <= 16 && b == chunk[col]
    requires text == Triplet(b) + (if col == 7 then " " else "")
    ensures text == EmitAt(tag, chunk, col)
  {
    EmitInLine(tag, chunk, col);
  }

  /** The sixteenth byte of a line: its triplet, a space and the line's end. */
  lemma FullEndStep(tag: string, chunk: seq<byte>, col: nat, b: byte, ascii: string, text: string)
    requires col == 15 && |chunk| == 16 && b == chunk[col] && ascii == AsciiField(chunk)
    requires text == Triplet(b) + " " + LineEnd(ascii, tag)
    ensures text == EmitAt(tag, chunk, col)
  {
    EmitLast(tag, chunk, col);
  }

  /** The last byte of a short line: its triplet, a space, the padding and the line's end. */
  lemma ShortEndStep(tag: string, chunk: seq<byte>, col: nat, b: byte, ascii: string, text: string)
    requires col + 1 == |chunk| < 16 && b == chunk[col] && ascii == AsciiField(chunk)
    requires text == Triplet(b) + " " + Pad(col + 1) + LineEnd(ascii, tag)
    ensures text == EmitAt(tag, chunk, col)
  {
    EmitLast(tag, chunk, col);
    Assoc3(Triplet(chunk[col]) + " ", Pad(col + 1), LineEnd(AsciiField(chunk), tag));
  }

  /** One pass of the loop of `hexdump`: byte `i` of `data`, the byte `col`
      of the line at `base`. It writes what EmitAt says and records the
      byte's ASCII rendering in the buffer. */
  method DumpByte(tag: string, data: array<byte>, size: nat, i: nat, ascii: seq<char>, ghost base: nat, ghost col: nat)
    returns (text: string, ascii': seq<char>)
    requires size <= data.Length && i < size
    requires i == base + col && col < 16 && base % 16 == 0
    requires AsciiSoFar(ascii, data[..size], base, col)
    ensures col < |LineChunk(data[..size], base)|
    ensures text == EmitAt(tag, LineChunk(data[..size], base), col)
    ensures col < 15 ==> AsciiSoFar(ascii', data[..size], base, col + 1)
    ensures col == 15 ==> AsciiSoFar(ascii', data[..size], base + 16, 0)
  {
    ghost var d := data[..size];
    Position(i, base, col);
    LastInLine(d, base, col);
    ghost var chunk := LineChunk(d, base);
    var b := data[i];
    assert b == chunk[col];
    ascii' := ascii;
    text := Triplet(b);
    if Printable(b) {
      ascii' := ascii'[i % 16 := b as int as char];
    } else {
      ascii' := ascii'[i % 16 := '.'];
    }
    AsciiRecord(ascii, d, base, col, AsciiChar(b));
    if (i + 1) % 8 == 0 || i + 1 == size {
      text := text + " ";
      if (i + 1) % 16 == 0 {
        AsciiBuffer(ascii', d, base, chunk);
        text := text + LineEnd(CString(ascii'), tag);
        FullEndStep(tag, chunk, col, b, CString(ascii'), text);
      } else if i + 1 == size {
        AsciiTerminate(ascii', d, base, col + 1);
        ascii' := ascii'[(i + 1) % 16 := '\0'];
        AsciiBuffer(ascii', d, base, chunk);
        ghost var spaced := text;
        if (i + 1) % 16 <= 8 {
          text := text + " ";
        }
        ghost var padded := text;
        AppendEmpty(padded);
        var j := (i + 1) % 16;
        while j < 16
          invariant col + 1 <= j <= 16
          invariant text == padded + Spaces(3 * (j - (col + 1)))
        {
          assert Spaces(3) == "   ";
          AppendSpaces(text, padded, 3 * (j - (col + 1)), 3);
          text := text + "   ";
          j := j + 1;
        }
        PadText(spaced, padded, text, col + 1);
        text := text + LineEnd(CString(ascii'), tag);
        ShortEndStep(tag, chunk, col, b, CString(ascii'), text);
      } else {
        MidStep(tag, chunk, col, b, text);
      }
    } else {
      AppendEmpty(Triplet(b));
      MidStep(tag, chunk, col, b, text);
    }
  }

  /** `hexdump`: writes the first `size` bytes of `data` to the log as dump
      lines, each followed by `tag`. The returned text is what the loop
      prints to stderr. The 17-character stack buffer starts with arbitrary
      contents, as an uninitialised C array does. */
  method Hexdump(tag: string, data: array<byte>, size: nat) returns (out: string)
    requires size <= data.Length
    ensures out == DumpText(tag, data[..size])
  {
    ghost var d := data[..size];
    assert |seq(17, _ => '\0')| == 17;
    var ascii: seq<char> :| |ascii| == 17;
    ascii := ascii[16 := '\0'];
    out := "";
    ghost var base: nat := 0;
    ghost var col: nat := 0;
    var i: nat := 0;
    while i < size
      invariant i <= size && i == base + col && col < 16 && base % 16 == 0
      invariant AsciiSoFar(ascii, d, base, col)
      invariant out == Progress(tag, d, base, col)
      decreases size - i
    {
      var text;
      text, ascii := DumpByte(tag, data, size, i, ascii, base, col);
      ProgressStep(tag, d, base, col);
      out := out + text;
      Position(i, base, col);
      if col == 15 {
        base, col := base + 16, 0;
      } else {
        col := col + 1;
      }
      i := i + 1;
    }
    ProgressEnd(tag, d, base, col);
  }
}
