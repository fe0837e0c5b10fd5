/** `_OpenedGitBlob`: a blob's data stream, read whole or iterated line by line
    through a buffer refilled `ChunkSize` characters at a time. */
module GitBlob {
  import opened Wrappers
  import opened Text

  const ChunkSize := 4096

  /** The successive results of `stream.read(ChunkSize)` up to the end of the
      stream: each holds between one and `ChunkSize` characters. */
  predicate Chunked(stream: seq<string>) {
    forall i :: 0 <= i < |stream| ==> 0 < |stream[i]| <= ChunkSize
  }

  /** `read()`: everything the stream still holds. */
  function Read(stream: seq<string>): string {
    Concat(stream)
  }

  predicate EndsInNewline(s: string) {
    |s| > 0 && s[|s| - 1] == '\n'
  }

  /** One `stream.read(ChunkSize)`: the next chunk, or `''` at the end of the
      stream, which stays exhausted afterwards. */
  function NextChunk(stream: seq<string>): (r: (string, seq<string>))
    ensures r.0 != [] ==> |r.1| < |stream|
  {
    if stream == [] || stream[0] == [] then ([], []) else (stream[0], stream[1..])
  }

  /** The inner `while '\n' not in buffer` loop: the buffer and the rest of the
      stream once the buffer holds a newline or the stream is exhausted. */
  function Refill(buffer: string, stream: seq<string>): (r: (string, seq<string>))
    ensures '\n' in r.0 || r.1 == []
    ensures Chunked(stream) ==> Chunked(r.1) && r.0 + Concat(r.1) == buffer + Concat(stream)
    decreases |stream|
  {
    if '\n' in buffer then (buffer, stream)
    else
      var next := NextChunk(stream);
      if next.0 == [] then (buffer, next.1)
      else
        var r := Refill(buffer + next.0, next.1);
        assert Chunked(stream) ==> Concat(stream) == next.0 + Concat(next.1);
        assert Chunked(stream) ==> buffer + next.0 + Concat(next.1) == buffer + (next.0 + Concat(next.1));
        r
  }

  /** What the generator does when it is resumed. */
  datatype Next = Yield(piece: string, buffer: string, stream: seq<string>) | Stop

  /** One pass of the outer loop of `__iter__`. As written (`flushTail` false),
      `eol` is -1 when the buffer holds no newline, so the piece is `buffer[:0]`
      and the buffer is kept; with `flushTail` the buffer is yielded whole. */
  function Step(buffer: string, stream: seq<string>, flushTail: bool): (n: Next)
    ensures flushTail && n.Yield? ==> n.piece != []
  {
    var (b, s) := Refill(buffer, stream);
    if b == [] then Stop
    else
      var eol := Find(b, '\n');
      if eol < 0 && flushTail then Yield(b, [], s)
      else Yield(b[..eol + 1], b[eol + 1..], s)
  }

  /** The pieces a consumer gets by pulling up to `pulls` items, and whether the
      generator finished before that. */
  function Run(buffer: string, stream: seq<string>, pulls: nat, flushTail: bool): (r: (seq<string>, bool))
    ensures |r.0| <= pulls
    ensures !r.1 ==> |r.0| == pulls
    decreases pulls
  {
    if pulls == 0 then ([], false)
    else match Step(buffer, stream, flushTail)
      case Stop => ([], true)
      case Yield(p, b, s) =>
        var rest := Run(b, s, pulls - 1, flushTail);
        ([p] + rest.0, rest.1)
  }

  function Prepend(pieces: seq<string>, r: (seq<string>, bool)): (seq<string>, bool) {
    (pieces + r.0, r.1)
  }

  /** The "replenish buffer" loop of `__iter__`. */
  method Replenish(buffer0: string, stream0: seq<string>) returns (buffer: string, stream: seq<string>)
    ensures (buffer, stream) == Refill(buffer0, stream0)
  {
    buffer, stream := buffer0, stream0;
    while '\n' !in buffer
      invariant Refill(buffer, stream) == Refill(buffer0, stream0)
      decreases |stream|
    {
      var next := NextChunk(stream);
      if next.0 == [] {
        stream := next.1;
        return;
      }
      buffer := buffer + next.0;
      stream := next.1;
    }
  }

  /** `_OpenedGitBlob`: the chunks its data stream still holds. */
  class OpenedGitBlob {
    var stream: seq<string>

    constructor (stream0: seq<string>)
      ensures stream == stream0
    {
      stream := stream0;
    }

    /** `read()`: the whole rest of the stream, which is then exhausted. */
    method ReadAll() returns (s: string)
      modifies this
      ensures s == Read(old(stream)) && stream == []
    {
      s := Concat(stream);
      stream := [];
    }
  }

  /** The generator `__iter__` returns: its buffer, and the blob whose stream it
      reads. `flushTail` false is the generator as written; true is the corrected
      one, which yields a last line without a newline whole. */
  class LineIterator {
    const blob: OpenedGitBlob
    const flushTail: bool
    var buffer: string

    constructor (blob: OpenedGitBlob, flushTail: bool)
      ensures this.blob == blob && this.flushTail == flushTail && buffer == []
    {
      this.blob := blob;
      this.flushTail := flushTail;
      buffer := [];
    }

    /** One `next()`: the piece yielded, or `None` once the generator has
        finished; the buffer and the stream move on as `Step` says. */
    method Next() returns (piece: Option<string>)
      modifies this, blob
      ensures var n := Step(old(buffer), old(blob.stream), flushTail);
              && (n.Stop? ==> piece.None? && buffer == [] && blob.stream == [])
              && (n.Yield? ==> piece == Some(n.piece) && buffer == n.buffer && blob.stream == n.stream)
    {
      var b, s := Replenish(buffer, blob.stream);
      blob.stream := s;
      if b == [] {
        buffer := b;
        return None;
      }
      var eol := Find(b, '\n');
      if eol < 0 && flushTail {
        piece := Some(b);
        buffer := [];
      } else {
        piece := Some(b[..eol + 1]);
        buffer := b[eol + 1..];
      }
    }
  }

  /** `s` cut after every newline; a last line without a newline is kept. */
  function Lines(s: string): (r: seq<string>)
    ensures |s| > 0 ==> |r| > 0
    decreases |s|
  {
    if s == [] then []
    else
      var k := Find(s, '\n');
      if k < 0 then [s] else [s[..k + 1]] + Lines(s[k + 1..])
  }

  /** A line holds a newline at most at its end. */
  predicate IsLine(p: string) {
    |p| > 0 && '\n' !in p[..|p| - 1]
  }

  /** The lines put back together are the text. */
  lemma {:induction false} LinesConcat(s: string)
    ensures Concat(Lines(s)) == s
    decreases |s|
  {
    if s != [] {
      var k := Find(s, '\n');
      var r := Lines(s);
      if k >= 0 {
        LinesConcat(s[k + 1..]);
        assert r[1..] == Lines(s[k + 1..]);
        assert s[..k + 1] + s[k + 1..] == s;
      } else {
        assert r[1..] == [];
      }
    }
  }

  /** One unfolding of `Lines`. */
  lemma LinesStep(s: string)
    requires s != []
    ensures Find(s, '\n') < 0 ==> Lines(s) == [s]
    ensures Find(s, '\n') >= 0 ==> Lines(s) == [s[..Find(s, '\n') + 1]] + Lines(s[Find(s, '\n') + 1..])
  {
  }

  lemma FirstLine(s: string)
    requires s != []
    ensures IsLine(Lines(s)[0])
  {
    var k := Find(s, '\n');
    LinesStep(s);
    FindSpec(s, '\n');
    if k < 0 {
      assert forall j :: 0 <= j < |s| - 1 ==> s[..|s| - 1][j] == s[j];
    } else {
      assert s[..k + 1][..k] == s[..k];
    }
  }

  /** Line `i` of `s` is a line. */
  lemma {:induction false} LineAt(s: string, i: nat)
    requires i < |Lines(s)|
    ensures IsLine(Lines(s)[i])
    decreases |s|
  {
    assert s != [];
    if i == 0 {
      FirstLine(s);
    } else {
      LinesTail(s, i);
      LineAt(s[Find(s, '\n') + 1..], i - 1);
    }
  }

  /** Line `i > 0` of `s` is line `i - 1` of the text after the first newline. */
  lemma LinesTail(s: string, i: int)
    requires 0 < i < |Lines(s)|
    ensures Find(s, '\n') >= 0
    ensures var tail := s[Find(s, '\n') + 1..];
            |tail| < |s| && |Lines(s)| == |Lines(tail)| + 1 && Lines(s)[i] == Lines(tail)[i - 1]
  {
    assert s != [];
    LinesStep(s);
    var k := Find(s, '\n');
    ConsAt(s[..k + 1], Lines(s[k + 1..]), i);
  }

  lemma ConsAt<T>(x: T, r: seq<T>, i: int)
    requires 0 < i <= |r|
    ensures |[x] + r| == |r| + 1 && ([x] + r)[i] == r[i - 1]
  {
  }

  /** Every piece of `Lines(s)` is a line. */
  lemma LinesAreLines(s: string)
    ensures forall i :: 0 <= i < |Lines(s)| ==> IsLine(Lines(s)[i])
  {
    forall i | 0 <= i < |Lines(s)| {
      LineAt(s, i);
    }
  }

  lemma FirstTerminated(s: string)
    requires 1 < |Lines(s)|
    ensures EndsInNewline(Lines(s)[0])
  {
    assert s != [];
    LinesStep(s);
    var k := Find(s, '\n');
    assert k >= 0;
    assert s[..k + 1][k] == s[k];
  }

  /** Line `i` of `s`, when it is not the last, ends in a newline. */
  lemma {:induction false} TerminatedAt(s: string, i: nat)
    requires i + 1 < |Lines(s)|
    ensures EndsInNewline(Lines(s)[i])
    decreases |s|, 1
  {
    if i == 0 {
      FirstTerminated(s);
    } else {
      TerminatedLater(s, i);
    }
  }

  /** `TerminatedAt` for `i > 0`, from the text after the first newline. */
  lemma {:induction false} TerminatedLater(s: string, i: nat)
    requires 0 < i && i + 1 < |Lines(s)|
    ensures EndsInNewline(Lines(s)[i])
    decreases |s|, 0
  {
    LinesTail(s, i);
    TerminatedAt(s[Find(s, '\n') + 1..], i - 1);
  }

  /** All lines but the last end in a newline. */
  lemma LinesTerminated(s: string)
    ensures forall i :: 0 <= i < |Lines(s)| - 1 ==> EndsInNewline(Lines(s)[i])
  {
    forall i | 0 <= i < |Lines(s)| - 1 {
      TerminatedAt(s, i);
    }
  }

  /** The last line ends in a newline exactly when the text does. */
  lemma {:induction false} LastLineTerminated(s: string)
    requires s != []
    ensures EndsInNewline(Lines(s)[|Lines(s)| - 1]) <==> EndsInNewline(s)
    decreases |s|
  {
    var k := Find(s, '\n');
    if k < 0 || k + 1 == |s| {
      LastBase(s);
    } else {
      LastLineTerminated(s[k + 1..]);
      LastStep(s);
    }
  }

  lemma LastStep(s: string)
    requires s != [] && Find(s, '\n') >= 0
    requires var tail := s[Find(s, '\n') + 1..];
             |tail| > 0 && (EndsInNewline(Lines(tail)[|Lines(tail)| - 1]) <==> EndsInNewline(tail))
    ensures EndsInNewline(Lines(s)[|Lines(s)| - 1]) <==> EndsInNewline(s)
  {
    var k := Find(s, '\n');
    var tail := s[k + 1..];
    LinesStep(s);
    LastOfCons(s[..k + 1], Lines(tail));
    LastOfSuffix(s, k + 1);
  }

  lemma LastOfCons<T>(x: T, r: seq<T>)
    requires |r| > 0
    ensures ([x] + r)[|[x] + r| - 1] == r[|r| - 1]
  {
  }

  lemma LastOfSuffix<T>(s: seq<T>, j: int)
    requires 0 <= j < |s|
    ensures s[j..][|s[j..]| - 1] == s[|s| - 1]
  {
  }

  lemma LastBase(s: string)
    requires s != []
    requires Find(s, '\n') < 0 || Find(s, '\n') + 1 == |s|
    ensures EndsInNewline(Lines(s)[|Lines(s)| - 1]) <==> EndsInNewline(s)
  {
    LinesStep(s);
    FindSpec(s, '\n');
    var k := Find(s, '\n');
    if k >= 0 {
      assert Lines(s[k + 1..]) == [];
      assert s[..k + 1] == s;
    }
  }

  lemma {:induction false} FindInPrefix(b: string, x: string)
    requires '\n' in b
    ensures Find(b + x, '\n') == Find(b, '\n')
  {
    if b[0] != '\n' {
      assert (b + x)[1..] == b[1..] + x;
      assert '\n' in b[1..] by {
        var j :| 0 <= j < |b| && b[j] == '\n';
        assert b[1..][j - 1] == '\n';
      }
      FindInPrefix(b[1..], x);
    }
  }

  /** The piece one resumption yields from `content`, and the content left after it. */
  function PieceOf(content: string, flushTail: bool): string {
    var k := Find(content, '\n');
    if k < 0 then (if flushTail then content else []) else content[..k + 1]
  }

  function RestOf(content: string, flushTail: bool): string {
    var k := Find(content, '\n');
    if k < 0 then (if flushTail then [] else content) else content[k + 1..]
  }

  /** The iterator on the stream's whole content, with no chunks. */
  function Pieces(content: string, pulls: nat, flushTail: bool): (seq<string>, bool)
    decreases pulls
  {
    if pulls == 0 then ([], false)
    else if content == [] then ([], true)
    else Prepend([PieceOf(content, flushTail)], Pieces(RestOf(content, flushTail), pulls - 1, flushTail))
  }

  /** One unfolding of `Pieces`. */
  lemma PiecesStep(content: string, pulls: nat, flushTail: bool)
    requires pulls > 0 && content != []
    ensures Pieces(content, pulls, flushTail) ==
            ([PieceOf(content, flushTail)] + Pieces(RestOf(content, flushTail), pulls - 1, flushTail).0,
             Pieces(RestOf(content, flushTail), pulls - 1, flushTail).1)
  {
  }

  /** One unfolding of `Run`. */
  lemma RunStep(buffer: string, stream: seq<string>, pulls: nat, flushTail: bool)
    requires pulls > 0
    ensures Step(buffer, stream, flushTail).Stop? ==> Run(buffer, stream, pulls, flushTail) == ([], true)
    ensures var n := Step(buffer, stream, flushTail);
            n.Yield? ==> Run(buffer, stream, pulls, flushTail) ==
                         ([n.piece] + Run(n.buffer, n.stream, pulls - 1, flushTail).0,
                          Run(n.buffer, n.stream, pulls - 1, flushTail).1)
  {
  }

  /** One resumption in terms of the stream's whole content. */
  lemma StepContent(buffer: string, stream: seq<string>, flushTail: bool)
    requires Chunked(stream)
    ensures var content := buffer + Concat(stream);
            var n := Step(buffer, stream, flushTail);
            && (n.Stop? <==> content == [])
            && (n.Yield? ==> Chunked(n.stream) && n.piece == PieceOf(content, flushTail) &&
                               n.buffer + Concat(n.stream) == RestOf(content, flushTail))
  {
    var content := buffer + Concat(stream);
    var (b, s) := Refill(buffer, stream);
    FindSpec(b, '\n');
    if '\n' in b {
      FindInPrefix(b, Concat(s));
      var k := Find(b, '\n');
      assert b[..k + 1] == content[..k + 1];
      assert b[k + 1..] + Concat(s) == content[k + 1..];
    } else {
      assert b + [] == b;
    }
  }

  /** However the content is cut into chunks, the iterator yields the same pieces. */
  lemma {:induction false} RunIsPieces(buffer: string, stream: seq<string>, pulls: nat, flushTail: bool)
    requires Chunked(stream)
    ensures Run(buffer, stream, pulls, flushTail) == Pieces(buffer + Concat(stream), pulls, flushTail)
    decreases pulls
  {
    if pulls > 0 {
      StepContent(buffer, stream, flushTail);
      var n := Step(buffer, stream, flushTail);
      if n.Yield? {
        RunIsPieces(n.buffer, n.stream, pulls - 1, flushTail);
      }
      RunPiecesStep(buffer, stream, pulls, flushTail);
    }
  }

  /** One pull of `RunIsPieces`, given that the rest of the run is the rest of the pieces. */
  lemma RunPiecesStep(buffer: string, stream: seq<string>, pulls: nat, flushTail: bool)
    requires Chunked(stream) && pulls > 0
    requires var n := Step(buffer, stream, flushTail);
             n.Yield? ==> Run(n.buffer, n.stream, pulls - 1, flushTail) == Pieces(n.buffer + Concat(n.stream), pulls - 1, flushTail)
    ensures Run(buffer, stream, pulls, flushTail) == Pieces(buffer + Concat(stream), pulls, flushTail)
  {
    StepContent(buffer, stream, flushTail);
    RunStep(buffer, stream, pulls, flushTail);
    if Step(buffer, stream, flushTail).Yield? {
      PiecesStep(buffer + Concat(stream), pulls, flushTail);
    }
  }

  /** Content that is empty or ends in a newline is yielded line by line, and
      then the generator finishes. */
  lemma {:induction false} PiecesTerminated(content: string, pulls: nat, flushTail: bool)
    requires content == [] || EndsInNewline(content)
    requires pulls > |Lines(content)|
    ensures Pieces(content, pulls, flushTail) == (Lines(content), true)
    decreases pulls, 1
  {
    if EndsInNewline(content) {
      TerminatedInduct(content, pulls, flushTail);
    } else {
      PiecesEmpty(content, pulls, flushTail);
    }
  }

  /** `PiecesTerminated` for non-empty content, from the rest after its first line. */
  lemma {:induction false} TerminatedInduct(content: string, pulls: nat, flushTail: bool)
    requires EndsInNewline(content) && pulls > |Lines(content)|
    ensures Pieces(content, pulls, flushTail) == (Lines(content), true)
    decreases pulls, 0
  {
    TerminatedPre(content, pulls);
    PiecesTerminated(content[Find(content, '\n') + 1..], pulls - 1, flushTail);
    TerminatedStep(content, pulls, flushTail);
  }

  lemma PiecesEmpty(content: string, pulls: nat, flushTail: bool)
    requires content == [] && pulls > 0
    ensures Pieces(content, pulls, flushTail) == (Lines(content), true)
  {
  }

  /** After the first line of content ending in a newline, the rest is empty or
      ends in a newline, and has one line fewer. */
  lemma TerminatedPre(content: string, pulls: nat)
    requires EndsInNewline(content) && pulls > |Lines(content)|
    ensures Find(content, '\n') >= 0
    ensures var rest := content[Find(content, '\n') + 1..];
            (rest == [] || EndsInNewline(rest)) && pulls - 1 > |Lines(rest)| && |Lines(content)| == |Lines(rest)| + 1
  {
    FindSpec(content, '\n');
    var k := Find(content, '\n');
    var rest := content[k + 1..];
    if rest != [] {
      LastOfSuffix(content, k + 1);
    }
    LinesStep(content);
  }

  lemma TerminatedStep(content: string, pulls: nat, flushTail: bool)
    requires EndsInNewline(content) && pulls > 0 && Find(content, '\n') >= 0
    requires var rest := content[Find(content, '\n') + 1..];
             Pieces(rest, pulls - 1, flushTail) == (Lines(rest), true)
    ensures Pieces(content, pulls, flushTail) == (Lines(content), true)
  {
    var k := Find(content, '\n');
    var rest := content[k + 1..];
    assert PieceOf(content, flushTail) == content[..k + 1];
    assert RestOf(content, flushTail) == rest;
    LinesStep(content);
    PiecesStep(content, pulls, flushTail);
  }

  /** With the tail flushed, every content is yielded line by line, and then the
      generator finishes. */
  lemma {:induction false} PiecesFlushed(content: string, pulls: nat)
    requires pulls > |Lines(content)|
    ensures Pieces(content, pulls, true) == (Lines(content), true)
    decreases pulls
  {
    if content != [] {
      var k := Find(content, '\n');
      if k >= 0 {
        FlushedPre(content, pulls);
        PiecesFlushed(content[k + 1..], pulls - 1);
      }
      FlushedStep(content, pulls);
    }
  }

  lemma FlushedPre(content: string, pulls: nat)
    requires content != [] && Find(content, '\n') >= 0 && pulls > |Lines(content)|
    ensures pulls - 1 > |Lines(content[Find(content, '\n') + 1..])|
  {
    LinesStep(content);
  }

  /** One pull of `PiecesFlushed`, given the rest. */
  lemma FlushedStep(content: string, pulls: nat)
    requires content != [] && pulls > |Lines(content)|
    requires var k := Find(content, '\n');
             k >= 0 ==> Pieces(content[k + 1..], pulls - 1, true) == (Lines(content[k + 1..]), true)
    ensures Pieces(content, pulls, true) == (Lines(content), true)
  {
    LinesStep(content);
    PiecesStep(content, pulls, true);
    if Find(content, '\n') < 0 {
      FlushedLast(content, pulls);
    }
  }

  /** A last line without a newline is flushed whole, and then the generator finishes. */
  lemma FlushedLast(content: string, pulls: nat)
    requires content != [] && Find(content, '\n') < 0 && pulls > 1
    ensures Pieces(content, pulls, true) == ([content], true)
  {
    PiecesStep(content, pulls, true);
    PiecesEmpty([], pulls - 1, true);
    assert [content] + [] == [content];
  }

  function Blanks(n: nat): (r: seq<string>)
    ensures |r| == n && forall i :: 0 <= i < n ==> r[i] == []
  {
    seq(n, _ => [])
  }

  /** Content whose last line has no newline keeps that property after one
      resumption, and its lines are the piece and the lines of the rest. */
  lemma TailRest(content: string)
    requires content != [] && !EndsInNewline(content)
    ensures RestOf(content, false) != [] && !EndsInNewline(RestOf(content, false))
    ensures Find(content, '\n') < 0 ==> RestOf(content, false) == content && Lines(content) == [content]
    ensures Find(content, '\n') >= 0 ==>
              |RestOf(content, false)| < |content| &&
              Lines(content) == [PieceOf(content, false)] + Lines(RestOf(content, false))
  {
    LinesStep(content);
    var k := Find(content, '\n');
    if k >= 0 {
      var rest := content[k + 1..];
      assert rest != [] && rest[|rest| - 1] == content[|content| - 1];
    }
  }

  /** As written, content whose last line has no newline never finishes. */
  lemma {:induction false} PiecesTailNeverFinishes(content: string, pulls: nat)
    requires content != [] && !EndsInNewline(content)
    ensures !Pieces(content, pulls, false).1
    decreases pulls
  {
    if pulls > 0 {
      PiecesStep(content, pulls, false);
      TailRest(content);
      PiecesTailNeverFinishes(RestOf(content, false), pulls - 1);
    }
  }

  /** As written, a last line without a newline yields `''` on every pull. */
  lemma {:induction false} PiecesBlank(content: string, pulls: nat)
    requires content != [] && Find(content, '\n') < 0
    ensures Pieces(content, pulls, false) == (Blanks(pulls), false)
    decreases pulls
  {
    if pulls > 0 {
      PiecesStep(content, pulls, false);
      PiecesBlank(content, pulls - 1);
      assert [[]] + Blanks(pulls - 1) == Blanks(pulls);
    }
  }

  lemma ConsDropLast<T>(x: T, r: seq<T>, tail: seq<T>)
    requires r != []
    ensures [x] + (r[..|r| - 1] + tail) == ([x] + r)[..|r|] + tail
  {
    assert ([x] + r)[..|r|] == [x] + r[..|r| - 1];
  }

  /** As written, after the complete lines of such content the generator yields
      `''` on every pull. */
  lemma {:induction false} PiecesTail(content: string, pulls: nat)
    requires content != [] && !EndsInNewline(content)
    requires pulls >= |Lines(content)|
    ensures Pieces(content, pulls, false).0 == Lines(content)[..|Lines(content)| - 1] + Blanks(pulls - |Lines(content)| + 1)
    decreases pulls, 1
  {
    if Find(content, '\n') < 0 {
      TailBlank(content, pulls);
    } else {
      TailInduct(content, pulls);
    }
  }

  /** `PiecesTail` for content with a complete first line, from the rest. */
  lemma {:induction false} TailInduct(content: string, pulls: nat)
    requires |content| > 0 && !EndsInNewline(content) && Find(content, '\n') >= 0
    requires pulls >= |Lines(content)|
    ensures Pieces(content, pulls, false).0 == Lines(content)[..|Lines(content)| - 1] + Blanks(pulls - |Lines(content)| + 1)
    decreases pulls, 0
  {
    TailPre(content, pulls);
    PiecesTail(RestOf(content, false), pulls - 1);
    TailStep(content, pulls);
  }

  /** After a complete line, the rest still ends without a newline and needs one pull fewer. */
  lemma TailPre(content: string, pulls: nat)
    requires |content| > 0 && !EndsInNewline(content) && Find(content, '\n') >= 0
    requires pulls >= |Lines(content)|
    ensures var rest := RestOf(content, false);
            pulls >= 1 && |rest| > 0 && !EndsInNewline(rest) && pulls - 1 >= |Lines(rest)|
  {
    TailRest(content);
  }

  lemma TailBlank(content: string, pulls: nat)
    requires content != [] && Find(content, '\n') < 0 && pulls >= |Lines(content)|
    ensures Pieces(content, pulls, false).0 == Lines(content)[..|Lines(content)| - 1] + Blanks(pulls - |Lines(content)| + 1)
  {
    LinesStep(content);
    PiecesBlank(content, pulls);
    assert Lines(content)[..0] + Blanks(pulls) == Blanks(pulls);
  }

  lemma TailStep(content: string, pulls: nat)
    requires |content| > 0 && !EndsInNewline(content) && Find(content, '\n') >= 0
    requires pulls >= |Lines(content)|
    requires var rest := RestOf(content, false);
             Pieces(rest, pulls - 1, false).0 == Lines(rest)[..|Lines(rest)| - 1] + Blanks(pulls - 1 - |Lines(rest)| + 1)
    ensures Pieces(content, pulls, false).0 == Lines(content)[..|Lines(content)| - 1] + Blanks(pulls - |Lines(content)| + 1)
  {
    TailRest(content);
    PiecesStep(content, pulls, false);
    var r := Lines(RestOf(content, false));
    var m := pulls - |Lines(content)| + 1;
    assert |Lines(content)| == |r| + 1;
    ConsDropLast(PieceOf(content, false), r, Blanks(m));
  }

  /** Iterating a blob whose content is empty or ends in a newline yields its
      lines, which put together are exactly what `read()` returns, and then the
      iteration finishes. */
  lemma IterationMatchesRead(stream: seq<string>, pulls: nat)
    requires Chunked(stream)
    requires Read(stream) == [] || EndsInNewline(Read(stream))
    requires pulls > |Lines(Read(stream))|
    ensures Run([], stream, pulls, false) == (Lines(Read(stream)), true)
    ensures Concat(Run([], stream, pulls, false).0) == Read(stream)
  {
    assert [] + Concat(stream) == Concat(stream);
    RunIsPieces([], stream, pulls, false);
    PiecesTerminated(Read(stream), pulls, false);
    LinesConcat(Read(stream));
  }

  /** Each line of content that ends in a newline ends in its only newline. */
  lemma TerminatedLines(content: string)
    requires EndsInNewline(content)
    ensures forall i :: 0 <= i < |Lines(content)| ==> IsLine(Lines(content)[i]) && EndsInNewline(Lines(content)[i])
  {
    LinesAreLines(content);
    LinesTerminated(content);
    LastLineTerminated(content);
  }

  /** As written, a blob whose content does not end in a newline yields its
      complete lines and then `''` on every further pull, and never finishes. */
  lemma UnterminatedNeverFinishes(stream: seq<string>, pulls: nat)
    requires Chunked(stream)
    requires Read(stream) != [] && !EndsInNewline(Read(stream))
    ensures !Run([], stream, pulls, false).1
    ensures var lines := Lines(Read(stream));
            pulls >= |lines| ==> Run([], stream, pulls, false).0 == lines[..|lines| - 1] + Blanks(pulls - |lines| + 1)
  {
    assert [] + Concat(stream) == Concat(stream);
    RunIsPieces([], stream, pulls, false);
    PiecesTailNeverFinishes(Read(stream), pulls);
    var lines := Lines(Read(stream));
    if pulls >= |lines| {
      PiecesTail(Read(stream), pulls);
    }
  }

  /** With the tail flushed, every blob is yielded as its lines, which put
      together are what `read()` returns, and the iteration finishes. */
  lemma FlushedIterationMatchesRead(stream: seq<string>, pulls: nat)
    requires Chunked(stream)
    requires pulls > |Lines(Read(stream))|
    ensures Run([], stream, pulls, true) == (Lines(Read(stream)), true)
    ensures Concat(Run([], stream, pulls, true).0) == Read(stream)
  {
    assert [] + Concat(stream) == Concat(stream);
    RunIsPieces([], stream, pulls, true);
    PiecesFlushed(Read(stream), pulls);
    LinesConcat(Read(stream));
  }

  /** The blob `ab`, read as one chunk, yields `''` on each of three pulls and
      has not finished. */
  lemma NoNewlineExample()
    ensures Run([], ["ab"], 3, false) == (["", "", ""], false)
  {
    assert Concat(["ab"]) == "ab";
    assert [] + Concat(["ab"]) == "ab";
    RunIsPieces([], ["ab"], 3, false);
    assert Find("ab", '\n') == -1;
    PiecesBlank("ab", 3);
    assert Blanks(3) == ["", "", ""];
  }
}
