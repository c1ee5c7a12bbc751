/** Raw JSONL objects as byte streams: writing, bounded verification and reading back. */
module RawStreams {
  import opened Wrappers
  import opened RawLifecycle

  const NEWLINE: bv8 := 10
  const RETURN: bv8 := 13

  /** A collision-free content digest. */
  datatype Digest = Sha256(content: Bytes)

  datatype Manifest = Manifest(digest: Digest, byteSize: nat, rowCount: nat)

  function Newlines(b: Bytes): (n: nat)
    ensures n <= |b|
  {
    if |b| == 0 then 0 else Newlines(b[..|b| - 1]) + if b[|b| - 1] == NEWLINE then 1 else 0
  }

  lemma {:induction false} NewlinesConcat(a: Bytes, b: Bytes)
    ensures Newlines(a + b) == Newlines(a) + Newlines(b)
  {
    if |b| == 0 {
      assert a + b == a;
    } else {
      assert (a + b)[..|a + b| - 1] == a + b[..|b| - 1];
      NewlinesConcat(a, b[..|b| - 1]);
    }
  }

  /** Lines of a content whose last line may lack its newline. */
  function Rows(b: Bytes): nat {
    Newlines(b) + if |b| > 0 && b[|b| - 1] != NEWLINE then 1 else 0
  }

  predicate Matches(m: Manifest, content: Bytes) {
    |content| == m.byteSize && Sha256(content) == m.digest && Rows(content) == m.rowCount
  }

  /** A reader that may return any nonempty part of what is asked for, until the end. */
  class ByteSource {
    const content: Bytes
    var pos: nat

    ghost predicate Valid()
      reads this
    {
      pos <= |content|
    }

    constructor (content: Bytes)
      ensures Valid() && pos == 0 && this.content == content
    {
      this.content := content;
      pos := 0;
    }

    method Read(size: nat) returns (chunk: Bytes)
      requires Valid()
      modifies this
      ensures Valid() && old(pos) <= pos && chunk == content[old(pos)..pos] && |chunk| <= size
      ensures chunk == [] <==> size == 0 || old(pos) == |content|
    {
      if size == 0 || pos == |content| {
        return [];
      }
      var n: nat :| 1 <= n <= size && pos + n <= |content|;
      chunk := content[pos..pos + n];
      pos := pos + n;
    }
  }

  class ByteSink {
    var written: Bytes

    constructor ()
      ensures written == []
    {
      written := [];
    }

    method Write(chunk: Bytes)
      modifies this
      ensures written == old(written) + chunk
    {
      written := written + chunk;
    }
  }

  const CHUNK: nat := 0x100000

  /** `_verify_stream`: however the reader splits its chunks, accept exactly the manifested
      content, copy it unchanged, and never take more than one byte past the manifested size. */
  method VerifyStream(source: ByteSource, m: Manifest, sink: ByteSink?) returns (ok: bool, ghost copied: nat)
    requires source.Valid() && source.pos == 0
    modifies source, sink
    ensures ok <==> Matches(m, source.content)
    ensures source.Valid() && source.pos <= m.byteSize + 1
    ensures copied <= |source.content| && copied <= m.byteSize && (ok ==> copied == |source.content|)
    ensures sink != null ==> sink.written == old(sink.written) + source.content[..copied]
  {
    hide Newlines, Matches, Tail;
    ghost var content := source.content;
    NothingRead();
    var hashed: Bytes := [];
    var size, lines, tail := 0, 0, [];
    copied := 0;
    while true
      invariant source.Valid() && source.pos == size == copied == |hashed| <= m.byteSize
      invariant hashed == content[..size]
      invariant lines == Newlines(hashed) && tail == Tail(hashed)
      invariant sink != null ==> sink.written == old(sink.written) + hashed
      decreases |content| - size
    {
      var asked := m.byteSize - size + 1;
      var chunk := source.Read(if asked < CHUNK then asked else CHUNK);
      if chunk == [] {
        break;
      }
      if size + |chunk| > m.byteSize {
        WrongSize(m, content);
        return false, copied;
      }
      NewlinesConcat(hashed, chunk);
      TailOfConcat(hashed, chunk);
      JoinPrefix(content, size, size + |chunk|);
      size := size + |chunk|;
      hashed := hashed + chunk;
      lines := lines + Newlines(chunk);
      tail := [chunk[|chunk| - 1]];
      if sink != null {
        sink.Write(chunk);
      }
      copied := size;
    }
    assert hashed == content;
    Decision(m, content);
    ok := size == m.byteSize && Sha256(hashed) == m.digest
      && lines + (if tail != [] && tail != [NEWLINE] then 1 else 0) == m.rowCount;
  }

  function Tail(b: Bytes): Bytes { if |b| == 0 then [] else [b[|b| - 1]] }

  lemma NothingRead()
    ensures Newlines([]) == 0 && Tail([]) == []
  {
  }

  lemma TailOfConcat(a: Bytes, b: Bytes)
    requires |b| > 0
    ensures Tail(a + b) == [b[|b| - 1]]
  {
  }

  lemma JoinPrefix(content: Bytes, i: nat, j: nat)
    requires i <= j <= |content|
    ensures content[..i] + content[i..j] == content[..j]
  {
  }

  lemma WrongSize(m: Manifest, content: Bytes)
    ensures |content| != m.byteSize ==> !Matches(m, content)
  {
  }

  lemma Decision(m: Manifest, content: Bytes)
    ensures Matches(m, content) <==>
      && |content| == m.byteSize && Sha256(content) == m.digest
      && Newlines(content) + (if Tail(content) != [] && Tail(content) != [NEWLINE] then 1 else 0) == m.rowCount
  {
  }

  // ---------------------------------------------------------------------------
  // JSONL
  // ---------------------------------------------------------------------------

  /** A row serializer. */
  datatype Codec<!Row> = Codec(encode: Row -> Bytes, decode: Bytes -> Option<Row>)

  /** Decoding inverts encoding, and an encoded row holds no line break: control characters
      are escaped inside strings (section 7 of RFC 8259) and no blanks are written between tokens. */
  ghost predicate ValidCodec<Row(!new)>(codec: Codec<Row>) {
    && (forall row :: codec.decode(codec.encode(row)) == Some(row))
    && (forall row :: Unbroken(codec.encode(row)))
  }

  predicate Unbroken(b: Bytes) {
    forall i :: 0 <= i < |b| ==> b[i] != NEWLINE && b[i] != RETURN
  }

  function Encoded<Row>(codec: Codec<Row>, rows: seq<Row>): Bytes {
    if |rows| == 0 then []
    else Encoded(codec, rows[..|rows| - 1]) + (codec.encode(rows[|rows| - 1]) + [NEWLINE])
  }

  function ManifestFor<Row>(codec: Codec<Row>, rows: seq<Row>): Manifest {
    var content := Encoded(codec, rows);
    Manifest(Sha256(content), |content|, |rows|)
  }

  /** Where the first line of `b` ends: its length and the length of its line break. */
  function FirstBreak(b: Bytes, i: nat): (r: (nat, nat))
    requires i <= |b|
    ensures i <= r.0 && r.0 + r.1 <= |b| && (r.0 < |b| ==> r.1 > 0)
    decreases |b| - i
  {
    if i == |b| then (i, 0)
    else if b[i] == NEWLINE then (i, 1)
    else if b[i] == RETURN then (i, if i + 1 < |b| && b[i + 1] == NEWLINE then 2 else 1)
    else FirstBreak(b, i + 1)
  }

  /** Python's `bytes.splitlines`. */
  function SplitLines(b: Bytes): seq<Bytes>
    decreases |b|
  {
    if |b| == 0 then []
    else
      var (n, skip) := FirstBreak(b, 0);
      [b[..n]] + if n == |b| then [] else SplitLines(b[n + skip..])
  }

  predicate IsBreak(b: Bytes) { b == [NEWLINE] || b == [RETURN] || b == [RETURN, NEWLINE] }

  ghost function Rejoined(lines: seq<Bytes>, breaks: seq<Bytes>): Bytes
    requires |lines| == |breaks|
  {
    if |lines| == 0 then [] else lines[0] + breaks[0] + Rejoined(lines[1..], breaks[1..])
  }

  /** A line and the break after it: unbroken, ended by a line feed, a carriage return or both, and a
      carriage return takes the line feed after it along. Only a last, nonempty line may go unended. */
  ghost predicate Ended(lines: seq<Bytes>, breaks: seq<Bytes>, i: int)
    requires |lines| == |breaks| && 0 <= i < |lines|
  {
    && Unbroken(lines[i])
    && (IsBreak(breaks[i]) || (i == |lines| - 1 && breaks[i] == [] && lines[i] != []))
    && (breaks[i] == [RETURN] && i + 1 < |lines| ==> !(lines[i + 1] == [] && breaks[i + 1] == [NEWLINE]))
  }

  ghost predicate Splits(b: Bytes, lines: seq<Bytes>, breaks: seq<Bytes>) {
    |lines| == |breaks| && Rejoined(lines, breaks) == b && forall i :: 0 <= i < |lines| ==> Ended(lines, breaks, i)
  }

  lemma BreakHere(b: Bytes, i: nat)
    requires i < |b| && (b[i] == NEWLINE || b[i] == RETURN)
    ensures
      var skip := FirstBreak(b, i).1;
      FirstBreak(b, i).0 == i && IsBreak(b[i..i + skip]) && (b[i..i + skip] == [RETURN] ==> i + 1 == |b| || b[i + 1] != NEWLINE)
  {
    var skip := FirstBreak(b, i).1;
    if skip == 2 { assert b[i..i + 2] == [RETURN, NEWLINE]; } else { assert b[i..i + 1] == [b[i]]; }
  }

  lemma {:induction false} FirstBreakIsFirst(b: Bytes, i: nat)
    requires i <= |b|
    ensures
      var (n, skip) := FirstBreak(b, i);
      && (forall j :: i <= j < n ==> b[j] != NEWLINE && b[j] != RETURN)
      && (n == |b| ==> skip == 0)
      && (n < |b| ==> IsBreak(b[n..n + skip]) && (b[n..n + skip] == [RETURN] ==> n + 1 == |b| || b[n + 1] != NEWLINE))
    decreases |b| - i
  {
    hide IsBreak;
    if i < |b| && b[i] != NEWLINE && b[i] != RETURN {
      FirstBreakIsFirst(b, i + 1);
    } else if i < |b| {
      BreakHere(b, i);
    }
  }

  lemma NothingSplits()
    ensures SplitLines([]) == [] && Splits([], [], [])
  {
  }

  lemma FirstLineIsUnbroken(b: Bytes)
    requires |b| > 0
    ensures
      var (n, skip) := FirstBreak(b, 0);
      Unbroken(b[..n]) && (n == |b| ==> skip == 0)
  {
    hide IsBreak;
    FirstBreakIsFirst(b, 0);
    hide FirstBreak;
  }

  lemma FirstEndingIsBreak(b: Bytes)
    requires FirstBreak(b, 0).0 < |b|
    ensures
      var (n, skip) := FirstBreak(b, 0);
      && IsBreak(b[n..n + skip])
      && (b[n..n + skip] == [RETURN] ==> b[n + skip..] == [] || b[n + skip..][0] != NEWLINE)
  {
    hide IsBreak, FirstBreak;
    FirstBreakIsFirst(b, 0);
    EndingAt(b, FirstBreak(b, 0).0, FirstBreak(b, 0).1);
  }

  lemma EndingAt(b: Bytes, n: nat, skip: nat)
    requires n < |b| && n + skip <= |b| && (b[n..n + skip] == [RETURN] ==> n + 1 == |b| || b[n + 1] != NEWLINE)
    ensures b[n..n + skip] == [RETURN] ==> b[n + skip..] == [] || b[n + skip..][0] != NEWLINE
  {
    if b[n..n + skip] == [RETURN] { assert |b[n..n + skip]| == 1; }
  }

  lemma SplitLinesFirst(b: Bytes)
    requires |b| > 0
    ensures
      var (n, skip) := FirstBreak(b, 0);
      SplitLines(b) == [b[..n]] + if n == |b| then [] else SplitLines(b[n + skip..])
  {
    hide FirstBreak;
  }

  /** Any bytes are split at exactly their line breaks, and nothing of them is lost. */
  lemma {:induction false} SplitLinesSplits(b: Bytes) returns (breaks: seq<Bytes>)
    ensures Splits(b, SplitLines(b), breaks)
    decreases |b|
  {
    hide Splits, Unbroken, IsBreak, FirstBreak, SplitLines;
    if |b| == 0 {
      breaks := [];
      NothingSplits();
    } else {
      var (n, skip) := FirstBreak(b, 0);
      FirstLineIsUnbroken(b);
      SplitLinesFirst(b);
      var line, ending, rest := b[..n], b[n..n + skip], b[n + skip..];
      assert b == line + ending + rest;
      if n < |b| {
        FirstEndingIsBreak(b);
        var later := SplitLinesSplits(rest);
        breaks := [ending] + later;
        FirstLineSplits(line, ending, rest, SplitLines(rest), later);
      } else {
        NothingSplits();
        FirstLineSplits(line, ending, rest, [], []);
        breaks := [ending] + [];
      }
    }
  }

  lemma FirstLineSplits(line: Bytes, ending: Bytes, rest: Bytes, lines: seq<Bytes>, breaks: seq<Bytes>)
    requires Unbroken(line) && Splits(rest, lines, breaks)
    requires IsBreak(ending) || (ending == [] && rest == [] && line != [])
    requires ending == [RETURN] ==> rest == [] || rest[0] != NEWLINE
    ensures Splits(line + ending + rest, [line] + lines, [ending] + breaks)
  {
    hide Unbroken, IsBreak;
    var allLines, allBreaks := [line] + lines, [ending] + breaks;
    assert allLines[1..] == lines && allBreaks[1..] == breaks;
    RestIsEmpty(rest, lines, breaks);
    forall i | 0 <= i < |allLines| ensures Ended(allLines, allBreaks, i) {
      if i > 0 { assert Ended(lines, breaks, i - 1); }
    }
  }

  /** Nothing is left to split exactly when there is no further line; a further empty line ended by a
      line feed means that the rest starts with it. */
  lemma RestIsEmpty(rest: Bytes, lines: seq<Bytes>, breaks: seq<Bytes>)
    requires Splits(rest, lines, breaks)
    ensures lines == [] <==> rest == []
    ensures |lines| > 0 && lines[0] == [] && breaks[0] == [NEWLINE] ==> rest[0] == NEWLINE
  {
    if |lines| > 0 {
      assert Ended(lines, breaks, 0);
      assert rest == lines[0] + breaks[0] + Rejoined(lines[1..], breaks[1..]);
    }
  }

  lemma {:induction false} FirstBreakOfLine(line: Bytes, rest: Bytes, i: nat)
    requires Unbroken(line) && i <= |line|
    ensures FirstBreak(line + [NEWLINE] + rest, i) == (|line|, 1)
    decreases |line| - i
  {
    var all := line + [NEWLINE] + rest;
    assert all[|line|] == NEWLINE;
    if i < |line| {
      assert all[i] == line[i];
      FirstBreakOfLine(line, rest, i + 1);
    }
  }

  lemma SplitOneLine(line: Bytes, rest: Bytes)
    requires Unbroken(line)
    ensures SplitLines(line + [NEWLINE] + rest) == [line] + SplitLines(rest)
  {
    var all := line + [NEWLINE] + rest;
    FirstBreakOfLine(line, rest, 0);
    assert all[..|line|] == line && all[|line| + 1..] == rest;
  }

  function Lines<Row>(codec: Codec<Row>, rows: seq<Row>): (lines: seq<Bytes>)
    ensures |lines| == |rows| && forall i :: 0 <= i < |rows| ==> lines[i] == codec.encode(rows[i])
  {
    if |rows| == 0 then [] else Lines(codec, rows[..|rows| - 1]) + [codec.encode(rows[|rows| - 1])]
  }

  /** Written rows split back into exactly their encodings, whatever follows them. */
  lemma {:induction false} SplitEncoded<Row(!new)>(codec: Codec<Row>, rows: seq<Row>, rest: Bytes)
    requires ValidCodec(codec)
    ensures SplitLines(Encoded(codec, rows) + rest) == Lines(codec, rows) + SplitLines(rest)
  {
    if |rows| == 0 {
      assert Encoded(codec, rows) + rest == rest && Lines(codec, rows) + SplitLines(rest) == SplitLines(rest);
    } else {
      var n := |rows| - 1;
      var line := codec.encode(rows[n]);
      SplitEncoded(codec, rows[..n], line + [NEWLINE] + rest);
      SplitOneLine(line, rest);
      assert Encoded(codec, rows) == Encoded(codec, rows[..n]) + (line + [NEWLINE]);
      assert Lines(codec, rows) == Lines(codec, rows[..n]) + [line];
      hide Encoded, Lines, SplitLines;
      Associate(Encoded(codec, rows[..n]), line + [NEWLINE], rest);
      Associate(Lines(codec, rows[..n]), [line], SplitLines(rest));
    }
  }

  lemma {:induction false} NoNewlines(b: Bytes)
    requires Unbroken(b)
    ensures Newlines(b) == 0
  {
    if |b| > 0 { NoNewlines(b[..|b| - 1]); }
  }

  /** What was written is what every later verification accepts. */
  lemma {:induction false} WrittenMatches<Row(!new)>(codec: Codec<Row>, rows: seq<Row>)
    requires ValidCodec(codec)
    ensures Matches(ManifestFor(codec, rows), Encoded(codec, rows))
    ensures Newlines(Encoded(codec, rows)) == |rows|
  {
    if |rows| > 0 {
      var n := |rows| - 1;
      var line := codec.encode(rows[n]);
      WrittenMatches(codec, rows[..n]);
      NewlinesConcat(Encoded(codec, rows[..n]), line + [NEWLINE]);
      NewlinesConcat(line, [NEWLINE]);
      NoNewlines(line);
      assert Newlines([NEWLINE]) == 1 by { assert [NEWLINE][..0] == []; }
      assert Encoded(codec, rows)[|Encoded(codec, rows)| - 1] == NEWLINE;
    }
  }

  // ---------------------------------------------------------------------------
  // The store
  // ---------------------------------------------------------------------------

  datatype ReadError = Missing | Unreadable | TooLarge | SizeMismatch | DigestMismatch | BadLine(line: nat) | RowMismatch

  /** `read_payload` over the two representations of one logical object. */
  function Payload(plain: Option<File>, gz: Option<File>, maxBytes: nat): Result<Bytes, ReadError> {
    var content :=
      if plain.Some? then (if plain.value.Text? then Success(plain.value.content) else Failure(Unreadable))
      else if gz.Some? then (if gz.value.Gzip? then Success(gz.value.content) else Failure(Unreadable))
      else Failure(Missing);
    if content.Success? && |content.value| > maxBytes then Failure(TooLarge) else content
  }

  function DecodeLines<Row>(codec: Codec<Row>, lines: seq<Bytes>, n: nat): Result<seq<Row>, ReadError>
    requires n <= |lines|
  {
    if n == 0 then Success([])
    else
      var earlier := DecodeLines(codec, lines, n - 1);
      if earlier.Failure? then earlier
      else
        match codec.decode(lines[n - 1])
        case None => Failure(BadLine(n))
        case Some(row) => Success(earlier.value + [row])
  }

  /** `read_jsonl`: bytes, size, digest, rows, row count. */
  function Decoded<Row>(codec: Codec<Row>, m: Manifest, payload: Result<Bytes, ReadError>): Result<seq<Row>, ReadError> {
    match payload
    case Failure(e) => Failure(e)
    case Success(content) =>
      if |content| != m.byteSize then Failure(SizeMismatch)
      else if Sha256(content) != m.digest then Failure(DigestMismatch)
      else
        var rows := DecodeLines(codec, SplitLines(content), |SplitLines(content)|);
        if rows.Success? && |rows.value| != m.rowCount then Failure(RowMismatch) else rows
  }

  lemma {:induction false} DecodeEncoded<Row(!new)>(codec: Codec<Row>, rows: seq<Row>, n: nat)
    requires ValidCodec(codec) && n <= |rows|
    ensures DecodeLines(codec, Lines(codec, rows), n) == Success(rows[..n])
  {
    if n > 0 {
      DecodeEncoded(codec, rows, n - 1);
      assert rows[..n] == rows[..n - 1] + [rows[n - 1]];
    }
  }

  /** Reading back returns the written rows, from the plaintext or, once that is gone, from its
      gzip; a plaintext that is still there wins. */
  lemma ReadReturnsWritten<Row(!new)>(codec: Codec<Row>, rows: seq<Row>, plain: Option<File>, gz: Option<File>)
    requires ValidCodec(codec)
    requires plain == Some(Text(Encoded(codec, rows))) || (plain.None? && gz == Some(Gzip(Encoded(codec, rows))))
    ensures
      var m := ManifestFor(codec, rows);
      Decoded(codec, m, Payload(plain, gz, m.byteSize)) == Success(rows)
  {
    var content := Encoded(codec, rows);
    SplitEncoded(codec, rows, []);
    assert content + [] == content && Lines(codec, rows) + [] == Lines(codec, rows);
    DecodeEncoded(codec, rows, |rows|);
    assert rows[..|rows|] == rows;
  }

  /** The logical object holds these bytes: its plaintext does, or, without one, its gzip. */
  ghost predicate Holds(plain: Option<File>, gz: Option<File>, b: Bytes) {
    plain == Some(Text(b)) || (plain.None? && gz == Some(Gzip(b)))
  }

  /** Bytes of the manifest's size and digest whose lines decode to as many rows as it counts. */
  ghost predicate Manifested<Row>(codec: Codec<Row>, m: Manifest, b: Bytes, rows: seq<Row>) {
    && |b| == m.byteSize && m.digest == Sha256(b) && |rows| == m.rowCount == |SplitLines(b)|
    && forall i :: 0 <= i < |rows| ==> codec.decode(SplitLines(b)[i]) == Some(rows[i])
  }

  lemma NothingDecoded<Row>(codec: Codec<Row>, lines: seq<Bytes>)
    ensures DecodeLines(codec, lines, 0) == Success([])
  {
  }

  lemma DecodeNext<Row>(codec: Codec<Row>, lines: seq<Bytes>, n: nat)
    requires 0 < n <= |lines|
    ensures
      var earlier := DecodeLines(codec, lines, n - 1);
      DecodeLines(codec, lines, n) ==
        if earlier.Failure? then earlier
        else if codec.decode(lines[n - 1]).None? then Failure(BadLine(n))
        else Success(earlier.value + [codec.decode(lines[n - 1]).value])
  {
  }

  lemma {:induction false} DecodedLines<Row>(codec: Codec<Row>, lines: seq<Bytes>, n: nat, rows: seq<Row>)
    requires n <= |lines|
    ensures DecodeLines(codec, lines, n) == Success(rows) <==>
      |rows| == n && forall i :: 0 <= i < n ==> codec.decode(lines[i]) == Some(rows[i])
  {
    hide DecodeLines;
    if n == 0 {
      NothingDecoded(codec, lines);
    } else {
      DecodeNext(codec, lines, n);
      var earlier := DecodeLines(codec, lines, n - 1);
      if earlier.Success? { DecodedLines(codec, lines, n - 1, earlier.value); }
      if |rows| == n {
        DecodedLines(codec, lines, n - 1, rows[..n - 1]);
        assert rows == rows[..n - 1] + [rows[n - 1]];
      }
    }
  }

  /** A read succeeds exactly on bytes the manifest describes, and returns their rows: anything missing,
      torn, altered, of another size or with another number of rows is refused. */
  lemma ReadsOnlyManifested<Row(!new)>(codec: Codec<Row>, m: Manifest, plain: Option<File>, gz: Option<File>, rows: seq<Row>)
    ensures Decoded(codec, m, Payload(plain, gz, m.byteSize)) == Success(rows) <==>
      exists b :: Holds(plain, gz, b) && Manifested(codec, m, b, rows)
  {
    hide SplitLines, DecodeLines;
    var p := Payload(plain, gz, m.byteSize);
    if p.Success? {
      DecodedLines(codec, SplitLines(p.value), |SplitLines(p.value)|, rows);
      assert Holds(plain, gz, p.value);
      forall b | Holds(plain, gz, b) ensures b == p.value { }
    } else {
      forall b | Holds(plain, gz, b) ensures |b| > m.byteSize { }
    }
  }

  /** Whatever the files hold now, a read with the manifest of written rows returns those rows or fails. */
  lemma AlteredContentIsRefused<Row(!new)>(codec: Codec<Row>, rows: seq<Row>, plain: Option<File>, gz: Option<File>)
    requires ValidCodec(codec)
    ensures
      var m := ManifestFor(codec, rows);
      var r := Decoded(codec, m, Payload(plain, gz, m.byteSize));
      r.Success? ==> r.value == rows && Holds(plain, gz, Encoded(codec, rows))
  {
    hide Decoded, Payload, Encoded, SplitLines;
    var m := ManifestFor(codec, rows);
    var r := Decoded(codec, m, Payload(plain, gz, m.byteSize));
    if r.Success? {
      ReadsOnlyManifested(codec, m, plain, gz, r.value);
      var b :| Holds(plain, gz, b) && Manifested(codec, m, b, r.value);
      assert b == Encoded(codec, rows);
      ReadReturnsWritten(codec, rows, plain, gz);
    }
  }

  /** The same along any execution of the object's life: until a declaration is committed,
      reading the logical object returns exactly the written rows. */
  lemma ReadsSurviveCompression<Row(!new)>(codec: Codec<Row>, rows: seq<Row>, actions: seq<Action>)
    requires ValidCodec(codec)
    ensures
      var s := Execute(Encoded(codec, rows), actions).store;
      var m := ManifestFor(codec, rows);
      !s.declared ==> Decoded(codec, m, Payload(s.plain, s.gz, m.byteSize)) == Success(rows)
  {
    var content := Encoded(codec, rows);
    EveryExecutionIsSound(content, actions);
    var s := Execute(content, actions).store;
    hide Execute, Decoded, Payload, StageInvariant, ManifestFor, Encoded;
    if !s.declared {
      ReadReturnsWritten(codec, rows, s.plain, s.gz);
    }
  }

  /** One directory of logical objects, each with at most a plaintext and a gzip. */
  class RawStore {
    var plain: map<string, File>
    var gz: map<string, File>

    constructor ()
      ensures plain == map[] && gz == map[]
    {
      plain, gz := map[], map[];
    }

    function Plain(path: string): Option<File>
      reads this
    {
      if path in plain then Some(plain[path]) else None
    }

    function Gz(path: string): Option<File>
      reads this
    {
      if path in gz then Some(gz[path]) else None
    }

    /** `write_jsonl`: refuses an existing logical object, otherwise writes line by line. */
    method WriteJsonl<Row>(codec: Codec<Row>, path: string, rows: seq<Row>) returns (stored: Option<Manifest>)
      modifies this
      ensures stored.None? <==> path in old(plain) || path in old(gz)
      ensures stored.None? ==> plain == old(plain)
      ensures stored.Some? ==> stored.value == ManifestFor(codec, rows) && plain == old(plain)[path := Text(Encoded(codec, rows))]
      ensures gz == old(gz)
    {
      if path in gz || path in plain {
        return None;
      }
      plain := plain[path := Torn];
      var content: Bytes := [];
      var byteSize, rowCount := 0, 0;
      for i := 0 to |rows|
        invariant content == Encoded(codec, rows[..i]) && byteSize == |content| && rowCount == i
        invariant plain == old(plain)[path := Torn] && gz == old(gz)
      {
        assert rows[..i + 1][..i] == rows[..i];
        var payload := codec.encode(rows[i]) + [NEWLINE];
        content := content + payload;
        byteSize := byteSize + |payload|;
        rowCount := rowCount + 1;
      }
      assert rows[..|rows|] == rows;
      plain := plain[path := Text(content)];
      stored := Some(Manifest(Sha256(content), byteSize, rowCount));
    }

    /** `read_jsonl`: decode line by line, then compare the row count. */
    method ReadJsonl<Row>(codec: Codec<Row>, path: string, m: Manifest) returns (r: Result<seq<Row>, ReadError>)
      ensures r == Decoded(codec, m, Payload(Plain(path), Gz(path), m.byteSize))
      ensures r.Success? ==> exists b :: Holds(Plain(path), Gz(path), b) && Manifested(codec, m, b, r.value)
    {
      var payload := Payload(Plain(path), Gz(path), m.byteSize);
      if payload.Failure? {
        return Failure(payload.error);
      }
      if |payload.value| != m.byteSize {
        return Failure(SizeMismatch);
      }
      if Sha256(payload.value) != m.digest {
        return Failure(DigestMismatch);
      }
      var lines := SplitLines(payload.value);
      var rows: seq<Row> := [];
      for i := 0 to |lines|
        invariant DecodeLines(codec, lines, i) == Success(rows)
        invariant |rows| == i
      {
        var row := codec.decode(lines[i]);
        if row.None? {
          DecodeFails(codec, lines, i + 1, |lines|);
          return Failure(BadLine(i + 1));
        }
        rows := rows + [row.value];
      }
      r := if |rows| != m.rowCount then Failure(RowMismatch) else Success(rows);
      if r.Success? {
        DecodedLines(codec, lines, |lines|, rows);
        assert Holds(Plain(path), Gz(path), payload.value) && Manifested(codec, m, payload.value, rows);
      }
    }
  }

  lemma {:induction false} DecodeFails<Row>(codec: Codec<Row>, lines: seq<Bytes>, i: nat, n: nat)
    requires i <= n <= |lines| && DecodeLines(codec, lines, i).Failure?
    ensures DecodeLines(codec, lines, n) == DecodeLines(codec, lines, i)
  {
    if i < n { DecodeFails(codec, lines, i, n - 1); }
  }
}
