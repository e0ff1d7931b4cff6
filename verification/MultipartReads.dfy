/**
  The reader's promises about whole reads: how the body was cut into chunks does not matter, with
  the exact exception, and reading in any chunks undoes writing.
 */
module MultipartReads {
  import opened Bytes
  import opened Wrappers
  import opened Multipart
  import opened MultipartFormat
  import opened MultipartMeaning
  import opened MultipartChunks

  /** The state of a read whose stream has reached the closing delimiter. */
  function Outcome(cfg: Config, chunks: seq<Bytes>): (r: Option<State>)
    requires cfg.Valid()
    ensures r.Some? ==> r.value.Valid(cfg)
  {
    IfDone(ReadChunks(cfg, INITIAL, 0, chunks))
  }

  predicate Fits(cfg: Config, text: Bytes) {
    |text| <= cfg.maxFileBytes + 65536
  }

  lemma ReadOutcome(cfg: Config, chunks: seq<Bytes>)
    requires cfg.Valid()
    ensures Accepted(Read(cfg, chunks)) == Verdict(cfg, Outcome(cfg, chunks))
  {
    var r := ReadChunks(cfg, INITIAL, 0, chunks);
    if r.Ok? && !r.value.phase.Done? {
      assert Conclude(cfg, r.value).Err?;
    }
  }

  function Accepted(r: Result<Upload, Error>): Option<Upload> {
    match r
    case Ok(u) => Some(u)
    case Err(_) => None
  }

  function Verdict(cfg: Config, s: Option<State>): Option<Upload> {
    match s
    case None => None
    case Some(s) => Accepted(Conclude(cfg, s))
  }

  /** A body that the format accepts although one of its header blocks is just below the limit. */
  ghost predicate Fragile(cfg: Config, text: Bytes) {
    Fits(cfg, text) && Meaning(cfg, text).Some? && LongHeader(Meaning(cfg, text).value)
  }

  /** Every way of cutting the body: a read that finishes has gathered the body's meaning, and one
      that does not is of a body too long, or without meaning, or fragile. */
  lemma ReadMeaning(cfg: Config, chunks: seq<Bytes>)
    requires cfg.Valid()
    ensures var text := Flatten(chunks);
            match Outcome(cfg, chunks)
            case Some(s) => Fits(cfg, text) && Meaning(cfg, text) == Some(s.parts)
            case None => !Fits(cfg, text) || Meaning(cfg, text).None? || Fragile(cfg, text)
    ensures var text := Flatten(chunks);
            Outcome(cfg, chunks).Some? ==> Outcome(cfg, chunks) == Finished(cfg, Opened(text))
  {
    var text := Flatten(chunks);
    assert Extend(INITIAL, text) == Opened(text) by { assert [] + text == text; }
    ReadAbsorbs(cfg, INITIAL, 0, chunks);
    DrainMeaning(cfg, text);
  }

  /** Chunk independence: two ways of cutting a body that is not fragile give the same result: the
      same upload with the same bytes fed to the digest, or no upload. */
  lemma ChunkIndependence(cfg: Config, chunks: seq<Bytes>, others: seq<Bytes>)
    requires cfg.Valid() && Flatten(chunks) == Flatten(others)
    requires !Fragile(cfg, Flatten(chunks))
    ensures Outcome(cfg, chunks) == Outcome(cfg, others)
    ensures Accepted(Read(cfg, chunks)) == Accepted(Read(cfg, others))
  {
    ReadMeaning(cfg, chunks);
    ReadMeaning(cfg, others);
    ReadOutcome(cfg, chunks);
    ReadOutcome(cfg, others);
  }

  // ------------------------------------------------------------------------- the exception

  /** A state that has seen only the first n bytes of its buffer. */
  function UpTo(s: State, n: nat): State
    requires n <= |s.buffer|
  {
    s.(buffer := s.buffer[..n])
  }

  /** A header block just below the limit can be cut inside its blank line, and is then refused. */
  lemma {:induction false} LongHeaderStops(cfg: Config, s: State, f: string) returns (q: nat)
    requires s.Valid(cfg) && s.phase.Headers? && Finished(cfg, s).Some? && f !in s.parts
    requires f in Finished(cfg, s).value.parts
    requires |Finished(cfg, s).value.parts[f].headers| > SAFE_HEADER
    ensures q <= |s.buffer| && Drain(cfg, UpTo(s, q)).Err?
    decreases |s.buffer|
  {
    FinishedBlock(cfg, s);
    BlockTaken(cfg, s);
    var next := AfterBlock(cfg, s).value;
    var headers := Cut(cfg.marker, s.buffer).value.block.headers;
    if f == next.name {
      HeadersKept(cfg, next);
      q := |headers| + 3;
      StopsInBlankLine(cfg, s, q);
    } else {
      if next.phase.Done? { FinishedDone(cfg, next); }
      var q1 := LongHeaderStops(cfg, next, f);
      q := PrefixBlock(cfg, s, q1);
    }
  }

  lemma StopsInBlankLine(cfg: Config, s: State, q: nat)
    requires s.Valid(cfg) && s.phase.Headers? && MAX_HEADER < q < Find(s.buffer, BLANK_LINE) + 4
    ensures q <= |s.buffer| && Drain(cfg, UpTo(s, q)) == Err(HeadersTooLarge)
  {
    var prefix := s.buffer[..q];
    assert s.buffer == prefix + s.buffer[q..];
    FindExtend(prefix, s.buffer[q..], BLANK_LINE);
  }

  /** What comes after the block does not matter to how it is taken. */
  lemma SameBlock(cfg: Config, s: State, n: nat, slice: Slice, q: nat)
    requires s.Valid(cfg) && s.phase.Headers? && n <= |s.buffer| && q <= |slice.more|
    requires AfterBlock(cfg, s).Some? && Cut(cfg.marker, s.buffer) == Some(slice)
    requires Cut(cfg.marker, s.buffer[..n]) == Some(slice.(more := slice.more[..q]))
    ensures q <= |AfterBlock(cfg, s).value.buffer|
    ensures AfterBlock(cfg, UpTo(s, n)) == Some(UpTo(AfterBlock(cfg, s).value, q))
  {
    BlockTaken(cfg, s);
    BlockTaken(cfg, UpTo(s, n));
  }

  lemma BlockCut(cfg: Config, s: State)
    requires s.Valid(cfg) && s.phase.Headers? && AfterBlock(cfg, s).Some?
    ensures Cut(cfg.marker, s.buffer).Some?
    ensures Cut(cfg.marker, s.buffer).value.more == AfterBlock(cfg, s).value.buffer
  {
    BlockTaken(cfg, s);
  }

  lemma AfterPrefix(cfg: Config, s: State, q: nat) returns (n: nat)
    requires s.Valid(cfg) && s.phase.Headers? && AfterBlock(cfg, s).Some?
    requires q <= |AfterBlock(cfg, s).value.buffer|
    ensures n <= |s.buffer| && AfterBlock(cfg, UpTo(s, n)) == Some(UpTo(AfterBlock(cfg, s).value, q))
  {
    BlockCut(cfg, s);
    var slice := Cut(cfg.marker, s.buffer).value;
    n := CutPrefix(cfg.marker, s.buffer, slice, q);
    SameBlock(cfg, s, n, slice, q);
  }

  /** Some prefix that holds the first block drains as the rest of it does after that block. */
  lemma PrefixBlock(cfg: Config, s: State, q: nat) returns (n: nat)
    requires s.Valid(cfg) && s.phase.Headers? && AfterBlock(cfg, s).Some?
    requires q <= |AfterBlock(cfg, s).value.buffer|
    ensures n <= |s.buffer|
    ensures Drain(cfg, UpTo(s, n)) == Drain(cfg, UpTo(AfterBlock(cfg, s).value, q))
  {
    n := AfterPrefix(cfg, s, q);
    FinishedBlock(cfg, UpTo(s, n));
  }

  /** Every fragile body has a way of being cut that makes the reader refuse it. */
  lemma FragileBreaks(cfg: Config, text: Bytes) returns (chunks: seq<Bytes>)
    requires cfg.Valid() && Fragile(cfg, text)
    ensures Flatten(chunks) == text && Outcome(cfg, chunks).None?
  {
    var k := FragilePrefix(cfg, text);
    chunks := [text[..k], text[k..]];
    TwoChunks(text, k);
    FirstChunkFails(cfg, chunks);
  }

  lemma TwoChunks(text: Bytes, k: nat)
    requires k <= |text|
    ensures Flatten([text[..k], text[k..]]) == text
  {
    var chunks := [text[..k], text[k..]];
    assert chunks[1..] == [text[k..]];
    assert Flatten(chunks[1..]) == text[k..] + [];
  }

  /** A fragile body has a prefix that is refused. */
  lemma FragilePrefix(cfg: Config, text: Bytes) returns (k: nat)
    requires cfg.Valid() && Fragile(cfg, text)
    ensures k <= |text| && Drain(cfg, Opened(text[..k])).Err?
  {
    var after := AfterOpening(cfg, text);
    var q := SomeHeaderStops(cfg, after);
    k := |cfg.marker| + 2 + q;
    PrefixOfBody(cfg, text, k, q, after);
  }

  lemma SomeHeaderStops(cfg: Config, s: State) returns (q: nat)
    requires s.Valid(cfg) && s.phase.Headers? && s.parts == map[] && Finished(cfg, s).Some?
    requires LongHeader(Finished(cfg, s).value.parts)
    ensures q <= |s.buffer| && Drain(cfg, UpTo(s, q)).Err?
  {
    var parts := Finished(cfg, s).value.parts;
    var f :| f in parts && |parts[f].headers| > SAFE_HEADER;
    q := LongHeaderStops(cfg, s, f);
  }

  /** The state after the opening line of a body that has a meaning. */
  lemma AfterOpening(cfg: Config, text: Bytes) returns (after: State)
    requires cfg.Valid() && Meaning(cfg, text).Some?
    ensures cfg.marker + CRLF <= text && |text| >= |cfg.marker| + 2
    ensures after == Opened(text).(buffer := text[|cfg.marker| + 2..], phase := Headers)
    ensures after.Valid(cfg) && Finished(cfg, after).Some?
    ensures Finished(cfg, after).value.parts == Meaning(cfg, text).value
  {
    DrainMeaning(cfg, text);
    after := if |text| < |cfg.marker| + 2 then Opened(text)
             else Opened(text).(buffer := text[|cfg.marker| + 2..], phase := Headers);
    OpeningLine(cfg, Opened(text), after);
  }

  lemma PrefixOfBody(cfg: Config, text: Bytes, k: nat, q: nat, after: State)
    requires cfg.Valid() && cfg.marker + CRLF <= text && k == |cfg.marker| + 2 + q && k <= |text|
    requires after == Opened(text).(buffer := text[|cfg.marker| + 2..], phase := Headers)
    requires q <= |after.buffer| && Drain(cfg, UpTo(after, q)).Err?
    ensures Drain(cfg, Opened(text[..k])).Err?
  {
    var n, first := |cfg.marker| + 2, text[..k];
    assert first[n..] == text[n..][..q];
    assert |cfg.marker + CRLF| == n;
    assert first[..n] == text[..n] == cfg.marker + CRLF;
    OpeningLine(cfg, Opened(first), after.(buffer := first[n..]));
  }

  lemma FirstChunkFails(cfg: Config, chunks: seq<Bytes>)
    requires cfg.Valid() && chunks != [] && Drain(cfg, Opened(chunks[0])).Err?
    ensures Outcome(cfg, chunks).None?
  {
    assert Extend(INITIAL, chunks[0]) == Opened(chunks[0]) by {
      assert [] + chunks[0] == chunks[0];
    }
  }

  /** Whether the stream reaches the closing delimiter depends on the cutting if and only if the body
      is fragile. */
  lemma CutsStopExactly(cfg: Config, text: Bytes)
    requires cfg.Valid()
    ensures (forall chunks :: Flatten(chunks) == text ==> Outcome(cfg, chunks) == Outcome(cfg, [text]))
            <==> !Fragile(cfg, text)
  {
    assert Flatten([text]) == text + [];
    if Fragile(cfg, text) {
      var chunks := FragileBreaks(cfg, text);
      WholeFinishes(cfg, text);
      assert Outcome(cfg, chunks) != Outcome(cfg, [text]);
    } else {
      forall chunks | Flatten(chunks) == text ensures Outcome(cfg, chunks) == Outcome(cfg, [text]) {
        ChunkIndependence(cfg, chunks, [text]);
      }
    }
  }

  /** The exact condition: what the reader returns depends on how the body is cut if and only if the
      body is fragile and would make an upload. */
  lemma CutsMatterExactly(cfg: Config, text: Bytes)
    requires cfg.Valid()
    ensures (forall chunks :: Flatten(chunks) == text ==>
               Accepted(Read(cfg, chunks)) == Accepted(Read(cfg, [text])))
            <==> !(Fragile(cfg, text) && Complete(cfg, Meaning(cfg, text).value))
  {
    if Fragile(cfg, text) && Complete(cfg, Meaning(cfg, text).value) {
      var chunks := FragileRefused(cfg, text);
      FragileRead(cfg, text);
    } else {
      forall chunks | Flatten(chunks) == text
        ensures Accepted(Read(cfg, chunks)) == Accepted(Read(cfg, [text]))
      {
        CutsNeverMatter(cfg, text, chunks);
      }
    }
  }

  lemma FlattenOne(text: Bytes)
    ensures Flatten([text]) == text
  {
    assert Flatten([text]) == text + [];
  }

  lemma CutsNeverMatter(cfg: Config, text: Bytes, chunks: seq<Bytes>)
    requires cfg.Valid() && Flatten(chunks) == text
    requires !(Fragile(cfg, text) && Complete(cfg, Meaning(cfg, text).value))
    ensures Accepted(Read(cfg, chunks)) == Accepted(Read(cfg, [text]))
  {
    FlattenOne(text);
    if Fragile(cfg, text) {
      NeverRead(cfg, chunks);
      NeverRead(cfg, [text]);
    } else {
      ChunkIndependence(cfg, chunks, [text]);
    }
  }

  lemma FragileRefused(cfg: Config, text: Bytes) returns (chunks: seq<Bytes>)
    requires cfg.Valid() && Fragile(cfg, text)
    ensures Flatten(chunks) == text && Accepted(Read(cfg, chunks)).None?
  {
    chunks := FragileBreaks(cfg, text);
    ReadOutcome(cfg, chunks);
  }

  /** In one chunk such a body is read. */
  lemma FragileRead(cfg: Config, text: Bytes)
    requires cfg.Valid() && Fragile(cfg, text) && Complete(cfg, Meaning(cfg, text).value)
    ensures Accepted(Read(cfg, [text])).Some?
  {
    var s := WholeParts(cfg, text);
    ReadOutcome(cfg, [text]);
    ConcludeExact(cfg, s);
  }

  lemma WholeParts(cfg: Config, text: Bytes) returns (s: State)
    requires cfg.Valid() && Fits(cfg, text) && Meaning(cfg, text).Some?
    ensures Outcome(cfg, [text]) == Some(s) && s.phase.Done? && s.parts == Meaning(cfg, text).value
  {
    FlattenOne(text);
    WholeFinishes(cfg, text);
    ReadMeaning(cfg, [text]);
    s := Outcome(cfg, [text]).value;
  }

  /** A body whose parts make no upload is refused however it is cut. */
  lemma NeverRead(cfg: Config, chunks: seq<Bytes>)
    requires cfg.Valid() && Meaning(cfg, Flatten(chunks)).Some?
    requires !Complete(cfg, Meaning(cfg, Flatten(chunks)).value)
    ensures Accepted(Read(cfg, chunks)).None?
  {
    ReadMeaning(cfg, chunks);
    ReadOutcome(cfg, chunks);
    var s := Outcome(cfg, chunks);
    if s.Some? { ConcludeExact(cfg, s.value); }
  }

  /** A body with a meaning is read when it comes in one chunk. */
  lemma WholeFinishes(cfg: Config, text: Bytes)
    requires cfg.Valid() && Fits(cfg, text) && Meaning(cfg, text).Some?
    ensures Outcome(cfg, [text]).Some?
  {
    OneChunk(cfg, text);
    DrainMeaning(cfg, text);
  }

  lemma OneChunk(cfg: Config, text: Bytes)
    requires cfg.Valid() && Fits(cfg, text)
    ensures ReadChunks(cfg, INITIAL, 0, [text]) == Drain(cfg, Opened(text))
  {
    assert Extend(INITIAL, text) == Opened(text) by { assert [] + text == text; }
    assert [text][1..] == [];
    assert 0 + |text| <= cfg.maxFileBytes + MAX_OVERHEAD;
    ChunkThenEnd(cfg, INITIAL, text);
  }

  lemma ChunkThenEnd(cfg: Config, s: State, chunk: Bytes)
    requires s.Valid(cfg) && Fits(cfg, chunk)
    ensures ReadChunks(cfg, s, 0, [chunk]) == Drain(cfg, Extend(s, chunk))
  {
    var d := Drain(cfg, Extend(s, chunk));
    assert [chunk][1..] == [];
    if d.Ok? {
      assert ReadChunks(cfg, d.value, |chunk|, []) == Ok(d.value);
    }
  }
}
