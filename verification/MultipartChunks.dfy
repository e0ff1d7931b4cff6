/**
  Chunk boundaries: how a body is cut into chunks matters to the reader in one case only, a header
  block so close to the limit that its partial blank line already exceeds it.
 */
module MultipartChunks {
  import opened Bytes
  import opened Wrappers
  import opened Multipart
  import opened MultipartFormat
  import opened MultipartMeaning

  // ------------------------------------------------------------------------- turns and extensions

  lemma ExtendSlices(b: Bytes, more: Bytes, k: nat)
    requires k <= |b|
    ensures (b + more)[..k] == b[..k] && (b + more)[k..] == b[k..] + more
  {
  }

  lemma SuffixExtend(marker: Bytes, b: Bytes, more: Bytes, end: nat)
    requires end + |marker| + 4 <= |b|
    ensures SuffixAt(marker, b + more, end) == SuffixAt(marker, b, end)
  {
  }

  lemma DelimiterTurnExtend(cfg: Config, s: State, end: nat, suffix: Bytes, more: Bytes)
    requires s.Valid(cfg) && s.phase.Data? && end + |cfg.marker| + 4 <= |s.buffer|
    ensures DelimiterTurn(cfg, Extend(s, more), end, suffix) ==
              match DelimiterTurn(cfg, s, end, suffix)
              case Continue(s') => Continue(Extend(s', more))
              case Raise(e) => Raise(e)
              case Break(s') => Break(s')
  {
    if suffix != DASHES && suffix != CRLF {
      ExtendSlices(s.buffer, more, end + 2);
      ConsumeKeepsBuffer(cfg, s, s.buffer[..end + 2], s.buffer + more);
    } else {
      ExtendSlices(s.buffer, more, end);
      ExtendSlices(s.buffer, more, end + |cfg.marker| + 4);
      ConsumeKeepsBuffer(cfg, s, s.buffer[..end], s.buffer + more);
    }
  }

  /** A turn that goes round again does not look at what has not arrived yet. */
  lemma StepExtend(cfg: Config, s: State, more: Bytes)
    requires s.Valid(cfg) && Step(cfg, s).Continue?
    ensures Step(cfg, Extend(s, more)) == Continue(Extend(Step(cfg, s).state, more))
  {
    match s.phase
    case Start => StartExtend(cfg, s, more);
    case Headers =>
      FindExtend(s.buffer, more, BLANK_LINE);
      var end := Find(s.buffer, BLANK_LINE);
      ExtendSlices(s.buffer, more, end);
      ExtendSlices(s.buffer, more, end + 4);
    case Data =>
      FindExtend(s.buffer, more, cfg.Delimiter());
      var end := Find(s.buffer, cfg.Delimiter());
      SuffixExtend(cfg.marker, s.buffer, more, end);
      DelimiterTurnExtend(cfg, s, end, SuffixAt(cfg.marker, s.buffer, end), more);
    case Done =>
  }

  lemma StartExtend(cfg: Config, s: State, more: Bytes)
    requires |s.buffer| >= |cfg.marker| + 2
    ensures StartTurn(cfg, Extend(s, more)) ==
              match StartTurn(cfg, s)
              case Continue(s') => Continue(Extend(s', more))
              case Raise(e) => Raise(e)
              case Break(s') => Break(s')
  {
    ExtendSlices(s.buffer, more, |cfg.marker| + 2);
    assert |cfg.marker + CRLF| == |cfg.marker| + 2;
    assert cfg.marker + CRLF <= s.buffer <==> s.buffer[..|cfg.marker| + 2] == cfg.marker + CRLF;
    assert cfg.marker + CRLF <= s.buffer + more
           <==> (s.buffer + more)[..|cfg.marker| + 2] == cfg.marker + CRLF;
  }

  // ------------------------------------------------------------------------- the data phase

  /** How many bytes of the buffer a data turn hands over before it can know what follows. */
  function Handed(cfg: Config, buffer: Bytes): nat {
    var end := Find(buffer, cfg.Delimiter());
    if end < 0 then
      if |buffer| < |cfg.Delimiter()| + 2 then 0 else |buffer| - |cfg.Delimiter()| - 2
    else if |buffer| < end + |cfg.marker| + 4 then 0
    else if SuffixAt(cfg.marker, buffer, end) in {CRLF, DASHES} then end
    else end + 2
  }

  /** Nothing closes among the bytes handed over, whatever arrives later. */
  lemma HandedSafely(cfg: Config, buffer: Bytes, more: Bytes)
    requires cfg.Valid()
    ensures Handed(cfg, buffer) <= |buffer|
    ensures forall p :: 0 <= p < Handed(cfg, buffer) ==> !ClosesAt(cfg.marker, buffer + more, p)
  {
    var w := cfg.Delimiter();
    var end, end' := Find(buffer, w), Find(buffer + more, w);
    FindExtend(buffer, more, w);
    NoCloseBefore(cfg.marker, buffer + more, end');
    if 0 <= end && end + |cfg.marker| + 4 <= |buffer| {
      SuffixExtend(cfg.marker, buffer, more, end);
      CloseParts(cfg.marker, buffer + more, end);
    }
  }

  lemma DataTurnHands(cfg: Config, s: State)
    requires s.Valid(cfg) && s.phase.Data? && Handed(cfg, s.buffer) <= |s.buffer|
    ensures var k := Handed(cfg, s.buffer);
            var r := Consume(cfg, s, s.buffer[..k]);
            match DataTurn(cfg, s)
            case Raise(_) => r.Err?
            case Break(s') => s' == s || (r.Ok? && s' == r.value.(buffer := s.buffer[k..]))
            case Continue(_) => true
  {
  }

  // ------------------------------------------------------------------------- absorbing a chunk

  const SAFE_HEADER: nat := 16381  // three bytes below the limit

  /** Some part was sent with a header block just below the limit. */
  ghost predicate LongHeader(parts: map<string, Part>) {
    exists f :: f in parts && |parts[f].headers| > SAFE_HEADER
  }

  /** A break leaves the outcome of every continuation unchanged. */
  lemma BreakAbsorbs(cfg: Config, s: State, more: Bytes)
    requires s.Valid(cfg) && Step(cfg, s).Break?
    ensures Finished(cfg, Extend(Step(cfg, s).state, more)) == Finished(cfg, Extend(s, more))
  {
    var s' := Step(cfg, s).state;
    if s.phase.Data? && s' != s {
      HandedSafely(cfg, s.buffer, more);
      DataTurnHands(cfg, s);
      var k := Handed(cfg, s.buffer);
      ExtendSlices(s.buffer, more, k);
      ConsumeAhead(cfg, Extend(s, more), k);
      ConsumeKeepsBuffer(cfg, s, s.buffer[..k], s.buffer + more);
      DataMeaning(cfg, Extend(s, more));
      DataMeaning(cfg, Extend(s', more));
    }
  }

  /** Parts already begun keep their header blocks. */
  lemma {:induction false} HeadersKept(cfg: Config, s: State)
    requires s.Valid(cfg)
    ensures Drain(cfg, s).Ok? ==>
              forall f :: f in s.parts ==>
                f in Drain(cfg, s).value.parts &&
                Drain(cfg, s).value.parts[f].headers == s.parts[f].headers
    decreases |s.buffer|
  {
    StepKeepsHeaders(cfg, s);
    if Step(cfg, s).Continue? {
      HeadersKept(cfg, Step(cfg, s).state);
    }
  }

  lemma StepKeepsHeaders(cfg: Config, s: State)
    requires s.Valid(cfg)
    ensures !Step(cfg, s).Raise? ==>
              forall f :: f in s.parts ==>
                f in Step(cfg, s).state.parts &&
                Step(cfg, s).state.parts[f].headers == s.parts[f].headers
  {
    if s.phase.Data? { DataKeepsHeaders(cfg, s); }
  }

  lemma DataKeepsHeaders(cfg: Config, s: State)
    requires s.Valid(cfg) && s.phase.Data?
    ensures !DataTurn(cfg, s).Raise? ==>
              forall f :: f in s.parts ==>
                f in DataTurn(cfg, s).state.parts &&
                DataTurn(cfg, s).state.parts[f].headers == s.parts[f].headers
  {
  }

  /** A failure cannot be undone by what arrives later, except that a header block may turn out to
      be within the limit after all, by at most two bytes. */
  lemma RaiseAbsorbs(cfg: Config, s: State, more: Bytes)
    requires s.Valid(cfg) && Step(cfg, s).Raise?
    ensures match Finished(cfg, Extend(s, more))
            case None => true
            case Some(f) => LongHeader(f.parts)
  {
    match s.phase
    case Start => StartExtend(cfg, s, more);
    case Headers => HeadersRaise(cfg, s, more);
    case Data =>
      HandedSafely(cfg, s.buffer, more);
      DataTurnHands(cfg, s);
      var k := Handed(cfg, s.buffer);
      ExtendSlices(s.buffer, more, k);
      ConsumeAhead(cfg, Extend(s, more), k);
      ConsumeKeepsBuffer(cfg, s, s.buffer[..k], s.buffer + more);
      DataMeaning(cfg, Extend(s, more));
    case Done =>
      TrailerPrefix(s.buffer, more);
      FinishedDone(cfg, Extend(s, more));
  }

  lemma TrailerPrefix(b: Bytes, more: Bytes)
    ensures GoodTrailer(b + more) ==> GoodTrailer(b)
  {
    var text := b + more;
    assert b == text[..|b|];
    if GoodTrailer(text) {
      assert CRLF[..1] == [CR] && [CR][..0] == [] && CRLF[..0] == [];
      assert |b| == |text| ==> b == text;
    }
  }

  lemma HeadersRaise(cfg: Config, s: State, more: Bytes)
    requires s.Valid(cfg) && s.phase.Headers? && HeadersTurn(cfg, s).Raise?
    ensures match Finished(cfg, Extend(s, more))
            case None => true
            case Some(f) => LongHeader(f.parts)
  {
    FindExtend(s.buffer, more, BLANK_LINE);
    var end := Find(s.buffer, BLANK_LINE);
    var t := HeadersTurn(cfg, Extend(s, more));
    assert t == Step(cfg, Extend(s, more));
    if end >= 0 {
      ExtendSlices(s.buffer, more, end);
    } else if t.Continue? {
      HeadersKept(cfg, t.state);
      assert |t.state.parts[t.state.name].headers| > SAFE_HEADER;
      if Finished(cfg, t.state).Some? {
        assert t.state.name in Finished(cfg, t.state).value.parts;
      }
    }
  }

  /** Draining early and then going on is draining at once. */
  lemma {:induction false} DrainAbsorbs(cfg: Config, s: State, more: Bytes)
    requires s.Valid(cfg)
    ensures match Drain(cfg, s)
            case Ok(s') => Finished(cfg, Extend(s', more)) == Finished(cfg, Extend(s, more))
            case Err(_) => match Finished(cfg, Extend(s, more))
                           case None => true
                           case Some(f) => LongHeader(f.parts)
    decreases |s.buffer|
  {
    match Step(cfg, s)
    case Break(_) => BreakAbsorbs(cfg, s, more);
    case Raise(_) => RaiseAbsorbs(cfg, s, more);
    case Continue(s1) =>
      StepExtend(cfg, s, more);
      DrainAbsorbs(cfg, s1, more);
  }

  // ------------------------------------------------------------------------- whole reads

  /** After a drain there is nothing left to do. */
  lemma {:induction false} DrainSettles(cfg: Config, s: State)
    requires s.Valid(cfg)
    ensures Drain(cfg, s).Ok? ==> Step(cfg, Drain(cfg, s).value) == Break(Drain(cfg, s).value)
    decreases |s.buffer|
  {
    match Step(cfg, s)
    case Raise(_) =>
    case Break(s') => BreakSettles(cfg, s);
    case Continue(s1) => DrainSettles(cfg, s1);
  }

  lemma BreakSettles(cfg: Config, s: State)
    requires s.Valid(cfg) && Step(cfg, s).Break?
    ensures Step(cfg, Step(cfg, s).state) == Break(Step(cfg, s).state)
  {
    var s' := Step(cfg, s).state;
    var w := cfg.Delimiter();
    if s.phase.Data? && Find(s.buffer, w) < 0 {
      if |s.buffer| <= |w| + 2 {
        NothingToHand(cfg, s);
      } else {
        var k := |s.buffer| - |w| - 2;
        assert s'.buffer == s.buffer[k..];
        var p := Find(s'.buffer, w);
        if p >= 0 { AtDrop(s.buffer, w, k, p); }
        NothingToHand(cfg, s');
      }
    }
  }

  lemma NothingToHand(cfg: Config, s: State)
    requires s.Valid(cfg) && s.phase.Data?
    requires |s.buffer| <= |cfg.Delimiter()| + 2 && Find(s.buffer, cfg.Delimiter()) < 0
    ensures DataTurn(cfg, s) == Break(s)
  {
    var part := s.parts[s.name];
    assert part.data + [] == part.data && s.digest + [] == s.digest;
    assert s.parts[s.name := part] == s.parts;
    assert s.buffer[..0] == [] && s.buffer[0..] == s.buffer;
  }

  /** What a read in chunks says about the whole body: it finishes only where draining the body at
      once finishes; it stops early only if the body is too long, or does not finish at once either,
      or has a header block just below the limit. */
  ghost predicate Agrees(whole: Option<State>, r: Option<State>, fits: bool) {
    && (r.Some? ==> r == whole && fits)
    && (r.None? && fits ==> whole.None? || LongHeader(whole.value.parts))
  }

  ghost predicate ReadAgrees(cfg: Config, s: State, total: nat, chunks: seq<Bytes>)
    requires s.Valid(cfg)
  {
    Agrees(Finished(cfg, Extend(s, Flatten(chunks))),
           IfDone(ReadChunks(cfg, s, total, chunks)),
           total + |Flatten(chunks)| <= cfg.maxFileBytes + MAX_OVERHEAD)
  }

  lemma ExtendFlatten(s: State, chunks: seq<Bytes>)
    requires chunks != []
    ensures Extend(Extend(s, chunks[0]), Flatten(chunks[1..])) == Extend(s, Flatten(chunks))
  {
    assert s.buffer + chunks[0] + Flatten(chunks[1..])
        == s.buffer + (chunks[0] + Flatten(chunks[1..]));
  }

  /** A first chunk that fails fails the read. */
  lemma ReadFails(cfg: Config, s: State, total: nat, chunks: seq<Bytes>)
    requires s.Valid(cfg) && chunks != []
    requires total + |chunks[0]| > cfg.maxFileBytes + MAX_OVERHEAD
             || Drain(cfg, Extend(s, chunks[0])).Err?
    ensures ReadAgrees(cfg, s, total, chunks)
  {
    ExtendFlatten(s, chunks);
    DrainAbsorbs(cfg, Extend(s, chunks[0]), Flatten(chunks[1..]));
  }

  /** Once the first chunk is drained, what remains to be read decides. */
  lemma ReadGoesOn(cfg: Config, s: State, total: nat, chunks: seq<Bytes>, s': State)
    requires s.Valid(cfg) && s'.Valid(cfg) && chunks != []
    requires total + |chunks[0]| <= cfg.maxFileBytes + MAX_OVERHEAD
    requires Drain(cfg, Extend(s, chunks[0])) == Ok(s')
    ensures ReadAgrees(cfg, s', total + |chunks[0]|, chunks[1..]) ==>
              ReadAgrees(cfg, s, total, chunks)
  {
    ExtendFlatten(s, chunks);
    DrainAbsorbs(cfg, Extend(s, chunks[0]), Flatten(chunks[1..]));
    var count, rest := total + |chunks[0]|, chunks[1..];
    var whole := Finished(cfg, Extend(s', Flatten(rest)));
    var r := IfDone(ReadChunks(cfg, s', count, rest));
    assert whole == Finished(cfg, Extend(s, Flatten(chunks)));
    assert r == IfDone(ReadChunks(cfg, s, total, chunks));
    assert total + |Flatten(chunks)| == count + |Flatten(rest)|;
  }

  /** The general step of chunk independence, from any state between two chunks. */
  lemma {:induction false} ReadAbsorbs(cfg: Config, s: State, total: nat, chunks: seq<Bytes>)
    requires s.Valid(cfg) && Step(cfg, s) == Break(s)
    requires total <= cfg.maxFileBytes + MAX_OVERHEAD
    ensures ReadAgrees(cfg, s, total, chunks)
    decreases |chunks|
  {
    if chunks == [] {
      assert Extend(s, []) == s by { assert s.buffer + [] == s.buffer; }
    } else {
      var d := Drain(cfg, Extend(s, chunks[0]));
      if total + |chunks[0]| <= cfg.maxFileBytes + MAX_OVERHEAD && d.Ok? {
        DrainSettles(cfg, Extend(s, chunks[0]));
        ReadAbsorbs(cfg, d.value, total + |chunks[0]|, chunks[1..]);
        ReadGoesOn(cfg, s, total, chunks, d.value);
      } else {
        ReadFails(cfg, s, total, chunks);
      }
    }
  }
}
