/**
  What draining a whole body computes, in the format's own terms: the blocks that the format cuts,
  each under its name, provided names, sizes and trailer are acceptable.
 */
module MultipartMeaning {
  import opened Bytes
  import opened Wrappers
  import opened Multipart
  import opened MultipartFormat

  /** Add one block to the parts, if its header block is short enough, its name is one of the
      fields and new, and its contents fit. */
  function TakeBlock(cfg: Config, parts: map<string, Part>, block: Block)
    : Option<map<string, Part>>
  {
    if |block.headers| > MAX_HEADER then None
    else
      match cfg.dispositionName(block.headers)
      case None => None
      case Some(name) =>
        if name in cfg.Fields() && name !in parts && |block.data| <= cfg.Cap(name)
        then Some(parts[name := Part(block.headers, block.data)])
        else None
  }

  function Gather(cfg: Config, parts: map<string, Part>, blocks: seq<Block>)
    : Option<map<string, Part>>
    decreases |blocks|
  {
    if blocks == [] then Some(parts)
    else
      match TakeBlock(cfg, parts, blocks[0])
      case None => None
      case Some(parts') => Gather(cfg, parts', blocks[1..])
  }

  predicate GoodTrailer(trailer: Bytes) { trailer in {[], [CR], CRLF} }

  function BodyParts(cfg: Config, parts: map<string, Part>, body: Option<Body>)
    : Option<map<string, Part>>
  {
    match body
    case None => None
    case Some(b) => if GoodTrailer(b.trailer) then Gather(cfg, parts, b.blocks) else None
  }

  /** The parts of a whole body. */
  function Meaning(cfg: Config, text: Bytes): Option<map<string, Part>> {
    BodyParts(cfg, map[], Split(cfg.marker, text))
  }

  function PartsOf(s: Option<State>): Option<map<string, Part>> {
    match s
    case None => None
    case Some(st) => Some(st.parts)
  }

  // ------------------------------------------------------------------------- the data phase

  /** What follows the block that closes at `d`. */
  function Past(cfg: Config, text: Bytes, d: nat, consumed: Result<State, Error>): Option<State>
    requires d + |cfg.marker| + 4 <= |text|
  {
    match consumed
    case Err(_) => None
    case Ok(s1) =>
      Some(State(if ClosesWithDashes(cfg.marker, text, d) then Done else Headers,
                 text[d + |cfg.marker| + 4..], s1.parts, s1.name, s1.digest))
  }

  /** Data up to the first genuine delimiter go to the current part. */
  function AfterData(cfg: Config, s: State): (r: Option<State>)
    requires s.Valid(cfg) && s.phase.Data?
    ensures r.Some? ==> r.value.Valid(cfg)
  {
    var d := FirstClose(cfg.marker, s.buffer);
    if d < 0 then None else Past(cfg, s.buffer, d, Consume(cfg, s, s.buffer[..d]))
  }

  /** Consuming in two goes is consuming at once: same failures, same result. */
  lemma ConsumeTwice(cfg: Config, s: State, first: Bytes, second: Bytes)
    requires s.Valid(cfg) && s.phase.Data?
    ensures Consume(cfg, s, first + second) ==
              match Consume(cfg, s, first)
              case Err(e) => Err(e)
              case Ok(s1) => Consume(cfg, s1, second)
  {
    var target := s.parts[s.name].data;
    assert target + (first + second) == target + first + second;
    assert s.digest + (first + second) == s.digest + first + second;
    var r := Consume(cfg, s, first);
    if r.Ok? {
      var part := s.parts[s.name].(data := target + first + second);
      assert r.value.parts[s.name := part] == s.parts[s.name := part];
    }
  }

  lemma ConsumeKeepsBuffer(cfg: Config, s: State, data: Bytes, buffer: Bytes)
    requires s.Valid(cfg) && s.phase.Data?
    ensures Consume(cfg, s.(buffer := buffer), data) ==
              match Consume(cfg, s, data)
              case Err(e) => Err(e)
              case Ok(s1) => Ok(s1.(buffer := buffer))
  {
  }

  /** A block that closes ahead, its first bytes consumed already. */
  lemma ClosedAhead(cfg: Config, s: State, k: nat, d: nat, t: State)
    requires s.Valid(cfg) && s.phase.Data? && k + d + |cfg.marker| + 4 <= |s.buffer|
    requires t.Valid(cfg) && t.phase.Data? && |t.buffer| == |s.buffer| - k
    requires FirstClose(cfg.marker, t.buffer) == d && FirstClose(cfg.marker, s.buffer) == k + d
    requires Past(cfg, s.buffer, k + d, Consume(cfg, s, s.buffer[..k + d]))
             == Past(cfg, t.buffer, d, Consume(cfg, t, t.buffer[..d]))
    ensures AfterData(cfg, s) == AfterData(cfg, t)
  {
  }

  predicate SameButBuffer(first: Result<State, Error>, second: Result<State, Error>) {
    match first
    case Err(_) => second.Err?
    case Ok(s1) => second.Ok? && second.value == s1.(buffer := second.value.buffer)
  }

  lemma ConsumedAhead(cfg: Config, s: State, k: nat, d: nat, t: State)
    requires s.Valid(cfg) && s.phase.Data? && k + d <= |s.buffer|
    requires Consume(cfg, s, s.buffer[..k]).Ok?
    requires t == Consume(cfg, s, s.buffer[..k]).value.(buffer := s.buffer[k..])
    ensures SameButBuffer(Consume(cfg, s, s.buffer[..k + d]), Consume(cfg, t, t.buffer[..d]))
  {
    SplitAhead(cfg, s, k, d);
    ConsumeKeepsBuffer(cfg, Consume(cfg, s, s.buffer[..k]).value, t.buffer[..d], t.buffer);
  }

  /** Results that differ in the buffer only leave the same behind. */
  lemma PastAhead(cfg: Config, text: Bytes, k: nat, d: nat, rest: Bytes,
                  first: Result<State, Error>, second: Result<State, Error>)
    requires k + d + |cfg.marker| + 4 <= |text| && rest == text[k..]
    requires SameButBuffer(first, second)
    ensures Past(cfg, text, k + d, first) == Past(cfg, rest, d, second)
  {
    assert text[k..][d + |cfg.marker| + 4..] == text[k + d + |cfg.marker| + 4..];
    AtDrop(text, Delimiter(cfg.marker) + DASHES, k, d);
  }

  lemma SplitAhead(cfg: Config, s: State, k: nat, d: nat)
    requires s.Valid(cfg) && s.phase.Data? && k + d <= |s.buffer|
    ensures Consume(cfg, s, s.buffer[..k + d]) ==
              match Consume(cfg, s, s.buffer[..k])
              case Err(e) => Err(e)
              case Ok(s1) => Consume(cfg, s1, s.buffer[k..][..d])
  {
    assert s.buffer[..k + d] == s.buffer[..k] + s.buffer[k..][..d];
    ConsumeTwice(cfg, s, s.buffer[..k], s.buffer[k..][..d]);
  }

  /** Bytes at which nothing closes may be consumed ahead of the rest without changing the outcome. */
  lemma ConsumeAhead(cfg: Config, s: State, k: nat)
    requires s.Valid(cfg) && s.phase.Data? && k <= |s.buffer|
    requires forall p :: 0 <= p < k ==> !ClosesAt(cfg.marker, s.buffer, p)
    ensures AfterData(cfg, s) ==
              match Consume(cfg, s, s.buffer[..k])
              case Err(_) => None
              case Ok(s1) => AfterData(cfg, s1.(buffer := s.buffer[k..]))
  {
    FirstCloseDrop(cfg.marker, s.buffer, k);
    var d := FirstClose(cfg.marker, s.buffer[k..]);
    if d >= 0 {
      match Consume(cfg, s, s.buffer[..k])
      case Ok(s1) =>
        var t := s1.(buffer := s.buffer[k..]);
        ConsumedAhead(cfg, s, k, d, t);
        PastAhead(cfg, s.buffer, k, d, t.buffer, Consume(cfg, s, s.buffer[..k + d]),
                  Consume(cfg, t, t.buffer[..d]));
        ClosedAhead(cfg, s, k, d, t);
      case Err(_) => SplitAhead(cfg, s, k, d);
    }
  }

  /** Nothing closes before the first delimiter, nor inside it when its suffix is wrong. */
  lemma NoCloseBefore(marker: Bytes, text: Bytes, end: int)
    requires GoodMarker(marker) && end == Find(text, Delimiter(marker))
    ensures end < 0 ==> FirstClose(marker, text) == -1
    ensures forall p :: 0 <= p < end ==> !ClosesAt(marker, text, p)
    ensures 0 <= end && !ClosesAt(marker, text, end) ==>
              forall p :: 0 <= p < end + 2 ==> !ClosesAt(marker, text, p)
  {
    forall p | 0 <= p ensures ClosesAt(marker, text, p) ==> 0 <= end <= p && p != end + 1 {
      CloseParts(marker, text, p);
      if p == end + 1 && end >= 0 { NoOverlap(marker, text, end, p); }
    }
  }

  /** The data phase means `AfterData`: false delimiters are contents like any other. */
  lemma {:induction false} DataMeaning(cfg: Config, s: State)
    requires s.Valid(cfg) && s.phase.Data?
    ensures match AfterData(cfg, s)
            case None => Finished(cfg, s).None?
            case Some(s') => Drain(cfg, s) == Drain(cfg, s')
    decreases |s.buffer|
  {
    var end := Find(s.buffer, cfg.Delimiter());
    NoCloseBefore(cfg.marker, s.buffer, end);
    if end < 0 {
    } else if |s.buffer| < end + |cfg.marker| + 4 {
      NoCloseNearEnd(cfg.marker, s.buffer, end);
    } else {
      DataTurnAt(cfg, s, end);
      CloseParts(cfg.marker, s.buffer, end);
      var suffix := SuffixAt(cfg.marker, s.buffer, end);
      if ClosesAt(cfg.marker, s.buffer, end) {
        FirstCloseIs(cfg.marker, s.buffer, end);
        TrueDelimiter(cfg, s, end, suffix);
      } else {
        ConsumeAhead(cfg, s, end + 2);
        var r := Consume(cfg, s, s.buffer[..end + 2]);
        if r.Ok? {
          DataMeaning(cfg, r.value.(buffer := s.buffer[end + 2..]));
        }
      }
    }
  }

  lemma TrueDelimiter(cfg: Config, s: State, end: nat, suffix: Bytes)
    requires s.Valid(cfg) && s.phase.Data? && suffix in {CRLF, DASHES}
    requires ClosesAt(cfg.marker, s.buffer, end) && end + |cfg.marker| + 4 <= |s.buffer|
    requires ClosesWithDashes(cfg.marker, s.buffer, end) <==> suffix == DASHES
    ensures var t := DelimiterTurn(cfg, s, end, suffix);
            if t.Continue? then Past(cfg, s.buffer, end, Consume(cfg, s, s.buffer[..end])) == Some(t.state)
            else t.Raise? && Consume(cfg, s, s.buffer[..end]).Err?
  {
  }

  lemma NoCloseNearEnd(marker: Bytes, text: Bytes, end: int)
    requires end == Find(text, Delimiter(marker)) && |text| < end + |marker| + 4
    ensures FirstClose(marker, text) == -1
  {
    CloseParts(marker, text, FirstClose(marker, text));
  }

  // ------------------------------------------------------------------------- the whole body

  /** A headers turn and the data after it. */
  function AfterBlock(cfg: Config, s: State): (r: Option<State>)
    requires s.Valid(cfg) && s.phase.Headers?
    ensures r.Some? ==> r.value.Valid(cfg)
  {
    var t := Step(cfg, s);
    if t.Continue? then AfterData(cfg, t.state) else None
  }

  lemma FinishedBlock(cfg: Config, s: State)
    requires s.Valid(cfg) && s.phase.Headers?
    ensures match AfterBlock(cfg, s)
            case None => Finished(cfg, s).None?
            case Some(s') => Drain(cfg, s) == Drain(cfg, s')
  {
    var t := Step(cfg, s);
    if t.Continue? {
      DataMeaning(cfg, t.state);
    }
  }

  /** The machine takes the block that the format cuts, and stands after it, or fails. */
  lemma BlockTaken(cfg: Config, s: State)
    requires s.Valid(cfg) && s.phase.Headers?
    ensures var cut := Cut(cfg.marker, s.buffer);
            match AfterBlock(cfg, s)
            case None => cut.Some? ==> TakeBlock(cfg, s.parts, cut.value.block).None?
            case Some(s') =>
              && cut.Some?
              && TakeBlock(cfg, s.parts, cut.value.block) == Some(s'.parts)
              && s'.buffer == cut.value.more
              && s'.phase == (if cut.value.last then Done else Headers)
              && cfg.dispositionName(cut.value.block.headers) == Some(s'.name)
  {
    var t := HeadersTurn(cfg, s);
    var h := Find(s.buffer, BLANK_LINE);
    if t.Continue? {
      var s1 := t.state;
      assert t == Step(cfg, s);
      var d := FirstClose(cfg.marker, s1.buffer);
      if d >= 0 {
        ConsumeBlock(cfg, s.parts, s1, Block(s.buffer[..h], s1.buffer[..d]));
      }
    }
  }

  lemma ConsumeBlock(cfg: Config, parts: map<string, Part>, s1: State, block: Block)
    requires s1.Valid(cfg) && s1.phase.Data?
    requires s1.name !in parts && s1.parts == parts[s1.name := Part(block.headers, [])]
    requires |block.headers| <= MAX_HEADER && cfg.dispositionName(block.headers) == Some(s1.name)
    ensures var r := Consume(cfg, s1, block.data);
            TakeBlock(cfg, parts, block) == if r.Ok? then Some(r.value.parts) else None
  {
    assert [] + block.data == block.data;
    var part := Part(block.headers, block.data);
    assert s1.parts[s1.name := part] == parts[s1.name := part];
  }

  /** The meaning of a text, one block at a time. */
  lemma BodyStep(cfg: Config, parts: map<string, Part>, text: Bytes)
    ensures BodyParts(cfg, parts, SplitBlocks(cfg.marker, text)) ==
              match Cut(cfg.marker, text)
              case None => None
              case Some(Slice(block, last, more)) =>
                match TakeBlock(cfg, parts, block)
                case None => None
                case Some(parts') =>
                  if last then (if GoodTrailer(more) then Some(parts') else None)
                  else BodyParts(cfg, parts', SplitBlocks(cfg.marker, more))
  {
    var cut := Cut(cfg.marker, text);
    if cut.Some? {
      var Slice(block, last, more) := cut.value;
      if last {
        assert [block] == [block] + [];
        GatherStep(cfg, parts, block, []);
      } else {
        var rest := SplitBlocks(cfg.marker, more);
        if rest.Some? { GatherStep(cfg, parts, block, rest.value.blocks); }
      }
    }
  }

  lemma GatherStep(cfg: Config, parts: map<string, Part>, block: Block, rest: seq<Block>)
    ensures Gather(cfg, parts, [block] + rest) ==
              match TakeBlock(cfg, parts, block)
              case None => None
              case Some(parts') => Gather(cfg, parts', rest)
  {
    assert ([block] + rest)[1..] == rest;
  }

  /** From the headers phase, draining gathers the blocks that the format cuts. */
  lemma {:induction false} HeadersMeaning(cfg: Config, s: State)
    requires s.Valid(cfg) && s.phase.Headers?
    ensures PartsOf(Finished(cfg, s)) == BodyParts(cfg, s.parts, SplitBlocks(cfg.marker, s.buffer))
    decreases |s.buffer|
  {
    FinishedBlock(cfg, s);
    BlockTaken(cfg, s);
    BodyStep(cfg, s.parts, s.buffer);
    var next := AfterBlock(cfg, s);
    if next.Some? {
      if next.value.phase.Done? {
        FinishedDone(cfg, next.value);
      } else {
        HeadersMeaning(cfg, next.value);
      }
    }
  }

  lemma FinishedDone(cfg: Config, s: State)
    requires s.Valid(cfg) && s.phase.Done?
    ensures Finished(cfg, s) == if GoodTrailer(s.buffer) then Some(s) else None
  {
  }

  /** A fresh machine with a whole body in its buffer. */
  function Opened(text: Bytes): State { State(Start, text, map[], "", []) }

  lemma OpeningLine(cfg: Config, s: State, rest: State)
    requires s.Valid(cfg) && s.phase.Start?
    requires |s.buffer| >= |cfg.marker| + 2 ==>
               rest == s.(buffer := s.buffer[|cfg.marker| + 2..], phase := Headers)
    ensures Step(cfg, s) ==
              if |s.buffer| < |cfg.marker| + 2 then Break(s)
              else if cfg.marker + CRLF <= s.buffer then Continue(rest)
              else Raise(InvalidStructure)
    ensures cfg.marker + CRLF <= s.buffer ==> |s.buffer| >= |cfg.marker| + 2
  {
    assert |cfg.marker + CRLF| == |cfg.marker| + 2;
  }

  /** The machine past the opening line. */
  function PastOpening(cfg: Config, text: Bytes): State
    requires |cfg.marker| + 2 <= |text|
  {
    State(Headers, text[|cfg.marker| + 2..], map[], "", [])
  }

  lemma DrainOpened(cfg: Config, text: Bytes)
    requires cfg.Valid() && cfg.marker + CRLF <= text && |cfg.marker| + 2 <= |text|
    ensures Finished(cfg, Opened(text)) == Finished(cfg, PastOpening(cfg, text))
  {
    OpeningLine(cfg, Opened(text), PastOpening(cfg, text));
  }

  lemma SplitOpened(cfg: Config, text: Bytes)
    requires cfg.marker + CRLF <= text && |cfg.marker| + 2 <= |text|
    ensures Split(cfg.marker, text) == SplitBlocks(cfg.marker, PastOpening(cfg, text).buffer)
  {
  }

  /** The machine refines the format: draining a whole body gathers exactly its meaning. */
  lemma DrainMeaning(cfg: Config, text: Bytes)
    requires cfg.Valid()
    ensures PartsOf(Finished(cfg, Opened(text))) == Meaning(cfg, text)
  {
    assert |cfg.marker + CRLF| == |cfg.marker| + 2;
    if cfg.marker + CRLF <= text {
      DrainOpened(cfg, text);
      SplitOpened(cfg, text);
      HeadersMeaning(cfg, PastOpening(cfg, text));
    } else {
      NoOpeningLine(cfg, text);
    }
  }

  lemma NoOpeningLine(cfg: Config, text: Bytes)
    requires cfg.Valid() && !(cfg.marker + CRLF <= text)
    ensures Finished(cfg, Opened(text)).None?
  {
    var s := Opened(text);
    var rest := if |text| >= |cfg.marker| + 2
                then s.(buffer := text[|cfg.marker| + 2..], phase := Headers) else s;
    OpeningLine(cfg, s, rest);
  }
}
