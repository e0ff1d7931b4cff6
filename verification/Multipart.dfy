/**
  The streaming reader of multipart/form-data bodies as a state machine on values: the buffer,
  the phase, the parts gathered so far, the current part's name and the bytes fed to the digest.
  Header parsing and text decoding are parameters of the machine.
 */
module Multipart {
  import opened Bytes
  import opened Wrappers
  import Format = MultipartFormat

  const MAX_OVERHEAD: nat := 64 * 1024
  const MAX_HEADER: nat := 16384
  const MAX_MARKER: nat := 202

  datatype Error =
    | UnsupportedMediaType
    | InvalidBoundary
    | TooLarge
    | InvalidStructure
    | HeadersTooLarge
    | UnexpectedPart
    | TextTooLong
    | TrailingData
    | Incomplete
    | NotUtf8
    | NoFileName

  datatype Phase = Start | Headers | Data | Done

  datatype Part = Part(headers: Bytes, data: Bytes)

  /** What the caller asks for, and the library functions the reader applies to header blocks. */
  datatype Config = Config(
    fileField: string,
    textFields: map<string, nat>,
    required: set<string>,
    maxFileBytes: nat,
    marker: Bytes,
    dispositionName: Bytes -> Option<string>,  // the name of a form-data block, None for others
    fileName: Bytes -> string,
    contentType: Bytes -> string,
    decodeUtf8: Bytes -> Option<string>)
  {
    function Delimiter(): Bytes { Format.Delimiter(marker) }

    function Fields(): set<string> { {fileField} + textFields.Keys }

    function Cap(name: string): nat
      requires name in Fields()
    {
      if name == fileField then maxFileBytes else textFields[name]
    }

    /** What the reader has checked about the boundary before it reads a byte. */
    predicate Valid() {
      3 <= |marker| <= MAX_MARKER && Format.GoodMarker(marker)
    }
  }

  datatype State = State(
    phase: Phase, buffer: Bytes, parts: map<string, Part>, name: string, digest: Bytes)
  {
    predicate Valid(cfg: Config) {
      && cfg.Valid()
      && parts.Keys <= cfg.Fields()
      && (phase.Data? ==> name in parts)
      && (forall f :: f in parts ==> |parts[f].data| <= cfg.Cap(f))
      && digest == (if cfg.fileField in parts then parts[cfg.fileField].data else [])
    }
  }

  const INITIAL: State := State(Start, [], map[], "", [])

  /** One pass through the inner loop: leave it, go round again, or fail. */
  datatype Turn = Break(state: State) | Continue(state: State) | Raise(error: Error)

  /** Append `data` to the current part, within its cap, and feed the file's bytes to the digest. */
  function Consume(cfg: Config, s: State, data: Bytes): (r: Result<State, Error>)
    requires s.Valid(cfg) && s.phase.Data?
    ensures r.Ok? ==> r.value.Valid(cfg) && r.value.phase.Data? && r.value.buffer == s.buffer
  {
    var target := s.parts[s.name].data;
    if |target| + |data| > cfg.Cap(s.name) then
      Err(if s.name == cfg.fileField then TooLarge else TextTooLong)
    else
      Ok(s.(parts := s.parts[s.name := s.parts[s.name].(data := target + data)],
            digest := if s.name == cfg.fileField then s.digest + data else s.digest))
  }

  /** A part takes exactly what fits: the bytes go to its end, its headers and every other part stay,
      and the digest moves only with the file part. What does not fit fails by the kind of part. */
  lemma ConsumeAppends(cfg: Config, s: State, data: Bytes)
    requires s.Valid(cfg) && s.phase.Data?
    ensures var r := Consume(cfg, s, data);
            && (s.name == cfg.fileField ==>
                  && (r.Ok? <==> |s.parts[s.name].data| + |data| <= cfg.maxFileBytes)
                  && (r.Err? ==> r.error == TooLarge)
                  && (r.Ok? ==> r.value.digest == s.digest + data))
            && (s.name != cfg.fileField ==>
                  && s.name in cfg.textFields
                  && (r.Ok? <==> |s.parts[s.name].data| + |data| <= cfg.textFields[s.name])
                  && (r.Err? ==> r.error == TextTooLong)
                  && (r.Ok? ==> r.value.digest == s.digest))
            && (r.Ok? ==>
                  && r.value.parts.Keys == s.parts.Keys
                  && r.value.parts[s.name].data == s.parts[s.name].data + data
                  && r.value.parts[s.name].headers == s.parts[s.name].headers
                  && (forall f :: f in s.parts && f != s.name ==> r.value.parts[f] == s.parts[f]))
  {
  }

  function StartTurn(cfg: Config, s: State): Turn {
    if |s.buffer| < |cfg.marker| + 2 then Break(s)
    else if !(cfg.marker + CRLF <= s.buffer) then Raise(InvalidStructure)
    else Continue(s.(buffer := s.buffer[|cfg.marker| + 2..], phase := Headers))
  }

  function HeadersTurn(cfg: Config, s: State): Turn {
    var end := Find(s.buffer, BLANK_LINE);
    if end < 0 then
      if |s.buffer| > MAX_HEADER then Raise(HeadersTooLarge) else Break(s)
    else if end > MAX_HEADER then Raise(HeadersTooLarge)
    else
      match cfg.dispositionName(s.buffer[..end])
      case None => Raise(UnexpectedPart)
      case Some(name) =>
        if name !in cfg.Fields() || name in s.parts then Raise(UnexpectedPart)
        else Continue(State(Data, s.buffer[end + 4..], s.parts[name := Part(s.buffer[..end], [])],
                            name, s.digest))
  }

  function DataTurn(cfg: Config, s: State): Turn
    requires s.Valid(cfg) && s.phase.Data?
  {
    var delimiter := cfg.Delimiter();
    var end := Find(s.buffer, delimiter);
    if end < 0 then
      var safe := if |s.buffer| < |delimiter| + 2 then 0 else |s.buffer| - |delimiter| - 2;
      match Consume(cfg, s, s.buffer[..safe])
      case Err(e) => Raise(e)
      case Ok(s') => Break(s'.(buffer := s.buffer[safe..]))
    else if |s.buffer| < end + |delimiter| + 2 then Break(s)
    else DelimiterTurn(cfg, s, end, Format.SuffixAt(cfg.marker, s.buffer, end))
  }

  /** A delimiter at `end` with its two following bytes: a genuine one ends the part's contents, any
      other is kept as contents and the search resumes after its line end. */
  function DelimiterTurn(cfg: Config, s: State, end: nat, suffix: Bytes): Turn
    requires s.Valid(cfg) && s.phase.Data? && end + |cfg.marker| + 4 <= |s.buffer|
  {
    if suffix != DASHES && suffix != CRLF then
      match Consume(cfg, s, s.buffer[..end + 2])
      case Err(e) => Raise(e)
      case Ok(s') => Continue(s'.(buffer := s.buffer[end + 2..]))
    else
      match Consume(cfg, s, s.buffer[..end])
      case Err(e) => Raise(e)
      case Ok(s') => Continue(s'.(buffer := s.buffer[end + |cfg.marker| + 4..],
                                  phase := if suffix == DASHES then Done else Headers))
  }

  /** With a delimiter and two more bytes in the buffer, the data turn is the delimiter's turn. */
  lemma DataTurnAt(cfg: Config, s: State, end: int)
    requires s.Valid(cfg) && s.phase.Data?
    requires end == Find(s.buffer, cfg.Delimiter()) && 0 <= end
    requires end + |cfg.marker| + 4 <= |s.buffer|
    ensures DataTurn(cfg, s) == DelimiterTurn(cfg, s, end, Format.SuffixAt(cfg.marker, s.buffer, end))
  {
  }

  function DoneTurn(s: State): Turn {
    if s.buffer in {[], [CR], CRLF} then Break(s) else Raise(TrailingData)
  }

  function Step(cfg: Config, s: State): (t: Turn)
    requires s.Valid(cfg)
    ensures !t.Raise? ==> t.state.Valid(cfg)
    ensures t.Continue? ==> |t.state.buffer| < |s.buffer|
  {
    match s.phase
    case Start => StartTurn(cfg, s)
    case Headers => HeadersTurn(cfg, s)
    case Data => DataTurn(cfg, s)
    case Done => DoneTurn(s)
  }

  /** The inner loop: turns until a break or a failure. It stops because every turn that goes round
      again has shortened the buffer. */
  function Drain(cfg: Config, s: State): (r: Result<State, Error>)
    requires s.Valid(cfg)
    ensures r.Ok? ==> r.value.Valid(cfg)
    decreases |s.buffer|
  {
    match Step(cfg, s)
    case Break(s') => Ok(s')
    case Continue(s') => Drain(cfg, s')
    case Raise(e) => Err(e)
  }

  function Extend(s: State, more: Bytes): State {
    s.(buffer := s.buffer + more)
  }

  datatype Upload = Upload(
    fileName: string, contentType: string, data: Bytes, digested: Bytes, text: map<string, string>)

  /** What happens once the stream has ended. */
  function Conclude(cfg: Config, s: State): Result<Upload, Error> {
    if !s.phase.Done? || !({cfg.fileField} + cfg.required <= s.parts.Keys) then Err(Incomplete)
    else
      var sent := set f | f in cfg.textFields && f in s.parts;
      if exists f :: f in sent && cfg.decodeUtf8(s.parts[f].data).None? then Err(NotUtf8)
      else
        var headers := s.parts[cfg.fileField].headers;
        if cfg.fileName(headers) == "" then Err(NoFileName)
        else Ok(Upload(cfg.fileName(headers), cfg.contentType(headers),
                       s.parts[cfg.fileField].data, s.digest,
                       map f | f in sent :: cfg.decodeUtf8(s.parts[f].data).value))
  }

  /** The parts that make an upload: all that is required, texts that decode, a file with a name. */
  predicate Complete(cfg: Config, parts: map<string, Part>) {
    && {cfg.fileField} + cfg.required <= parts.Keys
    && (forall f :: f in cfg.textFields && f in parts ==> cfg.decodeUtf8(parts[f].data).Some?)
    && (cfg.fileField in parts ==> cfg.fileName(parts[cfg.fileField].headers) != "")
  }

  lemma ConcludeExact(cfg: Config, s: State)
    ensures Conclude(cfg, s).Ok? <==> s.phase.Done? && Complete(cfg, s.parts)
  {
    if s.phase.Done? && {cfg.fileField} + cfg.required <= s.parts.Keys {
      assert cfg.fileField in s.parts.Keys;
      var sent := set f | f in cfg.textFields && f in s.parts;
      assert forall f :: f in sent <==> f in cfg.textFields && f in s.parts;
    }
  }

  /** The stream: each chunk is counted, appended to the buffer and drained. */
  function ReadChunks(cfg: Config, s: State, total: nat, chunks: seq<Bytes>)
    : (r: Result<State, Error>)
    requires s.Valid(cfg)
    ensures r.Ok? ==> r.value.Valid(cfg)
    decreases |chunks|
  {
    if chunks == [] then Ok(s)
    else if total + |chunks[0]| > cfg.maxFileBytes + MAX_OVERHEAD then Err(TooLarge)
    else
      match Drain(cfg, Extend(s, chunks[0]))
      case Err(e) => Err(e)
      case Ok(s') => ReadChunks(cfg, s', total + |chunks[0]|, chunks[1..])
  }

  /** The whole read. */
  function Read(cfg: Config, chunks: seq<Bytes>): Result<Upload, Error>
    requires cfg.Valid()
  {
    match ReadChunks(cfg, INITIAL, 0, chunks)
    case Err(e) => Err(e)
    case Ok(s) => Conclude(cfg, s)
  }

  function IfDone(r: Result<State, Error>): Option<State> {
    match r
    case Err(_) => None
    case Ok(s) => if s.phase.Done? then Some(s) else None
  }

  /** The state in which a drained buffer has reached the closing delimiter, if it has. */
  function Finished(cfg: Config, s: State): (r: Option<State>)
    requires s.Valid(cfg)
    ensures r.Some? ==> r.value.Valid(cfg) && r.value.phase.Done?
  {
    IfDone(Drain(cfg, s))
  }
}
