/** The reader as the program runs it: an object whose fields change as chunks arrive. */
module MultipartReader {
  import opened Bytes
  import opened Wrappers
  import opened Multipart
  import Format = MultipartFormat

  class Reader {
    const cfg: Config
    var buffer: Bytes
    var phase: Phase
    var parts: map<string, Part>
    var name: string
    var total: nat
    var digest: Bytes

    function Value(): State
      reads this
    {
      State(phase, buffer, parts, name, digest)
    }

    constructor (cfg: Config)
      ensures this.cfg == cfg && Value() == INITIAL && total == 0
    {
      this.cfg := cfg;
      buffer, phase, parts, name, total, digest := [], Start, map[], "", 0, [];
    }

    /** Append to the current part within its cap; the file's bytes also go to the digest. */
    method Consume(data: Bytes) returns (failure: Option<Error>)
      requires Value().Valid(cfg) && phase.Data?
      modifies `parts, `digest
      ensures match Multipart.Consume(cfg, old(Value()), data)
              case Err(e) => failure == Some(e) && Value() == old(Value())
              case Ok(s) => failure == None && Value() == s
    {
      var target := parts[name].data;
      var cap := if name == cfg.fileField then cfg.maxFileBytes else cfg.textFields[name];
      if |target| + |data| > cap {
        return Some(if name == cfg.fileField then TooLarge else TextTooLong);
      }
      parts := parts[name := parts[name].(data := target + data)];
      if name == cfg.fileField { digest := digest + data; }
      return None;
    }

    method StartPhase() returns (again: bool, failure: Option<Error>)
      requires phase.Start?
      modifies `buffer, `phase
      ensures Did(StartTurn(cfg, old(Value())), again, failure)
    {
      if |buffer| < |cfg.marker| + 2 { return false, None; }
      if !(cfg.marker + CRLF <= buffer) { return false, Some(InvalidStructure); }
      buffer := buffer[|cfg.marker| + 2..];
      phase := Headers;
      return true, None;
    }

    method HeadersPhase() returns (again: bool, failure: Option<Error>)
      requires phase.Headers?
      modifies `buffer, `phase, `parts, `name
      ensures Did(HeadersTurn(cfg, old(Value())), again, failure)
    {
      var end := Find(buffer, BLANK_LINE);
      if end < 0 {
        if |buffer| > MAX_HEADER { return false, Some(HeadersTooLarge); }
        return false, None;
      }
      if end > MAX_HEADER { return false, Some(HeadersTooLarge); }
      var found := cfg.dispositionName(buffer[..end]);
      if found.None? || found.value !in cfg.Fields() || found.value in parts {
        return false, Some(UnexpectedPart);
      }
      name := found.value;
      parts := parts[name := Part(buffer[..end], [])];
      buffer := buffer[end + 4..];
      phase := Data;
      return true, None;
    }

    method DataPhase() returns (again: bool, failure: Option<Error>)
      requires Value().Valid(cfg) && phase.Data?
      modifies `buffer, `phase, `parts, `digest
      ensures Did(DataTurn(cfg, old(Value())), again, failure)
    {
      var delimiter := cfg.Delimiter();
      var end := Find(buffer, delimiter);
      if end < 0 {
        failure := HoldBack(delimiter);
        return false, failure;
      }
      if |buffer| < end + |delimiter| + 2 { return false, None; }
      var suffix := buffer[end + |delimiter|..end + |delimiter| + 2];
      assert suffix == Format.SuffixAt(cfg.marker, buffer, end);
      DataTurnAt(cfg, Value(), end);
      again, failure := AtDelimiter(end, suffix);
    }

    /** No delimiter yet: take all but what a delimiter may still begin with. */
    method HoldBack(delimiter: Bytes) returns (failure: Option<Error>)
      requires Value().Valid(cfg) && phase.Data? && delimiter == cfg.Delimiter()
      requires Find(buffer, delimiter) < 0
      modifies `buffer, `parts, `digest
      ensures Did(DataTurn(cfg, old(Value())), false, failure)
    {
      var safe := if |buffer| < |delimiter| + 2 then 0 else |buffer| - |delimiter| - 2;
      failure := Consume(buffer[..safe]);
      if failure.None? { buffer := buffer[safe..]; }
    }

    method AtDelimiter(end: nat, suffix: Bytes) returns (again: bool, failure: Option<Error>)
      requires Value().Valid(cfg) && phase.Data? && end + |cfg.marker| + 4 <= |buffer|
      modifies `buffer, `phase, `parts, `digest
      ensures Did(DelimiterTurn(cfg, old(Value()), end, suffix), again, failure)
    {
      var falseDelimiter := suffix != DASHES && suffix != CRLF;
      var kept := if falseDelimiter then end + 2 else end;
      failure := Consume(buffer[..kept]);
      if failure.Some? { return false, failure; }
      if falseDelimiter {
        buffer := buffer[end + 2..];
      } else {
        buffer := buffer[end + |cfg.Delimiter()| + 2..];
        phase := if suffix == DASHES then Done else Headers;
      }
      return true, None;
    }

    /** The reader did what the machine's turn says. */
    ghost predicate Did(t: Turn, again: bool, failure: Option<Error>)
      reads this
    {
      match t
      case Raise(e) => failure == Some(e)
      case Break(s) => failure == None && !again && Value() == s
      case Continue(s) => failure == None && again && Value() == s
    }

    /** Take one chunk: count it, append it and go round until nothing more can be decided. */
    method Feed(chunk: Bytes) returns (failure: Option<Error>)
      requires Value().Valid(cfg)
      modifies this
      ensures total == old(total) + |chunk|
      ensures var limit := cfg.maxFileBytes + 65536;
              failure == if total > limit then Some(TooLarge)
                         else match Drain(cfg, Extend(old(Value()), chunk))
                              case Err(e) => Some(e)
                              case Ok(_) => None
      ensures failure.None? ==>
                Value().Valid(cfg) && Drain(cfg, Extend(old(Value()), chunk)) == Ok(Value())
    {
      total := total + |chunk|;
      if total > cfg.maxFileBytes + MAX_OVERHEAD { return Some(TooLarge); }
      buffer := buffer + chunk;
      var again := true;
      ghost var whole := Drain(cfg, Value());
      while again
        invariant Value().Valid(cfg) && total == old(total) + |chunk|
        invariant if again then Drain(cfg, Value()) == whole else whole == Ok(Value())
        decreases again, |buffer|
      {
        match phase {
          case Start => again, failure := StartPhase();
          case Headers => again, failure := HeadersPhase();
          case Data => again, failure := DataPhase();
          case Done =>
            again := false;
            failure := if buffer in {[], [CR], CRLF} then None else Some(TrailingData);
        }
        if failure.Some? { return; }
      }
      failure := None;
    }
  }

  /** The boundary parameter as the content type carries it: code points, not yet bytes. */
  function Marker(boundary: seq<nat>): (r: Result<Bytes, Error>)
    ensures r.Ok? <==> |boundary| <= 200 &&
                       forall i :: 0 <= i < |boundary| ==>
                         boundary[i] < 128 && boundary[i] != 13 && boundary[i] != 10
    ensures r.Ok? ==> |r.value| == |boundary| + 2 && Format.GoodMarker(r.value)
    ensures r.Ok? ==> r.value[..2] == [45, 45] &&
                      forall i :: 0 <= i < |boundary| ==> r.value[2..][i] as nat == boundary[i]
  {
    if exists i :: 0 <= i < |boundary| && boundary[i] >= 128 then Err(InvalidBoundary)
    else
      var marker: Bytes := DASHES + seq(|boundary|, i requires 0 <= i < |boundary| => boundary[i]);
      assert forall i :: 0 <= i < |boundary| ==> marker[i + 2] == boundary[i];
      if |marker| > MAX_MARKER || CR in marker || LF in marker then Err(InvalidBoundary)
      else Ok(marker)
  }

  /** The whole of reading a request: the content type, the boundary, the stream, the conclusion. */
  method ReadMultipart(request: Config, isFormData: bool, boundary: seq<nat>, chunks: seq<Bytes>)
    returns (r: Result<Upload, Error>)
    ensures !isFormData || boundary == [] ==> r == Err(UnsupportedMediaType)
    ensures isFormData && boundary != [] ==>
              match Marker(boundary)
              case Err(e) => r == Err(e)
              case Ok(marker) =>
                request.(marker := marker).Valid() &&
                r == Read(request.(marker := marker), chunks)
  {
    if !isFormData || boundary == [] { return Err(UnsupportedMediaType); }
    var encoded := Marker(boundary);
    if encoded.Err? { return Err(encoded.error); }
    var cfg := request.(marker := encoded.value);
    var reader := new Reader(cfg);
    var i := 0;
    while i < |chunks|
      invariant 0 <= i <= |chunks| && fresh(reader) && reader.cfg == cfg
      invariant reader.Value().Valid(cfg)
      invariant ReadChunks(cfg, INITIAL, 0, chunks)
             == ReadChunks(cfg, reader.Value(), reader.total, chunks[i..])
    {
      assert chunks[i..][0] == chunks[i] && chunks[i..][1..] == chunks[i + 1..];
      var failure := reader.Feed(chunks[i]);
      if failure.Some? { return Err(failure.value); }
      i := i + 1;
    }
    r := Conclude(cfg, reader.Value());
  }
}
