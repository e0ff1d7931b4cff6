/** Reading, in any chunks, what a writer of distinct named parts has written. */
module MultipartRoundTrip {
  import opened Bytes
  import opened Wrappers
  import opened Multipart
  import opened MultipartFormat
  import opened MultipartMeaning
  import opened MultipartChunks
  import opened MultipartReads

  function NameOf(cfg: Config, block: Block): string {
    match cfg.dispositionName(block.headers)
    case None => ""
    case Some(name) => name
  }

  /** One block that the caller can receive: the file or one of the text fields, within the limit the
      caller has set for it, with a header block of 16384 bytes at most. */
  predicate Receivable(cfg: Config, block: Block) {
    && cfg.dispositionName(block.headers).Some?
    && |block.headers| <= 16384
    && var name := cfg.dispositionName(block.headers).value;
       if name == cfg.fileField then |block.data| <= cfg.maxFileBytes
       else name in cfg.textFields && |block.data| <= cfg.textFields[name]
  }

  /** Blocks that the caller can receive together: distinct names, none taken already. */
  ghost predicate Acceptable(cfg: Config, taken: set<string>, blocks: seq<Block>) {
    && (forall i :: 0 <= i < |blocks| ==>
          Receivable(cfg, blocks[i]) && NameOf(cfg, blocks[i]) !in taken)
    && (forall i, j :: 0 <= i < j < |blocks| ==> NameOf(cfg, blocks[i]) != NameOf(cfg, blocks[j]))
  }

  /** `parts` holds exactly the given blocks, each under its name, besides what was there before. */
  ghost predicate Holds(
    cfg: Config, before: map<string, Part>, parts: map<string, Part>, blocks: seq<Block>)
  {
    && (forall i :: 0 <= i < |blocks| ==>
          NameOf(cfg, blocks[i]) in parts &&
          parts[NameOf(cfg, blocks[i])] == Part(blocks[i].headers, blocks[i].data))
    && (forall f :: f in before ==> f in parts && parts[f] == before[f])
    && (forall f :: f in parts ==>
          f in before || exists i :: 0 <= i < |blocks| && f == NameOf(cfg, blocks[i]))
  }

  lemma AcceptableTail(cfg: Config, taken: set<string>, blocks: seq<Block>)
    requires blocks != []
    ensures Acceptable(cfg, taken, blocks)
            <==> && Receivable(cfg, blocks[0]) && NameOf(cfg, blocks[0]) !in taken
                 && Acceptable(cfg, taken + {NameOf(cfg, blocks[0])}, blocks[1..])
  {
    var names := taken + {NameOf(cfg, blocks[0])};
    if Acceptable(cfg, names, blocks[1..]) {
      forall i | 1 <= i < |blocks|
        ensures Receivable(cfg, blocks[i]) && NameOf(cfg, blocks[i]) !in names
      {
        assert blocks[i] == blocks[1..][i - 1];
      }
      forall i, j | 1 <= i < j < |blocks|
        ensures NameOf(cfg, blocks[i]) != NameOf(cfg, blocks[j])
      {
        assert blocks[i] == blocks[1..][i - 1] && blocks[j] == blocks[1..][j - 1];
      }
    }
  }

  lemma HoldsTail(cfg: Config, before: map<string, Part>, parts: map<string, Part>, blocks: seq<Block>)
    requires blocks != [] && NameOf(cfg, blocks[0]) !in before
    requires Holds(cfg, before[NameOf(cfg, blocks[0]) := Part(blocks[0].headers, blocks[0].data)],
                   parts, blocks[1..])
    ensures Holds(cfg, before, parts, blocks)
  {
    var name := NameOf(cfg, blocks[0]);
    forall i | 0 <= i < |blocks|
      ensures NameOf(cfg, blocks[i]) in parts &&
              parts[NameOf(cfg, blocks[i])] == Part(blocks[i].headers, blocks[i].data)
    {
      if i > 0 { assert blocks[i] == blocks[1..][i - 1]; }
    }
    forall f | f in parts && f !in before
      ensures exists i :: 0 <= i < |blocks| && f == NameOf(cfg, blocks[i])
    {
      if f != name {
        var i :| 0 <= i < |blocks[1..]| && f == NameOf(cfg, blocks[1..][i]);
        assert blocks[1..][i] == blocks[i + 1];
      }
    }
  }

  /** Gathering succeeds exactly on acceptable blocks, and gathers exactly them. */
  lemma {:induction false} GatherExact(cfg: Config, parts: map<string, Part>, blocks: seq<Block>)
    ensures Gather(cfg, parts, blocks).Some? <==> Acceptable(cfg, parts.Keys, blocks)
    ensures Gather(cfg, parts, blocks).Some? ==>
              Holds(cfg, parts, Gather(cfg, parts, blocks).value, blocks)
    decreases |blocks|
  {
    if blocks != [] {
      AcceptableTail(cfg, parts.Keys, blocks);
      var taken := TakeBlock(cfg, parts, blocks[0]);
      if taken.Some? {
        assert taken.value.Keys == parts.Keys + {NameOf(cfg, blocks[0])};
        GatherExact(cfg, taken.value, blocks[1..]);
        if Gather(cfg, parts, blocks).Some? {
          HoldsTail(cfg, parts, Gather(cfg, parts, blocks).value, blocks);
        }
      }
    }
  }

  /** Round trip: distinct receivable parts, written with a good boundary and read back in any
      chunks, come back exactly, and the digest has been fed exactly the file's bytes. Contents may
      hold false delimiters; header blocks must leave room for a partial blank line. */
  lemma WriteThenRead(cfg: Config, body: Body, chunks: seq<Bytes>)
    requires cfg.Valid() && body.blocks != [] && GoodTrailer(body.trailer)
    requires Flatten(chunks) == Encode(cfg.marker, body) && Fits(cfg, Flatten(chunks))
    requires Acceptable(cfg, {}, body.blocks)
    requires forall i :: 0 <= i < |body.blocks| ==>
               Sendable(cfg.marker, body.blocks[i]) && |body.blocks[i].headers| <= 16381
    ensures var s := Outcome(cfg, chunks);
            && s.Some?
            && Holds(cfg, map[], s.value.parts, body.blocks)
            && forall i :: 0 <= i < |body.blocks| && NameOf(cfg, body.blocks[i]) == cfg.fileField ==>
                 s.value.digest == body.blocks[i].data
  {
    var text := Flatten(chunks);
    ReadBack(cfg.marker, body);
    GatherExact(cfg, map[], body.blocks);
    var parts := Meaning(cfg, text).value;
    forall f | f in parts ensures |parts[f].headers| <= SAFE_HEADER {
      var i :| 0 <= i < |body.blocks| && f == NameOf(cfg, body.blocks[i]);
      assert parts[NameOf(cfg, body.blocks[i])].headers == body.blocks[i].headers;
    }
    ReadMeaning(cfg, chunks);
    var s := Outcome(cfg, chunks).value;
    forall i | 0 <= i < |body.blocks| && NameOf(cfg, body.blocks[i]) == cfg.fileField
      ensures s.digest == body.blocks[i].data
    {
      assert s.parts[NameOf(cfg, body.blocks[i])].data == body.blocks[i].data;
    }
  }

  /** The blocks that make an upload: a named file, all that is required, and texts that decode. The
      file's own contents need not. */
  ghost predicate Deliverable(cfg: Config, blocks: seq<Block>) {
    && Present(cfg, blocks, cfg.fileField)
    && (forall f :: f in cfg.required ==> Present(cfg, blocks, f))
    && (forall i :: 0 <= i < |blocks| && NameOf(cfg, blocks[i]) in cfg.textFields ==>
          cfg.decodeUtf8(blocks[i].data).Some?)
    && (forall i :: 0 <= i < |blocks| && NameOf(cfg, blocks[i]) == cfg.fileField ==>
          cfg.fileName(blocks[i].headers) != "")
  }

  ghost predicate Present(cfg: Config, blocks: seq<Block>, f: string) {
    exists i :: 0 <= i < |blocks| && f == NameOf(cfg, blocks[i])
  }

  /** The upload returned for a written body: there is one if and only if the whole is within the
      limit, nothing but a line end or the start of one follows the last block, the parts can be
      received together, the file and the required parts are there, the texts decode and the file is
      named; it has the file's own bytes, the same bytes digested, and exactly the texts sent,
      decoded. */
  lemma UploadOfBody(cfg: Config, body: Body, chunks: seq<Bytes>)
    requires cfg.Valid() && body.blocks != []
    requires Flatten(chunks) == Encode(cfg.marker, body)
    requires forall i :: 0 <= i < |body.blocks| ==>
               Sendable(cfg.marker, body.blocks[i]) && |body.blocks[i].headers| <= 16381
    ensures Read(cfg, chunks).Ok? <==>
              && |Flatten(chunks)| <= cfg.maxFileBytes + 65536
              && body.trailer in {[], [13], [13, 10]}
              && Acceptable(cfg, {}, body.blocks) && Deliverable(cfg, body.blocks)
    ensures Read(cfg, chunks).Ok? ==> Delivers(cfg, body.blocks, Read(cfg, chunks).value)
  {
    assert GoodTrailer(body.trailer) <==> body.trailer in {[], [13], [13, 10]};
    if Fits(cfg, Flatten(chunks)) && GoodTrailer(body.trailer) && Acceptable(cfg, {}, body.blocks) {
      UploadOfBlocks(cfg, body, chunks);
    } else {
      NotReceived(cfg, body, chunks);
    }
  }

  lemma UploadOfBlocks(cfg: Config, body: Body, chunks: seq<Bytes>)
    requires cfg.Valid() && body.blocks != [] && GoodTrailer(body.trailer)
    requires Flatten(chunks) == Encode(cfg.marker, body) && Fits(cfg, Flatten(chunks))
    requires Acceptable(cfg, {}, body.blocks)
    requires forall i :: 0 <= i < |body.blocks| ==>
               Sendable(cfg.marker, body.blocks[i]) && |body.blocks[i].headers| <= 16381
    ensures Read(cfg, chunks).Ok? <==> Deliverable(cfg, body.blocks)
    ensures Read(cfg, chunks).Ok? ==> Delivers(cfg, body.blocks, Read(cfg, chunks).value)
  {
    WriteThenRead(cfg, body, chunks);
    var s := Outcome(cfg, chunks).value;
    assert ReadChunks(cfg, INITIAL, 0, chunks) == Ok(s);
    CompleteParts(cfg, s.parts, body.blocks);
    ConcludeExact(cfg, s);
    if Conclude(cfg, s).Ok? { ConcludeParts(cfg, s, body.blocks); }
  }

  /** A body that is too long, has more after it than a line end, or parts that cannot be received
      together, is refused in any chunks. */
  lemma NotReceived(cfg: Config, body: Body, chunks: seq<Bytes>)
    requires cfg.Valid() && body.blocks != [] && Flatten(chunks) == Encode(cfg.marker, body)
    requires forall i :: 0 <= i < |body.blocks| ==> Sendable(cfg.marker, body.blocks[i])
    requires !Fits(cfg, Flatten(chunks)) || !GoodTrailer(body.trailer)
             || !Acceptable(cfg, {}, body.blocks)
    ensures Read(cfg, chunks).Err?
  {
    ReadBack(cfg.marker, body);
    GatherExact(cfg, map[], body.blocks);
    ReadMeaning(cfg, chunks);
    ReadOutcome(cfg, chunks);
  }

  /** The upload is made of the blocks. */
  ghost predicate Delivers(cfg: Config, blocks: seq<Block>, u: Upload) {
    && (forall i :: 0 <= i < |blocks| && NameOf(cfg, blocks[i]) == cfg.fileField ==>
          && u.data == blocks[i].data == u.digested
          && u.fileName == cfg.fileName(blocks[i].headers)
          && u.contentType == cfg.contentType(blocks[i].headers))
    && (forall i :: 0 <= i < |blocks| && NameOf(cfg, blocks[i]) in cfg.textFields ==>
          && NameOf(cfg, blocks[i]) in u.text
          && cfg.decodeUtf8(blocks[i].data) == Some(u.text[NameOf(cfg, blocks[i])]))
    && (forall f :: f in u.text ==> f in cfg.textFields && Present(cfg, blocks, f))
  }

  /** Parts that hold the blocks are complete if and only if the blocks are deliverable. */
  lemma CompleteParts(cfg: Config, parts: map<string, Part>, blocks: seq<Block>)
    requires Holds(cfg, map[], parts, blocks)
    ensures Complete(cfg, parts) <==> Deliverable(cfg, blocks)
  {
    forall f ensures f in parts <==> Present(cfg, blocks, f) { }
    if Deliverable(cfg, blocks) {
      forall f | f in parts ensures f in cfg.textFields ==> cfg.decodeUtf8(parts[f].data).Some? {
        var i :| 0 <= i < |blocks| && f == NameOf(cfg, blocks[i]);
        assert parts[NameOf(cfg, blocks[i])].data == blocks[i].data;
      }
      var i :| 0 <= i < |blocks| && cfg.fileField == NameOf(cfg, blocks[i]);
      assert parts[NameOf(cfg, blocks[i])].headers == blocks[i].headers;
    }
    if Complete(cfg, parts) {
      assert cfg.fileField in {cfg.fileField} + cfg.required;
      forall f | f in cfg.required ensures f in parts { assert f in {cfg.fileField} + cfg.required; }
      forall i | 0 <= i < |blocks|
        ensures NameOf(cfg, blocks[i]) in parts
        ensures parts[NameOf(cfg, blocks[i])] == Part(blocks[i].headers, blocks[i].data)
      {
      }
    }
  }

  /** What the caller gets when the stream has ended and the parts hold the blocks. */
  lemma ConcludeParts(cfg: Config, s: State, blocks: seq<Block>)
    requires Holds(cfg, map[], s.parts, blocks) && Conclude(cfg, s).Ok?
    requires forall i :: 0 <= i < |blocks| && NameOf(cfg, blocks[i]) == cfg.fileField ==>
               s.digest == blocks[i].data
    ensures Delivers(cfg, blocks, Conclude(cfg, s).value)
  {
    forall i | 0 <= i < |blocks|
      ensures NameOf(cfg, blocks[i]) in s.parts
      ensures s.parts[NameOf(cfg, blocks[i])] == Part(blocks[i].headers, blocks[i].data)
    {
    }
  }

  // ------------------------------------------------------------------------- the exception occurs

  lemma NoReturnTerminated(headers: Bytes)
    requires CR !in headers
    ensures Terminated(headers)
  {
    var text := headers + BLANK_LINE;
    assert text[|headers|..|headers| + 4] == BLANK_LINE;
    forall q | 0 <= q < |headers| ensures !At(text, BLANK_LINE, q) {
      AtHead(text, BLANK_LINE, q);
      assert text[q] == headers[q];
    }
    FindIs(text, BLANK_LINE, |headers|);
  }

  lemma EmptyCarried(marker: Bytes)
    requires GoodMarker(marker)
    ensures Carried(marker, [])
  {
    forall p | 0 <= p ensures !ClosesAt(marker, [] + CRLF, p) {
      CloseParts(marker, [] + CRLF, p);
    }
  }

  /** One empty file part whose header block is just below the limit makes a fragile body. */
  lemma LongHeaderIsFragile(cfg: Config, headers: Bytes)
    requires cfg.Valid() && CR !in headers && 16381 < |headers| <= 16384
    requires cfg.dispositionName(headers) == Some(cfg.fileField)
    ensures Fragile(cfg, Encode(cfg.marker, Body([Block(headers, [])], [])))
  {
    LongHeaderMeaning(cfg, headers);
    EncodedLength(cfg.marker, Block(headers, []));
    var parts := Meaning(cfg, Encode(cfg.marker, Body([Block(headers, [])], []))).value;
    assert parts[cfg.fileField].headers == headers;
  }

  lemma LongHeaderMeaning(cfg: Config, headers: Bytes)
    requires cfg.Valid() && CR !in headers && |headers| <= MAX_HEADER
    requires cfg.dispositionName(headers) == Some(cfg.fileField)
    ensures var text := Encode(cfg.marker, Body([Block(headers, [])], []));
            && Meaning(cfg, text).Some?
            && Holds(cfg, map[], Meaning(cfg, text).value, [Block(headers, [])])
            && cfg.fileField in Meaning(cfg, text).value
            && Meaning(cfg, text).value[cfg.fileField] == Part(headers, [])
  {
    var body := Body([Block(headers, [])], []);
    NoReturnTerminated(headers);
    EmptyCarried(cfg.marker);
    ReadBack(cfg.marker, body);
    GatherExact(cfg, map[], body.blocks);
    assert NameOf(cfg, body.blocks[0]) == cfg.fileField;
  }

  /** If nothing else is required and the file is named, that body makes an upload. */
  lemma LongHeaderCompletes(cfg: Config, headers: Bytes)
    requires cfg.Valid() && CR !in headers && |headers| <= MAX_HEADER
    requires cfg.dispositionName(headers) == Some(cfg.fileField) && cfg.fileName(headers) != ""
    requires cfg.required == {} && cfg.textFields == map[]
    ensures var meaning := Meaning(cfg, Encode(cfg.marker, Body([Block(headers, [])], [])));
            meaning.Some? && Complete(cfg, meaning.value)
  {
    LongHeaderMeaning(cfg, headers);
  }

  lemma EncodedLength(marker: Bytes, block: Block)
    ensures |Encode(marker, Body([block], []))| == 2 * |marker| + |block.headers| + |block.data| + 10
  {
    assert EncodeBlocks(marker, Body([], [])) == [];
    assert Body([block], []).(blocks := [block][1..]) == Body([], []);
  }

  /** The exception is real: a concrete body, a header block of 16382 bytes, whose upload one way of
      cutting gets and another does not. */
  lemma CutsCanMatter() returns (cfg: Config, whole: seq<Bytes>, cut: seq<Bytes>)
    ensures cfg.Valid() && Flatten(whole) == Flatten(cut)
    ensures Accepted(Read(cfg, whole)).Some? && Accepted(Read(cfg, cut)).None?
  {
    var headers: Bytes := seq(16382, i => 97);
    cfg := Config("file", map[], {}, 0, [DASH, DASH, 98], h => Some("file"),
                  h => "name", h => "text/plain", d => None);
    LongHeaderIsFragile(cfg, headers);
    var text := Encode(cfg.marker, Body([Block(headers, [])], []));
    whole := [text];
    assert Flatten(whole) == text + [];
    LongHeaderCompletes(cfg, headers);
    FragileRead(cfg, text);
    cut := FragileRefused(cfg, text);
  }
}
