/**
  The format itself, with no notion of chunks, buffers or phases: a body is an opening line and a
  list of blocks, and the contents of a block reach to the first delimiter that is followed by a
  line end or by two dashes (section 5.1.1 of RFC 2046, section 4 of RFC 7578).
 */
module MultipartFormat {
  import opened Bytes
  import opened Wrappers

  datatype Block = Block(headers: Bytes, data: Bytes)

  datatype Body = Body(blocks: seq<Block>, trailer: Bytes)

  function Delimiter(marker: Bytes): (w: Bytes)
    ensures |w| == |marker| + 2 && w == [13, 10] + marker
  {
    CRLF + marker
  }

  predicate GoodMarker(marker: Bytes) { CR !in marker && LF !in marker && marker != [] }

  /** A genuine delimiter: the line end, the marker and one of the two permitted suffixes. */
  predicate ClosesAt(marker: Bytes, text: Bytes, p: int) {
    At(text, Delimiter(marker) + CRLF, p) || At(text, Delimiter(marker) + DASHES, p)
  }

  /** The two bytes after a delimiter. */
  function SuffixAt(marker: Bytes, text: Bytes, end: nat): Bytes
    requires end + |marker| + 4 <= |text|
  {
    text[end + |marker| + 2..end + |marker| + 4]
  }

  function FirstCloseFrom(marker: Bytes, text: Bytes, from: nat): (r: int)
    ensures r == -1 || (from <= r && ClosesAt(marker, text, r))
    ensures forall q :: from <= q && (r == -1 || q < r) ==> !ClosesAt(marker, text, q)
    decreases |text| - from
  {
    if from > |text| then -1
    else if ClosesAt(marker, text, from) then from
    else FirstCloseFrom(marker, text, from + 1)
  }

  function FirstClose(marker: Bytes, text: Bytes): (r: int)
    ensures r == -1 || ClosesAt(marker, text, r)
    ensures forall q :: 0 <= q && (r == -1 || q < r) ==> !ClosesAt(marker, text, q)
  {
    FirstCloseFrom(marker, text, 0)
  }

  /** A first block, whether it is the last one, and the text after its delimiter. */
  datatype Slice = Slice(block: Block, last: bool, more: Bytes)

  /** Cut the first block off a text that stands at the first byte of a header block. */
  function Cut(marker: Bytes, text: Bytes): (r: Option<Slice>)
    ensures r.Some? ==> |r.value.more| < |text|
  {
    var h := Find(text, BLANK_LINE);
    if h < 0 then None
    else
      var rest := text[h + 4..];
      var d := FirstClose(marker, rest);
      if d < 0 then None
      else Some(Slice(Block(text[..h], rest[..d]), ClosesWithDashes(marker, rest, d),
                      rest[d + |marker| + 4..]))
  }

  function Before(block: Block, rest: Option<Body>): Option<Body> {
    match rest
    case None => None
    case Some(body) => Some(Body([block] + body.blocks, body.trailer))
  }

  /** All the blocks of such a text. */
  function SplitBlocks(marker: Bytes, text: Bytes): Option<Body>
    decreases |text|
  {
    match Cut(marker, text)
    case None => None
    case Some(Slice(block, last, more)) =>
      if last then Some(Body([block], more)) else Before(block, SplitBlocks(marker, more))
  }

  predicate ClosesWithDashes(marker: Bytes, text: Bytes, d: int) {
    At(text, Delimiter(marker) + DASHES, d)
  }

  function Split(marker: Bytes, text: Bytes): Option<Body> {
    if marker + CRLF <= text then SplitBlocks(marker, text[|marker| + 2..]) else None
  }

  function EncodeBlocks(marker: Bytes, body: Body): Bytes
    decreases |body.blocks|
  {
    if body.blocks == [] then body.trailer
    else
      var block := body.blocks[0];
      var suffix := if |body.blocks| == 1 then [45, 45] else [13, 10];
      var more := EncodeBlocks(marker, body.(blocks := body.blocks[1..]));
      block.headers + ([13, 10, 13, 10] + (block.data + (Delimiter(marker) + suffix + more)))
  }

  /** The writer: the opening line, then each block closed by a delimiter, the last by dashes. */
  function Encode(marker: Bytes, body: Body): Bytes {
    marker + [13, 10] + EncodeBlocks(marker, body)
  }

  /** A header block whose blank line is the first one. */
  predicate Terminated(headers: Bytes) {
    Find(headers + BLANK_LINE, BLANK_LINE) == |headers|
  }

  /** Contents that hold no genuine delimiter, not even one completed by the line end that opens
      the closing delimiter. A false delimiter, with any other suffix, is allowed. */
  ghost predicate Carried(marker: Bytes, data: Bytes) {
    forall p :: 0 <= p ==> !ClosesAt(marker, data + CRLF, p)
  }

  ghost predicate Sendable(marker: Bytes, block: Block) {
    Terminated(block.headers) && Carried(marker, block.data)
  }

  // ---------------------------------------------------------------- positions of delimiters

  /** A delimiter starts with its only carriage return, so no two delimiters overlap. */
  lemma NoOverlap(marker: Bytes, text: Bytes, end: int, p: int)
    requires GoodMarker(marker) && At(text, Delimiter(marker), end)
    requires end < p < end + |Delimiter(marker)|
    ensures !At(text, Delimiter(marker), p)
  {
    var w := Delimiter(marker);
    AtHead(text, w, p);
    assert text[p] == text[end..end + |w|][p - end] == w[p - end];
    assert w[p - end] == if p - end == 1 then LF else marker[p - end - 2];
  }

  /** A genuine delimiter is a delimiter followed by its suffix. */
  lemma CloseParts(marker: Bytes, text: Bytes, p: int)
    ensures ClosesAt(marker, text, p) <==>
              && At(text, Delimiter(marker), p)
              && p + |marker| + 4 <= |text|
              && SuffixAt(marker, text, p) in {CRLF, DASHES}
    ensures ClosesAt(marker, text, p) ==>
              (ClosesWithDashes(marker, text, p) <==>
                 SuffixAt(marker, text, p) == DASHES)
  {
    var w := Delimiter(marker);
    if 0 <= p && p + |marker| + 4 <= |text| {
      var whole := text[p..p + |marker| + 4];
      assert whole == text[p..p + |w|] + text[p + |w|..p + |w| + 2];
      forall suffix: Bytes | |suffix| == 2
        ensures At(text, w + suffix, p) <==>
                  At(text, w, p) && text[p + |w|..p + |w| + 2] == suffix
      {
        assert whole[..|w|] == text[p..p + |w|] && whole[|w|..] == text[p + |w|..p + |w| + 2];
        assert (w + suffix)[..|w|] == w && (w + suffix)[|w|..] == suffix;
      }
    }
  }

  lemma FirstCloseIs(marker: Bytes, text: Bytes, p: int)
    requires ClosesAt(marker, text, p)
    requires forall q :: 0 <= q < p ==> !ClosesAt(marker, text, q)
    ensures FirstClose(marker, text) == p
  {
  }

  lemma CloseDrop(marker: Bytes, text: Bytes, k: nat, p: nat)
    requires k <= |text|
    ensures ClosesAt(marker, text[k..], p) <==> ClosesAt(marker, text, k + p)
  {
    AtDrop(text, Delimiter(marker) + CRLF, k, p);
    AtDrop(text, Delimiter(marker) + DASHES, k, p);
  }

  /** Skipping bytes at which nothing closes moves the first close by that many. */
  lemma FirstCloseDrop(marker: Bytes, text: Bytes, k: nat)
    requires k <= |text|
    requires forall p :: 0 <= p < k ==> !ClosesAt(marker, text, p)
    ensures FirstClose(marker, text) ==
              if FirstClose(marker, text[k..]) < 0 then -1 else k + FirstClose(marker, text[k..])
  {
    var d, d' := FirstClose(marker, text), FirstClose(marker, text[k..]);
    if d' >= 0 {
      CloseDrop(marker, text, k, d');
      forall q | 0 <= q < k + d' ensures !ClosesAt(marker, text, q) {
        if q >= k { CloseDrop(marker, text, k, q - k); }
      }
      FirstCloseIs(marker, text, k + d');
    } else if d >= 0 {
      CloseDrop(marker, text, k, d - k);
    }
  }

  lemma ClosePrefix(marker: Bytes, text: Bytes, more: Bytes, p: int)
    requires p + |marker| + 4 <= |text|
    ensures ClosesAt(marker, text + more, p) <==> ClosesAt(marker, text, p)
    ensures ClosesWithDashes(marker, text + more, p) <==> ClosesWithDashes(marker, text, p)
  {
    AtPrefix(text, more, Delimiter(marker) + CRLF, p);
    AtPrefix(text, more, Delimiter(marker) + DASHES, p);
  }

  /** The first close lies in a prefix that is long enough to hold it. */
  lemma FirstClosePrefix(marker: Bytes, text: Bytes, more: Bytes)
    requires 0 <= FirstClose(marker, text + more)
    requires FirstClose(marker, text + more) + |marker| + 4 <= |text|
    ensures FirstClose(marker, text) == FirstClose(marker, text + more)
  {
    var d := FirstClose(marker, text + more);
    forall p | 0 <= p <= d ensures ClosesAt(marker, text + more, p) <==> ClosesAt(marker, text, p) {
      ClosePrefix(marker, text, more, p);
    }
    FirstCloseIs(marker, text, d);
  }

  lemma FindPrefix(text: Bytes, more: Bytes, word: Bytes)
    requires 0 <= Find(text + more, word) && Find(text + more, word) + |word| <= |text|
    ensures Find(text, word) == Find(text + more, word)
  {
    FindExtend(text, more, word);
  }

  /** What `Cut` does when the ends of its headers and contents are known. */
  lemma CutAt(marker: Bytes, text: Bytes, h: nat, rest: Bytes, d: nat)
    requires Find(text, BLANK_LINE) == h && rest == text[h + 4..] && FirstClose(marker, rest) == d
    ensures Cut(marker, text)
            == Some(Slice(Block(text[..h], rest[..d]), ClosesWithDashes(marker, rest, d),
                          rest[d + |marker| + 4..]))
  {
  }

  /** The first block is cut the same way from any prefix that holds it with its delimiter. */
  lemma CutPrefix(marker: Bytes, text: Bytes, slice: Slice, q: nat) returns (size: nat)
    requires Cut(marker, text) == Some(slice) && q <= |slice.more|
    ensures size <= |text|
    ensures Cut(marker, text[..size]) == Some(slice.(more := slice.more[..q]))
  {
    var h := Find(text, BLANK_LINE);
    var rest := text[h + 4..];
    var d := FirstClose(marker, rest);
    CutAt(marker, text, h, rest, d);
    var n := d + |marker| + 4 + q;
    size := h + 4 + n;
    var prefix, rest' := text[..size], rest[..n];
    assert text == prefix + text[h + 4 + n..] && rest == rest' + rest[n..];
    FindPrefix(prefix, text[h + 4 + n..], BLANK_LINE);
    FirstClosePrefix(marker, rest', rest[n..]);
    ClosePrefix(marker, rest', rest[n..], d);
    assert prefix[h + 4..] == rest';
    CutAt(marker, prefix, h, rest', d);
    SlicesOfPrefix(text, h, n);
    SlicesOfPrefix(rest, d, |marker| + q);
    assert rest'[d + |marker| + 4..] == rest[d + |marker| + 4..][..q];
  }

  lemma SlicesOfPrefix(text: Bytes, h: nat, n: nat)
    requires h + 4 + n <= |text|
    ensures text[..h + 4 + n][..h] == text[..h]
  {
  }

  // ---------------------------------------------------------------- reading back what was written

  /** Before the closing delimiter, the encoded text closes just where its contents do. */
  lemma CloseInContents(marker: Bytes, data: Bytes, rest: Bytes, p: nat)
    requires GoodMarker(marker) && p < |data| && At(CRLF + rest, Delimiter(marker), 0)
    ensures ClosesAt(marker, data + (CRLF + rest), p) <==> ClosesAt(marker, data + CRLF, p)
  {
    var w := Delimiter(marker);
    var text := data + (CRLF + rest);
    if |data| < p + |w| {
      assert text[|data|..] == CRLF + rest;
      AtDrop(text, w, |data|, 0);
      CloseParts(marker, text, p);
      if At(text, w, p) {
        NoOverlap(marker, text, p, |data|);
      }
    } else {
      assert text == (data + CRLF) + rest;
      AtPrefix(data + CRLF, rest, w + CRLF, p);
      AtPrefix(data + CRLF, rest, w + DASHES, p);
    }
  }

  lemma CloseAtDelimiter(marker: Bytes, data: Bytes, suffix: Bytes, more: Bytes)
    requires suffix in {CRLF, DASHES}
    ensures ClosesAt(marker, data + (Delimiter(marker) + suffix + more), |data|)
    ensures ClosesWithDashes(marker, data + (Delimiter(marker) + suffix + more), |data|)
            <==> suffix == DASHES
  {
    var w := Delimiter(marker);
    var tail := w + suffix + more;
    var text := data + tail;
    assert text[|data|..|data| + |w| + 2] == w + suffix;
    assert suffix == (w + suffix)[|w|..];
    assert (w + DASHES)[|w|..] == DASHES;
  }

  /** The contents are read back as written exactly when they can be carried. */
  lemma DataReadBack(marker: Bytes, data: Bytes, suffix: Bytes, more: Bytes)
    requires GoodMarker(marker) && suffix in {CRLF, DASHES}
    ensures FirstClose(marker, data + (Delimiter(marker) + suffix + more)) == |data|
            <==> Carried(marker, data)
  {
    var tail := Delimiter(marker) + suffix + more;
    var text := data + tail;
    CloseAtDelimiter(marker, data, suffix, more);
    var rest := marker + suffix + more;
    assert tail == CRLF + rest;
    assert At(CRLF + rest, Delimiter(marker), 0);
    forall p | 0 <= p < |data|
      ensures ClosesAt(marker, text, p) <==> ClosesAt(marker, data + CRLF, p)
    {
      CloseInContents(marker, data, rest, p);
    }
    if FirstClose(marker, text) == |data| {
      assert forall p :: |data| <= p ==> !ClosesAt(marker, data + CRLF, p);
    } else if Carried(marker, data) {
      FirstCloseIs(marker, text, |data|);
    }
  }

  lemma HeadersReadBack(headers: Bytes, more: Bytes)
    ensures Find(headers + (BLANK_LINE + more), BLANK_LINE) == |headers| <==> Terminated(headers)
  {
    var text := headers + BLANK_LINE;
    assert text + more == headers + (BLANK_LINE + more);
    assert At(text, BLANK_LINE, |headers|);
    FindExtend(text, more, BLANK_LINE);
  }

  /** One block followed by anything: it is cut where the writer put the end if and only if it is
      sendable. */
  lemma FirstBlock(marker: Bytes, block: Block, suffix: Bytes, more: Bytes)
    requires GoodMarker(marker) && suffix in {CRLF, DASHES}
    ensures var rest := block.data + (Delimiter(marker) + suffix + more);
            var r := Cut(marker, block.headers + (BLANK_LINE + rest));
            && (Sendable(marker, block) ==> r == Some(Slice(block, suffix == DASHES, more)))
            && (r.Some? && r.value.block == block ==> Sendable(marker, block))
  {
    var rest := block.data + (Delimiter(marker) + suffix + more);
    var text := block.headers + (BLANK_LINE + rest);
    HeadersReadBack(block.headers, rest);
    DataReadBack(marker, block.data, suffix, more);
    CloseAtDelimiter(marker, block.data, suffix, more);
    assert rest[|block.data| + |marker| + 4..] == more;
    CutIs(marker, text, block, rest, more);
  }

  lemma CutIs(marker: Bytes, text: Bytes, block: Block, rest: Bytes, more: Bytes)
    requires text == block.headers + (BLANK_LINE + rest)
    requires |block.data| + |marker| + 4 <= |rest| && rest[..|block.data|] == block.data
    requires rest[|block.data| + |marker| + 4..] == more
    ensures Cut(marker, text).Some? && Cut(marker, text).value.block == block
            <==> Find(text, BLANK_LINE) == |block.headers| &&
                 FirstClose(marker, rest) == |block.data|
    ensures Cut(marker, text).Some? && Cut(marker, text).value.block == block ==>
              Cut(marker, text).value
              == Slice(block, ClosesWithDashes(marker, rest, |block.data|), more)
  {
    var h := Find(text, BLANK_LINE);
    if h == |block.headers| {
      assert text[h + 4..] == rest;
      assert text[..h] == block.headers;
      var d := FirstClose(marker, rest);
      if d >= 0 { assert |rest[..d]| == d; }
    } else if h >= 0 {
      assert |text[..h]| == h;
    }
  }

  /** The first block of a split text is the one cut off first; the others come from the rest. */
  lemma SplitHead(marker: Bytes, text: Bytes, block: Block, last: bool, more: Bytes, body: Body)
    requires Cut(marker, text) == Some(Slice(block, last, more))
    requires body.blocks != [] && body.blocks[0] == block
    requires last <==> |body.blocks| == 1
    ensures SplitBlocks(marker, text) == Some(body)
            <==> if last then more == body.trailer
                 else SplitBlocks(marker, more) == Some(body.(blocks := body.blocks[1..]))
  {
    if last {
      assert body.blocks == [block];
    } else {
      BeforeInjective(block, SplitBlocks(marker, more), body);
    }
  }

  lemma BeforeInjective(block: Block, rest: Option<Body>, body: Body)
    requires body.blocks != [] && body.blocks[0] == block
    ensures Before(block, rest) == Some(body) <==> rest == Some(body.(blocks := body.blocks[1..]))
  {
    assert body.blocks == [block] + body.blocks[1..];
    if rest.Some? {
      assert ([block] + rest.value.blocks)[1..] == rest.value.blocks;
    }
  }

  lemma SplitOther(marker: Bytes, text: Bytes, body: Body)
    requires body.blocks != []
    requires Cut(marker, text).Some? ==> Cut(marker, text).value.block != body.blocks[0]
    ensures SplitBlocks(marker, text) != Some(body)
  {
  }

  /** Round trip of the format: a non-empty list of blocks is read back as written if and only if
      every block is sendable. */
  lemma {:induction false} BlocksReadBack(marker: Bytes, body: Body)
    requires GoodMarker(marker) && body.blocks != []
    ensures SplitBlocks(marker, EncodeBlocks(marker, body)) == Some(body)
            <==> forall i :: 0 <= i < |body.blocks| ==> Sendable(marker, body.blocks[i])
    decreases |body.blocks|
  {
    var block, others := body.blocks[0], body.(blocks := body.blocks[1..]);
    var suffix := if |body.blocks| == 1 then DASHES else CRLF;
    var more := EncodeBlocks(marker, others);
    FirstBlock(marker, block, suffix, more);
    if Sendable(marker, block) {
      SplitHead(marker, EncodeBlocks(marker, body), block, suffix == DASHES, more, body);
      if |body.blocks| > 1 {
        BlocksReadBack(marker, others);
        AllInTail(marker, body);
      }
    } else {
      SplitOther(marker, EncodeBlocks(marker, body), body);
    }
  }

  lemma AllInTail(marker: Bytes, body: Body)
    requires body.blocks != []
    ensures (forall i :: 0 <= i < |body.blocks| ==> Sendable(marker, body.blocks[i]))
            <==> Sendable(marker, body.blocks[0]) &&
                 forall i :: 0 <= i < |body.blocks[1..]| ==> Sendable(marker, body.blocks[1..][i])
  {
    assert body.blocks == [body.blocks[0]] + body.blocks[1..];
  }

  lemma ReadBack(marker: Bytes, body: Body)
    requires GoodMarker(marker) && body.blocks != []
    ensures Split(marker, Encode(marker, body)) == Some(body)
            <==> forall i :: 0 <= i < |body.blocks| ==> Sendable(marker, body.blocks[i])
  {
    var text := EncodeBlocks(marker, body);
    assert Encode(marker, body)[..|marker| + 2] == marker + CRLF;
    assert Encode(marker, body)[|marker| + 2..] == text;
    BlocksReadBack(marker, body);
  }

  /** The plain promise: contents without the line end and marker can always be carried. */
  lemma PlainContents(marker: Bytes, data: Bytes)
    requires GoodMarker(marker) && Find(data, Delimiter(marker)) < 0
    ensures Carried(marker, data)
  {
    forall p | 0 <= p ensures !ClosesAt(marker, data + CRLF, p) {
      CloseParts(marker, data + CRLF, p);
      if p + |marker| + 4 <= |data| + 2 {
        AtPrefix(data, CRLF, Delimiter(marker), p);
      }
    }
  }
}
