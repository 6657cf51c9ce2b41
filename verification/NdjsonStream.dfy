/** Newline-delimited JSON over a chunked body: decoding, encoding and the request limits. */
module NdjsonStream {
  import opened Common

  newtype Byte = b: int | 0 <= b < 256

  const NEWLINE: Byte := 10
  const MAX_LINE_BYTES: nat := 1024 * 1024

  type Bytes = seq<Byte>

  /** What a body stream delivers; running out of events is its clean end. */
  datatype Event = Chunk(bytes: Bytes) | TransportError

  /** `serde_json::from_slice`. */
  type Decoder<!T> = Bytes -> Option<T>

  // ---------------------------------------------------------------- the meaning of a body

  /** The bytes that arrive: everything before the first transport error. */
  function Received(events: seq<Event>): Bytes {
    if events == [] || events[0].TransportError? then [] else events[0].bytes + Received(events[1..])
  }

  predicate EndsCleanly(events: seq<Event>) {
    events == [] || (events[0].Chunk? && EndsCleanly(events[1..]))
  }

  /** Position of the first newline, or the length if there is none. */
  function LineEnd(bytes: Bytes): (n: nat)
    ensures n <= |bytes|
  {
    if bytes == [] || bytes[0] == NEWLINE then 0 else 1 + LineEnd(bytes[1..])
  }

  lemma {:induction false} LineEndMeaning(bytes: Bytes)
    ensures forall i :: 0 <= i < LineEnd(bytes) ==> bytes[i] != NEWLINE
    ensures LineEnd(bytes) < |bytes| ==> bytes[LineEnd(bytes)] == NEWLINE
  {
    if bytes != [] && bytes[0] != NEWLINE {
      LineEndMeaning(bytes[1..]);
      forall i | 0 <= i < LineEnd(bytes) ensures bytes[i] != NEWLINE {
        if i > 0 {
          assert bytes[i] == bytes[1..][i - 1];
        }
      }
    }
  }

  /** The lines of a body: pieces between newlines, without the empty ones. The unterminated last piece
    * counts only if the body ended cleanly. */
  function Lines(bytes: Bytes, clean: bool): seq<Bytes>
    decreases |bytes|
  {
    if LineEnd(bytes) < |bytes| then FirstPiece(bytes) + Lines(AfterNewline(bytes), clean)
    else if clean && bytes != [] then [bytes]
    else []
  }

  /** The piece before the first newline, unless it is empty. */
  function FirstPiece(bytes: Bytes): seq<Bytes> {
    if LineEnd(bytes) == 0 then [] else [bytes[..LineEnd(bytes)]]
  }

  function AfterNewline(bytes: Bytes): Bytes
    requires LineEnd(bytes) < |bytes|
  {
    bytes[LineEnd(bytes) + 1..]
  }

  /** What a line amounts to: an over-long line is as bad as an undecodable one. */
  function Item<T>(decode: Decoder<T>, line: Bytes): Option<T> {
    if |line| <= MAX_LINE_BYTES then decode(line) else None
  }

  predicate Good<T>(decode: Decoder<T>, line: Bytes) {
    Item(decode, line).Some?
  }

  /** `first` and then `later`, or nothing if there is no `first`. */
  function Then<T>(first: Option<T>, later: seq<T>): seq<T> {
    if first.Some? then [first.value] + later else []
  }

  /** The items of the longest prefix of good lines. */
  function Items<T>(decode: Decoder<T>, lines: seq<Bytes>): seq<T> {
    if lines == [] then [] else Then(Item(decode, lines[0]), Items(decode, lines[1..]))
  }

  function Meaning<T>(decode: Decoder<T>, events: seq<Event>): seq<T> {
    Items(decode, Lines(Received(events), EndsCleanly(events)))
  }

  /** `Items` is what it says: as many lines as are good, decoded in order, and no more. */
  lemma {:induction false} ItemsMeaning<T>(decode: Decoder<T>, lines: seq<Bytes>)
    ensures |Items(decode, lines)| <= |lines|
    ensures forall i :: 0 <= i < |Items(decode, lines)| ==>
              Good(decode, lines[i]) && Items(decode, lines)[i] == decode(lines[i]).value
    ensures |Items(decode, lines)| < |lines| ==> !Good(decode, lines[|Items(decode, lines)|])
  {
    if lines != [] && Good(decode, lines[0]) {
      ItemsMeaning(decode, lines[1..]);
      forall i | 0 < i < |Items(decode, lines)|
        ensures Good(decode, lines[i]) && Items(decode, lines)[i] == decode(lines[i]).value
      {
        assert lines[i] == lines[1..][i - 1];
      }
    }
  }

  /** No line is empty or holds a newline. */
  lemma {:induction false} LinesAreLines(bytes: Bytes, clean: bool)
    ensures forall line <- Lines(bytes, clean) :: line != [] && NEWLINE !in line
    decreases |bytes|
  {
    var n := LineEnd(bytes);
    LineEndMeaning(bytes);
    if n < |bytes| {
      LinesAreLines(bytes[n + 1..], clean);
    }
  }

  /** All pieces between newlines, empty ones and the last one included. */
  function AllPieces(bytes: Bytes): (pieces: seq<Bytes>)
    ensures pieces != []
    decreases |bytes|
  {
    if LineEnd(bytes) < |bytes| then [bytes[..LineEnd(bytes)]] + AllPieces(AfterNewline(bytes)) else [bytes]
  }

  function JoinPieces(pieces: seq<Bytes>): Bytes
    requires pieces != []
  {
    if |pieces| == 1 then pieces[0] else pieces[0] + [NEWLINE] + JoinPieces(pieces[1..])
  }

  function NonEmpty(pieces: seq<Bytes>): seq<Bytes> {
    if pieces == [] then [] else (if pieces[0] == [] then [] else [pieces[0]]) + NonEmpty(pieces[1..])
  }

  /** Nothing is lost between newlines: the pieces joined by newlines are the body. */
  lemma {:induction false} PiecesJoin(bytes: Bytes)
    ensures JoinPieces(AllPieces(bytes)) == bytes
    ensures forall piece <- AllPieces(bytes) :: NEWLINE !in piece
    decreases |bytes|
  {
    var n := LineEnd(bytes);
    LineEndMeaning(bytes);
    if n < |bytes| {
      PiecesJoin(AfterNewline(bytes));
      var rest := AllPieces(AfterNewline(bytes));
      assert ([bytes[..n]] + rest)[1..] == rest;
      assert bytes == bytes[..n] + [NEWLINE] + AfterNewline(bytes);
    }
  }

  /** The lines are the nonempty pieces, the last one only after a clean end. */
  lemma {:induction false} LinesMeaning(bytes: Bytes, clean: bool)
    ensures var pieces := AllPieces(bytes);
            Lines(bytes, clean) == NonEmpty(if clean then pieces else pieces[..|pieces| - 1])
    decreases |bytes|
  {
    if LineEnd(bytes) < |bytes| {
      var first, rest := bytes[..LineEnd(bytes)], AllPieces(AfterNewline(bytes));
      LinesMeaning(AfterNewline(bytes), clean);
      var pieces := [first] + rest;
      assert pieces[1..] == rest && pieces[..|pieces| - 1][1..] == rest[..|rest| - 1];
      assert pieces[..|pieces| - 1][0] == first;
      assert first == [] <==> LineEnd(bytes) == 0;
    } else {
      assert [bytes][1..] == [] && [bytes][..0] == [];
      assert NonEmpty([]) == [];
    }
  }

  /** A line longer than 1 MiB ends the stream, one of exactly that length does not. */
  lemma LongLineEnds<T>(decode: Decoder<T>, line: Bytes, later: seq<Bytes>)
    ensures |line| > 1_048_576 ==> Items(decode, [line] + later) == []
    ensures |line| <= 1_048_576 && decode(line).Some? ==>
              Items(decode, [line] + later) == [decode(line).value] + Items(decode, later)
  {
    assert ([line] + later)[1..] == later;
  }

  // ---------------------------------------------------------------- decoding

  lemma {:induction false} LineEndAppend(a: Bytes, b: Bytes)
    ensures LineEnd(a + b) == if LineEnd(a) < |a| then LineEnd(a) else |a| + LineEnd(b)
  {
    if a == [] {
      assert a + b == b;
    } else if a[0] != NEWLINE {
      assert (a + b)[1..] == a[1..] + b;
      LineEndAppend(a[1..], b);
    }
  }

  /** What is still to be emitted from a buffer and the bytes yet to come. */
  function Pending<T>(decode: Decoder<T>, buffer: Bytes, rest: Bytes, clean: bool): seq<T> {
    Items(decode, Lines(buffer + rest, clean))
  }

  lemma FirstLine(buffer: Bytes, rest: Bytes, clean: bool)
    requires LineEnd(buffer) < |buffer|
    ensures Lines(buffer + rest, clean) == FirstPiece(buffer) + Lines(AfterNewline(buffer) + rest, clean)
  {
    var n := LineEnd(buffer);
    LineEndAppend(buffer, rest);
    assert (buffer + rest)[..n] == buffer[..n] && (buffer + rest)[n + 1..] == buffer[n + 1..] + rest;
  }

  /** A buffered line comes first, whatever arrives later. */
  lemma PendingLine<T>(decode: Decoder<T>, buffer: Bytes, rest: Bytes, clean: bool)
    requires LineEnd(buffer) < |buffer|
    ensures var n := LineEnd(buffer);
            Pending(decode, buffer, rest, clean) ==
              if n == 0 then Pending(decode, AfterNewline(buffer), rest, clean)
              else Then(Item(decode, buffer[..n]), Pending(decode, AfterNewline(buffer), rest, clean))
  {
    var later := Lines(AfterNewline(buffer) + rest, clean);
    FirstLine(buffer, rest, clean);
    if LineEnd(buffer) == 0 {
      assert [] + later == later;
    } else {
      ItemsCons(decode, buffer[..LineEnd(buffer)], later);
    }
  }

  lemma ItemsCons<T>(decode: Decoder<T>, line: Bytes, later: seq<Bytes>)
    ensures Items(decode, [line] + later) == Then(Item(decode, line), Items(decode, later))
  {
    assert ([line] + later)[1..] == later;
  }

  lemma LastLine(buffer: Bytes, clean: bool)
    requires LineEnd(buffer) == |buffer|
    ensures Lines(buffer + [], clean) == if clean && buffer != [] then [buffer] + [] else []
  {
    assert buffer + [] == buffer;
  }

  /** An unterminated last line is an item only of a body that ended cleanly. */
  lemma PendingTail<T>(decode: Decoder<T>, buffer: Bytes, clean: bool)
    requires LineEnd(buffer) == |buffer|
    ensures Pending(decode, buffer, [], clean) ==
              if clean && buffer != [] then Then(Item(decode, buffer), []) else []
  {
    LastLine(buffer, clean);
    ItemsCons(decode, buffer, []);
  }

  /** Reading a chunk either shows that the pending line is too long, or changes nothing but where the
    * bytes are. */
  lemma PendingChunk<T>(decode: Decoder<T>, buffer: Bytes, chunk: Bytes, rest: Bytes, clean: bool)
    requires LineEnd(buffer) == |buffer|
    ensures Pending(decode, buffer, chunk + rest, clean) == Pending(decode, buffer + chunk, rest, clean)
    ensures |buffer| + LineEnd(chunk) > MAX_LINE_BYTES ==> Pending(decode, buffer, chunk + rest, clean) == []
  {
    assert buffer + (chunk + rest) == (buffer + chunk) + rest;
    LineEndAppend(buffer, chunk + rest);
    LineEndAppend(chunk, rest);
  }

  /** The state that `ndjson_decode` unfolds. */
  class NdjsonState<T> {
    const decode: Decoder<T>
    var body: seq<Event>
    var buffer: Bytes
    var done: bool

    ghost predicate Valid()
      reads this
    {
      done ==> body == []
    }

    /** The items this state will still emit. */
    ghost function ToEmit(): seq<T>
      reads this
    {
      Pending(decode, buffer, Received(body), EndsCleanly(body))
    }

    constructor (decode: Decoder<T>, body: seq<Event>)
      ensures Valid() && this.decode == decode
      ensures ToEmit() == Meaning(decode, body)
    {
      this.decode, this.body := decode, body;
      buffer, done := [], false;
      new;
      assert [] + Received(body) == Received(body);
    }

    /** Takes the first buffered line, if the buffer holds one. */
    method TakeLine() returns (line: Option<Bytes>)
      modifies this`buffer
      ensures line.None? ==> LineEnd(buffer) == |buffer| && buffer == old(buffer)
      ensures line.Some? ==> |buffer| < |old(buffer)|
      ensures line == Some([]) ==> ToEmit() == old(ToEmit())
      ensures line.Some? && line.value != [] ==>
                old(ToEmit()) == Then(Item(decode, line.value), ToEmit())
    {
      var newline := LineEnd(buffer);
      if newline == |buffer| {
        return None;
      }
      PendingLine(decode, buffer, Received(body), EndsCleanly(body));
      line := Some(buffer[..newline]);
      buffer := AfterNewline(buffer);
    }

    /** Reads up to the next nonempty line of acceptable length; none ends the stream. */
    method NextLine() returns (line: Option<Bytes>)
      requires Valid()
      modifies this
      ensures Valid()
      ensures line.None? ==> old(ToEmit()) == []
      ensures line.Some? ==> old(ToEmit()) == Then(decode(line.value), ToEmit())
    {
      while true
        invariant Valid() && ToEmit() == old(ToEmit())
        decreases |body|, !done, |buffer|
      {
        line := TakeLine();
        if line.Some? {
          if line.value == [] {
            continue;
          }
          return if |line.value| > MAX_LINE_BYTES then None else line;
        }
        if done {
          PendingTail(decode, buffer, EndsCleanly(body));
          if buffer == [] || |buffer| > MAX_LINE_BYTES {
            return None;
          }
          line := Some(buffer);
          buffer := [];
          PendingTail(decode, buffer, EndsCleanly(body));
          return;
        } else if body == [] {
          done := true;
        } else if body[0].TransportError? {
          PendingTail(decode, buffer, EndsCleanly(body));
          return None;
        } else {
          PendingChunk(decode, buffer, body[0].bytes, Received(body[1..]), EndsCleanly(body));
          var chunk := body[0].bytes;
          body := body[1..];
          if |buffer| + LineEnd(chunk) > MAX_LINE_BYTES {
            return None;
          }
          buffer := buffer + chunk;
        }
      }
    }

    /** One step of the unfold: the next item, or the end. */
    method Next() returns (item: Option<T>)
      requires Valid()
      modifies this
      ensures Valid()
      ensures old(ToEmit()) == Then(item, ToEmit())
    {
      var line := NextLine();
      item := if line.None? then None else decode(line.value);
    }
  }

  /** `ndjson_decode`, run to its end: the emitted items are the meaning of the body, which depends on
    * the bytes received and on how the body ended, not on where the chunks were cut. */
  method NdjsonDecode<T>(decode: Decoder<T>, body: seq<Event>) returns (items: seq<T>)
    ensures items == Meaning(decode, body)
  {
    var state := new NdjsonState(decode, body);
    items := [];
    var item := state.Next();
    while item.Some?
      invariant fresh(state) && state.Valid()
      invariant items + Then(item, state.ToEmit()) == Meaning(decode, body)
      decreases item.Some?, |state.ToEmit()|
    {
      Reassociate(items, [item.value], state.ToEmit());
      items := items + [item.value];
      item := state.Next();
    }
  }

  /** A body cut into chunks anyhow means what it means delivered in one piece. */
  lemma ChunkingInvariance<T>(decode: Decoder<T>, body: seq<Event>)
    ensures Meaning(decode, body) == Meaning(decode, InOnePiece(body))
  {
    var ending := if EndsCleanly(body) then [] else [TransportError];
    assert InOnePiece(body)[1..] == ending;
    assert Received(ending) == [] && EndsCleanly(ending) == EndsCleanly(body);
    assert Received(InOnePiece(body)) == Received(body) + [] == Received(body);
    assert EndsCleanly(InOnePiece(body)) == EndsCleanly(body);
  }

  function InOnePiece(body: seq<Event>): seq<Event> {
    [Chunk(Received(body))] + if EndsCleanly(body) then [] else [TransportError]
  }

  /** Cutting one chunk in two, anywhere in a body, changes nothing. */
  lemma RecuttingInvariance<T>(decode: Decoder<T>, before: seq<Event>, a: Bytes, b: Bytes, after: seq<Event>)
    ensures Meaning(decode, before + [Chunk(a + b)] + after) == Meaning(decode, before + [Chunk(a), Chunk(b)] + after)
  {
    Recut(before, a, b, after);
  }

  lemma {:induction false} Recut(before: seq<Event>, a: Bytes, b: Bytes, after: seq<Event>)
    ensures Received(before + [Chunk(a + b)] + after) == Received(before + [Chunk(a), Chunk(b)] + after)
    ensures EndsCleanly(before + [Chunk(a + b)] + after) == EndsCleanly(before + [Chunk(a), Chunk(b)] + after)
  {
    var whole, cut := before + [Chunk(a + b)] + after, before + [Chunk(a), Chunk(b)] + after;
    if before == [] {
      assert whole[1..] == after && cut[1..] == [Chunk(b)] + after && cut[1..][1..] == after;
      Reassociate(a, b, Received(after));
    } else {
      assert whole[1..] == before[1..] + [Chunk(a + b)] + after;
      assert cut[1..] == before[1..] + [Chunk(a), Chunk(b)] + after;
      Recut(before[1..], a, b, after);
    }
  }

  // ---------------------------------------------------------------- encoding

  /** `StreamEncode::encode`, given the item's JSON. */
  function Encode<T>(json: T -> Bytes, item: T): Bytes {
    json(item) + [NEWLINE]
  }

  function EncodeAll<T>(json: T -> Bytes, items: seq<T>): Bytes {
    if items == [] then [] else Encode(json, items[0]) + EncodeAll(json, items[1..])
  }

  /** Items that fit the framing and that the decoder inverts. */
  ghost predicate Framable<T>(decode: Decoder<T>, json: T -> Bytes, item: T) {
    && json(item) != []
    && NEWLINE !in json(item)
    && |json(item)| <= MAX_LINE_BYTES
    && decode(json(item)) == Some(item)
  }

  /** Encoding then decoding is the identity, however the bytes are cut into chunks, and even if the
    * transport fails after the last byte. */
  lemma {:induction false} RoundTrip<T>(decode: Decoder<T>, json: T -> Bytes, items: seq<T>, body: seq<Event>)
    requires forall item <- items :: Framable(decode, json, item)
    requires Received(body) == EncodeAll(json, items)
    ensures Meaning(decode, body) == items
  {
    LinesOfEncoding(decode, json, items, EndsCleanly(body));
  }

  lemma EncodedLine(text: Bytes, rest: Bytes, clean: bool)
    requires text != [] && NEWLINE !in text
    ensures Lines(text + [NEWLINE] + rest, clean) == [text] + Lines(rest, clean)
  {
    LineEndMeaning(text);
    LineEndAppend(text, [NEWLINE]);
    var line := text + [NEWLINE];
    assert LineEnd(text) == |text|;
    FirstLine(line, rest, clean);
    assert line[..|text|] == text && line[|text| + 1..] == [] && [] + rest == rest;
  }

  lemma {:induction false} LinesOfEncoding<T>(decode: Decoder<T>, json: T -> Bytes, items: seq<T>, clean: bool)
    requires forall item <- items :: Framable(decode, json, item)
    ensures Items(decode, Lines(EncodeAll(json, items), clean)) == items
  {
    if items != [] {
      assert items[0] in items;
      var text, rest := json(items[0]), EncodeAll(json, items[1..]);
      EncodedLine(text, rest, clean);
      ItemsCons(decode, text, Lines(rest, clean));
      LinesOfEncoding(decode, json, items[1..], clean);
      assert items == [items[0]] + items[1..];
    }
  }

  // ---------------------------------------------------------------- limits

  /** Whether `total` bytes are within `max`, where 0 means unlimited. The running total saturates, so
    * the largest limit is never exceeded either. */
  predicate Within(total: nat, max: nat) {
    max == 0 || max == USIZE_MAX || total <= max
  }

  function Size(e: Event): nat {
    if e.Chunk? then |e.bytes| else 0
  }

  function TotalSize(events: seq<Event>): nat {
    if events == [] then 0 else TotalSize(events[..|events| - 1]) + Size(events[|events| - 1])
  }

  /** The bytes of all chunks, those after a transport error included. */
  function AllBytes(events: seq<Event>): Bytes {
    if events == [] then []
    else (if events[0].Chunk? then events[0].bytes else []) + AllBytes(events[1..])
  }

  lemma {:induction false} AllBytesSnoc(events: seq<Event>, e: Event)
    ensures AllBytes(events + [e]) == AllBytes(events) + if e.Chunk? then e.bytes else []
  {
    if events == [] {
      assert events + [e] == [e] && [e][1..] == [];
    } else {
      assert (events + [e])[0] == events[0] && (events + [e])[1..] == events[1..] + [e];
      AllBytesSnoc(events[1..], e);
    }
  }

  /** The total counts bytes, of every chunk there is; */
  lemma {:induction false} TotalSizeCounts(events: seq<Event>)
    ensures TotalSize(events) == |AllBytes(events)|
  {
    if events != [] {
      var last := |events| - 1;
      TotalSizeCounts(events[..last]);
      AllBytesSnoc(events[..last], events[last]);
      assert events == events[..last] + [events[last]];
    }
  }

  /** which are the bytes received if no chunk comes after a transport error. */
  lemma {:induction false} AllReceived(events: seq<Event>)
    ensures Received(events) <= AllBytes(events)
    ensures EndsCleanly(events) ==> Received(events) == AllBytes(events)
  {
    if events != [] && events[0].Chunk? {
      AllReceived(events[1..]);
    }
  }

  /** Nothing after a transport error is received, and the body does not end cleanly. */
  lemma {:induction false} ErrorEndsReception(before: seq<Event>, after: seq<Event>)
    requires forall e <- before :: e.Chunk?
    ensures Received(before + [TransportError] + after) == AllBytes(before)
    ensures !EndsCleanly(before + [TransportError] + after)
    ensures Received(before) == AllBytes(before) && EndsCleanly(before)
  {
    var body := before + [TransportError] + after;
    if before == [] {
      assert body[0] == TransportError;
    } else {
      assert before[0] in before && body[0] == before[0];
      assert body[1..] == before[1..] + [TransportError] + after;
      ErrorEndsReception(before[1..], after);
    }
  }

  /** What a byte limit lets through, in bytes. */
  ghost predicate CutAtLimit(body: seq<Event>, maxBytes: nat, limited: seq<Event>) {
    && limited <= body
    && (maxBytes == 0 ==> limited == body)
    && (0 < maxBytes < USIZE_MAX ==> |AllBytes(limited)| <= maxBytes && |Received(limited)| <= maxBytes)
    && (0 < maxBytes < USIZE_MAX && |limited| < |body| ==> |AllBytes(body[..|limited| + 1])| > maxBytes)
    && (0 < maxBytes < USIZE_MAX && |limited| < |body| && EndsCleanly(body[..|limited| + 1]) ==>
          |Received(body[..|limited| + 1])| > maxBytes)
  }

  lemma LimitCutsBytes(body: seq<Event>, maxBytes: nat, limited: seq<Event>)
    requires limited <= body && Within(TotalSize(limited), maxBytes)
    requires |limited| < |body| ==> !Within(TotalSize(body[..|limited| + 1]), maxBytes)
    ensures CutAtLimit(body, maxBytes, limited)
  {
    TotalSizeCounts(limited);
    AllReceived(limited);
    if |limited| < |body| {
      TotalSizeCounts(body[..|limited| + 1]);
      AllReceived(body[..|limited| + 1]);
    } else {
      assert limited == body;
    }
  }

  /** `limit_request_body_until` without a deadline: the longest prefix of the events whose chunks fit
    * the byte limit. */
  method LimitRequestBody(body: seq<Event>, maxBytes: nat) returns (limited: seq<Event>)
    requires maxBytes <= USIZE_MAX
    ensures limited <= body
    ensures forall k :: 0 <= k <= |limited| ==> Within(TotalSize(body[..k]), maxBytes)
    ensures |limited| < |body| ==> !Within(TotalSize(body[..|limited| + 1]), maxBytes)
    ensures CutAtLimit(body, maxBytes, limited)
  {
    var total := 0;
    for i := 0 to |body|
      invariant total == if TotalSize(body[..i]) <= USIZE_MAX then TotalSize(body[..i]) else USIZE_MAX
      invariant forall k :: 0 <= k <= i ==> Within(TotalSize(body[..k]), maxBytes)
    {
      assert body[..i + 1][..i] == body[..i];
      if body[i].Chunk? {
        total := SaturatingAdd(total, |body[i].bytes|);
        if maxBytes > 0 && total > maxBytes {
          assert body[..i] <= body;
          LimitCutsBytes(body, maxBytes, body[..i]);
          return body[..i];
        }
      }
    }
    assert body[..|body|] == body;
    LimitCutsBytes(body, maxBytes, body);
    limited := body;
  }

  /** `limit_decoded_items_until` without a deadline: the first `maxItems` items, where 0 means all. */
  method LimitDecodedItems<T>(items: seq<T>, maxItems: nat) returns (limited: seq<T>)
    ensures limited == if maxItems > 0 && maxItems < |items| then items[..maxItems] else items
  {
    var emitted := 0;
    limited := [];
    while !(maxItems > 0 && emitted >= maxItems) && emitted < |items|
      invariant emitted <= |items| && limited == items[..emitted]
      invariant maxItems > 0 ==> emitted <= maxItems
    {
      limited := limited + [items[emitted]];
      emitted := emitted + 1;
    }
    assert items[..|items|] == items;
  }

  /** The longest prefix of the events within the limit, as a function. */
  function WithinLimit(body: seq<Event>, maxBytes: nat, k: nat): seq<Event>
    requires k <= |body|
    decreases |body| - k
  {
    if k == |body| || !Within(TotalSize(body[..k + 1]), maxBytes) then body[..k]
    else WithinLimit(body, maxBytes, k + 1)
  }

  function Limited(body: seq<Event>, maxBytes: nat): seq<Event> {
    WithinLimit(body, maxBytes, 0)
  }

  function FirstItems<T>(items: seq<T>, maxItems: nat): seq<T> {
    if maxItems > 0 && maxItems < |items| then items[..maxItems] else items
  }

  lemma {:induction false} LimitedIsLongest(body: seq<Event>, maxBytes: nat, n: nat, k: nat)
    requires k <= n <= |body|
    requires forall i :: 0 <= i <= n ==> Within(TotalSize(body[..i]), maxBytes)
    requires n < |body| ==> !Within(TotalSize(body[..n + 1]), maxBytes)
    ensures WithinLimit(body, maxBytes, k) == body[..n]
    decreases n - k
  {
    if k < n {
      LimitedIsLongest(body, maxBytes, n, k + 1);
    }
  }

  /** `limited_ndjson_decode` without a deadline: the first items decoded from the longest prefix of the
    * body within the byte limit. A cut reads as a clean end. */
  method LimitedNdjsonDecode<T>(decode: Decoder<T>, body: seq<Event>, maxBytes: nat, maxItems: nat)
    returns (items: seq<T>)
    requires maxBytes <= USIZE_MAX
    ensures items == FirstItems(Meaning(decode, Limited(body, maxBytes)), maxItems)
    ensures CutAtLimit(body, maxBytes, Limited(body, maxBytes))
  {
    var limited := LimitRequestBody(body, maxBytes);
    LimitedIsLongest(body, maxBytes, |limited|, 0);
    assert limited == body[..|limited|];
    var decoded := NdjsonDecode(decode, limited);
    items := LimitDecodedItems(decoded, maxItems);
  }

  // ---------------------------------------------------------------- what a byte limit does to the items

  /** The unterminated last piece. */
  function Tail(bytes: Bytes): (t: Bytes)
    decreases |bytes|
  {
    if LineEnd(bytes) < |bytes| then Tail(AfterNewline(bytes)) else bytes
  }

  /** Bytes that arrive later can only complete the last piece. */
  lemma {:induction false} LinesSplit(kept: Bytes, later: Bytes, clean: bool)
    ensures Lines(kept + later, clean) == Lines(kept, false) + Lines(Tail(kept) + later, clean)
    decreases |kept|
  {
    if LineEnd(kept) < |kept| {
      var rest := AfterNewline(kept);
      FirstLine(kept, later, clean);
      LinesSplit(rest, later, clean);
      assert Tail(kept) == Tail(rest);
      Reassociate(FirstPiece(kept), Lines(rest, false), Lines(Tail(rest) + later, clean));
    }
  }

  lemma Reassociate<T>(a: seq<T>, b: seq<T>, c: seq<T>)
    ensures a + (b + c) == a + b + c
  {
  }

  lemma PrefixCancels<T>(front: seq<T>, a: seq<T>, b: seq<T>)
    ensures front + a <= front + b <==> a <= b
  {
    if front + a <= front + b {
      forall i | 0 <= i < |a| ensures a[i] == b[i] {
        assert (front + a)[|front| + i] == (front + b)[|front| + i];
      }
    }
  }

  lemma {:induction false} TailHasNoNewline(bytes: Bytes)
    ensures LineEnd(Tail(bytes)) == |Tail(bytes)|
    decreases |bytes|
  {
    var n := LineEnd(bytes);
    if n < |bytes| {
      TailHasNoNewline(bytes[n + 1..]);
    }
  }

  ghost predicate AllGood<T>(decode: Decoder<T>, lines: seq<Bytes>) {
    |Items(decode, lines)| == |lines|
  }

  lemma {:induction false} ItemsAppend<T>(decode: Decoder<T>, a: seq<Bytes>, b: seq<Bytes>)
    ensures Items(decode, a + b) == if AllGood(decode, a) then Items(decode, a) + Items(decode, b) else Items(decode, a)
  {
    if a == [] {
      assert a + b == b && [] + Items(decode, b) == Items(decode, b);
    } else {
      var rest := a[1..];
      assert a + b == [a[0]] + (rest + b);
      ItemsCons(decode, a[0], rest + b);
      ItemsMeaning(decode, rest);
      ItemsAppend(decode, rest, b);
      if Good(decode, a[0]) {
        var item := [decode(a[0]).value];
        assert item + (Items(decode, rest) + Items(decode, b)) == item + Items(decode, rest) + Items(decode, b);
      }
    }
  }

  lemma {:induction false} ReceivedAppend(a: seq<Event>, b: seq<Event>)
    requires EndsCleanly(a)
    ensures Received(a + b) == Received(a) + Received(b)
    ensures EndsCleanly(a + b) == EndsCleanly(b)
  {
    if a == [] {
      assert a + b == b && Received(a) + Received(b) == Received(b);
    } else {
      assert (a + b)[1..] == a[1..] + b;
      ReceivedAppend(a[1..], b);
      Reassociate(a[0].bytes, Received(a[1..]), Received(b));
    }
  }

  lemma ReceivedSplit(body: seq<Event>, k: nat)
    requires k <= |body| && EndsCleanly(body[..k])
    ensures Received(body) == Received(body[..k]) + Received(body[k..])
    ensures EndsCleanly(body) == EndsCleanly(body[k..])
  {
    assert body == body[..k] + body[k..];
    ReceivedAppend(body[..k], body[k..]);
  }

  /** A byte limit that cuts the body after `k` chunks normally shortens the item stream, but it also
    * offers the partial last line to the decoder. The limited items are a prefix of the unlimited ones
    * exactly when an earlier line already ended both, or the cut falls on a line boundary, or the
    * partial line is no item, or it is the very item that the completed line would have been. */
  lemma LimitKeepsPrefix<T>(decode: Decoder<T>, body: seq<Event>, k: nat)
    requires k <= |body| && EndsCleanly(body[..k])
    ensures var kept, later := Received(body[..k]), Received(body[k..]);
            Meaning(decode, body[..k]) <= Meaning(decode, body) <==>
              CutIsHarmless(decode, kept, later, EndsCleanly(body))
  {
    ReceivedSplit(body, k);
    CutKeepsPrefix(decode, Received(body[..k]), Received(body[k..]), EndsCleanly(body));
  }

  /** The partial last line that a cut offers to the decoder yields nothing new. */
  ghost predicate CutIsHarmless<T>(decode: Decoder<T>, kept: Bytes, later: Bytes, clean: bool) {
    || !AllGood(decode, Lines(kept, false))
    || Tail(kept) == []
    || !Good(decode, Tail(kept))
    || (var completed := Items(decode, Lines(Tail(kept) + later, clean));
        completed != [] && completed[0] == decode(Tail(kept)).value)
  }

  /** The items before and after a cut share those of the complete lines; the cut adds one at most. */
  lemma CutShape<T>(decode: Decoder<T>, kept: Bytes, later: Bytes, clean: bool)
    ensures var lines, tail := Lines(kept, false), Tail(kept);
            var front := Items(decode, lines);
            var a := if tail == [] then [] else Then(Item(decode, tail), []);
            && Items(decode, Lines(kept, true)) == (if AllGood(decode, lines) then front + a else front)
            && Items(decode, Lines(kept + later, clean))
               == (if AllGood(decode, lines) then front + Items(decode, Lines(tail + later, clean)) else front)
  {
    var lines, tail := Lines(kept, false), Tail(kept);
    LinesSplit(kept, later, clean);
    LinesSplit(kept, [], true);
    assert kept + [] == kept;
    TailHasNoNewline(kept);
    LastLine(tail, true);
    ItemsCons(decode, tail, []);
    ItemsAppend(decode, lines, Lines(tail + later, clean));
    ItemsAppend(decode, lines, Lines(tail + [], true));
  }

  /** The same on bytes: `kept` arrived before the cut, `later` would have come after it. */
  lemma CutKeepsPrefix<T>(decode: Decoder<T>, kept: Bytes, later: Bytes, clean: bool)
    ensures Items(decode, Lines(kept, true)) <= Items(decode, Lines(kept + later, clean)) <==>
              CutIsHarmless(decode, kept, later, clean)
  {
    var front, tail := Items(decode, Lines(kept, false)), Tail(kept);
    var partial := if tail == [] then [] else Then(Item(decode, tail), []);
    CutShape(decode, kept, later, clean);
    PrefixCancels(front, partial, Items(decode, Lines(tail + later, clean)));
  }

  /** With an item limit as well: cutting the items off before the partial line's also makes it harmless. */
  lemma CutItemsKeepPrefix<T>(decode: Decoder<T>, kept: Bytes, later: Bytes, clean: bool, maxItems: nat)
    ensures FirstItems(Items(decode, Lines(kept, true)), maxItems) <= Items(decode, Lines(kept + later, clean)) <==>
              0 < maxItems <= |Items(decode, Lines(kept, false))| || CutIsHarmless(decode, kept, later, clean)
  {
    var front := Items(decode, Lines(kept, false));
    var cut, whole := Items(decode, Lines(kept, true)), Items(decode, Lines(kept + later, clean));
    CutShape(decode, kept, later, clean);
    CutKeepsPrefix(decode, kept, later, clean);
    assert front <= cut && front <= whole && |cut| <= |front| + 1;
    if 0 < maxItems <= |front| {
      assert FirstItems(cut, maxItems) == front[..maxItems];
    } else {
      assert FirstItems(cut, maxItems) == cut;
    }
  }

  lemma {:induction false} LimitedIsPrefix(body: seq<Event>, maxBytes: nat, k: nat) returns (n: nat)
    requires k <= |body|
    ensures n <= |body| && WithinLimit(body, maxBytes, k) == body[..n]
    decreases |body| - k
  {
    if k == |body| || !Within(TotalSize(body[..k + 1]), maxBytes) {
      n := k;
    } else {
      n := LimitedIsPrefix(body, maxBytes, k + 1);
    }
  }

  /** Nothing after a transport error counts. */
  lemma {:induction false} ErrorEndsBody(body: seq<Event>, k: nat)
    requires k <= |body| && !EndsCleanly(body[..k])
    ensures Received(body) == Received(body[..k]) && !EndsCleanly(body)
  {
    assert k > 0 && body[..k][0] == body[0] && body[..k][1..] == body[1..][..k - 1];
    if body[0].Chunk? {
      ErrorEndsBody(body[1..], k - 1);
    }
  }

  /** What the limited decoder emits, limits of 0 included, is a prefix of what the unlimited one emits
    * exactly when a transport error ended the body before the cut, the item limit stopped before the
    * partial last line, or that line yields nothing new. */
  lemma LimitedDecodeKeepsPrefix<T>(decode: Decoder<T>, body: seq<Event>, maxBytes: nat, maxItems: nat)
    ensures var limited := Limited(body, maxBytes);
            var kept := Received(limited);
            && limited <= body
            && (FirstItems(Meaning(decode, limited), maxItems) <= Meaning(decode, body) <==>
                  || !EndsCleanly(limited)
                  || 0 < maxItems <= |Items(decode, Lines(kept, false))|
                  || CutIsHarmless(decode, kept, Received(body[|limited|..]), EndsCleanly(body)))
  {
    var k := LimitedIsPrefix(body, maxBytes, 0);
    if EndsCleanly(body[..k]) {
      ReceivedSplit(body, k);
      CutItemsKeepPrefix(decode, Received(body[..k]), Received(body[k..]), EndsCleanly(body), maxItems);
    } else {
      ErrorEndsBody(body, k);
    }
  }

  /** So a limit can make items appear that the unlimited stream never yields. */
  lemma CutCanInventItems(decode: Decoder<nat>)
    requires decode([49]) == Some(1) && decode([49, 50]) == Some(12)
    ensures var body := [Chunk([49]), Chunk([50, NEWLINE])];
            !(Meaning(decode, Limited(body, 1)) <= Meaning(decode, body))
  {
    var body := [Chunk([49]), Chunk([50, NEWLINE])];
    assert body[..1][..0] == [] && body[..1] == [Chunk([49])] && body[..0] == [];
    assert body[..2][..1] == body[..1] && body[..2] == body;
    assert TotalSize(body[..1]) == 1 && TotalSize(body[..2]) == 3;
    LimitedIsLongest(body, 1, 1, 0);
    var kept: Bytes, later: Bytes := [49], [50, NEWLINE];
    assert body[..1][1..] == [] && body[1..] == [Chunk(later)] && body[1..][1..] == [];
    assert Received(body[..1]) == kept + [] == kept;
    assert Received(body[1..]) == later + [] == later;
    assert Received(body) == kept + later == [49, 50, NEWLINE];
    assert LineEnd([]) == 0;
    assert kept[1..] == [] && LineEnd(kept) == 1;
    LastLine(kept, true);
    ItemsCons(decode, kept, []);
    var all: Bytes := [49, 50, NEWLINE];
    assert all[1..] == later && later[1..] == [NEWLINE] && LineEnd([NEWLINE]) == 0;
    assert LineEnd(all) == 2 && all[..2] == [49, 50] && all[3..] == [];
    assert Lines([], true) == [];
    assert Lines(all, true) == [[49, 50]] + [];
    ItemsCons(decode, [49, 50], []);
    assert Items(decode, []) == [];
    assert EndsCleanly(body[..1]) && EndsCleanly(body[1..]) && EndsCleanly(body);
    assert Meaning(decode, body[..1]) == [1];
    assert Meaning(decode, body) == [12];
    assert Limited(body, 1) == body[..1];
    assert [1][0] != [12][0];
  }
}
