/**
 * The browser script's handler for frames pushed over the webhook WebSocket.
 * An image arrives as a JSON `binary_start` frame, then binary chunks, then a
 * JSON `binary_end` frame naming the same transfer; a JSON frame with a text
 * is either an image in Base64 form (the older protocol) or a plain message.
 */
module BinaryReceiver {
  import opened Common
  import Validators

  /** The fields of a JSON frame the handler reads; None where a field is absent. */
  datatype JsonMessage = JsonMessage(
    kind: Option<string>,        // `type`
    dataType: Option<string>,    // `data_type`
    transferId: Option<string>,  // `transfer_id`
    filename: Option<string>,
    size: Option<int>,
    contentType: Option<string>, // `content_type`
    text: Option<string>)        // `message`

  /** A frame: a binary chunk (a Blob), a JSON text, or a text `JSON.parse` rejects. */
  datatype Frame = Binary(chunk: seq<Byte>) | Json(msg: JsonMessage) | Malformed

  /** `binaryTransfer` while a transfer is active. */
  datatype Transfer = Transfer(transferId: Option<string>, filename: Option<string>, contentType: string,
                               totalSize: Option<int>, receivedSize: int, chunks: seq<seq<Byte>>)

  /** What a frame makes the handler do, beyond updating the transfer. */
  datatype Action =
    | Nothing                                                  // nothing to show, or an ignored frame
    | Collected                                                // a chunk was added to the transfer
    | Started                                                  // a transfer began
    | CompletedImage(contentType: string, image: seq<Byte>, filename: Option<string>)  // the chunks, joined, go to the clipboard
    | CompletedEmpty(filename: Option<string>)                 // the "no data received" warning
    | LegacyImage(text: string)                                // a Base64 image text goes to the clipboard
    | TextMessage(text: string)                                // copied, inserted into the editor and logged

  /** The chunks joined in their order, as `new Blob(dataChunks)`. */
  function Join(chunks: seq<seq<Byte>>): (r: seq<Byte>)
    ensures |r| == TotalSize(chunks)
  {
    if chunks == [] then [] else chunks[0] + Join(chunks[1..])
  }

  /** The sum of the chunk sizes. */
  function TotalSize(chunks: seq<seq<Byte>>): nat {
    if chunks == [] then 0 else |chunks[0]| + TotalSize(chunks[1..])
  }

  /** `content_type || 'image/jpeg'`. */
  function ContentTypeOrDefault(contentType: Option<string>): string {
    if contentType.Some? && contentType.value != "" then contentType.value else "image/jpeg"
  }

  /** A non-empty string field (JavaScript truthiness of a string). */
  predicate Truthy(s: Option<string>) {
    s.Some? && s.value != ""
  }

  /**
   * One call of `onmessage`: the transfer afterwards and what was done. A
   * chunk joins an active transfer and is ignored otherwise; `binary_start`
   * with `data_type` `image` replaces whatever transfer is active; a
   * `binary_end` whose `transfer_id` equals the active one's completes it. Any
   * other JSON frame, including a `binary_end` for another transfer, is read
   * as a Base64 image or a text message and leaves the transfer alone.
   */
  function Step(t: Option<Transfer>, f: Frame): (r: (Option<Transfer>, Action))
    ensures (r.1.CompletedImage? || r.1.CompletedEmpty?) ==> t.Some? && r.0.None?
    ensures r.1.CompletedImage? ==> |r.1.image| == TotalSize(t.value.chunks)
    ensures (r.1.Nothing? || r.1.LegacyImage? || r.1.TextMessage?) ==> r.0 == t
    ensures r.1.Collected? ==> f.Binary? && t.Some? && r.0.Some? && r.0.value.transferId == t.value.transferId
                               && r.0.value.chunks == t.value.chunks + [f.chunk]
    ensures r.1.Started? ==> r.0.Some? && r.0.value.chunks == [] && r.0.value.receivedSize == 0
  {
    match f
    case Malformed => (t, Nothing)
    case Binary(chunk) =>
      if t.Some? then
        (Some(t.value.(chunks := t.value.chunks + [chunk], receivedSize := t.value.receivedSize + |chunk|)), Collected)
      else (t, Nothing)
    case Json(m) =>
      if m.kind == Some("binary_start") && m.dataType == Some("image") then
        (Some(Transfer(m.transferId, m.filename, ContentTypeOrDefault(m.contentType), m.size, 0, [])), Started)
      else if m.kind == Some("binary_end") && t.Some? && t.value.transferId == m.transferId then
        if |t.value.chunks| > 0 then (None, CompletedImage(t.value.contentType, Join(t.value.chunks), t.value.filename))
        else (None, CompletedEmpty(t.value.filename))
      else if Truthy(m.text) && Validators.IsBase64ImageString(m.text) then (t, LegacyImage(m.text.value))
      else if Truthy(m.text) then (t, TextMessage(m.text.value))
      else (t, Nothing)
  }

  /** The actions and final transfer of a run of frames. */
  function Run(t: Option<Transfer>, frames: seq<Frame>): (Option<Transfer>, seq<Action>)
    decreases |frames|
  {
    if frames == [] then (t, [])
    else
      var first := Step(t, frames[0]);
      var rest := Run(first.0, frames[1..]);
      (rest.0, [first.1] + rest.1)
  }

  /** `receivedSize` stays the sum of the sizes of the collected chunks. */
  predicate SizeConsistent(t: Option<Transfer>) {
    t.Some? ==> t.value.receivedSize == TotalSize(t.value.chunks)
  }

  /** Adding one chunk adds its size. */
  lemma {:induction false} TotalSizeAppend(chunks: seq<seq<Byte>>, c: seq<Byte>)
    ensures TotalSize(chunks + [c]) == TotalSize(chunks) + |c|
  {
    if chunks != [] {
      TotalSizeAppend(chunks[1..], c);
      assert (chunks + [c])[1..] == chunks[1..] + [c];
    }
  }

  /** Every frame keeps `receivedSize` equal to the size of what was collected. */
  lemma StepKeepsSize(t: Option<Transfer>, f: Frame)
    requires SizeConsistent(t)
    ensures SizeConsistent(Step(t, f).0)
  {
    if f.Binary? && t.Some? {
      TotalSizeAppend(t.value.chunks, f.chunk);
    }
  }

  /** `binary_start` for an image opens a new, empty transfer, whatever was active; the content type defaults to `image/jpeg`. */
  lemma StartOpensEmpty(t: Option<Transfer>, m: JsonMessage)
    requires m.kind == Some("binary_start") && m.dataType == Some("image")
    ensures var (t1, a) := Step(t, Json(m));
      a == Started && t1.Some? && t1.value.receivedSize == 0 && t1.value.chunks == []
      && t1.value.transferId == m.transferId
      && t1.value.contentType == (if m.contentType.Some? && m.contentType.value != "" then m.contentType.value else "image/jpeg")
  {
  }

  /** A chunk without an active transfer is ignored. */
  lemma StrayChunkIgnored(chunk: seq<Byte>)
    ensures Step(None, Binary(chunk)) == (None, Nothing)
  {
  }

  /** The chunks of a run of binary frames. */
  function Chunks(cs: seq<seq<Byte>>): (r: seq<Frame>)
    ensures |r| == |cs| && forall i :: 0 <= i < |cs| ==> r[i] == Binary(cs[i])
  {
    if cs == [] then [] else [Binary(cs[0])] + Chunks(cs[1..])
  }

  /** The transfer after the chunks `cs` were collected into it. */
  function Collect(t: Transfer, cs: seq<seq<Byte>>): Transfer {
    t.(chunks := t.chunks + cs, receivedSize := t.receivedSize + TotalSize(cs))
  }

  /** `n` times the same action. */
  function Repeat(a: Action, n: nat): (r: seq<Action>)
    ensures |r| == n && forall i :: 0 <= i < n ==> r[i] == a
  {
    if n == 0 then [] else [a] + Repeat(a, n - 1)
  }

  /** A run starting with one frame. */
  lemma RunCons(t: Option<Transfer>, f: Frame, frames: seq<Frame>)
    ensures var first := Step(t, f); var rest := Run(first.0, frames);
      Run(t, [f] + frames) == (rest.0, [first.1] + rest.1)
  {
    assert ([f] + frames)[0] == f;
    assert ([f] + frames)[1..] == frames;
  }

  /** One chunk into an active transfer. */
  lemma StepChunk(t: Transfer, c: seq<Byte>)
    ensures Step(Some(t), Binary(c)) == (Some(Collect(t, [c])), Collected)
  {
    assert TotalSize([c]) == |c| + TotalSize([c][1..]);
  }

  /** Collecting one chunk, then the rest, is collecting all of them. */
  lemma CollectCons(t: Transfer, cs: seq<seq<Byte>>)
    requires cs != []
    ensures Collect(Collect(t, [cs[0]]), cs[1..]) == Collect(t, cs)
  {
    assert t.chunks + [cs[0]] + cs[1..] == t.chunks + cs;
    assert TotalSize([cs[0]]) == |cs[0]| + TotalSize([cs[0]][1..]);
  }

  /** A run of chunks into an active transfer collects all of them, in order, and adds their sizes. */
  lemma {:induction false} ChunksCollected(t: Transfer, cs: seq<seq<Byte>>)
    ensures Run(Some(t), Chunks(cs)) == (Some(Collect(t, cs)), Repeat(Collected, |cs|))
    decreases |cs|
  {
    if cs == [] {
      assert t.chunks + cs == t.chunks;
      assert Collect(t, cs) == t;
    } else {
      assert Chunks(cs) == [Binary(cs[0])] + Chunks(cs[1..]);
      RunCons(Some(t), Binary(cs[0]), Chunks(cs[1..]));
      StepChunk(t, cs[0]);
      ChunksCollected(Collect(t, [cs[0]]), cs[1..]);
      CollectCons(t, cs);
      assert Repeat(Collected, |cs|) == [Collected] + Repeat(Collected, |cs[1..]|);
    }
  }

  /** Joining two runs of chunks is joining each. */
  lemma {:induction false} JoinConcat(a: seq<seq<Byte>>, b: seq<seq<Byte>>)
    ensures Join(a + b) == Join(a) + Join(b)
  {
    if a == [] {
      assert a + b == b;
    } else {
      assert (a + b)[1..] == a[1..] + b;
      JoinConcat(a[1..], b);
    }
  }

  /** Sizes of two runs of chunks add up. */
  lemma {:induction false} TotalSizeConcat(a: seq<seq<Byte>>, b: seq<seq<Byte>>)
    ensures TotalSize(a + b) == TotalSize(a) + TotalSize(b)
  {
    if a == [] {
      assert a + b == b;
    } else {
      assert (a + b)[1..] == a[1..] + b;
      TotalSizeConcat(a[1..], b);
    }
  }

  /** Collecting keeps `receivedSize` the size of what was collected, and the joined image is the old one followed by the new chunks. */
  lemma CollectConsistent(t: Transfer, cs: seq<seq<Byte>>)
    requires SizeConsistent(Some(t))
    ensures SizeConsistent(Some(Collect(t, cs)))
    ensures Join(Collect(t, cs).chunks) == Join(t.chunks) + Join(cs)
  {
    TotalSizeConcat(t.chunks, cs);
    JoinConcat(t.chunks, cs);
  }

  /** Running a frame after a run. */
  lemma {:induction false} RunAppend(t: Option<Transfer>, frames: seq<Frame>, f: Frame)
    ensures var r := Run(t, frames);
      Run(t, frames + [f]) == (Step(r.0, f).0, r.1 + [Step(r.0, f).1])
    decreases |frames|
  {
    if frames == [] {
      RunCons(t, f, []);
      assert [f] + [] == [f] == frames + [f];
      assert [Step(t, f).1] + [] == [] + [Step(t, f).1];
    } else {
      var first := Step(t, frames[0]);
      assert frames + [f] == [frames[0]] + (frames[1..] + [f]);
      assert frames == [frames[0]] + frames[1..];
      RunCons(t, frames[0], frames[1..] + [f]);
      RunCons(t, frames[0], frames[1..]);
      RunAppend(first.0, frames[1..], f);
      var rest := Run(first.0, frames[1..]);
      assert [first.1] + (rest.1 + [Step(rest.0, f).1]) == ([first.1] + rest.1) + [Step(rest.0, f).1];
    }
  }

  /** The last step of a whole transfer: the matching `binary_end` on the filled transfer. */
  lemma EndCompletes(open: Transfer, cs: seq<seq<Byte>>, end: JsonMessage)
    requires open.chunks == [] && end.kind == Some("binary_end") && end.transferId == open.transferId
    ensures Step(Some(Collect(open, cs)), Json(end))
      == (None, if cs == [] then CompletedEmpty(open.filename) else CompletedImage(open.contentType, Join(cs), open.filename))
  {
    assert Collect(open, cs).chunks == cs;
  }

  /**
   * A whole transfer: `binary_start`, the chunks, then the matching
   * `binary_end` deliver the chunks joined in arrival order under the announced
   * content type, or the "no data" warning when no chunk came, and leave no
   * transfer active.
   */
  lemma WholeTransfer(t: Option<Transfer>, start: JsonMessage, cs: seq<seq<Byte>>, end: JsonMessage)
    requires start.kind == Some("binary_start") && start.dataType == Some("image")
    requires end.kind == Some("binary_end") && end.transferId == start.transferId
    ensures var r := Run(t, [Json(start)] + Chunks(cs) + [Json(end)]);
      r.0 == None
      && r.1 == [Started] + Repeat(Collected, |cs|)
                + [if cs == [] then CompletedEmpty(start.filename)
                   else CompletedImage(ContentTypeOrDefault(start.contentType), Join(cs), start.filename)]
  {
    var open := Transfer(start.transferId, start.filename, ContentTypeOrDefault(start.contentType), start.size, 0, []);
    var last := if cs == [] then CompletedEmpty(start.filename)
                else CompletedImage(ContentTypeOrDefault(start.contentType), Join(cs), start.filename);
    assert [Json(start)] + Chunks(cs) + [Json(end)] == [Json(start)] + (Chunks(cs) + [Json(end)]);
    RunCons(t, Json(start), Chunks(cs) + [Json(end)]);
    assert Step(t, Json(start)) == (Some(open), Started);
    ChunksCollected(open, cs);
    RunAppend(Some(open), Chunks(cs), Json(end));
    EndCompletes(open, cs, end);
    assert Run(Some(open), Chunks(cs) + [Json(end)]) == (None, Repeat(Collected, |cs|) + [last]);
  }

  /** A `binary_end` for another transfer completes nothing and leaves the active transfer as it is. */
  lemma OtherEndIgnored(t: Transfer, m: JsonMessage)
    requires m.kind == Some("binary_end") && m.transferId != t.transferId
    ensures var (t1, a) := Step(Some(t), Json(m));
      t1 == Some(t) && !a.CompletedImage? && !a.CompletedEmpty?
  {
  }

  /** A text frame that is not part of a transfer keeps the transfer; a Base64 image text goes to the clipboard, any other non-empty text is a message. */
  lemma TextFrames(t: Option<Transfer>, m: JsonMessage)
    requires m.kind != Some("binary_start") && m.kind != Some("binary_end")
    ensures var (t1, a) := Step(t, Json(m));
      t1 == t
      && (a.LegacyImage? <==> Truthy(m.text) && Validators.IsBase64ImageString(m.text))
      && (a.TextMessage? <==> Truthy(m.text) && !Validators.IsBase64ImageString(m.text))
      && (a.LegacyImage? || a.TextMessage? ==> a.text == m.text.value)
  {
  }

  /** The handler's state, `binaryTransfer` (null when None), with the handler as a method. */
  class Receiver {
    var transfer: Option<Transfer>

    constructor ()
      ensures transfer == None
    {
      transfer := None;
    }

    /** `onmessage(event)`. */
    method OnMessage(f: Frame) returns (a: Action)
      requires SizeConsistent(transfer)
      modifies this
      ensures (transfer, a) == Step(old(transfer), f)
      ensures SizeConsistent(transfer)
    {
      StepKeepsSize(transfer, f);
      match f {
        case Malformed =>
          a := Nothing;
        case Binary(chunk) =>
          if transfer.Some? {
            var cur := transfer.value;
            transfer := Some(cur.(chunks := cur.chunks + [chunk], receivedSize := cur.receivedSize + |chunk|));
            a := Collected;
          } else {
            a := Nothing;
          }
        case Json(m) =>
          if m.kind == Some("binary_start") && m.dataType == Some("image") {
            transfer := Some(Transfer(m.transferId, m.filename, ContentTypeOrDefault(m.contentType), m.size, 0, []));
            a := Started;
          } else if m.kind == Some("binary_end") && transfer.Some? && transfer.value.transferId == m.transferId {
            var done := transfer.value;
            if |done.chunks| > 0 {
              a := CompletedImage(done.contentType, Join(done.chunks), done.filename);
            } else {
              a := CompletedEmpty(done.filename);
            }
            transfer := None;
          } else if Truthy(m.text) && Validators.IsBase64ImageString(m.text) {
            a := LegacyImage(m.text.value);
          } else if Truthy(m.text) {
            a := TextMessage(m.text.value);
          } else {
            a := Nothing;
          }
      }
    }
  }
}
