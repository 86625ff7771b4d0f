/**
 * The planning and assembly steps of the document actions: the one-page chunk plan,
 * the transcript built from the model's answer for each chunk, and the message list
 * sent to the chat model. The PDF library and the model APIs are parameters.
 */
module PdfActions {
  import opened Wrappers
  import opened Messages

  // ---------------------------------------------------------------------------
  // The chunk plan
  // ---------------------------------------------------------------------------

  /** `Array.from({ length: end - start }, (_, index) => start + index)`. */
  function PageIndices(start: nat, end: nat): seq<nat>
    requires start <= end
  {
    seq(end - start, k => start + k)
  }

  function Min(a: int, b: int): int {
    if a <= b then a else b
  }

  /** The page lists of all chunks, one after the other. */
  function Flatten(chunks: seq<seq<nat>>): seq<nat> {
    if chunks == [] then [] else Flatten(chunks[..|chunks| - 1]) + chunks[|chunks| - 1]
  }

  /** The page lists copied into each chunk by `processPDFInChunks`: one entry per page,
      in page order, each holding just its own page, and together every page once. */
  method PlanChunks(pageCount: nat) returns (chunks: seq<seq<nat>>)
    ensures |chunks| == pageCount
    ensures forall i :: 0 <= i < pageCount ==> chunks[i] == [i]
    ensures Flatten(chunks) == PageIndices(0, pageCount)
  {
    chunks := [];
    var i := 0;
    while i < pageCount
      invariant 0 <= i <= pageCount
      invariant |chunks| == i
      invariant forall k :: 0 <= k < i ==> chunks[k] == [k]
      invariant Flatten(chunks) == PageIndices(0, i)
    {
      var endPage := Min(i + 1, pageCount);
      var pages := PageIndices(i, endPage);
      assert pages == [i];
      assert (chunks + [pages])[..i] == chunks;
      assert PageIndices(0, i) + [i] == PageIndices(0, i + 1);
      chunks := chunks + [pages];
      i := i + 1;
    }
  }

  // ---------------------------------------------------------------------------
  // The transcript
  // ---------------------------------------------------------------------------

  /** The separator written before each chunk's text. */
  const Separator: string := "\n-\n"

  /** The accumulated transcript: each text preceded by the separator, in order. */
  function Joined(texts: seq<string>): string {
    if texts == [] then "" else Joined(texts[..|texts| - 1]) + Separator + texts[|texts| - 1]
  }

  function TotalLength(texts: seq<string>): nat {
    if texts == [] then 0 else TotalLength(texts[..|texts| - 1]) + |texts[|texts| - 1]|
  }

  /** The transcript is three characters per chunk longer than the texts together,
      so it is empty exactly when there are no chunks. */
  lemma {:induction false} JoinedLength(texts: seq<string>)
    ensures |Joined(texts)| == TotalLength(texts) + 3 * |texts|
    ensures Joined(texts) == "" <==> texts == []
  {
    if texts != [] {
      JoinedLength(texts[..|texts| - 1]);
    }
  }

  /** Accumulation distributes over consecutive runs of chunks. */
  lemma {:induction false} JoinedAppend(a: seq<string>, b: seq<string>)
    ensures Joined(a + b) == Joined(a) + Joined(b)
    decreases |b|
  {
    if b == [] {
      assert a + b == a;
    } else {
      var b' := b[..|b| - 1];
      assert (a + b)[..|a + b| - 1] == a + b';
      JoinedAppend(a, b');
    }
  }

  /** The text of chunk `k` sits right after its own separator, which follows the
      transcript of the chunks before it. */
  lemma TextFollowsSeparator(texts: seq<string>, k: nat)
    requires k < |texts|
    ensures var o := |Joined(texts[..k])|;
            && o + 3 + |texts[k]| <= |Joined(texts)|
            && Joined(texts)[..o] == Joined(texts[..k])
            && Joined(texts)[o..o + 3] == Separator
            && Joined(texts)[o + 3..o + 3 + |texts[k]|] == texts[k]
  {
    var before, here, after := texts[..k], [texts[k]], texts[k + 1..];
    assert texts == before + here + after;
    JoinedAppend(before + here, after);
    JoinedAppend(before, here);
    assert here[..0] == [];
    var a, b, c := Joined(before), Separator + texts[k], Joined(after);
    assert Joined(here) == b;
    assert Joined(texts) == a + b + c;
    var o := |a|;
    assert (a + b + c)[..o] == a;
    assert (a + b + c)[o..o + 3] == b[..3] == Separator;
    assert (a + b + c)[o + 3..o + 3 + |texts[k]|] == b[3..] == texts[k];
  }

  /** One block of the model's answer. */
  datatype Block = TextBlock(text: string) | OtherBlock

  /** What a model call for one chunk produces: the answer's content blocks together
      with `String(response.content)`, or an exception. */
  datatype Response = Answer(content: seq<Block>, rendered: string) | CallFailed

  /** The text taken from an answer: the first block's text when it is a text block,
      the rendering of the whole content otherwise. A failed call, or an answer with
      no block to read, aborts the action. */
  function ChunkText(r: Response): Option<string> {
    match r
    case CallFailed => None
    case Answer(content, rendered) =>
      if |content| == 0 then None
      else if content[0].TextBlock? then Some(content[0].text)
      else Some(rendered)
  }

  /** The chunk texts the model yields for a document of `pageCount` pages. */
  function ChunkTexts(pageCount: nat, respond: seq<nat> -> Response): seq<Option<string>> {
    seq(pageCount, i requires 0 <= i < pageCount => ChunkText(respond([i as nat])))
  }

  predicate AllAnswered(ts: seq<Option<string>>) {
    forall i :: 0 <= i < |ts| ==> ts[i].Some?
  }

  function Values(ts: seq<Option<string>>): seq<string> {
    seq(|ts|, i requires 0 <= i < |ts| => ts[i].GetOr(""))
  }

  /** The result of the conversion action. */
  datatype Conversion = Undefined | Converted(transcript: string) | Aborted

  /** Whether the storage URL passes `if (!url)`: present and not the empty string. */
  predicate HasUrl(url: Option<string>) {
    url.Some? && url.value != ""
  }

  /** `convertPdfToText`: with no storage URL, return undefined before any work;
      otherwise ask the model for each one-page chunk in order and accumulate the
      transcript. `respond` is the model, `requests` counts its calls. */
  method ConvertPdfToText(url: Option<string>, pageCount: nat, respond: seq<nat> -> Response)
    returns (result: Conversion, requests: nat)
    ensures !HasUrl(url) <==> result.Undefined?
    ensures !HasUrl(url) ==> requests == 0
    ensures var ts := ChunkTexts(pageCount, respond);
            HasUrl(url) ==> (result.Converted? <==> AllAnswered(ts))
    ensures var ts := ChunkTexts(pageCount, respond);
            result.Converted? ==> requests == pageCount && result.transcript == Joined(Values(ts))
    ensures var ts := ChunkTexts(pageCount, respond);
            result.Aborted? ==>
              && 1 <= requests <= pageCount
              && ts[requests - 1].None?
              && AllAnswered(ts[..requests - 1])
  {
    if url.None? || url.value == "" {
      return Undefined, 0;
    }
    var chunks := PlanChunks(pageCount);
    ghost var ts := ChunkTexts(pageCount, respond);
    var transcript := "";
    requests := 0;
    var i := 0;
    while i < |chunks|
      invariant 0 <= i <= pageCount
      invariant requests == i
      invariant AllAnswered(ts[..i])
      invariant transcript == Joined(Values(ts)[..i])
    {
      requests := requests + 1;
      var text := ChunkText(respond(chunks[i]));
      assert text == ts[i];
      if text.None? {
        assert ts[..requests - 1] == ts[..i];
        return Aborted, requests;
      }
      assert Values(ts)[..i + 1][..i] == Values(ts)[..i];
      transcript := transcript + Separator + text.value;
      i := i + 1;
    }
    assert Values(ts)[..i] == Values(ts);
    assert ts[..i] == ts;
    result := Converted(transcript);
  }

  // ---------------------------------------------------------------------------
  // The chat message list
  // ---------------------------------------------------------------------------

  const SystemPrefix: string :=
    "You are a helpful AI assistant analyzing an HOA PDF document. Here is the document content:\n\n"
  const SystemSuffix: string :=
    "\n\nPlease use this content to answer questions accurately. If a question cannot be answered using the document content, please say so."

  /** The system turn's content: the fixed prefix, the transcript, the fixed suffix. */
  function SystemContent(transcript: string): string {
    SystemPrefix + transcript + SystemSuffix
  }

  /** The transcript a system turn carries, read back from between prefix and suffix. */
  function EmbeddedTranscript(content: string): Option<string> {
    if |SystemPrefix| + |SystemSuffix| <= |content|
       && content[..|SystemPrefix|] == SystemPrefix
       && content[|content| - |SystemSuffix|..] == SystemSuffix
    then Some(content[|SystemPrefix|..|content| - |SystemSuffix|])
    else None
  }

  /** The transcript placed in the system turn can be read back unchanged. */
  lemma EmbeddedTranscriptRoundTrip(transcript: string)
    ensures EmbeddedTranscript(SystemContent(transcript)) == Some(transcript)
  {
    var c := SystemContent(transcript);
    assert c[..|SystemPrefix|] == SystemPrefix;
    assert c[|c| - |SystemSuffix|..] == SystemSuffix;
    assert c[|SystemPrefix|..|c| - |SystemSuffix|] == transcript;
  }

  /** The list `chatWithPdf` sends: a system turn first when the transcript is non-empty,
      then the caller's turns. */
  function ChatMessages(transcript: string, messages: seq<Turn>): seq<Turn> {
    (if transcript != "" then [Turn(System, SystemContent(transcript))] else []) + messages
  }

  /** The caller's turns go out unchanged and in order, behind one system turn carrying
      the transcript when there is one. */
  lemma ChatMessagesShape(transcript: string, messages: seq<Turn>)
    ensures var r := ChatMessages(transcript, messages);
            && |r| == |messages| + (if transcript != "" then 1 else 0)
            && (transcript == "" ==> r == messages)
            && (transcript != "" ==>
                  && r[0].role == System
                  && EmbeddedTranscript(r[0].content) == Some(transcript)
                  && r[1..] == messages)
  {
    if transcript != "" {
      EmbeddedTranscriptRoundTrip(transcript);
      assert ChatMessages(transcript, messages)[1..] == messages;
    }
  }

  /** `getDocTranscript`: the stored transcript, or "" for a missing document. */
  function DocTranscript(doc: Option<string>): string {
    doc.GetOr("")
  }

  /** `chatWithPdf`: the model sees the message list built from the document's
      transcript; an exception anywhere becomes the action's own exception. */
  function ChatWithPdf(doc: Option<string>, messages: seq<Turn>, complete: seq<Turn> -> ChatOutcome): ChatOutcome {
    complete(ChatMessages(DocTranscript(doc), messages))
  }

  /** A missing document, or one with an empty transcript, adds no system turn. */
  lemma NoTranscriptNoSystemTurn(doc: Option<string>, messages: seq<Turn>, complete: seq<Turn> -> ChatOutcome)
    requires doc.None? || doc == Some("")
    ensures ChatWithPdf(doc, messages, complete) == complete(messages)
  {
    assert ChatMessages("", messages) == messages;
  }
}
