/** The decision structure of the bot's `messageCreate` listener (index.js).

    The listener ignores messages written by bots and messages without an
    audio attachment. Otherwise, inside one try block, it reacts with a memo
    emoji, downloads the selected attachment, uploads the bytes for
    transcription under the attachment's name (or "audio.ogg"), and replies
    with a transcript header followed by the service's text. Any rejection
    inside the try block is caught, and the catch block sends one fixed
    failure notice.

    Every awaited collaborator call is abstract: its result (fulfilled with a
    value, or rejected) is fixed in advance by a `Collaborators` value, and
    the model records the sequence of calls the listener makes. */
module Handler {
  import opened Attachments

  type Byte = bv8

  const Memo: string := "\U{1F4DD}"
  const TranscriptHeader: string := Memo + " **Transcript:**\n"
  const FailureNotice: string := "Could not transcribe that voice note."
  const DefaultUploadName: string := "audio.ogg"
  const TranscriptionModel: string := "gpt-4o-mini-transcribe"

  datatype Message = Message(authorIsBot: bool, attachments: seq<Attachment>)

  /** How an awaited promise settles. */
  datatype Settled<+T> = Fulfilled(value: T) | Rejected

  /** The downloaded response: its HTTP status and the body bytes. */
  datatype Response = Response(status: int, body: seq<Byte>)

  /** The `text` field of the transcription service's answer, as the JSON
      body has it: absent, null, or a string. */
  datatype TextField = Absent | Null | Text(s: string)

  /** The transcription service's answer. */
  datatype Transcription = Transcription(text: TextField)

  /** How each collaborator call would settle. `download` covers both the
      request and the reading of its body; `reply` is the transcript reply of
      the try block and `fallbackReply` the failure notice of the catch block. */
  datatype Collaborators = Collaborators(
    react: Settled<()>,
    download: Settled<Response>,
    transcribe: Settled<Transcription>,
    reply: Settled<()>,
    fallbackReply: Settled<()>)

  /** A call the listener makes to the platform or a service. */
  datatype Call =
    | React(emoji: string)
    | Download(url: string)
    | Transcribe(fileName: string, bytes: seq<Byte>, model: string)
    | Reply(message: string)

  /** A call made, and whether its promise was fulfilled. */
  datatype Event = Event(call: Call, fulfilled: bool)

  /** Everything one message causes: the calls in order, and whether the
      listener's own promise rejects (an error escaping the catch block). */
  datatype Outcome = Outcome(trace: seq<Event>, rejects: bool)

  /** `audio.name || "audio.ogg"`: the name under which the bytes are uploaded. */
  function UploadName(name: Option<string>): (r: string)
    ensures r != ""
    ensures name.Some? && name.value != "" ==> r == name.value
    ensures name.None? || name.value == "" ==> r == DefaultUploadName
  {
    if name.Some? && name.value != "" then name.value else DefaultUploadName
  }

  /** A template-literal substitution of the `text` field: JavaScript
      renders an absent field as `undefined` and a null one as `null`. */
  function RenderText(text: TextField): string {
    match text
    case Text(t) => t
    case Absent => "undefined"
    case Null => "null"
  }

  /** The success reply. */
  function TranscriptReply(text: TextField): string {
    TranscriptHeader + RenderText(text)
  }

  /** Inverse of the reply format: recovers the transcript from a reply, or
      None when the reply is not a transcript reply. */
  function TranscriptOf(reply: string): (r: Option<string>)
    ensures r.Some? <==> HasPrefix(reply, TranscriptHeader)
    ensures r.Some? ==> reply == TranscriptHeader + r.value
  {
    if HasPrefix(reply, TranscriptHeader) then Some(reply[|TranscriptHeader|..]) else None
  }

  /** The catch block: after the calls in `trace`, one failure notice. The
      listener's promise rejects exactly when that reply rejects. */
  function Catch(trace: seq<Event>, c: Collaborators): (o: Outcome)
    ensures |o.trace| == |trace| + 1 && o.trace[..|trace|] == trace
    ensures o.trace[|trace|].call == Reply(FailureNotice)
    ensures o.rejects <==> !o.trace[|trace|].fulfilled
  {
    Outcome(trace + [Event(Reply(FailureNotice), c.fallbackReply.Fulfilled?)], c.fallbackReply.Rejected?)
  }

  /** The try block for a selected audio attachment: each awaited call that
      rejects passes control to the catch block, so a rejected call is
      followed by the failure notice and nothing else, and only a rejected
      failure notice makes the listener reject. */
  function TranscribeAndReply(audio: Attachment, c: Collaborators): (o: Outcome)
    ensures 2 <= |o.trace| <= 5 && o.trace[0].call == React(Memo)
    ensures o.trace[|o.trace| - 1].call.Reply?
    ensures forall i :: 0 <= i < |o.trace| - 1 && !o.trace[i].fulfilled ==>
      i == |o.trace| - 2 && o.trace[i + 1].call == Reply(FailureNotice)
    ensures o.rejects <==> o.trace[|o.trace| - 1] == Event(Reply(FailureNotice), false)
  {
    var reacted := [Event(React(Memo), c.react.Fulfilled?)];
    if c.react.Rejected? then Catch(reacted, c) else
    var fetched := reacted + [Event(Download(audio.url), c.download.Fulfilled?)];
    if c.download.Rejected? then Catch(fetched, c) else
    var upload := Transcribe(UploadName(audio.name), c.download.value.body, TranscriptionModel);
    var transcribed := fetched + [Event(upload, c.transcribe.Fulfilled?)];
    if c.transcribe.Rejected? then Catch(transcribed, c) else
    var replied := transcribed + [Event(Reply(TranscriptReply(c.transcribe.value.text)), c.reply.Fulfilled?)];
    if c.reply.Rejected? then Catch(replied, c) else Outcome(replied, false)
  }

  /** The `messageCreate` listener. */
  function OnMessageCreate(msg: Message, c: Collaborators): (o: Outcome)
    ensures msg.authorIsBot ==> o == Outcome([], false)
    ensures GetAudio(msg.attachments).None? ==> o == Outcome([], false)
    ensures !msg.authorIsBot && GetAudio(msg.attachments).Some? ==>
      2 <= |o.trace| <= 5 && o.trace[0].call == React(Memo) && o.trace[|o.trace| - 1].call.Reply?
  {
    if msg.authorIsBot then Outcome([], false)
    else match GetAudio(msg.attachments)
      case None => Outcome([], false)
      case Some(audio) => TranscribeAndReply(audio, c)
  }

  // ---------------------------------------------------------------------
  // Replies of a trace
  // ---------------------------------------------------------------------

  /** The reply an event attempts, if it is a reply. */
  function AttemptedBy(e: Event): seq<string> {
    if e.call.Reply? then [e.call.message] else []
  }

  /** The reply an event delivers, if it is a fulfilled reply. */
  function DeliveredBy(e: Event): seq<string> {
    if e.call.Reply? && e.fulfilled then [e.call.message] else []
  }

  /** The contents of every reply the trace attempts, in order. */
  function RepliesAttempted(trace: seq<Event>): seq<string> {
    if trace == [] then [] else AttemptedBy(trace[0]) + RepliesAttempted(trace[1..])
  }

  /** The contents of every reply the platform accepted, in order. */
  function RepliesDelivered(trace: seq<Event>): seq<string> {
    if trace == [] then [] else DeliveredBy(trace[0]) + RepliesDelivered(trace[1..])
  }

  /** Calls before the first reply do not contribute replies. */
  lemma {:induction false} RepliesAfterOtherCalls(front: seq<Event>, back: seq<Event>)
    requires forall i :: 0 <= i < |front| ==> !front[i].call.Reply?
    ensures RepliesAttempted(front + back) == RepliesAttempted(back)
    ensures RepliesDelivered(front + back) == RepliesDelivered(back)
  {
    if front == [] {
      assert front + back == back;
    } else {
      assert (front + back)[0] == front[0];
      assert (front + back)[1..] == front[1..] + back;
      RepliesAfterOtherCalls(front[1..], back);
    }
  }

  /** React, download and transcription all fulfilled. */
  predicate StepsSucceed(c: Collaborators) {
    c.react.Fulfilled? && c.download.Fulfilled? && c.transcribe.Fulfilled?
  }

  // ---------------------------------------------------------------------
  // Properties of the listener
  // ---------------------------------------------------------------------

  /** A rejected react, download or transcription leads to the failure
      notice alone. */
  lemma FailedStepReplies(audio: Attachment, c: Collaborators)
    requires !StepsSucceed(c)
    ensures var o := TranscribeAndReply(audio, c);
      RepliesAttempted(o.trace) == [FailureNotice] &&
      RepliesDelivered(o.trace) == (if c.fallbackReply.Fulfilled? then [FailureNotice] else []) &&
      (o.rejects <==> c.fallbackReply.Rejected?)
  {
    var t := TranscribeAndReply(audio, c).trace;
    var failure := Event(Reply(FailureNotice), c.fallbackReply.Fulfilled?);
    assert t == t[..|t| - 1] + [failure];
    RepliesAfterOtherCalls(t[..|t| - 1], [failure]);
  }

  /** A rejected transcript reply is itself caught: the failure notice is
      attempted after it. */
  lemma RejectedReplyReplies(audio: Attachment, c: Collaborators)
    requires StepsSucceed(c) && c.reply.Rejected?
    ensures var o := TranscribeAndReply(audio, c);
      RepliesAttempted(o.trace) == [TranscriptReply(c.transcribe.value.text), FailureNotice] &&
      RepliesDelivered(o.trace) == (if c.fallbackReply.Fulfilled? then [FailureNotice] else []) &&
      (o.rejects <==> c.fallbackReply.Rejected?)
  {
    var t := TranscribeAndReply(audio, c).trace;
    var success := Event(Reply(TranscriptReply(c.transcribe.value.text)), false);
    var failure := Event(Reply(FailureNotice), c.fallbackReply.Fulfilled?);
    assert t == t[..3] + [success, failure];
    RepliesAfterOtherCalls(t[..3], [success, failure]);
    assert [success, failure][1..] == [failure];
    assert RepliesAttempted([failure]) == [FailureNotice];
    assert RepliesAttempted([success, failure]) == [success.call.message] + RepliesAttempted([failure]);
    assert RepliesDelivered([success, failure]) == RepliesDelivered([failure]);
  }

  /** When every step and the reply succeed, the transcript reply is the
      only reply. */
  lemma SucceededReplies(audio: Attachment, c: Collaborators)
    requires StepsSucceed(c) && c.reply.Fulfilled?
    ensures var o := TranscribeAndReply(audio, c);
      RepliesAttempted(o.trace) == [TranscriptReply(c.transcribe.value.text)] &&
      RepliesDelivered(o.trace) == [TranscriptReply(c.transcribe.value.text)] &&
      !o.rejects
  {
    var t := TranscribeAndReply(audio, c).trace;
    var success := Event(Reply(TranscriptReply(c.transcribe.value.text)), true);
    assert t == t[..3] + [success];
    RepliesAfterOtherCalls(t[..3], [success]);
  }

  /** For a message from a human with an audio attachment: which replies are
      attempted and which are delivered, for every way the collaborators can
      settle. */
  lemma QualifyingMessageReplies(msg: Message, c: Collaborators)
    requires !msg.authorIsBot && GetAudio(msg.attachments).Some?
    ensures var o := OnMessageCreate(msg, c);
      RepliesAttempted(o.trace) ==
        (if !StepsSucceed(c) then [FailureNotice]
         else if c.reply.Fulfilled? then [TranscriptReply(c.transcribe.value.text)]
         else [TranscriptReply(c.transcribe.value.text), FailureNotice])
    ensures var o := OnMessageCreate(msg, c);
      RepliesDelivered(o.trace) ==
        (if StepsSucceed(c) && c.reply.Fulfilled? then [TranscriptReply(c.transcribe.value.text)]
         else if c.fallbackReply.Fulfilled? then [FailureNotice]
         else [])
    ensures OnMessageCreate(msg, c).rejects <==>
      !(StepsSucceed(c) && c.reply.Fulfilled?) && c.fallbackReply.Rejected?
  {
    var audio := GetAudio(msg.attachments).value;
    assert OnMessageCreate(msg, c) == TranscribeAndReply(audio, c);
    if !StepsSucceed(c) {
      FailedStepReplies(audio, c);
    } else if c.reply.Rejected? {
      RejectedReplyReplies(audio, c);
    } else {
      SucceededReplies(audio, c);
    }
  }

  /** The exact calls a message from a human with an audio attachment
      causes, for every way the collaborators settle: the try block stops at
      the first rejected call, and the catch block adds the failure notice. */
  lemma QualifyingMessageTrace(msg: Message, c: Collaborators)
    requires !msg.authorIsBot && GetAudio(msg.attachments).Some?
    ensures var o := OnMessageCreate(msg, c);
      var audio := GetAudio(msg.attachments).value;
      var react := Event(React(Memo), c.react.Fulfilled?);
      var failure := Event(Reply(FailureNotice), c.fallbackReply.Fulfilled?);
      o.trace ==
        (if c.react.Rejected? then [react, failure]
         else
           var download := Event(Download(audio.url), c.download.Fulfilled?);
           if c.download.Rejected? then [react, download, failure]
           else
             var upload := Event(Transcribe(UploadName(audio.name), c.download.value.body, TranscriptionModel),
               c.transcribe.Fulfilled?);
             if c.transcribe.Rejected? then [react, download, upload, failure]
             else
               var reply := Event(Reply(TranscriptReply(c.transcribe.value.text)), c.reply.Fulfilled?);
               if c.reply.Rejected? then [react, download, upload, reply, failure]
               else [react, download, upload, reply])
  {
    assert OnMessageCreate(msg, c) == TranscribeAndReply(GetAudio(msg.attachments).value, c);
  }

  /** No message ever has more than one reply delivered. */
  lemma AtMostOneReplyDelivered(msg: Message, c: Collaborators)
    ensures |RepliesDelivered(OnMessageCreate(msg, c).trace)| <= 1
  {
    if !msg.authorIsBot && GetAudio(msg.attachments).Some? {
      QualifyingMessageReplies(msg, c);
    }
  }

  /** When the platform accepts replies, a message from a human with an
      audio attachment gets exactly one reply: the transcript when every step
      succeeds, otherwise the fixed failure notice; the listener never
      rejects. */
  lemma ExactlyOneReply(msg: Message, c: Collaborators)
    requires !msg.authorIsBot && GetAudio(msg.attachments).Some?
    requires c.reply.Fulfilled? && c.fallbackReply.Fulfilled?
    ensures var o := OnMessageCreate(msg, c);
      RepliesAttempted(o.trace) == RepliesDelivered(o.trace) &&
      RepliesDelivered(o.trace) ==
        [if StepsSucceed(c) then TranscriptReply(c.transcribe.value.text) else FailureNotice] &&
      !o.rejects
  {
    QualifyingMessageReplies(msg, c);
  }

  /** The download is of the selected attachment's URL, and the upload
      carries exactly the downloaded body under the upload name, with the
      fixed model identifier. */
  lemma UploadIsDownloadedBody(msg: Message, c: Collaborators)
    requires !msg.authorIsBot && GetAudio(msg.attachments).Some?
    ensures var o := OnMessageCreate(msg, c);
      var audio := GetAudio(msg.attachments).value;
      (c.react.Fulfilled? ==> o.trace[1].call == Download(audio.url)) &&
      (c.react.Fulfilled? && c.download.Fulfilled? ==>
         o.trace[2].call == Transcribe(UploadName(audio.name), c.download.value.body, TranscriptionModel))
  {
    UploadFollowsDownload(GetAudio(msg.attachments).value, c);
  }

  lemma UploadFollowsDownload(audio: Attachment, c: Collaborators)
    ensures var t := TranscribeAndReply(audio, c).trace;
      (c.react.Fulfilled? ==> |t| > 1 && t[1].call == Download(audio.url)) &&
      (c.react.Fulfilled? && c.download.Fulfilled? ==>
         |t| > 2 && t[2].call == Transcribe(UploadName(audio.name), c.download.value.body, TranscriptionModel))
  {
  }

  /** The listener never looks at the HTTP status of the download: a
      response with any status leads to the same calls as any other with the
      same body. */
  lemma StatusIsIgnored(msg: Message, c: Collaborators, body: seq<Byte>, s1: int, s2: int)
    ensures OnMessageCreate(msg, c.(download := Fulfilled(Response(s1, body)))) ==
            OnMessageCreate(msg, c.(download := Fulfilled(Response(s2, body))))
  {
  }

  /** Only the selected attachment matters: attachments after it do not
      change what the listener does. */
  lemma LaterAttachmentsIgnored(msg: Message, extra: seq<Attachment>, c: Collaborators)
    requires GetAudio(msg.attachments).Some?
    ensures OnMessageCreate(msg.(attachments := msg.attachments + extra), c) == OnMessageCreate(msg, c)
  {
    GetAudioAppend(msg.attachments, extra);
  }

  // ---------------------------------------------------------------------
  // Reply format
  // ---------------------------------------------------------------------

  /** The transcript reply round-trips: the text is recovered from it. */
  lemma TranscriptReplyRoundTrip(text: string)
    ensures TranscriptOf(TranscriptReply(Text(text))) == Some(text)
  {
    var r := TranscriptReply(Text(text));
    assert r[..|TranscriptHeader|] == TranscriptHeader;
    assert r[|TranscriptHeader|..] == text;
  }

  /** The failure notice is never mistaken for a transcript reply, whatever
      the transcript. */
  lemma FailureNoticeIsNoTranscript(text: TextField)
    ensures TranscriptOf(FailureNotice) == None
    ensures TranscriptReply(text) != FailureNotice
  {
    assert FailureNotice[0] == 'C' != TranscriptHeader[0];
    assert TranscriptReply(text)[0] == TranscriptHeader[0];
  }

  /** An empty transcript gives the bare header; an absent `text` field is
      rendered as "undefined" and a null one as "null". */
  lemma EdgeTranscripts()
    ensures TranscriptReply(Text("")) == TranscriptHeader
    ensures TranscriptReply(Absent) == TranscriptHeader + "undefined"
    ensures TranscriptReply(Null) == TranscriptHeader + "null"
  {
    assert TranscriptHeader + "" == TranscriptHeader;
  }
}
