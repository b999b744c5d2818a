# Discord voice-note transcriber: verified model of its decision core

The bot listens for new messages on a Discord server. When a human posts a
message that has an audio attachment, the bot reacts with a memo emoji. It
downloads the attachment and sends the bytes once to a speech-to-text model.
It then replies with `📝 **Transcript:**` followed by a newline and the text.
If any of these steps throws, it replies with one fixed failure notice.

The project models the two parts of `index.js` that make decisions:

- `attachments.dfy`, module `Attachments`: the qualification predicate
  (`IsAudio`) and the selector `GetAudio`. The selector returns the first
  qualifying attachment in attachment order.
- `handler.dfy`, module `Handler`: the `messageCreate` listener as a pure
  outcome function, `OnMessageCreate`. Each awaited collaborator call (react,
  download, transcription, reply, failure reply) is abstract. Its result is
  given in advance as fulfilled-with-a-value or rejected. The outcome is the
  sequence of calls the listener makes, each with whether it was fulfilled,
  plus whether the listener's own promise rejects.

The following behaviours are modelled from the code. A reader might expect
otherwise:

- The content-type test `startsWith("audio/")` is exact and case-sensitive.
- The name test `/\.(ogg|mp3|wav|m4a|webm)$/i` needs the dot and is anchored
  at the very end of the name. It ignores case only for ASCII letters. A
  non-Unicode JavaScript pattern with the `i` flag folds nothing else onto
  these characters.
- A missing content type or name reads as `""`. A missing or empty upload
  name becomes `audio.ogg`.
- The HTTP status of the download is never checked. A non-success response
  body is uploaded as if it were audio (`StatusIsIgnored`). There is no
  separate download-failure path: only a rejected request or body read goes
  to the catch block.
- If the transcript reply itself is rejected (for example, the platform
  refuses an over-long message), the catch block runs. A failure notice is
  then attempted after it. At most one reply is ever delivered.
- If the failure notice is also rejected, the error escapes the listener.
- An empty transcript produces the bare header. The template literal renders
  an absent `text` field as `undefined` and a null one as `null`.

## Model

| member | source | states |
|---|---|---|
| `Attachments.OrEmpty` | index.js:22-23 | A missing field reads as the empty string. The result is empty exactly when the field is missing or empty. |
| `Attachments.HasPrefix` | index.js:22 | `startsWith`: holds exactly when the prefix is a prefix of the string, compared character by character. |
| `Attachments.HasAudioExtension` | index.js:23 | The name test: the name ends, ignoring ASCII case, with one of `.ogg`, `.mp3`, `.wav`, `.m4a`, `.webm`. |
| `Attachments.IsAudio` | index.js:21-23 | An attachment qualifies when its content type starts with `audio/` or its name passes the extension test. |
| `Attachments.FoldIdempotent` | index.js:23 | Case folding twice is the same as folding once. |
| `Attachments.ExtensionShape` | index.js:23 | Each of the five extensions starts with a dot, has at least four characters, is already lower case, and ends in one of `g 3 v a m`. |
| `Attachments.ExtensionCharacterised` | index.js:23 | A name passes the extension test if and only if some suffix of it, case-folded, is one of the five extensions. |
| `Attachments.GetAudio` | index.js:18-25 | The result, when present, is one of the message's attachments and qualifies as audio. The result is absent exactly when no attachment qualifies, so an empty list gives none. |
| `Attachments.GetAudioReturnsFirst` | index.js:19-24 | An attachment that qualifies, with no qualifying attachment before it, is the one selected. |
| `Attachments.GetAudioIsFirst` | index.js:19-24 | The selected attachment stands at some position with no qualifying attachment before it. |
| `Attachments.GetAudioIsHeadOfQualifying` | index.js:20-24 | The selector equals the head of the in-order list of all qualifying attachments, or none when that list is empty. |
| `Attachments.GetAudioAppend` | index.js:19-20 | Over a concatenation, the second part is consulted only when the first has no audio. |
| `Attachments.MissingFieldsNeverQualify` | index.js:22-23 | An attachment with no content type and no name never qualifies. Neither does one with both fields empty. |
| `Attachments.ContentTypeIsCaseSensitive` | index.js:22 | A content type whose first six characters differ in any way from `audio/`, including case, fails the prefix test. |
| `Attachments.ExtensionIgnoresCase` | index.js:23 | Two names equal up to ASCII case either both pass the extension test or both fail it. |
| `Attachments.ExtensionQualifies` | index.js:23 | Any stem followed by `.ogg`, `.mp3`, `.wav`, `.m4a` or `.webm`, in any mix of case, passes the extension test. The converse is `ExtensionCharacterised`. |
| `Attachments.ExtensionAnchoredAtEnd` | index.js:23 | A name whose last character, once case-folded, is none of `g 3 v a m` fails the extension test, whatever comes before it. |
| `Attachments.ExtensionRequiresDot` | index.js:23 | A name containing no dot fails the extension test. |
| `Attachments.CapitalizedContentTypeFails` | index.js:22 | A nameless attachment typed `Audio/ogg` does not qualify. One typed `audio/ogg` does. |
| `Attachments.UpperCaseExtensionQualifies` | index.js:23 | An attachment named `VOICE.OGG` with no content type qualifies. |
| `Attachments.InnerExtensionFails` | index.js:22-23 | An attachment named `a.ogg.pdf`, typed `application/pdf`, does not qualify. |
| `Attachments.BareExtensionFails` | index.js:23 | An attachment named `ogg` with no content type does not qualify. |
| `Handler.OnMessageCreate` | index.js:27-54 | A bot-authored message, or one with no qualifying attachment, causes no call at all and the listener does not reject. Otherwise the first call is the memo reaction, at most five calls are made, and the last call is a reply. |
| `Handler.TranscribeAndReply` | index.js:33-53 | The try block: the first call is the memo reaction and the last is a reply. A rejected call is followed by the failure notice and by nothing else. The listener rejects exactly when its last call is a rejected failure notice. |
| `Handler.Catch` | index.js:50-53 | The catch block keeps the calls made so far and adds one call, the failure notice. The listener rejects exactly when that call is rejected. |
| `Handler.QualifyingMessageTrace` | index.js:33-53 | For a qualifying message from a human, the exact sequence of calls for each way the collaborators settle. A rejected reaction gives reaction and notice. A rejected download gives reaction, download and notice. A rejected transcription also includes the upload. A rejected reply gives all four steps and the notice. Full success gives the four steps only. |
| `Handler.RenderText` | index.js:47 | The substitution of `result.text` into the template: the text itself, `undefined` when the field is absent, `null` when it is null. |
| `Handler.TranscriptReply` | index.js:47 | The success reply is the transcript header followed by the rendered text. |
| `Handler.UploadName` | index.js:39 | The upload name is never empty. It is the attachment's name when that is present and non-empty, and `audio.ogg` otherwise. |
| `Handler.TranscriptOf` | index.js:46-48 | The inverse of the reply format: it recovers a transcript exactly from replies that start with the transcript header. |
| `Handler.QualifyingMessageReplies` | index.js:33-53 | For a qualifying message from a human, for every way the collaborators settle: the transcript reply alone is attempted when react, download, transcription and reply succeed. Only the failure notice is attempted when an earlier step rejects. The transcript reply followed by the failure notice is attempted when only the reply rejects. The delivered replies and the listener's rejection follow from these. |
| `Handler.FailedStepReplies` | index.js:33-53 | When the react, download or transcription step rejects, the failure notice is the only reply attempted. It is delivered, and the listener does not reject, exactly when the platform accepts it. |
| `Handler.RejectedReplyReplies` | index.js:46-52 | When every step succeeds but the transcript reply is rejected, the transcript reply and then the failure notice are attempted. Only the failure notice can be delivered. |
| `Handler.SucceededReplies` | index.js:33-48 | When every step and the reply succeed, the transcript reply is the only reply attempted and delivered, and the listener does not reject. |
| `Handler.AtMostOneReplyDelivered` | index.js:33-53 | No message ever has more than one reply delivered. |
| `Handler.ExactlyOneReply` | index.js:33-53 | When the platform accepts replies, a qualifying message gets exactly one reply and the listener never rejects. That reply is `📝 **Transcript:**\n` plus the text when every step succeeds, and the fixed failure notice otherwise. |
| `Handler.UploadIsDownloadedBody` | index.js:36-44 | After the reaction, the download is of the selected attachment's URL. The upload carries exactly the downloaded body, under the upload name, with the model `gpt-4o-mini-transcribe`. |
| `Handler.StatusIsIgnored` | index.js:36-37 | Two downloads with the same body and any two HTTP statuses lead to the same outcome. |
| `Handler.LaterAttachmentsIgnored` | index.js:19-20 | Attachments appended after a qualifying one do not change what the listener does. |
| `Handler.TranscriptReplyRoundTrip` | index.js:46-48 | The transcript text is recovered exactly from the success reply. |
| `Handler.FailureNoticeIsNoTranscript` | index.js:46-52 | The failure notice is not a transcript reply. No transcript reply equals the failure notice. |
| `Handler.EdgeTranscripts` | index.js:46-48 | An empty transcript yields exactly the header. An absent `text` field yields the header followed by `undefined`, and a null one the header followed by `null`. |

## Left out

- Discord client construction, gateway intents and login (index.js:6-12, 56) are left out. They are platform I/O.
- Environment configuration and OpenAI client setup (index.js:1, 14-16) are left out. They are credentials and I/O.
- The network calls are abstract. These are the reaction, the download and `arrayBuffer`, the transcription request and the replies (index.js:34-48). Each is represented only by how it settles. A rejected request and a rejected body read are one `Rejected` download.
- `Buffer`/`File` construction (index.js:37-39) is taken never to throw, and the bytes pass through unchanged. Only the upload name is modelled.
- The `console.error` logging in the catch block (index.js:51) is left out. It is a side channel that changes no outcome.
- Asynchrony and scheduling are left out. Each message is handled as one sequential outcome, and concurrent messages are not modelled.
- Attachments are a sequence in the collection's iteration order. Their ids, as map keys, are not modelled.
- Case-insensitive matching is modelled as ASCII folding. This is exact for the characters of this pattern.
- Strings are sequences of Dafny characters, which are Unicode scalar values, not JavaScript's UTF-16 code units. The memo emoji is one character here and two code units in JavaScript. A lone surrogate cannot be represented. The two tests compare only ASCII characters at the start and end of a string, so they are unaffected.
- "Delivered" means the reply's promise was fulfilled. A reply that the platform stored but whose promise still rejected (for example, on a timeout) counts as rejected here, and it is followed by the failure notice, as in the code.
