/** The attachment qualification rule and the first-match selector of the
    voice-note transcriber bot (`getAudio` in index.js).

    An attachment counts as audio when its declared content type starts with
    the case-sensitive prefix "audio/", or when its declared file name ends,
    ignoring ASCII case, with one of the extensions ".ogg", ".mp3", ".wav",
    ".m4a" or ".webm". The selector returns the first such attachment of a
    message, in the message's attachment order. */
module Attachments {

  datatype Option<+T> = None | Some(value: T)

  /** An attachment as the messaging platform reports it. A field the
      platform leaves out (null or undefined) is None. */
  datatype Attachment = Attachment(url: string, name: Option<string>, contentType: Option<string>)

  /** JavaScript's `s || ""` on an optional string: a missing value reads
      as the empty string (and the empty string, being falsy, stays empty). */
  function OrEmpty(s: Option<string>): (r: string)
    ensures r == "" <==> s.None? || s.value == ""
  {
    match s
    case None => ""
    case Some(v) => v
  }

  /** `s.startsWith(prefix)`: exact, case-sensitive comparison. It agrees
      with Dafny's own prefix relation on sequences. */
  predicate HasPrefix(s: string, prefix: string)
    ensures HasPrefix(s, prefix) <==> prefix <= s
  {
    |prefix| <= |s| && s[..|prefix|] == prefix
  }

  /** Case folding as a non-Unicode JavaScript regular expression with the
      `i` flag performs it on the characters of the extension pattern: only
      the ASCII letters A-Z are identified with their lower-case forms. */
  function FoldCase(c: char): char {
    if 'A' <= c <= 'Z' then (c as int + 32) as char else c
  }

  function Fold(s: string): string {
    seq(|s|, i requires 0 <= i < |s| => FoldCase(s[i]))
  }

  /** Folding twice is folding once. */
  lemma FoldIdempotent(s: string)
    ensures Fold(Fold(s)) == Fold(s)
  {
  }

  /** `suffix` matches the end of `s`, ignoring ASCII case. */
  predicate EndsWithIgnoringCase(s: string, suffix: string) {
    |suffix| <= |s| && Fold(s[|s| - |suffix|..]) == Fold(suffix)
  }

  const AudioContentTypePrefix: string := "audio/"

  /** The alternatives of the pattern `\.(ogg|mp3|wav|m4a|webm)$`, each with
      its required dot. */
  const AudioExtensions: seq<string> := [".ogg", ".mp3", ".wav", ".m4a", ".webm"]

  /** The file-name test: some alternative of the pattern matches at the end
      of the name (`$` without the multiline flag), ignoring ASCII case. */
  predicate HasAudioExtension(name: string) {
    exists ext :: ext in AudioExtensions && EndsWithIgnoringCase(name, ext)
  }

  /** The predicate handed to `find`. */
  predicate IsAudio(f: Attachment) {
    HasPrefix(OrEmpty(f.contentType), AudioContentTypePrefix) || HasAudioExtension(OrEmpty(f.name))
  }

  /** `getAudio`: the first attachment, in attachment order, that counts as
      audio, or None when there is none. */
  function GetAudio(files: seq<Attachment>): (r: Option<Attachment>)
    ensures r.Some? ==> r.value in files && IsAudio(r.value)
    ensures r.None? <==> forall i :: 0 <= i < |files| ==> !IsAudio(files[i])
  {
    if |files| == 0 then None
    else if IsAudio(files[0]) then Some(files[0])
    else GetAudio(files[1..])
  }

  /** Reference definition for the selector: all qualifying attachments, in order. */
  function Qualifying(files: seq<Attachment>): (r: seq<Attachment>)
    ensures |r| <= |files|
    ensures forall i :: 0 <= i < |r| ==> IsAudio(r[i]) && r[i] in files
  {
    if |files| == 0 then []
    else if IsAudio(files[0]) then [files[0]] + Qualifying(files[1..])
    else Qualifying(files[1..])
  }

  // ---------------------------------------------------------------------
  // Selection: first match, in order
  // ---------------------------------------------------------------------

  /** An attachment that qualifies, with no qualifying attachment before it,
      is the one selected. */
  lemma {:induction false} GetAudioReturnsFirst(files: seq<Attachment>, i: nat)
    requires i < |files| && IsAudio(files[i])
    requires forall j :: 0 <= j < i ==> !IsAudio(files[j])
    ensures GetAudio(files) == Some(files[i])
  {
    if i > 0 {
      assert !IsAudio(files[0]);
      assert forall j :: 0 <= j < i - 1 ==> files[1..][j] == files[j + 1];
      GetAudioReturnsFirst(files[1..], i - 1);
    }
  }

  /** Whatever is selected stands at some position with no qualifying
      attachment before it. */
  lemma {:induction false} GetAudioIsFirst(files: seq<Attachment>)
    ensures GetAudio(files).Some? ==>
      exists i :: 0 <= i < |files| && files[i] == GetAudio(files).value &&
        forall j :: 0 <= j < i ==> !IsAudio(files[j])
  {
    if |files| > 0 && !IsAudio(files[0]) && GetAudio(files).Some? {
      var rest := files[1..];
      GetAudioIsFirst(rest);
      var k :| 0 <= k < |rest| && rest[k] == GetAudio(rest).value &&
        forall j :: 0 <= j < k ==> !IsAudio(rest[j]);
      assert files[k + 1] == GetAudio(files).value;
      assert forall j :: 0 <= j < k + 1 ==> !IsAudio(files[j]) by {
        forall j | 0 <= j < k + 1 ensures !IsAudio(files[j]) {
          if j > 0 { assert files[j] == rest[j - 1]; }
        }
      }
    }
  }

  /** The selector agrees with the reference definition: it returns the head
      of the list of qualifying attachments. */
  lemma {:induction false} GetAudioIsHeadOfQualifying(files: seq<Attachment>)
    ensures GetAudio(files) == if Qualifying(files) == [] then None else Some(Qualifying(files)[0])
  {
    if |files| > 0 && !IsAudio(files[0]) {
      GetAudioIsHeadOfQualifying(files[1..]);
    }
  }

  /** Selection over a concatenation looks at the second part only when the
      first part holds no audio: attachments after the first match never
      change the choice. */
  lemma {:induction false} GetAudioAppend(front: seq<Attachment>, back: seq<Attachment>)
    ensures GetAudio(front + back) == if GetAudio(front).Some? then GetAudio(front) else GetAudio(back)
  {
    if |front| == 0 {
      assert front + back == back;
    } else {
      assert (front + back)[0] == front[0];
      assert (front + back)[1..] == front[1..] + back;
      GetAudioAppend(front[1..], back);
    }
  }

  // ---------------------------------------------------------------------
  // Qualification: sharp edges of the two tests
  // ---------------------------------------------------------------------

  /** An attachment with neither a content type nor a name never qualifies;
      an empty content type and an empty name are read the same way. */
  lemma MissingFieldsNeverQualify(url: string)
    ensures !IsAudio(Attachment(url, None, None))
    ensures !IsAudio(Attachment(url, Some(""), Some("")))
  {
  }

  lemma {:induction false} FoldSlice(s: string, k: nat)
    requires k <= |s|
    ensures Fold(s[k..]) == Fold(s)[k..]
  {
  }

  /** What every alternative looks like: a dot, at least three more
      characters, nothing to fold, and a last character among `g 3 v a m`. */
  lemma ExtensionShape(ext: string)
    requires ext in AudioExtensions
    ensures |ext| >= 4 && ext[0] == '.' && Fold(ext) == ext
    ensures ext[|ext| - 1] in {'g', '3', 'v', 'a', 'm'}
  {
  }

  /** The extension test, both ways: a name passes exactly when some tail of
      it, folded to lower case, is one of the five extensions. Nothing but
      these five extensions passes. */
  lemma ExtensionCharacterised(name: string)
    ensures HasAudioExtension(name) <==>
      exists k :: 0 <= k <= |name| && Fold(name[k..]) in AudioExtensions
  {
    if HasAudioExtension(name) {
      var ext :| ext in AudioExtensions && EndsWithIgnoringCase(name, ext);
      ExtensionShape(ext);
      assert Fold(name[|name| - |ext|..]) in AudioExtensions;
    }
    if k :| 0 <= k <= |name| && Fold(name[k..]) in AudioExtensions {
      var ext := Fold(name[k..]);
      ExtensionShape(ext);
      FoldIdempotent(name[k..]);
      assert |ext| == |name| - k;
      assert EndsWithIgnoringCase(name, ext);
    }
  }

  /** Names that differ only in the case of ASCII letters are judged alike. */
  lemma ExtensionIgnoresCase(a: string, b: string)
    requires Fold(a) == Fold(b)
    ensures HasAudioExtension(a) <==> HasAudioExtension(b)
  {
    forall k: nat | k <= |a| ensures Fold(a[k..]) == Fold(b[k..]) {
      FoldSlice(a, k);
      FoldSlice(b, k);
    }
  }

  /** Any stem followed by one of the extensions, in any mix of cases,
      qualifies by name. */
  lemma ExtensionQualifies(stem: string, ext: string)
    requires Fold(ext) in AudioExtensions
    ensures HasAudioExtension(stem + ext)
  {
    var s := stem + ext;
    assert s[|s| - |ext|..] == ext;
    FoldIdempotent(ext);
    assert EndsWithIgnoringCase(s, Fold(ext));
  }

  /** One position where the end of `s` and `suffix` differ, ignoring
      ASCII case, rules the suffix out. */
  lemma MismatchAt(s: string, suffix: string, k: nat)
    requires k < |suffix|
    requires |suffix| <= |s| ==> FoldCase(s[|s| - |suffix| + k]) != FoldCase(suffix[k])
    ensures !EndsWithIgnoringCase(s, suffix)
  {
    if |suffix| <= |s| {
      assert Fold(s[|s| - |suffix|..])[k] != Fold(suffix)[k];
    }
  }

  /** The extension test is anchored at the end: a name whose last character
      cannot end any extension never qualifies, whatever it contains before
      (so `a.ogg.pdf` fails). */
  lemma ExtensionAnchoredAtEnd(name: string)
    requires |name| > 0 && FoldCase(name[|name| - 1]) !in {'g', '3', 'v', 'a', 'm'}
    ensures !HasAudioExtension(name)
  {
    forall ext | ext in AudioExtensions ensures !EndsWithIgnoringCase(name, ext) {
      ExtensionShape(ext);
      MismatchAt(name, ext, |ext| - 1);
    }
  }

  /** The dot is part of every extension: a name without a dot never
      qualifies by name (so `ogg` fails). */
  lemma ExtensionRequiresDot(name: string)
    requires '.' !in name
    ensures !HasAudioExtension(name)
  {
    forall ext | ext in AudioExtensions ensures !EndsWithIgnoringCase(name, ext) {
      ExtensionShape(ext);
      MismatchAt(name, ext, 0);
    }
  }

  /** The content-type test is an exact prefix test: a content type whose
      first six characters differ from "audio/" in any way, including case,
      fails it. */
  lemma ContentTypeIsCaseSensitive(ct: string)
    requires |ct| >= 6 && ct[..6] != AudioContentTypePrefix
    ensures !HasPrefix(ct, AudioContentTypePrefix)
  {
  }

  // ---------------------------------------------------------------------
  // Worked cases of the two tests
  // ---------------------------------------------------------------------

  lemma CapitalizedContentTypeFails(url: string)
    ensures !IsAudio(Attachment(url, None, Some("Audio/ogg")))
    ensures IsAudio(Attachment(url, None, Some("audio/ogg")))
  {
    assert "Audio/ogg"[..6][0] != AudioContentTypePrefix[0];
    ContentTypeIsCaseSensitive("Audio/ogg");
  }

  lemma UpperCaseExtensionQualifies(url: string)
    ensures IsAudio(Attachment(url, Some("VOICE.OGG"), None))
  {
    assert Fold(".OGG") == ".ogg" by {
      assert FoldCase('O') == 'o' && FoldCase('G') == 'g';
    }
    ExtensionQualifies("VOICE", ".OGG");
    assert "VOICE" + ".OGG" == "VOICE.OGG";
  }

  lemma InnerExtensionFails(url: string)
    ensures !IsAudio(Attachment(url, Some("a.ogg.pdf"), Some("application/pdf")))
  {
    var name, ct := "a.ogg.pdf", "application/pdf";
    assert name[|name| - 1] == 'f';
    ExtensionAnchoredAtEnd(name);
    assert ct[..6][1] == 'p';
    ContentTypeIsCaseSensitive(ct);
  }

  lemma BareExtensionFails(url: string)
    ensures !IsAudio(Attachment(url, Some("ogg"), None))
  {
    ExtensionRequiresDot("ogg");
  }
}
