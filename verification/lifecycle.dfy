/** One request from message to cleanup: `handle_message` with the
    `download_audio` call it makes. The extractor, the file system and the
    chat transport are foreign; their outcomes are inputs here, and what the
    request does with them is recorded in a `Trace`. */
module Lifecycle {
  import opened Base
  import opened Strings
  import opened Links
  import opened Paths

  const InvalidLink := "Please send a valid YouTube video link."
  const Starting := "Starting download..."
  const Downloaded := "Downloading... 100% ✅"
  const DownloadErrorPrefix := "Download error: "
  const NotFound := "Error: Audio file not found."
  const Uploading := "Uploading to Telegram... ⏳"
  const Done := "✅ Done!"
  const ErrorPrefix := "Error: "
  const DeleteFailedPrefix := "Failed to delete file: "

  /** What `extract_info` followed by `prepare_filename` comes to: the
      prepared file name, or the text of the exception either raised. */
  datatype Extraction = Extracted(preparedName: string) | ExtractionFailed(message: string)

  /** The outcomes of the foreign calls a request can make: the extraction,
      whether the derived `.mp3` path exists, the upload (opening the file and
      sending it as audio), and the removal of the file. */
  datatype Outcomes = Outcomes(
    extraction: Extraction,
    fileExists: bool,
    upload: Outcome<string>,
    removal: Outcome<string>)

  /** What `download_audio` returns, with the texts it gave the status
      message: the one it was created with, then its edits. */
  datatype Download = Download(file: Option<string>, statuses: seq<string>)

  /** Everything one request does that can be observed:
      - `replies`: plain replies to the user's message;
      - `statuses`: the texts of the status message, creation first;
      - `source`: the link handed to the extractor;
      - `uploadAttempts`: the paths whose upload was attempted, that is, for
        which the `try` around `open` and `reply_audio` was entered, whether
        or not the file was then sent;
      - `removeCalls`: the paths `os.remove` was called on, whether or not
        the removal succeeded;
      - `log`: lines printed for the operator. */
  datatype Trace = Trace(
    replies: seq<string>,
    statuses: seq<string>,
    source: Option<string>,
    uploadAttempts: seq<string>,
    removeCalls: seq<string>,
    log: seq<string>)

  /** `download_audio`: the status message is created with `Starting`; a
      successful extraction yields the `.mp3` path derived from the prepared
      name and a 100% edit, a failed one yields no path and an edit carrying
      the error text. */
  function DownloadAudio(extraction: Extraction): (d: Download)
    ensures |d.statuses| == 2 && d.statuses[0] == Starting
    ensures d.file.Some? <==> extraction.Extracted?
    ensures extraction.Extracted? ==>
              d.file == Some(Mp3Path(extraction.preparedName))
              && EndsWith(d.file.value, Mp3Ext) && d.statuses[1] == Downloaded
    ensures extraction.ExtractionFailed? ==>
              d.statuses[1] == DownloadErrorPrefix + extraction.message
              && HasPrefix(d.statuses[1], DownloadErrorPrefix)
  {
    match extraction
    case Extracted(name) => Download(Some(Mp3Path(name)), [Starting, Downloaded])
    case ExtractionFailed(message) => Download(None, [Starting, DownloadErrorPrefix + message])
  }

  /** `handle_message` for a message with text `text`. A message is
      rejected exactly when it does not mention a YouTube host; it then gets
      `InvalidLink` and nothing else happens. An accepted one is handed to
      the extractor stripped, gets no plain reply, and its status message
      first shows what `download_audio` showed. `os.remove` is called exactly
      on the file whose upload was attempted, and only a failed call is
      logged. */
  function HandleMessage(text: string, o: Outcomes): (t: Trace)
    ensures t.statuses == [] <==> !Accepts(text)
    ensures !Accepts(text) ==> t == Trace([InvalidLink], [], None, [], [], [])
    ensures Accepts(text) ==>
              && t.replies == [] && t.source == Some(Strip(text))
              && |t.statuses| >= 3 && t.statuses[..2] == DownloadAudio(o.extraction).statuses
    ensures t.removeCalls == t.uploadAttempts && |t.uploadAttempts| <= 1
    ensures |t.log| == (if t.removeCalls != [] && o.removal.Fail? then 1 else 0)
  {
    var url := Strip(text);
    if !Accepts(text) then Trace([InvalidLink], [], None, [], [], [])
    else
      var d := DownloadAudio(o.extraction);
      // `not mp3_file` holds for `None` and for the empty string
      if d.file.None? || d.file.value == [] || !o.fileExists then
        Trace([], d.statuses + [NotFound], Some(url), [], [], [])
      else
        var path := d.file.value;
        var final := match o.upload
          case Pass => Done
          case Fail(e) => ErrorPrefix + e;
        var log := match o.removal
          case Pass => []
          case Fail(e) => [DeleteFailedPrefix + e];
        Trace([], d.statuses + [Uploading, final], Some(url), [path], [path], log)
  }

  /** A string whose first character differs from that of `prefix` does not
      start with `prefix`. */
  lemma StartsOtherwise(s: string, prefix: string)
    requires s != [] && prefix != [] && s[0] != prefix[0]
    ensures !HasPrefix(s, prefix)
  {
    assert |prefix| <= |s| ==> s[..|prefix|][0] == s[0];
  }

  /** A status text that ends the request for the user: the success
      confirmation or an error report. */
  predicate IsTerminal(s: string) {
    s == Done || HasPrefix(s, ErrorPrefix)
  }

  /** A status history that ends with its only terminal text. */
  predicate Closed(statuses: seq<string>) {
    && statuses != []
    && IsTerminal(statuses[|statuses| - 1])
    && (forall i :: 0 <= i < |statuses| - 1 ==> !IsTerminal(statuses[i]))
  }

  /** The shape every request has:
      - a rejected message gets one reply and nothing else happens;
      - an accepted one gets a status message that starts with `Starting`
        and ends with its only terminal text;
      - the upload of at most one file is attempted, it is an `.mp3`, and
        `os.remove` is called on it, once;
      - a failure to remove is only ever logged. */
  predicate WellFormed(t: Trace) {
    && (t.statuses == [] ==>
          t.replies == [InvalidLink] && t.source.None? && t.uploadAttempts == [] && t.log == [])
    && (t.statuses != [] ==>
          && t.replies == [] && t.source.Some?
          && t.statuses[0] == Starting
          && Closed(t.statuses))
    && t.removeCalls == t.uploadAttempts && |t.uploadAttempts| <= 1
    && (forall f :: f in t.uploadAttempts ==> EndsWith(f, Mp3Ext))
    && |t.log| <= |t.removeCalls|
  }

  /** The texts `download_audio` leaves are never terminal. */
  lemma DownloadNotTerminal(extraction: Extraction)
    ensures var d := DownloadAudio(extraction);
            !IsTerminal(d.statuses[0]) && !IsTerminal(d.statuses[1])
  {
    var d := DownloadAudio(extraction);
    StartsOtherwise(Starting, ErrorPrefix);
    if d.file.Some? {
      StartsOtherwise(Downloaded, ErrorPrefix);
    } else {
      StartsOtherwise(d.statuses[1], ErrorPrefix);
    }
  }

  /** An error report is terminal, and the upload notice is not. */
  lemma ErrorIsTerminal(e: string)
    ensures IsTerminal(ErrorPrefix + e) && !IsTerminal(Uploading)
  {
    assert (ErrorPrefix + e)[..|ErrorPrefix|] == ErrorPrefix;
    StartsOtherwise(Uploading, ErrorPrefix);
  }

  /** The missing-file report is terminal. */
  lemma NotFoundIsTerminal()
    ensures IsTerminal(NotFound)
  {
    assert NotFound[..|ErrorPrefix|] == ErrorPrefix;
  }

  /** A non-terminal history followed by a terminal text is closed. */
  lemma CloseWith(opening: seq<string>, final: string)
    requires forall i :: 0 <= i < |opening| ==> !IsTerminal(opening[i])
    requires IsTerminal(final)
    ensures Closed(opening + [final])
  {
    var st := opening + [final];
    assert forall i :: 0 <= i < |st| - 1 ==> st[i] == opening[i];
  }

  /** A rejected message leaves a well-formed trace. */
  lemma RejectedWellFormed(text: string, o: Outcomes)
    requires !Accepts(text)
    ensures WellFormed(HandleMessage(text, o))
  {
  }

  /** A request that stops at the missing-file check leaves a well-formed
      trace. */
  lemma NotFoundWellFormed(text: string, o: Outcomes)
    requires Accepts(text)
    requires var d := DownloadAudio(o.extraction); d.file.None? || d.file.value == [] || !o.fileExists
    ensures WellFormed(HandleMessage(text, o))
  {
    var d := DownloadAudio(o.extraction);
    DownloadNotTerminal(o.extraction);
    NotFoundIsTerminal();
    CloseWith(d.statuses, NotFound);
  }

  /** A request that reaches the upload leaves a well-formed trace, whatever
      the upload and the removal do. */
  lemma UploadWellFormed(text: string, o: Outcomes)
    requires Accepts(text)
    requires var d := DownloadAudio(o.extraction); !(d.file.None? || d.file.value == [] || !o.fileExists)
    ensures WellFormed(HandleMessage(text, o))
  {
    var d := DownloadAudio(o.extraction);
    DownloadNotTerminal(o.extraction);
    var final := if o.upload.Pass? then Done else ErrorPrefix + o.upload.error;
    var opening := d.statuses + [Uploading];
    ErrorIsTerminal(if o.upload.Pass? then "" else o.upload.error);
    assert opening == [d.statuses[0], d.statuses[1], Uploading];
    CloseWith(opening, final);
    var t := HandleMessage(text, o);
    assert t.statuses == opening + [final];
    assert t.uploadAttempts == [d.file.value] == t.removeCalls;
  }

  /** Every request, whatever the text and whatever the foreign calls do,
      leaves a well-formed trace: the user is never left without an answer. */
  lemma EveryTraceWellFormed(text: string, o: Outcomes)
    ensures WellFormed(HandleMessage(text, o))
  {
    if !Accepts(text) {
      RejectedWellFormed(text, o);
    } else {
      var d := DownloadAudio(o.extraction);
      if d.file.None? || d.file.value == [] || !o.fileExists {
        NotFoundWellFormed(text, o);
      } else {
        UploadWellFormed(text, o);
      }
    }
  }

  /** A failed extraction shows the error, which the missing-file check then
      overwrites with `NotFound`: no upload is attempted and nothing is
      removed. */
  lemma ExtractionErrorPath(text: string, message: string, present: bool, upload: Outcome<string>, removal: Outcome<string>)
    requires Accepts(text)
    ensures var t := HandleMessage(text, Outcomes(ExtractionFailed(message), present, upload, removal));
            && t.statuses == [Starting, DownloadErrorPrefix + message, NotFound]
            && t.uploadAttempts == [] && t.removeCalls == [] && t.log == []
  {
  }

  /** A successful extraction whose `.mp3` file is missing ends with
      `NotFound` after the 100% edit, and returns before the cleanup: no
      upload is attempted and nothing is removed. */
  lemma MissingFilePath(text: string, name: string, upload: Outcome<string>, removal: Outcome<string>)
    requires Accepts(text)
    ensures var t := HandleMessage(text, Outcomes(Extracted(name), false, upload, removal));
            && t.statuses == [Starting, Downloaded, NotFound]
            && t.uploadAttempts == [] && t.removeCalls == [] && t.log == []
  {
  }

  /** When the file exists its upload is attempted and `os.remove` is then
      called on it exactly once, whether the upload succeeded or not; the
      last status is `Done` or the upload's error, and a failed removal is
      only logged. */
  lemma UploadPath(text: string, name: string, upload: Outcome<string>, removal: Outcome<string>)
    requires Accepts(text)
    ensures var t := HandleMessage(text, Outcomes(Extracted(name), true, upload, removal));
            && t.statuses == [Starting, Downloaded, Uploading,
                              if upload.Pass? then Done else ErrorPrefix + upload.error]
            && t.uploadAttempts == [Mp3Path(name)] && t.removeCalls == [Mp3Path(name)]
            && t.log == (if removal.Pass? then [] else [DeleteFailedPrefix + removal.error])
  {
    var d := DownloadAudio(Extracted(name));
    assert d == Download(Some(Mp3Path(name)), [Starting, Downloaded]);
    assert Mp3Path(name) != [];
  }

  /** The outcome of the removal never reaches the user: only the operator
      log depends on it. */
  lemma RemovalNotShown(text: string, o: Outcomes, removal: Outcome<string>)
    ensures var t := HandleMessage(text, o);
            var u := HandleMessage(text, o.(removal := removal));
            t.replies == u.replies && t.statuses == u.statuses && t.uploadAttempts == u.uploadAttempts && t.removeCalls == u.removeCalls
  {
  }
}
