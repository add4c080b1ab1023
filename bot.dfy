/**
 * The bot's mutable state as bot.js holds it: the `pending` object, updated
 * in place by assignment and `delete`, and the files the handlers write
 * and unlink. Each handler is a method proved against its step function
 * in Requests.
 */
module Bot {

  import opened Wrappers
  import SecurityCode
  import JsText
  import Paths
  import Progress
  import opened Requests

  class Bot {
    /** chatId -> {fileId, fileName, secCode, expiresAt, tempPath} */
    var pending: map<ChatId, Entry>
    /** The files that exist in the working directory. */
    var files: set<string>

    function Snapshot(): Store
      reads this
    {
      Store(pending, files)
    }

    /** Every pending entry is one that /encinv built. */
    ghost predicate Valid()
      reads this
    {
      Requests.Valid(Snapshot())
    }

    /** Start-up: `const pending = {}`, with whatever files the directory already holds. */
    constructor (existing: set<string>)
      ensures pending == map[] && files == existing
      ensures Valid()
    {
      pending := map[];
      files := existing;
    }

    /**
     * `/encinv` (bot.js:55-92): check the replied-to document, stage the
     * download, generate the code and install the entry, then send the code.
     */
    method EncInv(chatId: ChatId, reply: Option<Replied>, fetch: Fetch,
                  draws: seq<SecurityCode.Draw>, now: nat, promptDelivered: bool) returns (prompt: Prompt)
      requires Valid()
      requires |draws| == SecurityCode.DefaultLength
      modifies this
      ensures Snapshot() == Admit(old(Snapshot()), chatId, reply, fetch, draws, now, promptDelivered).store
      ensures prompt == Admit(old(Snapshot()), chatId, reply, fetch, draws, now, promptDelivered).prompt
      ensures Valid()
    {
      AdmitPreservesValid(Snapshot(), chatId, reply, fetch, draws, now, promptDelivered);
      if reply.None? || reply.value.document.None? {
        return Warned;
      }
      var doc := reply.value.document.value;
      if doc.fileName.None? {
        // `file_name.endsWith` throws outside the try block
        return Aborted;
      }
      var fileName := doc.fileName.value;
      if !EndsWith(fileName, ".js") {
        return Warned;
      }
      if fetch.FetchFailed? {
        return DownloadFailed;
      }
      var tempPath := Paths.TempPath(fetch.stagedAt, fileName);
      files := files + {tempPath};
      var secCode := SecurityCode.GenerateSecurityCode(SecurityCode.DefaultLength, draws);
      var expiresAt := now + TtlMillis;
      pending := pending[chatId := Entry(doc.fileId, fileName, secCode, expiresAt, tempPath)];
      if promptDelivered {
        prompt := CodeSent(secCode);
      } else {
        // the awaited send throws inside the try block: the download-failure notice goes out instead
        prompt := DownloadFailed;
      }
    }

    /**
     * The `message` handler (bot.js:95-175). `ticks` is the number of
     * times the one-second interval fires while the engine runs. The
     * animation is returned when it was started; after a failure its
     * interval is still set.
     */
    method OnMessage(chatId: ChatId, text: Option<string>, now: nat, ticks: nat, engineSucceeds: bool)
      returns (outcome: Outcome, progress: Progress.Reporter?)
      requires Valid()
      modifies this
      ensures Snapshot() == Respond(old(Snapshot()), chatId, text, now, engineSucceeds).store
      ensures outcome == Respond(old(Snapshot()), chatId, text, now, engineSucceeds).outcome
      ensures Valid()
      ensures (progress != null) == StartsTransform(old(Snapshot()), chatId, text, now)
      ensures progress != null ==> fresh(progress) && progress.Valid()
      ensures progress != null ==> progress.step == Progress.Min(ticks, |Progress.Frames|)
      ensures progress != null ==> progress.active == (outcome == Failed && ticks < |Progress.Frames|)
    {
      ghost var before := Snapshot();
      ghost var spec := Respond(before, chatId, text, now, engineSucceeds);
      RespondPreservesValid(before, chatId, text, now, engineSucceeds);
      progress := null;
      if text.None? || text.value == "" || chatId !in pending {
        assert spec == RespondStep(before, Ignored);
        return Ignored, null;
      }
      var entry := pending[chatId];
      if now > entry.expiresAt {
        files := files - {entry.tempPath};
        pending := pending - {chatId};
        assert spec == RespondStep(Snapshot(), Expired);
        return Expired, null;
      }
      if JsText.Normalize(text.value) != entry.secCode {
        assert spec == RespondStep(before, WrongCode);
        return WrongCode, null;
      }
      assert StartsTransform(before, chatId, text, now) == (entry.tempPath in files);
      outcome, progress := Consume(chatId, entry, ticks, engineSucceeds);
      assert spec == RespondStep(Snapshot(), outcome);
    }

    /**
     * The pipeline after a match (bot.js:118-171): consume the entry, read
     * the staged file, start the animation, run the engine, write the
     * output, stop the animation, deliver and unlink the staged file. A
     * failure at the read or in the engine ends the pipeline there.
     */
    method Consume(chatId: ChatId, entry: Entry, ticks: nat, engineSucceeds: bool)
      returns (outcome: Outcome, progress: Progress.Reporter?)
      requires chatId in pending && pending[chatId] == entry
      modifies this
      ensures pending == old(pending) - {chatId}
      ensures outcome == if entry.tempPath in old(files) && engineSucceeds then Processed else Failed
      ensures files == if outcome == Processed
                       then old(files) + {Paths.OutPath(entry.fileName)} - {entry.tempPath}
                       else old(files)
      ensures (progress != null) == (entry.tempPath in old(files))
      ensures progress != null ==> fresh(progress) && progress.Valid()
      ensures progress != null ==> progress.step == Progress.Min(ticks, |Progress.Frames|)
      ensures progress != null ==> progress.active == (outcome == Failed && ticks < |Progress.Frames|)
    {
      pending := pending - {chatId};
      if entry.tempPath !in files {
        // readFileSync throws; the catch-all only logs
        return Failed, null;
      }
      progress := new Progress.Reporter.Start();
      progress.Elapse(ticks);
      if !engineSucceeds {
        // the exception skips clearInterval and the unlink
        return Failed, progress;
      }
      files := files + {Paths.OutPath(entry.fileName)};
      progress.Stop();
      files := files - {entry.tempPath};
      outcome := Processed;
    }
  }
}
