/**
 * The per-chat request state machine of bot.js as values: the `pending`
 * table together with the files on disk, the `/encinv` handler (Admit)
 * and the `message` handler (Respond), each taken as one atomic step.
 * Clock reads, random draws, the download and the obfuscation engine's
 * success are parameters.
 */
module Requests {

  import opened Wrappers
  import SecurityCode
  import JsText
  import Paths

  type ChatId = int

  /** How long a security code stays valid, in milliseconds (bot.js:76). */
  const TtlMillis: nat := 60 * 1000

  /** One pending request: `{fileId, fileName, secCode, expiresAt, tempPath}`. */
  datatype Entry = Entry(fileId: string, fileName: string, secCode: string, expiresAt: int, tempPath: string)

  /** The `pending` table and the set of files that exist on disk. */
  datatype Store = Store(pending: map<ChatId, Entry>, files: set<string>)

  /** The document of the message `/encinv` replies to; Telegram may omit its name. */
  datatype Document = Document(fileId: string, fileName: Option<string>)

  /** The message `/encinv` replies to, which may carry no document. */
  datatype Replied = Replied(document: Option<Document>)

  /** How fetching and staging the upload went; on success, the clock reading used in the temp name. */
  datatype Fetch = FetchFailed | Fetched(stagedAt: nat)

  /** What `/encinv` tells the chat. Aborted: the handler threw before replying, so nothing is sent. */
  datatype Prompt = Warned | Aborted | CodeSent(code: string) | DownloadFailed

  /** What the reply handler does with one message. */
  datatype Outcome = Ignored | Expired | WrongCode | Processed | Failed

  datatype AdmitStep = AdmitStep(store: Store, prompt: Prompt)
  datatype RespondStep = RespondStep(store: Store, outcome: Outcome)

  predicate EndsWith(s: string, suffix: string)
  {
    |suffix| <= |s| && s[|s| - |suffix|..] == suffix
  }

  /** The entries the bot itself creates: a fresh 6-symbol code and a ".js" upload staged under "./@temp_". */
  ghost predicate WellFormed(e: Entry)
  {
    SecurityCode.IsCode(e.secCode, SecurityCode.DefaultLength)
    && EndsWith(e.fileName, ".js")
    && exists stagedAt: nat :: e.tempPath == Paths.TempPath(stagedAt, e.fileName)
  }

  ghost predicate Valid(s: Store)
  {
    forall c :: c in s.pending ==> WellFormed(s.pending[c])
  }

  /**
   * The `/encinv` handler (bot.js:55-92). Without a replied-to document
   * whose name ends in ".js" it warns; a document without a name makes
   * `endsWith` throw before anything is sent. Otherwise it stages the
   * download, installs a fresh entry, overwriting whatever the chat had,
   * and sends the code. A failed download is reported; a failure to send
   * the code lands in the same handler, after the entry is installed.
   */
  function Admit(s: Store, chatId: ChatId, reply: Option<Replied>, fetch: Fetch,
                 draws: seq<SecurityCode.Draw>, now: nat, promptDelivered: bool): (r: AdmitStep)
    requires |draws| == SecurityCode.DefaultLength
    ensures r.store != s ==> IsJsUpload(reply) && fetch.Fetched?
    ensures s.files <= r.store.files && r.store.pending.Keys <= s.pending.Keys + {chatId}
    ensures r.prompt.CodeSent? ==> chatId in r.store.pending && r.store.pending[chatId].secCode == r.prompt.code
                                   && SecurityCode.IsCode(r.prompt.code, SecurityCode.DefaultLength)
  {
    if reply.None? || reply.value.document.None? then AdmitStep(s, Warned)
    else
      var doc := reply.value.document.value;
      if doc.fileName.None? then AdmitStep(s, Aborted)
      else if !EndsWith(doc.fileName.value, ".js") then AdmitStep(s, Warned)
      else if fetch.FetchFailed? then AdmitStep(s, DownloadFailed)
      else
        var tempPath := Paths.TempPath(fetch.stagedAt, doc.fileName.value);
        var code := SecurityCode.GenerateSecurityCode(SecurityCode.DefaultLength, draws);
        var entry := Entry(doc.fileId, doc.fileName.value, code, now + TtlMillis, tempPath);
        AdmitStep(Store(s.pending[chatId := entry], s.files + {tempPath}),
                  if promptDelivered then CodeSent(code) else DownloadFailed)
  }

  /** The reply check of bot.js:113: the trimmed, upper-cased text equals the code. */
  predicate Matches(text: string, code: string)
    ensures Matches(text, code) ==> |JsText.Trim(text)| <= |code|
    ensures Matches(text, code) && code != [] ==> !JsText.AllWhitespace(text)
  {
    JsText.Normalize(text) == code
  }

  /**
   * The `message` handler (bot.js:95-175), checks in the source's order:
   * no (or empty) text, no entry, expiry (strictly after `expiresAt`), a
   * wrong code; a match consumes the entry first. The staged file is then
   * read (which throws if it is gone) and the engine runs; on success the
   * output is written and the staged file deleted. Every failure after the
   * match ends in the catch-all, which deletes nothing.
   */
  function Respond(s: Store, chatId: ChatId, text: Option<string>, now: nat, engineSucceeds: bool): (r: RespondStep)
    ensures r.outcome in {Ignored, WrongCode} ==> r.store == s
    ensures r.outcome !in {Ignored, WrongCode} ==> chatId in s.pending && r.store.pending == s.pending - {chatId}
    ensures r.outcome in {Processed, Failed}
            ==> text.Some? && chatId in s.pending && now <= s.pending[chatId].expiresAt
                && Matches(text.value, s.pending[chatId].secCode)
    ensures r.outcome != Processed ==> r.store.files <= s.files
  {
    if text.None? || text.value == "" then RespondStep(s, Ignored)
    else if chatId !in s.pending then RespondStep(s, Ignored)
    else
      var entry := s.pending[chatId];
      if now > entry.expiresAt then
        RespondStep(Store(s.pending - {chatId}, s.files - {entry.tempPath}), Expired)
      else if !Matches(text.value, entry.secCode) then RespondStep(s, WrongCode)
      else
        var consumed := s.pending - {chatId};
        if entry.tempPath !in s.files || !engineSucceeds then RespondStep(Store(consumed, s.files), Failed)
        else RespondStep(Store(consumed, s.files + {Paths.OutPath(entry.fileName)} - {entry.tempPath}), Processed)
  }

  /** The reply was accepted and the staged file could be read, so the progress animation starts. */
  predicate StartsTransform(s: Store, chatId: ChatId, text: Option<string>, now: nat)
  {
    text.Some? && text.value != "" && chatId in s.pending
    && now <= s.pending[chatId].expiresAt
    && Matches(text.value, s.pending[chatId].secCode)
    && s.pending[chatId].tempPath in s.files
  }

  /** The replied-to message names a document whose name ends in ".js" (the guard of bot.js:59). */
  predicate IsJsUpload(reply: Option<Replied>)
  {
    reply.Some? && reply.value.document.Some? && reply.value.document.value.fileName.Some?
    && EndsWith(reply.value.document.value.fileName.value, ".js")
  }

  // ----- /encinv -----

  /** Without a replied-to ".js" document, /encinv only warns (or throws, for a nameless document): nothing changes. */
  lemma AdmitRejectsNonJs(s: Store, chatId: ChatId, reply: Option<Replied>, fetch: Fetch,
                          draws: seq<SecurityCode.Draw>, now: nat, promptDelivered: bool)
    requires |draws| == SecurityCode.DefaultLength
    requires !IsJsUpload(reply)
    ensures Admit(s, chatId, reply, fetch, draws, now, promptDelivered).store == s
    ensures Admit(s, chatId, reply, fetch, draws, now, promptDelivered).prompt
            == if reply.Some? && reply.value.document.Some? && reply.value.document.value.fileName.None?
               then Aborted else Warned
  {
  }

  /** Unless a ".js" upload was staged, /encinv changes nothing. */
  lemma AdmitRejectsOrFails(s: Store, chatId: ChatId, reply: Option<Replied>, fetch: Fetch,
                            draws: seq<SecurityCode.Draw>, now: nat, promptDelivered: bool)
    requires |draws| == SecurityCode.DefaultLength
    requires !IsJsUpload(reply) || fetch.FetchFailed?
    ensures Admit(s, chatId, reply, fetch, draws, now, promptDelivered).store == s
  {
  }

  /** A failed download is reported and leaves the table and the disk as they were. */
  lemma AdmitDownloadFailure(s: Store, chatId: ChatId, reply: Option<Replied>,
                             draws: seq<SecurityCode.Draw>, now: nat, promptDelivered: bool)
    requires |draws| == SecurityCode.DefaultLength
    requires IsJsUpload(reply)
    ensures Admit(s, chatId, reply, FetchFailed, draws, now, promptDelivered) == AdmitStep(s, DownloadFailed)
  {
  }

  /**
   * A staged ".js" upload installs a fresh entry for the chat: the upload's
   * id and name, the code the draws spell, valid until now + 60000, and
   * the staged file's name; the chat is told the code if the prompt goes out.
   */
  lemma AdmitInstalls(s: Store, chatId: ChatId, reply: Option<Replied>, stagedAt: nat,
                      draws: seq<SecurityCode.Draw>, now: nat, promptDelivered: bool, r: AdmitStep)
    requires |draws| == SecurityCode.DefaultLength
    requires IsJsUpload(reply)
    requires r == Admit(s, chatId, reply, Fetched(stagedAt), draws, now, promptDelivered)
    ensures chatId in r.store.pending
    ensures r.store.pending[chatId].fileId == reply.value.document.value.fileId
    ensures r.store.pending[chatId].fileName == reply.value.document.value.fileName.value
    ensures r.store.pending[chatId].secCode == SecurityCode.GenerateSecurityCode(SecurityCode.DefaultLength, draws)
    ensures r.store.pending[chatId].expiresAt == now + 60000
    ensures r.store.pending[chatId].tempPath == Paths.TempPath(stagedAt, r.store.pending[chatId].fileName)
    ensures r.prompt == if promptDelivered then CodeSent(r.store.pending[chatId].secCode) else DownloadFailed
  {
    var doc := reply.value.document.value;
    var tempPath := Paths.TempPath(stagedAt, doc.fileName.value);
    var code := SecurityCode.GenerateSecurityCode(SecurityCode.DefaultLength, draws);
    var entry := Entry(doc.fileId, doc.fileName.value, code, now + TtlMillis, tempPath);
    assert r.store.pending == s.pending[chatId := entry];
    assert r.prompt == if promptDelivered then CodeSent(code) else DownloadFailed;
  }

  /**
   * The install overwrites whatever entry the chat had and leaves every
   * other chat's entry as it was; the only change on disk is the newly
   * staged file, so an overwritten entry's staged file is not deleted.
   */
  lemma AdmitOverwrites(s: Store, chatId: ChatId, reply: Option<Replied>, stagedAt: nat,
                        draws: seq<SecurityCode.Draw>, now: nat, promptDelivered: bool, r: AdmitStep)
    requires |draws| == SecurityCode.DefaultLength
    requires IsJsUpload(reply)
    requires r == Admit(s, chatId, reply, Fetched(stagedAt), draws, now, promptDelivered)
    ensures r.store.pending.Keys == s.pending.Keys + {chatId}
    ensures forall c :: c in s.pending && c != chatId ==> r.store.pending[c] == s.pending[c]
    ensures r.store.files == s.files + {Paths.TempPath(stagedAt, reply.value.document.value.fileName.value)}
  {
  }

  /**
   * Re-running /encinv before replying leaks the first staged file: when
   * the second upload is staged at another millisecond or under another
   * name, the first staged file is still on disk and no entry of the chat
   * refers to it any more.
   */
  lemma SupersededTempLingers(s: Store, chatId: ChatId, earlier: nat, reply: Option<Replied>, stagedAt: nat,
                              draws: seq<SecurityCode.Draw>, now: nat, promptDelivered: bool)
    requires |draws| == SecurityCode.DefaultLength
    requires IsJsUpload(reply)
    requires chatId in s.pending && s.pending[chatId].tempPath in s.files
    requires s.pending[chatId].tempPath == Paths.TempPath(earlier, s.pending[chatId].fileName)
    requires earlier != stagedAt || s.pending[chatId].fileName != reply.value.document.value.fileName.value
    ensures var r := Admit(s, chatId, reply, Fetched(stagedAt), draws, now, promptDelivered);
            s.pending[chatId].tempPath in r.store.files
            && r.store.pending[chatId].tempPath != s.pending[chatId].tempPath
  {
    var name := reply.value.document.value.fileName.value;
    if Paths.TempPath(stagedAt, name) == s.pending[chatId].tempPath {
      Paths.TempPathIsInjective(stagedAt, name, earlier, s.pending[chatId].fileName);
      assert false;
    }
  }

  /** /encinv only ever installs well-formed entries. */
  lemma AdmitPreservesValid(s: Store, chatId: ChatId, reply: Option<Replied>, fetch: Fetch,
                            draws: seq<SecurityCode.Draw>, now: nat, promptDelivered: bool)
    requires |draws| == SecurityCode.DefaultLength
    requires Valid(s)
    ensures Valid(Admit(s, chatId, reply, fetch, draws, now, promptDelivered).store)
  {
    if IsJsUpload(reply) && fetch.Fetched? {
      var r := Admit(s, chatId, reply, fetch, draws, now, promptDelivered);
      var e := r.store.pending[chatId];
      assert e.tempPath == Paths.TempPath(fetch.stagedAt, e.fileName);
      assert WellFormed(e);
    }
  }

  // ----- replies -----

  /** A message without text, or from a chat with no pending entry, changes nothing and is not answered. */
  lemma RespondIgnores(s: Store, chatId: ChatId, text: Option<string>, now: nat, engineSucceeds: bool)
    requires text.None? || text.value == "" || chatId !in s.pending
    ensures Respond(s, chatId, text, now, engineSucceeds) == RespondStep(s, Ignored)
  {
  }

  /**
   * Strictly after `expiresAt`, any text expires the entry: it is removed
   * and its staged file deleted, and nothing else changes.
   */
  lemma RespondExpires(s: Store, chatId: ChatId, text: string, now: nat, engineSucceeds: bool)
    requires text != "" && chatId in s.pending && now > s.pending[chatId].expiresAt
    ensures var r := Respond(s, chatId, Some(text), now, engineSucceeds);
            r.outcome == Expired
            && r.store.pending.Keys == s.pending.Keys - {chatId}
            && (forall c :: c in r.store.pending ==> r.store.pending[c] == s.pending[c])
            && r.store.files == s.files - {s.pending[chatId].tempPath}
  {
  }

  /** Up to and including `expiresAt` the entry is live: the right code is accepted, not expired. */
  lemma RespondLiveUntilDeadline(s: Store, chatId: ChatId, text: string, now: nat, engineSucceeds: bool)
    requires text != "" && chatId in s.pending && now <= s.pending[chatId].expiresAt
    requires Matches(text, s.pending[chatId].secCode)
    ensures Respond(s, chatId, Some(text), now, engineSucceeds).outcome in {Processed, Failed}
  {
  }

  /**
   * The gate in the other direction: in a well-formed table, a reply that
   * goes on to processing has, once trimmed, at most six characters, each a
   * code symbol, an ASCII lower-case letter, sharp s, dotless i, long s or a
   * Latin ligature U+FB00 to U+FB06.
   */
  lemma RespondAcceptsOnly(s: Store, chatId: ChatId, text: string, now: nat, engineSucceeds: bool)
    requires Valid(s)
    requires Respond(s, chatId, Some(text), now, engineSucceeds).outcome in {Processed, Failed}
    ensures |JsText.Trim(text)| <= SecurityCode.DefaultLength
    ensures forall i :: 0 <= i < |JsText.Trim(text)| ==> JsText.UppersToSymbol(JsText.Trim(text)[i])
  {
    assert chatId in s.pending && Matches(text, s.pending[chatId].secCode);
    assert WellFormed(s.pending[chatId]);
    JsText.NormalizeAcceptsOnly(text, s.pending[chatId].secCode);
  }

  /** Before expiry, a text that does not normalise to the code is ignored silently and the entry stays as it was. */
  lemma RespondWrongCode(s: Store, chatId: ChatId, text: string, now: nat, engineSucceeds: bool)
    requires text != "" && chatId in s.pending && now <= s.pending[chatId].expiresAt
    requires !Matches(text, s.pending[chatId].secCode)
    ensures Respond(s, chatId, Some(text), now, engineSucceeds) == RespondStep(s, WrongCode)
  {
  }

  /**
   * A matching reply consumes the entry whatever happens next. The run
   * succeeds exactly when the staged file is still there and the engine
   * succeeds; then the output file is written and the staged file is
   * deleted, while the output file stays. On failure the disk stays as it
   * was, staged file included.
   */
  lemma RespondConsumes(s: Store, chatId: ChatId, text: string, now: nat, engineSucceeds: bool)
    requires text != "" && chatId in s.pending && now <= s.pending[chatId].expiresAt
    requires Matches(text, s.pending[chatId].secCode)
    requires Valid(s)
    ensures var r := Respond(s, chatId, Some(text), now, engineSucceeds);
            var e := s.pending[chatId];
            && r.store.pending.Keys == s.pending.Keys - {chatId}
            && (forall c :: c in r.store.pending ==> r.store.pending[c] == s.pending[c])
            && (r.outcome == Processed <==> e.tempPath in s.files && engineSucceeds)
            && (r.outcome == Processed ==>
                  r.store.files == s.files - {e.tempPath} + {Paths.OutPath(e.fileName)})
            && (r.outcome == Failed ==> r.store.files == s.files)
  {
    var e := s.pending[chatId];
    var r := Respond(s, chatId, Some(text), now, engineSucceeds);
    var consumed := s.pending - {chatId};
    if e.tempPath in s.files && engineSucceeds {
      var out := Paths.OutPath(e.fileName);
      assert r == RespondStep(Store(consumed, s.files + {out} - {e.tempPath}), Processed);
      assert WellFormed(e);
      var stagedAt: nat :| e.tempPath == Paths.TempPath(stagedAt, e.fileName);
      Paths.TempIsNotOut(stagedAt, e.fileName, e.fileName);
      assert s.files + {out} - {e.tempPath} == s.files - {e.tempPath} + {out};
    } else {
      assert r == RespondStep(Store(consumed, s.files), Failed);
    }
  }

  /** Once a reply has consumed or expired the entry, every later message from the chat is ignored until the next /encinv. */
  lemma ConsumedEntryIsGone(s: Store, chatId: ChatId, text: Option<string>, now: nat, engineSucceeds: bool,
                            later: Option<string>, laterNow: nat, laterSucceeds: bool)
    requires Respond(s, chatId, text, now, engineSucceeds).outcome in {Processed, Failed, Expired}
    ensures var s' := Respond(s, chatId, text, now, engineSucceeds).store;
            Respond(s', chatId, later, laterNow, laterSucceeds) == RespondStep(s', Ignored)
  {
  }

  /** Replies only ever remove entries, so the table stays well formed. */
  lemma RespondPreservesValid(s: Store, chatId: ChatId, text: Option<string>, now: nat, engineSucceeds: bool)
    requires Valid(s)
    ensures Valid(Respond(s, chatId, text, now, engineSucceeds).store)
  {
  }

  // ----- runs of several handler invocations -----

  /** The draws of one /encinv: exactly one per code character. */
  type CodeDraws = d: seq<SecurityCode.Draw> | |d| == SecurityCode.DefaultLength witness [0, 0, 0, 0, 0, 0]

  /** One handler invocation, taken as an atomic step. */
  datatype Event =
    | EncInv(chatId: ChatId, reply: Option<Replied>, fetch: Fetch, draws: CodeDraws, now: nat, promptDelivered: bool)
    | Message(chatId: ChatId, text: Option<string>, now: nat, engineSucceeds: bool)

  function Step(s: Store, e: Event): Store
  {
    match e
    case EncInv(c, reply, fetch, draws, now, promptDelivered) =>
      Admit(s, c, reply, fetch, draws, now, promptDelivered).store
    case Message(c, text, now, engineSucceeds) => Respond(s, c, text, now, engineSucceeds).store
  }

  function Run(s: Store, events: seq<Event>): Store
    decreases |events|
  {
    if events == [] then s else Run(Step(s, events[0]), events[1..])
  }

  /** The event is an /encinv from chat `c` that installs an entry. */
  predicate Installs(e: Event, c: ChatId)
  {
    e.EncInv? && e.chatId == c && IsJsUpload(e.reply) && e.fetch.Fetched?
  }

  /** The event is a reply from chat `c` that matches its live code in state `s`, so the transformation runs. */
  predicate Consumes(s: Store, e: Event, c: ChatId)
  {
    e.Message? && e.chatId == c && Respond(s, c, e.text, e.now, e.engineSucceeds).outcome in {Processed, Failed}
  }

  function InstallCount(events: seq<Event>, c: ChatId): nat
  {
    if events == [] then 0 else (if Installs(events[0], c) then 1 else 0) + InstallCount(events[1..], c)
  }

  function ConsumeCount(s: Store, events: seq<Event>, c: ChatId): nat
    decreases |events|
  {
    if events == [] then 0
    else (if Consumes(s, events[0], c) then 1 else 0) + ConsumeCount(Step(s, events[0]), events[1..], c)
  }

  /** A reply never adds an entry; it removes at most the replying chat's, and a matching reply always removes it. */
  lemma RespondKeys(s: Store, chatId: ChatId, text: Option<string>, now: nat, engineSucceeds: bool, r: RespondStep)
    requires r == Respond(s, chatId, text, now, engineSucceeds)
    ensures s.pending.Keys - {chatId} <= r.store.pending.Keys <= s.pending.Keys
    ensures r.outcome in {Processed, Failed} ==> chatId in s.pending && chatId !in r.store.pending
  {
  }

  /** Only the acting chat's entry can appear or disappear, and only an install makes one appear. */
  lemma StepKeys(s: Store, e: Event, c: ChatId)
    ensures c in Step(s, e).pending && !Installs(e, c) ==> c in s.pending
    ensures Installs(e, c) ==> c in Step(s, e).pending
    ensures Consumes(s, e, c) ==> c in s.pending && c !in Step(s, e).pending
  {
    match e
    case EncInv(chat, reply, fetch, draws, now, promptDelivered) =>
      var r := Admit(s, chat, reply, fetch, draws, now, promptDelivered);
      if IsJsUpload(reply) && fetch.Fetched? {
        AdmitOverwrites(s, chat, reply, fetch.stagedAt, draws, now, promptDelivered, r);
      } else {
        AdmitRejectsOrFails(s, chat, reply, fetch, draws, now, promptDelivered);
      }
    case Message(chat, text, now, engineSucceeds) =>
      RespondKeys(s, chat, text, now, engineSucceeds, Respond(s, chat, text, now, engineSucceeds));
  }

  /**
   * Each issued code is consumed at most once: over any run of handler
   * invocations, the transformations a chat gets, plus one if it still
   * has an entry at the end, never exceed the codes it was issued, plus
   * one if it had an entry at the start.
   */
  lemma {:induction false} AtMostOneTransformPerCode(s: Store, events: seq<Event>, c: ChatId)
    ensures ConsumeCount(s, events, c) + (if c in Run(s, events).pending then 1 else 0)
            <= InstallCount(events, c) + (if c in s.pending then 1 else 0)
    decreases |events|
  {
    if events != [] {
      StepKeys(s, events[0], c);
      AtMostOneTransformPerCode(Step(s, events[0]), events[1..], c);
    }
  }

  /** Without a new /encinv, a chat gets at most one transformation however many replies it sends. */
  lemma SingleUse(s: Store, events: seq<Event>, c: ChatId)
    requires InstallCount(events, c) == 0
    ensures ConsumeCount(s, events, c) <= 1
  {
    AtMostOneTransformPerCode(s, events, c);
  }

  // ----- end-to-end scenarios -----

  /** Draws that spell the code "AB12C3". */
  const ScenarioDraws: CodeDraws := [0, 1, 27, 28, 2, 29]

  lemma ScenarioCode()
    ensures SecurityCode.GenerateSecurityCode(SecurityCode.DefaultLength, ScenarioDraws) == "AB12C3"
  {
    SecurityCode.AlphabetSymbols();
  }

  /** The reply "ab12c3" normalises to the code "AB12C3". */
  lemma LowerCaseReplyMatches()
    ensures Matches("ab12c3", "AB12C3")
  {
    assert [] + "ab12c3" + [] == "ab12c3";
    assert SecurityCode.IsCode("AB12C3", 6);
    assert JsText.IsCaseVariant("ab12c3", "AB12C3") by {
      forall i | 0 <= i < 6
        ensures "ab12c3"[i] == "AB12C3"[i] || "ab12c3"[i] == JsText.LowerOf("AB12C3"[i])
      {
      }
    }
    JsText.NormalizeCaseVariant([], "ab12c3", [], "AB12C3");
  }

  /** The reply "WRONG1" does not normalise to the code "AB12C3". */
  lemma WrongReplyDoesNotMatch()
    ensures !Matches("WRONG1", "AB12C3")
  {
    assert [] + "WRONG1" + [] == "WRONG1";
    JsText.NormalizeCaseVariant([], "WRONG1", [], "WRONG1");
  }

  /**
   * Scenario: /encinv at time t issues "AB12C3"; the reply "ab12c3" five
   * seconds later is accepted, the entry is consumed and the output is
   * delivered; replaying the code afterwards is ignored.
   */
  lemma ScenarioAccepted(s: Store, chatId: ChatId, reply: Option<Replied>, stagedAt: nat, t: nat, later: Option<string>)
    requires IsJsUpload(reply)
    ensures var s1 := Admit(s, chatId, reply, Fetched(stagedAt), ScenarioDraws, t, true);
            var s2 := Respond(s1.store, chatId, Some("ab12c3"), t + 5000, true);
            && s1.prompt == CodeSent("AB12C3")
            && s2.outcome == Processed
            && chatId !in s2.store.pending
            && Respond(s2.store, chatId, later, t + 6000, true) == RespondStep(s2.store, Ignored)
  {
    var s1 := Admit(s, chatId, reply, Fetched(stagedAt), ScenarioDraws, t, true);
    ScenarioInstalled(s, chatId, reply, stagedAt, t, s1);
    LowerCaseReplyMatches();
    var e := s1.store.pending[chatId];
    var s2 := Respond(s1.store, chatId, Some("ab12c3"), t + 5000, true);
    assert s2 == RespondStep(Store(s1.store.pending - {chatId}, s1.store.files + {Paths.OutPath(e.fileName)} - {e.tempPath}),
                             Processed);
    ConsumedEntryIsGone(s1.store, chatId, Some("ab12c3"), t + 5000, true, later, t + 6000, true);
  }

  /** The /encinv half of the scenarios: the draws install the code "AB12C3", due at t + 60000, with its staged file on disk. */
  lemma ScenarioInstalled(s: Store, chatId: ChatId, reply: Option<Replied>, stagedAt: nat, t: nat, s1: AdmitStep)
    requires IsJsUpload(reply)
    requires s1 == Admit(s, chatId, reply, Fetched(stagedAt), ScenarioDraws, t, true)
    ensures s1.prompt == CodeSent("AB12C3") && chatId in s1.store.pending
    ensures var e := s1.store.pending[chatId];
            e.secCode == "AB12C3" && e.expiresAt == t + 60000 && e.tempPath in s1.store.files
  {
    AdmitInstalls(s, chatId, reply, stagedAt, ScenarioDraws, t, true, s1);
    AdmitOverwrites(s, chatId, reply, stagedAt, ScenarioDraws, t, true, s1);
    ScenarioCode();
  }

  /** Scenario: a wrong reply five seconds after /encinv changes nothing; the entry is still live until t + 60000. */
  lemma ScenarioWrongReply(s: Store, chatId: ChatId, reply: Option<Replied>, stagedAt: nat, t: nat)
    requires IsJsUpload(reply)
    ensures var s1 := Admit(s, chatId, reply, Fetched(stagedAt), ScenarioDraws, t, true);
            var s2 := Respond(s1.store, chatId, Some("WRONG1"), t + 5000, true);
            && s2 == RespondStep(s1.store, WrongCode)
            && chatId in s2.store.pending && s2.store.pending[chatId].expiresAt == t + 60000
  {
    var s1 := Admit(s, chatId, reply, Fetched(stagedAt), ScenarioDraws, t, true);
    ScenarioInstalled(s, chatId, reply, stagedAt, t, s1);
    WrongReplyDoesNotMatch();
  }

  /** Scenario: the right code sent 61 seconds after /encinv is too late; the entry and its staged file are removed. */
  lemma ScenarioExpired(s: Store, chatId: ChatId, reply: Option<Replied>, stagedAt: nat, t: nat)
    requires IsJsUpload(reply)
    ensures var s1 := Admit(s, chatId, reply, Fetched(stagedAt), ScenarioDraws, t, true);
            var s2 := Respond(s1.store, chatId, Some("AB12C3"), t + 61000, true);
            && s2.outcome == Expired
            && chatId !in s2.store.pending
            && s1.store.pending[chatId].tempPath !in s2.store.files
  {
    var s1 := Admit(s, chatId, reply, Fetched(stagedAt), ScenarioDraws, t, true);
    ScenarioInstalled(s, chatId, reply, stagedAt, t, s1);
  }

  /**
   * Scenario: the engine fails on a matching reply. The entry is gone, but
   * the staged file stays on disk and the chat is sent nothing.
   */
  lemma ScenarioEngineFails(s: Store, chatId: ChatId, reply: Option<Replied>, stagedAt: nat, t: nat)
    requires IsJsUpload(reply)
    ensures var s1 := Admit(s, chatId, reply, Fetched(stagedAt), ScenarioDraws, t, true);
            var s2 := Respond(s1.store, chatId, Some("ab12c3"), t + 5000, false);
            && s2.outcome == Failed
            && chatId !in s2.store.pending
            && s1.store.pending[chatId].tempPath in s2.store.files
  {
    var s1 := Admit(s, chatId, reply, Fetched(stagedAt), ScenarioDraws, t, true);
    ScenarioInstalled(s, chatId, reply, stagedAt, t, s1);
    LowerCaseReplyMatches();
    var e := s1.store.pending[chatId];
    assert Respond(s1.store, chatId, Some("ab12c3"), t + 5000, false)
           == RespondStep(Store(s1.store.pending - {chatId}, s1.store.files), Failed);
  }
}
