/**
  The translation part of NetworkHandler.run() (NetworkHandler.java:49-188)
  as one function from what the handler sees to what it does, and the
  handler object itself, whose `translate` flag lets that part run once.
 */
module Sync {
  import opened Wrappers
  import opened Strings
  import opened CacheHeader
  import opened CacheValidator
  import opened TranslationRequest
  import opened ResponseFilter
  import opened CacheWriter

  /** The code the configured language is compared and stored under: trimmed, then lower-cased. */
  function LanguageCode(configured: string): (code: string)
    ensures IsTrimmed(code)
  {
    ToLower(Trim(configured))
  }

  /** Translation is attempted only for a code that does not start with "en" and is longer than one char. */
  predicate Translates(code: string): (b: bool)
    ensures b <==> |code| >= 2 && !(code[0] == 'e' && code[1] == 'n')
  {
    !StartsWith(code, "en") && |code| > 1
  }

  /**
    A code read back from a cache header and configured again is the same
    code: normalising twice changes nothing.
   */
  lemma LanguageCodeIsStable(configured: string)
    ensures LanguageCode(LanguageCode(configured)) == LanguageCode(configured)
  {
    var code := LanguageCode(configured);
    assert Trim(code) == code;
    var again := ToLower(code);
    assert forall i :: 0 <= i < |again| ==> again[i] == code[i];
  }

  /** The library calls and configuration the handler uses but this model does not define. */
  datatype Library = Library(
    toJson: map<string, string> -> string,          // JSONObject.toJSONString
    parse: string -> Option<map<string, string>>,   // JSONParser.parse; None when it throws
    lineSeparator: string)                          // Config.LINE_SEPARATOR

  /** The service's answer: the status code and the lines of the body. */
  datatype Response = Response(status: int, lines: seq<string>)

  /** What became of a request: nothing usable, or the translations applied and the file text written. */
  datatype Fetched = NoWrite | Write(translated: map<nat, string>, content: string)

  /**
    Reset: the language is English (or degenerate) and the cache is reset.
    Skip: the cache is valid; nothing is sent or written.
    Fetch: the cache is not reused; postBody is the request body built for
    this run, reset tells whether the cache was reset first (its header
    named another version or language), and result tells whether the
    service answered with something usable (NoWrite also covers a
    connection that failed before anything was sent).
   */
  datatype Outcome = Reset | Skip | Fetch(reset: bool, postBody: string, result: Fetched)

  /** Lines 125-168: what is kept of the answer (None: the connection failed). */
  function Receive(response: Option<Response>, catalog: seq<PhraseDef>, version: string,
                   code: string, lib: Library): (f: Fetched)
    ensures f.Write? <==> response.Some? && response.value.status == 200 &&
                          WellShaped(JoinTrimmed(response.value.lines)) &&
                          lib.parse(JoinTrimmed(response.value.lines)).Some?
    ensures f.Write? ==> StartsWith(f.content, Encode(version, code) + lib.lineSeparator)
    ensures f.Write? ==> forall i :: i in f.translated ==> i < |catalog| && IsTrimmed(f.translated[i]) && f.translated[i] != []
  {
    match response
    case None => NoWrite
    case Some(r) =>
      if r.status != 200 then NoWrite
      else
        var text := JoinTrimmed(r.lines);
        if !WellShaped(text) then NoWrite
        else match lib.parse(text)
          case None => NoWrite
          case Some(json) =>
            var translated := Filtered(json, catalog);
            Write(translated, CacheContent(version, code, catalog, translated, lib.lineSeparator))
  }

  /** One pass through the translation block of run(). */
  function Sync(language: string, version: string, catalog: seq<PhraseDef>, disk: Disk,
                response: Option<Response>, lib: Library): (r: Outcome)
    ensures r.Reset? <==> !Translates(LanguageCode(language))
    ensures r.Skip? <==> Translates(LanguageCode(language)) && CheckCache(disk, version, LanguageCode(language)).valid
    ensures r.Fetch? ==> r.reset == CheckCache(disk, version, LanguageCode(language)).reset && '+' !in r.postBody
  {
    var code := LanguageCode(language);
    if !Translates(code) then Reset
    else
      var check := CheckCache(disk, version, code);
      if check.valid then Skip
      else Fetch(check.reset, PostBody(lib.toJson(Payload(catalog, version, code))),
                 Receive(response, catalog, version, code, lib))
  }

  /** The cache is reset without any request exactly for English and one-char codes. */
  lemma DefaultLanguageResets(language: string, version: string, catalog: seq<PhraseDef>, disk: Disk,
                              response: Option<Response>, lib: Library)
    ensures Sync(language, version, catalog, disk, response, lib) == Reset <==> !Translates(LanguageCode(language))
  {
  }

  /** A cache written for this version and language and newer than the language file: no request. */
  lemma ValidCacheSkips(language: string, version: string, catalog: seq<PhraseDef>, disk: Disk,
                        response: Option<Response>, lib: Library)
    requires Translates(LanguageCode(language)) && Encodable(version, LanguageCode(language))
    requires disk.languageReadable && disk.cacheReadable && disk.languageMtime < disk.cacheMtime
    requires disk.cacheFirstLine == Some(Encode(version, LanguageCode(language)))
    ensures Sync(language, version, catalog, disk, response, lib) == Skip
  {
    FreshCacheIsValid(disk, version, LanguageCode(language));
  }

  /** A cache written for another version or language is reset and a request is sent. */
  lemma SupersededCacheRefetches(language: string, version: string, catalog: seq<PhraseDef>, disk: Disk,
                                 response: Option<Response>, lib: Library, oldVersion: string, oldLanguage: string)
    requires Translates(LanguageCode(language)) && Encodable(oldVersion, oldLanguage)
    requires oldVersion != version || oldLanguage != LanguageCode(language)
    requires disk.languageReadable && disk.cacheReadable
    requires disk.cacheFirstLine == Some(Encode(oldVersion, oldLanguage))
    ensures Sync(language, version, catalog, disk, response, lib).Fetch?
    ensures Sync(language, version, catalog, disk, response, lib).reset
  {
    SupersededCacheResets(disk, version, LanguageCode(language), oldVersion, oldLanguage);
  }

  /**
    Nothing is written unless the connection succeeded with status 200 and
    the trimmed body looks like a JSON object that parses; then the file is
    the header and the filtered translations, every one a known phrase with
    a trimmed, non-empty value.
   */
  lemma WriteNeedsUsableAnswer(language: string, version: string, catalog: seq<PhraseDef>, disk: Disk,
                               response: Option<Response>, lib: Library)
    requires Sync(language, version, catalog, disk, response, lib).Fetch?
    requires Sync(language, version, catalog, disk, response, lib).result.Write?
    ensures response.Some? && response.value.status == 200
    ensures WellShaped(JoinTrimmed(response.value.lines)) && lib.parse(JoinTrimmed(response.value.lines)).Some?
    ensures var result := Sync(language, version, catalog, disk, response, lib).result;
            && result.translated == Filtered(lib.parse(JoinTrimmed(response.value.lines)).value, catalog)
            && result.content == CacheContent(version, LanguageCode(language), catalog, result.translated, lib.lineSeparator)
            && (forall i :: i in result.translated ==> i < |catalog| && IsTrimmed(result.translated[i]) && result.translated[i] != [])
  {
    var json := lib.parse(JoinTrimmed(response.value.lines)).value;
    forall i | i in Filtered(json, catalog)
      ensures i < |catalog| && IsTrimmed(Filtered(json, catalog)[i]) && Filtered(json, catalog)[i] != []
    {
      FilteredIsSound(json, catalog, i);
    }
  }

  /**
    Once a cache has been written, its text starts with the header line for
    this version and language. The next run with the same version and
    language, on a disk that reports that header as the cache's first line
    and the language file as older, finds the cache valid and sends nothing.
    Reading the first line back from the written text is not modelled: the
    second half takes the disk's report as given, so it does not depend on
    the first run.
   */
  lemma WrittenCacheIsReused(language: string, version: string, catalog: seq<PhraseDef>, disk: Disk,
                             response: Option<Response>, lib: Library, disk': Disk, response': Option<Response>)
    requires Sync(language, version, catalog, disk, response, lib).Fetch?
    requires Sync(language, version, catalog, disk, response, lib).result.Write?
    requires Encodable(version, LanguageCode(language))
    requires disk'.languageReadable && disk'.cacheReadable && disk'.languageMtime < disk'.cacheMtime
    requires disk'.cacheFirstLine == Some(Encode(version, LanguageCode(language)))
    ensures StartsWith(Sync(language, version, catalog, disk, response, lib).result.content,
                       Encode(version, LanguageCode(language)) + lib.lineSeparator)
    ensures Sync(language, version, catalog, disk', response', lib) == Skip
  {
    var code := LanguageCode(language);
    var t := Sync(language, version, catalog, disk, response, lib).result.translated;
    ContentStartsWithHeader(version, code, catalog, t, lib.lineSeparator);
    ValidCacheSkips(language, version, catalog, disk', response', lib);
  }

  /**
    A body of one line that parses to a single pair naming the only phrase,
    with a value that is not blank and has no double quote: the value is
    kept trimmed, and the file is the header, two line separators and
    `NAME: "value"`.
   */
  lemma OnePhraseAnswer(version: string, code: string, p: PhraseDef, line: string, value: string, lib: Library)
    requires WellShaped(Trim(line)) && lib.parse(Trim(line)) == Some(map[p.name := value])
    requires Trim(value) != [] && '"' !in Trim(value)
    ensures Receive(Some(Response(200, [line])), [p], version, code, lib) ==
            Write(map[0 := Trim(value)],
                  Encode(version, code) + lib.lineSeparator + (lib.lineSeparator + (p.name + ": " + ("\"" + Trim(value) + "\""))))
  {
    JoinTrimmedSingle(line);
    FilteredSingle(p, value);
    OneEntryContent(version, code, p, Trim(value), lib.lineSeparator);
  }

  /**
    The same answer seen from a whole run: with no readable cache, a
    translating language sends the request without a reset and writes the
    one-entry file.
   */
  lemma OnePhraseRun(language: string, version: string, p: PhraseDef, disk: Disk,
                     line: string, value: string, lib: Library)
    requires Translates(LanguageCode(language)) && !disk.cacheReadable
    requires WellShaped(Trim(line)) && lib.parse(Trim(line)) == Some(map[p.name := value])
    requires Trim(value) != [] && '"' !in Trim(value)
    ensures var code := LanguageCode(language);
            Sync(language, version, [p], disk, Some(Response(200, [line])), lib) ==
            Fetch(false, PostBody(lib.toJson(Payload([p], version, code))),
                  Write(map[0 := Trim(value)],
                        Encode(version, code) + lib.lineSeparator + (lib.lineSeparator + (p.name + ": " + ("\"" + Trim(value) + "\"")))))
  {
    OnePhraseAnswer(version, LanguageCode(language), p, line, value, lib);
  }

  /** Lines 125-168 step by step: read, check, parse, filter and write. */
  method Exchange(response: Option<Response>, catalog: seq<PhraseDef>, phraseSet: set<string>,
                  version: string, languageCode: string, lib: Library) returns (result: Fetched)
    requires DistinctNames(catalog) && phraseSet == Names(catalog)
    ensures result == Receive(response, catalog, version, languageCode, lib)
  {
    result := NoWrite;
    if response.Some? && response.value.status == 200 {
      var text := ReadResponse(response.value.lines);
      if |text| > 0 && StartsWith(text, "{") && EndsWith(text, "}") {
        var parsed := lib.parse(text);
        if parsed.Some? {
          var translated := FilterResponse(parsed.value, catalog, phraseSet);
          var content := WriteCache(version, languageCode, catalog, translated, lib.lineSeparator);
          result := Write(translated, content);
        }
      }
    }
  }

  /** The handler object: `translate` starts true and is cleared after the translation block. */
  class NetworkHandler {
    const startup: bool
    const background: bool
    var translate: bool

    constructor (startup: bool, background: bool)
      ensures this.startup == startup && this.background == background
      ensures translate
    {
      this.startup := startup;
      this.background := background;
      translate := true;
    }

    /**
      The translation block of run(): effects is None when the flag was
      already cleared, and otherwise what Sync says the block does.
     */
    method Run(language: string, version: string, catalog: seq<PhraseDef>, disk: Disk,
               response: Option<Response>, lib: Library) returns (effects: Option<Outcome>)
      requires DistinctNames(catalog)
      modifies this
      ensures !translate
      ensures effects == if old(translate) then Some(Sync(language, version, catalog, disk, response, lib)) else None
    {
      if !translate {
        return None;
      }
      var languageCode := LanguageCode(language);
      var outcome: Outcome;
      if Translates(languageCode) {
        var check := CheckCache(disk, version, languageCode);
        if check.valid {
          outcome := Skip;
        } else {
          var phraseSet, phrases := BuildPayload(catalog, version, languageCode);
          var body := PostBody(lib.toJson(phrases));
          var result := Exchange(response, catalog, phraseSet, version, languageCode, lib);
          outcome := Fetch(check.reset, body, result);
        }
      } else {
        outcome := Reset;
      }
      translate := false;
      effects := Some(outcome);
    }
  }

  /** A second run of the same handler does nothing, whatever it finds. */
  method RunTwice(language: string, version: string, catalog: seq<PhraseDef>, disk: Disk,
                  response: Option<Response>, lib: Library, disk': Disk, response': Option<Response>)
    returns (first: Option<Outcome>, second: Option<Outcome>)
    requires DistinctNames(catalog)
    ensures first == Some(Sync(language, version, catalog, disk, response, lib))
    ensures second == None
  {
    var handler := new NetworkHandler(true, false);
    first := handler.Run(language, version, catalog, disk, response, lib);
    second := handler.Run(language, version, catalog, disk', response', lib);
  }

}
