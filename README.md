# Griefus language-cache synchronisation, modelled in Dafny

Griefus (a CoreProtect fork) can show its messages in another language. On
start-up, `NetworkHandler.run()` does the following:

- It normalises the configured language code by trimming it and lower-casing it.
- Codes that start with `en`, and codes of at most one char, get no translation. For those it resets the language cache.
- Otherwise it checks whether the cache file on disk can be reused. The file's
  first line is a header such as `# Griefus v22.4 Language Cache (fr)`, and the
  file must be newer than the language definition file.
- When the cache cannot be reused, it posts every phrase's current text (`getUserPhrase()`, `userPhrase` in the model), plus
  `DATA_VERSION` and `DATA_LANGUAGE`, to the translation service. Each `+` in
  the body becomes `{PLUS_SIGN}`.
- It keeps the pairs of the JSON answer that name a known phrase and have a
  non-blank value.
- It rewrites the cache file: the header, then one `NAME: "value"` line per
  translated phrase in enum order, with `"` written as `\"`.
- Finally it clears its `translate` flag, so the block runs once per handler object.

The project has eight modules, one per file:

- `Strings`: the `java.lang.String` operations the handler relies on.
- `CacheHeader`: writing and reading the header line.
- `CacheValidator`: the reuse decision.
- `TranslationRequest`: the request body.
- `ResponseFilter`: reading and filtering the answer.
- `CacheWriter`: the file text.
- `Sync`: the whole block, as a function, as the `NetworkHandler` class and as
  an `Exchange` method.
- `Wrappers`: `Option`.

Some parts of the source work by changing state. These are the loops that fill
`phraseSet`/`phrases`, the `StringBuilder` loop, the loop that fills the
`TreeMap` and the writer loop. Each of them is a method, proved equal to a
specification function. The `translate` flag is a field of a class.

The `Phrase` enum is a sequence of `PhraseDef(name, userPhrase)`. A phrase's
ordinal is its index in that sequence. `TreeMap<Phrase, String>` is a
`map<nat, string>` keyed by ordinal, and `Ordered` lists it in ascending key
order. The following are parameters of the model:

- the JSON serialiser and parser (`Library.toJson`, `Library.parse`; `None` means the parser threw);
- `Config.LINE_SEPARATOR`;
- the HTTP answer (`Option<Response>`; `None` means the connection failed);
- what the disk reports (readability, the cache's first line, modification times).

Two details of the code are worth stating:

- A cache is reused only when the language file is strictly older than the
  cache (NetworkHandler.java:79). Equal times count as stale.
- The body is not URL-encoded. Only `+` is replaced (NetworkHandler.java:103-104).

## Model

| member | source | states |
|---|---|---|
| Strings.Trim | src/main/java/net/coreprotect/thread/NetworkHandler.java:54 | `String.trim()`: the result has no char `<= ' '` at either end, is no longer than the input, and trimmed input is left unchanged |
| Strings.TrimIsSlice | src/main/java/net/coreprotect/thread/NetworkHandler.java:54 | the result of trim is a slice of the input, and every char before and after that slice is `<= ' '` |
| Strings.TrimBlank | src/main/java/net/coreprotect/thread/NetworkHandler.java:142-143 | trim gives the empty string exactly when every char is `<= ' '`, which is what a blank translated value is |
| Strings.ToLower | src/main/java/net/coreprotect/thread/NetworkHandler.java:54 | `toLowerCase()`: same length, each of `A`-`Z` becomes the matching one of `a`-`z`, every other char kept, so no upper-case ASCII letter is left and blank chars stay blank |
| Strings.JavaSplit | src/main/java/net/coreprotect/thread/NetworkHandler.java:69 | `split(" ")`: no piece contains the separator, and a string without one is a single piece |
| Strings.SplitJoin | src/main/java/net/coreprotect/thread/NetworkHandler.java:69 | splitting a join of separator-free pieces gives those pieces back |
| Strings.JoinSplit | src/main/java/net/coreprotect/thread/NetworkHandler.java:69 | joining the pieces of a split gives the string back |
| Strings.ReplaceChar | src/main/java/net/coreprotect/thread/NetworkHandler.java:104 | `replaceAll` with a one-char pattern: the char is gone when the replacement does not contain it |
| Strings.ReplaceCharAppend | src/main/java/net/coreprotect/thread/NetworkHandler.java:104 | the replacement distributes over concatenation |
| CacheHeader.Encode | src/main/java/net/coreprotect/thread/NetworkHandler.java:153 | the header written at the top of the file always starts with `# Griefus` |
| CacheHeader.Decode | src/main/java/net/coreprotect/thread/NetworkHandler.java:68-72 | a line reads as a header exactly when it starts with `# Griefus`, splits on `" "` into six tokens, and tokens 2 and 5 are longer than two chars; a header read back has a space-free version of length >= 2 and a space-free language |
| CacheHeader.SplitLayout | src/main/java/net/coreprotect/thread/NetworkHandler.java:69-70 | a header-shaped line whose version and language hold no space splits into exactly its six tokens |
| CacheHeader.SplitSpacedLayout | src/main/java/net/coreprotect/thread/NetworkHandler.java:69-70 | a space inside the version or the language gives more than six tokens, so the line is refused |
| CacheHeader.DecodeLayout | src/main/java/net/coreprotect/thread/NetworkHandler.java:68-72 | whatever non-space chars stand where `v`, `(` and `)` belong, the line reads back as its version and language exactly when the pair is Encodable; the delimiters are never checked |
| CacheHeader.RoundTrip | src/main/java/net/coreprotect/thread/NetworkHandler.java:68-72 | reading back a header written at line 153 gives exactly the version and language written, and a header reads back at all only when the pair is Encodable |
| CacheHeader.ReencodeDecoded | src/main/java/net/coreprotect/thread/NetworkHandler.java:68-72 | any header that reads back (with the writer of line 153) reads back the same after it is written again |
| CacheValidator.CheckCache | src/main/java/net/coreprotect/thread/NetworkHandler.java:58-81 | valid iff both files are readable, the header reads back as this version and language, and the language file is strictly older; reset iff a readable header names another version or language; never both |
| CacheValidator.FreshCacheIsValid | src/main/java/net/coreprotect/thread/NetworkHandler.java:63-81 | a cache written (line 153) by this version for this language and newer than the language file is reused without a reset |
| CacheValidator.EqualTimesAreStale | src/main/java/net/coreprotect/thread/NetworkHandler.java:79-80 | equal modification times never give a valid cache |
| CacheValidator.SupersededCacheResets | src/main/java/net/coreprotect/thread/NetworkHandler.java:73-78 | a header written for another version or language is invalid and asks for a reset, whatever the times are |
| CacheValidator.MalformedHeaderKeepsCache | src/main/java/net/coreprotect/thread/NetworkHandler.java:68-70 | a first line that does not read as a header makes the cache invalid without a reset |
| TranslationRequest.OrdinalOf | src/main/java/net/coreprotect/thread/NetworkHandler.java:144 | `Phrase.valueOf(name)`: an index below the catalog size whose phrase has that name |
| TranslationRequest.DefaultsKeys | src/main/java/net/coreprotect/thread/NetworkHandler.java:95-98 | the phrases map has exactly the phrase names as keys |
| TranslationRequest.DefaultsLookup | src/main/java/net/coreprotect/thread/NetworkHandler.java:95-98 | with distinct names, each name maps to its own phrase's current text |
| TranslationRequest.Payload | src/main/java/net/coreprotect/thread/NetworkHandler.java:92-101 | the map handed to the serialiser: its keys are exactly the phrase names plus `DATA_VERSION` and `DATA_LANGUAGE`, which hold the plugin version and the language code |
| TranslationRequest.BuildPayload | src/main/java/net/coreprotect/thread/NetworkHandler.java:92-101 | the loop builds phraseSet as the set of phrase names and phrases as the payload |
| TranslationRequest.PayloadContents | src/main/java/net/coreprotect/thread/NetworkHandler.java:95-101 | the payload's keys are the phrase names plus `DATA_VERSION` and `DATA_LANGUAGE`, which hold the version and the language code; every other phrase maps to its own text |
| TranslationRequest.EscapePlus | src/main/java/net/coreprotect/thread/NetworkHandler.java:104 | no `+` is left after the escape |
| TranslationRequest.PostBody | src/main/java/net/coreprotect/thread/NetworkHandler.java:103-104 | the posted body never contains `+` |
| TranslationRequest.EscapePlusSpec | src/main/java/net/coreprotect/thread/NetworkHandler.java:104 | text without `+` is sent unchanged, and each `+` becomes exactly one `{PLUS_SIGN}` with both sides escaped independently |
| ResponseFilter.JoinTrimmed | src/main/java/net/coreprotect/thread/NetworkHandler.java:130-135 | the response text of trimmed lines is itself trimmed |
| ResponseFilter.ResponseIsTrimmed | src/main/java/net/coreprotect/thread/NetworkHandler.java:130-136 | trimming the response again changes nothing, so the `{`/`}` test sees its real ends |
| ResponseFilter.JoinTrimmedSingle | src/main/java/net/coreprotect/thread/NetworkHandler.java:130-135 | a one-line body is that line trimmed |
| ResponseFilter.ReadResponse | src/main/java/net/coreprotect/thread/NetworkHandler.java:128-135 | the `StringBuilder` loop yields the concatenation of the trimmed lines |
| ResponseFilter.WellShaped | src/main/java/net/coreprotect/thread/NetworkHandler.java:136 | the shape test before parsing holds exactly when the response is non-empty, its first char is `{` and its last char is `}` |
| ResponseFilter.Filtered | src/main/java/net/coreprotect/thread/NetworkHandler.java:140-148 | the translations kept from a parsed answer: each kept ordinal is a phrase with a trimmed, non-empty value, and each phrase whose name has a non-blank value is kept |
| ResponseFilter.FilteredIsSound | src/main/java/net/coreprotect/thread/NetworkHandler.java:140-148 | every kept translation is a known phrase (so `DATA_VERSION`/`DATA_LANGUAGE` are never kept), present in the answer, with its trimmed, non-empty value |
| ResponseFilter.FilteredIsComplete | src/main/java/net/coreprotect/thread/NetworkHandler.java:140-148 | every known phrase with a non-blank value in the answer is kept |
| ResponseFilter.FilteredSingle | src/main/java/net/coreprotect/thread/NetworkHandler.java:140-148 | an answer with one key naming the only phrase keeps it, trimmed, exactly when the value is not blank |
| ResponseFilter.FilteredByEntries | src/main/java/net/coreprotect/thread/NetworkHandler.java:137-148 | a map that agrees with the filter on membership and values for every ordinal is the filter's map |
| ResponseFilter.FilterPut | src/main/java/net/coreprotect/thread/NetworkHandler.java:143-146 | putting a kept pair under its phrase keeps the loop invariant, given distinct phrase names |
| ResponseFilter.FilterSkip | src/main/java/net/coreprotect/thread/NetworkHandler.java:143 | skipping an unknown key or a blank value keeps the loop invariant |
| ResponseFilter.FilterResponse | src/main/java/net/coreprotect/thread/NetworkHandler.java:137-148 | the loop over `json.keySet()` builds exactly the filtered map |
| CacheWriter.Escape | src/main/java/net/coreprotect/thread/NetworkHandler.java:158 | the escaped value is no shorter and never starts with a bare `"` |
| CacheWriter.EscapeIsReplace | src/main/java/net/coreprotect/thread/NetworkHandler.java:158 | the escape is the generic one-char `replaceAll` of `"` by `\"` |
| CacheWriter.UnescapeEscape | src/main/java/net/coreprotect/thread/NetworkHandler.java:158 | removing the inserted backslashes gives the value back, so distinct values are written distinctly |
| CacheWriter.EscapeUnquoted | src/main/java/net/coreprotect/thread/NetworkHandler.java:158 | a value without `"` is written unchanged |
| CacheWriter.EscapedQuotesArePreceded | src/main/java/net/coreprotect/thread/NetworkHandler.java:158 | every `"` in an escaped value has a backslash right before it |
| CacheWriter.Ordered | src/main/java/net/coreprotect/thread/NetworkHandler.java:137 | the listed entries all have ordinals below the bound |
| CacheWriter.OrderedIsSorted | src/main/java/net/coreprotect/thread/NetworkHandler.java:156 | `TreeMap<Phrase, String>` iteration is in strictly ascending enum order |
| CacheWriter.OrderedIsComplete | src/main/java/net/coreprotect/thread/NetworkHandler.java:156 | an entry is listed iff its phrase was translated with that value |
| CacheWriter.CacheContent | src/main/java/net/coreprotect/thread/NetworkHandler.java:153-164 | the text of the cache file; it starts with the header line for the version and language, followed by a line separator |
| CacheWriter.ContentStartsWithHeader | src/main/java/net/coreprotect/thread/NetworkHandler.java:153-154 | the file starts with the header and a line separator |
| CacheWriter.OneEntryContent | src/main/java/net/coreprotect/thread/NetworkHandler.java:153-164 | a file with one quote-free translation is the header, two separators and `NAME: "value"` |
| CacheWriter.EntriesStep | src/main/java/net/coreprotect/thread/NetworkHandler.java:156-164 | each further ordinal appends its entry line, if it was translated, at the end |
| CacheWriter.WriteCache | src/main/java/net/coreprotect/thread/NetworkHandler.java:150-165 | the four appends per entry produce exactly the cache content: header, separator, then a separator and `NAME: "escaped"` per entry in enum order |
| Sync.Translates | src/main/java/net/coreprotect/thread/NetworkHandler.java:57 | the language gate: a code is translated exactly when it has at least two chars and does not begin with `e`, `n` |
| Sync.Receive | src/main/java/net/coreprotect/thread/NetworkHandler.java:125-168 | a file is written exactly when the service answered with status 200 and a well-shaped body that parses; the written text starts with the header, and every kept translation is a phrase with a trimmed, non-empty value |
| Sync.LanguageCode | src/main/java/net/coreprotect/thread/NetworkHandler.java:54 | the normalised language code is trimmed |
| Sync.LanguageCodeIsStable | src/main/java/net/coreprotect/thread/NetworkHandler.java:54 | normalising a normalised code changes nothing |
| Sync.Sync | src/main/java/net/coreprotect/thread/NetworkHandler.java:53-180 | one pass of the translation block: `Reset` exactly when the gate fails, `Skip` exactly when it passes and the cache is valid, and otherwise a fetch whose reset flag is the validator's and whose body holds no `+` |
| Sync.DefaultLanguageResets | src/main/java/net/coreprotect/thread/NetworkHandler.java:57 | the run resets (line 179) the cache without a request exactly when the code starts with `en` or has at most one char |
| Sync.ValidCacheSkips | src/main/java/net/coreprotect/thread/NetworkHandler.java:57-91 | a fresh cache for this version and language means no request and no write |
| Sync.SupersededCacheRefetches | src/main/java/net/coreprotect/thread/NetworkHandler.java:73-91 | a cache for another version or language is reset and a request is sent |
| Sync.WriteNeedsUsableAnswer | src/main/java/net/coreprotect/thread/NetworkHandler.java:125-165 | the file is written only after status 200 and a well-shaped body that parses; it holds the header and exactly the filtered translations, each trimmed and non-empty |
| Sync.WrittenCacheIsReused | src/main/java/net/coreprotect/thread/NetworkHandler.java:63-81 | a written file (lines 153-154) starts with the header; a later run on a disk that reports that header as the first line, with the language file older, sends nothing (reading the line back from the written text is taken as given) |
| Sync.OnePhraseAnswer | src/main/java/net/coreprotect/thread/NetworkHandler.java:125-165 | a one-line answer naming the only phrase with a quote-free value yields that translation and the one-entry file |
| Sync.OnePhraseRun | src/main/java/net/coreprotect/thread/NetworkHandler.java:57-165 | with no readable cache, a translating language sends the request without a reset and writes that one-entry file |
| Sync.Exchange | src/main/java/net/coreprotect/thread/NetworkHandler.java:125-168 | the status check, read loop, shape check, parse, filter loop and writer loop produce exactly what `Receive` specifies |
| Sync.NetworkHandler.constructor | src/main/java/net/coreprotect/thread/NetworkHandler.java:39-46 | a new handler keeps its start-up flags and starts with `translate` set |
| Sync.NetworkHandler.Run | src/main/java/net/coreprotect/thread/NetworkHandler.java:49-184 | the translation block does what `Sync` specifies when `translate` was set and nothing otherwise, and leaves `translate` cleared |
| Sync.RunTwice | src/main/java/net/coreprotect/thread/NetworkHandler.java:183 | a second run (`translate` is read at line 51 and cleared here) of the same handler does nothing, whatever it would find |

## Left out

- The HTTP request itself is not modelled: URL, headers, timeout, redirects, writing the body, `disconnect` (NetworkHandler.java:108-124, :171). The answer is an input `Option<Response>`.
- File I/O is not modelled (NetworkHandler.java:59-64, :150-152, :166). Readability, the first line and the modification times are inputs; the written file is an output string. A failed or partial write is not modelled.
- The model treats an unreadable first line (`Files.lines` throwing on bad UTF-8) like a missing one: the cache is invalid and no reset is requested.
- Sync.Sync: the `getLastModifiedTime` call can throw after `validCache` was set (NetworkHandler.java:79, :86). The handler would then keep the cache. The model does not cover this; it always compares the times.
- Sync.Receive: a JSON value that is not a string throws `ClassCastException` midway through the loop (NetworkHandler.java:142, :173). Earlier phrases have then been applied but no file is written. The model does not cover this; every value is a string.
- `JSONObject.toJSONString` and `JSONParser.parse` are library code and are parameters (`Library`). Their JSON syntax is not modelled.
- `Language.setTranslatedPhrase` (NetworkHandler.java:146) is the returned `translated` map. `ConfigFile.resetCache` (NetworkHandler.java:77, :179) is the `reset` flag or the `Reset` outcome. `Config.LINE_SEPARATOR` is a parameter.
- The update check and the start-up `Thread.sleep(1000)` (NetworkHandler.java:190-196) are scheduling and timing only. `startup` and `background` are kept as fields and not used otherwise.
- Exceptions outside the inner handlers (NetworkHandler.java:185-187) are not modelled. When one escapes, `translate` stays set.
- Strings.ToLower: only `A`-`Z` are lowered. Java's locale-dependent and non-ASCII case mapping is not modelled.
- Strings: a Dafny `char` is a Unicode scalar value (a code point), while a Java `char` is a UTF-16 code unit. The UTF-8 encoding of the request and of the file is not modelled.
- Sync.Translates, CacheHeader.Decode, CacheHeader.DecodeLayout: the model counts code points where Java's `length()` and `substring` count UTF-16 units. Results differ only for text with characters above U+FFFF. For example, a one-character code such as U+1D4BB has length 2 in Java, so the gate at NetworkHandler.java:57 passes, but the model resets. A header token `v` + U+1D4BB has length 3 in Java and decodes, but it has length 2 in the model and does not. `substring(1)` at NetworkHandler.java:71 can split a surrogate pair, which the model cannot represent.
- Sync.NetworkHandler.Run and Sync.Exchange: the call to the service and the file write are not effects. Their content is returned as `Option<Outcome>` and `Fetched`.
