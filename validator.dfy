/**
  Whether the language cache on disk can be used as it is
  (NetworkHandler.java:58-89). The file system is reduced to what the
  handler asks of it: whether each file is readable, the first line of the
  cache file (absent for an empty file) and both modification times.
 */
module CacheValidator {
  import opened Wrappers
  import opened CacheHeader

  /** What the disk looks like when the handler runs. */
  datatype Disk = Disk(
    languageReadable: bool,        // Files.isReadable on the language definition file
    cacheReadable: bool,           // Files.isReadable on the cache file
    cacheFirstLine: Option<string>, // Files.lines(cache).findFirst()
    languageMtime: int,            // getLastModifiedTime(language).toMillis()
    cacheMtime: int)               // getLastModifiedTime(cache).toMillis()

  /**
    valid: validCache after the check; reset: whether ConfigFile.resetCache
    was called because the header names another version or language.
   */
  datatype Check = Check(valid: bool, reset: bool)

  /** The header the disk's cache file starts with, if it has a readable one. */
  function StoredHeader(disk: Disk): Option<Header> {
    if disk.languageReadable && disk.cacheReadable && disk.cacheFirstLine.Some?
    then Decode(disk.cacheFirstLine.value)
    else None
  }

  /**
    The cache is valid exactly when both files are readable, the header reads
    back as the current version and language, and the language file is
    strictly older than the cache; a reset is asked for exactly when a
    readable header names anything else. A malformed or missing header is
    invalid without a reset.
   */
  function CheckCache(disk: Disk, version: string, language: string): (r: Check)
    ensures r.valid <==> StoredHeader(disk) == Some(Header(version, language)) && disk.languageMtime < disk.cacheMtime
    ensures r.reset <==> StoredHeader(disk).Some? && StoredHeader(disk) != Some(Header(version, language))
    ensures !(r.valid && r.reset)
  {
    if !(disk.languageReadable && disk.cacheReadable) then Check(false, false)
    else match disk.cacheFirstLine
      case None => Check(false, false)
      case Some(headerString) =>
        match Decode(headerString)
        case None => Check(false, false)
        case Some(h) =>
          var validCache := h.version == version && h.language == language;
          var reset := !validCache;
          var validCache' := if validCache && disk.languageMtime >= disk.cacheMtime then false else validCache;
          Check(validCache', reset)
  }

  /**
    A cache written for this version and language and newer than the
    language file is used as it is, provided the pair is Encodable.
   */
  lemma FreshCacheIsValid(disk: Disk, version: string, language: string)
    requires Encodable(version, language)
    requires disk.languageReadable && disk.cacheReadable
    requires disk.cacheFirstLine == Some(Encode(version, language))
    requires disk.languageMtime < disk.cacheMtime
    ensures CheckCache(disk, version, language) == Check(true, false)
  {
    RoundTrip(version, language);
  }

  /** Equal modification times count as stale. */
  lemma EqualTimesAreStale(disk: Disk, version: string, language: string)
    requires disk.languageMtime == disk.cacheMtime
    ensures !CheckCache(disk, version, language).valid
  {
  }

  /**
    A cache written for another version or language is invalid and asks for
    a reset, whatever the modification times say.
   */
  lemma SupersededCacheResets(disk: Disk, version: string, language: string, oldVersion: string, oldLanguage: string)
    requires Encodable(oldVersion, oldLanguage)
    requires oldVersion != version || oldLanguage != language
    requires disk.languageReadable && disk.cacheReadable
    requires disk.cacheFirstLine == Some(Encode(oldVersion, oldLanguage))
    ensures CheckCache(disk, version, language) == Check(false, true)
  {
    RoundTrip(oldVersion, oldLanguage);
  }

  /** A line that does not read as a header never asks for a reset. */
  lemma MalformedHeaderKeepsCache(disk: Disk, version: string, language: string)
    requires disk.cacheFirstLine.Some? && Decode(disk.cacheFirstLine.value).None?
    ensures CheckCache(disk, version, language) == Check(false, false)
  {
  }

}
