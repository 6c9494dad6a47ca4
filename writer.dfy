/**
  The cache file's text (NetworkHandler.java:150-167): the header line, a
  line separator, then for each translated phrase in enum order a line
  separator followed by `NAME: "value"`, where every '"' in the value is
  written as '\"'. Nothing follows the last entry.
 */
module CacheWriter {
  import opened Strings
  import opened CacheHeader
  import opened TranslationRequest

  /** value.replaceAll("\"", "\\\\\""): a backslash goes before every double quote; backslashes themselves are kept. */
  function Escape(value: string): (r: string)
    ensures |r| >= |value|
    ensures r == [] || r[0] != '"'
  {
    if value == [] then []
    else (if value[0] == '"' then "\\\"" else [value[0]]) + Escape(value[1..])
  }

  /** The same text as the generic one-char replaceAll. */
  lemma {:induction false} EscapeIsReplace(value: string)
    ensures Escape(value) == ReplaceChar(value, '"', "\\\"")
  {
    if value != [] {
      EscapeIsReplace(value[1..]);
    }
  }

  /** Reading an escaped value back: the backslash in front of each double quote is dropped. */
  function Unescape(s: string): string {
    if |s| >= 2 && s[0] == '\\' && s[1] == '"' then "\"" + Unescape(s[2..])
    else if s == [] then []
    else [s[0]] + Unescape(s[1..])
  }

  /** No two values are written alike: dropping the inserted backslashes gives the value back. */
  lemma {:induction false} UnescapeEscape(value: string)
    ensures Unescape(Escape(value)) == value
  {
    if value != [] {
      var rest := Escape(value[1..]);
      UnescapeEscape(value[1..]);
      if value[0] == '"' {
        assert Escape(value) == "\\\"" + rest;
        assert Escape(value)[2..] == rest;
      } else {
        assert Escape(value) == [value[0]] + rest;
        assert Escape(value)[1..] == rest;
        assert !(|Escape(value)| >= 2 && Escape(value)[0] == '\\' && Escape(value)[1] == '"');
      }
      assert [value[0]] + value[1..] == value;
    }
  }

  /** A value without double quotes is written as it is. */
  lemma {:induction false} EscapeUnquoted(value: string)
    requires '"' !in value
    ensures Escape(value) == value
  {
    if value != [] {
      EscapeUnquoted(value[1..]);
      assert [value[0]] + value[1..] == value;
    }
  }

  /** Every double quote of an escaped value has a backslash just before it. */
  lemma {:induction false} EscapedQuotesArePreceded(value: string, k: nat)
    requires k < |Escape(value)| && Escape(value)[k] == '"'
    ensures k > 0 && Escape(value)[k - 1] == '\\'
  {
    var rest := Escape(value[1..]);
    var head := if value[0] == '"' then "\\\"" else [value[0]];
    assert Escape(value) == head + rest;
    if k >= |head| {
      EscapedQuotesArePreceded(value[1..], k - |head|);
    }
  }

  /**
    The TreeMap's entries in ascending key order: the translated phrases with
    ordinal below n, each paired with its value.
   */
  function Ordered(translated: map<nat, string>, n: nat): (es: seq<(nat, string)>)
    ensures forall k :: 0 <= k < |es| ==> es[k].0 < n
  {
    if n == 0 then []
    else Ordered(translated, n - 1) + (if n - 1 in translated then [(n - 1, translated[n - 1])] else [])
  }

  /** The entries come in strictly increasing ordinal order. */
  lemma {:induction false} OrderedIsSorted(translated: map<nat, string>, n: nat)
    ensures forall j, k :: 0 <= j < k < |Ordered(translated, n)| ==> Ordered(translated, n)[j].0 < Ordered(translated, n)[k].0
  {
    if n > 0 {
      OrderedIsSorted(translated, n - 1);
    }
  }

  /** The entries are exactly the translated phrases below n, each with its own value. */
  lemma {:induction false} OrderedIsComplete(translated: map<nat, string>, n: nat, e: (nat, string))
    ensures e in Ordered(translated, n) <==> e.0 < n && e.0 in translated && translated[e.0] == e.1
  {
    if n > 0 {
      OrderedIsComplete(translated, n - 1, e);
    }
  }

  /** One entry as written: `NAME: "value"`. */
  function EntryLine(name: string, value: string): string {
    name + ": " + ("\"" + Escape(value) + "\"")
  }

  /** Every entry preceded by a line separator, in order. */
  function Entries(catalog: seq<PhraseDef>, es: seq<(nat, string)>, separator: string): string
    requires forall k :: 0 <= k < |es| ==> es[k].0 < |catalog|
  {
    if es == [] then ""
    else
      var e := es[|es| - 1];
      Entries(catalog, es[..|es| - 1], separator) + separator + EntryLine(catalog[e.0].name, e.1)
  }

  /** The whole file as written for this version, language and set of translations. */
  function CacheContent(version: string, language: string, catalog: seq<PhraseDef>,
                        translated: map<nat, string>, separator: string): (content: string)
    ensures StartsWith(content, Encode(version, language) + separator)
  {
    var head := Encode(version, language) + separator;
    var content := head + Entries(catalog, Ordered(translated, |catalog|), separator);
    assert content[..|head|] == head;
    content
  }

  /** The writer's first line is the header, so the file reads back as it was written (see CacheHeader.RoundTrip). */
  lemma ContentStartsWithHeader(version: string, language: string, catalog: seq<PhraseDef>,
                                translated: map<nat, string>, separator: string)
    ensures StartsWith(CacheContent(version, language, catalog, translated, separator), Encode(version, language) + separator)
  {
  }

  /** A file with a single translation: the header, two line separators, then `NAME: "value"`. */
  lemma OneEntryContent(version: string, language: string, p: PhraseDef, value: string, separator: string)
    requires '"' !in value
    ensures CacheContent(version, language, [p], map[0 := value], separator)
            == Encode(version, language) + separator + (separator + (p.name + ": " + ("\"" + value + "\"")))
  {
    var es := [(0, value)];
    assert Ordered(map[0 := value], 1) == es by {
      assert Ordered(map[0 := value], 0) == [];
    }
    EscapeUnquoted(value);
    assert es[..0] == [];
    assert Entries([p], es, separator) == separator + EntryLine(p.name, value);
  }

  /** One more ordinal adds its entry, if it was translated, at the end. */
  lemma EntriesStep(catalog: seq<PhraseDef>, translated: map<nat, string>, phrase: nat, separator: string)
    requires phrase < |catalog|
    ensures Entries(catalog, Ordered(translated, phrase + 1), separator) ==
            Entries(catalog, Ordered(translated, phrase), separator) +
            (if phrase in translated then separator + EntryLine(catalog[phrase].name, translated[phrase]) else "")
  {
    var es := Ordered(translated, phrase + 1);
    if phrase in translated {
      assert es[..|es| - 1] == Ordered(translated, phrase);
    } else {
      assert es == Ordered(translated, phrase);
    }
  }

  /** The four appends of one entry extend the entries written so far by that entry. */
  lemma AppendEntry(head: string, done: string, separator: string, key: string, value: string)
    ensures head + done + separator + key + ": " + ("\"" + Escape(value) + "\"") ==
            head + (done + (separator + EntryLine(key, value)))
  {
  }

  /** The loop over translatedPhrases.entrySet(), appending to the writer after the header. */
  method WriteCache(version: string, language: string, catalog: seq<PhraseDef>,
                    translated: map<nat, string>, separator: string) returns (content: string)
    ensures content == CacheContent(version, language, catalog, translated, separator)
  {
    content := Encode(version, language);
    content := content + separator;
    ghost var head := content;
    for phrase := 0 to |catalog|
      invariant content == head + Entries(catalog, Ordered(translated, phrase), separator)
    {
      EntriesStep(catalog, translated, phrase, separator);
      ghost var done := Entries(catalog, Ordered(translated, phrase), separator);
      if phrase in translated {
        var key := catalog[phrase].name;
        var value := Escape(translated[phrase]);
        AppendEntry(head, done, separator, key, translated[phrase]);
        content := content + separator;
        content := content + key;
        content := content + ": ";
        content := content + ("\"" + value + "\"");
      } else {
        assert done + "" == done;
      }
    }
  }

}
