/**
  What the handler keeps of the translation service's answer
  (NetworkHandler.java:125-148): the body's lines are trimmed and glued
  together, the result must look like a JSON object, and of the parsed
  object only the pairs whose key names a phrase and whose trimmed value is
  non-empty are kept, keyed by the phrase (a TreeMap<Phrase, String>).
 */
module ResponseFilter {
  import opened Strings
  import opened TranslationRequest

  /** The response text: every line trimmed, then concatenated without separators. */
  function JoinTrimmed(lines: seq<string>): (r: string)
    ensures IsTrimmed(r)
  {
    if lines == [] then ""
    else
      var init := JoinTrimmed(lines[..|lines| - 1]);
      var last := Trim(lines[|lines| - 1]);
      var r := init + last;
      assert r != [] ==> r[0] == (if init != [] then init[0] else last[0]);
      assert r != [] ==> r[|r| - 1] == (if last != [] then last[|last| - 1] else init[|init| - 1]);
      r
  }

  /** The response cannot start or end with blanks, so the shape test sees the real first and last chars. */
  lemma ResponseIsTrimmed(lines: seq<string>)
    ensures Trim(JoinTrimmed(lines)) == JoinTrimmed(lines)
  {
  }

  /** A one-line body is that line trimmed. */
  lemma JoinTrimmedSingle(line: string)
    ensures JoinTrimmed([line]) == Trim(line)
  {
    assert [line][..0] == [];
  }

  /** The StringBuilder loop over reader.readLine(). */
  method ReadResponse(lines: seq<string>) returns (response: string)
    ensures response == JoinTrimmed(lines)
  {
    response := "";
    for i := 0 to |lines|
      invariant response == JoinTrimmed(lines[..i])
    {
      assert lines[..i + 1][..i] == lines[..i];
      response := response + Trim(lines[i]);
    }
    assert lines[..|lines|] == lines;
  }

  /** The cheap test made before parsing: non-empty, starts with '{', ends with '}'. */
  predicate WellShaped(response: string): (b: bool)
    ensures b <==> |response| > 0 && response[0] == '{' && response[|response| - 1] == '}'
  {
    |response| > 0 && StartsWith(response, "{") && EndsWith(response, "}")
  }

  /**
    The phrases a parsed answer translates, keyed by ordinal: phrase i is
    kept when the answer has its name as a key with a value that is not
    blank, and its translation is that value trimmed.
   */
  function Filtered(json: map<string, string>, catalog: seq<PhraseDef>): (t: map<nat, string>)
    ensures forall i :: i in t ==> i < |catalog| && IsTrimmed(t[i]) && t[i] != []
    ensures forall i :: 0 <= i < |catalog| && Keeps(json, catalog[i].name) ==> i in t
  {
    map i | 0 <= i < |catalog| && Keeps(json, catalog[i].name) :: Trim(json[catalog[i].name])
  }

  /** Whether the answer has a non-blank value under this name. */
  predicate Keeps(json: map<string, string>, name: string) {
    name in json && Trim(json[name]) != []
  }

  /**
    Every kept translation is a known phrase with a trimmed, non-empty text
    taken from the answer; keys that name no phrase (the DATA_VERSION and
    DATA_LANGUAGE fields echoed back, say) are never kept.
   */
  lemma FilteredIsSound(json: map<string, string>, catalog: seq<PhraseDef>, i: nat)
    requires i in Filtered(json, catalog)
    ensures i < |catalog| && catalog[i].name in json && catalog[i].name in Names(catalog)
    ensures Filtered(json, catalog)[i] == Trim(json[catalog[i].name])
    ensures IsTrimmed(Filtered(json, catalog)[i]) && Filtered(json, catalog)[i] != []
  {
  }

  /** Nothing usable is dropped: each known phrase with a non-blank value is kept. */
  lemma FilteredIsComplete(json: map<string, string>, catalog: seq<PhraseDef>, name: string)
    requires name in Names(catalog) && name in json && Trim(json[name]) != []
    ensures OrdinalOf(catalog, name) in Filtered(json, catalog)
  {
  }

  /** An answer with a single key that names the only phrase: kept, trimmed, exactly when its value is not blank. */
  lemma FilteredSingle(p: PhraseDef, value: string)
    ensures Filtered(map[p.name := value], [p]) == if Trim(value) != [] then map[0 := Trim(value)] else map[]
  {
  }

  /** A map that agrees with Filtered on every ordinal is Filtered. */
  lemma FilteredByEntries(t: map<nat, string>, json: map<string, string>, catalog: seq<PhraseDef>)
    requires forall i: nat :: i in t <==> i < |catalog| && Keeps(json, catalog[i].name)
    requires forall i :: i in t ==> i < |catalog| && catalog[i].name in json && t[i] == Trim(json[catalog[i].name])
    ensures t == Filtered(json, catalog)
  {
  }

  /**
    The TreeMap once the keys in `seen` have been visited: a phrase is in it
    exactly when its name was seen and is kept, with its trimmed value.
   */
  ghost predicate FilteredSoFar(t: map<nat, string>, json: map<string, string>, catalog: seq<PhraseDef>, seen: set<string>) {
    && (forall i: nat :: i in t <==> i < |catalog| && catalog[i].name in seen && Keeps(json, catalog[i].name))
    && (forall i :: i in t ==> i < |catalog| && catalog[i].name in json && t[i] == Trim(json[catalog[i].name]))
  }

  /** Visiting a key that names a phrase with a non-blank value: it is put under that phrase. */
  lemma FilterPut(t: map<nat, string>, json: map<string, string>, catalog: seq<PhraseDef>, seen: set<string>, ord: nat)
    requires DistinctNames(catalog) && FilteredSoFar(t, json, catalog, seen)
    requires ord < |catalog| && Keeps(json, catalog[ord].name)
    ensures FilteredSoFar(t[ord := Trim(json[catalog[ord].name])], json, catalog, seen + {catalog[ord].name})
  {
    forall i: nat | i < |catalog| && i != ord
      ensures catalog[i].name != catalog[ord].name
    {
      if i < ord {
        assert catalog[i].name != catalog[ord].name;
      } else {
        assert catalog[ord].name != catalog[i].name;
      }
    }
  }

  /** Visiting any other key changes nothing. */
  lemma FilterSkip(t: map<nat, string>, json: map<string, string>, catalog: seq<PhraseDef>, seen: set<string>, key: string)
    requires FilteredSoFar(t, json, catalog, seen)
    requires key !in Names(catalog) || !Keeps(json, key)
    ensures FilteredSoFar(t, json, catalog, seen + {key})
  {
    forall i: nat | i < |catalog| && catalog[i].name == key
      ensures !Keeps(json, key)
    {
      assert key in Names(catalog);
    }
  }

  /**
    The loop over json.keySet(): a key is looked up in phraseSet, its value
    trimmed, and a kept pair is put into the TreeMap under the phrase.
   */
  method FilterResponse(json: map<string, string>, catalog: seq<PhraseDef>, phraseSet: set<string>)
    returns (translated: map<nat, string>)
    requires DistinctNames(catalog)
    requires phraseSet == Names(catalog)
    ensures translated == Filtered(json, catalog)
  {
    translated := map[];
    var pending := json.Keys;
    while pending != {}
      invariant pending <= json.Keys
      invariant FilteredSoFar(translated, json, catalog, json.Keys - pending)
      decreases pending
    {
      var key :| key in pending;
      var value := Trim(json[key]);
      if key in phraseSet && |value| > 0 {
        var phrase := OrdinalOf(catalog, key);
        FilterPut(translated, json, catalog, json.Keys - pending, phrase);
        translated := translated[phrase := value];
      } else {
        FilterSkip(translated, json, catalog, json.Keys - pending, key);
      }
      assert json.Keys - pending + {key} == json.Keys - (pending - {key});
      pending := pending - {key};
    }
    FilteredByEntries(translated, json, catalog);
  }

}
