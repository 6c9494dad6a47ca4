/**
  The POST body sent to the translation service (NetworkHandler.java:92-105):
  every phrase's current text under its name, plus the plugin version and the
  language code, serialised to JSON and prefixed with "data=", with every '+'
  replaced by the placeholder "{PLUS_SIGN}".
 */
module TranslationRequest {
  import opened Strings

  /** One constant of the Phrase enum: its name() and getUserPhrase(). */
  datatype PhraseDef = PhraseDef(name: string, userPhrase: string)

  /** Enum constant names are distinct; a constant's ordinal is its index. */
  predicate DistinctNames(catalog: seq<PhraseDef>) {
    forall i, j :: 0 <= i < j < |catalog| ==> catalog[i].name != catalog[j].name
  }

  /** The names of the phrases, phraseSet in the source. */
  function Names(catalog: seq<PhraseDef>): set<string> {
    set i | 0 <= i < |catalog| :: catalog[i].name
  }

  /** The names of a prefix one phrase longer: one name more. */
  lemma NamesSnoc(catalog: seq<PhraseDef>, n: nat)
    requires n < |catalog|
    ensures Names(catalog[..n + 1]) == Names(catalog[..n]) + {catalog[n].name}
  {
    forall name | name in Names(catalog[..n + 1]) ensures name in Names(catalog[..n]) + {catalog[n].name} {
      var k :| 0 <= k <= n && catalog[..n + 1][k].name == name;
      if k < n {
        assert catalog[..n][k].name == name;
      }
    }
    forall name | name in Names(catalog[..n]) ensures name in Names(catalog[..n + 1]) {
      var k :| 0 <= k < n && catalog[..n][k].name == name;
      assert catalog[..n + 1][k].name == name;
    }
  }

  /** Phrase.valueOf(name).ordinal(). */
  function OrdinalOf(catalog: seq<PhraseDef>, name: string): (i: nat)
    requires name in Names(catalog)
    ensures i < |catalog| && catalog[i].name == name
  {
    if catalog[0].name == name then 0
    else
      assert name in Names(catalog[1..]) by {
        var k :| 0 <= k < |catalog| && catalog[k].name == name;
        assert catalog[1..][k - 1].name == name;
      }
      1 + OrdinalOf(catalog[1..], name)
  }

  /** The phrases map after putting each phrase in order: a later put replaces an earlier one. */
  function Defaults(catalog: seq<PhraseDef>): map<string, string> {
    if catalog == [] then map[]
    else
      var last := catalog[|catalog| - 1];
      Defaults(catalog[..|catalog| - 1])[last.name := last.userPhrase]
  }

  /** Its keys are exactly the phrase names. */
  lemma {:induction false} DefaultsKeys(catalog: seq<PhraseDef>)
    ensures Defaults(catalog).Keys == Names(catalog)
  {
    if catalog != [] {
      var n := |catalog| - 1;
      DefaultsKeys(catalog[..n]);
      NamesSnoc(catalog, n);
      assert catalog[..n + 1] == catalog;
    }
  }

  /** With distinct names, each name maps to its own phrase's text. */
  lemma {:induction false} DefaultsLookup(catalog: seq<PhraseDef>)
    requires DistinctNames(catalog)
    ensures forall i :: 0 <= i < |catalog| ==> catalog[i].name in Defaults(catalog) && Defaults(catalog)[catalog[i].name] == catalog[i].userPhrase
  {
    if catalog != [] {
      var n := |catalog| - 1;
      var init := catalog[..n];
      var last := catalog[n];
      assert DistinctNames(init) by {
        forall i, j | 0 <= i < j < n ensures init[i].name != init[j].name {
          assert init[i] == catalog[i] && init[j] == catalog[j];
        }
      }
      DefaultsLookup(init);
      forall i | 0 <= i < |catalog|
        ensures catalog[i].name in Defaults(catalog) && Defaults(catalog)[catalog[i].name] == catalog[i].userPhrase
      {
        if i < n {
          assert init[i] == catalog[i];
          assert catalog[i].name != last.name;
        }
      }
    }
  }

  const DataVersion: string := "DATA_VERSION"
  const DataLanguage: string := "DATA_LANGUAGE"

  /** The map handed to the JSON serialiser. */
  function Payload(catalog: seq<PhraseDef>, version: string, language: string): (m: map<string, string>)
    ensures m.Keys == Names(catalog) + {DataVersion, DataLanguage}
    ensures m[DataVersion] == version && m[DataLanguage] == language
  {
    DefaultsKeys(catalog);
    Defaults(catalog)[DataVersion := version][DataLanguage := language]
  }

  /**
    The loop over Phrase.values() that fills phraseSet and phrases, followed
    by the two puts of the synthetic fields.
   */
  method BuildPayload(catalog: seq<PhraseDef>, version: string, language: string)
    returns (phraseSet: set<string>, phrases: map<string, string>)
    ensures phraseSet == Names(catalog)
    ensures phrases == Payload(catalog, version, language)
  {
    phraseSet := {};
    phrases := map[];
    for i := 0 to |catalog|
      invariant phraseSet == Names(catalog[..i])
      invariant phrases == Defaults(catalog[..i])
    {
      assert catalog[..i + 1][..i] == catalog[..i];
      NamesSnoc(catalog, i);
      phraseSet := phraseSet + {catalog[i].name};
      phrases := phrases[catalog[i].name := catalog[i].userPhrase];
    }
    assert catalog[..|catalog|] == catalog;
    phrases := phrases[DataVersion := version];
    phrases := phrases[DataLanguage := language];
  }

  /**
    What is sent: every phrase name and the two synthetic fields, with the
    version and language under those; with distinct names, every other
    phrase under its own current text.
   */
  lemma PayloadContents(catalog: seq<PhraseDef>, version: string, language: string)
    ensures Payload(catalog, version, language).Keys == Names(catalog) + {DataVersion, DataLanguage}
    ensures Payload(catalog, version, language)[DataVersion] == version
    ensures Payload(catalog, version, language)[DataLanguage] == language
    ensures DistinctNames(catalog) ==>
              forall i :: 0 <= i < |catalog| && catalog[i].name != DataVersion && catalog[i].name != DataLanguage ==>
                Payload(catalog, version, language)[catalog[i].name] == catalog[i].userPhrase
  {
    DefaultsKeys(catalog);
    if DistinctNames(catalog) {
      DefaultsLookup(catalog);
    }
  }

  /** mapString.replaceAll("\\+", "{PLUS_SIGN}"). */
  function EscapePlus(s: string): (r: string)
    ensures '+' !in r
  {
    ReplaceChar(s, '+', "{PLUS_SIGN}")
  }

  /** The body of the POST request, from the JSON text of the payload. */
  function PostBody(json: string): (body: string)
    ensures '+' !in body
  {
    EscapePlus("data=" + json)
  }

  /**
    The escape touches nothing but the '+' chars: text without one is sent
    as it is, and each '+' becomes exactly one placeholder.
   */
  lemma EscapePlusSpec(a: string, b: string)
    ensures '+' !in a ==> EscapePlus(a) == a
    ensures EscapePlus(a + "+" + b) == EscapePlus(a) + "{PLUS_SIGN}" + EscapePlus(b)
  {
    if '+' !in a {
      ReplaceCharAbsent(a, '+', "{PLUS_SIGN}");
    }
    ReplaceCharAppend(a + "+", b, '+', "{PLUS_SIGN}");
    ReplaceCharAppend(a, "+", '+', "{PLUS_SIGN}");
    ReplaceCharOne('+', "{PLUS_SIGN}");
  }

}
