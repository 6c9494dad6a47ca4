/**
  The first line of the language cache file, which records the plugin
  version and the language code the cached translations were fetched for
  (NetworkHandler.java:68-72 reads it, :153 writes it).
 */
module CacheHeader {
  import opened Wrappers
  import opened Strings

  datatype Header = Header(version: string, language: string)

  /** What a line must start with to be read as a cache header at all. */
  const Prefix: string := "# Griefus"

  /** The header line written at the top of a fresh cache file. */
  function Encode(version: string, language: string): (line: string)
    ensures StartsWith(line, Prefix)
  {
    var line := "# Griefus v" + version + " Language Cache (" + language + ")";
    assert line[..|Prefix|] == Prefix;
    line
  }

  /**
    The versions and languages whose header reads back: neither may contain a
    space (the reader splits on single spaces), the version token "v..." must
    be longer than two chars and the language token "(...)" too.
   */
  predicate Encodable(version: string, language: string) {
    ' ' !in version && |version| >= 2 && ' ' !in language && |language| >= 1
  }

  /**
    Reads a header line. The line must start with Prefix and split on " "
    into exactly six tokens whose third and sixth are longer than two chars;
    the version is the third token without its first char and the language
    the sixth without its first and last chars. The dropped chars are not
    checked to be 'v', '(' and ')'.
   */
  function Decode(line: string): (r: Option<Header>)
    ensures r.Some? <==> StartsWith(line, Prefix) && |JavaSplit(line, ' ')| == 6 &&
                         |JavaSplit(line, ' ')[2]| > 2 && |JavaSplit(line, ' ')[5]| > 2
    ensures r.Some? ==> Encodable(r.value.version, r.value.language)
  {
    if !StartsWith(line, Prefix) then None
    else
      var split := JavaSplit(line, ' ');
      if |split| == 6 && |split[2]| > 2 && |split[5]| > 2 then
        var cacheVersion := split[2][1..];
        var cacheLanguage := split[5][1..|split[5]| - 1];
        assert forall ch :: ch in cacheVersion ==> ch in split[2];
        assert forall ch :: ch in cacheLanguage ==> ch in split[5];
        Some(Header(cacheVersion, cacheLanguage))
      else None
  }

  /**
    A header-shaped line with arbitrary non-space chars where the writer puts
    'v', '(' and ')'.
   */
  function Layout(v: char, version: string, open: char, language: string, close: char): string {
    "# Griefus " + ([v] + version) + " Language Cache " + ([open] + language + [close])
  }

  /** The six tokens of a Layout line. */
  function Tokens(v: char, version: string, open: char, language: string, close: char): seq<string> {
    ["#", "Griefus", [v] + version, "Language", "Cache", [open] + language + [close]]
  }

  /** Six pieces joined: each neighbour pair separated by one c. */
  lemma JoinSix(p0: string, p1: string, p2: string, p3: string, p4: string, p5: string, c: char)
    ensures Join([p0, p1, p2, p3, p4, p5], c) == p0 + [c] + (p1 + [c] + (p2 + [c] + (p3 + [c] + (p4 + [c] + p5))))
  {
    assert [p4, p5][1..] == [p5];
    assert Join([p4, p5], c) == p4 + [c] + p5;
    assert [p3, p4, p5][1..] == [p4, p5];
    assert Join([p3, p4, p5], c) == p3 + [c] + Join([p4, p5], c);
    assert [p2, p3, p4, p5][1..] == [p3, p4, p5];
    assert Join([p2, p3, p4, p5], c) == p2 + [c] + Join([p3, p4, p5], c);
    assert [p1, p2, p3, p4, p5][1..] == [p2, p3, p4, p5];
    assert Join([p1, p2, p3, p4, p5], c) == p1 + [c] + Join([p2, p3, p4, p5], c);
    assert [p0, p1, p2, p3, p4, p5][1..] == [p1, p2, p3, p4, p5];
  }

  /** The last four tokens joined, the version token first. */
  lemma LayoutTail(a: string, b: string)
    ensures a + [' '] + ("Language" + [' '] + ("Cache" + [' '] + b)) == a + " Language Cache " + b
  {
    assert "Cache" + [' '] + b == "Cache " + b;
    assert "Language" + [' '] + ("Cache " + b) == "Language Cache " + b;
  }

  lemma LayoutIsJoin(v: char, version: string, open: char, language: string, close: char)
    ensures Layout(v, version, open, language, close) == Join(Tokens(v, version, open, language, close), ' ')
  {
    var a := [v] + version;
    var b := [open] + language + [close];
    JoinSix("#", "Griefus", a, "Language", "Cache", b, ' ');
    LayoutTail(a, b);
    var tail := a + " Language Cache " + b;
    assert "#" + [' '] + ("Griefus" + [' '] + tail) == "# Griefus " + tail;
  }

  /** A Layout line whose version and language hold no space splits into its six tokens. */
  lemma SplitLayout(v: char, version: string, open: char, language: string, close: char)
    requires v != ' ' && open != ' ' && close != ' '
    requires ' ' !in version && ' ' !in language
    ensures JavaSplit(Layout(v, version, open, language, close), ' ') == Tokens(v, version, open, language, close)
  {
    var t := Tokens(v, version, open, language, close);
    LayoutIsJoin(v, version, open, language, close);
    assert forall i :: 0 <= i < |t| ==> ' ' !in t[i];
    SplitJoin(t, ' ');
  }

  /** A space in the version or the language gives more than six pieces. */
  lemma SplitSpacedLayout(v: char, version: string, open: char, language: string, close: char)
    requires v != ' ' && open != ' ' && close != ' '
    requires ' ' in version || ' ' in language
    ensures |JavaSplit(Layout(v, version, open, language, close), ' ')| > 6
  {
    var line := Layout(v, version, open, language, close);
    var t := Tokens(v, version, open, language, close);
    LayoutIsJoin(v, version, open, language, close);
    var parts := SplitOn(line, ' ');
    if ' ' in version {
      CountAppend([v], version, ' ');
      CountJoin(t, ' ', 2);
    } else {
      CountAppend([open], language, ' ');
      CountAppend([open] + language, [close], ' ');
      CountJoin(t, ' ', 5);
    }
    assert line[|line| - 1] == close;
    SplitOnLast(line, ' ');
    SplitOnLength(line, ' ');
    assert DropTrailingEmpty(parts) == parts;
  }

  /**
    The reader only counts tokens: whatever non-space chars stand where the
    writer puts 'v', '(' and ')', a Layout line reads back as its version and
    language exactly when the pair is Encodable.
   */
  lemma DecodeLayout(v: char, version: string, open: char, language: string, close: char)
    requires v != ' ' && open != ' ' && close != ' '
    ensures Decode(Layout(v, version, open, language, close)) ==
            if Encodable(version, language) then Some(Header(version, language)) else None
  {
    var line := Layout(v, version, open, language, close);
    var t := Tokens(v, version, open, language, close);
    assert line[..|Prefix|] == Prefix;
    if ' ' !in version && ' ' !in language {
      SplitLayout(v, version, open, language, close);
      assert t[2][1..] == version;
      assert t[5][1..|t[5]| - 1] == language;
    } else {
      SplitSpacedLayout(v, version, open, language, close);
    }
  }

  /**
    Reading back a written header gives exactly the version and language it
    was written with, and it reads back at all only for Encodable pairs.
   */
  lemma RoundTrip(version: string, language: string)
    ensures Decode(Encode(version, language)) ==
            if Encodable(version, language) then Some(Header(version, language)) else None
  {
    assert Encode(version, language) == Layout('v', version, '(', language, ')');
    DecodeLayout('v', version, '(', language, ')');
  }

  /** A header that reads back is written again unchanged in meaning. */
  lemma ReencodeDecoded(line: string)
    requires Decode(line).Some?
    ensures Decode(Encode(Decode(line).value.version, Decode(line).value.language)) == Decode(line)
  {
    RoundTrip(Decode(line).value.version, Decode(line).value.language);
  }

}
