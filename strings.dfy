/**
  The java.lang.String operations the handler relies on, with Java's meaning:
  trim(), toLowerCase() (ASCII letters only), startsWith/endsWith,
  split(" ") with limit zero, and replaceAll with a one-character pattern.
 */
module Strings {

  /** String.trim() removes every char whose code is at most U+0020. */
  predicate IsTrimmable(c: char) {
    c <= ' '
  }

  /** A string that trim() leaves as it is: empty, or neither end trimmable. */
  predicate IsTrimmed(s: string) {
    s == [] || (!IsTrimmable(s[0]) && !IsTrimmable(s[|s| - 1]))
  }

  function TrimStart(s: string): (r: string)
    ensures |r| <= |s|
    ensures r == s[|s| - |r|..]
    ensures r == [] || !IsTrimmable(r[0])
    ensures forall i :: 0 <= i < |s| - |r| ==> IsTrimmable(s[i])
  {
    if s != [] && IsTrimmable(s[0]) then TrimStart(s[1..]) else s
  }

  function TrimEnd(s: string): (r: string)
    ensures |r| <= |s|
    ensures r == s[..|r|]
    ensures r == [] || !IsTrimmable(r[|r| - 1])
    ensures forall i :: |r| <= i < |s| ==> IsTrimmable(s[i])
  {
    if s != [] && IsTrimmable(s[|s| - 1]) then TrimEnd(s[..|s| - 1]) else s
  }

  /** String.trim(): the longest trimmable prefix and suffix are dropped. */
  function Trim(s: string): (r: string)
    ensures IsTrimmed(r) && |r| <= |s|
    ensures IsTrimmed(s) ==> r == s
  {
    var t := TrimStart(s);
    var r := TrimEnd(t);
    assert r != [] ==> r[0] == t[0];
    r
  }

  /** What trim() drops is blank: its result is a slice of the input with only trimmable chars around it. */
  lemma TrimIsSlice(s: string)
    ensures exists i: nat :: IsBlankPadding(s, Trim(s), i)
  {
    var t := TrimStart(s);
    var r := Trim(s);
    var i := |s| - |t|;
    assert r == s[i..i + |r|];
    forall k | i + |r| <= k < |s|
      ensures IsTrimmable(s[k])
    {
      assert s[k] == t[k - i];
    }
    assert IsBlankPadding(s, r, i);
  }

  /** s is r starting at index i, with only trimmable chars before and after it. */
  predicate IsBlankPadding(s: string, r: string, i: nat) {
    && i + |r| <= |s|
    && r == s[i..i + |r|]
    && (forall k :: 0 <= k < i ==> IsTrimmable(s[k]))
    && (forall k :: i + |r| <= k < |s| ==> IsTrimmable(s[k]))
  }

  /** trim() returns the empty string exactly for blank input. */
  lemma TrimBlank(s: string)
    ensures Trim(s) == [] <==> forall i :: 0 <= i < |s| ==> IsTrimmable(s[i])
  {
    var t := TrimStart(s);
    assert TrimEnd(t) == [] ==> t == [];
  }

  /** Character.toLowerCase on the ASCII upper-case letters; every other char is kept. */
  function LowerChar(c: char): char {
    if 'A' <= c <= 'Z' then (c as int - 'A' as int + 'a' as int) as char else c
  }

  predicate IsUpper(c: char) {
    'A' <= c <= 'Z'
  }

  function ToLower(s: string): (r: string)
    ensures |r| == |s|
    ensures forall i :: 0 <= i < |r| ==> !IsUpper(r[i])
    ensures forall i :: 0 <= i < |s| ==> (IsUpper(s[i]) || r[i] == s[i])
    ensures forall i :: 0 <= i < |s| && IsUpper(s[i]) ==> r[i] as int == s[i] as int - 'A' as int + 'a' as int
    ensures forall i :: 0 <= i < |s| ==> (IsTrimmable(r[i]) <==> IsTrimmable(s[i]))
  {
    seq(|s|, i requires 0 <= i < |s| => LowerChar(s[i]))
  }

  predicate StartsWith(s: string, prefix: string) {
    |prefix| <= |s| && s[..|prefix|] == prefix
  }

  predicate EndsWith(s: string, suffix: string) {
    |suffix| <= |s| && s[|s| - |suffix|..] == suffix
  }

  /** The number of occurrences of c in s. */
  function Count(s: string, c: char): (n: nat)
    ensures n == 0 <==> c !in s
    ensures n <= |s|
  {
    if s == [] then 0 else (if s[0] == c then 1 else 0) + Count(s[1..], c)
  }

  lemma {:induction false} CountAppend(a: string, b: string, c: char)
    ensures Count(a + b, c) == Count(a, c) + Count(b, c)
  {
    if a == [] {
      assert a + b == b;
    } else {
      assert (a + b)[1..] == a[1..] + b;
      assert Count(a + b, c) == (if a[0] == c then 1 else 0) + Count(a[1..] + b, c);
      CountAppend(a[1..], b, c);
    }
  }

  /** String.replaceAll(p, t) where the pattern p matches the single char c. */
  function ReplaceChar(s: string, c: char, t: string): (r: string)
    ensures c !in t ==> c !in r
  {
    if s == [] then []
    else (if s[0] == c then t else [s[0]]) + ReplaceChar(s[1..], c, t)
  }

  /** Replacement works piece by piece: together with the next two lemmas this fixes ReplaceChar. */
  lemma {:induction false} ReplaceCharAppend(a: string, b: string, c: char, t: string)
    ensures ReplaceChar(a + b, c, t) == ReplaceChar(a, c, t) + ReplaceChar(b, c, t)
  {
    if a == [] {
      assert a + b == b;
    } else {
      assert (a + b)[1..] == a[1..] + b;
      assert ReplaceChar(a + b, c, t) == (if a[0] == c then t else [a[0]]) + ReplaceChar(a[1..] + b, c, t);
      ReplaceCharAppend(a[1..], b, c, t);
    }
  }

  lemma {:induction false} ReplaceCharAbsent(s: string, c: char, t: string)
    requires c !in s
    ensures ReplaceChar(s, c, t) == s
  {
    if s != [] {
      assert c !in s[1..];
      ReplaceCharAbsent(s[1..], c, t);
    }
  }

  lemma ReplaceCharOne(c: char, t: string)
    ensures ReplaceChar([c], c, t) == t
  {
    assert [c][1..] == [];
  }

  /**
    Splitting s around every occurrence of c: Count(s, c) + 1 pieces, some
    of them possibly empty (no trailing pieces are dropped here).
   */
  function SplitOn(s: string, c: char): (r: seq<string>)
    ensures |r| >= 1
  {
    if s == [] then [""]
    else
      var rest := SplitOn(s[1..], c);
      if s[0] == c then [""] + rest else [[s[0]] + rest[0]] + rest[1..]
  }

  /** One piece more than there are separators. */
  lemma {:induction false} SplitOnLength(s: string, c: char)
    ensures |SplitOn(s, c)| == Count(s, c) + 1
  {
    if s != [] {
      SplitOnLength(s[1..], c);
    }
  }

  /** No piece contains the separator. */
  lemma {:induction false} SplitOnPieces(s: string, c: char)
    ensures forall i :: 0 <= i < |SplitOn(s, c)| ==> c !in SplitOn(s, c)[i]
  {
    if s != [] {
      SplitOnPieces(s[1..], c);
    }
  }

  /** The pieces glued back together with c between neighbours. */
  function Join(parts: seq<string>, c: char): string
    requires parts != []
  {
    if |parts| == 1 then parts[0] else parts[0] + [c] + Join(parts[1..], c)
  }

  /** Every separator that Join inserts, and every one inside a piece, is counted. */
  lemma {:induction false} CountJoin(parts: seq<string>, c: char, k: nat)
    requires k < |parts|
    ensures Count(Join(parts, c), c) >= |parts| - 1 + Count(parts[k], c)
  {
    if |parts| > 1 {
      CountAppend(parts[0], [c], c);
      CountAppend(parts[0] + [c], Join(parts[1..], c), c);
      CountJoin(parts[1..], c, if k == 0 then 0 else k - 1);
    }
  }

  lemma {:induction false} SplitOnFree(s: string, c: char)
    requires c !in s
    ensures SplitOn(s, c) == [s]
  {
    if s != [] {
      assert c !in s[1..];
      SplitOnFree(s[1..], c);
      assert [s[0]] + s[1..] == s;
    }
  }

  lemma {:induction false} SplitOnCons(a: string, b: string, c: char)
    requires c !in a
    ensures SplitOn(a + [c] + b, c) == [a] + SplitOn(b, c)
  {
    if a == [] {
      assert (a + [c] + b)[1..] == b;
    } else {
      var s := a + [c] + b;
      assert s[0] == a[0] && s[1..] == a[1..] + [c] + b;
      assert c !in a[1..];
      SplitOnCons(a[1..], b, c);
      var rest := SplitOn(s[1..], c);
      assert rest[0] == a[1..] && rest[1..] == SplitOn(b, c);
      assert [a[0]] + a[1..] == a;
      assert SplitOn(s, c) == [[a[0]] + rest[0]] + rest[1..];
    }
  }

  /** Splitting undoes joining, as long as no piece contains the separator. */
  lemma {:induction false} SplitJoin(parts: seq<string>, c: char)
    requires parts != []
    requires forall i :: 0 <= i < |parts| ==> c !in parts[i]
    ensures SplitOn(Join(parts, c), c) == parts
  {
    if |parts| == 1 {
      SplitOnFree(parts[0], c);
    } else {
      SplitJoin(parts[1..], c);
      SplitOnCons(parts[0], Join(parts[1..], c), c);
    }
  }

  /** Joining undoes splitting. */
  lemma {:induction false} JoinSplit(s: string, c: char)
    ensures Join(SplitOn(s, c), c) == s
  {
    if s != [] {
      JoinSplit(s[1..], c);
      var rest := SplitOn(s[1..], c);
      assert [s[0]] + s[1..] == s;
      if s[0] == c {
        assert SplitOn(s, c) == [""] + rest;
        assert ([""] + rest)[1..] == rest;
      } else {
        var r := [[s[0]] + rest[0]] + rest[1..];
        assert SplitOn(s, c) == r;
        if |rest| == 1 {
          assert Join(r, c) == [s[0]] + Join(rest, c);
        } else {
          assert r[1..] == rest[1..];
          assert Join(rest, c) == rest[0] + [c] + Join(rest[1..], c);
          assert Join(r, c) == [s[0]] + Join(rest, c);
        }
      }
    }
  }

  /** The last piece is non-empty when s ends in a char other than c. */
  lemma {:induction false} SplitOnLast(s: string, c: char)
    requires s != [] && s[|s| - 1] != c
    ensures SplitOn(s, c)[|SplitOn(s, c)| - 1] != ""
  {
    if |s| > 1 {
      assert s[1..][|s[1..]| - 1] == s[|s| - 1];
      SplitOnLast(s[1..], c);
    }
  }

  /** The trailing empty pieces that String.split removes. */
  function DropTrailingEmpty(parts: seq<string>): (r: seq<string>)
    ensures |r| <= |parts| && r == parts[..|r|]
    ensures r == [] || r[|r| - 1] != ""
    ensures forall i :: |r| <= i < |parts| ==> parts[i] == ""
  {
    if parts != [] && parts[|parts| - 1] == "" then DropTrailingEmpty(parts[..|parts| - 1]) else parts
  }

  /**
    String.split(String.valueOf(c)) with limit zero: the input itself when c
    does not occur, otherwise the pieces without the trailing empty ones.
   */
  function JavaSplit(s: string, c: char): (r: seq<string>)
    ensures forall i :: 0 <= i < |r| ==> c !in r[i]
    ensures c !in s ==> r == [s]
  {
    if c !in s then [s]
    else
      SplitOnPieces(s, c);
      DropTrailingEmpty(SplitOn(s, c))
  }

}
