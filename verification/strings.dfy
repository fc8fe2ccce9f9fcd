/** Character and string helpers with the .NET behaviour the engine relies on,
    restricted to ASCII: white space is the ASCII set `char.IsWhiteSpace`
    accepts and case-insensitive comparison folds `A`..`Z` only. */
module Strings {
  import Runs

  predicate IsWhiteSpace(c: char) {
    c == ' ' || c == '\t' || c == '\n' || c == '\r' || c == '\U{B}' || c == '\U{C}'
  }

  /** `string.IsNullOrWhiteSpace` on a non-null string. */
  predicate IsBlank(s: string) {
    forall i {:trigger IsWhiteSpace(s[i])} :: 0 <= i < |s| ==> IsWhiteSpace(s[i])
  }

  predicate IsAsciiLetter(c: char) {
    ('A' <= c <= 'Z') || ('a' <= c <= 'z')
  }

  predicate IsDigit(c: char) {
    '0' <= c <= '9'
  }

  predicate IsAlphaNumeric(c: char) {
    IsAsciiLetter(c) || IsDigit(c)
  }

  function TrimStart(s: string): (r: string)
    ensures |r| <= |s|
    ensures r == [] || !IsWhiteSpace(r[0])
  {
    if |s| > 0 && IsWhiteSpace(s[0]) then TrimStart(s[1..]) else s
  }

  function TrimEnd(s: string): (r: string)
    ensures |r| <= |s|
    ensures r == [] || !IsWhiteSpace(r[|r| - 1])
  {
    if |s| > 0 && IsWhiteSpace(s[|s| - 1]) then TrimEnd(s[..|s| - 1]) else s
  }

  /** `TrimStart` keeps a suffix of its argument and drops only white
      space. */
  lemma {:induction false} TrimStartSuffix(s: string)
    ensures TrimStart(s) == s[|s| - |TrimStart(s)|..]
    ensures forall i :: 0 <= i < |s| - |TrimStart(s)| ==> IsWhiteSpace(s[i])
  {
    if |s| > 0 && IsWhiteSpace(s[0]) {
      TrimStartSuffix(s[1..]);
      forall i | 1 <= i < |s| - |TrimStart(s)|
        ensures IsWhiteSpace(s[i])
      {
        assert s[i] == s[1..][i - 1];
      }
    }
  }

  /** `TrimEnd` keeps a prefix of its argument and drops only white
      space. */
  lemma {:induction false} TrimEndPrefix(s: string)
    ensures TrimEnd(s) == s[..|TrimEnd(s)|]
    ensures forall i :: |TrimEnd(s)| <= i < |s| ==> IsWhiteSpace(s[i])
  {
    if |s| > 0 && IsWhiteSpace(s[|s| - 1]) {
      TrimEndPrefix(s[..|s| - 1]);
      forall i | |TrimEnd(s)| <= i < |s| - 1
        ensures IsWhiteSpace(s[i])
      {
        assert s[i] == s[..|s| - 1][i];
      }
    }
  }

  /** `string.Trim()`: white space removed from both ends. */
  function Trim(s: string): (r: string)
    ensures |r| <= |s|
    ensures r == [] || (!IsWhiteSpace(r[0]) && !IsWhiteSpace(r[|r| - 1]))
    ensures r == [] <==> IsBlank(s)
  {
    var t := TrimStart(s);
    var r := TrimEnd(t);
    TrimStartSuffix(s);
    TrimEndPrefix(t);
    assert r != [] ==> r[0] == t[0] && t[0] == s[|s| - |t|];
    assert r == [] ==> t == [];
    r
  }

  /** Every character of the trimmed text comes from the text. */
  lemma TrimChars(s: string)
    ensures forall i :: 0 <= i < |Trim(s)| ==> Trim(s)[i] in s
  {
    var t := TrimStart(s);
    TrimStartSuffix(s);
    TrimEndPrefix(t);
    forall i | 0 <= i < |Trim(s)|
      ensures Trim(s)[i] in s
    {
      assert Trim(s)[i] == t[i] == s[|s| - |t| + i];
    }
  }

  /** `string.TrimStart(c)`: every leading `c` removed. */
  function TrimStartChar(s: string, c: char): (r: string)
    ensures |r| <= |s| && r == s[|s| - |r|..]
    ensures r == [] || r[0] != c
    ensures forall i :: 0 <= i < |s| - |r| ==> s[i] == c
  {
    if |s| > 0 && s[0] == c then TrimStartChar(s[1..], c) else s
  }

  /** `string.TrimEnd(c)`: every trailing `c` removed. */
  function TrimEndChar(s: string, c: char): (r: string)
    ensures |r| <= |s| && r == s[..|r|]
    ensures r == [] || r[|r| - 1] != c
    ensures forall i :: |r| <= i < |s| ==> s[i] == c
  {
    if |s| > 0 && s[|s| - 1] == c then TrimEndChar(s[..|s| - 1], c) else s
  }

  /** `string.Trim(c)`: `c` removed from both ends. */
  function TrimChar(s: string, c: char): string {
    TrimEndChar(TrimStartChar(s, c), c)
  }

  function FoldChar(c: char): char {
    if 'A' <= c <= 'Z' then (c as int + 32) as char else c
  }

  function UpperChar(c: char): char {
    if 'a' <= c <= 'z' then (c as int - 32) as char else c
  }

  /** The string in lower case, character by character. */
  function Fold(s: string): (r: string)
    ensures |r| == |s|
    ensures forall i :: 0 <= i < |s| ==> r[i] == FoldChar(s[i])
  {
    seq(|s|, i requires 0 <= i < |s| => FoldChar(s[i]))
  }

  /** The string in upper case, character by character (`ToUpper`). */
  function Upper(s: string): (r: string)
    ensures |r| == |s|
    ensures forall i :: 0 <= i < |s| ==> r[i] == UpperChar(s[i])
  {
    seq(|s|, i requires 0 <= i < |s| => UpperChar(s[i]))
  }

  /** Ordinal / invariant-culture case-insensitive equality. */
  predicate EqualsIgnoreCase(a: string, b: string) {
    Fold(a) == Fold(b)
  }

  predicate StartsWithIgnoreCase(s: string, prefix: string) {
    |prefix| <= |s| && Fold(s[..|prefix|]) == Fold(prefix)
  }

  predicate EndsWithIgnoreCase(s: string, suffix: string) {
    |suffix| <= |s| && Fold(s[|s| - |suffix|..]) == Fold(suffix)
  }

  /** `parts` joined with single `sep` characters. */
  function Join(sep: char, parts: seq<string>): (r: string)
    ensures |parts| == 0 ==> r == []
    ensures |parts| == 1 ==> r == parts[0]
  {
    if |parts| == 0 then []
    else if |parts| == 1 then parts[0]
    else parts[0] + [sep] + Join(sep, parts[1..])
  }

  /** Every part followed by one space: what a `StringBuilder` loop of
      `AppendFormat("{0} ", part)` builds before its final `Trim()`. */
  function SpaceTerminated(parts: seq<string>): string {
    if |parts| == 0 then [] else parts[0] + " " + SpaceTerminated(parts[1..])
  }

  /** `string.IndexOf(c)`: the first index of `c`, or -1. */
  function IndexOf(s: string, c: char): (r: int)
    ensures -1 <= r < |s|
    ensures r >= 0 ==> s[r] == c && forall i :: 0 <= i < r ==> s[i] != c
    ensures r == -1 ==> forall i :: 0 <= i < |s| ==> s[i] != c
  {
    if |s| == 0 then -1
    else if s[0] == c then 0
    else var k := IndexOf(s[1..], c); if k < 0 then -1 else k + 1
  }

  /** `string.LastIndexOf(c)`: the last index of `c`, or -1. */
  function LastIndexOf(s: string, c: char): (r: int)
    ensures -1 <= r < |s|
    ensures r >= 0 ==> s[r] == c && forall i :: r < i < |s| ==> s[i] != c
    ensures r == -1 ==> forall i :: 0 <= i < |s| ==> s[i] != c
  {
    if |s| == 0 then -1
    else if s[|s| - 1] == c then |s| - 1
    else LastIndexOf(s[..|s| - 1], c)
  }

  /** `string.Split(c)`: the pieces between occurrences of `c`, empty ones kept. */
  function Split(s: string, c: char): (r: seq<string>)
    ensures |r| >= 1
    ensures forall i :: 0 <= i < |r| ==> c !in r[i]
    ensures Join(c, r) == s
  {
    var k := IndexOf(s, c);
    if k < 0 then [s]
    else
      var rest := Split(s[k + 1..], c);
      assert s == s[..k] + [c] + s[k + 1..];
      [s[..k]] + rest
  }

  /** `s.Replace("c", "")`: every occurrence of `c` deleted, every other
      character kept as often as it occurs, in order. */
  function Remove(s: string, c: char): (r: string)
    ensures c !in r
    ensures |r| <= |s|
    ensures forall x :: x != c ==> multiset(r)[x] == multiset(s)[x]
  {
    Runs.KeptCounts(s, x => x == c);
    Runs.Kept(s, x => x == c)
  }

  /** Deleting a character from a text one character longer. */
  lemma RemoveCons(x: char, s: string, c: char)
    ensures Remove([x] + s, c) == (if x == c then [] else [x]) + Remove(s, c)
  {
    assert ([x] + s)[0] == x && ([x] + s)[1..] == s;
  }

  /** The decimal digits of `n`. */
  function NatToString(n: nat): (r: string)
    ensures |r| >= 1
    ensures forall i :: 0 <= i < |r| ==> IsDigit(r[i])
  {
    if n < 10 then [('0' as int + n) as char]
    else NatToString(n / 10) + [('0' as int + n % 10) as char]
  }

  /** `int.ToString()` / `long.ToString()` with invariant culture. */
  function IntToString(n: int): string {
    if n < 0 then "-" + NatToString(-n) else NatToString(n)
  }

  /** Trimming a space in front of text that starts and ends with a
      character that is not white space. */
  lemma TrimLeadingSpace(w: string)
    requires w != [] && !IsWhiteSpace(w[0]) && !IsWhiteSpace(w[|w| - 1])
    ensures Trim(" " + w) == w
  {
    var s := " " + w;
    assert s[0] == ' ' && s[1..] == w;
    assert TrimStart(s) == TrimStart(w);
    assert TrimStart(w) == w;
    assert TrimEnd(w) == w;
  }

  /** Trimming a space after such text. */
  lemma TrimTrailingSpace(w: string)
    requires w != [] && !IsWhiteSpace(w[0]) && !IsWhiteSpace(w[|w| - 1])
    ensures Trim(w + " ") == w
  {
    var s := w + " ";
    assert TrimStart(s) == s;
    assert s[..|s| - 1] == w;
    assert TrimEnd(s) == TrimEnd(w);
    assert TrimEnd(w) == w;
  }

  /** A word that is not empty and has no white space at either end, as
      the tokenizer produces from ordinary text. */
  predicate Solid(w: string) {
    w != [] && !IsWhiteSpace(w[0]) && !IsWhiteSpace(w[|w| - 1])
  }

  lemma {:induction false} JoinSolid(ws: seq<string>)
    requires ws != [] && forall i :: 0 <= i < |ws| ==> Solid(ws[i])
    ensures Solid(Join(' ', ws))
    ensures Join(' ', ws)[0] == ws[0][0]
  {
    if |ws| > 1 {
      JoinSolid(ws[1..]);
      var rest := Join(' ', ws[1..]);
      assert Join(' ', ws) == ws[0] + [' '] + rest;
    }
  }

  lemma {:induction false} JoinSnoc(ws: seq<string>)
    requires |ws| >= 2
    ensures Join(' ', ws) == Join(' ', ws[..|ws| - 1]) + " " + ws[|ws| - 1]
  {
    if |ws| > 2 {
      JoinSnoc(ws[1..]);
      assert ws[1..][..|ws| - 2] == ws[..|ws| - 1][1..];
    } else {
      assert ws[..1] == [ws[0]];
    }
  }

  lemma {:induction false} SpaceTerminatedJoin(ws: seq<string>)
    requires ws != []
    ensures SpaceTerminated(ws) == Join(' ', ws) + " "
  {
    if |ws| > 1 {
      SpaceTerminatedJoin(ws[1..]);
    }
  }
  /** The first `c` after a prefix without `c`. */
  lemma {:induction false} IndexOfAfter(a: string, c: char, b: string)
    requires c !in a
    ensures IndexOf(a + [c] + b, c) == |a|
  {
    if a != [] {
      assert (a + [c] + b)[1..] == a[1..] + [c] + b;
      IndexOfAfter(a[1..], c, b);
    }
  }

  /** `Split` cuts a leading part without the separator off. */
  lemma SplitCons(a: string, c: char, b: string)
    requires c !in a
    ensures Split(a + [c] + b, c) == [a] + Split(b, c)
  {
    var s := a + [c] + b;
    IndexOfAfter(a, c, b);
    assert s[..|a|] == a && s[|a| + 1..] == b;
  }

  /** `Split` undoes `Join` when no part holds the separator. */
  lemma {:induction false} SplitJoin(ws: seq<string>, c: char)
    requires ws != [] && forall i :: 0 <= i < |ws| ==> c !in ws[i]
    ensures Split(Join(c, ws), c) == ws
  {
    if |ws| == 1 {
      assert IndexOf(ws[0], c) == -1;
    } else {
      SplitJoin(ws[1..], c);
      SplitCons(ws[0], c, Join(c, ws[1..]));
      assert ws == [ws[0]] + ws[1..];
    }
  }

  /** Solid parts each followed by a space, trimmed: the parts joined by
      single spaces. */
  lemma TrimSpaceTerminated(ws: seq<string>)
    requires ws != [] && forall i :: 0 <= i < |ws| ==> Solid(ws[i])
    ensures Trim(SpaceTerminated(ws)) == Join(' ', ws)
  {
    var joined := Join(' ', ws);
    assert SpaceTerminated(ws) == joined + " " by {
      SpaceTerminatedJoin(ws);
    }
    assert Solid(joined) by {
      JoinSolid(ws);
    }
    TrimTrailingSpace(joined);
  }
}
