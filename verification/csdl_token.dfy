/** CsdlToken.cs: one `name:Kind(initializer)` unit of the Command Syntax
    Definition Language, the scanner that finds the units in a pattern, and
    the conversion of a unit into a token type through the kind registry. */
module CsdlTokens {
  import opened Wrappers
  import opened Errors
  import opened Strings
  import opened Numbers
  import opened Kinds
  import opened Env

  /** The key under which a bare initializer is stored. */
  const DEFAULT_PROPERTY: string := "@DefaultTokenTypeProperty"

  /** A parsed unit. `properties` is `None` when the unit has no
      parentheses; otherwise it lists the initializer's entries in order. */
  datatype CsdlToken = CsdlToken(
    tokenText: string,
    name: string,
    isContextual: bool,
    tokenTypeName: string,
    properties: Option<seq<(string, string)>>,
    isOptional: bool,
    invertParsing: bool)

  // ---- The unit scanner (the TOKEN_PATTERN regular expression) ----

  /** The length of the run of ASCII letters and digits `s` starts with. */
  function AlnumRun(s: string): (n: nat)
    ensures n <= |s|
    ensures n == |s| || !IsAlphaNumeric(s[n])
  {
    if |s| > 0 && IsAlphaNumeric(s[0]) then 1 + AlnumRun(s[1..]) else 0
  }

  /** Everything before the end of the run is a letter or a digit. */
  lemma {:induction false} AlnumRunAll(s: string)
    ensures forall i :: 0 <= i < AlnumRun(s) ==> IsAlphaNumeric(s[i])
  {
    if |s| > 0 && IsAlphaNumeric(s[0]) {
      AlnumRunAll(s[1..]);
      forall i | 1 <= i < AlnumRun(s)
        ensures IsAlphaNumeric(s[i])
      {
        assert s[i] == s[1..][i - 1];
      }
    }
  }

  /** The first index `k >= from` at which `closer` occurs, provided no line
      break comes before it (`.` does not match a line break). */
  function FindClose(s: string, from: nat, closer: string): (r: Option<nat>)
    requires closer != [] && '\n' !in closer
    ensures r.Some? ==> from <= r.value && r.value + |closer| <= |s| && s[r.value..r.value + |closer|] == closer
    ensures r.Some? ==> forall i :: from <= i < r.value ==> s[i] != '\n'
    decreases |s| - from
  {
    if from + |closer| > |s| then None
    else if s[from..from + |closer|] == closer then Some(from)
    else if s[from] == '\n' then None
    else FindClose(s, from + 1, closer)
  }

  /** The length of the optional initializer at the start of `s`: a `(`,
      then a `{...}` object, a `'...'` literal or any text, each taken up to
      the first closing sequence that completes it, then `)`; zero when there
      is no complete one. */
  function InitializerLength(s: string): (n: nat)
    ensures n <= |s|
    ensures n > 0 ==> n >= 2 && s[0] == '(' && s[n - 1] == ')'
  {
    if |s| == 0 || s[0] != '(' then 0
    else
      var obj := if |s| > 1 && s[1] == '{' then FindClose(s, 2, "})") else None;
      var lit := if |s| > 1 && s[1] == '\'' then FindClose(s, 2, "')") else None;
      var any := FindClose(s, 1, ")");
      if obj.Some? then
        assert s[obj.value + 1] == s[obj.value..obj.value + 2][1];
        obj.value + 2
      else if lit.Some? then
        assert s[lit.value + 1] == s[lit.value..lit.value + 2][1];
        lit.value + 2
      else if any.Some? then
        assert s[any.value] == s[any.value..any.value + 1][0];
        any.value + 1
      else 0
  }

  /** The length of the unit matched at the very start of `s`, if one is:
      letters and digits, an optional `+`, `:`, at least one letter or digit,
      an optional `?`, an optional `~`, an optional initializer. */
  function MatchAt(s: string): (r: Option<nat>)
    ensures r.Some? ==> 2 <= r.value <= |s| && ':' in s[..r.value]
  {
    var n := AlnumRun(s);
    var p := if n < |s| && s[n] == '+' then n + 1 else n;
    if p < |s| && s[p] == ':' then
      var t := AlnumRun(s[p + 1..]);
      if t == 0 then None
      else
        var q := p + 1 + t;
        var q1 := if q < |s| && s[q] == '?' then q + 1 else q;
        var q2 := if q1 < |s| && s[q1] == '~' then q1 + 1 else q1;
        assert s[..q2][p] == ':';
        Some(q2 + InitializerLength(s[q2..]))
    else None
  }

  /** `Regex.Matches`: the leftmost match, then the search goes on after it. */
  function Scan(s: string): (r: seq<string>)
    ensures forall i :: 0 <= i < |r| ==> |r[i]| >= 2 && ':' in r[i]
    decreases |s|
  {
    if s == [] then []
    else match MatchAt(s)
      case Some(e) => [s[..e]] + Scan(s[e..])
      case None => Scan(s[1..])
  }

  /** The name given to the unit at match index `i` when it has none. */
  function AutoName(i: nat): (r: string)
    ensures |r| >= 2 && r[0] == 't' && r[|r| - 1] != '+'
  {
    "t" + NatToString(i)
  }

  // ---- The text constructor ----

  /** The name part: an empty name or a bare `+` is replaced by the
      alternative; a trailing run of `+` marks a contextual token and is
      removed. */
  function NameOf(raw: string, alternativeName: string): (r: (string, bool))
    ensures var n := if raw == [] || raw == "+" then alternativeName else raw;
      && (r.1 <==> n != [] && n[|n| - 1] == '+')
      && |r.0| <= |n| && n[..|r.0|] == r.0
      && (forall i :: |r.0| <= i < |n| ==> n[i] == '+')
      && (r.0 == [] || r.0[|r.0| - 1] != '+')
  {
    var n := if raw == [] || EqualsIgnoreCase(raw, "+") then alternativeName else raw;
    assert EqualsIgnoreCase(raw, "+") <==> raw == "+" by {
      if EqualsIgnoreCase(raw, "+") {
        assert Fold(raw)[0] == FoldChar(raw[0]);
      }
    }
    if |n| > 0 && n[|n| - 1] == '+' then (TrimEndChar(n, '+'), true) else (n, false)
  }

  /** The initializer's entries: a `{...}` object gives one entry per key
      (a repeated key throws), other non-blank text is the default property
      with outer `'` removed, blank text gives no entries. */
  function InitializerEntries(parseJsonObject: string -> Option<seq<(string, string)>>, content: string)
    : (r: Result<seq<(string, string)>, Error>)
    ensures var isObject := |content| > 0 && content[0] == '{' && content[|content| - 1] == '}';
      && (!isObject && !IsBlank(content) ==> r == Success([(DEFAULT_PROPERTY, TrimChar(content, '\''))]))
      && (!isObject && IsBlank(content) ==> r == Success([]))
      && (isObject && parseJsonObject(content).None? ==> r == Failure(JsonReader))
      && (isObject && parseJsonObject(content).Some? ==>
            (r.Success? <==> DistinctKeys(parseJsonObject(content).value))
            && (r.Success? ==> r.value == parseJsonObject(content).value))
    ensures r.Failure? ==> r.error == JsonReader || r.error == Argument(DuplicateKey)
  {
    if |content| > 0 && content[0] == '{' && content[|content| - 1] == '}' then
      match parseJsonObject(content)
      case None => Failure(JsonReader)
      case Some(entries) => if DistinctKeys(entries) then Success(entries) else Failure(Argument(DuplicateKey))
    else if !IsBlank(content) then Success([(DEFAULT_PROPERTY, TrimChar(content, '\''))])
    else Success([])
  }

  predicate DistinctKeys(entries: seq<(string, string)>) {
    forall i, j :: 0 <= i < j < |entries| ==> entries[i].0 != entries[j].0
  }

  /** The flag suffixes of the kind name: a trailing `?` is looked at first,
      then a trailing `~`; each run found is removed. */
  function KindAndFlags(typeText: string): (r: (string, bool, bool))
    ensures r.1 <==> typeText != [] && typeText[|typeText| - 1] == '?'
    ensures !r.1 ==> (r.2 <==> typeText != [] && typeText[|typeText| - 1] == '~')
    ensures |r.0| <= |typeText| && typeText[..|r.0|] == r.0
    ensures forall i :: |r.0| <= i < |typeText| ==> typeText[i] == '?' || typeText[i] == '~'
  {
    var optional := |typeText| > 0 && typeText[|typeText| - 1] == '?';
    var t1 := if optional then TrimEndChar(typeText, '?') else typeText;
    var invert := |t1| > 0 && t1[|t1| - 1] == '~';
    var t2 := if invert then TrimEndChar(t1, '~') else t1;
    assert typeText[..|t1|] == t1;
    assert t1[..|t2|] == t2;
    (t2, optional, invert)
  }

  /** The text before the first `:`. */
  function NamePart(text: string): string
    requires IndexOf(text, ':') >= 0
  {
    text[..IndexOf(text, ':')]
  }

  /** The text after the first `:`. */
  function KindPart(text: string): string
    requires IndexOf(text, ':') >= 0
  {
    text[IndexOf(text, ':') + 1..]
  }

  /** The kind name with its flag suffixes: up to the first `(`. */
  function TypeText(rest: string): string {
    var open := IndexOf(rest, '(');
    if open < 0 then rest else rest[..open]
  }

  /** What follows the first `:`: the kind name with its flags and, when
      there is a `(`, the initializer up to the last `)`. */
  datatype KindSpec = KindSpec(
    kind: string,
    isOptional: bool,
    invertParsing: bool,
    properties: Option<seq<(string, string)>>)

  /** The kind part of the `(tokenText, alternativeName)` constructor: a
      `)` before the `(` is out of range, and the initializer's own errors
      propagate. */
  function ParseKind(parseJsonObject: string -> Option<seq<(string, string)>>, rest: string): (r: Result<KindSpec, Error>)
    ensures r.Success? ==> (r.value.kind, r.value.isOptional, r.value.invertParsing) == KindAndFlags(TypeText(rest))
    ensures r.Success? ==> (r.value.properties.Some? <==> IndexOf(rest, '(') >= 0)
    ensures IndexOf(rest, '(') < 0 ==> r.Success?
    ensures r.Failure? ==> r.error == ArgumentOutOfRange || r.error == JsonReader || r.error == Argument(DuplicateKey)
  {
    var open := IndexOf(rest, '(');
    if open < 0 then
      var flags := KindAndFlags(rest);
      assert TypeText(rest) == rest;
      Success(KindSpec(flags.0, flags.1, flags.2, None))
    else
      var close := LastIndexOf(rest, ')');
      if close < open then Failure(ArgumentOutOfRange)
      else
        var entries := InitializerEntries(parseJsonObject, Trim(rest[open + 1..close]));
        if entries.Failure? then Failure(entries.error)
        else
          var flags := KindAndFlags(rest[..open]);
          assert TypeText(rest) == rest[..open];
          Success(KindSpec(flags.0, flags.1, flags.2, Some(entries.value)))
  }

  /** With a `(`: a `)` before it is out of range; otherwise the trimmed
      text between it and the last `)` is the initializer, whose failure
      is the unit's. */
  lemma ParseKindInitializer(parseJsonObject: string -> Option<seq<(string, string)>>, rest: string)
    requires IndexOf(rest, '(') >= 0
    ensures var r := ParseKind(parseJsonObject, rest);
      var open := IndexOf(rest, '(');
      var close := LastIndexOf(rest, ')');
      && (close < open ==> r == Failure(ArgumentOutOfRange))
      && (close > open ==>
            var entries := InitializerEntries(parseJsonObject, Trim(rest[open + 1..close]));
            && (r.Success? <==> entries.Success?)
            && (r.Failure? ==> r.error == entries.error)
            && (r.Success? ==> r.value.properties == Some(entries.value)))
  {
    var open := IndexOf(rest, '(');
    var close := LastIndexOf(rest, ')');
    if close > open {
      var entries := InitializerEntries(parseJsonObject, Trim(rest[open + 1..close]));
      var flags := KindAndFlags(rest[..open]);
      assert ParseKind(parseJsonObject, rest) ==
        if entries.Failure? then Failure(entries.error)
        else Success(KindSpec(flags.0, flags.1, flags.2, Some(entries.value)));
    }
  }

  /** The `(tokenText, alternativeName)` constructor: blank text is `null`,
      text without `:` has no separator; otherwise the name comes from
      before the first `:` and the kind from after it. */
  function FromText(parseJsonObject: string -> Option<seq<(string, string)>>, text: string, alternativeName: string)
    : (r: Result<CsdlToken, Error>)
    ensures IsBlank(text) <==> r == Failure(ArgumentNull)
    ensures !IsBlank(text) && IndexOf(text, ':') < 0 <==> r == Failure(Argument(NoSeparator))
    ensures r.Success? ==> IndexOf(text, ':') >= 0 && r.value.tokenText == text
    ensures r.Success? ==> (r.value.name, r.value.isContextual) == NameOf(NamePart(text), alternativeName)
    ensures !IsBlank(text) && IndexOf(text, ':') >= 0 ==>
      var k := ParseKind(parseJsonObject, KindPart(text));
      && (r.Success? <==> k.Success?)
      && (r.Failure? ==> r.error == k.error)
      && (r.Success? ==>
            && r.value.tokenTypeName == k.value.kind && r.value.properties == k.value.properties
            && r.value.isOptional == k.value.isOptional && r.value.invertParsing == k.value.invertParsing)
  {
    if IsBlank(text) then Failure(ArgumentNull)
    else if IndexOf(text, ':') < 0 then Failure(Argument(NoSeparator))
    else
      var named := NameOf(NamePart(text), alternativeName);
      var k := ParseKind(parseJsonObject, KindPart(text));
      if k.Failure? then Failure(k.error)
      else Success(CsdlToken(text, named.0, named.1, k.value.kind, k.value.properties, k.value.isOptional, k.value.invertParsing))
  }

  /** The internal constructor: name and kind name must not be empty; the
      text is `name:kind`. */
  function FromParts(name: string, tokenTypeName: string, isOptional: bool, invertParsing: bool,
                     properties: Option<seq<(string, string)>>): (r: Result<CsdlToken, Error>)
    ensures r.Failure? <==> name == [] || tokenTypeName == []
    ensures r.Failure? ==> r.error == ArgumentNull
    ensures r.Success? ==>
      && r.value.tokenText == name + ":" + tokenTypeName
      && r.value.name == name && r.value.tokenTypeName == tokenTypeName && !r.value.isContextual
      && r.value.isOptional == isOptional && r.value.invertParsing == invertParsing
      && r.value.properties == properties
  {
    if name == [] || tokenTypeName == [] then Failure(ArgumentNull)
    else Success(CsdlToken(name + ":" + tokenTypeName, name, false, tokenTypeName, properties, isOptional, invertParsing))
  }

  /** A text holding a `:` is not blank. */
  lemma ColonNotBlank(t: string)
    requires ':' in t
    ensures !IsBlank(t)
  {
    var k :| 0 <= k < |t| && t[k] == ':';
    assert !IsWhiteSpace(t[k]);
  }

  /** The conversion `GetTokensFromPattern` applies to every match. */
  function Convert(parseJsonObject: string -> Option<seq<(string, string)>>): (string, string) -> Result<CsdlToken, Error> {
    (text, name) => FromText(parseJsonObject, text, name)
  }

  /** `GetTokensFromPattern` from match index `i` on: each match becomes a
      unit whose fallback name is `t{i}`, `i` counting every match; the
      first failing match ends the loop with its error. */
  function UnitsFrom(convert: (string, string) -> Result<CsdlToken, Error>, matches: seq<string>, i: nat)
    : (r: Result<seq<CsdlToken>, Error>)
    ensures r.Success? ==> |r.value| == |matches|
    ensures r.Success? ==> forall j :: 0 <= j < |matches| ==> convert(matches[j], AutoName(i + j)) == Success(r.value[j])
    ensures r.Failure? ==> exists j :: 0 <= j < |matches| && convert(matches[j], AutoName(i + j)) == Failure(r.error)
    decreases |matches|
  {
    if matches == [] then Success([])
    else
      var head := convert(matches[0], AutoName(i));
      if head.Failure? then
        assert convert(matches[0], AutoName(i + 0)) == Failure(head.error);
        Failure(head.error)
      else
        var tail := UnitsFrom(convert, matches[1..], i + 1);
        if tail.Failure? then
          ghost var j :| 0 <= j < |matches[1..]| && convert(matches[1..][j], AutoName(i + 1 + j)) == Failure(tail.error);
          assert matches[1..][j] == matches[j + 1] && i + 1 + j == i + (j + 1);
          Failure(tail.error)
        else
          UnitsCons(convert, matches, i, head.value, tail.value);
          Success([head.value] + tail.value)
  }

  /** A converted first match in front of the units of the rest. */
  lemma UnitsCons(convert: (string, string) -> Result<CsdlToken, Error>, matches: seq<string>, i: nat,
                  head: CsdlToken, tail: seq<CsdlToken>)
    requires matches != [] && convert(matches[0], AutoName(i)) == Success(head)
    requires |tail| == |matches| - 1
    requires forall j :: 0 <= j < |matches[1..]| ==> convert(matches[1..][j], AutoName(i + 1 + j)) == Success(tail[j])
    ensures forall j :: 0 <= j < |matches| ==> convert(matches[j], AutoName(i + j)) == Success(([head] + tail)[j])
  {
    var all := [head] + tail;
    forall j | 0 <= j < |matches|
      ensures convert(matches[j], AutoName(i + j)) == Success(all[j])
    {
      if j > 0 {
        assert matches[1..][j - 1] == matches[j] && i + 1 + (j - 1) == i + j && all[j] == tail[j - 1];
      }
    }
  }

  /** Every scanned match holds a `:`, so none is blank and no unit fails
      as `null`. */
  lemma ScannedNeverNull(parseJsonObject: string -> Option<seq<(string, string)>>, pattern: string)
    ensures var r := UnitsFrom(Convert(parseJsonObject), Scan(pattern), 0);
      r.Failure? ==> r.error != ArgumentNull
  {
    var matches := Scan(pattern);
    var r := UnitsFrom(Convert(parseJsonObject), matches, 0);
    if r.Failure? {
      var j :| 0 <= j < |matches| && Convert(parseJsonObject)(matches[j], AutoName(0 + j)) == Failure(r.error);
      ColonNotBlank(matches[j]);
      assert FromText(parseJsonObject, matches[j], AutoName(0 + j)) == Failure(r.error);
    }
  }

  function GetTokensFromPattern(parseJsonObject: string -> Option<seq<(string, string)>>, pattern: string)
    : (r: Result<seq<CsdlToken>, Error>)
    ensures r.Success? ==> |r.value| == |Scan(pattern)|
    ensures r.Success? ==> forall j :: 0 <= j < |r.value| ==> r.value[j].tokenText == Scan(pattern)[j]
    ensures r.Failure? ==> r.error != ArgumentNull
  {
    ScannedNeverNull(parseJsonObject, pattern);
    var r := UnitsFrom(Convert(parseJsonObject), Scan(pattern), 0);
    assert r.Success? ==> forall j :: 0 <= j < |r.value| ==>
      FromText(parseJsonObject, Scan(pattern)[j], AutoName(0 + j)) == Success(r.value[j]);
    r
  }

  // ---- Properties of the scanner and the unit constructor ----

  /** A unit with no flags and no initializer: letters and digits, one `:`,
      then at least one letter or digit. */
  predicate PlainUnit(u: string) {
    var k := IndexOf(u, ':');
    && 0 <= k && k + 1 < |u|
    && (forall i :: 0 <= i < |u| && i != k ==> IsAlphaNumeric(u[i]))
  }

  lemma {:induction false} AlnumRunOf(a: string, b: string)
    requires forall i :: 0 <= i < |a| ==> IsAlphaNumeric(a[i])
    requires b == [] || !IsAlphaNumeric(b[0])
    ensures AlnumRun(a + b) == |a|
  {
    if a != [] {
      assert (a + b)[1..] == a[1..] + b;
      AlnumRunOf(a[1..], b);
    }
  }

  predicate AllAlphaNumeric(s: string) {
    forall i :: 0 <= i < |s| ==> IsAlphaNumeric(s[i])
  }

  /** A match that stops before a space or at the end has no flags and no
      initializer. */
  lemma {:induction false} MatchEndsAtSpace(s: string, k: nat, t: nat)
    requires AlnumRun(s) == k && k < |s| && s[k] == ':'
    requires AlnumRun(s[k + 1..]) == t > 0
    requires k + 1 + t == |s| || s[k + 1 + t] == ' '
    ensures MatchAt(s) == Some(k + 1 + t)
  {
    var q := k + 1 + t;
    NoInitializerAtSpace(s, q);
    var q1 := if q < |s| && s[q] == '?' then q + 1 else q;
    assert q1 == q;
    var q2 := if q1 < |s| && s[q1] == '~' then q1 + 1 else q1;
    assert q2 == q;
    assert MatchAt(s).value == q2 + InitializerLength(s[q2..]);
  }

  lemma NoInitializerAtSpace(s: string, q: nat)
    requires q <= |s| && (q == |s| || s[q] == ' ')
    ensures InitializerLength(s[q..]) == 0
  {
    if q < |s| {
      assert s[q..][0] == ' ';
    }
  }

  lemma NameRun(name: string, kind: string, rest: string)
    requires AllAlphaNumeric(name)
    ensures AlnumRun(name + ":" + kind + rest) == |name|
  {
    assert name + ":" + kind + rest == name + (":" + kind + rest);
    AlnumRunOf(name, ":" + kind + rest);
  }

  lemma KindRun(name: string, kind: string, rest: string)
    requires AllAlphaNumeric(kind)
    requires rest == [] || rest[0] == ' '
    ensures var s := name + ":" + kind + rest;
      && s[|name|] == ':'
      && AlnumRun(s[|name| + 1..]) == |kind|
      && (|name| + 1 + |kind| == |s| || s[|name| + 1 + |kind|] == ' ')
  {
    var s := name + ":" + kind + rest;
    assert s[|name| + 1..] == kind + rest;
    AlnumRunOf(kind, rest);
    if |name| + 1 + |kind| < |s| {
      assert s[|name| + 1 + |kind|] == rest[0];
    }
  }

  /** `name:kind` followed by a space or by nothing is matched whole. */
  lemma MatchNameKind(name: string, kind: string, rest: string)
    requires AllAlphaNumeric(name) && AllAlphaNumeric(kind) && kind != []
    requires rest == [] || rest[0] == ' '
    ensures MatchAt(name + ":" + kind + rest) == Some(|name| + 1 + |kind|)
  {
    NameRun(name, kind, rest);
    KindRun(name, kind, rest);
    MatchEndsAtSpace(name + ":" + kind + rest, |name|, |kind|);
  }

  /** A plain unit is a name and a kind name around its `:`. */
  lemma PlainUnitParts(u: string)
    requires PlainUnit(u)
    ensures var k := IndexOf(u, ':');
      && u == u[..k] + ":" + u[k + 1..]
      && AllAlphaNumeric(u[..k]) && AllAlphaNumeric(u[k + 1..]) && u[k + 1..] != []
  {
    var k := IndexOf(u, ':');
    assert u == u[..k] + ":" + u[k + 1..];
    var tail := u[k + 1..];
    forall i | 0 <= i < |tail| ensures IsAlphaNumeric(tail[i]) {
      assert tail[i] == u[k + 1 + i];
    }
  }

  /** A plain unit followed by a space or by nothing is matched whole. */
  lemma MatchPlainUnit(u: string, rest: string)
    requires PlainUnit(u)
    requires rest == [] || rest[0] == ' '
    ensures MatchAt(u + rest) == Some(|u|)
  {
    var k := IndexOf(u, ':');
    PlainUnitParts(u);
    MatchNameKind(u[..k], u[k + 1..], rest);
  }

  /** No unit starts at a space. */
  lemma NoMatchAtSpace(s: string)
    requires s != [] && s[0] == ' '
    ensures MatchAt(s) == None
  {
    assert AlnumRun(s) == 0;
  }

  /** A leading space is never the start of a unit. */
  lemma ScanSkipsSpace(s: string)
    ensures Scan(" " + s) == Scan(s)
  {
    NoMatchAtSpace(" " + s);
    assert (" " + s)[1..] == s;
  }

  /** A plain unit in front of a space or of nothing is scanned first. */
  lemma ScanPlainUnit(u: string, rest: string)
    requires PlainUnit(u)
    requires rest == [] || rest[0] == ' '
    ensures Scan(u + rest) == [u] + Scan(rest)
  {
    MatchPlainUnit(u, rest);
    var s := u + rest;
    assert s[..|u|] == u && s[|u|..] == rest;
  }

  /** A plain unit and a space in front of text that scans to `rest` scan
      to the unit, then `rest`. */
  lemma ScanPlainCons(u: string, j: string, rest: seq<string>)
    requires PlainUnit(u) && Scan(j) == rest
    ensures Scan(u + " " + j) == [u] + rest
  {
    assert u + " " + j == u + (" " + j);
    ScanPlainUnit(u, " " + j);
    ScanSkipsSpace(j);
  }

  /** Plain units joined by single spaces scan back to themselves. */
  lemma {:induction false} ScanPlainUnits(units: seq<string>)
    requires forall i :: 0 <= i < |units| ==> PlainUnit(units[i])
    ensures Scan(Join(' ', units)) == units
  {
    if |units| == 1 {
      ScanPlainUnit(units[0], []);
      assert units[0] + [] == units[0];
    } else if |units| > 1 {
      var rest := units[1..];
      assert forall i :: 0 <= i < |rest| ==> rest[i] == units[i + 1];
      ScanPlainUnits(rest);
      ScanPlainCons(units[0], Join(' ', rest), rest);
      assert Join(' ', units) == units[0] + " " + Join(' ', rest);
      assert units == [units[0]] + rest;
    }
  }

  /** A name that does not end in `+` is kept as it is, and marks no
      contextual token. */
  lemma NameWithoutPlus(raw: string, alternativeName: string)
    requires alternativeName == [] || alternativeName[|alternativeName| - 1] != '+'
    requires raw == [] || (raw[|raw| - 1] != '+' && raw != "+")
    ensures NameOf(raw, alternativeName) == (if raw == [] then alternativeName else raw, false)
  {
  }

  /** A kind name of letters and digits has no flags. */
  lemma KindWithoutFlags(kind: string)
    requires AllAlphaNumeric(kind) && kind != []
    ensures IndexOf(kind, '(') < 0
    ensures KindAndFlags(kind) == (kind, false, false)
  {
    assert IsAlphaNumeric(kind[|kind| - 1]);
  }

  /** A unit without `(` has no initializer; its name and flags come from
      the two sides of its first `:`. */
  lemma FromTextWithoutInitializer(parseJsonObject: string -> Option<seq<(string, string)>>, text: string, alternativeName: string)
    requires !IsBlank(text) && IndexOf(text, ':') >= 0 && IndexOf(KindPart(text), '(') < 0
    ensures var (name, contextual) := NameOf(NamePart(text), alternativeName);
      var (kind, optional, invert) := KindAndFlags(KindPart(text));
      FromText(parseJsonObject, text, alternativeName) == Success(CsdlToken(text, name, contextual, kind, None, optional, invert))
  {
    assert TypeText(KindPart(text)) == KindPart(text);
  }

  /** A plain unit always converts: its name is the text before `:`, or the
      fallback name when that is empty, it is not contextual, optional or
      inverted, and it has no initializer. */
  lemma FromPlainUnit(parseJsonObject: string -> Option<seq<(string, string)>>, u: string, alternativeName: string)
    requires PlainUnit(u)
    requires alternativeName == [] || alternativeName[|alternativeName| - 1] != '+'
    ensures FromText(parseJsonObject, u, alternativeName).Success?
    ensures var t := FromText(parseJsonObject, u, alternativeName).value;
      var k := IndexOf(u, ':');
      && t.tokenText == u && t.properties == None
      && t.name == (if k == 0 then alternativeName else u[..k])
      && t.tokenTypeName == u[k + 1..]
      && !t.isContextual && !t.isOptional && !t.invertParsing
  {
    var k := IndexOf(u, ':');
    var name := if k == 0 then alternativeName else u[..k];
    PlainUnitSplit(u);
    PlainUnitName(u, alternativeName);
    PlainUnitKind(u);
    FromTextWithoutInitializer(parseJsonObject, u, alternativeName);
    assert FromText(parseJsonObject, u, alternativeName) == Success(CsdlToken(u, name, false, u[k + 1..], None, false, false));
  }

  /** A plain unit splits at its colon into name and kind. */
  lemma PlainUnitSplit(u: string)
    requires PlainUnit(u)
    ensures var k := IndexOf(u, ':');
      !IsBlank(u) && NamePart(u) == u[..k] && KindPart(u) == u[k + 1..]
  {
    var k := IndexOf(u, ':');
    assert !IsWhiteSpace(u[k + 1]);
  }

  /** The name of a plain unit has no markers: it is the text before the
      colon, or the fallback name when that is empty. */
  lemma PlainUnitName(u: string, alternativeName: string)
    requires PlainUnit(u)
    requires alternativeName == [] || alternativeName[|alternativeName| - 1] != '+'
    ensures var k := IndexOf(u, ':');
      NameOf(u[..k], alternativeName) == (if k == 0 then alternativeName else u[..k], false)
  {
    var k := IndexOf(u, ':');
    if k > 0 {
      assert u[..k][k - 1] == u[k - 1];
      assert IsAlphaNumeric(u[..k][0]);
    }
    NameWithoutPlus(u[..k], alternativeName);
  }

  /** The kind of a plain unit has no initializer and no flags. */
  lemma PlainUnitKind(u: string)
    requires PlainUnit(u)
    ensures var k := IndexOf(u, ':');
      IndexOf(u[k + 1..], '(') < 0 && KindAndFlags(u[k + 1..]) == (u[k + 1..], false, false)
  {
    PlainUnitParts(u);
    KindWithoutFlags(u[IndexOf(u, ':') + 1..]);
  }

  /** The unit at match index `i` whose name is empty or the bare `+` is
      named `t{i}` and is not contextual. */
  lemma AutoNamed(parseJsonObject: string -> Option<seq<(string, string)>>, pattern: string, i: nat)
    requires GetTokensFromPattern(parseJsonObject, pattern).Success?
    requires i < |Scan(pattern)|
    requires IndexOf(Scan(pattern)[i], ':') >= 0
    requires NamePart(Scan(pattern)[i]) == [] || NamePart(Scan(pattern)[i]) == "+"
    ensures GetTokensFromPattern(parseJsonObject, pattern).value[i].name == AutoName(i)
    ensures !GetTokensFromPattern(parseJsonObject, pattern).value[i].isContextual
  {
    var t := GetTokensFromPattern(parseJsonObject, pattern).value[i];
    var n := AutoName(i);
    assert Convert(parseJsonObject)(Scan(pattern)[i], AutoName(0 + i)) == Success(t);
    assert FromText(parseJsonObject, Scan(pattern)[i], AutoName(0 + i)) == Success(t);
    assert 0 + i == i;
    var nm := NameOf(NamePart(Scan(pattern)[i]), n);
    assert (t.name, t.isContextual) == nm;
  }

  /** The suffixes are looked at optional-first, so `K?~` is an inverted,
      non-optional unit whose kind name keeps the `?`. */
  lemma OptionalBeforeInvert(kind: string)
    requires kind != [] && kind[|kind| - 1] != '?' && kind[|kind| - 1] != '~'
    ensures KindAndFlags(kind + "?~") == (kind + "?", false, true)
    ensures KindAndFlags(kind + "~?") == (kind, true, true)
  {
    var a := kind + "?~";
    assert a[..|a| - 1] == kind + "?";
    assert TrimEndChar(a, '~') == TrimEndChar(kind + "?", '~');
    var b := kind + "~?";
    assert b[..|b| - 1] == kind + "~";
    assert TrimEndChar(b, '?') == TrimEndChar(kind + "~", '?');
    assert (kind + "~")[..|kind|] == kind;
    assert TrimEndChar(kind + "~", '~') == TrimEndChar(kind, '~');
  }

  /** Plain units always convert, each keeping its text. */
  lemma {:induction false} UnitsFromPlain(parseJsonObject: string -> Option<seq<(string, string)>>, matches: seq<string>, i: nat)
    requires forall j :: 0 <= j < |matches| ==> PlainUnit(matches[j])
    ensures UnitsFrom(Convert(parseJsonObject), matches, i).Success?
    decreases |matches|
  {
    if matches != [] {
      FromPlainUnit(parseJsonObject, matches[0], AutoName(i));
      assert Convert(parseJsonObject)(matches[0], AutoName(i)).Success?;
      UnitsFromPlain(parseJsonObject, matches[1..], i + 1);
    }
  }

  /** The units of a pattern made of plain units separated by single
      spaces are those units, in order. */
  lemma PlainPatternUnits(parseJsonObject: string -> Option<seq<(string, string)>>, units: seq<string>)
    requires forall j :: 0 <= j < |units| ==> PlainUnit(units[j])
    ensures GetTokensFromPattern(parseJsonObject, Join(' ', units)).Success?
    ensures var ts := GetTokensFromPattern(parseJsonObject, Join(' ', units)).value;
      |ts| == |units| && forall j :: 0 <= j < |units| ==> ts[j].tokenText == units[j]
  {
    ScanPlainUnits(units);
    UnitsFromPlain(parseJsonObject, units, 0);
  }
}
