/** `extractContent` and `extractDeltaContent`, copied into every console
    program: find the first `"content":"`, scan to the end of the string
    value (a backslash skips the next character, a quote stops), cut the raw
    text out with `substring` and undo three escapes with `replace`. */
module ContentScan {
  import opened Text
  import opened JsonEscape

  /** The key the extractors look for, including the value's opening quote */
  const ContentKey: string := "\"content\":\""

  /** What the extractors find in a JSON text */
  datatype Extraction =
    | KeyAbsent          // indexOf returned -1
    | Overrun            // the scan ended past the text; `substring` throws
    | Raw(text: string)  // the escaped value between the quotes

  /** A Kotlin call that either returns a value or throws
      (here StringIndexOutOfBoundsException from `substring`) */
  datatype Result<T> = Returned(value: T) | Threw

  /** Where the boundary scan stops when started at `i` */
  function ScanFrom(json: string, i: nat): (e: nat)
    requires i <= |json| + 1
    ensures i <= e <= |json| + 1
    decreases |json| + 1 - i
  {
    if i >= |json| then i
    else if json[i] == '\\' then ScanFrom(json, i + 2)
    else if json[i] == '\"' then i
    else ScanFrom(json, i + 1)
  }

  /** The scan passes over a well-formed string body without stopping. */
  lemma {:induction false} ScanSkipsBody(json: string, i: nat, k: nat)
    requires i <= k <= |json| && IsEscapedBody(json[i..k])
    ensures ScanFrom(json, i) == ScanFrom(json, k)
    decreases k - i
  {
    if i < k {
      var t := json[i..k];
      if json[i] == '\\' {
        assert t[2..] == json[i + 2..k];
        ScanSkipsBody(json, i + 2, k);
      } else {
        assert t[1..] == json[i + 1..k];
        ScanSkipsBody(json, i + 1, k);
      }
    }
  }

  /** Where the scan stops inside the text: at `e` exactly when the text
      from `i` to `e` is a well-formed string body and `e` holds a quote or
      is the end. A quote that is the second character of a backslash pair
      never stops it, and the first quote that is not does. */
  lemma {:induction false} ScanStopsAt(json: string, i: nat, e: nat)
    requires i <= e <= |json|
    ensures ScanFrom(json, i) == e <==>
      IsEscapedBody(json[i..e]) && (e == |json| || json[e] == '\"')
    decreases e - i
  {
    if IsEscapedBody(json[i..e]) && (e == |json| || json[e] == '\"') {
      ScanSkipsBody(json, i, e);
    }
    if ScanFrom(json, i) == e && i < e {
      var t := json[i..e];
      if json[i] == '\\' {
        ScanStopsAt(json, i + 2, e);
        assert t[2..] == json[i + 2..e];
      } else {
        ScanStopsAt(json, i + 1, e);
        assert t[1..] == json[i + 1..e];
      }
    }
  }

  /** The scan overshoots the text by one exactly when the text ends in a
      backslash that opens a pair. */
  lemma {:induction false} ScanOverrun(json: string, i: nat)
    requires i <= |json|
    ensures ScanFrom(json, i) == |json| + 1 <==>
      i < |json| && json[|json| - 1] == '\\' && IsEscapedBody(json[i..|json| - 1])
    decreases |json| - i
  {
    var n := |json|;
    if i < n && json[n - 1] == '\\' && IsEscapedBody(json[i..n - 1]) {
      ScanSkipsBody(json, i, n - 1);
    }
    if ScanFrom(json, i) == n + 1 && i < n {
      if json[i] == '\\' {
        if i + 2 <= n {
          ScanOverrun(json, i + 2);
          assert json[i..n - 1][2..] == json[i + 2..n - 1];
        }
      } else {
        ScanOverrun(json, i + 1);
        assert json[i..n - 1][1..] == json[i + 1..n - 1];
      }
    }
  }

  /** What the extractors find, as a function of the input */
  function Locate(json: string): Extraction {
    var start := IndexOf(json, ContentKey);
    if start == -1 then KeyAbsent
    else
      var contentStart := start + |ContentKey|;
      var end := ScanFrom(json, contentStart);
      if end > |json| then Overrun else Raw(json[contentStart..end])
  }

  /** The three replacements of the extractors, in the source's order */
  function Unescape(raw: string): string {
    var r1 := ReplaceAll(raw, "\\n", "\n");
    var r2 := ReplaceAll(r1, "\\\"", "\"");
    ReplaceAll(r2, "\\\\", "\\")
  }

  /** `extractDeltaContent(json)`: "" when the key is absent */
  function DeltaContent(json: string): Result<string> {
    match Locate(json)
    case KeyAbsent => Returned("")
    case Overrun => Threw
    case Raw(t) => Returned(Unescape(t))
  }

  /** `extractContent(json)`: null when the key is absent */
  function Content(json: string): Result<Option<string>> {
    match Locate(json)
    case KeyAbsent => Returned(None)
    case Overrun => Threw
    case Raw(t) => Returned(Some(Unescape(t)))
  }

  /** The shared body of both extractors: `indexOf` and the `var end` loop */
  method ScanContent(json: string) returns (x: Extraction)
    ensures x == Locate(json)
  {
    var start := IndexOf(json, ContentKey);
    if start == -1 {
      return KeyAbsent;
    }
    var contentStart := start + |ContentKey|;
    var end := contentStart;
    while end < |json|
      invariant contentStart <= end <= |json| + 1
      invariant ScanFrom(json, end) == ScanFrom(json, contentStart)
      decreases |json| - end
    {
      if json[end] == '\\' {
        end := end + 2;
      } else if json[end] == '\"' {
        break;
      } else {
        end := end + 1;
      }
    }
    if end > |json| {
      return Overrun;
    }
    return Raw(json[contentStart..end]);
  }

  /** `extractDeltaContent` */
  method ExtractDeltaContent(json: string) returns (r: Result<string>)
    ensures r == DeltaContent(json)
  {
    var x := ScanContent(json);
    match x {
      case KeyAbsent => r := Returned("");
      case Overrun => r := Threw;
      case Raw(t) =>
        var u := ReplaceAll(t, "\\n", "\n");
        u := ReplaceAll(u, "\\\"", "\"");
        u := ReplaceAll(u, "\\\\", "\\");
        r := Returned(u);
    }
  }

  /** `extractContent` */
  method ExtractContent(json: string) returns (r: Result<Option<string>>)
    ensures r == Content(json)
  {
    var x := ScanContent(json);
    match x {
      case KeyAbsent => r := Returned(None);
      case Overrun => r := Threw;
      case Raw(t) => r := Returned(Some(Unescape(t)));
    }
  }

  /** `extractContent` returns null exactly when the key does not occur, and
      `extractDeltaContent` then returns the empty string; the two throw on
      the same texts. */
  lemma AbsentIffNoKey(json: string)
    ensures Content(json) == Returned(None) <==> IndexOf(json, ContentKey) == -1
    ensures IndexOf(json, ContentKey) == -1 ==> DeltaContent(json) == Returned("")
    ensures DeltaContent(json) == Threw <==> Content(json) == Threw
  {
  }

  /** The raw value starts right after the first key and ends before the
      first quote that is not inside a backslash pair (or at the end). */
  lemma {:induction false} RawValue(json: string, t: string)
    ensures Locate(json) == Raw(t) <==>
      IndexOf(json, ContentKey) >= 0 &&
      var cs := IndexOf(json, ContentKey) + |ContentKey|;
      cs + |t| <= |json| && json[cs..cs + |t|] == t && IsEscapedBody(t) &&
      (cs + |t| == |json| || json[cs + |t|] == '\"')
  {
    var k := IndexOf(json, ContentKey);
    if k >= 0 {
      RawFrom(json, k + |ContentKey|, t);
    }
  }

  lemma {:induction false} RawFrom(json: string, cs: nat, t: string)
    requires cs <= |json|
    ensures (ScanFrom(json, cs) <= |json| && json[cs..ScanFrom(json, cs)] == t) <==>
      cs + |t| <= |json| && json[cs..cs + |t|] == t && IsEscapedBody(t) &&
      (cs + |t| == |json| || json[cs + |t|] == '\"')
  {
    var e := ScanFrom(json, cs);
    if cs + |t| <= |json| {
      ScanStopsAt(json, cs, cs + |t|);
    }
    if e <= |json| {
      ScanStopsAt(json, cs, e);
    }
  }

  /** `extractContent` throws exactly when the key is present and the text
      after it ends in a lone backslash that opens a pair. */
  lemma ThrowsIffTrailingBackslash(json: string)
    ensures Content(json) == Threw <==>
      IndexOf(json, ContentKey) >= 0 &&
      var cs := IndexOf(json, ContentKey) + |ContentKey|;
      cs < |json| && json[|json| - 1] == '\\' && IsEscapedBody(json[cs..|json| - 1])
  {
    var k := IndexOf(json, ContentKey);
    if k >= 0 {
      ScanOverrun(json, k + |ContentKey|);
    }
  }

  /** Unescaping never lengthens the text; the length stays the same
      exactly when no replacement fired, and a text without a backslash is
      returned unchanged. */
  lemma {:induction false} UnescapeShrinks(raw: string)
    ensures |Unescape(raw)| <= |raw|
    ensures var r1 := ReplaceAll(raw, "\\n", "\n");
      var r2 := ReplaceAll(r1, "\\\"", "\"");
      |Unescape(raw)| == |raw| <==>
        Count(raw, "\\n") == 0 && Count(r1, "\\\"") == 0 && Count(r2, "\\\\") == 0
    ensures |Unescape(raw)| == |raw| <==> Unescape(raw) == raw
    ensures '\\' !in raw ==> Unescape(raw) == raw
  {
    var r1 := ReplaceAll(raw, "\\n", "\n");
    var r2 := ReplaceAll(r1, "\\\"", "\"");
    ReplaceAllLength(raw, "\\n", "\n");
    ReplaceAllLength(r1, "\\\"", "\"");
    ReplaceAllLength(r2, "\\\\", "\\");
    if Count(raw, "\\n") == 0 && Count(r1, "\\\"") == 0 && Count(r2, "\\\\") == 0 {
      ReplaceAllNone(raw, "\\n", "\n");
      ReplaceAllNone(r1, "\\\"", "\"");
      ReplaceAllNone(r2, "\\\\", "\\");
    }
    if '\\' !in raw {
      ReplaceAllAbsentHead(raw, "\\n", "\n");
      ReplaceAllAbsentHead(r1, "\\\"", "\"");
      ReplaceAllAbsentHead(r2, "\\\\", "\\");
    }
  }

  /** Whatever the text, scanning `"content":` followed by `escapeJson(s)`
      stops exactly at the closing quote that `escapeJson` added. */
  lemma EscapedValueLocated(s: string, rest: string)
    ensures Locate("\"content\":" + EscapeJson(s) + rest) == Raw(EscapeChars(s))
  {
    var e := EscapeJson(s);
    var json := "\"content\":" + e + rest;
    var body := EscapeChars(s);
    assert json[..|ContentKey|] == ContentKey;
    assert IndexOf(json, ContentKey) == 0;
    var cs := |ContentKey|;
    assert json[cs..cs + |body|] == body;
    assert json[cs + |body|] == e[|e| - 1] == '\"';
    EscapeCharsIsBody(s);
    RawValue(json, body);
  }

  /** Quotes only escaped, as the first replacement leaves them */
  function QuoteEscaped(s: string): string
    decreases |s|
  {
    if s == [] then [] else (if s[0] == '\"' then "\\\"" else [s[0]]) + QuoteEscaped(s[1..])
  }

  lemma {:induction false} FirstStepDecodesNewlines(s: string)
    requires '\\' !in s && '\r' !in s && '\t' !in s
    ensures ReplaceAll(EscapeChars(s), "\\n", "\n") == QuoteEscaped(s)
    decreases |s|
  {
    if s != [] {
      var t := EscapeChars(s[1..]);
      FirstStepDecodesNewlines(s[1..]);
      var c := s[0];
      if c == '\n' {
        ReplaceAllHit(t, "\\n", "\n");
      } else if c == '\"' {
        NewlineStepSkipsQuote(t);
      } else {
        ReplaceAllSkip(c, t, "\\n", "\n");
      }
    }
  }

  /** An escaped quote is copied by the `\n` replacement. */
  lemma NewlineStepSkipsQuote(t: string)
    ensures ReplaceAll("\\\"" + t, "\\n", "\n") == "\\\"" + ReplaceAll(t, "\\n", "\n")
  {
    var u := "\\\"" + t;
    assert u[..2] != "\\n" by { assert u[1] == '\"'; }
    assert u[1..] == ['\"'] + t;
    ReplaceAllSkip('\"', t, "\\n", "\n");
    assert ReplaceAll(u, "\\n", "\n") == ['\\'] + (['\"'] + ReplaceAll(t, "\\n", "\n"));
  }

  lemma {:induction false} SecondStepDecodesQuotes(s: string)
    requires '\\' !in s
    ensures ReplaceAll(QuoteEscaped(s), "\\\"", "\"") == s
    decreases |s|
  {
    if s != [] {
      var t := QuoteEscaped(s[1..]);
      SecondStepDecodesQuotes(s[1..]);
      if s[0] == '\"' {
        ReplaceAllHit(t, "\\\"", "\"");
      } else {
        ReplaceAllSkip(s[0], t, "\\\"", "\"");
      }
      assert [s[0]] + s[1..] == s;
    }
  }

  /** Round trip: the streaming extractor returns `s` from `"content":`
      followed by `escapeJson(s)`, provided `s` has no backslash, carriage
      return or tab (those are escaped but never unescaped). */
  lemma EscapeThenExtract(s: string)
    requires '\\' !in s && '\r' !in s && '\t' !in s
    ensures DeltaContent("\"content\":" + EscapeJson(s)) == Returned(s)
    ensures Content("\"content\":" + EscapeJson(s)) == Returned(Some(s))
  {
    EscapedValueLocated(s, []);
    assert "\"content\":" + EscapeJson(s) + [] == "\"content\":" + EscapeJson(s);
    FirstStepDecodesNewlines(s);
    SecondStepDecodesQuotes(s);
    ReplaceAllAbsentHead(s, "\\\\", "\\");
  }

  /** The three replacements undo `escapeJson` on text without a backslash,
      carriage return or tab. */
  lemma UnescapeEscapeChars(s: string)
    requires '\\' !in s && '\r' !in s && '\t' !in s
    ensures Unescape(EscapeChars(s)) == s
  {
    EscapeThenExtract(s);
    EscapedValueLocated(s, []);
    assert "\"content\":" + EscapeJson(s) + [] == "\"content\":" + EscapeJson(s);
  }

  /** The round trip fails for a backslash followed by `n`: the first
      replacement takes the escaped backslash's second half together with
      the `n`, giving a backslash and a line feed. */
  lemma BackslashNBreaksRoundTrip()
    ensures DeltaContent("\"content\":" + EscapeJson("\\n")) == Returned("\\\n")
  {
    var s := "\\n";
    assert EscapeChars(s[1..][1..]) == [];
    assert EscapeChars(s[1..]) == "n";
    var raw := EscapeChars(s);
    assert raw == "\\\\n";
    EscapedValueLocated(s, []);
    assert "\"content\":" + EscapeJson(s) + [] == "\"content\":" + EscapeJson(s);
    UnescapeBackslashN();
  }

  lemma UnescapeBackslashN()
    ensures Unescape("\\\\n") == "\\\n"
  {
    var raw := "\\\\n";
    var r1 := ReplaceAll(raw, "\\n", "\n");
    assert raw[..2] != "\\n" by { assert raw[1] != 'n'; }
    assert raw[1..] == "\\n" + [];
    ReplaceAllHit([], "\\n", "\n");
    assert r1 == "\\\n";
    var r2 := ReplaceAll(r1, "\\\"", "\"");
    assert r1[..2] != "\\\"" by { assert r1[1] != '\"'; }
    assert r1[1..] == "\n";
    assert ReplaceAll("\n", "\\\"", "\"") == "\n";
    assert r2 == "\\\n";
    assert r2[..2] != "\\\\" by { assert r2[1] != '\\'; }
    assert r2[1..] == "\n";
    assert ReplaceAll("\n", "\\\\", "\\") == "\n";
  }
}
