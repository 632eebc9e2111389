/** `escapeJson`, copied into every console program: the text is put in
    double quotes after five sequential `replace` calls (backslash, quote,
    line feed, carriage return, tab). It covers five of the escapes of
    section 7 of RFC 8259; other control characters pass through raw. */
module JsonEscape {
  import opened Text

  /** The characters `escapeJson` rewrites */
  predicate IsSpecial(c: char) {
    c == '\\' || c == '\"' || c == '\n' || c == '\r' || c == '\t'
  }

  /** The replace chain between the quotes, in the order the source applies it */
  function EscapeBody(s: string): string {
    var s1 := ReplaceAll(s, "\\", "\\\\");
    var s2 := ReplaceAll(s1, "\"", "\\\"");
    var s3 := ReplaceAll(s2, "\n", "\\n");
    var s4 := ReplaceAll(s3, "\r", "\\r");
    ReplaceAll(s4, "\t", "\\t")
  }

  /** Reference definition: what one character becomes */
  function EscapeChar(c: char): string {
    match c
    case '\\' => "\\\\"
    case '\"' => "\\\""
    case '\n' => "\\n"
    case '\r' => "\\r"
    case '\t' => "\\t"
    case _ => [c]
  }

  /** Reference definition: every character escaped on its own */
  function EscapeChars(s: string): string
    decreases |s|
  {
    if s == [] then [] else EscapeChar(s[0]) + EscapeChars(s[1..])
  }

  /** Number of characters of `s` that `escapeJson` rewrites */
  function CountSpecial(s: string): nat
    decreases |s|
  {
    if s == [] then 0 else (if IsSpecial(s[0]) then 1 else 0) + CountSpecial(s[1..])
  }

  /** The body of a JSON string as the content scanner reads it: a backslash
      opens a two-character pair and a quote may only appear inside a pair. */
  predicate IsEscapedBody(t: string)
    decreases |t|
  {
    if t == [] then true
    else if t[0] == '\\' then |t| >= 2 && IsEscapedBody(t[2..])
    else t[0] != '\"' && IsEscapedBody(t[1..])
  }

  /** `escapeJson(s)` */
  function EscapeJson(s: string): (r: string)
    ensures |r| == |s| + 2 + CountSpecial(s)
    ensures r[0] == '\"' && r[|r| - 1] == '\"'
    ensures r[1..|r| - 1] == EscapeChars(s)
    ensures forall i :: 0 <= i < |r| ==> r[i] != '\n' && r[i] != '\r' && r[i] != '\t'
  {
    EscapeBodyPerChar(s);
    EscapeCharsLength(s);
    EscapeCharsNoRawControl(s);
    "\"" + EscapeBody(s) + "\""
  }

  /** Because the backslash is replaced first, no escape introduced by a
      later replacement is escaped again: the chain escapes each character
      on its own. */
  lemma {:induction false} EscapeBodyPerChar(s: string)
    ensures EscapeBody(s) == EscapeChars(s)
    decreases |s|
  {
    if s != [] {
      assert s == [s[0]] + s[1..];
      EscapeBodyConcat([s[0]], s[1..]);
      EscapeBodyChar(s[0]);
      EscapeBodyPerChar(s[1..]);
    }
  }

  lemma EscapeBodyConcat(a: string, b: string)
    ensures EscapeBody(a + b) == EscapeBody(a) + EscapeBody(b)
  {
    var a1, b1 := ReplaceAll(a, "\\", "\\\\"), ReplaceAll(b, "\\", "\\\\");
    ReplaceCharConcat(a, b, '\\', "\\\\");
    var a2, b2 := ReplaceAll(a1, "\"", "\\\""), ReplaceAll(b1, "\"", "\\\"");
    ReplaceCharConcat(a1, b1, '\"', "\\\"");
    var a3, b3 := ReplaceAll(a2, "\n", "\\n"), ReplaceAll(b2, "\n", "\\n");
    ReplaceCharConcat(a2, b2, '\n', "\\n");
    var a4, b4 := ReplaceAll(a3, "\r", "\\r"), ReplaceAll(b3, "\r", "\\r");
    ReplaceCharConcat(a3, b3, '\r', "\\r");
    ReplaceCharConcat(a4, b4, '\t', "\\t");
  }

  lemma EscapeBodyChar(c: char)
    ensures EscapeBody([c]) == EscapeChar(c)
  {
    if c == '\\' {
      EscapeBodyBackslash();
    } else if c == '\"' {
      EscapeBodyQuote();
    } else if c == '\n' {
      EscapeBodyLineFeed();
    } else if c == '\r' {
      EscapeBodyReturn();
    } else if c == '\t' {
      EscapeBodyTab();
    } else {
      EscapeBodyPlain(c);
    }
  }

  lemma EscapeBodyBackslash()
    ensures EscapeBody("\\") == "\\\\"
  {
    ReplaceAllHit([], "\\", "\\\\");
    ReplaceCharAbsent("\\\\", '\"', "\\\"");
    ReplaceCharAbsent("\\\\", '\n', "\\n");
    ReplaceCharAbsent("\\\\", '\r', "\\r");
    ReplaceCharAbsent("\\\\", '\t', "\\t");
  }

  lemma EscapeBodyQuote()
    ensures EscapeBody("\"") == "\\\""
  {
    ReplaceCharAbsent("\"", '\\', "\\\\");
    ReplaceAllHit([], "\"", "\\\"");
    ReplaceCharAbsent("\\\"", '\n', "\\n");
    ReplaceCharAbsent("\\\"", '\r', "\\r");
    ReplaceCharAbsent("\\\"", '\t', "\\t");
  }

  lemma EscapeBodyLineFeed()
    ensures EscapeBody("\n") == "\\n"
  {
    ReplaceCharAbsent("\n", '\\', "\\\\");
    ReplaceCharAbsent("\n", '\"', "\\\"");
    ReplaceAllHit([], "\n", "\\n");
    ReplaceCharAbsent("\\n", '\r', "\\r");
    ReplaceCharAbsent("\\n", '\t', "\\t");
  }

  lemma EscapeBodyReturn()
    ensures EscapeBody("\r") == "\\r"
  {
    ReplaceCharAbsent("\r", '\\', "\\\\");
    ReplaceCharAbsent("\r", '\"', "\\\"");
    ReplaceCharAbsent("\r", '\n', "\\n");
    ReplaceAllHit([], "\r", "\\r");
    ReplaceCharAbsent("\\r", '\t', "\\t");
  }

  lemma EscapeBodyTab()
    ensures EscapeBody("\t") == "\\t"
  {
    ReplaceCharAbsent("\t", '\\', "\\\\");
    ReplaceCharAbsent("\t", '\"', "\\\"");
    ReplaceCharAbsent("\t", '\n', "\\n");
    ReplaceCharAbsent("\t", '\r', "\\r");
    ReplaceAllHit([], "\t", "\\t");
  }

  lemma EscapeBodyPlain(c: char)
    requires !IsSpecial(c)
    ensures EscapeBody([c]) == [c]
  {
    ReplaceCharAbsent([c], '\\', "\\\\");
    ReplaceCharAbsent([c], '\"', "\\\"");
    ReplaceCharAbsent([c], '\n', "\\n");
    ReplaceCharAbsent([c], '\r', "\\r");
    ReplaceCharAbsent([c], '\t', "\\t");
  }

  lemma {:induction false} EscapeCharsLength(s: string)
    ensures |EscapeChars(s)| == |s| + CountSpecial(s)
    decreases |s|
  {
    if s != [] {
      EscapeCharsLength(s[1..]);
    }
  }

  lemma {:induction false} EscapeCharsNoRawControl(s: string)
    ensures forall i :: 0 <= i < |EscapeChars(s)| ==>
      EscapeChars(s)[i] != '\n' && EscapeChars(s)[i] != '\r' && EscapeChars(s)[i] != '\t'
    decreases |s|
  {
    if s != [] {
      EscapeCharsNoRawControl(s[1..]);
    }
  }

  /** Every quote of the escaped text sits inside a backslash pair, so a
      scanner that skips pairs reads the whole escaped text as one string body. */
  lemma {:induction false} EscapeCharsIsBody(s: string)
    ensures IsEscapedBody(EscapeChars(s))
    decreases |s|
  {
    if s != [] {
      EscapeCharsIsBody(s[1..]);
      var e, t := EscapeChar(s[0]), EscapeChars(s[1..]);
      if |e| == 2 {
        assert (e + t)[2..] == t;
      } else {
        assert (e + t)[1..] == t;
      }
    }
  }

  /** Reference decoder of the two-character escapes of section 7 of
      RFC 8259 (the short forms; `\uXXXX` is not needed here) */
  function UnescapePair(c: char): Option<char> {
    match c
    case '\\' => Some('\\')
    case '\"' => Some('\"')
    case '/' => Some('/')
    case 'b' => Some('\U{8}')
    case 'f' => Some('\U{C}')
    case 'n' => Some('\n')
    case 'r' => Some('\r')
    case 't' => Some('\t')
    case _ => None
  }

  /** Decodes a string body left to right, one escape pair at a time */
  function DecodeEscapes(t: string): Option<string>
    decreases |t|
  {
    if t == [] then Some([])
    else if t[0] == '\\' then
      if |t| < 2 then None
      else match (UnescapePair(t[1]), DecodeEscapes(t[2..]))
        case (Some(c), Some(rest)) => Some([c] + rest)
        case _ => None
    else if t[0] == '\"' then None
    else match DecodeEscapes(t[1..])
      case Some(rest) => Some([t[0]] + rest)
      case None => None
  }

  /** `escapeJson` loses nothing: a decoder that reads escape pairs left to
      right recovers the original text from the text between the quotes. */
  lemma {:induction false} EscapeJsonDecodes(s: string)
    ensures DecodeEscapes(EscapeJson(s)[1..|EscapeJson(s)| - 1]) == Some(s)
  {
    EscapeCharsDecode(s);
  }

  lemma {:induction false} EscapeCharsDecode(s: string)
    ensures DecodeEscapes(EscapeChars(s)) == Some(s)
    decreases |s|
  {
    if s != [] {
      EscapeCharsDecode(s[1..]);
      DecodeEscapeChar(s[0], EscapeChars(s[1..]), s[1..]);
      assert [s[0]] + s[1..] == s;
    }
  }

  lemma DecodeEscapeChar(c: char, t: string, rest: string)
    requires DecodeEscapes(t) == Some(rest)
    ensures DecodeEscapes(EscapeChar(c) + t) == Some([c] + rest)
  {
    var e := EscapeChar(c);
    if IsSpecial(c) {
      assert |e| == 2 && e[0] == '\\' && UnescapePair(e[1]) == Some(c);
      assert (e + t)[2..] == t;
    } else {
      assert e == [c];
      assert (e + t)[1..] == t;
    }
  }
}
