/** `readApiKey` and the `DEEPSEEK_API_KEY` build-config field of the app's
    build script: the key is the trimmed value of the first
    `deepseek.api.key=` line of `local.properties`, or the empty text, and
    it is written into generated Java source as a string literal whose
    backslashes and double quotes are escaped. */
module ApiKey {
  import opened Text
  import opened JsonEscape

  /** The property the build script looks for */
  const KeyPrefix: string := "deepseek.api.key="

  /** `readLines().firstOrNull { it.startsWith(KeyPrefix) }` */
  function FirstWithPrefix(lines: seq<string>): (r: Option<string>)
    ensures r.Some? ==> r.value in lines && StartsWith(r.value, KeyPrefix)
    decreases |lines|
  {
    if lines == [] then None
    else if StartsWith(lines[0], KeyPrefix) then Some(lines[0])
    else FirstWithPrefix(lines[1..])
  }

  /** `s.substringAfter(delim, "")`: the text after the first occurrence,
      or the empty text when there is none */
  function SubstringAfter(s: string, delim: string): string {
    var k := IndexOf(s, delim);
    if k == -1 then [] else s[k + |delim|..]
  }

  /** `fromFile(file)`: null when the file is missing (`None`), when no line
      carries the property, or when its value is blank */
  function FromFile(file: Option<seq<string>>): (r: Option<string>)
    ensures r.Some? ==> r.value != [] && !IsWhitespace(r.value[0]) && !IsWhitespace(r.value[|r.value| - 1])
  {
    match file
    case None => None
    case Some(lines) =>
      match FirstWithPrefix(lines)
      case None => None
      case Some(line) =>
        var v := Trim(SubstringAfter(line, KeyPrefix));
        if v == [] then None else Some(v)
  }

  /** `readApiKey()`: the key, or the empty text */
  function ReadApiKey(file: Option<seq<string>>): (k: string)
    ensures k != [] ==> !IsWhitespace(k[0]) && !IsWhitespace(k[|k| - 1])
  {
    match FromFile(file)
    case Some(k) => k
    case None => []
  }

  /** The line that decides is the first one carrying the property. */
  lemma {:induction false} FirstWithPrefixIndex(lines: seq<string>, i: int)
    requires 0 <= i < |lines| && StartsWith(lines[i], KeyPrefix)
    requires forall j :: 0 <= j < i ==> !StartsWith(lines[j], KeyPrefix)
    ensures FirstWithPrefix(lines) == Some(lines[i])
    decreases i
  {
    if i > 0 {
      forall j | 0 <= j < i - 1 ensures !StartsWith(lines[1..][j], KeyPrefix) {
        assert lines[1..][j] == lines[j + 1];
      }
      FirstWithPrefixIndex(lines[1..], i - 1);
    }
  }

  /** No line is found exactly when no line carries the property. */
  lemma {:induction false} FirstWithPrefixNone(lines: seq<string>)
    ensures FirstWithPrefix(lines) == None <==>
      forall i :: 0 <= i < |lines| ==> !StartsWith(lines[i], KeyPrefix)
    decreases |lines|
  {
    if lines != [] {
      FirstWithPrefixNone(lines[1..]);
      if !StartsWith(lines[0], KeyPrefix) {
        forall i | 0 <= i < |lines| && FirstWithPrefix(lines) == None
          ensures !StartsWith(lines[i], KeyPrefix)
        {
          if i > 0 {
            assert lines[i] == lines[1..][i - 1];
          }
        }
        forall i | 0 <= i < |lines[1..]| && (forall j :: 0 <= j < |lines| ==> !StartsWith(lines[j], KeyPrefix))
          ensures !StartsWith(lines[1..][i], KeyPrefix)
        {
          assert lines[1..][i] == lines[i + 1];
        }
      }
    }
  }

  /** Lines after the first one carrying the property are never looked at. */
  lemma {:induction false} FirstWithPrefixAppend(lines: seq<string>, more: seq<string>)
    requires FirstWithPrefix(lines).Some?
    ensures FirstWithPrefix(lines + more) == FirstWithPrefix(lines)
    decreases |lines|
  {
    var all := lines + more;
    assert all[0] == lines[0];
    if !StartsWith(lines[0], KeyPrefix) {
      assert all[1..] == lines[1..] + more;
      FirstWithPrefixAppend(lines[1..], more);
    }
  }

  /** The key is the trimmed text after the prefix on the first line that
      carries it; a blank value gives the empty key as well. */
  lemma ReadApiKeyFirstLine(lines: seq<string>, i: int)
    requires 0 <= i < |lines| && StartsWith(lines[i], KeyPrefix)
    requires forall j :: 0 <= j < i ==> !StartsWith(lines[j], KeyPrefix)
    ensures ReadApiKey(Some(lines)) == Trim(lines[i][|KeyPrefix|..])
    ensures ReadApiKey(Some(lines)) == [] <==>
      forall j :: |KeyPrefix| <= j < |lines[i]| ==> IsWhitespace(lines[i][j])
  {
    var v := lines[i][|KeyPrefix|..];
    TrimEmptyIff(v);
    forall j | |KeyPrefix| <= j < |lines[i]| ensures lines[i][j] == v[j - |KeyPrefix|] {
    }
    FirstWithPrefixIndex(lines, i);
    SubstringAfterPrefix(lines[i], KeyPrefix);
  }

  lemma SubstringAfterPrefix(s: string, p: string)
    requires StartsWith(s, p)
    ensures SubstringAfter(s, p) == s[|p|..]
  {
    assert IndexOf(s, p) == 0;
  }

  /** A missing file, or a file without the property, yields the empty key. */
  lemma ReadApiKeyFallback(file: Option<seq<string>>)
    ensures file.None? ==> ReadApiKey(file) == []
    ensures file.Some? && (forall i :: 0 <= i < |file.value| ==> !StartsWith(file.value[i], KeyPrefix)) ==>
      ReadApiKey(file) == []
  {
    if file.Some? {
      FirstWithPrefixNone(file.value);
    }
  }

  /** Appending lines to a file that already carries the property does not
      change the key. */
  lemma ReadApiKeyLaterLinesIgnored(lines: seq<string>, i: int, more: seq<string>)
    requires 0 <= i < |lines| && StartsWith(lines[i], KeyPrefix)
    ensures ReadApiKey(Some(lines + more)) == ReadApiKey(Some(lines))
  {
    FirstWithPrefixNone(lines);
    FirstWithPrefixAppend(lines, more);
  }

  /** `.replace("\\", "\\\\").replace("\"", "\\\"")` */
  function EscapeKey(k: string): string {
    ReplaceAll(ReplaceAll(k, "\\", "\\\\"), "\"", "\\\"")
  }

  /** Reference definition: what one character of the key becomes */
  function EscapeKeyChar(c: char): string {
    if c == '\\' then "\\\\" else if c == '\"' then "\\\"" else [c]
  }

  /** Reference definition: every character escaped on its own */
  function EscapeKeyChars(k: string): string
    decreases |k|
  {
    if k == [] then [] else EscapeKeyChar(k[0]) + EscapeKeyChars(k[1..])
  }

  /** The value of `buildConfigField("String", "DEEPSEEK_API_KEY", ...)`: a
      Java string literal whose body decodes back to the key. */
  function BuildConfigLiteral(file: Option<seq<string>>): (r: string)
    ensures |r| >= 2 && r[0] == '\"' && r[|r| - 1] == '\"'
    ensures IsEscapedBody(r[1..|r| - 1])
    ensures DecodeEscapes(r[1..|r| - 1]) == Some(ReadApiKey(file))
  {
    var k := ReadApiKey(file);
    EscapeKeyDecodes(k);
    var r := "\"" + EscapeKey(k) + "\"";
    assert r[1..|r| - 1] == EscapeKey(k);
    r
  }

  /** Because the backslash is replaced first, the backslash the second
      replacement introduces is not doubled: the chain escapes each
      character on its own. */
  lemma {:induction false} EscapeKeyPerChar(k: string)
    ensures EscapeKey(k) == EscapeKeyChars(k)
    decreases |k|
  {
    if k != [] {
      var a, b := [k[0]], k[1..];
      assert k == a + b;
      ReplaceCharConcat(a, b, '\\', "\\\\");
      ReplaceCharConcat(ReplaceAll(a, "\\", "\\\\"), ReplaceAll(b, "\\", "\\\\"), '\"', "\\\"");
      EscapeKeyCharAlone(k[0]);
      EscapeKeyPerChar(b);
    }
  }

  lemma EscapeKeyCharAlone(c: char)
    ensures EscapeKey([c]) == EscapeKeyChar(c)
  {
    if c == '\\' {
      ReplaceAllHit([], "\\", "\\\\");
      ReplaceCharAbsent("\\\\", '\"', "\\\"");
    } else if c == '\"' {
      ReplaceCharAbsent([c], '\\', "\\\\");
      ReplaceAllHit([], "\"", "\\\"");
    } else {
      ReplaceCharAbsent([c], '\\', "\\\\");
      ReplaceCharAbsent([c], '\"', "\\\"");
    }
  }

  /** The escaped key is one character longer per backslash and per quote. */
  lemma {:induction false} EscapeKeyLength(k: string)
    ensures |EscapeKey(k)| == |k| + multiset(k)['\\'] + multiset(k)['\"']
  {
    EscapeKeyPerChar(k);
    EscapeKeyCharsLength(k);
  }

  lemma {:induction false} EscapeKeyCharsLength(k: string)
    ensures |EscapeKeyChars(k)| == |k| + multiset(k)['\\'] + multiset(k)['\"']
    decreases |k|
  {
    if k != [] {
      EscapeKeyCharsLength(k[1..]);
      assert k == [k[0]] + k[1..];
      assert multiset(k) == multiset([k[0]]) + multiset(k[1..]);
    }
  }

  /** The escaped key is a valid literal body that decodes to the key: no
      raw quote ends it early and no backslash of the key is lost. */
  lemma {:induction false} EscapeKeyDecodes(k: string)
    ensures IsEscapedBody(EscapeKey(k))
    ensures DecodeEscapes(EscapeKey(k)) == Some(k)
  {
    EscapeKeyPerChar(k);
    EscapeKeyCharsDecode(k);
  }

  lemma {:induction false} EscapeKeyCharsDecode(k: string)
    ensures IsEscapedBody(EscapeKeyChars(k))
    ensures DecodeEscapes(EscapeKeyChars(k)) == Some(k)
    decreases |k|
  {
    if k != [] {
      EscapeKeyCharsDecode(k[1..]);
      var e, t := EscapeKeyChar(k[0]), EscapeKeyChars(k[1..]);
      if k[0] == '\\' || k[0] == '\"' {
        assert |e| == 2 && e[0] == '\\' && UnescapePair(e[1]) == Some(k[0]);
        assert (e + t)[2..] == t;
      } else {
        assert e == [k[0]];
        assert (e + t)[1..] == t;
      }
      assert [k[0]] + k[1..] == k;
    }
  }
}
