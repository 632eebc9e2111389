/** The JSON request bodies the console programs build by string templates:
    `buildBody`, `buildBodyWithTemperature`, the body of `createCompletion`
    with its optional `max_tokens` and `stop` fields, and the body of
    `sendRequest`. Each template is a `trimIndent()` raw string; the text
    below is what it yields when every substituted value is a single line. */
module Request {
  import opened Text
  import opened JsonEscape
  import opened ContentScan

  /** A `Pair<String, String>` of role and content */
  datatype Message = Message(role: string, content: string)

  /** One element of the messages array: the role verbatim, the content
      through `escapeJson` */
  function MessageJson(m: Message): string {
    "{\"role\":\"" + m.role + "\",\"content\":" + EscapeJson(m.content) + "}"
  }

  /** `messages.joinToString(",") { ... }` */
  function MessagesJson(ms: seq<Message>): string {
    Join(",", MessageObjects(ms))
  }

  function MessageObjects(ms: seq<Message>): (objs: seq<string>)
    ensures |objs| == |ms|
    ensures forall i :: 0 <= i < |ms| ==> objs[i] == MessageJson(ms[i])
  {
    seq(|ms|, i requires 0 <= i < |ms| => MessageJson(ms[i]))
  }

  /** The messages array holds one object per message, in order, separated
      by commas. */
  lemma MessagesJsonAppend(ms: seq<Message>, m: Message)
    requires ms != []
    ensures MessagesJson(ms + [m]) == MessagesJson(ms) + "," + MessageJson(m)
  {
    assert MessageObjects(ms + [m]) == MessageObjects(ms) + [MessageJson(m)];
    JoinAppend(",", MessageObjects(ms), MessageJson(m));
  }

  lemma MessagesJsonSingle(m: Message)
    ensures MessagesJson([m]) == MessageJson(m)
  {
    assert MessageObjects([m]) == [MessageJson(m)];
  }

  /** A JSON object written one member per line, indented by four spaces:
      the layout every body template has after `trimIndent()` */
  function ObjectLines(members: seq<string>): string {
    "{\n" + Join(",\n", Indented(members)) + "\n}"
  }

  function Indented(members: seq<string>): (r: seq<string>)
    ensures |r| == |members|
    ensures forall i :: 0 <= i < |members| ==> r[i] == "    " + members[i]
  {
    seq(|members|, i requires 0 <= i < |members| => "    " + members[i])
  }

  const ModelMember: string := "\"model\": \"deepseek-chat\""

  function MessagesMember(ms: seq<Message>): string {
    "\"messages\": [" + MessagesJson(ms) + "]"
  }

  /** `buildBody(messages, stream)` in LogicTaskCompareMain.kt */
  function BuildBody(ms: seq<Message>, stream: bool): string {
    ObjectLines([ModelMember, MessagesMember(ms), "\"stream\":" + (if stream then "true" else "false")])
  }

  /** `buildBodyWithTemperature`; the Float is given as its rendered text */
  function BuildBodyWithTemperature(ms: seq<Message>, temperature: string): string {
    ObjectLines([ModelMember, MessagesMember(ms), "\"stream\": false", "\"temperature\": " + temperature])
  }

  /** The message list of `requestWithTemperature` */
  function ChooseMessages(system: Option<string>, userMessage: string): (ms: seq<Message>)
    ensures |ms| == if system.Some? then 2 else 1
    ensures ms[|ms| - 1] == Message("user", userMessage)
    ensures system.Some? ==> ms[0] == Message("system", system.value)
  {
    match system
    case Some(s) => [Message("system", s), Message("user", userMessage)]
    case None => [Message("user", userMessage)]
  }

  /** The body `sendRequest` posts in Main.kt: the messages array is written
      over three lines, its one object indented by eight spaces */
  function SendRequestBody(prompt: string): string {
    ObjectLines([ModelMember,
      "\"messages\": [\n        {\"role\": \"user\", \"content\": " + EscapeJson(prompt) + "}\n    ]",
      "\"stream\": false"])
  }

  /** Kotlin `Int.toString()` */
  function DecimalString(n: int): string {
    if n < 0 then "-" + Digits(-n) else Digits(n)
  }

  function Digits(n: nat): (s: string)
    ensures s != [] && forall i :: 0 <= i < |s| ==> '0' <= s[i] <= '9'
    decreases n
  {
    if n < 10 then [('0' as int + n) as char]
    else Digits(n / 10) + [('0' as int + n % 10) as char]
  }

  /** Reference reading of a decimal numeral */
  function DigitsValue(s: string): int
    decreases |s|
  {
    if s == [] then 0 else DigitsValue(s[..|s| - 1]) * 10 + (s[|s| - 1] as int - '0' as int)
  }

  /** The rendered number reads back as the number. */
  lemma {:induction false} DigitsRoundTrip(n: nat)
    ensures DigitsValue(Digits(n)) == n
    decreases n
  {
    if n >= 10 {
      DigitsRoundTrip(n / 10);
      var s := Digits(n);
      assert s[..|s| - 1] == Digits(n / 10);
    }
  }

  /** `opt1` of `createCompletion` */
  function MaxTokensField(maxTokens: Option<int>): string {
    match maxTokens
    case Some(n) => "\"max_tokens\":" + DecimalString(n)
    case None => ""
  }

  /** `opt2` of `createCompletion`: each stop string through `escapeJson`,
      joined by commas */
  function StopField(stop: Option<seq<string>>): string {
    match stop
    case Some(l) => "\"stop\":[" + Join(",", EscapedAll(l)) + "]"
    case None => ""
  }

  function EscapedAll(l: seq<string>): (r: seq<string>)
    ensures |r| == |l|
    ensures forall i :: 0 <= i < |l| ==> r[i] == EscapeJson(l[i])
  {
    seq(|l|, i requires 0 <= i < |l| => EscapeJson(l[i]))
  }

  /** `listOf(opt1, opt2).filter { it.isNotEmpty() }` */
  function NonEmptyFields(fields: seq<string>): seq<string>
    decreases |fields|
  {
    if fields == [] then []
    else (if fields[0] == [] then [] else [fields[0]]) + NonEmptyFields(fields[1..])
  }

  /** `optionalLine`: the present optional fields, each after ", " */
  function OptionalLine(maxTokens: Option<int>, stop: Option<seq<string>>): string {
    var optional := Join(", ", NonEmptyFields([MaxTokensField(maxTokens), StopField(stop)]));
    if optional != [] then ", " + optional else ""
  }

  /** The body `createCompletion` posts: the optional fields follow the
      stream flag on its line */
  function CompletionBody(ms: seq<Message>, maxTokens: Option<int>, stop: Option<seq<string>>): string {
    ObjectLines([ModelMember, MessagesMember(ms), "\"stream\": true" + OptionalLine(maxTokens, stop)])
  }

  /** `"max_tokens":N` is present exactly when a limit is given, `"stop":[...]`
      exactly when a stop list is given (an empty list included), max_tokens
      first, joined by ", "; nothing is appended when both are absent. */
  lemma OptionalFields(maxTokens: Option<int>, stop: Option<seq<string>>)
    ensures maxTokens.None? && stop.None? ==> OptionalLine(maxTokens, stop) == ""
    ensures maxTokens.Some? && stop.None? ==>
      OptionalLine(maxTokens, stop) == ", " + MaxTokensField(maxTokens)
    ensures maxTokens.None? && stop.Some? ==>
      OptionalLine(maxTokens, stop) == ", " + StopField(stop)
    ensures maxTokens.Some? && stop.Some? ==>
      OptionalLine(maxTokens, stop) == ", " + MaxTokensField(maxTokens) + ", " + StopField(stop)
  {
    var f1, f2 := MaxTokensField(maxTokens), StopField(stop);
    assert maxTokens.Some? <==> f1 != [] by {
      if maxTokens.Some? { assert f1[0] == '"'; }
    }
    assert stop.Some? <==> f2 != [] by {
      if stop.Some? { assert f2[0] == '"'; }
    }
    NonEmptyPair(f1, f2);
    if f1 != [] && f2 != [] {
      assert [f1] + [f2] == [f1, f2];
      assert [f1, f2][1..] == [f2];
      assert Join(", ", [f1, f2]) == f1 + ", " + f2;
    }
  }

  lemma NonEmptyPair(f1: string, f2: string)
    ensures NonEmptyFields([f1, f2]) ==
      (if f1 == [] then [] else [f1]) + (if f2 == [] then [] else [f2])
  {
    var h1: seq<string> := if f1 == [] then [] else [f1];
    var h2: seq<string> := if f2 == [] then [] else [f2];
    assert [f1, f2][1..] == [f2];
    assert [f2][1..] == [];
    assert NonEmptyFields([f2]) == h2 + NonEmptyFields([]);
    assert NonEmptyFields([f1, f2]) == h1 + NonEmptyFields([f2]);
    assert h2 + [] == h2;
  }

  /** An empty stop list still yields the field, with an empty array. */
  lemma EmptyStopList()
    ensures OptionalLine(None, Some([])) == ", \"stop\":[]"
  {
    OptionalFields(None, Some([]));
    assert EscapedAll([]) == [];
  }

  lemma ObjectThree(x: string, y: string, z: string)
    ensures ObjectLines([x, y, z]) == "{\n    " + x + ",\n    " + y + ",\n    " + z + "\n}"
  {
    var ind := Indented([x, y, z]);
    assert ind == ["    " + x, "    " + y, "    " + z];
    JoinThree(",\n", "    " + x, "    " + y, "    " + z);
  }

  lemma ObjectFour(w: string, x: string, y: string, z: string)
    ensures ObjectLines([w, x, y, z]) == "{\n    " + w + ",\n    " + x + ",\n    " + y + ",\n    " + z + "\n}"
  {
    var ind := Indented([w, x, y, z]);
    assert ind == ["    " + w, "    " + x, "    " + y, "    " + z];
    assert ind[1..] == ["    " + x, "    " + y, "    " + z];
    JoinThree(",\n", "    " + x, "    " + y, "    " + z);
  }

  lemma JoinThree(sep: string, a: string, b: string, c: string)
    ensures Join(sep, [a, b, c]) == a + sep + b + sep + c
  {
    assert [a, b, c][1..] == [b, c];
    assert [b, c][1..] == [c];
    assert Join(sep, [c]) == c;
    assert Join(sep, [b, c]) == b + sep + c;
    assert Join(sep, [a, b, c]) == a + sep + (b + sep + c);
  }

  /** Text `pre` followed by `"content":` and an escaped string: if the key
      does not start inside `pre`, the extractors find exactly the escaped
      string's body. */
  lemma LocateAfter(pre: string, v: string, rest: string)
    requires forall j :: 0 <= j < |pre| ==>
      !OccursAt(pre + "\"content\":" + EscapeJson(v) + rest, ContentKey, j)
    ensures Locate(pre + "\"content\":" + EscapeJson(v) + rest) == Raw(EscapeChars(v))
  {
    var e := EscapeJson(v);
    var json := pre + "\"content\":" + e + rest;
    var body := EscapeChars(v);
    var cs := |pre| + |ContentKey|;
    assert json[|pre|..cs] == ContentKey;
    assert OccursAt(json, ContentKey, |pre|);
    IndexOfAt(json, ContentKey, |pre|);
    assert json[cs..cs + |body|] == body;
    assert json[cs + |body|] == e[|e| - 1] == '\"';
    EscapeCharsIsBody(v);
    RawValue(json, body);
  }

  /** In a message object the key cannot start before the content member,
      provided the role has no quote. */
  lemma NoKeyInRole(s: string, r: string)
    requires |s| >= 22 + |r| && '\"' !in r
    requires s[..9] == "{\"role\":\""
    requires s[9..9 + |r|] == r
    requires s[9 + |r|] == '\"' && s[10 + |r|] == ','
    ensures forall j :: 0 <= j < 11 + |r| ==> !OccursAt(s, ContentKey, j)
  {
    forall j | 0 <= j < 11 + |r| ensures !OccursAt(s, ContentKey, j) {
      var i: int;
      if j < 9 {
        assert s[j] == s[..9][j];
        if j == 1 || j == 6 {
          i := 1;
          assert s[j + 1] == s[..9][j + 1];
        } else if j != 8 {
          i := 0;
        } else if |r| >= 8 {
          i := 8;
          assert s[16] == s[9..9 + |r|][7];
        } else if |r| == 7 {
          i := 9;
        } else {
          i := 1 + |r|;
        }
      } else if j < 9 + |r| {
        i := 0;
        assert s[j] == s[9..9 + |r|][j - 9];
      } else if j == 9 + |r| {
        i := 1;
      } else {
        i := 0;
      }
      assert 0 <= i < 11 && s[j + i] != ContentKey[i];
      assert s[j..j + 11][i] == s[j + i];
    }
  }

  /** The messages array starts with the first message's object. */
  lemma MessagesHead(ms: seq<Message>)
    requires ms != []
    ensures exists rest :: MessagesJson(ms) == MessageJson(ms[0]) + rest
  {
    var objs := MessageObjects(ms);
    if |ms| == 1 {
      assert MessagesJson(ms) == MessageJson(ms[0]) + [];
    } else {
      assert MessagesJson(ms) == MessageJson(ms[0]) + ("," + Join(",", objs[1..]));
    }
  }

  /** Escape then extract, inside the request itself: the extractor reads
      the content back out of a message object, for a role without quotes
      and a content without backslash, carriage return or tab, whatever
      follows the object. */
  lemma ExtractFromMessage(m: Message, rest: string)
    requires '\"' !in m.role
    requires '\\' !in m.content && '\r' !in m.content && '\t' !in m.content
    ensures Content(MessageJson(m) + rest) == Returned(Some(m.content))
    ensures DeltaContent(MessageJson(m) + rest) == Returned(m.content)
  {
    var r := m.role;
    var e := EscapeJson(m.content);
    var json := MessageJson(m) + rest;
    var pre := "{\"role\":\"" + r + "\",";
    var tail := "}" + rest;
    assert json == pre + "\"content\":" + e + tail;
    assert |json| >= 22 + |r| && json[..9] == "{\"role\":\"" && json[9..9 + |r|] == r;
    assert json[9 + |r|] == '\"' && json[10 + |r|] == ',';
    NoKeyInRole(json, r);
    LocateAfter(pre, m.content, tail);
    EscapeThenExtract(m.content);
    EscapedValueLocated(m.content, []);
    assert "\"content\":" + e + [] == "\"content\":" + e;
  }

  /** The extractor applied to a messages array reads the first message. */
  lemma ExtractFirstMessage(ms: seq<Message>)
    requires ms != [] && '\"' !in ms[0].role
    requires '\\' !in ms[0].content && '\r' !in ms[0].content && '\t' !in ms[0].content
    ensures Content(MessagesJson(ms)) == Returned(Some(ms[0].content))
    ensures DeltaContent(MessagesJson(ms)) == Returned(ms[0].content)
  {
    MessagesHead(ms);
    var rest :| MessagesJson(ms) == MessageJson(ms[0]) + rest;
    ExtractFromMessage(ms[0], rest);
  }

  /** Each element of the `"stop"` array is a quoted JSON string whose body
      decodes back to the stop text at the same position. */
  lemma StopElementsDecode(l: seq<string>)
    ensures forall i :: 0 <= i < |l| ==>
      |EscapedAll(l)[i]| >= 2 && EscapedAll(l)[i][0] == '\"' &&
      EscapedAll(l)[i][|EscapedAll(l)[i]| - 1] == '\"' &&
      DecodeEscapes(EscapedAll(l)[i][1..|EscapedAll(l)[i]| - 1]) == Some(l[i])
  {
    forall i | 0 <= i < |l|
      ensures DecodeEscapes(EscapedAll(l)[i][1..|EscapedAll(l)[i]| - 1]) == Some(l[i])
    {
      EscapeJsonDecodes(l[i]);
    }
  }

  /** The messages array `requestWithTemperature` posts: the system object,
      a comma and the user object when a system text is given, and the user
      object alone otherwise. */
  lemma ChosenMessagesArray(system: Option<string>, userMessage: string)
    ensures system.None? ==>
      MessagesJson(ChooseMessages(system, userMessage)) == MessageJson(Message("user", userMessage))
    ensures system.Some? ==>
      MessagesJson(ChooseMessages(system, userMessage)) ==
        MessageJson(Message("system", system.value)) + "," + MessageJson(Message("user", userMessage))
  {
    var u := Message("user", userMessage);
    MessagesJsonSingle(u);
    if system.Some? {
      var sm := Message("system", system.value);
      MessagesJsonSingle(sm);
      MessagesJsonAppend([sm], u);
      assert [sm] + [u] == ChooseMessages(system, userMessage);
    }
  }

  /** The extractors, applied to that array, read the system text when one
      is given and the user message otherwise. */
  lemma ChosenMessagesFirstContent(system: Option<string>, userMessage: string)
    requires system.Some? ==> '\\' !in system.value && '\r' !in system.value && '\t' !in system.value
    requires '\\' !in userMessage && '\r' !in userMessage && '\t' !in userMessage
    ensures Content(MessagesJson(ChooseMessages(system, userMessage))) ==
      Returned(Some(if system.Some? then system.value else userMessage))
  {
    ExtractFirstMessage(ChooseMessages(system, userMessage));
  }
}
