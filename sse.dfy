/** The server-sent-event read loop of `streamCompletion` and
    `createCompletion`: a reduced form of the event-stream format of the
    WHATWG HTML Living Standard, section 9.2. Only lines that start with
    exactly `data: ` count, `[DONE]` ends the stream, and every other payload
    goes through `extractDeltaContent`; non-empty chunks are printed in order. */
module EventStream {
  import opened Text
  import opened ContentScan
  import opened JsonEscape
  import opened Request

  const DataPrefix: string := "data: "
  const DoneSentinel: string := "[DONE]"

  /** What one pass of the loop body does with a line */
  datatype LineAction =
    | Skip               // not a data line: `continue`
    | Stop               // the `[DONE]` sentinel: `break`
    | Emit(chunk: string) // a payload; printed when non-empty
    | Fail               // `extractDeltaContent` threw

  /** How the loop ended */
  datatype StreamEnd =
    | Done       // the sentinel was read
    | Exhausted  // `readLine` returned null
    | Aborted    // an exception left the loop; the caller's catch reports it

  /** The `print(chunk)` calls in order, and how the loop ended */
  datatype Decoded = Decoded(printed: seq<string>, end: StreamEnd)

  function Classify(line: string): LineAction {
    if !StartsWith(line, DataPrefix) then Skip
    else
      var data := Trim(line[|DataPrefix|..]);
      if data == DoneSentinel then Stop
      else match DeltaContent(data)
        case Threw => Fail
        case Returned(chunk) => Emit(chunk)
  }

  /** What the loop body does with each line, in order */
  function Actions(lines: seq<string>): (acts: seq<LineAction>)
    ensures |acts| == |lines|
    ensures forall i :: 0 <= i < |lines| ==> acts[i] == Classify(lines[i])
  {
    seq(|lines|, i requires 0 <= i < |lines| => Classify(lines[i]))
  }

  /** The loop's control flow over the actions of the lines */
  function Run(acts: seq<LineAction>): (d: Decoded)
    ensures forall i :: 0 <= i < |d.printed| ==> d.printed[i] != []
    decreases |acts|
  {
    if acts == [] then Decoded([], Exhausted)
    else match acts[0]
      case Skip => Run(acts[1..])
      case Stop => Decoded([], Done)
      case Fail => Decoded([], Aborted)
      case Emit(chunk) =>
        var rest := Run(acts[1..]);
        Decoded((if chunk == [] then [] else [chunk]) + rest.printed, rest.end)
  }

  /** The loop as a function of the lines the server sends */
  function Decode(lines: seq<string>): Decoded {
    Run(Actions(lines))
  }

  /** The body of the loop up to the `print`: the prefix test, the trim,
      the sentinel test and the extractor call */
  method ClassifyLine(s: string) returns (a: LineAction)
    ensures a == Classify(s)
  {
    if !StartsWith(s, DataPrefix) {
      return Skip;
    }
    var data := Trim(s[|DataPrefix|..]);
    if data == DoneSentinel {
      return Stop;
    }
    var chunk := ExtractDeltaContent(data);
    if chunk.Threw? {
      return Fail;
    }
    return Emit(chunk.value);
  }

  /** The `while (reader.readLine() ...)` loop */
  method ReadEvents(lines: seq<string>) returns (printed: seq<string>, end: StreamEnd)
    ensures Decoded(printed, end) == Decode(lines)
  {
    printed := [];
    end := Exhausted;
    var i := 0;
    while i < |lines|
      invariant 0 <= i <= |lines|
      invariant Decode(lines) == Decoded(printed + Decode(lines[i..]).printed, Decode(lines[i..]).end)
    {
      var a := ClassifyLine(lines[i]);
      assert lines[i..][1..] == lines[i + 1..];
      DecodeUnfold(lines[i..]);
      i := i + 1;
      match a {
        case Skip =>
          continue;
        case Stop =>
          end := Done;
          break;
        case Fail =>
          end := Aborted;
          break;
        case Emit(chunk) =>
          if chunk != [] {
            printed := printed + [chunk];
          }
      }
    }
  }

  /** The loop reads the lines in order: the lines before a point decide
      everything unless they ran to the end without stopping. */
  lemma {:induction false} RunAppend(a: seq<LineAction>, b: seq<LineAction>)
    ensures Run(a + b) ==
      if Run(a).end == Exhausted
      then Decoded(Run(a).printed + Run(b).printed, Run(b).end)
      else Run(a)
    decreases |a|
  {
    if a == [] {
      assert a + b == b;
    } else {
      assert (a + b)[0] == a[0];
      assert (a + b)[1..] == a[1..] + b;
      RunAppend(a[1..], b);
      match a[0] {
        case Skip =>
        case Stop =>
        case Fail =>
        case Emit(chunk) =>
          var head := if chunk == [] then [] else [chunk];
          if Run(a[1..]).end == Exhausted {
            assert head + (Run(a[1..]).printed + Run(b).printed) == (head + Run(a[1..]).printed) + Run(b).printed;
          }
      }
    }
  }

  lemma DecodeAppend(a: seq<string>, b: seq<string>)
    ensures Decode(a + b) ==
      if Decode(a).end == Exhausted
      then Decoded(Decode(a).printed + Decode(b).printed, Decode(b).end)
      else Decode(a)
  {
    assert Actions(a + b) == Actions(a) + Actions(b);
    RunAppend(Actions(a), Actions(b));
  }

  /** Unfolding the loop by one line */
  lemma DecodeUnfold(lines: seq<string>)
    requires lines != []
    ensures Decode(lines) ==
      match Classify(lines[0])
      case Skip => Decode(lines[1..])
      case Stop => Decoded([], Done)
      case Fail => Decoded([], Aborted)
      case Emit(chunk) =>
        Decoded((if chunk == [] then [] else [chunk]) + Decode(lines[1..]).printed, Decode(lines[1..]).end)
  {
    assert Actions(lines)[1..] == Actions(lines[1..]);
  }

  /** A line that does not start with exactly `data: ` contributes nothing
      and does not stop the loop, wherever it appears. */
  lemma SkippedLine(a: seq<string>, line: string, b: seq<string>)
    requires !StartsWith(line, DataPrefix)
    ensures Decode(a + [line] + b) == Decode(a + b)
  {
    DecodeAppend(a, [line] + b);
    DecodeAppend(a, b);
    assert a + [line] + b == a + ([line] + b);
    assert ([line] + b)[1..] == b;
    DecodeUnfold([line] + b);
  }

  /** The first `[DONE]` line ends the loop: the lines after it are never
      examined. */
  lemma DoneStops(a: seq<string>, line: string, b: seq<string>)
    requires Decode(a).end == Exhausted
    requires StartsWith(line, DataPrefix) && Trim(line[|DataPrefix|..]) == DoneSentinel
    ensures Decode(a + [line] + b) == Decoded(Decode(a).printed, Done)
  {
    DecodeAppend(a, [line] + b);
    assert a + [line] + b == a + ([line] + b);
    DecodeUnfold([line] + b);
  }

  /** The loop runs out of lines (a normal end) exactly when no line is the
      sentinel and no payload makes the extractor throw. */
  lemma ExhaustedIff(lines: seq<string>)
    ensures Decode(lines).end == Exhausted <==>
      forall i :: 0 <= i < |lines| ==> Classify(lines[i]).Skip? || Classify(lines[i]).Emit?
  {
    var acts := Actions(lines);
    RunExhaustedIff(acts);
    assert forall i :: 0 <= i < |lines| ==> acts[i] == Classify(lines[i]);
  }

  lemma {:induction false} RunExhaustedIff(acts: seq<LineAction>)
    ensures Run(acts).end == Exhausted <==> forall i :: 0 <= i < |acts| ==> acts[i].Skip? || acts[i].Emit?
    decreases |acts|
  {
    if acts != [] {
      RunExhaustedIff(acts[1..]);
      assert forall i :: 1 <= i < |acts| ==> acts[1..][i - 1] == acts[i];
    }
  }

  /** Everything printed, in order */
  function Concat(parts: seq<string>): string
    decreases |parts|
  {
    if parts == [] then [] else parts[0] + Concat(parts[1..])
  }

  /** What a chat-completion chunk holds before and after the content
      member, in the nesting `{"choices":[{"delta":{...}}]}` */
  const DeltaOpen: string := "{\"choices\":[{\"delta\":{"
  const DeltaClose: string := "}}]}"

  /** The data line a server sends for one text fragment: a chunk whose
      delta holds only the content member (the chunk's other members, such
      as its id and the choice index, are omitted) */
  function FragmentLine(s: string): string {
    DataPrefix + FragmentChunk(s)
  }

  /** The JSON chunk a fragment line carries */
  function FragmentChunk(s: string): string {
    DeltaOpen + "\"content\":" + EscapeJson(s) + DeltaClose
  }

  /** The content key does not start inside the opening of a chunk. */
  lemma NoKeyInDeltaOpen(s: string)
    requires |s| >= |DeltaOpen| + |ContentKey| && s[..|DeltaOpen|] == DeltaOpen
    ensures forall j :: 0 <= j < |DeltaOpen| ==> !OccursAt(s, ContentKey, j)
  {
    forall j | 0 <= j < |DeltaOpen| ensures !OccursAt(s, ContentKey, j) {
      var i: int;
      if j == 1 {
        i := 2;
      } else if j == 9 || j == 13 || j == 19 {
        i := 1;
      } else {
        i := 0;
      }
      assert s[j + i] == s[..|DeltaOpen|][j + i];
      assert 0 <= i < |ContentKey| && s[j + i] != ContentKey[i];
      assert s[j..j + |ContentKey|][i] == s[j + i];
    }
  }

  function FragmentLines(fragments: seq<string>): seq<string>
    decreases |fragments|
  {
    if fragments == [] then [] else [FragmentLine(fragments[0])] + FragmentLines(fragments[1..])
  }

  /** The non-empty fragments, in order */
  function NonEmpty(fragments: seq<string>): seq<string>
    decreases |fragments|
  {
    if fragments == [] then []
    else (if fragments[0] == [] then [] else [fragments[0]]) + NonEmpty(fragments[1..])
  }

  /** One fragment line is classified as emitting that fragment. */
  lemma FragmentLineEmits(s: string)
    requires '\\' !in s && '\r' !in s && '\t' !in s
    ensures Classify(FragmentLine(s)) == Emit(s)
  {
    var line := FragmentLine(s);
    var payload := FragmentChunk(s);
    assert line[..|DataPrefix|] == DataPrefix;
    assert line[|DataPrefix|..] == payload;
    TrimUnchanged(payload);
    assert payload != DoneSentinel by { assert payload[0] != DoneSentinel[0]; }
    FragmentChunkDecodes(s);
  }

  /** The streaming extractor reads the fragment back out of its chunk. */
  lemma FragmentChunkDecodes(s: string)
    requires '\\' !in s && '\r' !in s && '\t' !in s
    ensures DeltaContent(FragmentChunk(s)) == Returned(s)
  {
    var payload := FragmentChunk(s);
    assert payload[..|DeltaOpen|] == DeltaOpen;
    NoKeyInDeltaOpen(payload);
    LocateAfter(DeltaOpen, s, DeltaClose);
    UnescapeEscapeChars(s);
  }

  /** The sentinel line stops the loop. */
  lemma DoneLineStops()
    ensures Classify("data: [DONE]") == Stop
  {
    var done := "data: [DONE]";
    assert done[..|DataPrefix|] == DataPrefix;
    assert done[|DataPrefix|..] == DoneSentinel;
    TrimUnchanged(DoneSentinel);
  }

  /** End to end: a stream of fragment lines closed by `data: [DONE]` prints
      exactly the non-empty fragments, in order, and ends at the sentinel,
      whatever follows it. */
  lemma {:induction false} StreamRoundTrip(fragments: seq<string>, after: seq<string>)
    requires forall i :: 0 <= i < |fragments| ==>
      '\\' !in fragments[i] && '\r' !in fragments[i] && '\t' !in fragments[i]
    ensures Decode(FragmentLines(fragments) + ["data: [DONE]"] + after) ==
      Decoded(NonEmpty(fragments), Done)
    decreases |fragments|
  {
    var done := "data: [DONE]";
    DoneLineStops();
    if fragments == [] {
      assert FragmentLines(fragments) + [done] + after == [done] + after;
      DecodeUnfold([done] + after);
    } else {
      var rest := FragmentLines(fragments[1..]) + [done] + after;
      var line := FragmentLine(fragments[0]);
      assert FragmentLines(fragments) + [done] + after == [line] + rest;
      assert ([line] + rest)[1..] == rest;
      FragmentLineEmits(fragments[0]);
      StreamRoundTrip(fragments[1..], after);
      DecodeUnfold([line] + rest);
    }
  }

  /** Dropping the empty fragments does not change the printed text. */
  lemma {:induction false} ConcatNonEmpty(fragments: seq<string>)
    ensures Concat(NonEmpty(fragments)) == Concat(fragments)
    decreases |fragments|
  {
    if fragments != [] {
      var rest := NonEmpty(fragments[1..]);
      ConcatNonEmpty(fragments[1..]);
      if fragments[0] != [] {
        var all := [fragments[0]] + rest;
        assert all[0] == fragments[0] && all[1..] == rest;
      } else {
        assert [] + rest == rest;
      }
    }
  }

  /** The console text of a stream of fragment lines closed by the sentinel
      is the fragments joined, in order. */
  lemma StreamPrintsFragments(fragments: seq<string>, after: seq<string>)
    requires forall i :: 0 <= i < |fragments| ==>
      '\\' !in fragments[i] && '\r' !in fragments[i] && '\t' !in fragments[i]
    ensures Concat(Decode(FragmentLines(fragments) + ["data: [DONE]"] + after).printed) == Concat(fragments)
  {
    StreamRoundTrip(fragments, after);
    ConcatNonEmpty(fragments);
  }
}
