/** The entry point of Main.kt: with command-line arguments one request is
    sent with the arguments joined by spaces; otherwise lines are read from
    standard input, trimmed, and sent one by one until the input ends or a
    line is empty or `exit`. Each send is `sendRequest`, modelled in
    Completion; here only the prompts and the lines read are followed. */
module Console {
  import opened Text

  const ExitWord: string := "exit"

  /** The loop stops at this (trimmed) line without sending it. */
  predicate StopsLoop(line: string) {
    line == [] || EqualsIgnoreCase(line, ExitWord)
  }

  /** The prompts the interactive loop sends, as a function of the input lines */
  function InteractivePrompts(input: seq<string>): seq<string>
    decreases |input|
  {
    if input == [] then []
    else
      var line := Trim(input[0]);
      if StopsLoop(line) then [] else [line] + InteractivePrompts(input[1..])
  }

  /** How many lines `readLine` returned before the loop stopped */
  function LinesRead(input: seq<string>): nat
    decreases |input|
  {
    if input == [] then 0
    else if StopsLoop(Trim(input[0])) then 1
    else 1 + LinesRead(input[1..])
  }

  /** The prompts `main` sends */
  function Prompts(args: seq<string>, input: seq<string>): seq<string> {
    if args != [] then [Join(" ", args)] else InteractivePrompts(input)
  }

  /** `main(args)` after the key check: the prompts sent, in order, and the
      number of lines read from standard input */
  method RunMain(args: seq<string>, input: seq<string>) returns (sent: seq<string>, read: nat)
    ensures sent == Prompts(args, input)
    ensures read == if args != [] then 0 else LinesRead(input)
  {
    if |args| > 0 {
      sent := [Join(" ", args)];
      read := 0;
      return;
    }
    sent := [];
    read := 0;
    while true
      invariant read <= |input|
      invariant InteractivePrompts(input) == sent + InteractivePrompts(input[read..])
      invariant LinesRead(input) == read + LinesRead(input[read..])
      decreases |input| - read
    {
      if read == |input| {
        break;
      }
      var line := Trim(input[read]);
      assert input[read..][1..] == input[read + 1..];
      read := read + 1;
      if line == [] || EqualsIgnoreCase(line, ExitWord) {
        break;
      }
      sent := sent + [line];
    }
  }

  /** The interactive prompts are exactly the trimmed input lines up to the
      first one that is empty after trimming or equal to `exit` ignoring
      case: every sent prompt is the trimmed line at its position and is
      neither, and the loop ends at the end of input or at such a line,
      which is read but not sent. */
  lemma {:induction false} InteractivePromptsSpec(input: seq<string>)
    ensures |InteractivePrompts(input)| <= |input|
    ensures forall i :: 0 <= i < |InteractivePrompts(input)| ==>
      InteractivePrompts(input)[i] == Trim(input[i]) && !StopsLoop(InteractivePrompts(input)[i])
    ensures |InteractivePrompts(input)| == |input| || StopsLoop(Trim(input[|InteractivePrompts(input)|]))
    decreases |input|
  {
    if input != [] && !StopsLoop(Trim(input[0])) {
      var t := input[1..];
      InteractivePromptsSpec(t);
      var p, q := InteractivePrompts(input), InteractivePrompts(t);
      assert p == [Trim(input[0])] + q;
      forall i | 1 <= i < |p| ensures p[i] == Trim(input[i]) && !StopsLoop(p[i]) {
        assert p[i] == q[i - 1] && input[i] == t[i - 1];
      }
      if |p| < |input| {
        assert input[|p|] == t[|q|];
      }
    }
  }

  /** The loop reads one line more than it sends, unless the input ran out. */
  lemma {:induction false} LinesReadCount(input: seq<string>)
    ensures LinesRead(input) == if |InteractivePrompts(input)| == |input| then |input|
      else |InteractivePrompts(input)| + 1
    decreases |input|
  {
    if input != [] && !StopsLoop(Trim(input[0])) {
      LinesReadCount(input[1..]);
      InteractivePromptsSpec(input[1..]);
    }
  }

  /** The characterisation determines the prompts: any list of the trimmed
      lines that stops where the loop stops is the list the loop sends. */
  lemma {:induction false} InteractivePromptsUnique(input: seq<string>, p: seq<string>)
    requires |p| <= |input|
    requires forall i :: 0 <= i < |p| ==> p[i] == Trim(input[i]) && !StopsLoop(p[i])
    requires |p| == |input| || StopsLoop(Trim(input[|p|]))
    ensures p == InteractivePrompts(input)
    decreases |input|
  {
    if input != [] {
      if p == [] {
        assert StopsLoop(Trim(input[0]));
      } else {
        assert p[0] == Trim(input[0]);
        InteractivePromptsUnique(input[1..], p[1..]);
        assert p == [p[0]] + p[1..];
      }
    }
  }

  /** With arguments exactly one request is sent, with the arguments joined
      by single spaces, and standard input is not read. */
  lemma ArgsMode(args: seq<string>, input: seq<string>)
    requires args != []
    ensures Prompts(args, input) == [Join(" ", args)]
    ensures |args| >= 2 ==> Prompts(args, input)[0] == args[0] + " " + Join(" ", args[1..])
  {
  }

  /** A line stops the loop exactly when it is empty or is `exit` once its
      letters are folded to lower case: `exit` in any letter case. */
  lemma ExitAnyCase(line: string)
    ensures StopsLoop(line) <==> line == [] || LowerAsciiText(line) == ExitWord
  {
    var low := LowerAsciiText(line);
    assert forall i :: 0 <= i < |ExitWord| ==> LowerAscii(ExitWord[i]) == ExitWord[i];
    if |line| == |ExitWord| {
      if EqualsIgnoreCase(line, ExitWord) {
        assert forall i :: 0 <= i < |line| ==> low[i] == ExitWord[i];
      }
      if low == ExitWord {
        assert forall i :: 0 <= i < |line| ==> LowerAscii(line[i]) == low[i];
      }
    } else {
      assert |low| != |ExitWord|;
    }
  }
}
