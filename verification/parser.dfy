/**
 * The command tokenizer of the shell, Assignment_2/src/parser/parser.c:
 * classifying operators, splitting a command into words, and the growable
 * argument vector of a Command.
 */
module Parser {
  import opened Wrappers

  /** CommandType of parser.h, in its declaration order. */
  datatype CommandType =
    | Regular | OperatorAnd | OperatorOr | OperatorPipe | OperatorAppend | OperatorWrite
    | Background | Comment | Unknown

  /** INITIAL_SEQUENCE_SIZE: the capacity of a fresh argument vector. */
  const InitialSequenceSize: nat := 8
  /** EXTENSION_SIZE: how many slots a full argument vector grows by. */
  const ExtensionSize: nat := 2

  /**
   * isSpecialCharacter: the characters that start an operator; on its own
   * such a character is decided as an operator and any other as regular.
   */
  predicate IsSpecialCharacter(ch: char): (special: bool)
    ensures special <==> DecideCommandType([ch], 0) != Regular
  {
    ch == '|' || ch == '&' || ch == '>'
  }

  /**
   * decideCommandType: the operator at position pos, looking one character
   * ahead for the doubled forms; anything else is a regular command.
   */
  function DecideCommandType(input: string, pos: nat): (t: CommandType)
    requires pos < |input|
    ensures t in {Regular, OperatorAnd, OperatorOr, OperatorPipe, OperatorAppend, OperatorWrite, Background}
  {
    var doubled := pos + 1 < |input| && input[pos + 1] == input[pos];
    if input[pos] == '|' then (if doubled then OperatorOr else OperatorPipe)
    else if input[pos] == '&' then (if doubled then OperatorAnd else Background)
    else if input[pos] == '>' then (if doubled then OperatorAppend else OperatorWrite)
    else Regular
  }

  /**
   * The two functions agree: an operator is decided exactly at a special
   * character, and the doubled form exactly when the next character repeats
   * it.
   */
  lemma DecideMatchesSpecial(input: string, pos: nat)
    requires pos < |input|
    ensures DecideCommandType(input, pos) != Regular <==> IsSpecialCharacter(input[pos])
    ensures DecideCommandType(input, pos) in {OperatorOr, OperatorAnd, OperatorAppend} <==>
            IsSpecialCharacter(input[pos]) && pos + 1 < |input| && input[pos + 1] == input[pos]
    ensures DecideCommandType(input, pos) in {OperatorOr, OperatorPipe} <==> input[pos] == '|'
    ensures DecideCommandType(input, pos) in {OperatorAnd, Background} <==> input[pos] == '&'
    ensures DecideCommandType(input, pos) in {OperatorAppend, OperatorWrite} <==> input[pos] == '>'
  {
  }

  /** Whether the quote state after ch differs from before it. */
  function ToggleQuote(inParen: bool, ch: char): bool {
    if ch == '"' then !inParen else inParen
  }

  /** A character that ends a word when it is outside double quotes. */
  predicate Separator(ch: char) {
    IsSpecialCharacter(ch) || ch == ' '
  }

  /**
   * The inner loop of parseRegular: from endPos, with the quote state
   * inParen, the position where the word ends, at a separator outside
   * quotes or at the end of the input.
   */
  function WordEnd(input: string, endPos: nat, inParen: bool): (e: nat)
    requires endPos <= |input|
    ensures endPos <= e <= |input|
    ensures endPos < |input| && !Separator(input[endPos]) ==> e > endPos
    decreases |input| - endPos
  {
    if endPos == |input| then endPos
    else
      var open := ToggleQuote(inParen, input[endPos]);
      if !open && Separator(input[endPos]) then endPos else WordEnd(input, endPos + 1, open)
  }

  /**
   * The words parseRegular reads from pos on: spaces are skipped, each
   * word runs to WordEnd, and the scan stops at the end of the input or at
   * a special character outside a word.
   */
  function Words(input: string, pos: nat): (ws: seq<string>)
    requires pos <= |input|
    decreases |input| - pos
  {
    if pos == |input| || IsSpecialCharacter(input[pos]) then []
    else if input[pos] == ' ' then Words(input, pos + 1)
    else [input[pos..WordEnd(input, pos, false)]] + Words(input, WordEnd(input, pos, false))
  }

  /** Where parseRegular stops. */
  function RegularEnd(input: string, pos: nat): (r: nat)
    requires pos <= |input|
    decreases |input| - pos
  {
    if pos == |input| || IsSpecialCharacter(input[pos]) then pos
    else if input[pos] == ' ' then RegularEnd(input, pos + 1)
    else RegularEnd(input, WordEnd(input, pos, false))
  }

  /**
   * parseRegular stops at the end of the input or on a special character,
   * never before where it started.
   */
  lemma {:induction false} RegularEndStops(input: string, pos: nat)
    requires pos <= |input|
    ensures pos <= RegularEnd(input, pos) <= |input|
    ensures RegularEnd(input, pos) == |input| || IsSpecialCharacter(input[RegularEnd(input, pos)])
    decreases |input| - pos
  {
    if pos == |input| || IsSpecialCharacter(input[pos]) {
    } else if input[pos] == ' ' {
      RegularEndStops(input, pos + 1);
    } else {
      RegularEndStops(input, WordEnd(input, pos, false));
    }
  }

  /** The number of double quotes in s[lo..hi]. */
  function Quotes(s: string, lo: nat, hi: nat): nat
    requires lo <= hi <= |s|
    decreases hi
  {
    if hi == lo then 0 else Quotes(s, lo, hi - 1) + (if s[hi - 1] == '"' then 1 else 0)
  }

  /** Counting in a slice is counting in the same positions of the whole. */
  lemma {:induction false} QuotesInSlice(s: string, pos: nat, e: nat, k: nat)
    requires pos <= e <= |s| && k <= e - pos
    ensures Quotes(s[pos..e], 0, k) == Quotes(s, pos, pos + k)
  {
    if k > 0 {
      QuotesInSlice(s, pos, e, k - 1);
      assert s[pos..e][k - 1] == s[pos + k - 1];
    }
  }

  /**
   * The shape of a word: not empty, and every space or special character in
   * it lies inside double quotes (an odd number of quotes up to and
   * including it).
   */
  ghost predicate WellFormedWord(w: string) {
    |w| > 0 &&
    forall k | 0 <= k < |w| :: Separator(w[k]) ==> Quotes(w, 0, k + 1) % 2 == 1
  }

  /**
   * The word scanned from start with quote state inParen at endPos: every
   * separator in input[start..WordEnd] lies inside quotes.
   */
  lemma {:induction false} WordEndQuoted(input: string, start: nat, endPos: nat, inParen: bool)
    requires start <= endPos <= |input|
    requires inParen == (Quotes(input, start, endPos) % 2 == 1)
    requires forall k | start <= k < endPos :: Separator(input[k]) ==> Quotes(input, start, k + 1) % 2 == 1
    ensures forall k | start <= k < WordEnd(input, endPos, inParen) ::
              Separator(input[k]) ==> Quotes(input, start, k + 1) % 2 == 1
    decreases |input| - endPos
  {
    if endPos < |input| {
      var open := ToggleQuote(inParen, input[endPos]);
      if !(!open && Separator(input[endPos])) {
        WordEndQuoted(input, start, endPos + 1, open);
      }
    }
  }

  /** A word read at a non-separator character is well formed. */
  lemma WordIsWellFormed(input: string, pos: nat)
    requires pos < |input| && !Separator(input[pos])
    ensures WellFormedWord(input[pos..WordEnd(input, pos, false)])
  {
    WordEndQuoted(input, pos, pos, false);
    var e := WordEnd(input, pos, false);
    var w := input[pos..e];
    forall k | 0 <= k < |w| && Separator(w[k])
      ensures Quotes(w, 0, k + 1) % 2 == 1
    {
      QuotesInSlice(input, pos, e, k + 1);
      assert w[k] == input[pos + k];
    }
  }

  /**
   * Every word parseRegular produces is non-empty and keeps its spaces and
   * special characters inside double quotes; the quotes themselves stay in
   * the word.
   */
  lemma {:induction false} WordsWellFormed(input: string, pos: nat)
    requires pos <= |input|
    ensures forall w | w in Words(input, pos) :: WellFormedWord(w)
    decreases |input| - pos
  {
    if pos == |input| || IsSpecialCharacter(input[pos]) {
    } else if input[pos] == ' ' {
      WordsWellFormed(input, pos + 1);
    } else {
      WordIsWellFormed(input, pos);
      WordsWellFormed(input, WordEnd(input, pos, false));
    }
  }

  /**
   * A Command: its name (the first word) and its argument vector, a
   * growable array of argCapacity slots of which the first argc are used.
   * The type field is not touched by the functions modelled here.
   */
  class Command {
    var name: Option<string>
    var argc: nat
    var argCapacity: nat
    var argv: array?<string>

    /** The zero-initialised Command of the callers. */
    constructor ()
      ensures name.None? && argc == 0 && argCapacity == 0 && argv == null
    {
      name, argc, argCapacity, argv := None, 0, 0, null;
    }

    ghost predicate Valid()
      reads this, argv
    {
      argv != null ==> argc <= argCapacity == argv.Length
    }

    /** The arguments held, in order. */
    function Args(): seq<string>
      reads this, argv
      requires Valid()
    {
      if argv == null then [] else argv[..argc]
    }

    /**
     * insertToStringSequence: allocates INITIAL_SEQUENCE_SIZE slots on the
     * first insertion, grows a full vector by EXTENSION_SIZE slots (copying
     * the used ones) and appends the token at index argc.
     */
    method InsertToStringSequence(token: string)
      requires Valid()
      modifies this, argv
      ensures Valid() && argv != null
      ensures Args() == old(Args()) + [token]
      ensures name == old(name)
      ensures argCapacity == if old(argv) == null then InitialSequenceSize
                             else if old(argc) == old(argCapacity) then old(argCapacity) + ExtensionSize
                             else old(argCapacity)
      ensures old(argv) != null && old(argc) < old(argCapacity) ==> argv == old(argv)
      ensures argv == old(argv) || fresh(argv)
    {
      if argv == null {
        argv := new string[InitialSequenceSize](_ => "");
        argCapacity := InitialSequenceSize;
        argc := 0;
      }
      if argc == argCapacity {
        var newArgv := new string[argCapacity + ExtensionSize](_ => "");
        forall k | 0 <= k < argc {
          newArgv[k] := argv[k];
        }
        argv := newArgv;
        argCapacity := argCapacity + ExtensionSize;
      }
      argv[argc] := token;
      argc := argc + 1;
    }
  }

  /**
   * freeCommand: drops the arguments of a command whose vector is
   * allocated; a missing command, or one without a vector, is left as it
   * is.  The name is not released.
   */
  method FreeCommand(cmd: Command?)
    modifies cmd
    ensures cmd != null && old(cmd.argv) != null ==>
              cmd.argv == null && cmd.argc == 0 && cmd.argCapacity == 0 && cmd.name == old(cmd.name)
    ensures cmd != null && old(cmd.argv) == null ==>
              cmd.argv == null && cmd.argc == old(cmd.argc) && cmd.argCapacity == old(cmd.argCapacity) &&
              cmd.name == old(cmd.name)
  {
    if cmd == null {
      return;
    }
    if cmd.argv != null {
      cmd.argv := null;
      cmd.argc := 0;
      cmd.argCapacity := 0;
    }
  }

  /**
   * A command that receives the words ws: the first one becomes its name
   * when it has none, the others are appended to its arguments.
   */
  function Received(name: Option<string>, args: seq<string>, ws: seq<string>): (Option<string>, seq<string>)
  {
    if name.Some? || ws == [] then (name, args + ws) else (Some(ws[0]), args + ws[1..])
  }

  /** Receiving words in two batches is receiving them all at once. */
  lemma ReceivedConcat(name: Option<string>, args: seq<string>, ws1: seq<string>, ws2: seq<string>)
    ensures Received(Received(name, args, ws1).0, Received(name, args, ws1).1, ws2) == Received(name, args, ws1 + ws2)
  {
    if ws1 == [] {
      assert ws1 + ws2 == ws2 && args + ws1 == args;
    } else if name.Some? {
      assert (args + ws1) + ws2 == args + (ws1 + ws2);
    } else {
      assert (ws1 + ws2)[0] == ws1[0];
      assert (ws1 + ws2)[1..] == ws1[1..] + ws2;
      assert (args + ws1[1..]) + ws2 == args + (ws1[1..] + ws2);
    }
  }

  /**
   * parseRegular: reads words from pos until the end of the input or a
   * special character outside a word, skipping spaces; the first word the
   * command receives becomes its name, the later ones its arguments.
   */
  method ParseRegular(input: string, pos: nat, cmd: Command) returns (next: nat)
    requires pos < |input|
    requires cmd.Valid()
    modifies cmd, cmd.argv
    ensures next == RegularEnd(input, pos)
    ensures cmd.Valid()
    ensures (cmd.name, cmd.Args()) == Received(old(cmd.name), old(cmd.Args()), Words(input, pos))
  {
    next := pos;
    while next < |input| && !IsSpecialCharacter(input[next])
      invariant pos <= next <= |input|
      invariant cmd.Valid()
      invariant RegularEnd(input, next) == RegularEnd(input, pos)
      invariant Received(old(cmd.name), old(cmd.Args()), Words(input, pos)) ==
                Received(cmd.name, cmd.Args(), Words(input, next))
      invariant cmd.argv == null || cmd.argv == old(cmd.argv) || fresh(cmd.argv)
      decreases |input| - next
    {
      if input[next] == ' ' {
        next := next + 1;
        continue;
      }
      var startPos := next;
      var endPos := ScanWord(input, startPos);
      var token := input[startPos..endPos];
      ReceivedConcat(cmd.name, cmd.Args(), [token], Words(input, endPos));
      ReceiveWord(cmd, token);
      next := endPos;
    }
    assert cmd.Args() + [] == cmd.Args();
  }

  /** A word of parseRegular: the command's name when it has none, an argument otherwise. */
  method ReceiveWord(cmd: Command, token: string)
    requires cmd.Valid()
    modifies cmd, cmd.argv
    ensures cmd.Valid()
    ensures (cmd.name, cmd.Args()) == Received(old(cmd.name), old(cmd.Args()), [token])
    ensures cmd.argv == old(cmd.argv) || fresh(cmd.argv)
  {
    if cmd.name.None? {
      cmd.name := Some(token);
      assert [token][1..] == [];
      assert cmd.Args() + [] == cmd.Args();
    } else {
      cmd.InsertToStringSequence(token);
    }
  }

  /** The inner loop of parseRegular, from a character that starts a word. */
  method ScanWord(input: string, startPos: nat) returns (endPos: nat)
    requires startPos < |input|
    ensures endPos == WordEnd(input, startPos, false)
  {
    endPos := startPos;
    var inParen := false;
    while endPos < |input|
      invariant startPos <= endPos <= |input|
      invariant WordEnd(input, endPos, inParen) == WordEnd(input, startPos, false)
      decreases |input| - endPos
    {
      if inParen && input[endPos] == '"' {
        inParen := false;
      } else if !inParen && input[endPos] == '"' {
        inParen := true;
      }
      if !inParen && (IsSpecialCharacter(input[endPos]) || input[endPos] == ' ') {
        break;
      }
      endPos := endPos + 1;
    }
  }
}
