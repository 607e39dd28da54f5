/**
 * checkClosedParenthesis of the shell's Assignment_2/src/main.c: a line is
 * accepted when its double quotes are balanced.  A quote right after a
 * backslash does not count; the look-back is a single character, so an
 * escaped backslash still escapes the quote after it.
 */
module ShellMain {

  /** The quote at position i toggles the "opened" state. */
  predicate TogglesQuote(s: seq<char>, i: nat)
    requires i < |s|
  {
    s[i] == '"' && (i == 0 || s[i - 1] != '\\')
  }

  /** How many toggling quotes s holds, scanning left to right. */
  function ToggleCount(s: seq<char>): nat
  {
    if |s| == 0 then 0
    else ToggleCount(s[..|s| - 1]) + (if TogglesQuote(s, |s| - 1) then 1 else 0)
  }

  /** The positions of the toggling quotes of s. */
  function TogglePositions(s: seq<char>): set<nat>
  {
    set i: nat | i < |s| && TogglesQuote(s, i)
  }

  /** The running count is the number of toggling positions. */
  lemma {:induction false} ToggleCountIsPositions(s: seq<char>)
    ensures ToggleCount(s) == |TogglePositions(s)|
  {
    if |s| > 0 {
      var p := s[..|s| - 1];
      ToggleCountIsPositions(p);
      assert forall i: nat | i < |p| :: TogglesQuote(p, i) == TogglesQuote(s, i);
      if TogglesQuote(s, |s| - 1) {
        assert TogglePositions(s) == TogglePositions(p) + {|s| - 1};
      } else {
        assert TogglePositions(s) == TogglePositions(p);
      }
    }
  }

  /**
   * A quote preceded by a backslash is ignored even when that backslash is
   * itself escaped: the check looks back exactly one character.
   */
  lemma EscapedBackslashStillEscapes(s: seq<char>)
    ensures ToggleCount(s + ['\\', '\\', '"']) == ToggleCount(s)
  {
    var t := s + ['\\', '\\', '"'];
    var u := s + ['\\', '\\'];
    var v := s + ['\\'];
    assert t[..|t| - 1] == u && !TogglesQuote(t, |t| - 1);
    assert u[..|u| - 1] == v && !TogglesQuote(u, |u| - 1);
    assert v[..|v| - 1] == s && !TogglesQuote(v, |v| - 1);
    assert ToggleCount(t) == ToggleCount(u) == ToggleCount(v) == ToggleCount(s);
  }

  /**
   * checkClosedParenthesis(input, len): true exactly when the first len
   * characters hold an even number of toggling quotes (so true for len 0).
   * The buffer is only read.
   */
  method CheckClosedParenthesis(input: array<char>, len: nat) returns (closed: bool)
    requires len <= input.Length
    ensures closed <==> |TogglePositions(input[..len])| % 2 == 0
  {
    var isOpen := false;
    for i := 0 to len
      invariant isOpen <==> ToggleCount(input[..i]) % 2 == 1
    {
      assert input[..i + 1][..i] == input[..i];
      if input[i] == '"' && (i == 0 || input[i - 1] != '\\') {
        isOpen := !isOpen;
      }
    }
    closed := !isOpen;
    ToggleCountIsPositions(input[..len]);
  }
}
