/**
 * The text form of a run in Assignment_1/src/libsort.c: decimal integers
 * ("%d"), each followed by one space except the last (no trailing space),
 * and count_numbers_in_file, which recovers the number of values by
 * counting delimiter characters up to end of file.
 */
module RunFormat {

  /** One decimal digit, as fprintf writes it. */
  function DigitChar(d: nat): (c: char)
    requires d < 10
    ensures '0' <= c <= '9'
  {
    (('0' as int) + d) as char
  }

  /** The decimal digits of n, most significant first: those of n / 10, then the last one. */
  function NatDigits(n: nat): (s: string)
    ensures |s| >= 1 && '0' <= s[|s| - 1] <= '9'
    decreases n, 0
  {
    if n < 10 then [DigitChar(n)] else Show(n / 10) + [DigitChar(n % 10)]
  }

  /** "%d": a minus sign for negative values, then the digits. */
  function Show(x: int): (s: string)
    ensures |s| >= 1 && '0' <= s[|s| - 1] <= '9'
    decreases if x < 0 then -x else x, 1
  {
    if x < 0 then "-" + NatDigits(-x) else NatDigits(x)
  }

  /** The values of s, each written as "%d " (with its trailing space). */
  function Spaced(s: seq<int>): (t: string)
    ensures |t| >= 2 * |s|
  {
    if s == [] then "" else Show(s[0]) + " " + Spaced(s[1..])
  }

  /**
   * The text of a run: every value but the last written as "%d ", the last
   * as "%d"; an empty run is empty text.
   */
  function Serialize(s: seq<int>): (t: string)
    ensures t == [] <==> s == []
    ensures s != [] ==> |t| >= 2 * |s| - 1 && '0' <= t[|t| - 1] <= '9'
  {
    if s == [] then "" else Spaced(s[..|s| - 1]) + Show(s[|s| - 1])
  }

  /** fgetc returns a byte 0xFF as (char) -1, which equals EOF where char is signed. */
  const EofByte: char := 255 as char

  /** The characters count_numbers_in_file counts (EOF aside). */
  predicate IsDelimiter(c: char): (delim: bool)
    ensures delim ==> c != '-' && !('0' <= c <= '9') && c != EofByte
  {
    c == ' ' || c == '\n' || c == '\0'
  }

  /**
   * What count_numbers_in_file returns for a stream holding text: one per
   * delimiter before the end of the stream, plus one for the EOF read that
   * ends the scan.  A byte 0xFF also ends the scan.
   */
  function NumbersInText(text: string): (n: nat)
    ensures n >= 1
  {
    if |text| == 0 || text[0] == EofByte then 1
    else (if IsDelimiter(text[0]) then 1 else 0) + NumbersInText(text[1..])
  }

  /** Writing x after the text of out, as "%d" (the last value) or as "%d ". */
  lemma TextStep(out: seq<int>, x: int)
    ensures Spaced(out) + Show(x) == Serialize(out + [x])
    ensures Spaced(out) + Show(x) + " " == Spaced(out + [x])
  {
    SerializeAppend(out, x);
    SpacedAppend(out, x);
  }

  /** Writing numbers[i] as "%d " after the text of the first i values. */
  lemma SpacedPrefixStep(numbers: seq<int>, i: nat)
    requires i < |numbers|
    ensures Spaced(numbers[..i]) + Show(numbers[i]) + " " == Spaced(numbers[..i + 1])
  {
    SpacedAppend(numbers[..i], numbers[i]);
    assert numbers[..i] + [numbers[i]] == numbers[..i + 1];
  }

  /** The "%d " text of s followed by "%d" of x is the text of s + [x]. */
  lemma SerializeAppend(s: seq<int>, x: int)
    ensures Serialize(s + [x]) == Spaced(s) + Show(x)
  {
    assert (s + [x])[..|s|] == s;
  }

  /** Writing one more "%d " extends the spaced text at its end. */
  lemma {:induction false} SpacedAppend(s: seq<int>, x: int)
    ensures Spaced(s + [x]) == Spaced(s) + Show(x) + " "
  {
    if s != [] {
      assert (s + [x])[1..] == s[1..] + [x];
      calc {
        Spaced(s + [x]);
        Show(s[0]) + " " + Spaced(s[1..] + [x]);
        { SpacedAppend(s[1..], x); }
        Show(s[0]) + " " + (Spaced(s[1..]) + Show(x) + " ");
        (Show(s[0]) + " " + Spaced(s[1..])) + Show(x) + " ";
      }
    } else {
      assert [x][1..] == [];
      assert Spaced([x]) == Show(x) + " " + Spaced([]);
    }
  }

  /** Characters that are neither delimiters nor 0xFF do not change the count. */
  lemma {:induction false} CountSkipsWord(w: string, t: string)
    requires forall c | c in w :: !IsDelimiter(c) && c != EofByte
    ensures NumbersInText(w + t) == NumbersInText(t)
  {
    if w != [] {
      assert (w + t)[0] == w[0] && w[0] in w;
      assert (w + t)[1..] == w[1..] + t;
      CountSkipsWord(w[1..], t);
      assert NumbersInText(w + t) == NumbersInText(w[1..] + t);
    } else {
      assert w + t == t;
    }
  }

  /** NatDigits writes only digits. */
  lemma {:induction false} NatDigitsAreDigits(n: nat)
    ensures forall c | c in NatDigits(n) :: '0' <= c <= '9'
  {
    if n >= 10 {
      NatDigitsAreDigits(n / 10);
      assert Show(n / 10) == NatDigits(n / 10);
    }
  }

  /** "%d" writes only a sign and digits, none of them a delimiter or 0xFF. */
  lemma ShowIsWord(x: int)
    ensures forall c | c in Show(x) :: c == '-' || '0' <= c <= '9'
    ensures forall c | c in Show(x) :: !IsDelimiter(c) && c != EofByte
  {
    NatDigitsAreDigits(if x < 0 then -x else x);
  }

  lemma {:induction false} CountSpaced(p: seq<int>, w: string)
    requires forall c | c in w :: !IsDelimiter(c) && c != EofByte
    ensures NumbersInText(Spaced(p) + w) == |p| + 1
  {
    if p == [] {
      CountSkipsWord(w, "");
      assert w + "" == w;
      assert Spaced(p) + w == w;
    } else {
      var rest := Spaced(p[1..]) + w;
      assert Spaced(p) + w == Show(p[0]) + (" " + rest);
      ShowIsWord(p[0]);
      CountSkipsWord(Show(p[0]), " " + rest);
      assert (" " + rest)[1..] == rest;
      CountSpaced(p[1..], w);
    }
  }

  /**
   * The count round trip: count_numbers_in_file on the text of a non-empty
   * run gives its length back.  On empty text it gives 1.
   */
  lemma CountSerialized(s: seq<int>)
    ensures |s| >= 1 ==> NumbersInText(Serialize(s)) == |s|
    ensures s == [] ==> NumbersInText(Serialize(s)) == 1
  {
    if s != [] {
      ShowIsWord(s[|s| - 1]);
      CountSpaced(s[..|s| - 1], Show(s[|s| - 1]));
    }
  }

  /**
   * count_numbers_in_file: reads characters until EOF, counting delimiters
   * and the final EOF.  The stream is rewound afterwards; a run here is a
   * value, so the read position is not state.
   */
  method CountNumbersInFile(text: string) returns (count: nat)
    ensures count == NumbersInText(text)
  {
    count := 0;
    var i := 0;
    var atEof := false;
    while !atEof
      invariant 0 <= i <= |text|
      invariant !atEof ==> count + NumbersInText(text[i..]) == NumbersInText(text)
      invariant atEof ==> count == NumbersInText(text)
      decreases |text| - i, if atEof then 0 else 1
    {
      var symbolIsEof := i == |text| || text[i] == EofByte;
      if symbolIsEof || IsDelimiter(text[i]) {
        count := count + 1;
      }
      if symbolIsEof {
        atEof := true;
      } else {
        assert text[i..][1..] == text[i + 1..];
        i := i + 1;
      }
    }
  }
}
