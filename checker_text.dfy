/** The text handling the trace checker relies on when it reads a CNF file:
    Python's `str.split("\n")`, `str.split()` (split on runs of white space),
    the slice `x[:-2]`, and `int()` on a word.  Each comes with the rendering
    it inverts, so that reading back a rendered formula is proved to give the
    formula. */
module PyText {
  import opened Literals

  // ---------------------------------------------------------------------
  // Lines: str.split("\n") and "\n".join

  /** Python's `s.split("\n")`: the pieces between the line breaks, one more
      piece than there are breaks, empty pieces kept. */
  function SplitLines(s: string): (r: seq<string>)
    ensures |r| >= 1
    ensures |r| == 1 + Count(s, '\n')
  {
    if |s| == 0 then [""]
    else
      var rest := SplitLines(s[1..]);
      if s[0] == '\n' then [""] + rest
      else [[s[0]] + rest[0]] + rest[1..]
  }

  /** Number of occurrences of `c` in `s`. */
  function Count(s: string, c: char): nat {
    if |s| == 0 then 0 else (if s[0] == c then 1 else 0) + Count(s[1..], c)
  }

  /** `"\n".join(ls)`. */
  function JoinLines(ls: seq<string>): string
    requires |ls| >= 1
  {
    if |ls| == 1 then ls[0] else ls[0] + "\n" + JoinLines(ls[1..])
  }

  lemma {:induction false} SplitLinesOfLine(w: string, s: string)
    requires '\n' !in w
    ensures SplitLines(w) == [w]
    ensures SplitLines(w + "\n" + s) == [w] + SplitLines(s)
  {
    if |w| > 0 {
      SplitLinesOfLine(w[1..], s);
      assert (w + "\n" + s)[1..] == w[1..] + "\n" + s;
      assert [w[0]] + w[1..] == w;
    } else {
      assert w + "\n" + s == "\n" + s;
      assert ("\n" + s)[1..] == s;
    }
  }

  /** Splitting joined lines gives the lines back. */
  lemma {:induction false} SplitJoinLines(ls: seq<string>)
    requires |ls| >= 1
    requires forall i :: 0 <= i < |ls| ==> '\n' !in ls[i]
    ensures SplitLines(JoinLines(ls)) == ls
  {
    if |ls| == 1 {
      SplitLinesOfLine(ls[0], "");
    } else {
      SplitJoinLines(ls[1..]);
      SplitLinesOfLine(ls[0], JoinLines(ls[1..]));
      assert [ls[0]] + ls[1..] == ls;
    }
  }

  // ---------------------------------------------------------------------
  // Words: str.split() and " ".join

  /** The characters Python's `str.split()` treats as white space. */
  predicate IsSpace(c: char) {
    var k := c as int;
    (9 <= k <= 13) || (28 <= k <= 32) || k == 0x85 || k == 0xA0 || k == 0x1680
    || (0x2000 <= k <= 0x200A) || k == 0x2028 || k == 0x2029 || k == 0x202F
    || k == 0x205F || k == 0x3000
  }

  predicate NoSpace(w: string) {
    forall i :: 0 <= i < |w| ==> !IsSpace(w[i])
  }

  /** The longest prefix of `s` without white space. */
  function TakeWord(s: string): (w: string)
    ensures |w| <= |s| && w == s[..|w|]
    ensures NoSpace(w)
    ensures |w| < |s| ==> IsSpace(s[|w|])
  {
    if |s| == 0 || IsSpace(s[0]) then ""
    else [s[0]] + TakeWord(s[1..])
  }

  /** Python's `s.split()`: the maximal runs of non-white-space characters. */
  function Words(s: string): (ws: seq<string>)
    ensures forall i :: 0 <= i < |ws| ==> |ws[i]| > 0 && NoSpace(ws[i])
    decreases |s|
  {
    if |s| == 0 then []
    else if IsSpace(s[0]) then Words(s[1..])
    else
      var w := TakeWord(s);
      [w] + Words(s[|w|..])
  }

  /** `" ".join(ws)`. */
  function Unwords(ws: seq<string>): string {
    if |ws| == 0 then ""
    else if |ws| == 1 then ws[0]
    else ws[0] + " " + Unwords(ws[1..])
  }

  lemma {:induction false} TakeWordPrefix(w: string, s: string)
    requires NoSpace(w)
    requires |s| == 0 || IsSpace(s[0])
    ensures TakeWord(w + s) == w
  {
    if |w| > 0 {
      assert (w + s)[1..] == w[1..] + s;
      TakeWordPrefix(w[1..], s);
      assert [w[0]] + w[1..] == w;
    } else {
      assert w + s == s;
    }
  }

  /** Splitting words joined by single spaces gives the words back. */
  lemma {:induction false} WordsUnwords(ws: seq<string>)
    requires forall i :: 0 <= i < |ws| ==> |ws[i]| > 0 && NoSpace(ws[i])
    ensures Words(Unwords(ws)) == ws
  {
    if |ws| == 1 {
      TakeWordPrefix(ws[0], "");
      assert ws[0] + "" == ws[0];
      assert !IsSpace(ws[0][0]);
      assert ws[0][|ws[0]|..] == "";
    } else if |ws| > 1 {
      var s := Unwords(ws);
      var rest := " " + Unwords(ws[1..]);
      assert s == ws[0] + rest;
      assert !IsSpace(s[0]);
      TakeWordPrefix(ws[0], rest);
      assert s[|ws[0]|..] == rest;
      assert rest[1..] == Unwords(ws[1..]);
      WordsUnwords(ws[1..]);
      assert [ws[0]] + ws[1..] == ws;
    }
  }

  // ---------------------------------------------------------------------
  // Integers: int(word) and str(n)

  predicate IsDigit(c: char) {
    '0' <= c <= '9'
  }

  function DigitValue(c: char): nat
    requires IsDigit(c)
  {
    (c as int) - ('0' as int)
  }

  function DigitChar(d: nat): (c: char)
    requires d < 10
    ensures IsDigit(c) && DigitValue(c) == d
  {
    ('0' as int + d) as char
  }

  predicate AllDigits(s: string) {
    forall i :: 0 <= i < |s| ==> IsDigit(s[i])
  }

  /** The value of a string of decimal digits, most significant first. */
  function DigitsValue(s: string): nat
    requires AllDigits(s)
  {
    if |s| == 0 then 0
    else DigitsValue(s[..|s| - 1]) * 10 + DigitValue(s[|s| - 1])
  }

  /** Python's `int(w)` on a word, restricted to an optional sign followed
      by at least one ASCII digit; `None` for every other word.  Python
      also reads digits separated by single underscores and decimal digits
      of other scripts, which this rejects. */
  function ParseInt(w: string): Option<int> {
    if |w| > 0 && (w[0] == '-' || w[0] == '+') then
      var ds := w[1..];
      if |ds| > 0 && AllDigits(ds) then
        var v: int := DigitsValue(ds);
        Some(if w[0] == '-' then -v else v)
      else None
    else if |w| > 0 && AllDigits(w) then Some(DigitsValue(w))
    else None
  }

  /** Decimal digits of a natural number, without leading zeros. */
  function Digits(n: nat): (s: string)
    ensures |s| > 0 && AllDigits(s)
  {
    if n < 10 then [DigitChar(n)] else Digits(n / 10) + [DigitChar(n % 10)]
  }

  /** Python's `str(n)`. */
  function Show(n: int): (s: string)
    ensures |s| > 0 && NoSpace(s)
  {
    if n < 0 then "-" + Digits(-n) else Digits(n)
  }

  lemma {:induction false} DigitsValueOfDigits(n: nat)
    ensures DigitsValue(Digits(n)) == n
  {
    if n >= 10 {
      DigitsValueOfDigits(n / 10);
      var s := Digits(n);
      assert s[..|s| - 1] == Digits(n / 10);
    }
  }

  /** `int(str(n)) == n`. */
  lemma ParseShow(n: int)
    ensures ParseInt(Show(n)) == Some(n)
  {
    var w := Show(n);
    if n < 0 {
      var ds := Digits(-n);
      DigitsValueOfDigits(-n);
      assert w == "-" + ds;
      assert w[0] == '-' && w[1..] == ds;
    } else {
      DigitsValueOfDigits(n);
      assert w == Digits(n) && IsDigit(w[0]);
    }
  }
}
