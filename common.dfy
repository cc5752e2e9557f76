/** Text helpers shared by the backend and frontend models.  Characters are Unicode scalar
    values, but case mapping and whitespace are the ASCII ones: both sides of the system are
    modelled on ASCII input. */
module Common {

  datatype Option<T> = None | Some(value: T)

  predicate IsUpper(c: char) { 'A' <= c <= 'Z' }
  predicate IsLower(c: char) { 'a' <= c <= 'z' }
  predicate IsDigit(c: char) { '0' <= c <= '9' }

  /** Lower-casing of one character: ASCII capitals map to small letters, all else is kept. */
  function LowerChar(c: char): char
  {
    if IsUpper(c) then (c as int - 'A' as int + 'a' as int) as char else c
  }

  /** JavaScript `toLowerCase` / Python `lower`, on ASCII. */
  function Lower(s: string): (r: string)
    ensures |r| == |s|
    ensures forall i :: 0 <= i < |s| ==> r[i] == LowerChar(s[i])
  {
    seq(|s|, i requires 0 <= i < |s| => LowerChar(s[i]))
  }

  /** JavaScript `\s` and the characters `trim` removes, restricted to ASCII:
      tab, line feed, vertical tab, form feed, carriage return and space. */
  predicate IsJsSpace(c: char) { c == ' ' || '\t' <= c <= '\r' }

  /** The ASCII characters Python's argument-less `str.strip` removes: the JavaScript set
      plus the four separators 0x1C to 0x1F. */
  predicate IsPySpace(c: char) { 9 <= c as int <= 13 || 28 <= c as int <= 32 }

  function TrimStart(s: string, isSpace: char -> bool): (r: string)
    ensures |r| <= |s| && r == s[|s| - |r|..]
    ensures forall i :: 0 <= i < |s| - |r| ==> isSpace(s[i])
    ensures r != [] ==> !isSpace(r[0])
    decreases |s|
  {
    if |s| > 0 && isSpace(s[0]) then TrimStart(s[1..], isSpace) else s
  }

  function TrimEnd(s: string, isSpace: char -> bool): (r: string)
    ensures |r| <= |s| && r == s[..|r|]
    ensures forall i :: |r| <= i < |s| ==> isSpace(s[i])
    ensures r != [] ==> !isSpace(r[|r| - 1])
    decreases |s|
  {
    if |s| > 0 && isSpace(s[|s| - 1]) then TrimEnd(s[..|s| - 1], isSpace) else s
  }

  /** Removes the leading and trailing characters satisfying `isSpace`. */
  function Trim(s: string, isSpace: char -> bool): (r: string)
    ensures r != [] ==> !isSpace(r[0]) && !isSpace(r[|r| - 1])
    ensures |r| <= |s|
  {
    TrimEnd(TrimStart(s, isSpace), isSpace)
  }

  /** A text that neither starts nor ends with a space is its own trim. */
  lemma TrimUnchanged(s: string, isSpace: char -> bool)
    requires s != [] ==> !isSpace(s[0]) && !isSpace(s[|s| - 1])
    ensures Trim(s, isSpace) == s
  {
    assert TrimStart(s, isSpace) == s;
  }

  /** JavaScript's `String.prototype.trim`. */
  function JsTrim(s: string): string { Trim(s, IsJsSpace) }

  /** Python's `str.strip()`. */
  function PyStrip(s: string): string { Trim(s, IsPySpace) }

  /** Every occurrence of `a` replaced by `b` (`str.replace(a, b)` in Python, `replace(/a/g, b)` in JavaScript). */
  function ReplaceChar(s: string, a: char, b: char): (r: string)
    ensures |r| == |s|
    ensures forall i :: 0 <= i < |s| ==> r[i] == if s[i] == a then b else s[i]
  {
    seq(|s|, i requires 0 <= i < |s| => if s[i] == a then b else s[i])
  }

  predicate StartsWith(s: string, p: string) { |p| <= |s| && s[..|p|] == p }
  predicate EndsWith(s: string, p: string) { |p| <= |s| && s[|s| - |p|..] == p }

  /** JavaScript `replace` with a global regular expression that matches exactly the literal
      `pat`: matches are taken left to right and never overlap. */
  function ReplaceAll(s: string, pat: string, rep: string): string
    requires pat != []
    decreases |s|
  {
    if |s| == 0 then []
    else if StartsWith(s, pat) then rep + ReplaceAll(s[|pat|..], pat, rep)
    else [s[0]] + ReplaceAll(s[1..], pat, rep)
  }

  /** A pattern whose first character never occurs is never replaced. */
  lemma {:induction false} ReplaceAllAbsent(s: string, pat: string, rep: string)
    requires pat != [] && pat[0] !in s
    ensures ReplaceAll(s, pat, rep) == s
    decreases |s|
  {
    if |s| > 0 {
      assert s[0] in s;
      assert forall c :: c in s[1..] ==> c in s;
      ReplaceAllAbsent(s[1..], pat, rep);
    }
  }

  /** JavaScript `split(sep)` for a one-character separator: always at least one piece. */
  function Split(s: string, sep: char): (r: seq<string>)
    ensures |r| >= 1
    ensures forall i :: 0 <= i < |r| ==> sep !in r[i]
    decreases |s|
  {
    if |s| == 0 then [[]]
    else
      var rest := Split(s[1..], sep);
      if s[0] == sep then [[]] + rest else [[s[0]] + rest[0]] + rest[1..]
  }

  /** JavaScript `join(sep)`. */
  function Join(lines: seq<string>, sep: char): string
    decreases |lines|
  {
    if |lines| == 0 then []
    else if |lines| == 1 then lines[0]
    else lines[0] + [sep] + Join(lines[1..], sep)
  }

  lemma {:induction false} JoinSplit(s: string, sep: char)
    ensures Join(Split(s, sep), sep) == s
    decreases |s|
  {
    if |s| > 0 {
      var rest := Split(s[1..], sep);
      JoinSplit(s[1..], sep);
      if s[0] == sep {
        assert Join([[]] + rest, sep) == [] + [sep] + Join(rest, sep);
        assert s == [sep] + s[1..];
      } else if |rest| == 1 {
        assert Split(s, sep) == [[s[0]] + rest[0]];
        assert s == [s[0]] + s[1..];
      } else {
        var first := [s[0]] + rest[0];
        assert Split(s, sep) == [first] + rest[1..];
        assert ([first] + rest[1..])[1..] == rest[1..];
        assert Join([first] + rest[1..], sep) == first + [sep] + Join(rest[1..], sep);
        assert Join(rest, sep) == rest[0] + [sep] + Join(rest[1..], sep);
        assert s == [s[0]] + s[1..];
      }
    }
  }

  lemma {:induction false} SplitPiece(a: string, sep: char, b: string)
    requires sep !in a
    ensures Split(a + [sep] + b, sep) == [a] + Split(b, sep)
    decreases |a|
  {
    if |a| == 0 {
      assert a + [sep] + b == [sep] + b;
      assert ([sep] + b)[1..] == b;
    } else {
      SplitPiece(a[1..], sep, b);
      assert (a + [sep] + b)[1..] == a[1..] + [sep] + b;
      assert a == [a[0]] + a[1..];
    }
  }

  lemma {:induction false} SplitWhole(a: string, sep: char)
    requires sep !in a
    ensures Split(a, sep) == [a]
    decreases |a|
  {
    if |a| > 0 {
      SplitWhole(a[1..], sep);
      assert a == [a[0]] + a[1..];
    }
  }

  /** Splitting undoes joining when no piece contains the separator. */
  lemma {:induction false} SplitJoin(lines: seq<string>, sep: char)
    requires |lines| >= 1
    requires forall i :: 0 <= i < |lines| ==> sep !in lines[i]
    ensures Split(Join(lines, sep), sep) == lines
    decreases |lines|
  {
    if |lines| == 1 {
      SplitWhole(lines[0], sep);
    } else {
      SplitJoin(lines[1..], sep);
      SplitPiece(lines[0], sep, Join(lines[1..], sep));
      assert lines == [lines[0]] + lines[1..];
    }
  }

  function DigitChar(d: nat): char
    requires d < 10
  {
    ('0' as int + d) as char
  }

  function DigitValue(c: char): nat
    requires IsDigit(c)
  {
    c as int - '0' as int
  }

  predicate AllDigits(s: string) { forall i :: 0 <= i < |s| ==> IsDigit(s[i]) }

  /** Decimal notation of a natural number, as Python's `str` and JavaScript's `toString` give it. */
  function NatToDecimal(n: nat): (r: string)
    ensures |r| >= 1 && AllDigits(r)
    ensures n > 0 ==> r[0] != '0'
    decreases n
  {
    if n < 10 then [DigitChar(n)] else NatToDecimal(n / 10) + [DigitChar(n % 10)]
  }

  /** The value of a string of decimal digits (`parseInt(s, 10)`). */
  function DecimalValue(s: string): nat
    requires AllDigits(s)
    decreases |s|
  {
    if |s| == 0 then 0 else 10 * DecimalValue(s[..|s| - 1]) + DigitValue(s[|s| - 1])
  }

  lemma {:induction false} DecimalRoundTrip(n: nat)
    ensures DecimalValue(NatToDecimal(n)) == n
    decreases n
  {
    if n >= 10 {
      DecimalRoundTrip(n / 10);
      var s := NatToDecimal(n);
      assert s[..|s| - 1] == NatToDecimal(n / 10);
    }
  }

  lemma DecimalInjective(a: nat, b: nat)
    requires NatToDecimal(a) == NatToDecimal(b)
    ensures a == b
  {
    DecimalRoundTrip(a);
    DecimalRoundTrip(b);
  }

  /** Leading zeros do not change a decimal value. */
  lemma {:induction false} LeadingZero(s: string)
    requires AllDigits(s)
    ensures DecimalValue(['0'] + s) == DecimalValue(s)
    decreases |s|
  {
    if |s| > 0 {
      var t := ['0'] + s;
      assert t[..|t| - 1] == ['0'] + s[..|s| - 1];
      LeadingZero(s[..|s| - 1]);
    }
  }

  function Repeat(c: char, n: nat): (r: string)
    ensures |r| == n && forall i :: 0 <= i < n ==> r[i] == c
  {
    seq(n, i => c)
  }

  /** JavaScript `padStart(width, c)`. */
  function PadStart(s: string, width: nat, c: char): (r: string)
    ensures |r| == if |s| >= width then |s| else width
    ensures EndsWith(r, s)
    ensures forall i :: 0 <= i < |r| - |s| ==> r[i] == c
  {
    if |s| >= width then s else Repeat(c, width - |s|) + s
  }

  lemma {:induction false} ZeroPaddingValue(z: nat, s: string)
    requires AllDigits(s)
    ensures AllDigits(Repeat('0', z) + s)
    ensures DecimalValue(Repeat('0', z) + s) == DecimalValue(s)
    decreases z
  {
    if z > 0 {
      ZeroPaddingValue(z - 1, s);
      assert Repeat('0', z) == ['0'] + Repeat('0', z - 1);
      assert Repeat('0', z) + s == ['0'] + (Repeat('0', z - 1) + s);
      LeadingZero(Repeat('0', z - 1) + s);
    } else {
      assert Repeat('0', z) + s == s;
    }
  }
}
