/** The .NET string operations the protocol code relies on, on `seq<char>`:
    `String.Split(char)`, `Trim`/`TrimEnd` over a set of characters, and the
    decimal text of a number. The culture-sensitive `StartsWith(string)` and
    `ToLower()` are modelled as an ordinal prefix test and ASCII lowering. */
module Text {

  /** The NUL character every LC-FIND datagram ends with. */
  const Nul: char := 0 as char

  //----------------------------------------------------------------------
  // Split and Join
  //----------------------------------------------------------------------

  /** `s.Split(c)`: `n` separators give `n + 1` parts, empty parts included. */
  function Split(s: string, c: char): (parts: seq<string>)
    ensures |parts| >= 1
    ensures forall i :: 0 <= i < |parts| ==> c !in parts[i]
    decreases |s|
  {
    if |s| == 0 then [""]
    else if s[0] == c then [""] + Split(s[1..], c)
    else
      var rest := Split(s[1..], c);
      [[s[0]] + rest[0]] + rest[1..]
  }

  /** `string.Join(c, parts)`, the inverse of `Split`. */
  function Join(parts: seq<string>, c: char): string
    requires |parts| >= 1
    decreases |parts|
  {
    if |parts| == 1 then parts[0] else parts[0] + [c] + Join(parts[1..], c)
  }

  /** No part of `parts` contains the separator. */
  predicate Separable(parts: seq<string>, c: char) {
    forall i :: 0 <= i < |parts| ==> c !in parts[i]
  }

  /** Joining the parts of a split gives back the string. */
  lemma {:induction false} JoinSplit(s: string, c: char)
    ensures Join(Split(s, c), c) == s
    decreases |s|
  {
    if |s| == 0 {
    } else if s[0] == c {
      JoinSplit(s[1..], c);
      assert [c] + s[1..] == s;
    } else {
      var rest := Split(s[1..], c);
      JoinSplit(s[1..], c);
      if |rest| == 1 {
        assert [s[0]] + s[1..] == s;
      } else {
        assert ([[s[0]] + rest[0]] + rest[1..])[1..] == rest[1..];
        assert rest == [rest[0]] + rest[1..];
        calc {
          Join(Split(s, c), c);
          ([s[0]] + rest[0]) + [c] + Join(rest[1..], c);
          [s[0]] + (rest[0] + [c] + Join(rest[1..], c));
          [s[0]] + Join(rest, c);
          [s[0]] + s[1..];
          s;
        }
      }
    }
  }

  lemma SplitNoSeparator(s: string, c: char)
    requires c !in s
    ensures Split(s, c) == [s]
    decreases |s|
  {
    if |s| > 0 {
      SplitNoSeparator(s[1..], c);
      assert [s[0]] + s[1..] == s;
    }
  }

  lemma SplitPrepend(p: string, c: char, t: string)
    requires c !in p
    ensures Split(p + [c] + t, c) == [p] + Split(t, c)
    decreases |p|
  {
    if |p| == 0 {
      assert (p + [c] + t)[1..] == t;
    } else {
      assert (p + [c] + t)[1..] == p[1..] + [c] + t;
      SplitPrepend(p[1..], c, t);
      assert [p[0]] + p[1..] == p;
    }
  }

  /** Splitting the join of separator-free parts gives back the parts. */
  lemma {:induction false} SplitJoin(parts: seq<string>, c: char)
    requires |parts| >= 1 && Separable(parts, c)
    ensures Split(Join(parts, c), c) == parts
    decreases |parts|
  {
    if |parts| == 1 {
      SplitNoSeparator(parts[0], c);
    } else {
      SplitJoin(parts[1..], c);
      SplitPrepend(parts[0], c, Join(parts[1..], c));
      assert parts == [parts[0]] + parts[1..];
    }
  }

  /** Fields each followed by the separator, as a `StringBuilder` receives
      them one `Append($"{field};")` at a time. */
  function Terminated(fields: seq<string>, c: char): (s: string)
    ensures |s| >= |fields|
    decreases |fields|
  {
    if |fields| == 0 then "" else fields[0] + [c] + Terminated(fields[1..], c)
  }

  /** Splitting separator-terminated fields gives back the fields, followed
      by the parts of whatever comes after them. */
  lemma TerminatedCons(fields: seq<string>, c: char, tail: string)
    requires |fields| > 0
    ensures Terminated(fields, c) + tail == fields[0] + [c] + (Terminated(fields[1..], c) + tail)
  {}

  /** Concatenation regroups around the head of a non-empty sequence. */
  lemma ConsConcat(xs: seq<string>, ys: seq<string>)
    requires |xs| > 0
    ensures [xs[0]] + (xs[1..] + ys) == xs + ys
  {
    assert [xs[0]] + xs[1..] == xs;
  }

  lemma {:induction false} SplitTerminated(fields: seq<string>, c: char, tail: string)
    requires Separable(fields, c)
    ensures Split(Terminated(fields, c) + tail, c) == fields + Split(tail, c)
    decreases |fields|
  {
    if |fields| == 0 {
      assert Terminated(fields, c) + tail == tail;
    } else {
      var rest := Terminated(fields[1..], c) + tail;
      var restParts := Split(rest, c);
      var tailParts := Split(tail, c);
      assert restParts == fields[1..] + tailParts by {
        SplitTerminated(fields[1..], c, tail);
      }
      assert Terminated(fields, c) + tail == fields[0] + [c] + rest by {
        TerminatedCons(fields, c, tail);
      }
      assert Split(fields[0] + [c] + rest, c) == [fields[0]] + restParts by {
        assert c !in fields[0];
        SplitPrepend(fields[0], c, rest);
      }
      ConsConcat(fields, tailParts);
    }
  }

  //----------------------------------------------------------------------
  // Key=value pairs
  //----------------------------------------------------------------------

  function Pair(key: string, value: string): string {
    key + "=" + value
  }

  /** Text that may stand as a key or a value of a request. */
  predicate Plain(s: string) {
    ';' !in s && '=' !in s
  }

  lemma PairSplit(key: string, value: string)
    requires Plain(key) && Plain(value)
    ensures Split(Pair(key, value), '=') == [key, value]
    ensures ';' !in Pair(key, value)
  {
    SplitNoSeparator(value, '=');
    SplitPrepend(key, '=', value);
  }

  /** With keys free of `=`, the test "starts with `key=`" singles out the
      pairs of that key and no other, whatever the value. */
  lemma KeyMatch(key: string, other: string, value: string)
    requires '=' !in key && '=' !in other
    ensures key + "=" <= Pair(other, value) <==> key == other
  {
    var p := Pair(other, value);
    if key + "=" <= p {
      assert p[|key|] == '=';
      assert p[|other|] == '=';
      assert forall i :: 0 <= i < |other| ==> p[i] == other[i];
      assert forall i :: 0 <= i < |key| ==> p[i] == key[i];
      assert |key| == |other|;
      assert key == (key + "=")[..|key|] == p[..|key|] == other;
    }
  }

  //----------------------------------------------------------------------
  // Trimming
  //----------------------------------------------------------------------

  /** `s.TrimStart(cs)`: drops the leading characters that are in `cs`. */
  function TrimStart(s: string, cs: set<char>): (r: string)
    ensures |r| <= |s| && r == s[|s| - |r|..]
    ensures forall i :: 0 <= i < |s| - |r| ==> s[i] in cs
    ensures |r| == 0 || r[0] !in cs
    decreases |s|
  {
    if |s| > 0 && s[0] in cs then TrimStart(s[1..], cs) else s
  }

  /** `s.TrimEnd(cs)`: drops the trailing characters that are in `cs`. */
  function TrimEnd(s: string, cs: set<char>): (r: string)
    ensures |r| <= |s| && r == s[..|r|]
    ensures forall i :: |r| <= i < |s| ==> s[i] in cs
    ensures |r| == 0 || r[|r| - 1] !in cs
    decreases |s|
  {
    if |s| > 0 && s[|s| - 1] in cs then TrimEnd(s[..|s| - 1], cs) else s
  }

  /** `s.Trim(cs)`: both ends. */
  function Trim(s: string, cs: set<char>): string {
    TrimEnd(TrimStart(s, cs), cs)
  }

  /** A string with no removable character at either end. */
  predicate Trimmed(s: string, cs: set<char>) {
    |s| == 0 || (s[0] !in cs && s[|s| - 1] !in cs)
  }

  /** Trimming yields a string with nothing left to trim at either end. */
  lemma TrimIsTrimmed(s: string, cs: set<char>)
    ensures Trimmed(Trim(s, cs), cs)
  {
    var t := TrimStart(s, cs);
    var r := TrimEnd(t, cs);
    if |r| > 0 {
      assert r[0] == t[0];
    }
  }

  /** Trimming leaves a string with nothing to trim unchanged. */
  lemma TrimKeepsTrimmed(s: string, cs: set<char>)
    requires Trimmed(s, cs)
    ensures Trim(s, cs) == s
  {
    if |s| > 0 {
      assert TrimStart(s, cs) == s;
      assert TrimEnd(s, cs) == s;
    }
  }

  //----------------------------------------------------------------------
  // Case
  //----------------------------------------------------------------------

  function LowerChar(ch: char): char {
    if 'A' <= ch <= 'Z' then (ch as int + 32) as char else ch
  }

  /** `s.ToLower()` restricted to the ASCII letters. */
  function ToLower(s: string): (r: string)
    ensures |r| == |s|
    ensures forall i :: 0 <= i < |s| ==> r[i] == LowerChar(s[i])
  {
    seq(|s|, i requires 0 <= i < |s| => LowerChar(s[i]))
  }

  predicate IsCapital(ch: char) { 'A' <= ch <= 'Z' }

  predicate NoCapitals(s: string) {
    forall i :: 0 <= i < |s| ==> !IsCapital(s[i])
  }

  /** Two characters that are the same letter up to ASCII case: equal, or a
      capital and the character 32 code points above it. */
  predicate SameIgnoringCase(x: char, y: char) {
    x == y
    || (IsCapital(x) && y as int == x as int + 32)
    || (IsCapital(y) && x as int == y as int + 32)
  }

  /** ASCII case-insensitive string equality, stated pointwise and
      independently of `ToLower`. */
  predicate EqualIgnoringCase(a: string, b: string) {
    |a| == |b| && forall i :: 0 <= i < |a| ==> SameIgnoringCase(a[i], b[i])
  }

  /** Lowering leaves no capital letter. */
  lemma ToLowerNoCapitals(s: string)
    ensures NoCapitals(ToLower(s))
  {
    forall i | 0 <= i < |s|
      ensures !IsCapital(ToLower(s)[i])
    {
      assert ToLower(s)[i] == LowerChar(s[i]);
    }
  }

  /** Lowering twice is lowering once. */
  lemma ToLowerIdempotent(s: string)
    ensures ToLower(ToLower(s)) == ToLower(s)
  {
    ToLowerNoCapitals(s);
    var t := ToLower(s);
    forall i | 0 <= i < |t|
      ensures ToLower(t)[i] == t[i]
    {
      assert !IsCapital(t[i]);
    }
  }

  /** Comparing the lowered text with a text that has no capitals, as the
      request parser does with its keys and modes, is ASCII case-insensitive
      equality. */
  lemma ToLowerMatches(k: string, t: string)
    requires NoCapitals(t)
    ensures ToLower(k) == t <==> EqualIgnoringCase(k, t)
  {
    if ToLower(k) == t {
      forall i | 0 <= i < |k|
        ensures SameIgnoringCase(k[i], t[i])
      {
        assert t[i] == LowerChar(k[i]);
      }
    }
    if EqualIgnoringCase(k, t) {
      forall i | 0 <= i < |k|
        ensures ToLower(k)[i] == t[i]
      {
        assert SameIgnoringCase(k[i], t[i]) && !IsCapital(t[i]);
      }
    }
  }

  //----------------------------------------------------------------------
  // Decimal numbers
  //----------------------------------------------------------------------

  predicate IsDigit(ch: char) { '0' <= ch <= '9' }

  function DigitChar(d: nat): char
    requires d < 10
  {
    ('0' as int + d) as char
  }

  function DigitValue(ch: char): nat
    requires IsDigit(ch)
  {
    ch as int - '0' as int
  }

  predicate AllDigits(s: string) {
    forall i :: 0 <= i < |s| ==> IsDigit(s[i])
  }

  /** The decimal value of a string of digits. */
  function Value(s: string): nat
    requires AllDigits(s)
    decreases |s|
  {
    if |s| == 0 then 0 else Value(s[..|s| - 1]) * 10 + DigitValue(s[|s| - 1])
  }

  /** Decimal text as .NET writes an integer: no sign, no leading zero. */
  function Dec(n: nat): (s: string)
    ensures |s| >= 1 && AllDigits(s)
    decreases n
  {
    if n < 10 then [DigitChar(n)] else Dec(n / 10) + [DigitChar(n % 10)]
  }

  /** A non-empty digit string without a superfluous leading zero. */
  predicate Canonical(s: string) {
    |s| >= 1 && AllDigits(s) && (s[0] == '0' ==> |s| == 1)
  }

  /** `Dec` writes canonical text whose value is the number. */
  lemma {:induction false} ValueDec(n: nat)
    ensures Canonical(Dec(n))
    ensures Value(Dec(n)) == n
    decreases n
  {
    var s := Dec(n);
    if n >= 10 {
      ValueDec(n / 10);
      assert s[..|s| - 1] == Dec(n / 10);
      assert s[0] == Dec(n / 10)[0];
    }
  }

  lemma {:induction false} LeadingDigitPositive(s: string)
    requires Canonical(s) && s[0] != '0'
    ensures Value(s) >= 1
    decreases |s|
  {
    if |s| > 1 {
      var p := s[..|s| - 1];
      assert p[0] == s[0];
      LeadingDigitPositive(p);
    }
  }

  /** Reading canonical text and writing the value back gives the text. */
  lemma {:induction false} DecValue(s: string)
    requires Canonical(s)
    ensures Dec(Value(s)) == s
    decreases |s|
  {
    if |s| > 1 {
      var p := s[..|s| - 1];
      assert p[0] == s[0];
      LeadingDigitPositive(p);
      DecValue(p);
      assert s == p + [s[|s| - 1]];
    }
  }

  /** Text of a number below 256 is at most three characters long. */
  lemma DecShort(n: nat)
    requires n < 256
    ensures |Dec(n)| <= 3
  {
    if n >= 10 {
      if n >= 100 {
        assert |Dec(n / 10 / 10)| == 1;
      }
    }
  }
}
