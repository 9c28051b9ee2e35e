/**
 * The string operations the upload handlers rely on: Python's str.lower
 * and str.endswith (with a single suffix and with a tuple of suffixes), the
 * decimal rendering of an int inside an f-string, and, as an independent
 * reference for the suffix test, the file extension after the last dot.
 */
module Text {
  import opened Wrappers

  /** str.lower on one character, restricted to ASCII letters. */
  function LowerChar(c: char): char {
    if 'A' <= c <= 'Z' then (c as int + 32) as char else c
  }

  /** str.upper on one character, restricted to ASCII letters. */
  function UpperChar(c: char): char {
    if 'a' <= c <= 'z' then (c as int - 32) as char else c
  }

  function Lower(s: string): string {
    seq(|s|, i requires 0 <= i < |s| => LowerChar(s[i]))
  }

  function Upper(s: string): string {
    seq(|s|, i requires 0 <= i < |s| => UpperChar(s[i]))
  }

  /** Lower-casing forgets every case distinction an upper-casing could make. */
  lemma LowerOfUpper(s: string)
    ensures Lower(Upper(s)) == Lower(s)
  {
  }

  /** str.endswith with one suffix. */
  predicate EndsWith(s: string, suffix: string) {
    |suffix| <= |s| && s[|s| - |suffix|..] == suffix
  }

  /** str.endswith with a tuple of suffixes: true when any of them is a suffix. */
  predicate EndsWithAny(s: string, suffixes: seq<string>)
    decreases |suffixes|
  {
    suffixes != [] && (EndsWith(s, suffixes[0]) || EndsWithAny(s, suffixes[1..]))
  }

  lemma {:induction false} EndsWithAnyIffSome(s: string, suffixes: seq<string>)
    ensures EndsWithAny(s, suffixes) <==> exists i :: 0 <= i < |suffixes| && EndsWith(s, suffixes[i])
    decreases |suffixes|
  {
    if suffixes != [] {
      EndsWithAnyIffSome(s, suffixes[1..]);
      if EndsWithAny(s, suffixes[1..]) {
        var i :| 0 <= i < |suffixes[1..]| && EndsWith(s, suffixes[1..][i]);
        assert EndsWith(s, suffixes[i + 1]);
      }
      if exists i :: 0 <= i < |suffixes| && EndsWith(s, suffixes[i]) {
        var i :| 0 <= i < |suffixes| && EndsWith(s, suffixes[i]);
        if i > 0 {
          assert EndsWith(s, suffixes[1..][i - 1]);
        }
      }
    }
  }

  /**
   * The extension of a name: the text after its last '.', or None when the
   * name has no '.' at all.
   */
  function Extension(s: string): (r: Option<string>)
    ensures r.None? <==> '.' !in s
    ensures r.Some? ==> '.' !in r.value && EndsWith(s, "." + r.value)
    decreases |s|
  {
    if s == [] then None
    else if s[|s| - 1] == '.' then Some([])
    else
      match Extension(s[..|s| - 1])
      case None => None
      case Some(e) =>
        assert s == s[..|s| - 1] + [s[|s| - 1]];
        Some(e + [s[|s| - 1]])
  }

  /** A name ends with ".e", for a dot-free e, exactly when e is its extension. */
  lemma {:induction false} EndsWithDotted(s: string, e: string)
    requires '.' !in e
    ensures EndsWith(s, "." + e) <==> Extension(s) == Some(e)
    decreases |s|
  {
    if EndsWith(s, "." + e) && e != [] {
      var last := |s| - 1;
      assert s[last] == e[|e| - 1];
      assert s[..last][|s[..last]| - |e|..] == "." + e[..|e| - 1];
      EndsWithDotted(s[..last], e[..|e| - 1]);
      assert e == e[..|e| - 1] + [s[last]];
    }
  }

  /** The ASCII digit for 0 <= d < 10. */
  function Digit(d: nat): char
    requires d < 10
  {
    "0123456789"[d]
  }

  /** The value of an ASCII digit, None for any other character. */
  function DigitValue(c: char): (r: Option<nat>)
    ensures r.Some? ==> r.value < 10 && Digit(r.value) == c
    ensures forall d :: 0 <= d < 10 ==> (c == Digit(d) <==> r == Some(d))
  {
    if '0' <= c <= '9' then Some(c as int - '0' as int) else None
  }

  /** str(n) / f"{n}" for a non-negative int: its shortest decimal numeral. */
  function DecimalString(n: nat): (r: string)
    ensures r != []
    ensures forall i :: 0 <= i < |r| ==> '0' <= r[i] <= '9'
  {
    if n < 10 then [Digit(n)] else DecimalString(n / 10) + [Digit(n % 10)]
  }

  /** Reads a non-empty run of ASCII digits as a number; None for anything else. */
  function ParseDecimal(s: string): Option<nat>
    decreases |s|
  {
    if s == [] then None
    else
      match DigitValue(s[|s| - 1])
      case None => None
      case Some(d) =>
        if |s| == 1 then Some(d)
        else
          match ParseDecimal(s[..|s| - 1])
          case None => None
          case Some(v) => Some(10 * v + d)
  }

  /** Reading back the numeral of n gives n. */
  lemma {:induction false} ParseDecimalString(n: nat)
    ensures ParseDecimal(DecimalString(n)) == Some(n)
  {
    var s := DecimalString(n);
    assert DigitValue(Digit(n % 10)) == Some(n % 10);
    if n >= 10 {
      ParseDecimalString(n / 10);
      assert s[..|s| - 1] == DecimalString(n / 10);
    }
  }

  /** Different numbers have different numerals. */
  lemma DecimalStringInjective(a: nat, b: nat)
    requires DecimalString(a) == DecimalString(b)
    ensures a == b
  {
    ParseDecimalString(a);
    ParseDecimalString(b);
  }
}
