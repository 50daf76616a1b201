/**
 * The pieces of Python's built-in string and integer behaviour that the
 * collection and processing code relies on: clamped slicing, `int()` on a
 * string, `str()` of an integer, `str.strip(chars)`, `str.replace`,
 * `str.join`, and `repr` of a string and of a list of strings (which is what
 * a list cell becomes when a table is written out).
 */
module PyText {

  /** The exceptions the modelled code can raise. */
  datatype PyError =
    | ValueError        // int() of a string that is not an integer literal
    | KeyError          // a missing dictionary key or table column
    | IndexError        // a string or index subscript out of range
    | NameError         // a name that the module never imported
    | AttributeError    // .strip on a blank (NaN) table cell
    | TypeError         // subscript of a blank (NaN) table cell
    | FileNotFoundError // reading a table file that does not exist

  datatype Result<+T> = Ok(value: T) | Err(error: PyError)

  datatype Outcome = Pass | Fail(error: PyError)

  // ---------------------------------------------------------------------
  // Slicing

  /** Python's `s[i:j]` for non-negative bounds: both ends are clamped. */
  function Slice(s: string, i: nat, j: nat): (r: string)
    ensures |r| == if i <= j && i <= |s| then (if j <= |s| then j else |s|) - i else 0
  {
    var hi := if j <= |s| then j else |s|;
    if i <= hi then s[i..hi] else []
  }

  /** Python's `s[i:]`. */
  function Drop(s: string, i: nat): (r: string)
    ensures |r| == if i <= |s| then |s| - i else 0
  {
    if i <= |s| then s[i..] else []
  }

  // ---------------------------------------------------------------------
  // Decimal digits

  predicate IsDigit(c: char) { '0' <= c <= '9' }

  predicate AllDigits(s: string) { forall i :: 0 <= i < |s| ==> IsDigit(s[i]) }

  function DigitValue(c: char): nat
    requires IsDigit(c)
  {
    (c as int - '0' as int) as nat
  }

  function DigitChar(d: nat): (c: char)
    requires d < 10
    ensures IsDigit(c) && DigitValue(c) == d
  {
    ('0' as int + d) as char
  }

  /** The value of a string of decimal digits, most significant first. */
  function DigitsValue(s: string): nat
    requires AllDigits(s)
  {
    if s == [] then 0 else DigitsValue(s[..|s| - 1]) * 10 + DigitValue(s[|s| - 1])
  }

  /** `str(n)` for a natural number: no leading zeros, "0" for zero. */
  function NatToString(n: nat): (r: string)
    ensures |r| > 0 && AllDigits(r)
    ensures DigitsValue(r) == n
    ensures n >= 10 ==> r[0] != '0'
  {
    if n < 10 then [DigitChar(n)]
    else
      var r := NatToString(n / 10) + [DigitChar(n % 10)];
      assert r[..|r| - 1] == NatToString(n / 10);
      r
  }

  /** `str(n)` for any integer. */
  function IntToString(n: int): string
  {
    if n < 0 then "-" + NatToString(-n) else NatToString(n)
  }

  // ---------------------------------------------------------------------
  // int() of a string

  /** The ASCII characters Python counts as whitespace, which `int()` skips
      around its digits: space, `\t`, `\n`, `\v`, `\f`, `\r` and the
      separators `\x1c` to `\x1f`. */
  predicate IsSpace(c: char) { c == ' ' || ('\t' <= c <= '\r') || ('\U{001C}' <= c <= '\U{001F}') }

  /** Number of leading characters of `s` satisfying `inSet`. */
  function LeadingCount(s: string, inSet: char -> bool): (k: nat)
    ensures k <= |s|
    ensures forall i :: 0 <= i < k ==> inSet(s[i])
    ensures k < |s| ==> !inSet(s[k])
  {
    if s == [] || !inSet(s[0]) then 0 else 1 + LeadingCount(s[1..], inSet)
  }

  /** Number of trailing characters of `s` satisfying `inSet`. */
  function TrailingCount(s: string, inSet: char -> bool): (k: nat)
    ensures k <= |s|
    ensures forall i :: |s| - k <= i < |s| ==> inSet(s[i])
    ensures k < |s| ==> !inSet(s[|s| - 1 - k])
  {
    if s == [] || !inSet(s[|s| - 1]) then 0 else 1 + TrailingCount(s[..|s| - 1], inSet)
  }

  /** The leading count is the one position where the run of set
      characters ends. */
  lemma {:induction false} LeadingCountExact(s: string, k: nat, inSet: char -> bool)
    requires k <= |s|
    requires forall i :: 0 <= i < k ==> inSet(s[i])
    requires k < |s| ==> !inSet(s[k])
    ensures LeadingCount(s, inSet) == k
  {
    if k > 0 {
      LeadingCountExact(s[1..], k - 1, inSet);
    }
  }

  /** The trailing count is the one length of the final run of set
      characters. */
  lemma {:induction false} TrailingCountExact(s: string, k: nat, inSet: char -> bool)
    requires k <= |s|
    requires forall i :: |s| - k <= i < |s| ==> inSet(s[i])
    requires k < |s| ==> !inSet(s[|s| - 1 - k])
    ensures TrailingCount(s, inSet) == k
  {
    if k > 0 {
      var init := s[..|s| - 1];
      assert forall i :: |init| - (k - 1) <= i < |init| ==> init[i] == s[i];
      TrailingCountExact(init, k - 1, inSet);
    }
  }

  /** `s.strip(chars)`: drop the longest prefix and then the longest suffix
      made only of characters for which `inSet` holds. */
  function StripBy(s: string, inSet: char -> bool): (r: string)
    ensures |r| <= |s|
    ensures |r| > 0 ==> !inSet(r[0]) && !inSet(r[|r| - 1])
  {
    var lead := LeadingCount(s, inSet);
    var rest := s[lead..];
    var trail := TrailingCount(rest, inSet);
    rest[..|rest| - trail]
  }

  /** `int(s)` for ASCII input: surrounding whitespace, an optional sign and
      at least one decimal digit; anything else raises ValueError. */
  function ParseInt(s: string): (r: Result<int>)
    ensures r.Err? ==> r.error == ValueError
  {
    var t := StripBy(s, IsSpace);
    var neg := |t| > 0 && t[0] == '-';
    var body := if |t| > 0 && (t[0] == '-' || t[0] == '+') then t[1..] else t;
    if |body| > 0 && AllDigits(body) then
      Ok(if neg then -(DigitsValue(body) as int) else DigitsValue(body))
    else Err(ValueError)
  }

  lemma ParseIntOfDigits(s: string)
    requires |s| > 0 && AllDigits(s)
    ensures ParseInt(s) == Ok(DigitsValue(s))
  {
    assert !IsSpace(s[0]) && !IsSpace(s[|s| - 1]);
    assert LeadingCount(s, IsSpace) == 0;
    assert TrailingCount(s, IsSpace) == 0;
    assert StripBy(s, IsSpace) == s;
  }

  /** `int(str(n)) == n`: the two conversions are inverse on naturals. */
  lemma ParseIntOfNatToString(n: nat)
    ensures ParseInt(NatToString(n)) == Ok(n)
  {
    ParseIntOfDigits(NatToString(n));
  }

  // ---------------------------------------------------------------------
  // str.replace

  /** `s.replace(pat, rep)` for a non-empty pattern: occurrences are found
      left to right and do not overlap. */
  function Replace(s: string, pat: string, rep: string): (r: string)
    requires |pat| > 0
    decreases |s|
  {
    if |s| < |pat| then s
    else if s[..|pat|] == pat then rep + Replace(s[|pat|..], pat, rep)
    else [s[0]] + Replace(s[1..], pat, rep)
  }

  /** A first character that cannot start the pattern is copied. */
  lemma ReplaceStep(s: string, pat: string, rep: string)
    requires |pat| > 0 && |s| > 0 && s[0] != pat[0]
    ensures Replace(s, pat, rep) == [s[0]] + Replace(s[1..], pat, rep)
  {
    if |s| >= |pat| {
      assert s[..|pat|][0] != pat[0];
    } else {
      assert Replace(s[1..], pat, rep) == s[1..];
      assert [s[0]] + s[1..] == s;
    }
  }

  /** A text that does not contain the first character of the pattern
      passes through `replace` unchanged, whatever follows it. */
  lemma {:induction false} ReplaceSkips(a: string, t: string, pat: string, rep: string)
    requires |pat| > 0
    requires forall i :: 0 <= i < |a| ==> a[i] != pat[0]
    ensures Replace(a + t, pat, rep) == a + Replace(t, pat, rep)
    decreases |a|
  {
    if a != [] {
      var s := a + t;
      assert s[0] == a[0];
      ReplaceStep(s, pat, rep);
      assert s[1..] == a[1..] + t;
      ReplaceSkips(a[1..], t, pat, rep);
      calc {
        Replace(s, pat, rep);
        [a[0]] + Replace(a[1..] + t, pat, rep);
        [a[0]] + (a[1..] + Replace(t, pat, rep));
        { assert [a[0]] + a[1..] == a; }
        a + Replace(t, pat, rep);
      }
    } else {
      assert a + t == t;
    }
  }

  /** A text without the pattern's first character is left unchanged. */
  lemma ReplaceAbsent(a: string, pat: string, rep: string)
    requires |pat| > 0
    requires forall i :: 0 <= i < |a| ==> a[i] != pat[0]
    ensures Replace(a, pat, rep) == a
  {
    ReplaceSkips(a, [], pat, rep);
    assert a + [] == a;
  }

  /** An occurrence of the pattern at the front is replaced. */
  lemma ReplaceAtFront(t: string, pat: string, rep: string)
    requires |pat| > 0
    ensures Replace(pat + t, pat, rep) == rep + Replace(t, pat, rep)
  {
    var s := pat + t;
    assert s[..|pat|] == pat;
    assert s[|pat|..] == t;
  }

  /** `pat` occurs in `s` starting at position i. */
  predicate MatchAt(s: string, pat: string, i: nat)
  {
    i + |pat| <= |s| && s[i..i + |pat|] == pat
  }

  /** `pat in s`. */
  predicate Contains(s: string, pat: string)
  {
    exists i: nat :: i <= |s| && MatchAt(s, pat, i)
  }

  /** A text in which the pattern does not occur is left unchanged. */
  lemma {:induction false} ReplaceNoMatch(s: string, pat: string, rep: string)
    requires |pat| > 0 && !Contains(s, pat)
    ensures Replace(s, pat, rep) == s
    decreases |s|
  {
    if |s| >= |pat| {
      assert !MatchAt(s, pat, 0);
      forall i: nat
        ensures MatchAt(s[1..], pat, i) ==> MatchAt(s, pat, i + 1)
      {
        if i + |pat| <= |s| - 1 {
          assert s[1..][i..i + |pat|] == s[i + 1..i + 1 + |pat|];
        }
      }
      ReplaceNoMatch(s[1..], pat, rep);
      assert [s[0]] + s[1..] == s;
    }
  }

  // ---------------------------------------------------------------------
  // str.join

  /** `sep.join(parts)`. */
  function Join(sep: string, parts: seq<string>): (r: string)
    ensures parts == [] ==> r == ""
    ensures |parts| == 1 ==> r == parts[0]
  {
    if parts == [] then ""
    else if |parts| == 1 then parts[0]
    else parts[0] + sep + Join(sep, parts[1..])
  }

  /** Joining two non-empty lists puts one separator between their joins. */
  lemma {:induction false} JoinAppend(sep: string, a: seq<string>, b: seq<string>)
    requires |a| > 0 && |b| > 0
    ensures Join(sep, a + b) == Join(sep, a) + sep + Join(sep, b)
    decreases |a|
  {
    assert (a + b)[0] == a[0];
    assert (a + b)[1..] == a[1..] + b;
    if |a| > 1 {
      JoinAppend(sep, a[1..], b);
    } else {
      assert a[1..] + b == b;
    }
  }

  // ---------------------------------------------------------------------
  // repr

  function HexDigit(d: nat): char
    requires d < 16
  {
    if d < 10 then DigitChar(d) else ('a' as int + d - 10) as char
  }

  /** The characters `repr` writes as a `\xNN` escape (those below U+00A0 that
      are not printable, and the soft hyphen). */
  predicate HexEscaped(c: char)
  {
    c < ' ' || ('\U{007F}' <= c <= '\U{00A0}') || c == '\U{00AD}'
  }

  /** How `repr` writes one character inside a literal quoted with `quote`. */
  function ReprChar(c: char, quote: char): string
  {
    if c == '\\' then "\\\\"
    else if c == quote then ['\\', c]
    else if c == '\n' then "\\n"
    else if c == '\r' then "\\r"
    else if c == '\t' then "\\t"
    else if HexEscaped(c) then ['\\', 'x', HexDigit(c as int / 16), HexDigit(c as int % 16)]
    else [c]
  }

  function ReprBody(s: string, quote: char): string
  {
    if s == [] then "" else ReprChar(s[0], quote) + ReprBody(s[1..], quote)
  }

  /** `repr(s)`: single quotes, unless the text holds a single quote and no
      double quote. */
  function PyStrRepr(s: string): string
  {
    var quote := if '\'' in s && '"' !in s then '"' else '\'';
    [quote] + ReprBody(s, quote) + [quote]
  }

  function ReprAll(items: seq<string>): (r: seq<string>)
    ensures |r| == |items|
    ensures forall i :: 0 <= i < |items| ==> r[i] == PyStrRepr(items[i])
  {
    if items == [] then [] else [PyStrRepr(items[0])] + ReprAll(items[1..])
  }

  /** `str(items)` for a list of strings: `['a', 'b']`. */
  function PyListRepr(items: seq<string>): string
  {
    "[" + Join(", ", ReprAll(items)) + "]"
  }

  /** A character `repr` writes as itself inside single quotes. */
  predicate ReprVerbatim(c: char)
  {
    c != '\\' && c != '\'' && c != '\n' && c != '\r' && c != '\t' && !HexEscaped(c)
  }

  lemma {:induction false} ReprBodyVerbatim(s: string)
    requires forall i :: 0 <= i < |s| ==> ReprVerbatim(s[i])
    ensures ReprBody(s, '\'') == s
    decreases |s|
  {
    if s != [] {
      ReprBodyVerbatim(s[1..]);
      assert [s[0]] + s[1..] == s;
    }
  }

  /** A string made only of verbatim characters is written as `'s'`. */
  lemma PyStrReprVerbatim(s: string)
    requires forall i :: 0 <= i < |s| ==> ReprVerbatim(s[i])
    ensures PyStrRepr(s) == "'" + s + "'"
  {
    assert '\'' !in s;
    ReprBodyVerbatim(s);
  }

  /** A character `repr` writes as itself inside double quotes. */
  predicate ReprVerbatimInDouble(c: char)
  {
    (ReprVerbatim(c) || c == '\'') && c != '"'
  }

  lemma {:induction false} ReprBodyDoubleQuoted(s: string)
    requires forall i :: 0 <= i < |s| ==> ReprVerbatimInDouble(s[i])
    ensures ReprBody(s, '"') == s
    decreases |s|
  {
    if s != [] {
      ReprBodyDoubleQuoted(s[1..]);
      assert [s[0]] + s[1..] == s;
    }
  }

  /** A text with a single quote and no double quote is written in double
      quotes, its single quotes unescaped. */
  lemma PyStrReprApostrophe(s: string)
    requires '\'' in s
    requires forall i :: 0 <= i < |s| ==> ReprVerbatimInDouble(s[i])
    ensures PyStrRepr(s) == "\"" + s + "\""
  {
    assert '"' !in s;
    ReprBodyDoubleQuoted(s);
  }
}
