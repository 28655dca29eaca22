/**
 * The JavaScript string and number primitives that the browser client and the
 * server both lean on, written out over `string` (= `seq<char>`):
 * `trim`/`\s`, decimal digits, `Number.prototype.toString` on integers,
 * `padStart`, `lastIndexOf` and `split`/`join` on a one-character separator.
 */
module JsText {

  // ---------------------------------------------------------------- whitespace

  /**
   * ECMAScript WhiteSpace and LineTerminator, what `trim` removes and `\s`
   * matches: tab, line feed, vertical tab, form feed, carriage return, space,
   * no-break space, the Unicode space separators (U+1680, U+2000 to U+200A,
   * U+202F, U+205F, U+3000), the line and paragraph separators (U+2028,
   * U+2029) and the byte order mark (U+FEFF).
   */
  predicate IsJsWhitespace(c: char)
  {
    ('\t' <= c <= '\r') || c == ' ' || c == '\U{A0}' || c == '\U{1680}'
    || ('\U{2000}' <= c <= '\U{200A}') || c == '\U{2028}' || c == '\U{2029}'
    || c == '\U{202F}' || c == '\U{205F}' || c == '\U{3000}' || c == '\U{FEFF}'
  }

  predicate AllWhitespace(s: string)
  {
    forall i :: 0 <= i < |s| ==> IsJsWhitespace(s[i])
  }

  /** No whitespace at either end (the empty string qualifies). */
  predicate Trimmed(s: string)
  {
    s == [] || (!IsJsWhitespace(s[0]) && !IsJsWhitespace(s[|s| - 1]))
  }

  /** The first position from `i` on that does not hold whitespace, or `|s|`. */
  function SkipSpace(s: string, i: nat): (k: nat)
    requires i <= |s|
    ensures i <= k <= |s|
    ensures forall j :: i <= j < k ==> IsJsWhitespace(s[j])
    ensures k == |s| || !IsJsWhitespace(s[k])
    decreases |s| - i
  {
    if i < |s| && IsJsWhitespace(s[i]) then SkipSpace(s, i + 1) else i
  }

  /** Counting back from `j` to no further than `lo`: the end of the last non-whitespace character. */
  function SkipSpaceBack(s: string, lo: nat, j: nat): (k: nat)
    requires lo <= j <= |s|
    ensures lo <= k <= j
    ensures forall i :: k <= i < j ==> IsJsWhitespace(s[i])
    ensures k == lo || !IsJsWhitespace(s[k - 1])
  {
    if lo < j && IsJsWhitespace(s[j - 1]) then SkipSpaceBack(s, lo, j - 1) else j
  }

  /** `r` sits at position `a` of `s` with only whitespace around it. */
  predicate TrimmedAt(s: string, r: string, a: int)
  {
    0 <= a <= |s| - |r| && r == s[a..a + |r|]
    && (forall i :: 0 <= i < a ==> IsJsWhitespace(s[i]))
    && (forall i :: a + |r| <= i < |s| ==> IsJsWhitespace(s[i]))
  }

  /** `String.prototype.trim`: `s` is whitespace, then the result, then whitespace. */
  function Trim(s: string): (r: string)
    ensures Trimmed(r)
    ensures r == [] <==> AllWhitespace(s)
    ensures TrimmedAt(s, r, SkipSpace(s, 0))
  {
    var a := SkipSpace(s, 0);
    var b := SkipSpaceBack(s, a, |s|);
    s[a..b]
  }

  lemma SliceThree(s: string, a: nat, b: nat)
    requires a <= b <= |s|
    ensures s == s[..a] + s[a..b] + s[b..]
  {
    assert s[a..] == s[a..b] + s[b..];
    assert s == s[..a] + s[a..];
  }

  /** The whitespace that `trim` removes on either side. */
  lemma TrimSplit(s: string) returns (p: string, q: string)
    ensures s == p + Trim(s) + q && AllWhitespace(p) && AllWhitespace(q)
  {
    var t := Trim(s);
    var a := SkipSpace(s, 0);
    p, q := s[..a], s[a + |t|..];
    SliceThree(s, a, a + |t|);
    assert forall i :: 0 <= i < |p| ==> p[i] == s[i];
    assert forall i :: 0 <= i < |q| ==> q[i] == s[a + |t| + i];
  }

  /** Whatever surrounds a trimmed text with whitespace, `trim` gives that text back. */
  lemma TrimUnique(p: string, r: string, q: string)
    requires AllWhitespace(p) && AllWhitespace(q) && Trimmed(r)
    ensures Trim(p + r + q) == r
  {
    var s := p + r + q;
    var n, m := |p|, |p| + |r|;
    assert forall i :: 0 <= i < n ==> s[i] == p[i];
    assert forall i :: n <= i < m ==> s[i] == r[i - n];
    assert forall i :: m <= i < |s| ==> s[i] == q[i - m];
    if r != [] {
      var t := Trim(s);
      var a := SkipSpace(s, 0);
      assert !IsJsWhitespace(s[n]) && !IsJsWhitespace(s[m - 1]);
      assert a == n;
      assert t != [];
      assert a + |t| == m;
      assert s[n..m] == r;
    }
  }

  // ---------------------------------------------------------------- digits

  predicate IsDigit(c: char)
  {
    '0' <= c <= '9'
  }

  predicate AllDigits(s: string)
  {
    forall i :: 0 <= i < |s| ==> IsDigit(s[i])
  }

  function DigitValue(c: char): nat
    requires IsDigit(c)
  {
    (c as int) - ('0' as int)
  }

  function DigitChar(d: nat): (c: char)
    requires d < 10
    ensures IsDigit(c) && DigitValue(c) == d
  {
    ('0' as int + d) as char
  }

  /** The value of a decimal numeral (`Number(s)` for a string of digits; `""` is 0). */
  function DecimalValue(s: string): nat
    requires AllDigits(s)
  {
    if s == [] then 0 else DecimalValue(s[..|s| - 1]) * 10 + DigitValue(s[|s| - 1])
  }

  lemma DecimalValueAppend(s: string, c: char)
    requires AllDigits(s) && IsDigit(c)
    ensures AllDigits(s + [c]) && DecimalValue(s + [c]) == DecimalValue(s) * 10 + DigitValue(c)
  {
    assert (s + [c])[..|s|] == s;
  }

  /** `String(n)` for a non-negative integer: digits without leading zeros. */
  function NatToDecimal(n: nat): (s: string)
    ensures s != [] && AllDigits(s)
    ensures s[0] == '0' ==> s == "0"
    ensures DecimalValue(s) == n
  {
    if n < 10 then [DigitChar(n)]
    else
      var p := NatToDecimal(n / 10);
      DecimalValueAppend(p, DigitChar(n % 10));
      p + [DigitChar(n % 10)]
  }

  /** `String(i)` for any integer: a minus sign before the magnitude when negative. */
  function IntToString(i: int): (s: string)
    ensures s != []
  {
    if i < 0 then "-" + NatToDecimal(-i) else NatToDecimal(i)
  }

  // ---------------------------------------------------------------- padStart, lastIndexOf

  /** A character beyond the Basic Multilingual Plane, which a JavaScript
      string holds as two UTF-16 code units. */
  predicate IsAstral(c: char)
  {
    c as int >= 0x1_0000
  }

  /** `s.length` in JavaScript: the number of UTF-16 code units. */
  function Utf16Length(s: string): nat
  {
    if s == [] then 0 else (if IsAstral(s[0]) then 2 else 1) + Utf16Length(s[1..])
  }

  /** `s.padStart(width, fill)`: `fill` repeated on the left until the text is `width`
      UTF-16 code units long, as JavaScript measures it. */
  function PadStart(s: string, width: nat, fill: char): (r: string)
    requires !IsAstral(fill)
    ensures Utf16Length(s) >= width ==> r == s
    ensures Utf16Length(s) < width ==> Utf16Length(r) == width
    ensures |r| - |s| == (if Utf16Length(s) >= width then 0 else width - Utf16Length(s))
    ensures r[|r| - |s|..] == s
    ensures forall i :: 0 <= i < |r| - |s| ==> r[i] == fill
    decreases width - Utf16Length(s)
  {
    if Utf16Length(s) >= width then s
    else
      assert ([fill] + s)[1..] == s;
      PadStart([fill] + s, width, fill)
  }

  /** Text without astral characters is as long in UTF-16 units as in characters. */
  lemma {:induction false} Utf16LengthPlain(s: string)
    requires forall i :: 0 <= i < |s| ==> !IsAstral(s[i])
    ensures Utf16Length(s) == |s|
  {
    if s != [] {
      Utf16LengthPlain(s[1..]);
    }
  }

  /** A single astral character already fills two units: `"😀".padStart(2, '0')`
      leaves it as it is. */
  lemma AstralNotPadded(c: char)
    requires IsAstral(c)
    ensures PadStart([c], 2, '0') == [c]
  {
    assert [c][1..] == [];
  }

  /** `s.lastIndexOf(c)`: the last position holding `c`, or -1. */
  function LastIndexOf(s: string, c: char): (r: int)
    ensures -1 <= r < |s|
    ensures r == -1 <==> c !in s
    ensures r >= 0 ==> s[r] == c && c !in s[r + 1..]
  {
    if s == [] then -1
    else if s[|s| - 1] == c then |s| - 1
    else
      var r := LastIndexOf(s[..|s| - 1], c);
      assert s == s[..|s| - 1] + [s[|s| - 1]];
      r
  }

  // ---------------------------------------------------------------- split, join

  /** `parts.join(sep)`. */
  function Join(parts: seq<string>, sep: char): string
    requires |parts| >= 1
  {
    if |parts| == 1 then parts[0]
    else Join(parts[..|parts| - 1], sep) + [sep] + parts[|parts| - 1]
  }

  /** `s.split(sep)`: the maximal runs between separators, `[""]` for `""`. */
  function Split(s: string, sep: char): (parts: seq<string>)
    ensures |parts| >= 1
  {
    if s == [] then [[]]
    else
      var init := Split(s[..|s| - 1], sep);
      var c := s[|s| - 1];
      if c == sep then init + [[]]
      else init[..|init| - 1] + [init[|init| - 1] + [c]]
  }

  /** The pieces hold no separator, joining them gives the text back, and there
      is more than one piece exactly when the separator occurs. */
  lemma {:induction false} SplitJoin(s: string, sep: char)
    ensures var parts := Split(s, sep);
            && (forall i :: 0 <= i < |parts| ==> sep !in parts[i])
            && Join(parts, sep) == s
            && (|parts| > 1 <==> sep in s)
  {
    if s != [] {
      var s', c := s[..|s| - 1], s[|s| - 1];
      assert s == s' + [c];
      SplitJoin(s', sep);
      SplitSnoc(s', c, sep);
      var init := Split(s', sep);
      var parts := Split(s, sep);
      if c == sep {
        assert parts[..|init|] == init;
      } else {
        var k := |init| - 1;
        assert parts[..k] == init[..k];
        if k > 0 {
          assert Join(parts, sep) == Join(init[..k], sep) + [sep] + (init[k] + [c]);
          assert Join(init, sep) == Join(init[..k], sep) + [sep] + init[k];
        }
        assert sep in s <==> sep in s';
      }
    }
  }

  /** The text before the first `c`, or all of `s` when there is none. */
  function Before(s: string, c: char): (r: string)
    ensures r <= s && c !in r
    ensures |r| < |s| ==> s[|r|] == c
  {
    if s == [] || s[0] == c then [] else [s[0]] + Before(s[1..], c)
  }

  /** The first piece of `split` is the text before the first separator, and
      the other pieces are those of the text after it. */
  lemma SplitFirst(s: string, sep: char)
    ensures Split(s, sep)[0] == Before(s, sep)
    ensures sep in s ==> |Before(s, sep)| < |s|
                         && Split(s, sep)[1..] == Split(s[|Before(s, sep)| + 1..], sep)
  {
    var a := Before(s, sep);
    hide *;
    if sep in s {
      var b := s[|a| + 1..];
      assert s == a + [sep] + b;
      SplitAround(a, b, sep);
      SplitNoSeparator(a, sep);
    } else {
      assert a == s;
      SplitNoSeparator(s, sep);
    }
  }

  /** With a separator in the text, the first two pieces of `split` are the
      text before the first separator and the text between it and the next. */
  lemma SplitTwoPieces(s: string, sep: char)
    requires sep in s
    ensures var parts, a := Split(s, sep), Before(s, sep);
            |parts| >= 2 && parts[0] == a && |a| < |s| && s[..|a| + 1] == a + [sep]
            && parts[1] == Before(s[|a| + 1..], sep)
  {
    var a := Before(s, sep);
    var rest := s[|a| + 1..];
    SplitFirst(s, sep);
    SplitFirst(rest, sep);
    BeforeSeparator(s, sep);
    hide *;
    var parts := Split(s, sep);
    assert |parts[1..]| >= 1;
    assert parts[1] == parts[1..][0];
  }

  /** The text up to and including the first separator. */
  lemma BeforeSeparator(s: string, sep: char)
    requires sep in s
    ensures var a := Before(s, sep);
            |a| < |s| && s[..|a| + 1] == a + [sep]
  {
    var a := Before(s, sep);
    assert s[..|a| + 1] == s[..|a|] + [s[|a|]];
  }

  /** A text without the separator splits into itself alone. */
  lemma SplitNoSeparator(s: string, sep: char)
    requires sep !in s
    ensures Split(s, sep) == [s]
  {
    SplitJoin(s, sep);
  }

  /** Splitting around one separator splits each side independently. */
  lemma {:induction false} SplitAround(a: string, b: string, sep: char)
    ensures Split(a + [sep] + b, sep) == Split(a, sep) + Split(b, sep)
    decreases |b|
  {
    if b == [] {
      SplitSnoc(a, sep, sep);
      assert a + [sep] + b == a + [sep];
    } else {
      var b', c := b[..|b| - 1], b[|b| - 1];
      assert b == b' + [c];
      SplitAround(a, b', sep);
      SplitAroundStep(a, b', c, sep);
    }
  }

  lemma {:induction false} SplitAroundStep(a: string, b: string, c: char, sep: char)
    requires Split(a + [sep] + b, sep) == Split(a, sep) + Split(b, sep)
    ensures Split(a + [sep] + (b + [c]), sep) == Split(a, sep) + Split(b + [c], sep)
  {
    var s' := a + [sep] + b;
    assert a + [sep] + (b + [c]) == s' + [c];
    SplitSnoc(s', c, sep);
    SplitSnoc(b, c, sep);
    if c == sep {
      var pa, pb := Split(a, sep), Split(b, sep);
      assert pa + pb + [[]] == pa + (pb + [[]]);
    } else {
      LastPieceExtends(Split(a, sep), Split(b, sep), c);
    }
  }

  lemma {:induction false} LastPieceExtends(pa: seq<string>, pb: seq<string>, c: char)
    requires |pb| >= 1
    ensures var init := pa + pb;
            init[..|init| - 1] + [init[|init| - 1] + [c]]
            == pa + (pb[..|pb| - 1] + [pb[|pb| - 1] + [c]])
  {
    var init := pa + pb;
    assert init[..|init| - 1] == pa + pb[..|pb| - 1];
  }

  /** How `split` extends when one character is appended. */
  lemma {:induction false} SplitSnoc(s: string, c: char, sep: char)
    ensures var p := Split(s, sep);
            Split(s + [c], sep) == if c == sep then p + [[]] else p[..|p| - 1] + [p[|p| - 1] + [c]]
  {
    assert (s + [c])[..|s|] == s;
  }
}
