/**
 * The browser client's amount parser, `parseAmountToCents`: a money amount
 * typed in either Spanish (`1.200,50`) or English (`1,200.50`) notation, with
 * any junk around it, becomes integer cents, or nothing when no number can be
 * read.
 */
module AmountCodec {
  import opened Wrappers
  import opened JsText

  // ---------------------------------------------------------------- text clean-up

  /** What `replace(/[^0-9,.-]/g, '')` keeps. */
  predicate IsAmountChar(c: char)
  {
    IsDigit(c) || c == ',' || c == '.' || c == '-'
  }

  predicate AllAmountChars(s: string)
  {
    forall i :: 0 <= i < |s| ==> IsAmountChar(s[i])
  }

  /** Every character that is not a digit, `,`, `.` or `-` removed, the rest in order. */
  function StripJunk(s: string): (r: string)
    ensures AllAmountChars(r) && |r| <= |s|
    ensures AllAmountChars(s) ==> r == s
    ensures |s| == 1 && !IsAmountChar(s[0]) ==> r == []
  {
    if s == [] then []
    else
      var rest := StripJunk(s[1..]);
      assert s == [s[0]] + s[1..];
      if IsAmountChar(s[0]) then [s[0]] + rest else rest
  }

  /** A character survives cleaning exactly when it occurs in the text and is
      a digit, `,`, `.` or `-`. */
  lemma {:induction false} StripJunkKeeps(s: string, c: char)
    ensures c in StripJunk(s) <==> c in s && IsAmountChar(c)
  {
    if s != [] {
      assert s == [s[0]] + s[1..];
      StripJunkKeeps(s[1..], c);
    }
  }

  lemma {:induction false} StripJunkAppend(a: string, b: string)
    ensures StripJunk(a + b) == StripJunk(a) + StripJunk(b)
  {
    if a != [] {
      var kept := if IsAmountChar(a[0]) then [a[0]] else [];
      assert (a + b)[0] == a[0] && (a + b)[1..] == a[1..] + b;
      StripJunkFirst(a);
      StripJunkFirst(a + b);
      StripJunkAppend(a[1..], b);
      hide *;
      assert StripJunk(a + b) == kept + (StripJunk(a[1..]) + StripJunk(b));
      assert kept + (StripJunk(a[1..]) + StripJunk(b)) == (kept + StripJunk(a[1..])) + StripJunk(b);
    } else {
      assert a + b == b;
    }
  }

  /** One step of the cleaning: the first character, kept or not, then the rest. */
  lemma StripJunkFirst(s: string)
    requires s != []
    ensures StripJunk(s) == (if IsAmountChar(s[0]) then [s[0]] else []) + StripJunk(s[1..])
  {
  }

  /** `replace(/x/g, '')` for the single character `x`. */
  function RemoveAll(s: string, x: char): (r: string)
    ensures |r| <= |s| && x !in r
  {
    if s == [] then []
    else
      var rest := RemoveAll(s[1..], x);
      assert s == [s[0]] + s[1..];
      if s[0] == x then rest else [s[0]] + rest
  }

  lemma {:induction false} RemoveAllAppend(a: string, b: string, x: char)
    ensures RemoveAll(a + b, x) == RemoveAll(a, x) + RemoveAll(b, x)
  {
    if a != [] {
      assert (a + b)[0] == a[0] && (a + b)[1..] == a[1..] + b;
      RemoveAllAppend(a[1..], b, x);
    } else {
      assert a + b == b;
    }
  }

  lemma {:induction false} RemoveAllAbsent(s: string, x: char)
    requires x !in s
    ensures RemoveAll(s, x) == s
  {
    if s != [] {
      assert s == [s[0]] + s[1..];
      RemoveAllAbsent(s[1..], x);
    }
  }

  /** `replace(x, y)` with a one-character string pattern: the first `x` only. */
  function ReplaceFirst(s: string, x: char, y: char): (r: string)
    ensures |r| == |s|
    ensures x !in s ==> r == s
  {
    if s == [] then []
    else if s[0] == x then [y] + s[1..]
    else
      assert s == [s[0]] + s[1..];
      [s[0]] + ReplaceFirst(s[1..], x, y)
  }

  lemma {:induction false} ReplaceFirstAt(p: string, q: string, x: char, y: char)
    requires x !in p
    ensures ReplaceFirst(p + [x] + q, x, y) == p + [y] + q
  {
    if p != [] {
      assert (p + [x] + q)[1..] == p[1..] + [x] + q;
      ReplaceFirstAt(p[1..], q, x, y);
    }
  }

  /**
   * Separator disambiguation: with both `,` and `.` present the one occurring
   * last is the decimal mark and every occurrence of the other is dropped; a
   * lone `,` kind has its first occurrence turned into `.`.
   */
  function NormalizeSeparators(cleaned: string): (r: string)
    ensures |r| <= |cleaned|
  {
    var hasComma := ',' in cleaned;
    var hasDot := '.' in cleaned;
    if hasComma && hasDot then
      if LastIndexOf(cleaned, ',') > LastIndexOf(cleaned, '.') then
        ReplaceFirst(RemoveAll(cleaned, '.'), ',', '.')
      else
        RemoveAll(cleaned, ',')
    else if hasComma then
      ReplaceFirst(cleaned, ',', '.')
    else
      cleaned
  }

  // ---------------------------------------------------------------- parseFloat

  /** A decimal number as written: sign, integer digits, fraction digits. */
  datatype Decimal = Decimal(negative: bool, whole: string, fraction: string)

  /** The digits that start `s`. */
  function LeadingDigits(s: string): (r: string)
    ensures AllDigits(r) && |r| <= |s| && r == s[..|r|]
    ensures |r| == |s| || !IsDigit(s[|r|])
  {
    if s != [] && IsDigit(s[0]) then [s[0]] + LeadingDigits(s[1..]) else []
  }

  /**
   * When `parseFloat` reads a number and not NaN: an optional `-`, then a digit,
   * or a `.` followed by a digit. (After clean-up no `+`, exponent, `Infinity`
   * or whitespace can occur.)
   */
  predicate StartsWithNumber(s: string)
  {
    StartsWithUnsigned(if s != [] && s[0] == '-' then s[1..] else s)
  }

  predicate StartsWithUnsigned(u: string)
  {
    (u != [] && IsDigit(u[0])) || (|u| >= 2 && u[0] == '.' && IsDigit(u[1]))
  }

  /** `Number.parseFloat` on a cleaned text: the longest decimal prefix. */
  function ParseFloatPrefix(s: string): (r: Option<Decimal>)
    ensures r.Some? <==> StartsWithNumber(s)
    ensures r.Some? ==> var d := r.value;
      AllDigits(d.whole) && AllDigits(d.fraction) && (d.whole != [] || d.fraction != [])
  {
    if s != [] && s[0] == '-' then ReadUnsigned(true, s[1..]) else ReadUnsigned(false, s)
  }

  /** The digits, then a point and the digits after it, that start `u`. */
  function ReadUnsigned(negative: bool, u: string): (r: Option<Decimal>)
    ensures r.Some? <==> StartsWithUnsigned(u)
    ensures r.Some? ==> var d := r.value;
      d.negative == negative && AllDigits(d.whole) && AllDigits(d.fraction)
      && (d.whole != [] || d.fraction != [])
  {
    var whole := LeadingDigits(u);
    var rest := u[|whole|..];
    var fraction := if rest != [] && rest[0] == '.' then LeadingDigits(rest[1..]) else [];
    if whole == [] && fraction == [] then None
    else
      Some(Decimal(negative, whole, fraction))
  }

  // ---------------------------------------------------------------- Math.round(x * 100)

  function Pow10(k: nat): (p: nat)
    ensures p >= 1
  {
    if k == 0 then 1 else 10 * Pow10(k - 1)
  }

  /** `Pow10(k)` is ten to the `k`: appending `k` digits multiplies a numeral's
      value by it before adding the value of those digits. */
  lemma {:induction false} DecimalValueConcat(a: string, b: string)
    requires AllDigits(a) && AllDigits(b)
    ensures AllDigits(a + b) && DecimalValue(a + b) == DecimalValue(a) * Pow10(|b|) + DecimalValue(b)
  {
    if b == [] {
      assert a + b == a;
    } else {
      var init, c := b[..|b| - 1], b[|b| - 1];
      DecimalValueConcat(a, init);
      DecimalValueAppend(a + init, c);
      DecimalValueAppend(init, c);
      assert Pow10(|init| + 1) == 10 * Pow10(|init|);
      hide *;
      assert b == init + [c];
      assert a + b == (a + init) + [c];
      ShiftDigit(DecimalValue(a), Pow10(|init|), DecimalValue(init), DigitValue(c));
    }
  }

  lemma ShiftDigit(x: int, p: int, y: int, d: int)
    ensures (x * p + y) * 10 + d == x * (10 * p) + (y * 10 + d)
  {
  }

  /** `Math.round(n / d)`: the nearest integer, a half rounded up (towards +∞). */
  function RoundHalfUp(n: int, d: int): (r: int)
    requires d > 0
    ensures 2 * d * r - d <= 2 * n < 2 * d * r + d
  {
    var q := (2 * n + d) / (2 * d);
    assert 2 * n + d == q * (2 * d) + (2 * n + d) % (2 * d);
    q
  }

  /** `Math.round(value * 100)` on the exact value of `d`. */
  function Cents(d: Decimal): int
    requires AllDigits(d.whole) && AllDigits(d.fraction)
  {
    var scale := Pow10(|d.fraction|);
    var scaled := (DecimalValue(d.whole) * scale + DecimalValue(d.fraction)) * 100;
    RoundHalfUp(if d.negative then -scaled else scaled, scale)
  }

  // ---------------------------------------------------------------- parseAmountToCents

  /** The steps after trimming: clean, disambiguate separators, read, round. */
  function ParseCleaned(cleaned: string): (r: Option<int>)
    ensures r.None? <==> !StartsWithNumber(NormalizeSeparators(cleaned))
  {
    if cleaned == [] then None
    else
      match ParseFloatPrefix(NormalizeSeparators(cleaned))
      case None => None
      case Some(d) => Some(Cents(d))
  }

  /**
   * `parseAmountToCents(value)`; `None` as input is `null`/`undefined`, as
   * output `null`.
   */
  function ParseAmountToCents(value: Option<string>): (r: Option<int>)
    ensures value.None? ==> r.None?
    ensures value.Some? && StripJunk(value.value) == [] ==> r.None?
    ensures value.Some? ==> r == ParseCleaned(StripJunk(value.value))
    ensures value.Some? ==> (r.None? <==> !StartsWithNumber(NormalizeSeparators(StripJunk(value.value))))
  {
    if value.None? then None
    else
      var trimmed := Trim(value.value);
      StripJunkOfTrim(value.value);
      if trimmed == [] then None
      else ParseCleaned(StripJunk(trimmed))
  }

  /** Whitespace is junk, so trimming first changes nothing that is kept. */
  lemma {:induction false} StripJunkOfTrim(s: string)
    ensures StripJunk(Trim(s)) == StripJunk(s)
    ensures Trim(s) == [] ==> StripJunk(s) == []
  {
    var p, q := TrimSplit(s);
    StripJunkAround(p, Trim(s), q);
  }

  lemma {:induction false} StripJunkAround(p: string, t: string, q: string)
    requires AllWhitespace(p) && AllWhitespace(q)
    ensures StripJunk(p + t + q) == StripJunk(t)
  {
    StripJunkAppend(p + t, q);
    StripJunkAppend(p, t);
    WhitespaceIsJunk(p);
    WhitespaceIsJunk(q);
  }

  lemma {:induction false} WhitespaceIsJunk(w: string)
    requires AllWhitespace(w)
    ensures StripJunk(w) == []
  {
    if w != [] {
      WhitespaceIsNotAmountChar(w[0]);
      assert w == [w[0]] + w[1..];
      WhitespaceIsJunk(w[1..]);
    }
  }

  lemma WhitespaceIsNotAmountChar(c: char)
    requires IsJsWhitespace(c)
    ensures !IsAmountChar(c)
  {
  }

  // ---------------------------------------------------------------- what the parser reads

  /** The digit groups written one after the other, separators dropped. */
  function Concat(groups: seq<string>): string
  {
    if groups == [] then [] else Concat(groups[..|groups| - 1]) + groups[|groups| - 1]
  }

  predicate DigitGroups(groups: seq<string>)
  {
    forall i :: 0 <= i < |groups| ==> AllDigits(groups[i])
  }

  /** The two notations: Spanish `.` thousands with `,` decimals, or English the other way round. */
  predicate SeparatorPair(thousands: char, mark: char)
  {
    (thousands == '.' && mark == ',') || (thousands == ',' && mark == '.')
  }

  function SignText(negative: bool): string
  {
    if negative then "-" else ""
  }

  /**
   * An amount written with a thousands separator `thousands` between digit
   * groups and the other separator `mark` before the fraction digits is read
   * as the groups' digits run together, point, fraction — in either notation,
   * and whatever the group lengths.
   */
  lemma GroupedAmount(negative: bool, groups: seq<string>, thousands: char, mark: char, fraction: string)
    requires SeparatorPair(thousands, mark)
    requires |groups| >= 1 && DigitGroups(groups) && AllDigits(fraction)
    requires Concat(groups) != [] || fraction != []
    ensures AllDigits(Concat(groups))
    ensures ParseAmountToCents(Some(SignText(negative) + Join(groups, thousands) + [mark] + fraction))
            == Some(Cents(Decimal(negative, Concat(groups), fraction)))
  {
    var sign := SignText(negative);
    var joined := Join(groups, thousands);
    var text := sign + joined + [mark] + fraction;
    var whole := Concat(groups);
    JoinedGroups(groups, thousands);
    DigitsAmountChars(fraction);
    AmountTextClean(sign, joined, mark, fraction);
    NormalizeGrouped(sign, groups, thousands, mark, fraction);
    ReadDecimal(negative, whole, fraction, []);
    assert sign + whole + ['.'] + fraction + [] == sign + whole + ['.'] + fraction;
    assert ParseAmountToCents(Some(text)) == ParseCleaned(text);
  }

  lemma AmountTextClean(sign: string, joined: string, mark: char, tail: string)
    requires AllAmountChars(sign) && IsAmountChar(mark) && AllAmountChars(tail)
    requires forall c :: c in joined ==> IsAmountChar(c)
    ensures AllAmountChars(sign + joined + [mark] + tail)
  {
    var text := sign + joined + [mark] + tail;
    forall i | 0 <= i < |text| ensures IsAmountChar(text[i]) {
      if i < |sign| { assert text[i] == sign[i]; }
      else if i < |sign| + |joined| { assert text[i] == joined[i - |sign|]; }
      else if i == |sign| + |joined| { assert text[i] == mark; }
      else { assert text[i] == tail[i - |sign| - |joined| - 1]; }
    }
  }

  /**
   * With commas only, the first comma is the decimal mark and reading stops at
   * the first character after the fraction digits that is not a digit — a
   * second comma, say.
   */
  lemma CommaOnly(negative: bool, whole: string, fraction: string, stop: string)
    requires AllDigits(whole) && AllDigits(fraction) && (whole != [] || fraction != [])
    requires AllAmountChars(stop) && '.' !in stop && (stop == [] || !IsDigit(stop[0]))
    ensures ParseAmountToCents(Some(SignText(negative) + whole + [','] + fraction + stop))
            == Some(Cents(Decimal(negative, whole, fraction)))
  {
    var sign := SignText(negative);
    var text := sign + whole + [','] + fraction + stop;
    var head := sign + whole;
    assert text == head + [','] + (fraction + stop);
    assert head + ['.'] + (fraction + stop) == sign + whole + ['.'] + fraction + stop;
    DigitsAmountChars(whole);
    DigitsAmountChars(fraction);
    AmountCharsAppend(fraction, stop);
    AmountTextClean(sign, whole, ',', fraction + stop);
    NormalizeFirstComma(head, fraction + stop);
    ReadDecimal(negative, whole, fraction, stop);
    assert ParseAmountToCents(Some(text)) == ParseCleaned(text);
  }

  /** Without any `.`, the first `,` becomes the point and later ones stay. */
  lemma NormalizeFirstComma(head: string, tail: string)
    requires ',' !in head && '.' !in head && '.' !in tail
    ensures NormalizeSeparators(head + [','] + tail) == head + ['.'] + tail
  {
    var text := head + [','] + tail;
    assert '.' !in text && ',' in text;
    ReplaceFirstAt(head, tail, ',', '.');
  }

  /**
   * A signed run of digits is that many whole euros, whatever follows from a
   * `-` on without a separator: `100-` is 100 euros and `2024-01` is 2024.
   */
  lemma WholeAmount(negative: bool, digits: string, stop: string)
    requires digits != [] && AllDigits(digits)
    requires stop == [] || stop[0] == '-'
    requires AllAmountChars(stop) && ',' !in stop && '.' !in stop
    ensures var euros := DecimalValue(digits) * 100;
            ParseAmountToCents(Some(SignText(negative) + digits + stop)) == Some(if negative then -euros else euros)
  {
    var text := SignText(negative) + digits + stop;
    WholeText(negative, digits, stop);
    ReadWhole(negative, digits, stop);
    assert ParseCleaned(text) == Some(Cents(Decimal(negative, digits, [])));
    CentsOfWhole(negative, digits);
    assert StripJunk(text) == text;
  }

  lemma CentsOfWhole(negative: bool, digits: string)
    requires AllDigits(digits)
    ensures var euros := DecimalValue(digits) * 100;
            Cents(Decimal(negative, digits, [])) == if negative then -euros else euros
  {
    var euros := DecimalValue(digits) * 100;
    assert Pow10(0) == 1 && DecimalValue([]) == 0;
    assert (DecimalValue(digits) * 1 + 0) * 100 == 1 * euros;
    RoundExact(if negative then -euros else euros, 1);
  }

  lemma WholeText(negative: bool, digits: string, stop: string)
    requires AllDigits(digits) && AllAmountChars(stop) && ',' !in stop && '.' !in stop
    ensures AllAmountChars(SignText(negative) + digits + stop)
    ensures NormalizeSeparators(SignText(negative) + digits + stop) == SignText(negative) + digits + stop
  {
    var sign := SignText(negative);
    DigitsAmountChars(digits);
    AmountCharsAppend(sign, digits);
    AmountCharsAppend(sign + digits, stop);
    assert ',' !in sign + digits + stop && '.' !in sign + digits + stop;
  }

  /** `parseFloat` reads a signed run of digits as a whole number and stops at
      the first character that is neither a digit nor a point. */
  lemma ReadWhole(negative: bool, digits: string, stop: string)
    requires digits != [] && AllDigits(digits)
    requires stop == [] || (!IsDigit(stop[0]) && stop[0] != '.')
    ensures ParseFloatPrefix(SignText(negative) + digits + stop) == Some(Decimal(negative, digits, []))
  {
    var text := SignText(negative) + digits + stop;
    if negative {
      assert text[0] == '-' && text[1..] == digits + stop;
    } else {
      assert text == digits + stop && text[0] == digits[0] && text[0] != '-';
    }
    LeadingDigitsOf(digits, stop);
    assert (digits + stop)[|digits|..] == stop;
  }

  /** An amount written `u,tt` in Spanish notation, as the validator's examples use. */
  lemma UnitsAndCents(u: char, t0: char, t1: char)
    requires IsDigit(u) && IsDigit(t0) && IsDigit(t1)
    ensures ParseAmountToCents(Some([u, ',', t0, t1])).Some?
    ensures ParseAmountToCents(Some([u, ',', t0, t1])).value
            == DigitValue(u) * 100 + DigitValue(t0) * 10 + DigitValue(t1)
  {
    var whole, fraction := [u], [t0, t1];
    assert AllDigits(whole) && AllDigits(fraction);
    assert SignText(false) + whole + [','] + fraction + [] == [u, ',', t0, t1];
    CommaOnly(false, whole, fraction, []);
    DecimalValueAppend([], u);
    assert [] + [u] == whole;
    DecimalDigits2(t0, t1);
    CentsOfTwoDigits(whole, fraction);
  }

  lemma CentsOfTwoDigits(whole: string, fraction: string)
    requires AllDigits(whole) && AllDigits(fraction) && |fraction| == 2
    ensures Cents(Decimal(false, whole, fraction)) == DecimalValue(whole) * 100 + DecimalValue(fraction)
  {
    var v := DecimalValue(whole) * 100 + DecimalValue(fraction);
    assert Pow10(2) == 100;
    assert (DecimalValue(whole) * 100 + DecimalValue(fraction)) * 100 == 100 * v;
    RoundExact(v, 100);
  }

  lemma AmountCharsAppend(a: string, b: string)
    requires AllAmountChars(a) && AllAmountChars(b)
    ensures AllAmountChars(a + b)
  {
    forall i | 0 <= i < |a + b| ensures IsAmountChar((a + b)[i]) {
      if i < |a| { assert (a + b)[i] == a[i]; } else { assert (a + b)[i] == b[i - |a|]; }
    }
  }

  lemma DigitsAmountChars(s: string)
    requires AllDigits(s)
    ensures AllAmountChars(s) && forall c :: c in s ==> IsAmountChar(c) && c != '.' && c != ','
  {
  }

  /** Joining digit groups: the only separators are the joints, and dropping them gives `Concat`. */
  lemma {:induction false} JoinedGroups(groups: seq<string>, sep: char)
    requires |groups| >= 1 && DigitGroups(groups) && !IsDigit(sep)
    ensures AllDigits(Concat(groups))
    ensures forall c :: c in Join(groups, sep) ==> IsDigit(c) || c == sep
    ensures sep in Join(groups, sep) <==> |groups| > 1
    ensures RemoveAll(Join(groups, sep), sep) == Concat(groups)
  {
    var n := |groups|;
    var last := groups[n - 1];
    assert AllDigits(last);
    assert sep !in last;
    if n == 1 {
      assert Concat(groups) == Concat([]) + last;
      RemoveAllAbsent(last, sep);
    } else {
      var init := groups[..n - 1];
      assert DigitGroups(init) by {
        forall i | 0 <= i < |init| ensures AllDigits(init[i]) { assert init[i] == groups[i]; }
      }
      JoinedGroups(init, sep);
      assert Join(groups, sep) == Join(init, sep) + [sep] + last;
      assert Concat(groups) == Concat(init) + last;
      DigitsAppend(Concat(init), last);
      RemoveJoint(Join(init, sep), last, sep);
    }
  }

  lemma DigitsAppend(a: string, b: string)
    requires AllDigits(a) && AllDigits(b)
    ensures AllDigits(a + b)
  {
    forall i | 0 <= i < |a + b| ensures IsDigit((a + b)[i]) {
      if i < |a| { assert (a + b)[i] == a[i]; } else { assert (a + b)[i] == b[i - |a|]; }
    }
  }

  lemma RemoveJoint(j: string, last: string, sep: char)
    requires sep !in last
    ensures RemoveAll(j + [sep] + last, sep) == RemoveAll(j, sep) + last
  {
    assert RemoveAll([sep], sep) == [];
    RemoveAllAppend(j + [sep], last, sep);
    RemoveAllAppend(j, [sep], sep);
    RemoveAllAbsent(last, sep);
    hide *;
    assert RemoveAll(j, sep) + [] == RemoveAll(j, sep);
  }

  /** The separator step on a grouped amount leaves sign, digits, point, fraction. */
  lemma NormalizeGrouped(sign: string, groups: seq<string>, thousands: char, mark: char, fraction: string)
    requires SeparatorPair(thousands, mark)
    requires sign == SignText(false) || sign == SignText(true)
    requires |groups| >= 1 && DigitGroups(groups) && AllDigits(fraction)
    ensures NormalizeSeparators(sign + Join(groups, thousands) + [mark] + fraction)
            == sign + Concat(groups) + ['.'] + fraction
  {
    var joined := Join(groups, thousands);
    JoinedGroups(groups, thousands);
    assert mark !in sign + joined;
    assert mark !in fraction && thousands !in fraction;
    NormalizeMarkLast(sign + joined, thousands, mark, fraction);
    assert thousands !in sign;
    RemoveAllInside(sign, joined, [], thousands);
    assert sign + joined + [] == sign + joined;
    assert sign + Concat(groups) + [] == sign + Concat(groups);
  }

  /**
   * When the last separator is `mark` and only the other kind `thousands`
   * comes before it, the thousands separators vanish and `mark` becomes the point.
   */
  lemma NormalizeMarkLast(head: string, thousands: char, mark: char, fraction: string)
    requires SeparatorPair(thousands, mark)
    requires mark !in head && mark !in fraction && thousands !in fraction
    ensures NormalizeSeparators(head + [mark] + fraction) == RemoveAll(head, thousands) + ['.'] + fraction
  {
    if mark == ',' {
      MarkIsLast(head, '.', ',', fraction);
      CommaLast(head, fraction);
      RemoveAllAbsent(fraction, '.');
    } else {
      DotLast(head, fraction);
    }
  }

  /**
   * When the last separator is a comma, every `.` is dropped and the FIRST
   * comma becomes the point, since `replace(',', '.')` has no `g` flag; any
   * later comma stays (`1,5.000,3` becomes `1.5000,3`).
   */
  lemma CommaLast(head: string, tail: string)
    requires ',' !in head
    requires LastIndexOf(head + [','] + tail, ',') > LastIndexOf(head + [','] + tail, '.')
    ensures NormalizeSeparators(head + [','] + tail) == RemoveAll(head, '.') + ['.'] + RemoveAll(tail, '.')
  {
    var text := head + [','] + tail;
    assert text[|head|] == ',';
    if '.' in text {
      RemoveAllAppend(head + [','], tail, '.');
      RemoveAllAppend(head, [','], '.');
      assert RemoveAll([','], '.') == [','];
      RemoveAllKeepsOut(head, '.', ',');
      ReplaceFirstAt(RemoveAll(head, '.'), RemoveAll(tail, '.'), ',', '.');
    } else {
      assert '.' !in head && '.' !in tail;
      RemoveAllAbsent(head, '.');
      RemoveAllAbsent(tail, '.');
      ReplaceFirstAt(head, tail, ',', '.');
    }
  }

  lemma {:induction false} RemoveAllKeepsOut(s: string, x: char, c: char)
    requires c !in s
    ensures c !in RemoveAll(s, x)
  {
    if s != [] {
      assert s == [s[0]] + s[1..];
      RemoveAllKeepsOut(s[1..], x, c);
    }
  }

  /** When the last separator is a `.`, every `,` is dropped and every `.` stays. */
  lemma DotLast(head: string, tail: string)
    requires ',' !in tail && '.' !in tail
    ensures NormalizeSeparators(head + ['.'] + tail) == RemoveAll(head, ',') + ['.'] + tail
  {
    var text := head + ['.'] + tail;
    var k := |head|;
    assert text[k] == '.' && text[k + 1..] == tail;
    assert text == head + (['.'] + tail);
    assert RemoveAll(head, ',') + ['.'] + tail == RemoveAll(head, ',') + (['.'] + tail);
    RemoveAllBefore(head, ['.'] + tail, ',');
    if ',' in text {
      LastIndexOfAt(text, '.', k);
      assert ',' !in text[k..] by { assert text[k..] == ['.'] + tail; }
      LastIndexOfBefore(text, ',', k);
    } else {
      assert ',' !in head;
      RemoveAllAbsent(head, ',');
    }
  }

  /** Removing `x` from a text where it occurs only in the first part. */
  lemma RemoveAllBefore(p: string, q: string, x: char)
    requires x !in q
    ensures RemoveAll(p + q, x) == RemoveAll(p, x) + q
  {
    RemoveAllAppend(p, q, x);
    RemoveAllAbsent(q, x);
  }

  /** Where the two `lastIndexOf` calls land on such a text. */
  lemma MarkIsLast(head: string, thousands: char, mark: char, fraction: string)
    requires thousands != mark
    requires mark !in head && mark !in fraction && thousands !in fraction
    ensures var text := head + [mark] + fraction;
            && mark in text
            && (thousands in text <==> thousands in head)
            && LastIndexOf(text, thousands) < LastIndexOf(text, mark)
  {
    var text := head + [mark] + fraction;
    var k := |head|;
    assert text[k] == mark;
    assert text[k + 1..] == fraction;
    LastIndexOfAt(text, mark, k);
    assert thousands !in text[k..] by { assert text[k..] == [mark] + fraction; }
    LastIndexOfBefore(text, thousands, k);
    assert text == head + ([mark] + fraction);
  }

  /** Removing `x` from a text where it occurs only in the middle part. */
  lemma RemoveAllInside(p: string, m: string, q: string, x: char)
    requires x !in p && x !in q
    ensures RemoveAll(p + m + q, x) == p + RemoveAll(m, x) + q
  {
    RemoveAllAppend(p + m, q, x);
    RemoveAllAppend(p, m, x);
    RemoveAllAbsent(p, x);
    RemoveAllAbsent(q, x);
  }

  /** `lastIndexOf` finds `c` at `k` when no `c` follows it. */
  lemma LastIndexOfAt(s: string, c: char, k: int)
    requires 0 <= k < |s| && s[k] == c && c !in s[k + 1..]
    ensures LastIndexOf(s, c) == k
  {
    var r := LastIndexOf(s, c);
    assert r >= k by {
      assert forall j :: r < j < |s| ==> s[j] != c by {
        forall j | r < j < |s| ensures s[j] != c { assert s[r + 1..][j - r - 1] == s[j]; }
      }
    }
    assert r <= k by {
      assert forall j :: k < j < |s| ==> s[j] != c by {
        forall j | k < j < |s| ensures s[j] != c { assert s[k + 1..][j - k - 1] == s[j]; }
      }
    }
  }

  /** `lastIndexOf` is before `k` when `c` does not occur from `k` on. */
  lemma LastIndexOfBefore(s: string, c: char, k: int)
    requires 0 <= k <= |s| && c !in s[k..]
    ensures LastIndexOf(s, c) < k
  {
    var r := LastIndexOf(s, c);
    assert forall j :: k <= j < |s| ==> s[j] != c by {
      forall j | k <= j < |s| ensures s[j] != c { assert s[k..][j - k] == s[j]; }
    }
  }

  /**
   * `parseFloat` reads sign, whole digits, point and fraction digits back as
   * written, and stops at the first character after them that is not a digit.
   */
  lemma ReadDecimal(negative: bool, whole: string, fraction: string, stop: string)
    requires AllDigits(whole) && AllDigits(fraction) && (whole != [] || fraction != [])
    requires stop == [] || !IsDigit(stop[0])
    ensures ParseFloatPrefix(SignText(negative) + whole + ['.'] + fraction + stop)
            == Some(Decimal(negative, whole, fraction))
  {
    var s := SignText(negative) + whole + ['.'] + fraction + stop;
    var unsigned := whole + ['.'] + fraction + stop;
    if negative {
      assert s[0] == '-' && s[1..] == unsigned;
    } else {
      assert s == unsigned;
      assert s[0] != '-' by { if whole != [] { assert s[0] == whole[0]; } }
    }
    ReadUnsignedDecimal(negative, whole, fraction, stop);
  }

  lemma ReadUnsignedDecimal(negative: bool, whole: string, fraction: string, stop: string)
    requires AllDigits(whole) && AllDigits(fraction) && (whole != [] || fraction != [])
    requires stop == [] || !IsDigit(stop[0])
    ensures ReadUnsigned(negative, whole + ['.'] + fraction + stop) == Some(Decimal(negative, whole, fraction))
  {
    var tail := ['.'] + (fraction + stop);
    var unsigned := whole + tail;
    assert unsigned == whole + ['.'] + fraction + stop;
    LeadingDigitsOf(whole, tail);
    assert unsigned[|whole|..] == tail;
    assert tail[1..] == fraction + stop;
    LeadingDigitsOf(fraction, stop);
  }

  lemma {:induction false} LeadingDigitsOf(digits: string, rest: string)
    requires AllDigits(digits) && (rest == [] || !IsDigit(rest[0]))
    ensures LeadingDigits(digits + rest) == digits
  {
    if digits != [] {
      assert (digits + rest)[0] == digits[0];
      assert (digits + rest)[1..] == digits[1..] + rest;
      LeadingDigitsOf(digits[1..], rest);
    } else {
      assert digits + rest == rest;
    }
  }

  /** With at most two fraction digits the amount is a whole number of cents: no rounding. */
  lemma CentsExact(negative: bool, whole: string, fraction: string)
    requires AllDigits(whole) && AllDigits(fraction) && |fraction| <= 2
    ensures var magnitude := DecimalValue(whole) * 100 + DecimalValue(fraction) * Pow10(2 - |fraction|);
            Cents(Decimal(negative, whole, fraction)) == if negative then -magnitude else magnitude
  {
    var scale := Pow10(|fraction|);
    var whole', fraction' := DecimalValue(whole), DecimalValue(fraction);
    var magnitude := whole' * 100 + fraction' * Pow10(2 - |fraction|);
    if |fraction| == 0 {
      assert scale == 1 && magnitude == whole' * 100 + fraction' * 100;
      assert (whole' * 1 + fraction') * 100 == 1 * (whole' * 100 + fraction' * 100);
    } else if |fraction| == 1 {
      assert scale == 10 && magnitude == whole' * 100 + fraction' * 10;
      assert (whole' * 10 + fraction') * 100 == 10 * (whole' * 100 + fraction' * 10);
    } else {
      assert scale == 100 && magnitude == whole' * 100 + fraction';
      assert (whole' * 100 + fraction') * 100 == 100 * (whole' * 100 + fraction');
    }
    RoundExact(if negative then -magnitude else magnitude, scale);
  }

  /** `Math.round` of an integer is that integer. */
  lemma RoundExact(x: int, d: int)
    requires d > 0
    ensures RoundHalfUp(d * x, d) == x
  {
    var k := RoundHalfUp(d * x, d) - x;
    assert -d < 2 * d * k <= d;
  }

  // ---------------------------------------------------------------- worked examples

  /** Spanish notation: `.` groups thousands, `,` marks the decimals. */
  lemma SpanishNotation()
    ensures ParseAmountToCents(Some("1.200,50")) == Some(120050)
  {
    ThousandFifty();
    assert SignText(false) + Join(["1", "200"], '.') + [','] + "50" == "1.200,50";
    GroupedAmount(false, ["1", "200"], '.', ',', "50");
  }

  /** English notation reads the same amount. */
  lemma EnglishNotation()
    ensures ParseAmountToCents(Some("1,200.50")) == Some(120050)
  {
    ThousandFifty();
    assert SignText(false) + Join(["1", "200"], ',') + ['.'] + "50" == "1,200.50";
    GroupedAmount(false, ["1", "200"], ',', '.', "50");
  }

  /** The pieces of the amount 1200.50 shared by both notations. */
  lemma ThousandFifty()
    ensures Join(["1", "200"], '.') == "1.200" && Join(["1", "200"], ',') == "1,200"
    ensures DigitGroups(["1", "200"]) && Concat(["1", "200"]) == "1200"
    ensures AllDigits("1200") && AllDigits("50")
    ensures Cents(Decimal(false, "1200", "50")) == 120050
  {
    var groups := ["1", "200"];
    assert groups[..1] == ["1"];
    assert Concat(groups) == Concat(["1"]) + "200";
    assert ["1"][..0] == [];
    assert Concat(["1"]) == Concat([]) + "1";
    DecimalDigits4('1', '2', '0', '0');
    DecimalDigits2('5', '0');
    CentsExact(false, "1200", "50");
  }

  lemma DecimalDigits2(c0: char, c1: char)
    requires IsDigit(c0) && IsDigit(c1)
    ensures AllDigits([c0, c1])
    ensures DecimalValue([c0, c1]) == DigitValue(c0) * 10 + DigitValue(c1)
  {
    DecimalValueAppend([c0], c1);
    DecimalValueAppend([], c0);
    assert [] + [c0] == [c0];
  }

  lemma DecimalDigits4(c0: char, c1: char, c2: char, c3: char)
    requires IsDigit(c0) && IsDigit(c1) && IsDigit(c2) && IsDigit(c3)
    ensures AllDigits([c0, c1, c2, c3])
    ensures DecimalValue([c0, c1, c2, c3])
            == DigitValue(c0) * 1000 + DigitValue(c1) * 100 + DigitValue(c2) * 10 + DigitValue(c3)
  {
    DecimalDigits2(c0, c1);
    DecimalValueAppend([c0, c1], c2);
    assert [c0, c1] + [c2] == [c0, c1, c2];
    DecimalValueAppend([c0, c1, c2], c3);
    assert [c0, c1, c2] + [c3] == [c0, c1, c2, c3];
  }

  /** Currency signs and spaces are dropped before reading. */
  lemma CurrencySymbolIgnored()
    ensures ParseAmountToCents(Some("\U{20AC} 12,34")) == Some(1234)
  {
    EuroJunk();
    TwelveThirtyFour();
    assert ParseCleaned("12,34") == ParseAmountToCents(Some("12,34"));
  }

  lemma EuroJunk()
    ensures StripJunk("\U{20AC} 12,34") == "12,34"
  {
    assert "\U{20AC} 12,34" == "\U{20AC} " + "12,34";
    StripJunkAppend("\U{20AC} ", "12,34");
    EuroSpaceJunk();
    TwelveThirtyFourPieces();
  }

  lemma EuroSpaceJunk()
    ensures StripJunk("\U{20AC} ") == []
  {
    assert "\U{20AC} "[1..] == " " && " "[1..] == [];
  }

  lemma TwelveThirtyFour()
    ensures ParseAmountToCents(Some("12,34")) == Some(1234)
  {
    TwelveThirtyFourPieces();
    GroupedAmount(false, ["12"], '.', ',', "34");
  }

  lemma TwelveThirtyFourPieces()
    ensures AllAmountChars("12,34")
    ensures SignText(false) + Join(["12"], '.') + [','] + "34" == "12,34"
    ensures DigitGroups(["12"]) && Concat(["12"]) == "12" && AllDigits("34")
    ensures Cents(Decimal(false, "12", "34")) == 1234
  {
    DecimalDigits2('1', '2');
    DecimalDigits2('3', '4');
    assert Concat(["12"]) == Concat([]) + "12";
    CentsExact(false, "12", "34");
  }

  /** A lone separator is always the decimal mark, so `1.200` is one euro twenty. */
  lemma LoneSeparatorIsDecimalMark()
    ensures ParseAmountToCents(Some("1.200")) == Some(120)
  {
    assert Join(["1"], ',') == "1" && Concat(["1"]) == Concat([]) + "1";
    assert SignText(false) + Join(["1"], ',') + ['.'] + "200" == "1.200";
    GroupedAmount(false, ["1"], ',', '.', "200");
    OnePointTwoHundred();
  }

  lemma OnePointTwoHundred()
    ensures AllDigits("1") && AllDigits("200") && Cents(Decimal(false, "1", "200")) == 120
  {
    DecimalDigits2('2', '0');
    DecimalValueAppend("20", '0');
    assert "20" + ['0'] == "200";
    assert DecimalValue("1") == 1 by { DecimalValueAppend([], '1'); assert [] + ['1'] == "1"; }
    assert Pow10(3) == 1000;
    RoundExact(120, 1000);
  }

  /** With commas only, a second comma ends the number: `1,2,3` is 1.20. */
  lemma RepeatedComma()
    ensures ParseAmountToCents(Some("1,2,3")) == Some(120)
  {
    OneTwoPieces();
    CommaOnly(false, "1", "2", ",3");
  }

  lemma OneTwoPieces()
    ensures AllDigits("1") && AllDigits("2") && AllAmountChars(",3")
    ensures SignText(false) + "1" + [','] + "2" + ",3" == "1,2,3"
    ensures Cents(Decimal(false, "1", "2")) == 120
  {
    DecimalValueAppend([], '1');
    DecimalValueAppend([], '2');
    assert [] + ['1'] == "1" && [] + ['2'] == "2";
    CentsExact(false, "1", "2");
  }

  /** With both separators and a comma last, the first comma is still the one
      made the point: `1,5.000,3` reads as 1.5000, that is 150 cents. */
  lemma FirstCommaWins()
    ensures ParseAmountToCents(Some("1,5.000,3")) == Some(150)
  {
    var text := "1,5.000,3";
    FirstCommaPieces();
    hide ParseAmountToCents, NormalizeSeparators, ParseFloatPrefix, Cents, LastIndexOf, RemoveAll;
    LastIndexOfAt(text, ',', 7);
    LastIndexOfBefore(text, '.', 7);
    CommaLast("1", "5.000,3");
    RemoveAllAbsent("1", '.');
    FivePointThousand();
    ReadOnePointFiveThousand();
    OnePointFiveThousand();
  }

  lemma FirstCommaPieces()
    ensures "1,5.000,3" == "1" + [','] + "5.000,3" && AllAmountChars("1,5.000,3")
    ensures "1,5.000,3"[7] == ',' && ',' !in "1,5.000,3"[8..] && '.' !in "1,5.000,3"[7..]
    ensures "1" + ['.'] + "5000,3" == "1.5000,3"
  {
  }

  lemma ReadOnePointFiveThousand()
    ensures ParseFloatPrefix("1.5000,3") == Some(Decimal(false, "1", "5000"))
  {
    assert SignText(false) + "1" + ['.'] + "5000" + ",3" == "1.5000,3";
    assert AllDigits("1") && AllDigits("5000");
    hide ParseFloatPrefix;
    ReadDecimal(false, "1", "5000", ",3");
  }

  lemma FivePointThousand()
    ensures RemoveAll("5.000,3", '.') == "5000,3"
  {
    assert "5.000,3" == "5" + ['.'] + "000,3";
    RemoveAllInside("5", ['.'], "000,3", '.');
    assert RemoveAll(['.'], '.') == [];
  }

  lemma OnePointFiveThousand()
    ensures AllDigits("1") && AllDigits("5000") && Cents(Decimal(false, "1", "5000")) == 150
  {
    DecimalDigits4('5', '0', '0', '0');
    assert DecimalValue("1") == 1 by { DecimalValueAppend([], '1'); assert [] + ['1'] == "1"; }
    assert Pow10(4) == 10000;
  }

  /** With points only, the last one is the decimal mark and `parseFloat` stops
      at the one after it: `1.200.000` reads as 1.2, that is 120 cents. */
  lemma SecondPointEndsNumber()
    ensures ParseAmountToCents(Some("1.200.000")) == Some(120)
  {
    var text := "1.200.000";
    SecondPointPieces();
    ReadOnePointTwoHundred();
    OnePointTwoHundred();
    hide ParseAmountToCents, ParseFloatPrefix, Cents, LastIndexOf, RemoveAll;
    DotLast("1.200", "000");
    RemoveAllAbsent("1.200", ',');
  }

  lemma SecondPointPieces()
    ensures "1.200.000" == "1.200" + ['.'] + "000" && AllAmountChars("1.200.000")
    ensures ',' !in "1.200" && ',' !in "000" && '.' !in "000"
  {
  }

  lemma ReadOnePointTwoHundred()
    ensures ParseFloatPrefix("1.200.000") == Some(Decimal(false, "1", "200"))
  {
    assert SignText(false) + "1" + ['.'] + "200" + ".000" == "1.200.000";
    assert AllDigits("1") && AllDigits("200");
    hide ParseFloatPrefix;
    ReadDecimal(false, "1", "200", ".000");
  }

  /** A trailing minus, as in accounting notation, is not read: `100-` is 100 euros. */
  lemma TrailingMinus()
    ensures ParseAmountToCents(Some("100-")) == Some(10000)
  {
    DecimalDigits2('1', '0');
    DecimalValueAppend("10", '0');
    assert "10" + ['0'] == "100";
    assert DecimalValue("100") == 100;
    assert SignText(false) + "100" + "-" == "100-";
    WholeAmount(false, "100", "-");
    hide *;
  }

  /** Texts without a readable number give `null`. */
  lemma Unreadable()
    ensures ParseAmountToCents(None) == None
    ensures ParseAmountToCents(Some("")) == None
    ensures ParseAmountToCents(Some("   ")) == None
    ensures ParseAmountToCents(Some("abc")) == None
  {
    WhitespaceIsJunk("   ");
    assert StripJunk("abc") == [] by {
      assert "abc"[1..] == "bc";
      assert "bc"[1..] == "c";
      assert "c"[1..] == [];
    }
  }

  /** A minus sign alone is not a number. */
  lemma LoneMinus()
    ensures ParseAmountToCents(Some("-")) == None
  {
    assert AllAmountChars("-");
    assert NormalizeSeparators("-") == "-";
  }

  /** Only one minus sign is read. */
  lemma DoubleMinus()
    ensures ParseAmountToCents(Some("--1")) == None
  {
    assert AllAmountChars("--1");
    assert NormalizeSeparators("--1") == "--1";
    assert "--1"[1..] == "-1";
  }
}
