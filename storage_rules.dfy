/**
 * The server's rules for where an uploaded invoice is stored and how the
 * uploads are listed and deleted, with the file system taken as values:
 * the sanitised file name, the year/month bucket chosen from the client's
 * date, the EXIF date or the current date, the `_1`, `_2`, … suffixes that
 * avoid overwriting a file, the `/list` tree and the `/delete` guard.
 */
module StorageRules {
  import opened Wrappers
  import opened JsText
  import opened InvoiceMeta

  // ---------------------------------------------------------------- sanitising names

  /** The class `[a-zA-Z0-9._-]` that the sanitiser keeps. */
  predicate IsSafeChar(c: char)
  {
    IsAsciiAlnum(c) || c == '.' || c == '_' || c == '-'
  }

  predicate AllSafe(s: string)
  {
    forall i :: 0 <= i < |s| ==> IsSafeChar(s[i])
  }

  /** What the replacement puts in place of one character: the character when
      it is safe, otherwise one `_` per UTF-16 code unit (the pattern has no
      `u` flag, so it matches code units, not code points). */
  function SanitizeChar(c: char): (r: string)
    ensures AllSafe(r)
  {
    if IsSafeChar(c) then [c] else if IsAstral(c) then "__" else "_"
  }

  lemma SafeAppend(a: string, b: string)
    requires AllSafe(a) && AllSafe(b)
    ensures AllSafe(a + b)
  {
    forall i | 0 <= i < |a + b| ensures IsSafeChar((a + b)[i]) {
      if i >= |a| {
        assert (a + b)[i] == b[i - |a|];
      }
    }
  }

  /** `originalname.replace(/[^a-zA-Z0-9._-]/g, '_')`. */
  function Sanitize(s: string): (r: string)
    ensures |r| == Utf16Length(s)
    ensures AllSafe(r)
    ensures AllSafe(s) ==> r == s
  {
    if s == [] then []
    else
      var head, tail := SanitizeChar(s[0]), Sanitize(s[1..]);
      SafeAppend(head, tail);
      assert AllSafe(s) ==> AllSafe(s[1..]) && head == [s[0]] && [s[0]] + s[1..] == s;
      head + tail
  }

  /** Sanitising a sanitised name changes nothing. */
  lemma SanitizeIdempotent(s: string)
    ensures Sanitize(Sanitize(s)) == Sanitize(s)
  {
  }

  /** The replacement works character by character. */
  lemma {:induction false} SanitizeAppend(a: string, b: string)
    ensures Sanitize(a + b) == Sanitize(a) + Sanitize(b)
    decreases |a|
  {
    if a != [] {
      var t := a[1..] + b;
      assert (a + b)[0] == a[0] && (a + b)[1..] == t;
      assert Sanitize(a + b) == SanitizeChar(a[0]) + Sanitize(t);
      SanitizeAppend(a[1..], b);
      assert Sanitize(a) == SanitizeChar(a[0]) + Sanitize(a[1..]);
    } else {
      assert a + b == b;
    }
  }

  /** On a name without astral characters the result has the same length,
      keeps each safe character where it was and has `_` everywhere else. */
  lemma {:induction false} SanitizeInPlace(s: string)
    requires forall i :: 0 <= i < |s| ==> !IsAstral(s[i])
    ensures |Sanitize(s)| == |s|
    ensures forall i :: 0 <= i < |s| ==> Sanitize(s)[i] == if IsSafeChar(s[i]) then s[i] else '_'
  {
    if s != [] {
      SanitizeInPlace(s[1..]);
      var r := Sanitize(s);
      assert r == SanitizeChar(s[0]) + Sanitize(s[1..]);
      forall i | 1 <= i < |s|
        ensures r[i] == if IsSafeChar(s[i]) then s[i] else '_'
      {
        assert s[1..][i - 1] == s[i];
      }
    }
  }

  // ---------------------------------------------------------------- dates

  /** A zero-based month, as `getMonth` returns it. */
  type MonthIndex = m: int | 0 <= m < 12

  /** A JavaScript `Date` as the server reads it back: the local full year and
      month of a valid date, or the invalid date (time value NaN). */
  datatype JsDate = Valid(year: int, month: MonthIndex) | InvalidDate

  /**
   * A time value must lie within 8.64e15 ms, 100,000,000 days, of 1970-01-01
   * (ECMAScript, section "Time Values and Time Range"): from -271821-04-20
   * to +275760-09-13. The first day of a month lies in that range exactly
   * when the month is May -271821 or later and September 275760 or earlier,
   * whatever the local time zone.
   */
  predicate InTimeRange(year: int, month: MonthIndex)
  {
    (year > -271821 || (year == -271821 && month >= 4))
    && (year < 275760 || (year == 275760 && month <= 8))
  }

  /** A year from 0 to 99 passed to the `Date` constructor means 1900 to 1999. */
  function MakeFullYear(year: nat): int
  {
    if year <= 99 then 1900 + year else year
  }

  /** `new Date(year, monthIndex, 1)`: months beyond December or before
      January carry into the year. */
  function NewDate(year: nat, monthIndex: int): (d: JsDate)
    ensures d.InvalidDate? <==> !InTimeRange(MakeFullYear(year) + monthIndex / 12, monthIndex % 12)
    ensures d.Valid? ==> InTimeRange(d.year, d.month)
                         && d.year * 12 + d.month == MakeFullYear(year) * 12 + monthIndex
  {
    var y := MakeFullYear(year) + monthIndex / 12;
    var m: MonthIndex := monthIndex % 12;
    if InTimeRange(y, m) then Valid(y, m) else InvalidDate
  }

  /** The year and the zero-padded month the client sent, from `invoiceDate`. */
  datatype ClientDate = ClientDate(year: string, month: string)

  /** `invoiceDate.split('-')` with at least two parts gives `clientYear`, the
      text before the first `-`, and `clientMonth`, the text between the first
      and the second `-` padded to two digits; `""` means no date. */
  function ClientParts(invoiceDate: string): (c: Option<ClientDate>)
    ensures c.Some? <==> invoiceDate != [] && '-' in invoiceDate
    ensures c.Some? ==> '-' !in c.value.year && StartsWith(invoiceDate, c.value.year + "-")
                        && c.value.month == PadStart(Before(invoiceDate[|c.value.year| + 1..], '-'), 2, '0')
  {
    if invoiceDate == [] then None
    else
      var parts := Split(invoiceDate, '-');
      SplitJoin(invoiceDate, '-');
      if |parts| >= 2 then
        SplitTwoPieces(invoiceDate, '-');
        Some(ClientDate(parts[0], PadStart(parts[1], 2, '0')))
      else None
  }

  /** An `invoiceDate` of the form `<year>-<month>` or `<year>-<month>-<more>`
      gives that year and that month padded to two digits. */
  lemma ClientPartsOf(year: string, month: string, more: string)
    requires '-' !in year && '-' !in month && (more == [] || more[0] == '-')
    ensures ClientParts(year + "-" + month + more) == Some(ClientDate(year, PadStart(month, 2, '0')))
  {
    DatePieces(year, month, more);
    hide Split, Before, PadStart;
    assert (year + "-" + month + more)[|year|] == '-';
  }

  /** Splitting `year-month...` at `-` gives `year`, then `month`. */
  lemma DatePieces(year: string, month: string, more: string)
    requires '-' !in year && '-' !in month && (more == [] || more[0] == '-')
    ensures var parts := Split(year + "-" + month + more, '-');
            |parts| >= 2 && parts[0] == year && parts[1] == month
  {
    hide Split, Before;
    var rest := month + more;
    var text := year + "-" + rest;
    assert year + "-" + month + more == text;
    assert text[|year|] == '-';
    BeforeOfPrefix(year, rest);
    SplitTwoPieces(text, '-');
    assert text[|year| + 1..] == rest;
    if more == [] {
      assert rest == month;
    } else {
      assert rest == month + "-" + more[1..];
      BeforeOfPrefix(month, more[1..]);
    }
  }

  /** Before the first `-` of `p-q` is `p`. */
  lemma {:induction false} BeforeOfPrefix(p: string, q: string)
    requires '-' !in p
    ensures Before(p + "-" + q, '-') == p
  {
    if p != [] {
      assert (p + "-" + q)[1..] == p[1..] + "-" + q;
      BeforeOfPrefix(p[1..], q);
    }
  }

  /** The date `2026-03-15` files under year `2026`, month `03`. */
  lemma ClientPartsExample()
    ensures ClientParts("2026-03-15") == Some(ClientDate("2026", "03"))
  {
    assert "2026" + "-" + "03" + "-15" == "2026-03-15";
    ClientPartsOf("2026", "03", "-15");
  }

  /** A month of one astral character is already two UTF-16 units long, so
      `padStart` leaves it alone: `2026-😀` keeps its month as sent. */
  lemma AstralClientMonth()
    ensures ClientParts("2026-\U{1F600}") == Some(ClientDate("2026", "\U{1F600}"))
  {
    assert "2026" + "-" + "\U{1F600}" + "" == "2026-\U{1F600}";
    ClientPartsOf("2026", "\U{1F600}", "");
    AstralNotPadded('\U{1F600}');
  }

  /** The client's year and month are plain digits, as `Number` reads them. */
  predicate DigitParts(client: Option<ClientDate>)
  {
    client.Some? ==> AllDigits(client.value.year) && AllDigits(client.value.month)
  }

  /** The date a file is filed under: the client's year and month (day 1) when
      both were sent, otherwise the file's EXIF date, otherwise `now`. */
  function FileDate(client: Option<ClientDate>, exif: Option<JsDate>, now: JsDate): JsDate
    requires DigitParts(client)
  {
    if client.Some? && client.value.year != [] && client.value.month != [] then
      NewDate(DecimalValue(client.value.year), DecimalValue(client.value.month) - 1)
    else
      exif.GetOr(now)
  }

  /** The directory a file goes to: `uploads/<year>/<month>`. */
  datatype Bucket = Bucket(year: string, month: string)

  /** `getFullYear().toString()` and `String(getMonth() + 1).padStart(2, '0')`. */
  function BucketOf(d: JsDate): Bucket
  {
    if d.InvalidDate? then Bucket("NaN", "NaN")
    else Bucket(IntToString(d.year), PadStart(NatToDecimal(d.month + 1), 2, '0'))
  }

  /** `String(k).padStart(2, '0')` for a month number from 1 to 12: two digits
      that read back as `k`. */
  lemma {:induction false} MonthKey(k: nat)
    requires 1 <= k <= 12
    ensures var m := PadStart(NatToDecimal(k), 2, '0');
            |m| == 2 && AllDigits(m) && DecimalValue(m) == k
  {
    var digits := NatToDecimal(k);
    Utf16LengthPlain(digits);
    if k < 10 {
      assert digits == [DigitChar(k)];
      assert DecimalValue(['0']) == 0 by {
        assert ['0'][..0] == [];
      }
      DecimalValueAppend(['0'], DigitChar(k));
      assert PadStart(digits, 2, '0') == ['0'] + digits;
    } else {
      assert |NatToDecimal(k / 10)| == 1;
      assert |digits| == 2;
    }
  }

  /** A valid date is filed under a two-digit month from `01` to `12`. */
  lemma MonthBucket(d: JsDate)
    requires d.Valid?
    ensures var m := BucketOf(d).month;
            |m| == 2 && AllDigits(m) && DecimalValue(m) == d.month + 1
  {
    hide PadStart, Utf16Length;
    var k: nat := d.month + 1;
    assert BucketOf(d).month == PadStart(NatToDecimal(k), 2, '0');
    MonthKey(k);
  }

  /** A valid date in year 0 or later is filed under its year written in
      digits without leading zeros. */
  lemma YearBucket(d: JsDate)
    requires d.Valid? && d.year >= 0
    ensures var y := BucketOf(d).year;
            AllDigits(y) && DecimalValue(y) == d.year && (y[0] == '0' ==> y == "0")
  {
  }

  /** The invalid date is filed under `NaN/NaN`, and only it. */
  lemma NaNBucket(d: JsDate)
    ensures BucketOf(d).year == "NaN" <==> d.InvalidDate?
    ensures d.InvalidDate? ==> BucketOf(d).month == "NaN"
  {
    hide PadStart, Utf16Length;
    if d.Valid? {
      var y := IntToString(d.year);
      assert BucketOf(d).year == y;
      if d.year >= 0 {
        assert y == NatToDecimal(d.year);
        assert IsDigit(y[0]);
      } else {
        var t := NatToDecimal(-d.year);
        assert y == "-" + t;
        assert y[1] == t[0] && IsDigit(t[0]);
      }
      assert y != "NaN";
    }
  }

  /** The client's date comes first: once it is sent, neither the EXIF date
      nor the clock matters. Without it the EXIF date comes before the clock. */
  lemma DatePriority(client: Option<ClientDate>, exif: Option<JsDate>, now: JsDate,
                     exif': Option<JsDate>, now': JsDate)
    requires DigitParts(client)
    ensures client.Some? && client.value.year != [] && client.value.month != [] ==>
              FileDate(client, exif, now) == FileDate(client, exif', now')
    ensures client.None? || client.value.year == [] || client.value.month == [] ==>
              FileDate(client, exif, now) == if exif.Some? then exif.value else now
  {
  }

  /** A client month beyond 12 carries into the next year and month `00` is
      December of the year before: for a year of three digits or more, the
      bucket counts the same number of months from year 0. */
  lemma ClientMonthCarries(c: ClientDate, exif: Option<JsDate>, now: JsDate)
    requires AllDigits(c.year) && AllDigits(c.month) && c.year != [] && c.month != []
    requires DecimalValue(c.year) >= 100
    requires FileDate(Some(c), exif, now).Valid?
    ensures var d := FileDate(Some(c), exif, now);
            d.year * 12 + d.month + 1 == DecimalValue(c.year) * 12 + DecimalValue(c.month)
  {
  }

  /** A two-digit client year is read as 19xx. */
  lemma TwoDigitYear(c: ClientDate, exif: Option<JsDate>, now: JsDate)
    requires AllDigits(c.year) && AllDigits(c.month) && c.year != [] && c.month != []
    requires DecimalValue(c.year) <= 99 && 1 <= DecimalValue(c.month) <= 12
    ensures FileDate(Some(c), exif, now) == Valid(1900 + DecimalValue(c.year), DecimalValue(c.month) - 1)
  {
  }

  /** A client year past 275760 gives the invalid date and the `NaN` bucket. */
  lemma FarFutureIsNaN(c: ClientDate, exif: Option<JsDate>, now: JsDate)
    requires AllDigits(c.year) && AllDigits(c.month) && c.year != [] && c.month != []
    requires DecimalValue(c.year) > 275760 && DecimalValue(c.month) >= 1
    ensures BucketOf(FileDate(Some(c), exif, now)) == Bucket("NaN", "NaN")
  {
  }

  // ---------------------------------------------------------------- avoiding collisions

  /** `parts = name.split('.')`, `ext = parts.length > 1 ? '.' + parts.pop() : ''`,
      `base = parts.join('.')`. */
  function SplitExt(name: string): NameParts
  {
    var parts := Split(name, '.');
    if |parts| > 1 then NameParts(Join(parts[..|parts| - 1], '.'), "." + parts[|parts| - 1])
    else NameParts(Join(parts, '.'), "")
  }

  /** The server's split and pop cut a name exactly where the client's
      `getFileExtension` does: at the last dot, the dot going with the extension. */
  lemma SplitExtAgrees(name: string)
    ensures SplitExt(name) == GetFileExtension(name)
  {
    var parts := Split(name, '.');
    SplitJoin(name, '.');
    var r := SplitExt(name);
    if |parts| > 1 {
      var last := parts[|parts| - 1];
      assert '.' !in last;
      assert r.extension == ['.'] + last;
      assert r.baseName + r.extension == Join(parts, '.');
      ExtensionSplitUnique(r.baseName, r.extension);
    } else {
      ExtensionSplitUnique(name, []);
    }
  }

  /** The name tried at retry `counter`: `${base}_${counter}${ext}`. */
  function Candidate(name: string, counter: nat): string
  {
    var p := SplitExt(name);
    p.baseName + "_" + NatToDecimal(counter) + p.extension
  }

  /** The name tried at step `k` of the loop: the sanitised name itself, then the
      retries counting from 1. */
  function Attempt(name: string, k: nat): string
  {
    if k == 0 then name else Candidate(name, k)
  }

  /** `existsSync(path.join(destDir, f))`: a directory entry of that name, or a
      name that joins to the directory itself or to its parent. */
  predicate Occupied(existing: set<string>, f: string)
  {
    f in existing || f == "" || f == "." || f == ".."
  }

  /** A retry keeps the extension and puts the suffix at the end of the base name. */
  lemma CandidateParts(name: string, counter: nat)
    ensures var p := GetFileExtension(name);
            GetFileExtension(Candidate(name, counter)) == NameParts(p.baseName + "_" + NatToDecimal(counter), p.extension)
  {
    SplitExtAgrees(name);
    var p := GetFileExtension(name);
    var b := p.baseName + "_" + NatToDecimal(counter);
    if p.extension == [] {
      assert '.' !in NatToDecimal(counter) by {
        assert AllDigits(NatToDecimal(counter));
      }
      assert '.' !in b;
    }
    ExtensionSplitUnique(b, p.extension);
  }

  /** Different counters give different names, and none is the name itself. */
  lemma AttemptInjective(name: string, i: nat, j: nat)
    requires Attempt(name, i) == Attempt(name, j)
    ensures i == j
  {
    SplitExtAgrees(name);
    var p := SplitExt(name);
    if i != 0 && j != 0 {
      var a, b := NatToDecimal(i), NatToDecimal(j);
      var n := |p.baseName| + 1;
      var x := p.baseName + "_" + a + p.extension;
      var y := p.baseName + "_" + b + p.extension;
      assert |a| == |b|;
      assert x[n..n + |a|] == a;
      assert y[n..n + |b|] == b;
    }
  }

  /** The names tried before step `n`. */
  ghost function Attempts(name: string, n: nat): set<string>
  {
    set i: nat | i < n :: Attempt(name, i)
  }

  /** They are `n` different names. */
  lemma {:induction false} AttemptsCount(name: string, n: nat)
    ensures |Attempts(name, n)| == n
  {
    if n > 0 {
      AttemptsCount(name, n - 1);
      var prev := Attempts(name, n - 1);
      assert Attempts(name, n) == prev + {Attempt(name, n - 1)};
      if Attempt(name, n - 1) in prev {
        var i: nat :| i < n - 1 && Attempt(name, i) == Attempt(name, n - 1);
        AttemptInjective(name, i, n - 1);
      }
    }
  }

  lemma SubsetCard<T>(a: set<T>, b: set<T>)
    requires a <= b
    ensures |a| <= |b|
  {
    assert b == a + (b - a);
    assert a * (b - a) == {};
  }

  /** Only finitely many names are taken: if the first `n` attempts are all
      taken, `n` is at most the number of entries plus `""`, `.` and `..`. */
  lemma AttemptsBound(name: string, existing: set<string>, n: nat)
    requires forall i :: 0 <= i < n ==> Occupied(existing, Attempt(name, i))
    ensures n <= |existing| + 3
  {
    var taken := existing + {"", ".", ".."};
    var tried := Attempts(name, n);
    AttemptsCount(name, n);
    forall f | f in tried ensures f in taken {
      var i: nat :| i < n && f == Attempt(name, i);
      assert Occupied(existing, Attempt(name, i));
    }
    SubsetCard(tried, taken);
    var special: set<string> := {"", ".", ".."};
    assert |special| <= 3;
    assert |taken| <= |existing| + |special| by {
      assert taken == existing + special;
    }
  }

  /** The step at which the loop stops when it starts looking at step `k`. */
  function FirstFree(name: string, existing: set<string>, k: nat): (j: nat)
    requires forall i :: 0 <= i < k ==> Occupied(existing, Attempt(name, i))
    ensures k <= j
    ensures !Occupied(existing, Attempt(name, j))
    ensures forall i :: 0 <= i < j ==> Occupied(existing, Attempt(name, i))
    decreases |existing| + 3 - k
  {
    AttemptsBound(name, existing, k);
    if !Occupied(existing, Attempt(name, k)) then k
    else
      AttemptsBound(name, existing, k + 1);
      FirstFree(name, existing, k + 1)
  }

  /** The name the loop stops at when it starts looking at step `k`. */
  function FreeNameFrom(name: string, existing: set<string>, k: nat): (f: string)
    requires forall i :: 0 <= i < k ==> Occupied(existing, Attempt(name, i))
    ensures !Occupied(existing, f)
    decreases |existing| + 3 - k
  {
    AttemptsBound(name, existing, k);
    if !Occupied(existing, Attempt(name, k)) then Attempt(name, k)
    else
      AttemptsBound(name, existing, k + 1);
      FreeNameFrom(name, existing, k + 1)
  }

  /** That name is the attempt at the first free step. */
  lemma {:induction false} FreeNameFromFirst(name: string, existing: set<string>, k: nat)
    requires forall i :: 0 <= i < k ==> Occupied(existing, Attempt(name, i))
    ensures FreeNameFrom(name, existing, k) == Attempt(name, FirstFree(name, existing, k))
    decreases |existing| + 3 - k
  {
    AttemptsBound(name, existing, k);
    if Occupied(existing, Attempt(name, k)) {
      AttemptsBound(name, existing, k + 1);
      FreeNameFromFirst(name, existing, k + 1);
    }
  }

  /** The name the upload is written under. */
  function FreeName(name: string, existing: set<string>): (f: string)
    ensures !Occupied(existing, f)
  {
    FreeNameFrom(name, existing, 0)
  }

  /** The name written under is not taken; it is the sanitised name when that
      is free, and otherwise the first free `base_k.ext`. */
  lemma FreeNameChoice(name: string, existing: set<string>)
    ensures !Occupied(existing, FreeName(name, existing))
    ensures !Occupied(existing, name) ==> FreeName(name, existing) == name
    ensures Occupied(existing, name) ==>
              exists k :: k >= 1 && FreeName(name, existing) == Candidate(name, k)
                && forall i :: 1 <= i < k ==> Occupied(existing, Candidate(name, i))
  {
    FreeNameFromFirst(name, existing, 0);
    var j := FirstFree(name, existing, 0);
    if Occupied(existing, name) {
      assert j != 0;
      assert FreeName(name, existing) == Candidate(name, j);
      forall i | 1 <= i < j ensures Occupied(existing, Candidate(name, i)) {
        assert Attempt(name, i) == Candidate(name, i);
      }
    }
  }

  lemma SafeSplit(a: string, b: string)
    requires AllSafe(a + b)
    ensures AllSafe(a) && AllSafe(b)
  {
    assert forall i :: 0 <= i < |a| ==> (a + b)[i] == a[i];
    assert forall i :: 0 <= i < |b| ==> (a + b)[|a| + i] == b[i];
  }

  /** A retry of a name that is all `[A-Za-z0-9._-]` is so too. */
  lemma CandidateSafe(name: string, counter: nat)
    requires AllSafe(name)
    ensures AllSafe(Candidate(name, counter))
  {
    SplitExtAgrees(name);
    var p := SplitExt(name);
    SafeSplit(p.baseName, p.extension);
    var digits := NatToDecimal(counter);
    assert AllSafe(digits) by {
      assert AllDigits(digits);
    }
    assert AllSafe("_");
    SafeAppend(p.baseName, "_");
    SafeAppend(p.baseName + "_", digits);
    SafeAppend(p.baseName + "_" + digits, p.extension);
  }

  /** The name written under is as safe as the sanitised name. */
  lemma FreeNameSafe(name: string, existing: set<string>)
    requires AllSafe(name)
    ensures AllSafe(FreeName(name, existing))
  {
    FreeNameFromFirst(name, existing, 0);
    var j := FirstFree(name, existing, 0);
    if j != 0 {
      CandidateSafe(name, j);
    }
  }

  /**
   * The `while (fs.existsSync(...))` loop of an upload: try the sanitised name,
   * then `base_1.ext`, `base_2.ext`, … until one is not taken.
   */
  method UniqueName(name: string, existing: set<string>) returns (filename: string)
    ensures filename == FreeName(name, existing)
  {
    filename := name;
    var counter := 1;
    while Occupied(existing, filename)
      invariant counter >= 1
      invariant filename == Attempt(name, counter - 1)
      invariant forall i :: 0 <= i < counter - 1 ==> Occupied(existing, Attempt(name, i))
      decreases |existing| + 3 - counter
    {
      AttemptsBound(name, existing, counter);
      var parts := Split(name, '.');
      var ext := "";
      if |parts| > 1 {
        ext := "." + parts[|parts| - 1];
        parts := parts[..|parts| - 1];
      }
      var base := Join(parts, '.');
      filename := base + "_" + NatToDecimal(counter) + ext;
      counter := counter + 1;
    }
    FreeNameFromFirst(name, existing, 0);
  }

  // ---------------------------------------------------------------- paths

  predicate StartsWith(s: string, prefix: string)
  {
    |prefix| <= |s| && s[..|prefix|] == prefix
  }

  /** `.replace(/\\/g, '/')`: every backslash becomes a slash. */
  function Slashes(s: string): (r: string)
    ensures |r| == |s| && '\\' !in r
    ensures forall i :: 0 <= i < |s| ==> r[i] == if s[i] == '\\' then '/' else s[i]
  {
    if s == [] then [] else [if s[0] == '\\' then '/' else s[0]] + Slashes(s[1..])
  }

  /** The path of a stored file relative to the server directory, with slashes:
      `path.join('uploads', y, m, f)` for directory entry names, which hold no
      separator and are never `.` or `..`. */
  function EntryPath(year: string, month: string, file: string): string
  {
    Slashes("uploads/" + year + "/" + month + "/" + file)
  }

  /** For names without backslashes the path is `uploads/<y>/<m>/<f>`. */
  lemma EntryPathFormat(year: string, month: string, file: string)
    requires '\\' !in year && '\\' !in month && '\\' !in file
    ensures EntryPath(year, month, file) == "uploads/" + year + "/" + month + "/" + file
  {
    var s := "uploads/" + year + "/" + month + "/" + file;
    assert '\\' !in "uploads/";
    assert '\\' !in s;
  }

  // ---------------------------------------------------------------- deleting

  /** The answer of `/delete` before it touches the file system. */
  datatype DeleteCheck = PathMissing | InvalidPath | Accepted(clean: string)

  /** `clean.startsWith('uploads' + path.sep) || clean.startsWith('uploads/')`. */
  predicate UnderUploads(clean: string, sep: char)
  {
    StartsWith(clean, "uploads" + [sep]) || StartsWith(clean, "uploads/")
  }

  /**
   * The guard of `/delete`: the body's `path`, `None` when it is absent or not
   * a string; `normalize` is `path.normalize` and `sep` is `path.sep`.
   */
  function DeleteGuard(rel: Option<string>, normalize: string -> string, sep: char): (r: DeleteCheck)
    ensures r.PathMissing? <==> rel.None? || rel.value == []
    ensures r.InvalidPath? <==> rel.Some? && rel.value != [] && !UnderUploads(normalize(rel.value), sep)
    ensures r.Accepted? ==> rel.Some? && r.clean == normalize(rel.value) && UnderUploads(r.clean, sep)
                            && StartsWith(r.clean, "uploads") && |r.clean| > 7
  {
    if rel.None? || rel.value == [] then PathMissing
    else
      var clean := normalize(rel.value);
      if !UnderUploads(clean, sep) then InvalidPath
      else
        assert clean[..7] == clean[..8][..7];
        Accepted(clean)
  }

  /** A path that the list hands out, or an upload reports, passes the guard
      whenever normalising leaves it as it is. */
  lemma ListedPathAccepted(year: string, month: string, file: string, normalize: string -> string, sep: char)
    requires normalize(EntryPath(year, month, file)) == EntryPath(year, month, file)
    ensures DeleteGuard(Some(EntryPath(year, month, file)), normalize, sep) == Accepted(EntryPath(year, month, file))
  {
    var raw := "uploads/" + year + "/" + month + "/" + file;
    var p := EntryPath(year, month, file);
    assert raw[..8] == "uploads/";
    assert p[..8] == "uploads/";
  }

  // ---------------------------------------------------------------- listing

  /** The month directories of each year directory under `uploads`, and the
      names in each month directory, in the order the directory is read. */
  type Tree = map<string, map<string, seq<string>>>

  datatype Entry = Entry(name: string, path: string)

  /** The entries `/list` gives for one month directory. */
  function Entries(year: string, month: string, files: seq<string>): (r: seq<Entry>)
    ensures |r| == |files|
    ensures forall i :: 0 <= i < |files| ==> r[i].name == files[i]
  {
    seq(|files|, i requires 0 <= i < |files| => Entry(files[i], EntryPath(year, month, files[i])))
  }

  /** Both query parameters sent, so only one month is listed. */
  predicate Filtered(qYear: string, qMonth: string)
  {
    qYear != [] && qMonth != []
  }

  /** Whether month `m` of year `y` is listed. */
  predicate Shown(y: string, m: string, qYear: string, qMonth: string)
  {
    !Filtered(qYear, qMonth) || (y == qYear && m == PadStart(qMonth, 2, '0'))
  }

  /** The months listed for one year. */
  function MonthsShown(dirs: Tree, y: string, qYear: string, qMonth: string): map<string, seq<Entry>>
    requires y in dirs
  {
    map m | m in dirs[y] && Shown(y, m, qYear, qMonth) :: Entries(y, m, dirs[y][m])
  }

  /** Whether year `y` is kept: a year left without months is dropped when a
      year was asked for. */
  predicate YearKept(dirs: Tree, y: string, qYear: string, qMonth: string)
    requires y in dirs
  {
    qYear == [] || MonthsShown(dirs, y, qYear, qMonth).Keys != {}
  }

  /** The `tree` that `/list?year=<qYear>&month=<qMonth>` answers with
      (`""` for a parameter not sent). */
  function ListSpec(dirs: Tree, qYear: string, qMonth: string): map<string, map<string, seq<Entry>>>
  {
    map y | y in dirs && YearKept(dirs, y, qYear, qMonth) :: MonthsShown(dirs, y, qYear, qMonth)
  }

  /** With both parameters only the asked month of the asked year is shown. */
  lemma FilteredMonthsAtMost(dirs: Tree, y: string, qYear: string, qMonth: string)
    requires Filtered(qYear, qMonth) && y in dirs
    ensures forall k :: k in MonthsShown(dirs, y, qYear, qMonth) ==> y == qYear && k == PadStart(qMonth, 2, '0')
  {
    forall k | k in MonthsShown(dirs, y, qYear, qMonth) ensures y == qYear && k == PadStart(qMonth, 2, '0') {
      assert Shown(y, k, qYear, qMonth);
    }
  }

  /** With both parameters the asked year shows the asked month alone when it
      exists, and nothing otherwise. */
  lemma FilteredMonthKeys(dirs: Tree, qYear: string, qMonth: string)
    requires Filtered(qYear, qMonth) && qYear in dirs
    ensures var m := PadStart(qMonth, 2, '0');
            MonthsShown(dirs, qYear, qYear, qMonth).Keys == if m in dirs[qYear] then {m} else {}
  {
    var m := PadStart(qMonth, 2, '0');
    FilteredMonthsAtMost(dirs, qYear, qYear, qMonth);
    if m in dirs[qYear] {
      assert Shown(qYear, m, qYear, qMonth);
      assert m in MonthsShown(dirs, qYear, qYear, qMonth);
    }
  }

  /** With both parameters the answer holds no year but the asked one. */
  lemma ListOnlyAskedYear(dirs: Tree, qYear: string, qMonth: string)
    requires Filtered(qYear, qMonth)
    ensures ListSpec(dirs, qYear, qMonth).Keys <= {qYear}
  {
    forall y | y in ListSpec(dirs, qYear, qMonth) ensures y == qYear {
      FilteredMonthsAtMost(dirs, y, qYear, qMonth);
      var k :| k in MonthsShown(dirs, y, qYear, qMonth);
    }
  }

  /** With both parameters the asked year is in the answer exactly when its
      asked month directory exists, and then holds that month alone. */
  lemma ListAskedMonth(dirs: Tree, qYear: string, qMonth: string)
    requires Filtered(qYear, qMonth)
    ensures qYear in ListSpec(dirs, qYear, qMonth) <==>
              qYear in dirs && PadStart(qMonth, 2, '0') in dirs[qYear]
    ensures qYear in ListSpec(dirs, qYear, qMonth) ==>
              ListSpec(dirs, qYear, qMonth)[qYear].Keys == {PadStart(qMonth, 2, '0')}
  {
    if qYear in dirs {
      FilteredMonthKeys(dirs, qYear, qMonth);
    }
  }

  /** With only a year sent nothing is filtered: every year that has month
      directories is listed with all of them; years without any are dropped. */
  lemma ListYearOnly(dirs: Tree, qYear: string)
    requires qYear != []
    ensures forall y :: y in ListSpec(dirs, qYear, []) <==> y in dirs && |dirs[y]| != 0
    ensures forall y :: y in ListSpec(dirs, qYear, []) ==>
              ListSpec(dirs, qYear, [])[y].Keys == dirs[y].Keys
  {
    forall y | y in dirs ensures MonthsShown(dirs, y, qYear, []).Keys == dirs[y].Keys {
    }
  }

  /** Without a year every year directory is listed, even one without months,
      holding every month. */
  lemma ListWithoutYear(dirs: Tree, qMonth: string)
    ensures ListSpec(dirs, [], qMonth).Keys == dirs.Keys
    ensures forall y :: y in dirs ==> ListSpec(dirs, [], qMonth)[y].Keys == dirs[y].Keys
  {
  }

  /** Each listed month holds one entry per name in its directory, in order,
      each with its path under `uploads`. */
  lemma ListEntries(dirs: Tree, qYear: string, qMonth: string, y: string, m: string)
    requires y in ListSpec(dirs, qYear, qMonth) && m in ListSpec(dirs, qYear, qMonth)[y]
    ensures y in dirs && m in dirs[y]
    ensures var es := ListSpec(dirs, qYear, qMonth)[y][m];
            |es| == |dirs[y][m]|
            && forall i :: 0 <= i < |es| ==> es[i] == Entry(dirs[y][m][i], EntryPath(y, m, dirs[y][m][i]))
  {
  }
}
