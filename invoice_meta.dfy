/**
 * The browser client's checks on the files waiting to be uploaded: splitting
 * a file name at its extension and rebuilding the upload name, the NIF and
 * legal-name character sets, and `validateInvoiceMeta`, which walks the
 * pending files and reports the first file and the first field that are not
 * acceptable.
 */
module InvoiceMeta {
  import opened Wrappers
  import opened JsText
  import opened AmountCodec

  // ---------------------------------------------------------------- file names

  datatype NameParts = NameParts(baseName: string, extension: string)

  /** `extension` is empty, or a `.` followed by text without another `.`. */
  predicate IsExtension(e: string)
  {
    e == [] || (e[0] == '.' && '.' !in e[1..])
  }

  /** `getFileExtension(filename)`: the split at the last `.`, the dot going with the extension. */
  function GetFileExtension(filename: string): (r: NameParts)
    ensures r.baseName + r.extension == filename
    ensures r.extension == [] <==> '.' !in filename
    ensures IsExtension(r.extension)
  {
    var idx := LastIndexOf(filename, '.');
    if idx == -1 then NameParts(filename, [])
    else
      assert filename[idx..][1..] == filename[idx + 1..];
      assert filename[..idx] + filename[idx..] == filename;
      NameParts(filename[..idx], filename[idx..])
  }

  /** The split is the only one with an extension of that shape (and no dot in
      the base when there is no extension). */
  lemma ExtensionSplitUnique(base: string, ext: string)
    requires IsExtension(ext)
    requires ext == [] ==> '.' !in base
    ensures GetFileExtension(base + ext) == NameParts(base, ext)
  {
    var s := base + ext;
    var idx := LastIndexOf(s, '.');
    if ext == [] {
      assert s == base;
    } else {
      var n := |base|;
      assert s[n] == '.';
      assert s[..n] == base && s[n..] == ext;
    }
  }

  /** The upload name of a pending file: `(name || baseName) + extension`.
      Renaming keeps the extension: the upload name splits back into the
      chosen name and the extension. */
  function FinalName(name: string, baseName: string, extension: string): (r: string)
    ensures var chosen := if name != [] then name else baseName;
            IsExtension(extension) && (extension == [] ==> '.' !in chosen)
            ==> GetFileExtension(r) == NameParts(chosen, extension)
    ensures var chosen := if name != [] then name else baseName;
            extension == [] ==> GetFileExtension(r) == GetFileExtension(chosen)
    ensures name != [] ==> r == name + extension
    ensures name == [] ==> r == baseName + extension
  {
    var chosen := if name != [] then name else baseName;
    // Both branches give the same name; the first one only brings in the
    // uniqueness of the split for the round trip.
    if IsExtension(extension) && (extension == [] ==> '.' !in chosen) then
      ExtensionSplitUnique(chosen, extension);
      chosen + extension
    else
      assert extension == [] ==> chosen + extension == chosen;
      chosen + extension
  }

  /** A file without an extension renamed to a dotted name gains one: `notes`
      renamed to `v1.2` goes up as base `v1` with extension `.2`. */
  lemma DottedRenameGainsExtension()
    ensures GetFileExtension(FinalName("v1.2", "notes", "")) == NameParts("v1", ".2")
  {
    assert "v1.2" == "v1" + ".2";
    ExtensionSplitUnique("v1", ".2");
  }

  // ---------------------------------------------------------------- pending files

  /** One entry of `filesToUpload`; a field the user has not filled is `""`. */
  datatype PendingFile = PendingFile(
    originalName: string,
    baseName: string,
    extension: string,
    name: string,
    invoiceDate: string,
    invoiceNumber: string,
    nif: string,
    razonSocial: string,
    baseCategory: string,
    baseAmount: string,
    vatRate: string,
    vatDeductible: string,
    vatNonDeductible: string,
    totalAmount: string)

  /** The entry created for a file the user has just added, dated `today`. */
  function NewPendingFile(originalName: string, today: string): (f: PendingFile)
    ensures f.originalName == originalName
    ensures NameParts(f.baseName, f.extension) == GetFileExtension(originalName)
    ensures f.baseName + f.extension == originalName && (f.extension == [] <==> '.' !in originalName)
    ensures f.name == f.baseName && f.invoiceDate == today
    ensures f.invoiceNumber == f.nif == f.razonSocial == f.baseCategory == []
    ensures f.baseAmount == f.vatRate == f.vatDeductible == f.vatNonDeductible == f.totalAmount == []
  {
    var parts := GetFileExtension(originalName);
    PendingFile(originalName, parts.baseName, parts.extension, parts.baseName,
                today, [], [], [], [], [], [], [], [], [])
  }

  /** A file uploaded without renaming keeps the name it was added with. */
  lemma UnrenamedUploadKeepsName(originalName: string, today: string)
    ensures var f := NewPendingFile(originalName, today);
            FinalName(f.name, f.baseName, f.extension) == originalName
  {
  }

  // ---------------------------------------------------------------- character sets

  predicate IsAsciiLetter(c: char)
  {
    'A' <= c <= 'Z' || 'a' <= c <= 'z'
  }

  predicate IsAsciiAlnum(c: char)
  {
    IsAsciiLetter(c) || IsDigit(c)
  }

  /** `Á É Í Ó Ú Ñ Ü á é í ó ú ñ ü`. */
  predicate IsSpanishLetter(c: char)
  {
    c == '\U{C1}' || c == '\U{C9}' || c == '\U{CD}' || c == '\U{D3}' || c == '\U{DA}'
    || c == '\U{D1}' || c == '\U{DC}'
    || c == '\U{E1}' || c == '\U{E9}' || c == '\U{ED}' || c == '\U{F3}' || c == '\U{FA}'
    || c == '\U{F1}' || c == '\U{FC}'
  }

  /** The class `[A-Za-zÁÉÍÓÚÑÜáéíóúñü\s]`. */
  predicate IsLegalNameChar(c: char)
  {
    IsAsciiLetter(c) || IsSpanishLetter(c) || IsJsWhitespace(c)
  }

  lemma AlnumIsNotWhitespace(c: char)
    requires IsAsciiAlnum(c)
    ensures !IsJsWhitespace(c)
  {
  }

  /** No whitespace between two non-whitespace characters. */
  predicate NoInnerWhitespace(s: string)
  {
    forall i, j, k :: 0 <= i < j < k < |s| && !IsJsWhitespace(s[i]) && !IsJsWhitespace(s[k])
      ==> !IsJsWhitespace(s[j])
  }

  /** `isValidNif`: `/^[A-Za-z0-9]+$/` on the trimmed value. */
  predicate IsValidNif(value: string)
  {
    var t := Trim(value);
    t != [] && forall i :: 0 <= i < |t| ==> IsAsciiAlnum(t[i])
  }

  /** Said without trimming: a valid NIF is not blank, holds only ASCII
      letters, digits and whitespace, and the whitespace is all at the ends. */
  lemma NifCharacterization(value: string)
    ensures IsValidNif(value)
            <==> !AllWhitespace(value)
                 && (forall i :: 0 <= i < |value| ==> IsAsciiAlnum(value[i]) || IsJsWhitespace(value[i]))
                 && NoInnerWhitespace(value)
  {
    if IsValidNif(value) {
      ValidNifShape(value);
    }
    if !AllWhitespace(value)
       && (forall i :: 0 <= i < |value| ==> IsAsciiAlnum(value[i]) || IsJsWhitespace(value[i]))
       && NoInnerWhitespace(value)
    {
      NifShapeValid(value);
    }
  }

  lemma ValidNifShape(s: string)
    requires IsValidNif(s)
    ensures !AllWhitespace(s)
    ensures forall i :: 0 <= i < |s| ==> IsAsciiAlnum(s[i]) || IsJsWhitespace(s[i])
    ensures NoInnerWhitespace(s)
  {
    var t := Trim(s);
    var a := SkipSpace(s, 0);
    assert TrimmedAt(s, t, a);
    forall i | a <= i < a + |t|
      ensures IsAsciiAlnum(s[i]) && !IsJsWhitespace(s[i])
    {
      assert s[i] == t[i - a];
      AlnumIsNotWhitespace(t[i - a]);
    }
  }

  lemma NifShapeValid(s: string)
    requires !AllWhitespace(s)
    requires forall i :: 0 <= i < |s| ==> IsAsciiAlnum(s[i]) || IsJsWhitespace(s[i])
    requires NoInnerWhitespace(s)
    ensures IsValidNif(s)
  {
    var t := Trim(s);
    var a := SkipSpace(s, 0);
    assert TrimmedAt(s, t, a);
    var e := a + |t| - 1;
    assert !IsJsWhitespace(s[a]) && !IsJsWhitespace(s[e]) by {
      assert s[a] == t[0] && s[e] == t[|t| - 1];
    }
    forall i | 0 <= i < |t|
      ensures IsAsciiAlnum(t[i])
    {
      assert t[i] == s[a + i];
      if a < a + i < e {
        assert !IsJsWhitespace(s[a + i]);
      }
    }
  }

  /** `isValidLegalName`: `/^[A-Za-zÁÉÍÓÚÑÜáéíóúñü\s]+$/` on the trimmed value. */
  predicate IsValidLegalName(value: string)
  {
    var t := Trim(value);
    t != [] && forall i :: 0 <= i < |t| ==> IsLegalNameChar(t[i])
  }

  /** Since the class admits whitespace, a valid legal name is one that is
      not blank and has every character in the class. */
  lemma LegalNameCharacterization(value: string)
    ensures IsValidLegalName(value)
            <==> !AllWhitespace(value) && forall i :: 0 <= i < |value| ==> IsLegalNameChar(value[i])
  {
    LegalNameTrimmed(value);
  }

  lemma LegalNameTrimmed(s: string)
    ensures var t := Trim(s);
            (forall i :: 0 <= i < |t| ==> IsLegalNameChar(t[i]))
            <==> (forall i :: 0 <= i < |s| ==> IsLegalNameChar(s[i]))
  {
    var t := Trim(s);
    var a := SkipSpace(s, 0);
    assert TrimmedAt(s, t, a);
    assert forall i :: 0 <= i < |t| ==> t[i] == s[a + i];
    if forall i :: 0 <= i < |t| ==> IsLegalNameChar(t[i]) {
      forall i | 0 <= i < |s|
        ensures IsLegalNameChar(s[i])
      {
        if a <= i < a + |t| {
          assert s[i] == t[i - a];
        }
      }
    }
  }

  /** A legal name of blanks only is present (non-empty) yet not valid. */
  lemma BlankLegalNameInvalid(s: string)
    requires AllWhitespace(s)
    ensures !IsValidLegalName(s)
  {
  }

  /** Letters with Spanish accents and inner spaces are a valid legal name. */
  lemma AccentedLegalNameValid()
    ensures IsValidLegalName("  Jos\U{E9} Mu\U{F1}oz ")
  {
    var name := "  Jos\U{E9} Mu\U{F1}oz ";
    assert forall i :: 0 <= i < |name| ==> IsLegalNameChar(name[i]);
    assert !AllWhitespace(name) by {
      assert !IsJsWhitespace(name[2]);
    }
    LegalNameCharacterization(name);
  }

  /** Dots are not in the class, so a company suffix such as `S.L.` is refused. */
  lemma DottedLegalNameInvalid()
    ensures !IsValidLegalName("Acme S.L.")
  {
    var name := "Acme S.L.";
    LegalNameCharacterization(name);
    assert !IsLegalNameChar(name[6]);
  }

  /** Padding around a NIF is trimmed away: letters and digits with
      whitespace on either side are valid. */
  lemma PaddedNifValid(p: string, nif: string, q: string)
    requires AllWhitespace(p) && AllWhitespace(q)
    requires nif != [] && forall i :: 0 <= i < |nif| ==> IsAsciiAlnum(nif[i])
    ensures IsValidNif(p + nif + q)
  {
    AlnumIsNotWhitespace(nif[0]);
    AlnumIsNotWhitespace(nif[|nif| - 1]);
    TrimUnique(p, nif, q);
  }

  /** A character other than a letter or a digit between two non-blank parts
      makes a NIF invalid, be it a space (`B 123`) or a hyphen (`B-123`). */
  lemma NifInnerCharInvalid(p: string, c: char, q: string)
    requires !AllWhitespace(p) && !AllWhitespace(q) && !IsAsciiAlnum(c)
    ensures !IsValidNif(p + [c] + q)
  {
    var s := p + [c] + q;
    NifCharacterization(s);
    var i :| 0 <= i < |p| && !IsJsWhitespace(p[i]);
    var k :| 0 <= k < |q| && !IsJsWhitespace(q[k]);
    assert s[i] == p[i] && s[|p|] == c && s[|p| + 1 + k] == q[k];
    if IsJsWhitespace(c) {
      assert !NoInnerWhitespace(s);
    } else {
      assert !(IsAsciiAlnum(s[|p|]) || IsJsWhitespace(s[|p|]));
    }
  }

  // ---------------------------------------------------------------- the checks

  /** The checks of `validateInvoiceMeta`, in the order it makes them. */
  datatype Check =
    | MissingInvoiceDate
    | MissingInvoiceNumber
    | MissingNif
    | InvalidNif
    | MissingLegalName
    | InvalidLegalName
    | MissingCategory
    | MissingBaseAmount
    | MissingVatRate
    | MissingTotalAmount
    | InvalidAmountFormat
    | SumMismatch

  /** The position of check `k` in the order. */
  function Rank(k: Check): (n: nat)
    ensures n < 12
  {
    match k
    case MissingInvoiceDate => 0
    case MissingInvoiceNumber => 1
    case MissingNif => 2
    case InvalidNif => 3
    case MissingLegalName => 4
    case InvalidLegalName => 5
    case MissingCategory => 6
    case MissingBaseAmount => 7
    case MissingVatRate => 8
    case MissingTotalAmount => 9
    case InvalidAmountFormat => 10
    case SumMismatch => 11
  }

  /** The check made in position `n`. */
  function CheckAt(n: nat): (k: Check)
    requires n < 12
    ensures Rank(k) == n
  {
    if n == 0 then MissingInvoiceDate
    else if n == 1 then MissingInvoiceNumber
    else if n == 2 then MissingNif
    else if n == 3 then InvalidNif
    else if n == 4 then MissingLegalName
    else if n == 5 then InvalidLegalName
    else if n == 6 then MissingCategory
    else if n == 7 then MissingBaseAmount
    else if n == 8 then MissingVatRate
    else if n == 9 then MissingTotalAmount
    else if n == 10 then InvalidAmountFormat
    else SumMismatch
  }

  lemma CheckAtRank(k: Check)
    ensures CheckAt(Rank(k)) == k
  {
  }

  /** `parseAmountToCents(text)` for a required amount field. */
  function AmountCents(text: string): Option<int>
  {
    ParseAmountToCents(Some(text))
  }

  /** `parseAmountToCents(text || '0') || 0` for the two VAT fields: empty or
      unreadable text counts as 0. */
  function VatCents(text: string): (c: int)
    ensures text == [] ==> c == 0
    ensures AmountCents(text).None? ==> c == 0
    ensures AmountCents(text).Some? ==> c == AmountCents(text).value
  {
    ZeroAmount();
    AmountCents(if text != [] then text else "0").GetOr(0)
  }

  /** The text `0` reads as 0 cents. */
  lemma ZeroAmount()
    ensures AmountCents("0").Some? && AmountCents("0").value == 0
  {
    hide ParseAmountToCents;
    assert DecimalValue("0") == 0 by {
      assert "0"[..0] == [];
    }
    assert SignText(false) + "0" == "0";
    assert SignText(false) + "0" + [] == "0";
    WholeAmount(false, "0", []);
  }

  /** What the validator reads off a file besides the presence of its fields:
      whether the NIF and the legal name are well formed, and the four amounts. */
  datatype Reading = Reading(
    nifValid: bool,
    legalNameValid: bool,
    base: Option<int>,
    vatDeductible: int,
    vatNonDeductible: int,
    total: Option<int>)

  function ReadFile(f: PendingFile): Reading
  {
    Reading(IsValidNif(f.nif), IsValidLegalName(f.razonSocial),
            AmountCents(f.baseAmount), VatCents(f.vatDeductible),
            VatCents(f.vatNonDeductible), AmountCents(f.totalAmount))
  }

  /** Whether each check, in order, finds something wrong with `f`, given what
      `a` says was read from it. */
  function Outcomes(f: PendingFile, a: Reading): (fails: seq<bool>)
    ensures |fails| == 12
  {
    [ f.invoiceDate == [],
      f.invoiceNumber == [],
      f.nif == [],
      !a.nifValid,
      f.razonSocial == [],
      !a.legalNameValid,
      f.baseCategory == [],
      f.baseAmount == [],
      f.vatRate == [],
      f.totalAmount == [],
      a.base.None? || a.total.None?,
      a.base.Some? && a.total.Some? && a.base.value + a.vatDeductible + a.vatNonDeductible != a.total.value ]
  }

  /** The first position from `n` on that holds `true`. */
  function FirstTrue(bs: seq<bool>, n: nat): (r: Option<nat>)
    requires n <= |bs|
    ensures r.None? <==> forall i :: n <= i < |bs| ==> !bs[i]
    ensures r.Some? ==> n <= r.value < |bs| && bs[r.value] && forall i :: n <= i < r.value ==> !bs[i]
    decreases |bs| - n
  {
    if n == |bs| then None
    else if bs[n] then Some(n)
    else FirstTrue(bs, n + 1)
  }

  /** The loop body of `validateInvoiceMeta` on one file, given what was read
      off it: the first check that finds something wrong, or `None`. */
  function Decide(f: PendingFile, a: Reading): Option<Check>
  {
    match FirstTrue(Outcomes(f, a), 0)
    case None => None
    case Some(n) => Some(CheckAt(n))
  }

  /** The loop body of `validateInvoiceMeta` for one file: the first check
      that finds something wrong, or `None` when the file is acceptable. */
  function CheckFile(f: PendingFile): Option<Check>
  {
    Decide(f, ReadFile(f))
  }

  /** Check `k` finds something wrong with `f`. */
  predicate Fails(f: PendingFile, k: Check)
  {
    Outcomes(f, ReadFile(f))[Rank(k)]
  }

  /** A file is accepted when no check fails; otherwise the check reported
      fails and every check made before it passes. */
  lemma CheckFileReportsFirstFailure(f: PendingFile)
    ensures CheckFile(f).None? <==> forall k :: !Fails(f, k)
    ensures CheckFile(f).Some? ==>
              Fails(f, CheckFile(f).value) && forall k :: Rank(k) < Rank(CheckFile(f).value) ==> !Fails(f, k)
  {
    var o := Outcomes(f, ReadFile(f));
    var r := FirstTrue(o, 0);
    if r.Some? {
      assert Fails(f, CheckAt(r.value));
    } else {
      forall k ensures !Fails(f, k) {
        assert !o[Rank(k)];
      }
    }
  }

  /** The first `n` checks all pass on `f`, given what `a` says was read off it. */
  predicate PassesFirstWith(f: PendingFile, a: Reading, n: nat)
  {
    forall i :: 0 <= i < n && i < 12 ==> !Outcomes(f, a)[i]
  }

  /** The first `n` checks all pass on `f`. */
  predicate PassesFirst(f: PendingFile, n: nat)
  {
    PassesFirstWith(f, ReadFile(f), n)
  }

  /** Positions that hold `false` are skipped. */
  lemma {:induction false} FirstTrueSkips(bs: seq<bool>, n: nat, m: nat)
    requires n <= m <= |bs|
    requires forall i :: n <= i < m ==> !bs[i]
    ensures FirstTrue(bs, n) == FirstTrue(bs, m)
    decreases m - n
  {
    if n < m {
      FirstTrueSkips(bs, n + 1, m);
    }
  }

  /** When the first `n` checks pass and check `n` fails, check `n` is reported. */
  lemma DecideAt(f: PendingFile, a: Reading, n: nat)
    requires n < 12 && PassesFirstWith(f, a, n) && Outcomes(f, a)[n]
    ensures Decide(f, a) == Some(CheckAt(n))
  {
    FirstTrueSkips(Outcomes(f, a), 0, n);
  }

  /** The check reported fails, and every check before it passes. */
  lemma DecideReports(f: PendingFile, a: Reading, k: Check)
    requires Decide(f, a) == Some(k)
    ensures Outcomes(f, a)[Rank(k)]
    ensures forall i :: 0 <= i < Rank(k) ==> !Outcomes(f, a)[i]
  {
  }

  lemma SumRuleWith(f: PendingFile, a: Reading)
    requires PassesFirstWith(f, a, 10) && a.base.Some? && a.total.Some?
    ensures Decide(f, a).None? <==> a.base.value + a.vatDeductible + a.vatNonDeductible == a.total.value
    ensures Decide(f, a).Some? ==> Decide(f, a) == Some(SumMismatch)
  {
    FirstTrueSkips(Outcomes(f, a), 0, 11);
  }

  /** Once everything before the amounts is in order, a file whose amounts
      read is accepted exactly when base + deductible VAT + non-deductible VAT
      equals the total, and is otherwise reported for the sum. */
  lemma SumRule(f: PendingFile)
    requires PassesFirst(f, 10)
    requires AmountCents(f.baseAmount).Some? && AmountCents(f.totalAmount).Some?
    ensures CheckFile(f).None?
            <==> AmountCents(f.baseAmount).value + VatCents(f.vatDeductible) + VatCents(f.vatNonDeductible)
                 == AmountCents(f.totalAmount).value
    ensures CheckFile(f).Some? ==> CheckFile(f) == Some(SumMismatch)
  {
    SumRuleWith(f, ReadFile(f));
  }

  /** An unreadable VAT amount counts as 0: the file is judged as if the
      field were empty. */
  lemma UnreadableVatCountsAsZero(f: PendingFile, v: string)
    requires AmountCents(v).None?
    ensures CheckFile(f.(vatDeductible := v)) == CheckFile(f.(vatDeductible := []))
    ensures CheckFile(f.(vatNonDeductible := v)) == CheckFile(f.(vatNonDeductible := []))
  {
    var g1, h1 := f.(vatDeductible := v), f.(vatDeductible := []);
    assert ReadFile(g1) == ReadFile(h1);
    VatTextNotLookedAt(g1, [], g1.vatNonDeductible, ReadFile(g1));
    var g2, h2 := f.(vatNonDeductible := v), f.(vatNonDeductible := []);
    assert ReadFile(g2) == ReadFile(h2);
    VatTextNotLookedAt(g2, g2.vatDeductible, [], ReadFile(g2));
  }

  /** Past what was read off them, the checks do not look at the VAT fields. */
  lemma VatTextNotLookedAt(f: PendingFile, d: string, n: string, a: Reading)
    ensures Decide(f.(vatDeductible := d, vatNonDeductible := n), a) == Decide(f, a)
  {
    assert Outcomes(f.(vatDeductible := d, vatNonDeductible := n), a) == Outcomes(f, a);
  }

  lemma AmountFormatBlamesWith(f: PendingFile, a: Reading)
    requires Decide(f, a) == Some(InvalidAmountFormat)
    ensures a.base.None? || a.total.None?
    ensures f.baseAmount != [] && f.totalAmount != []
  {
    DecideReports(f, a, InvalidAmountFormat);
    assert !Outcomes(f, a)[7] && !Outcomes(f, a)[9];
  }

  /** Only the base and the total can be reported as unreadable, and only once
      both are present. */
  lemma AmountFormatBlamesBaseOrTotal(f: PendingFile)
    requires CheckFile(f) == Some(InvalidAmountFormat)
    ensures AmountCents(f.baseAmount).None? || AmountCents(f.totalAmount).None?
    ensures f.baseAmount != [] && f.totalAmount != []
  {
    AmountFormatBlamesWith(f, ReadFile(f));
  }

  /** The category is only checked for presence: any non-empty text passes. */
  lemma AnyCategoryAccepted(f: PendingFile, category: string)
    requires category != [] && f.baseCategory != []
    ensures CheckFile(f.(baseCategory := category)) == CheckFile(f)
  {
    var g := f.(baseCategory := category);
    assert ReadFile(g) == ReadFile(f);
    assert Outcomes(g, ReadFile(g)) == Outcomes(f, ReadFile(f));
  }

  lemma BlankLegalNameWith(f: PendingFile, a: Reading)
    requires PassesFirstWith(f, a, 4) && f.razonSocial != [] && !a.legalNameValid
    ensures Decide(f, a) == Some(InvalidLegalName)
  {
    DecideAt(f, a, 5);
  }

  /** A blank legal name gets past the presence check and fails the character check. */
  lemma BlankLegalNameReported(f: PendingFile)
    requires PassesFirst(f, 4)
    requires f.razonSocial != [] && AllWhitespace(f.razonSocial)
    ensures CheckFile(f) == Some(InvalidLegalName)
  {
    BlankLegalNameInvalid(f.razonSocial);
    BlankLegalNameWith(f, ReadFile(f));
  }

  /** The checks before the amount format do not look at the total's value. */
  lemma OtherTotalPassesFirst(f: PendingFile, a: Reading, t: string, v: Option<int>)
    requires PassesFirstWith(f, a, 10) && t != []
    ensures PassesFirstWith(f.(totalAmount := t), a.(total := v), 10)
  {
    var g, b := f.(totalAmount := t), a.(total := v);
    forall i | 0 <= i < 10
      ensures Outcomes(g, b)[i] == Outcomes(f, a)[i]
    {
    }
  }

  /** Base 1,00 with VAT 0,10 and 0,05 needs a total of 1,15: 1,16 is refused. */
  lemma SumExample(f: PendingFile)
    requires PassesFirst(f, 10)
    requires f.baseAmount == "1,00" && f.vatDeductible == "0,10" && f.vatNonDeductible == "0,05"
    ensures CheckFile(f.(totalAmount := "1,16")) == Some(SumMismatch)
    ensures CheckFile(f.(totalAmount := "1,15")).None?
  {
    UnitsAndCents('1', '0', '0');
    UnitsAndCents('0', '1', '0');
    UnitsAndCents('0', '0', '5');
    UnitsAndCents('1', '1', '6');
    UnitsAndCents('1', '1', '5');
    var bad, good := f.(totalAmount := "1,16"), f.(totalAmount := "1,15");
    var a := ReadFile(f);
    var ab, ag := a.(total := Some(116)), a.(total := Some(115));
    assert ReadFile(bad) == ab && ReadFile(good) == ag;
    OtherTotalPassesFirst(f, a, "1,16", Some(116));
    OtherTotalPassesFirst(f, a, "1,15", Some(115));
    SumRuleWith(bad, ab);
    SumRuleWith(good, ag);
  }

  // ---------------------------------------------------------------- messages

  /** How a file is named in a message: `name || baseName || originalName || 'archivo'`. */
  function NameHint(f: PendingFile): (h: string)
    ensures h != []
    ensures h == f.name || h == f.baseName || h == f.originalName || h == "archivo"
    ensures f.name != [] ==> h == f.name
    ensures f.name == [] && f.baseName != [] ==> h == f.baseName
    ensures f.name == [] && f.baseName == [] && f.originalName != [] ==> h == f.originalName
    ensures f.name == [] && f.baseName == [] && f.originalName == [] ==> h == "archivo"
  {
    if f.name != [] then f.name
    else if f.baseName != [] then f.baseName
    else if f.originalName != [] then f.originalName
    else "archivo"
  }

  /** The wording of each check's message, up to the quoted file name. */
  function Template(k: Check): string
  {
    match k
    case MissingInvoiceDate => "Falta la fecha de factura en "
    case MissingInvoiceNumber => "Falta el n\U{BA} de factura en "
    case MissingNif => "Falta el NIF en "
    case InvalidNif => "El NIF solo puede contener letras y numeros en "
    case MissingLegalName => "Falta la razon social en "
    case InvalidLegalName => "La razon social solo puede contener letras en "
    case MissingCategory => "Falta la categoria de base imponible en "
    case MissingBaseAmount => "Falta la base imponible en "
    case MissingVatRate => "Falta el tipo de IVA en "
    case MissingTotalAmount => "Falta el importe total en "
    case InvalidAmountFormat => "Formato numerico invalido en importes de "
    case SumMismatch => "La suma de base + IVA deducible + IVA no deducible debe igualar el total en "
  }

  /** The message shown for check `k`, ending with the file name in double quotes. */
  function ErrorMessage(k: Check, hint: string): (m: string)
    ensures |m| >= |hint| + 2
    ensures m[|m| - |hint| - 2..] == "\"" + hint + "\""
  {
    var quoted := "\"" + hint + "\"";
    var t := Template(k);
    assert (t + quoted)[|t|..] == quoted;
    t + quoted
  }

  // ---------------------------------------------------------------- validateInvoiceMeta

  /** The first file that fails, which check it fails, and the message shown. */
  datatype Failure = Failure(index: nat, check: Check, message: string)

  /**
   * `validateInvoiceMeta` over the pending files: `None` when every file is
   * acceptable (the source's `true`), otherwise the first failing file, its
   * first failing check and the message set on the modal.
   */
  method ValidateInvoiceMeta(files: seq<PendingFile>) returns (r: Option<Failure>)
    ensures r.None? <==> forall i :: 0 <= i < |files| ==> CheckFile(files[i]).None?
    ensures r.Some? ==>
              var e := r.value;
              && e.index < |files|
              && (forall i :: 0 <= i < e.index ==> CheckFile(files[i]).None?)
              && CheckFile(files[e.index]) == Some(e.check)
              && e.message == ErrorMessage(e.check, NameHint(files[e.index]))
  {
    for i := 0 to |files|
      invariant forall j :: 0 <= j < i ==> CheckFile(files[j]).None?
    {
      var c := CheckFile(files[i]);
      if c.Some? {
        return Some(Failure(i, c.value, ErrorMessage(c.value, NameHint(files[i]))));
      }
      forall j | 0 <= j < i + 1
        ensures CheckFile(files[j]).None?
      {
        if j == i {
          assert files[j] == files[i];
        }
      }
    }
    return None;
  }
}
