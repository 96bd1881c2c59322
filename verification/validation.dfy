/**
  Input validators and PII redaction (app/lib/utils/validation.ts).

  zod's `.email()` check is not modelled: it is the parameter `isEmail`, and
  everything proved here holds whatever that predicate is.
 */
module Validation {
  import opened Wrappers
  import opened Text
  import opened Patterns

  // ---------------------------------------------------------------- emails

  /** `looksLikeEmail`: whether the email schema accepts `value`. */
  predicate LooksLikeEmail(value: string, isEmail: string -> bool)
  {
    isEmail(value)
  }

  /** `normalizeEmail`: trim, lower-case, then validate; `None` stands for `null`. */
  function NormalizeEmail(email: string, isEmail: string -> bool): (r: Option<string>)
    ensures r.Some? ==> IsTrimmed(r.value) && HasNoUpper(r.value) && LooksLikeEmail(r.value, isEmail)
    ensures r.Some? ==> |r.value| <= |email|
    ensures r.None? ==> !LooksLikeEmail(ToLower(Trim(email)), isEmail)
    ensures r.Some? <==> LooksLikeEmail(ToLower(Trim(email)), isEmail)
  {
    var normalized := ToLower(Trim(email));
    ToLowerKeepsTrimmed(Trim(email));
    if LooksLikeEmail(normalized, isEmail) then Some(normalized) else None
  }

  /** Normalising an address that `NormalizeEmail` produced gives it back. */
  lemma NormalizeEmailIdempotent(email: string, isEmail: string -> bool)
    requires NormalizeEmail(email, isEmail).Some?
    ensures NormalizeEmail(NormalizeEmail(email, isEmail).value, isEmail) == NormalizeEmail(email, isEmail)
  {
    var n := NormalizeEmail(email, isEmail).value;
    ToLowerKeepsLowerCase(n);
  }

  lemma {:induction false} TrimStartToLower(s: string)
    ensures TrimStart(ToLower(s)) == ToLower(TrimStart(s))
  {
    if s != [] {
      var l := ToLower(s);
      assert l[0] == ToLowerChar(s[0]);
      assert IsSpace(l[0]) == IsSpace(s[0]);
      if IsSpace(s[0]) {
        assert l[1..] == ToLower(s[1..]);
        TrimStartToLower(s[1..]);
      }
    }
  }

  lemma {:induction false} TrimEndToLower(s: string)
    ensures TrimEnd(ToLower(s)) == ToLower(TrimEnd(s))
  {
    if s != [] {
      var l := ToLower(s);
      assert l[|s| - 1] == ToLowerChar(s[|s| - 1]);
      assert IsSpace(l[|s| - 1]) == IsSpace(s[|s| - 1]);
      if IsSpace(s[|s| - 1]) {
        assert l[..|s| - 1] == ToLower(s[..|s| - 1]);
        TrimEndToLower(s[..|s| - 1]);
      }
    }
  }

  /** `NormalizeEmail` is decided by the trimmed, lower-cased text alone. */
  lemma NormalizeEmailOfNormalized(email: string, isEmail: string -> bool)
    ensures NormalizeEmail(email, isEmail)
         == if LooksLikeEmail(ToLower(Trim(email)), isEmail) then Some(ToLower(Trim(email))) else None
  {
  }

  /** Lower-casing before trimming reaches the same text as lower-casing after. */
  lemma TrimToLower(email: string)
    ensures ToLower(Trim(ToLower(email))) == ToLower(Trim(email))
  {
    TrimStartToLower(email);
    TrimEndToLower(TrimStart(email));
    ToLowerIdempotent(Trim(email));
  }

  /** Case and surrounding whitespace never change what `NormalizeEmail` returns. */
  lemma NormalizeEmailIgnoresCase(email: string, isEmail: string -> bool)
    ensures NormalizeEmail(ToLower(email), isEmail) == NormalizeEmail(email, isEmail)
    ensures NormalizeEmail(Trim(email), isEmail) == NormalizeEmail(email, isEmail)
  {
    NormalizeEmailOfNormalized(email, isEmail);
    NormalizeEmailOfNormalized(ToLower(email), isEmail);
    NormalizeEmailOfNormalized(Trim(email), isEmail);
    TrimToLower(email);
    TrimIdempotent(email);
  }

  /**
    An address with whitespace around it normalises to the address itself,
    lower-cased, or to `None` when the schema rejects that.
   */
  lemma NormalizeEmailOfPadded(a: string, t: string, b: string, isEmail: string -> bool)
    requires forall i | 0 <= i < |a| :: IsSpace(a[i])
    requires forall i | 0 <= i < |b| :: IsSpace(b[i])
    requires t != [] && IsTrimmed(t)
    ensures NormalizeEmail(a + t + b, isEmail) == if isEmail(ToLower(t)) then Some(ToLower(t)) else None
  {
    TrimAroundTrimmed(a, t, b);
  }

  /** For a trimmed, lower-case value, the schema accepts it exactly when it normalises to itself. */
  lemma LooksLikeEmailIffNormalizes(value: string, isEmail: string -> bool)
    requires IsTrimmed(value) && HasNoUpper(value)
    ensures LooksLikeEmail(value, isEmail) <==> NormalizeEmail(value, isEmail) == Some(value)
  {
    assert Trim(value) == value;
    ToLowerKeepsLowerCase(value);
    NormalizeEmailOfNormalized(value, isEmail);
  }

  // ---------------------------------------------------------- column names

  const EmptySelectionError := "At least one column must be selected"

  /** The checks of `columnNameSchema`, in the order zod runs them. */
  datatype ColumnIssue = TooShort | TooLong | InvalidCharacters

  /** `[a-zA-Z0-9_\s-]` */
  predicate IsColumnNameChar(c: char) { IsWordChar(c) || IsSpace(c) || c == '-' }

  /** `^[a-zA-Z0-9_\s-]+$` once the length checks have passed. */
  predicate AllColumnNameChars(col: string)
  {
    forall i | 0 <= i < |col| :: IsColumnNameChar(col[i])
  }

  /** The first check of `columnNameSchema` that `col` fails. */
  function ColumnIssueOf(col: string): (r: Option<ColumnIssue>)
    ensures r.None? <==> 1 <= |col| <= 100 && AllColumnNameChars(col)
    ensures r == Some(TooShort) <==> col == []
    ensures r == Some(TooLong) <==> |col| > 100
  {
    if |col| < 1 then Some(TooShort)
    else if |col| > 100 then Some(TooLong)
    else if !AllColumnNameChars(col) then Some(InvalidCharacters)
    else None
  }

  /** zod's default messages for `min(1)` and `max(100)`, and the schema's own regex message. */
  function IssueMessage(issue: ColumnIssue): string
  {
    match issue
    case TooShort => "String must contain at least 1 character(s)"
    case TooLong => "String must contain at most 100 character(s)"
    case InvalidCharacters => "Column name contains invalid characters"
  }

  function ColumnError(col: string, issue: ColumnIssue): string
  {
    "Invalid column name \"" + col + "\": " + IssueMessage(issue)
  }

  /** The messages hold no `"`, so the closing quote of the column name can be found. */
  lemma IssueMessageHasNoQuote(issue: ColumnIssue)
    ensures forall i | 0 <= i < |IssueMessage(issue)| :: IssueMessage(issue)[i] != '"'
  {
    match issue
    case TooShort =>
      var m := "String must contain at least 1 character(s)";
      assert forall i | 0 <= i < |m| :: m[i] != '"';
    case TooLong =>
      var m := "String must contain at most 100 character(s)";
      assert forall i | 0 <= i < |m| :: m[i] != '"';
    case InvalidCharacters =>
      var m := "Column name contains invalid characters";
      assert forall i | 0 <= i < |m| :: m[i] != '"';
  }

  /** In `pre + col + "\": " + m` with no `"` in `m`, the quote after `col` is the last one. */
  lemma LastQuoteAfter(pre: string, col: string, m: string)
    requires forall i | 0 <= i < |m| :: m[i] != '"'
    ensures var e := pre + col + "\": " + m;
      var q := |pre| + |col|;
      && q < |e| && e[q] == '"'
      && (forall x | q < x < |e| :: e[x] != '"')
      && e[..|pre|] == pre && e[|pre|..q] == col && e[q + 3..] == m
  {
    var e := pre + col + "\": " + m;
    var q := |pre| + |col|;
    assert forall x | q + 3 <= x < |e| :: e[x] == m[x - q - 3];
    assert e[q + 3..] == m;
    assert e[|pre|..q] == col;
  }

  /** The column and the message can be read back from `pre + col + "\": " + m`. */
  lemma LastQuoteSplitsUniquely(pre: string, col1: string, m1: string, col2: string, m2: string)
    requires forall i | 0 <= i < |m1| :: m1[i] != '"'
    requires forall i | 0 <= i < |m2| :: m2[i] != '"'
    requires pre + col1 + "\": " + m1 == pre + col2 + "\": " + m2
    ensures col1 == col2 && m1 == m2
  {
    LastQuoteAfter(pre, col1, m1);
    LastQuoteAfter(pre, col2, m2);
    assert |col1| <= |col2|;
    assert |col2| <= |col1|;
  }

  /** Different columns, or different failed checks, never produce the same message. */
  lemma ColumnErrorInjective(col1: string, issue1: ColumnIssue, col2: string, issue2: ColumnIssue)
    requires ColumnError(col1, issue1) == ColumnError(col2, issue2)
    ensures col1 == col2 && issue1 == issue2
  {
    IssueMessageHasNoQuote(issue1);
    IssueMessageHasNoQuote(issue2);
    LastQuoteSplitsUniquely("Invalid column name \"", col1, IssueMessage(issue1), col2, IssueMessage(issue2));
  }

  /** What `validateColumnNames` pushes for one column. */
  function ErrorsFor(col: string): (r: seq<string>)
    ensures |r| <= 1
    ensures r == [] <==> ColumnIssueOf(col).None?
  {
    match ColumnIssueOf(col)
    case Some(issue) => [ColumnError(col, issue)]
    case None => []
  }

  /** The errors for `columns`: one per column that fails the schema, in input order. */
  function ColumnErrors(columns: seq<string>): (r: seq<string>)
    ensures |r| <= |columns|
  {
    if columns == [] then [] else ErrorsFor(columns[0]) + ColumnErrors(columns[1..])
  }

  /** No error is reported exactly when every column passes the schema. */
  lemma {:induction false} ColumnErrorsEmptyIff(columns: seq<string>)
    ensures ColumnErrors(columns) == [] <==> forall i | 0 <= i < |columns| :: ColumnIssueOf(columns[i]).None?
  {
    if columns != [] {
      ColumnErrorsEmptyIff(columns[1..]);
      assert forall i | 1 <= i < |columns| :: columns[i] == columns[1..][i - 1];
    }
  }

  /** Each column contributes its own errors, independently and in order. */
  lemma {:induction false} ColumnErrorsAppend(a: seq<string>, b: seq<string>)
    ensures ColumnErrors(a + b) == ColumnErrors(a) + ColumnErrors(b)
  {
    if a != [] {
      assert (a + b)[0] == a[0];
      assert (a + b)[1..] == a[1..] + b;
      ColumnErrorsAppend(a[1..], b);
      calc {
        ColumnErrors(a + b);
        ErrorsFor(a[0]) + ColumnErrors(a[1..] + b);
        ErrorsFor(a[0]) + (ColumnErrors(a[1..]) + ColumnErrors(b));
      }
    } else {
      assert a + b == b;
    }
  }

  /** One iteration of the loop in `ValidateColumnNames`, for the errors `done` so far. */
  lemma ColumnErrorsStep(columns: seq<string>, i: nat, done: seq<string>)
    requires i < |columns|
    ensures var issue := ColumnIssueOf(columns[i]);
      done + ColumnErrors(columns[i..]) ==
        (if issue.Some? then done + [ColumnError(columns[i], issue.value)] else done) + ColumnErrors(columns[i + 1..])
  {
    assert columns[i..][0] == columns[i] && columns[i..][1..] == columns[i + 1..];
  }

  datatype ColumnValidation = ColumnValidation(valid: bool, errors: seq<string>)

  /** `validateColumnNames` */
  method ValidateColumnNames(columns: seq<string>) returns (result: ColumnValidation)
    ensures columns == [] ==> result == ColumnValidation(false, [EmptySelectionError])
    ensures columns != [] ==> result.errors == ColumnErrors(columns)
    ensures columns != [] ==>
      (result.valid <==> forall i | 0 <= i < |columns| :: ColumnIssueOf(columns[i]).None?)
    ensures columns != [] ==> (result.valid <==> result.errors == [])
  {
    var errors: seq<string> := [];
    if |columns| == 0 {
      errors := errors + [EmptySelectionError];
      return ColumnValidation(false, errors);
    }
    assert columns[0..] == columns;
    for i := 0 to |columns|
      invariant errors + ColumnErrors(columns[i..]) == ColumnErrors(columns)
    {
      var col := columns[i];
      var issue := ColumnIssueOf(col);
      ColumnErrorsStep(columns, i, errors);
      if issue.Some? {
        errors := errors + [ColumnError(col, issue.value)];
      }
    }
    assert columns[|columns|..] == [];
    ColumnErrorsEmptyIff(columns);
    result := ColumnValidation(|errors| == 0, errors);
  }

  // ----------------------------------------------------- dates and phones

  const IsoDateTemplate := "####-##-##"
  const SlashDateTemplate := "##/##/####"
  const DashDateTemplate := "##-##-####"

  /**
    `^\d{1,2}\s+\w+\s+\d{4}$`. The four parts are separated by whitespace, which
    neither digits nor word characters contain, so each part is a greedy run.
   */
  predicate DayMonthYearShape(t: string)
  {
    var day := RunEnd(t, 0, Digits);
    var gap1 := RunEnd(t, day, Spaces);
    var word := RunEnd(t, gap1, WordChars);
    var gap2 := RunEnd(t, word, Spaces);
    && 1 <= day <= 2
    && day < gap1 < word < gap2
    && gap2 + 4 == |t|
    && AllDigits(t[gap2..])
  }

  /** The same expression read as a split of `t` at `i`, `j`, `k` and `l`. */
  predicate DayMonthYearSplit(t: string, i: nat, j: nat, k: nat, l: nat)
  {
    && 1 <= i <= 2 && i < j < k < l && l + 4 == |t|
    && RunOf(t, 0, i, Digits)
    && RunOf(t, i, j, Spaces)
    && RunOf(t, j, k, WordChars)
    && RunOf(t, k, l, Spaces)
    && RunOf(t, l, |t|, Digits)
  }

  lemma DayMonthYearSplitOfShape(t: string)
    requires DayMonthYearShape(t)
    ensures exists i: nat, j: nat, k: nat, l: nat :: DayMonthYearSplit(t, i, j, k, l)
  {
    var day := RunEnd(t, 0, Digits);
    var gap1 := RunEnd(t, day, Spaces);
    var word := RunEnd(t, gap1, WordChars);
    var gap2 := RunEnd(t, word, Spaces);
    assert DayMonthYearSplit(t, day, gap1, word, gap2);
  }

  lemma DayMonthYearShapeOfSplit(t: string, i: nat, j: nat, k: nat, l: nat)
    requires DayMonthYearSplit(t, i, j, k, l)
    ensures DayMonthYearShape(t)
  {
    assert InClass(Spaces, t[i]);
    RunEndAt(t, 0, i, Digits);
    assert InClass(WordChars, t[j]);
    SpaceIsNotWordChar(t[j]);
    RunEndAt(t, i, j, Spaces);
    assert InClass(Spaces, t[k]);
    SpaceIsNotWordChar(t[k]);
    RunEndAt(t, j, k, WordChars);
    assert InClass(Digits, t[l]);
    RunEndAt(t, k, l, Spaces);
    assert forall x | 0 <= x < |t[l..]| :: t[l..][x] == t[l + x];
  }

  /** The greedy reading accepts exactly the strings that have such a split. */
  lemma DayMonthYearShapeIff(t: string)
    ensures DayMonthYearShape(t) <==> exists i: nat, j: nat, k: nat, l: nat :: DayMonthYearSplit(t, i, j, k, l)
  {
    if DayMonthYearShape(t) {
      DayMonthYearSplitOfShape(t);
    }
    if exists i: nat, j: nat, k: nat, l: nat :: DayMonthYearSplit(t, i, j, k, l) {
      var i: nat, j: nat, k: nat, l: nat :| DayMonthYearSplit(t, i, j, k, l);
      DayMonthYearShapeOfSplit(t, i, j, k, l);
    }
  }

  /** `looksLikeDate`: one of four shapes, tested on the trimmed value. */
  predicate LooksLikeDate(value: string)
    ensures LooksLikeDate(value) ==>
      var t := Trim(value); 8 <= |t| && IsDigit(t[0]) && IsDigit(t[|t| - 1])
  {
    var t := Trim(value);
    DateShapesAreDigitBounded(t);
    || MatchesTemplate(t, IsoDateTemplate)
    || MatchesTemplate(t, SlashDateTemplate)
    || MatchesTemplate(t, DashDateTemplate)
    || DayMonthYearShape(t)
  }

  /** Every accepted shape has at least eight characters and starts and ends with a digit. */
  lemma DateShapesAreDigitBounded(t: string)
    ensures (|| MatchesTemplate(t, IsoDateTemplate)
             || MatchesTemplate(t, SlashDateTemplate)
             || MatchesTemplate(t, DashDateTemplate)
             || DayMonthYearShape(t))
      ==> 8 <= |t| && IsDigit(t[0]) && IsDigit(t[|t| - 1])
  {
    if DayMonthYearShape(t) {
      var gap2 := RunEnd(t, RunEnd(t, RunEnd(t, RunEnd(t, 0, Digits), Spaces), WordChars), Spaces);
      assert t[gap2..][3] == t[|t| - 1];
    }
  }

  /** Only the trimmed value matters. */
  lemma LooksLikeDateTrimmed(value: string)
    ensures LooksLikeDate(value) == LooksLikeDate(Trim(value))
  {
  }

  lemma {:induction false} TrimAroundTrimmed(a: string, t: string, b: string)
    requires forall i | 0 <= i < |a| :: IsSpace(a[i])
    requires forall i | 0 <= i < |b| :: IsSpace(b[i])
    requires t != [] && IsTrimmed(t)
    ensures Trim(a + t + b) == t
  {
    var s := a + t + b;
    assert s == a + (t + b);
    TrimStartPastSpaces(a, t + b);
    assert TrimStart(s) == t + b;
    TrimEndPastSpaces(t, b);
    assert TrimEnd(TrimStart(s)) == t;
  }

  lemma {:induction false} TrimStartPastSpaces(a: string, u: string)
    requires forall i | 0 <= i < |a| :: IsSpace(a[i])
    requires u != [] && !IsSpace(u[0])
    ensures TrimStart(a + u) == u
  {
    if a == [] {
      assert a + u == u;
    } else {
      assert (a + u)[0] == a[0];
      assert (a + u)[1..] == a[1..] + u;
      TrimStartPastSpaces(a[1..], u);
    }
  }

  lemma {:induction false} TrimEndPastSpaces(u: string, b: string)
    requires forall i | 0 <= i < |b| :: IsSpace(b[i])
    requires u != [] && !IsSpace(u[|u| - 1])
    ensures TrimEnd(u + b) == u
  {
    if b != [] {
      assert (u + b)[..|u + b| - 1] == u + b[..|b| - 1];
      TrimEndPastSpaces(u, b[..|b| - 1]);
    }
  }

  /**
    Any `dddd-dd-dd`, with any surrounding whitespace, looks like a date: the
    month and day are not range-checked.
   */
  lemma IsoShapeLooksLikeDate(a: string, t: string, b: string)
    requires forall i | 0 <= i < |a| :: IsSpace(a[i])
    requires forall i | 0 <= i < |b| :: IsSpace(b[i])
    requires MatchesTemplate(t, IsoDateTemplate)
    ensures LooksLikeDate(a + t + b)
  {
    assert IsDigit(t[0]) && IsDigit(t[9]);
    TrimAroundTrimmed(a, t, b);
  }

  /** Month 13, day 45: accepted, since only the shape is checked. */
  lemma OutOfRangeDateLooksLikeDate()
    ensures LooksLikeDate("2024-13-45")
  {
    var t := "2024-13-45";
    assert MatchesTemplate(t, IsoDateTemplate);
    assert IsTrimmed(t);
    assert Trim(t) == t;
  }

  lemma WrittenDateLooksLikeDate()
    ensures LooksLikeDate("1 January 2024")
  {
    var u := "1 January 2024";
    WrittenDateShape();
    assert IsTrimmed(u);
    assert Trim(u) == u;
  }

  /** "1 January 2024" has the day-month-year shape. */
  lemma WrittenDateShape()
    ensures DayMonthYearShape("1 January 2024")
  {
    var u := "1 January 2024";
    assert RunOf(u, 0, 1, Digits);
    assert RunOf(u, 1, 2, Spaces);
    assert RunOf(u, 2, 9, WordChars);
    assert RunOf(u, 9, 10, Spaces);
    assert RunOf(u, 10, 14, Digits);
    DayMonthYearShapeOfSplit(u, 1, 2, 9, 10);
  }

  /** `[\d\s()+-]` */
  predicate IsPhoneChar(c: char) { IsDigit(c) || IsSpace(c) || c in "()+-" }

  /** `value.replace(/\D/g, '')` */
  function DigitsOf(value: string): (r: string)
    ensures AllDigits(r) && |r| <= |value|
  {
    DigitsFromAreDigits(value, 0);
    assert value[0..] == value;
    DigitCountBound(value);
    ReplaceAll(value, NonDigit, "")
  }

  /** The number of digits in `s`, counted one character at a time. */
  function DigitCount(s: string): nat
  {
    if s == [] then 0 else (if IsDigit(s[0]) then 1 else 0) + DigitCount(s[1..])
  }

  lemma {:induction false} DigitsFromAreDigits(value: string, i: nat)
    requires i <= |value|
    ensures AllDigits(ReplaceFrom(value, NonDigit, "", i))
    ensures |ReplaceFrom(value, NonDigit, "", i)| == DigitCount(value[i..])
    decreases |value| - i
  {
    if i < |value| {
      DigitsFromAreDigits(value, i + 1);
      assert value[i..][1..] == value[i + 1..];
    }
    DigitCountBound(value[i..]);
  }

  lemma {:induction false} DigitCountBound(s: string)
    ensures DigitCount(s) <= |s|
  {
    if s != [] { DigitCountBound(s[1..]); }
  }

  /** `looksLikePhone` */
  predicate LooksLikePhone(value: string)
  {
    var digitCount := |DigitsOf(value)|;
    && value != []
    && (forall i | 0 <= i < |value| :: IsPhoneChar(value[i]))
    && 7 <= digitCount <= 15
  }

  /** The acceptance condition with the digits counted directly. */
  lemma LooksLikePhoneIff(value: string)
    ensures LooksLikePhone(value) <==>
      value != [] && (forall i | 0 <= i < |value| :: IsPhoneChar(value[i])) && 7 <= DigitCount(value) <= 15
    ensures LooksLikePhone(value) ==> |value| >= 7
  {
    DigitsFromAreDigits(value, 0);
    assert value[0..] == value;
    DigitCountBound(value);
  }

  /** Formatting characters never decide: only the digits do. */
  lemma LooksLikePhoneDigitsOnly(value: string)
    requires value != [] && forall i | 0 <= i < |value| :: IsPhoneChar(value[i])
    ensures LooksLikePhone(value) <==> LooksLikePhone(DigitsOf(value))
  {
    var d := DigitsOf(value);
    ReplaceWithoutMatch(d, NonDigit, "", 0);
    assert d[0..] == d;
  }

  lemma {:induction false} DigitCountOfDigits(s: string)
    requires AllDigits(s)
    ensures DigitCount(s) == |s|
  {
    if s != [] { DigitCountOfDigits(s[1..]); }
  }

  /** Any run of 7 to 15 digits, with nothing else, looks like a phone number. */
  lemma DigitRunLooksLikePhone(s: string)
    requires AllDigits(s) && 7 <= |s| <= 15
    ensures LooksLikePhone(s)
  {
    DigitCountOfDigits(s);
    LooksLikePhoneIff(s);
  }

  lemma SixDigitsDoNotLookLikePhone()
    ensures !LooksLikePhone("123456")
  {
    LooksLikePhoneIff("123456");
  }

  // --------------------------------------------------------------- redaction

  const EmailMask := "[EMAIL]"
  const EmailPlaceholder := "email@example.com"
  const PhoneMask := "[PHONE]"
  const PhonePlaceholder := "555-555-5555"
  const SsnMask := "[SSN]"

  /**
    `redactPII`: emails, then phone numbers, then SSN-like sequences, each
    replaced everywhere in the text produced by the pass before.
    `preserveFormat` defaults to `false` in the source, so the one-argument
    call `redactPII(text)` is `RedactPII(text, false)`.
   */
  function RedactPII(text: string, preserveFormat: bool): (r: string)
    ensures '@' !in text && HasNoDigit(text) ==> r == text
  {
    var afterEmails := ReplaceAll(text, EmailAddress, if preserveFormat then EmailPlaceholder else EmailMask);
    var afterPhones := ReplaceAll(afterEmails, PhoneNumber, if preserveFormat then PhonePlaceholder else PhoneMask);
    var redacted := ReplaceAll(afterPhones, SsnLike, SsnMask);
    if '@' !in text && HasNoDigit(text) then
      EmailReplaceWithoutAt(text, if preserveFormat then EmailPlaceholder else EmailMask);
      DigitPatternReplaceWithoutDigit(text, PhoneNumber, if preserveFormat then PhonePlaceholder else PhoneMask);
      DigitPatternReplaceWithoutDigit(text, SsnLike, SsnMask);
      redacted
    else redacted
  }

  /** The three passes on their own, for the lemmas below. */
  lemma RedactPIIPasses(text: string, preserveFormat: bool)
    ensures RedactPII(text, preserveFormat) ==
      ReplaceAll(
        ReplaceAll(
          ReplaceAll(text, EmailAddress, if preserveFormat then EmailPlaceholder else EmailMask),
          PhoneNumber, if preserveFormat then PhonePlaceholder else PhoneMask),
        SsnLike, SsnMask)
  {
  }

  /**
    Redaction is local to the words of the text: across a white-space
    character no email address, phone number or SSN-like sequence reaches,
    so each side is redacted on its own and the character is kept.
   */
  lemma RedactPIIAcrossSpace(x: string, c: char, y: string, preserveFormat: bool)
    requires IsSpace(c)
    ensures RedactPII(x + [c] + y, preserveFormat) ==
      RedactPII(x, preserveFormat) + [c] + RedactPII(y, preserveFormat)
  {
    var emailRepl := if preserveFormat then EmailPlaceholder else EmailMask;
    var phoneRepl := if preserveFormat then PhonePlaceholder else PhoneMask;
    var x1, y1 := ReplaceAll(x, EmailAddress, emailRepl), ReplaceAll(y, EmailAddress, emailRepl);
    var x2, y2 := ReplaceAll(x1, PhoneNumber, phoneRepl), ReplaceAll(y1, PhoneNumber, phoneRepl);
    RedactPIIPasses(x + [c] + y, preserveFormat);
    RedactPIIPasses(x, preserveFormat);
    RedactPIIPasses(y, preserveFormat);
    ReplaceSplitsAtSpace(EmailAddress, x, c, y, emailRepl);
    ReplaceSplitsAtSpace(PhoneNumber, x1, c, y1, phoneRepl);
    ReplaceSplitsAtSpace(SsnLike, x2, c, y2, SsnMask);
  }

  /** A text without digits is untouched by the phone and SSN passes. */
  lemma DigitPassesKeepDigitFree(text: string, phoneRepl: string)
    requires HasNoDigit(text)
    ensures ReplaceAll(ReplaceAll(text, PhoneNumber, phoneRepl), SsnLike, SsnMask) == text
  {
    DigitPatternReplaceWithoutDigit(text, PhoneNumber, phoneRepl);
    DigitPatternReplaceWithoutDigit(text, SsnLike, SsnMask);
  }

  /** Text that none of the three expressions can touch: no digit and no `@`. */
  predicate IsPlainText(x: string) { HasNoDigit(x) && '@' !in x }

  /** In `a + t + b`, the plain text around `t` has no digit and no `@`, and `t` sits at `|a|`. */
  lemma PlainAround(a: string, t: string, b: string)
    requires IsPlainText(a) && IsPlainText(b)
    ensures var s := a + t + b;
      && (forall j | 0 <= j < |a| :: !IsDigit(s[j]) && s[j] != '@')
      && (forall j | |a| + |t| <= j < |s| :: !IsDigit(s[j]) && s[j] != '@')
      && (forall x | 0 <= x < |t| :: s[|a| + x] == t[x])
  {
    var s := a + t + b;
    assert forall j | |a| + |t| <= j < |s| :: s[j] == b[j - |a| - |t|];
  }

  /** The email replacements and the phone mask bring no digit into the text. */
  lemma MasksHaveNoDigit()
    ensures HasNoDigit(EmailMask) && HasNoDigit(EmailPlaceholder) && HasNoDigit(PhoneMask)
  {
  }

  /** Three texts without digits, put together, have none. */
  lemma NoDigitAround(a: string, m: string, b: string)
    requires HasNoDigit(a) && HasNoDigit(m) && HasNoDigit(b)
    ensures HasNoDigit(a + m + b)
  {
    var s := a + m + b;
    assert forall j | |a| <= j < |a| + |m| :: s[j] == m[j - |a|];
    assert forall j | |a| + |m| <= j < |s| :: s[j] == b[j - |a| - |m|];
  }

  /** Where no digit starts, neither the phone nor the SSN expression matches. */
  lemma NoDigitNoMatch(s: string, j: nat)
    requires j < |s| && !IsDigit(s[j])
    ensures MatchAt(PhoneNumber, s, j).None? && MatchAt(SsnLike, s, j).None?
  {
  }

  /** The phone expression finds nothing inside `ddd-dd-dddd` when no digit follows it. */
  lemma NoPhoneInSsnShape(s: string, i: nat)
    requires i + 11 <= |s| && MatchesTemplate(s[i..i + 11], SsnTemplate)
    requires forall x | i + 11 <= x < |s| :: !IsDigit(s[x])
    ensures forall j | i <= j < i + 11 :: PhoneMatchAt(s, j).None?
  {
    var w := s[i..i + 11];
    assert forall j | i <= j < i + 11 :: s[j] == w[j - i];
    assert s[i + 3] == '-' && s[i + 6] == '-';
    assert forall j | i <= j < i + 11 && j != i + 3 && j != i + 6 :: IsDigit(s[j]);
    forall j | i <= j < i + 11 ensures PhoneMatchAt(s, j).None? {
      if j == i + 7 {
        assert i + 11 < |s| ==> !IsDigit(s[i + 11]);
        assert !DigitsAt(s, i + 10, 3);
      }
    }
  }

  /** In a plain text around it, `ddd-dd-dddd` is left alone by the email and phone passes. */
  lemma SsnContextKeepsEmailsAndPhones(a: string, t: string, b: string, emailRepl: string, phoneRepl: string)
    requires MatchesTemplate(t, SsnTemplate)
    requires IsPlainText(a) && IsPlainText(b)
    ensures var s := a + t + b;
      ReplaceAll(s, EmailAddress, emailRepl) == s && ReplaceAll(s, PhoneNumber, phoneRepl) == s
  {
    var s := a + t + b;
    var i := |a|;
    PlainAround(a, t, b);
    assert s[i..i + 11] == t;
    assert forall j | 0 <= j < |t| :: t[j] == '-' || IsDigit(t[j]);
    assert '@' !in s;
    EmailReplaceWithoutAt(s, emailRepl);
    NoPhoneInSsnShape(s, i);
    forall j | 0 <= j < |s| ensures MatchAt(PhoneNumber, s, j).None? {
      if j < i || i + 11 <= j {
        NoDigitNoMatch(s, j);
      }
    }
    ReplaceWithoutMatch(s, PhoneNumber, phoneRepl, 0);
    assert s[0..] == s;
  }

  /** `ddd-dd-dddd` that no word character touches is the one SSN match of its plain surroundings. */
  lemma SsnContextMatchAt(a: string, t: string, b: string)
    requires MatchesTemplate(t, SsnTemplate)
    requires IsPlainText(a) && IsPlainText(b)
    requires EndsOutside(a, WordChars) && StartsOutside(b, WordChars)
    ensures var s := a + t + b;
      && MatchAt(SsnLike, s, |a|) == Some(|a| + |t|)
      && (forall j | 0 <= j < |a| :: MatchAt(SsnLike, s, j).None?)
      && (forall j | |a| + |t| <= j < |s| :: MatchAt(SsnLike, s, j).None?)
  {
    var s := a + t + b;
    var i := |a|;
    PlainAround(a, t, b);
    assert s[i..i + 11] == t;
    assert IsDigit(s[i]) && IsDigit(s[i + 10]);
    assert i > 0 ==> s[i - 1] == a[|a| - 1];
    assert i + 11 < |s| ==> s[i + 11] == b[0];
    assert MatchAt(SsnLike, s, i) == Some(i + 11) by {
      assert IsWordBoundary(s, i) && IsWordBoundary(s, i + 11);
    }
    forall j | 0 <= j < i || i + 11 <= j < |s| ensures MatchAt(SsnLike, s, j).None? {
      NoDigitNoMatch(s, j);
    }
  }

  /** The SSN pass replaces exactly that match. */
  lemma SsnContextMatches(a: string, t: string, b: string)
    requires MatchesTemplate(t, SsnTemplate)
    requires IsPlainText(a) && IsPlainText(b)
    requires EndsOutside(a, WordChars) && StartsOutside(b, WordChars)
    ensures ReplaceAll(a + t + b, SsnLike, SsnMask) == a + SsnMask + b
  {
    SsnContextMatchAt(a, t, b);
    ReplaceOneMatchAround(a, t, b, SsnLike, SsnMask);
  }

  /**
    `ddd-dd-dddd` becomes `[SSN]` in either mode, when it stands on its own in a
    plain text: no word character touches it on either side.
   */
  lemma RedactsSsnInContext(a: string, t: string, b: string, preserveFormat: bool)
    requires MatchesTemplate(t, SsnTemplate)
    requires IsPlainText(a) && IsPlainText(b)
    requires EndsOutside(a, WordChars) && StartsOutside(b, WordChars)
    ensures RedactPII(a + t + b, preserveFormat) == a + SsnMask + b
  {
    SsnContextKeepsEmailsAndPhones(a, t, b,
      if preserveFormat then EmailPlaceholder else EmailMask,
      if preserveFormat then PhonePlaceholder else PhoneMask);
    SsnContextMatches(a, t, b);
    RedactPIIPasses(a + t + b, preserveFormat);
  }

  /** `ddd-dd-dddd` as the whole text becomes `[SSN]` in either mode. */
  lemma RedactsWholeSsn(t: string, preserveFormat: bool)
    requires MatchesTemplate(t, SsnTemplate)
    ensures RedactPII(t, preserveFormat) == SsnMask
  {
    var empty := "";
    assert empty + t + empty == t;
    assert empty + SsnMask + empty == SsnMask;
    RedactsSsnInContext(empty, t, empty, preserveFormat);
  }

  /** Neither a separator nor two: what `[-.]?` accepts. */
  predicate IsOptionalSeparator(x: string) { x == "" || x == "-" || x == "." }

  /** The SSN pass leaves the `555-555-5555` placeholder alone in a text without other digits. */
  lemma NoSsnAroundPlaceholder(a: string, b: string)
    requires HasNoDigit(a) && HasNoDigit(b)
    ensures var s := a + PhonePlaceholder + b; ReplaceAll(s, SsnLike, SsnMask) == s
  {
    var s := a + PhonePlaceholder + b;
    var i := |a|;
    assert forall j | i <= j < i + 12 :: s[j] == PhonePlaceholder[j - i];
    assert forall j | 0 <= j < i :: s[j] == a[j];
    assert forall j | i + 12 <= j < |s| :: s[j] == b[j - i - 12];
    forall j | 0 <= j < |s| ensures MatchAt(SsnLike, s, j).None? {
      if j + 11 <= |s| {
        var w := s[j..j + 11];
        assert w[0] == s[j] && w[3] == s[j + 3] && w[6] == s[j + 6] && w[10] == s[j + 10];
        if j == i {
          assert w[6] == '5';
        } else if j == i + 1 {
          assert w[3] == '5';
        }
      }
    }
    ReplaceWithoutMatch(s, SsnLike, SsnMask, 0);
    assert s[0..] == s;
  }

  /** Digits placed between two strings are found at the length of the first. */
  lemma DigitsInMiddle(x: string, m: string, y: string)
    requires AllDigits(m)
    ensures DigitsAt(x + m + y, |x|, |m|)
  {
    assert forall j | |x| <= j < |x| + |m| :: (x + m + y)[j] == m[j - |x|];
  }

  /**
    The layout of `ddd[-.]?ddd[-.]?dddd`: digits at 0, at `b` and at `d`, a
    separator before `b` or `d` exactly when one is there, and no `@`.
   */
  lemma PhoneShape(area: string, sep1: string, exchange: string, sep2: string, line: string)
    requires |area| == 3 && |exchange| == 3 && |line| == 4
    requires AllDigits(area) && AllDigits(exchange) && AllDigits(line)
    requires IsOptionalSeparator(sep1) && IsOptionalSeparator(sep2)
    ensures var t := area + sep1 + exchange + sep2 + line;
      var b := 3 + |sep1|;
      var d := b + 3 + |sep2|;
      && |t| == d + 4
      && DigitsAt(t, 0, 3) && DigitsAt(t, b, 3) && DigitsAt(t, d, 4)
      && (b == 4 <==> IsPhoneSeparator(t[3]))
      && (d == b + 4 <==> IsPhoneSeparator(t[b + 3]))
      && '@' !in t
  {
    var t := area + sep1 + exchange + sep2 + line;
    assert t == "" + area + (sep1 + exchange + sep2 + line);
    DigitsInMiddle("", area, sep1 + exchange + sep2 + line);
    assert t == (area + sep1) + exchange + (sep2 + line);
    DigitsInMiddle(area + sep1, exchange, sep2 + line);
    assert t == (area + sep1 + exchange + sep2) + line + "";
    DigitsInMiddle(area + sep1 + exchange + sep2, line, "");
    assert t == area + (sep1 + exchange) + (sep2 + line);
    FirstOfMiddle(area, sep1 + exchange, sep2 + line);
    assert t == (area + sep1 + exchange) + (sep2 + line) + "";
    FirstOfMiddle(area + sep1 + exchange, sep2 + line, "");
    assert '@' !in t by {
      DigitsHaveNoAt(area);
      DigitsHaveNoAt(exchange);
      DigitsHaveNoAt(line);
    }
  }

  /** Digits of the middle string are digits of the whole, shifted by the first. */
  lemma DigitsShift(a: string, t: string, b: string, x: nat, n: nat)
    requires DigitsAt(t, x, n)
    ensures DigitsAt(a + t + b, |a| + x, n)
  {
    assert forall j | |a| + x <= j < |a| + x + n :: (a + t + b)[j] == t[j - |a|];
  }

  /**
    Three digits from `i`, an optional separator ending at `b`, three digits, an
    optional separator ending at `d`, and four digits, with no word character
    just before or just after: the phone expression takes all of it.
   */
  lemma PhoneShapeMatchesAt(s: string, i: nat, b: nat, d: nat)
    requires i + 3 <= b <= i + 4 && b + 3 <= d <= b + 4 && d + 4 <= |s|
    requires DigitsAt(s, i, 3) && DigitsAt(s, b, 3) && DigitsAt(s, d, 4)
    requires b == i + 4 <==> IsPhoneSeparator(s[i + 3])
    requires d == b + 4 <==> IsPhoneSeparator(s[b + 3])
    requires i == 0 || !IsWordChar(s[i - 1])
    requires d + 4 == |s| || !IsWordChar(s[d + 4])
    ensures PhoneMatchAt(s, i) == Some(d + 4)
  {
    assert IsDigit(s[i]) && IsDigit(s[d + 3]);
    assert IsWordBoundary(s, i) && IsWordBoundary(s, d + 4);
  }

  /** `ddd[-.]?ddd[-.]?dddd` with no word character just before or after is one phone match. */
  lemma PhoneInContextMatches(a: string, area: string, sep1: string, exchange: string, sep2: string,
                              line: string, b: string)
    requires |area| == 3 && |exchange| == 3 && |line| == 4
    requires AllDigits(area) && AllDigits(exchange) && AllDigits(line)
    requires IsOptionalSeparator(sep1) && IsOptionalSeparator(sep2)
    requires EndsOutside(a, WordChars) && StartsOutside(b, WordChars)
    ensures var t := area + sep1 + exchange + sep2 + line;
      '@' !in t && MatchAt(PhoneNumber, a + t + b, |a|) == Some(|a| + |t|)
  {
    var t := area + sep1 + exchange + sep2 + line;
    var s := a + t + b;
    var i := |a|;
    var bt := 3 + |sep1|;
    var dt := bt + 3 + |sep2|;
    PhoneShape(area, sep1, exchange, sep2, line);
    DigitsShift(a, t, b, 0, 3);
    DigitsShift(a, t, b, bt, 3);
    DigitsShift(a, t, b, dt, 4);
    assert s[i + 3] == t[3] && s[i + bt + 3] == t[bt + 3];
    assert i > 0 ==> s[i - 1] == a[|a| - 1];
    assert i + dt + 4 < |s| ==> s[i + dt + 4] == b[0];
    PhoneShapeMatchesAt(s, i, i + bt, i + dt);
  }

  /** In plain surroundings, `ddd[-.]?ddd[-.]?dddd` is the one phone match and is replaced. */
  lemma PhoneContextPass(a: string, area: string, sep1: string, exchange: string, sep2: string,
                         line: string, b: string, phoneRepl: string)
    requires |area| == 3 && |exchange| == 3 && |line| == 4
    requires AllDigits(area) && AllDigits(exchange) && AllDigits(line)
    requires IsOptionalSeparator(sep1) && IsOptionalSeparator(sep2)
    requires IsPlainText(a) && IsPlainText(b)
    requires EndsOutside(a, WordChars) && StartsOutside(b, WordChars)
    ensures var s := a + (area + sep1 + exchange + sep2 + line) + b;
      '@' !in s && ReplaceAll(s, PhoneNumber, phoneRepl) == a + phoneRepl + b
  {
    var t := area + sep1 + exchange + sep2 + line;
    PhoneInContextMatches(a, area, sep1, exchange, sep2, line, b);
    NoPhoneMatchAround(a, t, b);
    ReplaceOneMatchAround(a, t, b, PhoneNumber, phoneRepl);
  }

  /** Plain text around `t` holds no `@` of its own and no phone match. */
  lemma NoPhoneMatchAround(a: string, t: string, b: string)
    requires IsPlainText(a) && IsPlainText(b) && '@' !in t
    ensures var s := a + t + b;
      && '@' !in s
      && (forall j | 0 <= j < |a| :: MatchAt(PhoneNumber, s, j).None?)
      && (forall j | |a| + |t| <= j < |s| :: MatchAt(PhoneNumber, s, j).None?)
  {
    var s := a + t + b;
    var e := |a| + |t|;
    PlainAround(a, t, b);
    assert '@' !in s by {
      assert forall j | |a| <= j < e :: s[j] == t[j - |a|];
    }
    forall j | 0 <= j < |a| || e <= j < |s| ensures MatchAt(PhoneNumber, s, j).None? {
      NoDigitNoMatch(s, j);
    }
  }

  /** Either phone replacement, in a text without other digits, is left alone by the SSN pass. */
  lemma PhoneReplacementKeepsSsnPass(a: string, b: string, preserveFormat: bool)
    requires HasNoDigit(a) && HasNoDigit(b)
    ensures var s := a + (if preserveFormat then PhonePlaceholder else PhoneMask) + b;
      ReplaceAll(s, SsnLike, SsnMask) == s
  {
    if preserveFormat {
      NoSsnAroundPlaceholder(a, b);
    } else {
      MasksHaveNoDigit();
      NoDigitAround(a, PhoneMask, b);
      DigitPatternReplaceWithoutDigit(a + PhoneMask + b, SsnLike, SsnMask);
    }
  }

  /**
    Ten digits as `ddd[-.]?ddd[-.]?dddd` become `[PHONE]`, or `555-555-5555` when
    the format is preserved, when they stand on their own in a plain text.
   */
  lemma RedactsPhoneInContext(a: string, area: string, sep1: string, exchange: string, sep2: string,
                              line: string, b: string, preserveFormat: bool)
    requires |area| == 3 && |exchange| == 3 && |line| == 4
    requires AllDigits(area) && AllDigits(exchange) && AllDigits(line)
    requires IsOptionalSeparator(sep1) && IsOptionalSeparator(sep2)
    requires IsPlainText(a) && IsPlainText(b)
    requires EndsOutside(a, WordChars) && StartsOutside(b, WordChars)
    ensures RedactPII(a + (area + sep1 + exchange + sep2 + line) + b, preserveFormat) ==
      a + (if preserveFormat then PhonePlaceholder else PhoneMask) + b
  {
    var s := a + (area + sep1 + exchange + sep2 + line) + b;
    var emailRepl := if preserveFormat then EmailPlaceholder else EmailMask;
    var phoneRepl := if preserveFormat then PhonePlaceholder else PhoneMask;
    PhoneContextPass(a, area, sep1, exchange, sep2, line, b, phoneRepl);
    EmailReplaceWithoutAt(s, emailRepl);
    PhoneReplacementKeepsSsnPass(a, b, preserveFormat);
    RedactPIIPasses(s, preserveFormat);
  }

  /**
    Ten digits as `ddd[-.]?ddd[-.]?dddd`, as the whole text, become `[PHONE]`,
    or `555-555-5555` when the format is preserved.
   */
  lemma RedactsWholePhone(area: string, sep1: string, exchange: string, sep2: string, line: string,
                          preserveFormat: bool)
    requires |area| == 3 && |exchange| == 3 && |line| == 4
    requires AllDigits(area) && AllDigits(exchange) && AllDigits(line)
    requires IsOptionalSeparator(sep1) && IsOptionalSeparator(sep2)
    ensures RedactPII(area + sep1 + exchange + sep2 + line, preserveFormat) ==
      if preserveFormat then PhonePlaceholder else PhoneMask
  {
    var empty := "";
    var t := area + sep1 + exchange + sep2 + line;
    var repl := if preserveFormat then PhonePlaceholder else PhoneMask;
    assert empty + t + empty == t;
    assert empty + repl + empty == repl;
    RedactsPhoneInContext(empty, area, sep1, exchange, sep2, line, empty, preserveFormat);
  }

  /**
    `local@domain.tld` at `|a|` in `a + t + b` is a reading of the email
    expression, with the `@` after the local part and the `.` before the TLD.
   */
  lemma EmailInContextSplit(a: string, t: string, b: string, local: string, domain: string, tld: string)
    requires t == local + "@" + domain + "." + tld
    requires local != [] && RunOf(local, 0, |local|, LocalPartChars)
    requires domain != [] && RunOf(domain, 0, |domain|, DomainChars)
    requires |tld| >= 2 && RunOf(tld, 0, |tld|, Letters)
    ensures EmailSplit(a + t + b, |a|, |a| + |local|, |a| + |local| + 1 + |domain|, |a| + |t|)
  {
    var s := a + t + b;
    var k := |a| + |local|;
    var p := k + 1 + |domain|;
    assert forall j | |a| <= j < |a| + |t| :: s[j] == t[j - |a|];
    assert forall j | 0 <= j < |local| :: t[j] == local[j];
    assert forall j | |local| + 1 <= j < |local| + 1 + |domain| :: t[j] == domain[j - |local| - 1];
    assert forall j | |local| + 2 + |domain| <= j < |t| :: t[j] == tld[j - |local| - 2 - |domain|];
    assert s[k] == '@' && s[p] == '.';
    assert RunOf(s, |a|, k, LocalPartChars);
    assert RunOf(s, k + 1, p, DomainChars);
    assert RunOf(s, p + 1, p + 1 + |tld|, Letters);
  }

  /**
    `local@domain.tld` with no domain character just after it is matched whole
    from its first character.
   */
  lemma EmailInContextMatches(a: string, t: string, b: string, local: string, domain: string, tld: string)
    requires t == local + "@" + domain + "." + tld
    requires local != [] && RunOf(local, 0, |local|, LocalPartChars)
    requires domain != [] && RunOf(domain, 0, |domain|, DomainChars)
    requires |tld| >= 2 && RunOf(tld, 0, |tld|, Letters)
    requires StartsOutside(b, DomainChars)
    ensures MatchAt(EmailAddress, a + t + b, |a|) == Some(|a| + |t|)
  {
    EmailInContextSplit(a, t, b, local, domain, tld);
    SplitInContextMatches(a, t, b, |a| + |local|, |a| + |local| + 1 + |domain|);
  }

  /** A reading of the email expression over all of `t` is the match when `b` starts outside the domain class. */
  lemma SplitInContextMatches(a: string, t: string, b: string, k: nat, p: nat)
    requires EmailSplit(a + t + b, |a|, k, p, |a| + |t|)
    requires StartsOutside(b, DomainChars)
    ensures MatchAt(EmailAddress, a + t + b, |a|) == Some(|a| + |t|)
  {
    FollowedOutside(a, t, b, DomainChars);
    EmailSplitIsMatch(a + t + b, |a|, k, p, |a| + |t|);
  }

  /** In `a + t + b`, nothing of class `k` follows `t` when `b` starts outside `k`. */
  lemma FollowedOutside(a: string, t: string, b: string, k: CharClass)
    requires StartsOutside(b, k)
    ensures |a| + |t| == |a + t + b| || !InClass(k, (a + t + b)[|a| + |t|])
  {
    if b != [] {
      assert (a + t + b)[|a| + |t|] == b[0];
    }
  }

  /** Plain text that no local-part character ends holds no email match, before or after `t`. */
  lemma NoEmailMatchAround(a: string, t: string, b: string)
    requires IsPlainText(a) && IsPlainText(b) && EndsOutside(a, LocalPartChars)
    ensures var s := a + t + b;
      && (forall j | 0 <= j < |a| :: MatchAt(EmailAddress, s, j).None?)
      && (forall j | |a| + |t| <= j < |s| :: MatchAt(EmailAddress, s, j).None?)
  {
    var s := a + t + b;
    PlainAround(a, t, b);
    forall j | 0 <= j < |a| ensures MatchAt(EmailAddress, s, j).None? {
      var kj := RunEnd(s, j, LocalPartChars);
      assert s[|a| - 1] == a[|a| - 1];
      assert kj < |a|;
    }
    forall j | |a| + |t| <= j < |s| ensures MatchAt(EmailAddress, s, j).None? {
      var kj := RunEnd(s, j, LocalPartChars);
      assert kj == |s| || s[kj] != '@';
    }
  }

  /**
    `local@domain.tld` becomes `[EMAIL]`, or `email@example.com` when the format
    is preserved, when it stands in a plain text with no local-part character
    just before it and no domain character just after it.
   */
  lemma RedactsEmailInContext(a: string, local: string, domain: string, tld: string, b: string,
                              preserveFormat: bool)
    requires local != [] && RunOf(local, 0, |local|, LocalPartChars)
    requires domain != [] && RunOf(domain, 0, |domain|, DomainChars)
    requires |tld| >= 2 && RunOf(tld, 0, |tld|, Letters)
    requires IsPlainText(a) && IsPlainText(b)
    requires EndsOutside(a, LocalPartChars) && StartsOutside(b, DomainChars)
    ensures RedactPII(a + (local + "@" + domain + "." + tld) + b, preserveFormat) ==
      a + (if preserveFormat then EmailPlaceholder else EmailMask) + b
  {
    var emailRepl := if preserveFormat then EmailPlaceholder else EmailMask;
    var phoneRepl := if preserveFormat then PhonePlaceholder else PhoneMask;
    var t := local + "@" + domain + "." + tld;
    var u := a + emailRepl + b;
    EmailInContextMatches(a, t, b, local, domain, tld);
    NoEmailMatchAround(a, t, b);
    ReplaceOneMatchAround(a, t, b, EmailAddress, emailRepl);
    MasksHaveNoDigit();
    NoDigitAround(a, emailRepl, b);
    DigitPassesKeepDigitFree(u, phoneRepl);
    RedactPIIPasses(a + t + b, preserveFormat);
  }

  /**
    `local@domain.tld` as the whole text becomes `[EMAIL]`, or
    `email@example.com` when the format is preserved.
   */
  lemma RedactsWholeEmail(local: string, domain: string, tld: string, preserveFormat: bool)
    requires local != [] && RunOf(local, 0, |local|, LocalPartChars)
    requires domain != [] && RunOf(domain, 0, |domain|, DomainChars)
    requires |tld| >= 2 && RunOf(tld, 0, |tld|, Letters)
    ensures RedactPII(local + "@" + domain + "." + tld, preserveFormat) ==
      if preserveFormat then EmailPlaceholder else EmailMask
  {
    var empty := "";
    var t := local + "@" + domain + "." + tld;
    var repl := if preserveFormat then EmailPlaceholder else EmailMask;
    assert empty + t + empty == t;
    assert empty + repl + empty == repl;
    RedactsEmailInContext(empty, local, domain, tld, empty, preserveFormat);
  }
}
