# Verified model of the spreadsheet-cleaning app's utility core

The app cleans uploaded CSV and Excel files with "recipes": dedupe, dates,
phones, emails, names, job titles and companies. This project models in Dafny
the part of it that is plain logic, and proves properties of that model:

- the input validators and the PII redactor (`app/lib/utils/validation.ts`);
- the upload checks and filename helpers (`app/lib/utils/file.ts`);
- the static recipe registry and limit tables (`app/lib/constants.ts`);
- the `cn` class-name joiner (`app/lib/utils/index.ts`).

Modules:

| file | module | contents |
|---|---|---|
| `wrappers.dfy` | `Wrappers` | `Option` |
| `text.dfy` | `Text` | the JavaScript string built-ins the source calls: `trim`, `toLowerCase`, `lastIndexOf`, `slice`, `endsWith`, `padStart`, `join`; also `indexOf` and `split`, which the source does not call and which serve only to state `cn`'s round trip |
| `patterns.dfy` | `Patterns` | each regular expression of the source as a matcher, and global `replace` |
| `validation.dfy` | `Validation` | `normalizeEmail`, `validateColumnNames`, `looksLikeDate`, `looksLikePhone`, `redactPII` |
| `file_utils.dfy` | `FileUtils` | `isValidFileType`, `isValidFileSize`, `getFileExtension`, `sanitizeFilename`, `estimateRowCount`, the hex step of `calculateFileHash` |
| `constants.dfy` | `Constants` | `RECIPES`, `FILE_LIMITS`, `RATE_LIMITS`, the upload type lists, thresholds, `LLM_CONFIG`, seniority labels, `PREVIEW_CONFIG` |
| `class_names.dfy` | `ClassNames` | `cn` |

How JavaScript is modelled:

- Strings are `seq<char>`.
- `\s` and `trim()` use the ECMAScript white-space and line-terminator set. That is tab, LF, VT, FF, CR, space, U+00A0, U+1680, U+2000–U+200A, U+2028, U+2029, U+202F, U+205F, U+3000 and U+FEFF.
- `toLowerCase` maps only `A`–`Z`.
- `\d` is `0`–`9`, and `\w` is `[A-Za-z0-9_]`.

Regular expressions:

- For each regular expression in the core, the outcome of backtracking is forced. Most are anchored or of fixed shape. For the email expression and `_{2,}`, the greedy runs are the ones backtracking settles on: `_{2,}` can only stop at the end of its run, and the email match is characterised by `Patterns.EmailSplit` (see `Patterns.EmailMatchIff`).
- Each expression is therefore written as a deterministic function that gives where the match starting at a position ends (`Patterns.MatchAt`).
- A replace with the `g` flag is a left-to-right scan (`Patterns.ReplaceFrom`). It replaces the match at the current position and resumes after it. Otherwise it keeps one character and moves on.

Other modelling choices:

- zod's `.email()` check is not modelled. It appears as a parameter `isEmail: string -> bool`, and every fact about `normalizeEmail` holds for any such predicate.
- zod runs every check of `columnNameSchema` and reports each failure, in the order `min(1)`, `max(100)`, `regex`; `""` fails both `min(1)` and the regex. The source keeps only the first failure, `error.errors[0]` (app/lib/utils/validation.ts:51). The model computes that first failure, with zod's default messages.
- `validateColumnNames` keeps its loop. It is a method proved against the recursive specification `ColumnErrors`.
- `redactPII` reassigns one local three times, with no loop. It is a function that composes the three passes. `preserveFormat` defaults to `false`, so the one-argument call `redactPII(text)` is `RedactPII(text, false)`.
- Confidence thresholds are integer hundredths.
- `RECIPES` is a `map<string, RecipeConfig>` keyed as the object literal is. An absent `requiresPro` reads as `false`.

## Model

| member | source | states |
|---|---|---|
| Text.ToLowerChar | app/lib/utils/validation.ts:13 | an upper-case ASCII letter becomes its lower-case letter, and every other character stays |
| Text.ToLower | app/lib/utils/validation.ts:13 | same length, no upper-case letter left, and every character is lowered on its own |
| Text.ToLowerIdempotent | app/lib/utils/validation.ts:13 | lowering twice is lowering once |
| Text.ToLowerKeepsLowerCase | app/lib/utils/file.ts:79 | a text without upper-case letters is unchanged by `toLowerCase` |
| Text.ToLowerAppend | app/lib/utils/validation.ts:13 | `toLowerCase` works character by character, so it distributes over concatenation |
| Text.TrimStart | app/lib/utils/validation.ts:13 | the result is a suffix that does not start with white space, and only white space was removed |
| Text.TrimEnd | app/lib/utils/validation.ts:13 | the result is a prefix that does not end with white space, and only white space was removed |
| Text.Trim | app/lib/utils/validation.ts:13 | the result has no white space at either end, is never longer, and a trimmed text is returned as is |
| Text.TrimIdempotent | app/lib/utils/validation.ts:13 | trimming twice is trimming once |
| Text.ToLowerKeepsTrimmed | app/lib/utils/validation.ts:13 | lowering a trimmed text keeps it trimmed |
| Text.LastIndexOf | app/lib/utils/file.ts:27 | -1 exactly when the character is absent; otherwise its position, with no occurrence after it |
| Text.Slice | app/lib/utils/file.ts:27 | `slice(start)`: a non-negative start cuts there, and a negative start counts back from the end |
| Text.PadStart | app/lib/utils/file.ts:68 | the result has the requested width, ends with the input, and is filled on the left |
| Text.JoinAppend | app/lib/utils/index.ts:8 | joining a concatenation puts exactly one separator between two non-empty halves |
| Text.IndexOf | app/lib/utils/index.ts:8 | -1 exactly when the character is absent; otherwise its first position. `cn` does not call `indexOf`: it serves the `split` that inverts the join, used to state `cn`'s round trip |
| Text.SplitJoin | app/lib/utils/index.ts:8 | splitting at a character no part contains gives back the joined parts. `cn` does not call `split`: this is the inverse of its `join`, used to state `cn`'s round trip |
| Text.JoinFirstAndLast | app/lib/utils/index.ts:8 | `join` of a non-empty list starts with its first part and ends with its last part |
| Text.EndsWithIff | app/lib/utils/file.ts:10 | `endsWith(suffix)` holds exactly when the text is some text followed by the suffix |
| Patterns.LastTldDot | app/lib/utils/validation.ts:103 | the last `.` in the range that two letters follow, or none exists |
| Patterns.EmailMatchAt | app/lib/utils/validation.ts:103 | an email match is non-empty and stays inside the text; what it matches is stated by the four lemmas below |
| Patterns.EmailMatchIsSplit | app/lib/utils/validation.ts:103 | a match is a split: a local-part run up to `@`, a non-empty domain run, `.`, and two or more letters up to the end of the match |
| Patterns.EmailMatchIsLongest | app/lib/utils/validation.ts:103 | every split starting at the position gives a match, whose dot is at or after the split's dot, and which ends no earlier when the dots agree |
| Patterns.EmailMatchIff | app/lib/utils/validation.ts:103 | there is a match exactly when some split starts at the position |
| Patterns.EmailMatchExact | app/lib/utils/validation.ts:103 | a split whose end is not followed by a domain character is exactly the match |
| Patterns.PhoneMatchAt | app/lib/utils/validation.ts:108 | a phone match is non-empty and stays inside the text |
| Patterns.SsnMatchAt | app/lib/utils/validation.ts:113 | an SSN match is exactly 11 characters long |
| Patterns.MatchAt | app/lib/utils/validation.ts:103-113 | an email match contains `@`; phone and SSN matches start with a digit; `[^a-z0-9.-]` and `\D` match one such character; `_{2,}` matches a whole run of at least two `_`, every character inside it an `_`, and the character after it, if any, is not `_` |
| Patterns.ReplaceFrom | app/lib/utils/validation.ts:103-113 | the global `replace` scan: with a replacement of at most one character, the output is never longer than the rest of the input |
| Patterns.ReplaceSkip | app/lib/utils/validation.ts:103-113 | where no match starts, the scan copies the text unchanged up to the next candidate |
| Patterns.ReplaceOneMatch | app/lib/utils/validation.ts:103-113 | a text with exactly one match becomes its prefix, the replacement and its suffix |
| Patterns.ReplaceOneMatchAround | app/lib/utils/validation.ts:103-113 | the same stated for `a + t + b` whose one match is `t`: the result is `a`, the replacement, `b` |
| Patterns.ReplaceWithoutMatch | app/lib/utils/validation.ts:103-113 | a global replace that finds no match returns its input |
| Patterns.ReplaceAllSplits | app/lib/utils/validation.ts:103-113 | when no match starts at the character `c` or reaches across it, the global replace of `x + [c] + y` is the replace of `x`, then `c`, then the replace of `y` |
| Patterns.PiiMatchesSplitAtSpace | app/lib/utils/validation.ts:103-113 | a white-space character is never inside an email, phone or SSN match, and the matches on either side of it are those of each side alone |
| Patterns.ReplaceSplitsAtSpace | app/lib/utils/validation.ts:103-113 | so each of the three PII passes works on the parts of a text between white space independently |
| Patterns.EmailReplaceWithoutAt | app/lib/utils/validation.ts:103 | without an `@` the email pass changes nothing |
| Patterns.DigitPatternReplaceWithoutDigit | app/lib/utils/validation.ts:108-113 | without a digit the phone and SSN passes change nothing |
| Validation.NormalizeEmail | app/lib/utils/validation.ts:11-19 | null, or a string that is trimmed, has no upper-case letters, passes the email check and is no longer than the input; non-null exactly when the trimmed, lowered input passes the check |
| Validation.NormalizeEmailOfPadded | app/lib/utils/validation.ts:13-15 | for a non-empty trimmed `t` between white space, the result is `t` lowered when that passes the check, and null otherwise |
| Validation.LooksLikeEmailIffNormalizes | app/lib/utils/validation.ts:87-94 | `looksLikeEmail` is the same check: a trimmed lower-case value passes it exactly when `normalizeEmail` returns it unchanged |
| Validation.NormalizeEmailIdempotent | app/lib/utils/validation.ts:13-15 | normalising an output gives the same output |
| Validation.TrimStartToLower | app/lib/utils/validation.ts:13 | lowering and trimming the start commute |
| Validation.TrimEndToLower | app/lib/utils/validation.ts:13 | lowering and trimming the end commute |
| Validation.NormalizeEmailIgnoresCase | app/lib/utils/validation.ts:13 | neither the case of the input nor white space around it changes the outcome |
| Validation.ColumnIssueOf | app/lib/utils/validation.ts:29-33 | no issue exactly when the name has 1 to 100 characters from `[a-zA-Z0-9_\s-]`; too short exactly for the empty name; too long exactly above 100 characters |
| Validation.ColumnErrorInjective | app/lib/utils/validation.ts:51 | the message `Invalid column name "<col>": <zod message>` determines both the column and the failed check |
| Validation.IssueMessageHasNoQuote | app/lib/utils/validation.ts:31-33 | none of the three zod messages contains `"` |
| Validation.ErrorsFor | app/lib/utils/validation.ts:47-52 | at most one message per column, and none exactly when the column is valid |
| Validation.ColumnErrors | app/lib/utils/validation.ts:46-54 | never more messages than columns |
| Validation.ColumnErrorsEmptyIff | app/lib/utils/validation.ts:56-58 | no messages exactly when every column is valid |
| Validation.ColumnErrorsAppend | app/lib/utils/validation.ts:46-54 | the messages keep the column order: they distribute over concatenation |
| Validation.ValidateColumnNames | app/lib/utils/validation.ts:38-60 | `[]` gives invalid with the single "At least one column must be selected"; otherwise one message per failing column in input order, and valid exactly when every column passes, exactly when there are no messages |
| Validation.DayMonthYearSplitOfShape | app/lib/utils/validation.ts:70 | the greedy reading of `\d{1,2}\s+\w+\s+\d{4}` yields a split into its four runs |
| Validation.DayMonthYearShapeOfSplit | app/lib/utils/validation.ts:70 | any split into the four runs is found by the greedy reading |
| Validation.DayMonthYearShapeIff | app/lib/utils/validation.ts:70 | the deterministic reading accepts exactly the texts the pattern matches |
| Validation.LooksLikeDate | app/lib/utils/validation.ts:65-73 | an accepted value, once trimmed, has at least 8 characters and begins and ends with a digit |
| Validation.DateShapesAreDigitBounded | app/lib/utils/validation.ts:67-70 | each of the four date expressions matches only texts of at least 8 characters that begin and end with a digit |
| Validation.LooksLikeDateTrimmed | app/lib/utils/validation.ts:72 | the answer depends only on the trimmed value |
| Validation.TrimAroundTrimmed | app/lib/utils/validation.ts:72 | trimming white space around a trimmed text gives that text |
| Validation.TrimStartPastSpaces | app/lib/utils/validation.ts:72 | trimming the start removes exactly a leading white-space block |
| Validation.TrimEndPastSpaces | app/lib/utils/validation.ts:72 | trimming the end removes exactly a trailing white-space block |
| Validation.IsoShapeLooksLikeDate | app/lib/utils/validation.ts:67-72 | any `dddd-dd-dd`, padded with white space or not, is accepted, whatever its digits |
| Validation.OutOfRangeDateLooksLikeDate | app/lib/utils/validation.ts:67 | "2024-13-45" is accepted: only the shape is checked |
| Validation.WrittenDateShape | app/lib/utils/validation.ts:70 | "1 January 2024" matches `\d{1,2}\s+\w+\s+\d{4}` |
| Validation.WrittenDateLooksLikeDate | app/lib/utils/validation.ts:70 | "1 January 2024" is accepted |
| Validation.DigitsOf | app/lib/utils/validation.ts:80 | removing `\D` leaves only digits and never lengthens the text |
| Validation.DigitsFromAreDigits | app/lib/utils/validation.ts:80 | removing `\D` keeps exactly the digits: as many as the text has |
| Validation.DigitCountBound | app/lib/utils/validation.ts:80 | a text has no more digits than characters |
| Validation.LooksLikePhoneIff | app/lib/utils/validation.ts:78-82 | `looksLikePhone` is accepted exactly when non-empty, every character is a digit, white space, `(`, `)`, `+` or `-`, and there are 7 to 15 digits; so an accepted value has at least 7 characters |
| Validation.LooksLikePhoneDigitsOnly | app/lib/utils/validation.ts:78-82 | for a value of phone characters, the answer is the answer for its digits alone |
| Validation.DigitCountOfDigits | app/lib/utils/validation.ts:80 | a run of digits has as many digits as characters |
| Validation.DigitRunLooksLikePhone | app/lib/utils/validation.ts:78-82 | any run of 7 to 15 digits is accepted |
| Validation.SixDigitsDoNotLookLikePhone | app/lib/utils/validation.ts:81 | six digits are too few |
| Validation.RedactPII | app/lib/utils/validation.ts:99-116 | a text with no `@` and no digit comes back unchanged in both modes |
| Validation.RedactPIIAcrossSpace | app/lib/utils/validation.ts:99-116 | in both modes, redacting a text split at a white-space character is redacting each side and keeping the character between them |
| Validation.DigitPassesKeepDigitFree | app/lib/utils/validation.ts:107-113 | a text without digits is untouched by the phone and SSN passes |
| Validation.RedactsSsnInContext | app/lib/utils/validation.ts:99-116 | an SSN `ddd-dd-dddd` inside text with no digit and no `@`, with a non-word character or the text's edge on each side, becomes `[SSN]` and the text around it is kept, in both modes |
| Validation.SsnContextMatchAt | app/lib/utils/validation.ts:113 | in such a text the SSN expression matches the SSN whole and nowhere else |
| Validation.RedactsWholeSsn | app/lib/utils/validation.ts:113 | a text that is exactly `ddd-dd-dddd` becomes `[SSN]` in both modes; the case of empty context |
| Validation.PhoneShapeMatchesAt | app/lib/utils/validation.ts:108 | three digits, an optional `-` or `.`, three digits, an optional `-` or `.` and four digits, with a word boundary on each side, are matched whole by the phone expression |
| Validation.PhoneInContextMatches | app/lib/utils/validation.ts:108 | a phone number with a non-word character or the text's edge on each side is matched whole, and has no `@` |
| Validation.NoSsnAroundPlaceholder | app/lib/utils/validation.ts:108-113 | the SSN pass leaves the `555-555-5555` placeholder, and digit-free text around it, alone |
| Validation.RedactsPhoneInContext | app/lib/utils/validation.ts:99-116 | a phone number `ddd[-.]?ddd[-.]?dddd` inside text with no digit and no `@`, with a non-word character or the text's edge on each side, becomes `[PHONE]`, or `555-555-5555` when the format is preserved, and the text around it is kept |
| Validation.RedactsWholePhone | app/lib/utils/validation.ts:108-110 | a text that is exactly `ddd[-.]?ddd[-.]?dddd` becomes `[PHONE]`, or `555-555-5555` when the format is preserved; the case of empty context |
| Validation.EmailInContextMatches | app/lib/utils/validation.ts:103 | `local@domain.tld` followed by the text's end or by a character outside `[a-zA-Z0-9.-]` is matched whole by the email expression |
| Validation.NoEmailMatchAround | app/lib/utils/validation.ts:103 | text with no `@` and no digit, not ending in a local-part character, holds no email match before or after the address |
| Validation.RedactsEmailInContext | app/lib/utils/validation.ts:99-116 | an address `local@domain.tld` inside text with no digit and no `@`, not preceded by a local-part character and not followed by a domain character, becomes `[EMAIL]`, or `email@example.com` when the format is preserved, and the text around it is kept |
| Validation.RedactsWholeEmail | app/lib/utils/validation.ts:103-105 | a text that is exactly an email address becomes `[EMAIL]`, or `email@example.com` when the format is preserved; the case of empty context |
| FileUtils.GetFileExtension | app/lib/utils/file.ts:26-28 | the result is a suffix of the lower-cased name; with a `.` in the name it starts with `.` and has no other `.`; without one it is the last character lowered, or `''` for an empty name |
| FileUtils.LowerTailHasNoDot | app/lib/utils/file.ts:27 | the lower-cased text after the last `.` contains no `.` |
| FileUtils.EndsWithExtensionIff | app/lib/utils/file.ts:9-11 | for a `.`-led extension without another `.`, the lowered name ends with it exactly when it is the name's extension |
| FileUtils.AnyEndsWithIff | app/lib/utils/file.ts:9-11 | `ALLOWED_FILE_EXTENSIONS.some(ext => name.toLowerCase().endsWith(ext))` (`AnyEndsWith`): for `.`-led extensions without another `.`, it holds exactly when the name's extension is in the list |
| FileUtils.IsValidFileType | app/lib/utils/file.ts:7-13 | accepted exactly when the MIME type is allowed or the name's extension is `.csv`, `.xls` or `.xlsx` |
| FileUtils.FileTypeIgnoresNameCase | app/lib/utils/file.ts:10 | lower-casing the name does not change the answer |
| FileUtils.IsValidFileSize | app/lib/utils/file.ts:18-21 | accepted exactly when the size is at most the plan's limit in MB times 1024 × 1024, inclusive |
| FileUtils.FreeSizeFitsPro | app/lib/utils/file.ts:18-21 | a size accepted on Free is accepted on Pro |
| FileUtils.EstimateRowCount | app/lib/utils/file.ts:56-59 | the result is `bytes / 100` rounded down, 0 below 100 bytes, and never negative for a non-negative size |
| FileUtils.EstimateRowCountMonotone | app/lib/utils/file.ts:58 | a larger file never gives a smaller estimate |
| FileUtils.ToLowerCharKeeps | app/lib/utils/file.ts:79 | lowering never creates or removes a character that is not a letter |
| FileUtils.ReplaceDisallowedFrom | app/lib/utils/file.ts:77 | the first pass keeps the length, keeps `[A-Za-z0-9.-]` and turns every other character into `_` |
| FileUtils.CollapseFrom | app/lib/utils/file.ts:78 | the second pass never lengthens the text, keeps its first character and leaves no `__` |
| FileUtils.CollapseKeepsChars | app/lib/utils/file.ts:78 | the second pass writes only `_` or characters of its input |
| FileUtils.CollapseWithoutRun | app/lib/utils/file.ts:78 | a text without `__` is unchanged by the second pass |
| FileUtils.SanitizeFilename | app/lib/utils/file.ts:75-80 | the result uses only `a-z`, `0-9`, `.`, `-` and `_`, never has `__`, and is never longer than the input |
| FileUtils.SanitizeKeepsSanitized | app/lib/utils/file.ts:75-80 | a name already of that form is returned unchanged |
| FileUtils.SanitizeIdempotent | app/lib/utils/file.ts:75-80 | sanitising twice is sanitising once |
| FileUtils.HexDigit | app/lib/utils/file.ts:68 | each digit is `0`–`9` or `a`–`f` |
| FileUtils.HexValue | app/lib/utils/file.ts:68 | the value of a hex digit, between 0 and 15 |
| FileUtils.HexDigitValue | app/lib/utils/file.ts:68 | reading a hex digit back gives the value it was written for |
| FileUtils.ToRadix16 | app/lib/utils/file.ts:68 | `toString(16)` gives lower-case hex digits, with no leading zero, that denote the number; one digit exactly below 16 |
| FileUtils.ByteToHex | app/lib/utils/file.ts:68 | always two lower-case hex digits, and they denote the byte |
| FileUtils.ByteToHexIsPaddedRadix | app/lib/utils/file.ts:68 | `toString(16).padStart(2, '0')` gives exactly those two digits for every byte, so one-digit bytes get a leading `0` |
| FileUtils.HexEncode | app/lib/utils/file.ts:67-68 | the hex text is twice as long as the digest |
| FileUtils.HexEncodeShape | app/lib/utils/file.ts:67-68 | the hex text is made only of lower-case hex digits |
| FileUtils.HexEncodeAt | app/lib/utils/file.ts:68 | byte `i` is written at positions `2i` and `2i+1` |
| FileUtils.DecodeHex | app/lib/utils/file.ts:68 | reading pairs back gives one byte per two digits |
| FileUtils.HexRoundTrip | app/lib/utils/file.ts:67-69 | reading the hex text back gives the digest bytes, so the text determines the digest |
| Constants.Recipe | app/lib/constants.ts:4-70 | looking up a member of the `RecipeType` union always succeeds, and the entry's `id` is its key |
| Constants.RecipeKeysCoverUnion | app/lib/constants.ts:4-70 | every union member is a key, and its entry's `id` is that member |
| Constants.RecipeKeysAreNames | app/lib/constants.ts:4-70 | every key is a union member |
| Constants.RecipeNamesDistinct | app/types/index.ts:25-32 | distinct union members have distinct literals |
| Constants.RecipeEntitlements | app/lib/constants.ts:50-69 | `requiresPro` is set exactly on `map_job_titles` and `normalize_companies`, exactly the `llm` recipes; every recipe requires columns |
| Constants.RecipeEngines | app/lib/constants.ts:10-66 | `hybrid` exactly for dates and phones; `pandas` exactly for dedupe, emails and names |
| Constants.FileLimits | app/lib/constants.ts:75-88 | on both plans the byte limit is the MB limit times 1024 × 1024 |
| Constants.ProLimitsExceedFree | app/lib/constants.ts:75-88 | every Pro limit exceeds the Free one: MB, bytes, rows and jobs per day |
| Constants.RateLimits | app/lib/constants.ts:207-216 | the per-minute budget never exceeds the per-hour budget |
| Constants.ProRatesExceedFree | app/lib/constants.ts:207-216 | Pro allows more requests than Free per minute and per hour |
| Constants.AllowedExtensionsAreDotSuffixes | app/lib/constants.ts:97 | each allowed extension is a `.` and at least two further characters, none of them `.` |
| Constants.ThresholdsOrdered | app/lib/constants.ts:134-139 | in hundredths: low < medium < needsReview < high ≤ 100 |
| Constants.LlmSettingsUnits | app/lib/constants.ts:142-147 | the cache lasts 30 days, 2592000 seconds, and the timeout is 30 seconds |
| Constants.SeniorityNamesDistinct | app/types/index.ts:67 | distinct labels of the classification type have distinct literals |
| Constants.SeniorityLevelsMatchLabels | app/lib/constants.ts:150-160 | nine labels in the order of the classification label type, ending in `Unknown`, and the same set as that type |
| Constants.SeniorityLevelsDistinct | app/lib/constants.ts:150-160 | no level is listed twice |
| Constants.PreviewFitsLimit | app/lib/constants.ts:219-224 | top, bottom and sampled rows add up to 30, within the 100 shown |
| ClassNames.Kept | app/lib/utils/index.ts:8 | an argument is kept exactly when it is truthy, and then as the one-element list of its own string |
| ClassNames.Survivors | app/lib/utils/index.ts:8 | the survivors are never more than the arguments |
| ClassNames.SurvivorsNonEmpty | app/lib/utils/index.ts:8 | no survivor is the empty string |
| ClassNames.SurvivorsEmptyIff | app/lib/utils/index.ts:8 | nothing survives exactly when every argument is `undefined`, `null`, `false` or `''` |
| ClassNames.SurvivorsAppend | app/lib/utils/index.ts:8 | the filter keeps argument order: it distributes over concatenation |
| ClassNames.Cn | app/lib/utils/index.ts:7-9 | `''` exactly when no argument is truthy |
| ClassNames.CnSingle | app/lib/utils/index.ts:8 | a single truthy argument comes back unchanged, and a falsy one gives `''` |
| ClassNames.CnAppend | app/lib/utils/index.ts:8 | the result for `a + b` is the result for `a`, one space when both are non-empty, then the result for `b` |
| ClassNames.CnDropsFalsy | app/lib/utils/index.ts:8 | a falsy argument anywhere gives the same result as leaving it out |
| ClassNames.CnSplitsIntoSurvivors | app/lib/utils/index.ts:8 | when no surviving name contains a space, splitting the result at spaces gives back the survivors in order |

## Left out

- zod's `.email()` and `.uuid()` are not modelled. The email check is a parameter of `NormalizeEmail`, and `uuidSchema` is not part of this model.
- `looksLikeEmail` is the same zod check and appears only as the predicate `LooksLikeEmail`.
- Lengths count Dafny characters, which are Unicode scalar values. JavaScript counts UTF-16 code units, so zod's `min(1)`/`max(100)` and `slice(-1)` differ for characters outside the Basic Multilingual Plane.
- `toLowerCase` is modelled for ASCII letters only. Non-ASCII letters are left as they are.
- `formatFileSize` is not modelled, because it uses floating-point `Math.log`, `Math.pow` and rounding.
- `generateStorageKey` is not modelled, because it reads the clock and `Math.random`.
- `calculateFileHash` is not modelled apart from its hex step. It reads the file asynchronously and calls the SHA-256 digest.
- FileUtils.EstimateRowCount: file sizes are integers. Fractional inputs of the JavaScript `number` are not modelled.
- FileUtils.UploadedFile keeps only `name`, `type` and `size` of the browser `File`.
- `sleep` and `generateId` in app/lib/utils/index.ts are not modelled, because they use timers and randomness.
- The re-exports in app/lib/utils/index.ts are not modelled.
- `PRICING` is not modelled. Its `priceId` reads `process.env`, and the rest is display text.
- `RecipeEngine` in app/types/index.ts lists only `pandas` and `llm`, while the registry also uses `hybrid`. The model's `Engine` has all three literals the registry uses.
- `NAME_EXCEPTIONS` and `COMPANY_SUFFIXES` are kept as constants only. No code in this model reads them.
- Constants.RecipeKeysCoverUnion: the number of keys, seven, follows from the bijection with the union and is not stated separately.
