/**
  The regular expressions the utilities apply with a global `replace`, each
  written as a deterministic matcher, and the left-to-right scan that
  `String.prototype.replace` performs with the `g` flag.

  Each matcher says where the match that JavaScript's backtracking engine
  selects at a given start position ends, or that there is none there. For
  these expressions the backtracking choices are forced, which the comments
  on each matcher explain.
 */
module Patterns {
  import opened Wrappers
  import opened Text

  /** Character classes that the expressions repeat. */
  datatype CharClass =
    | Digits          // \d
    | Spaces          // \s
    | WordChars       // \w
    | Letters         // [a-zA-Z]
    | LocalPartChars  // [a-zA-Z0-9._%+-]
    | DomainChars     // [a-zA-Z0-9.-]
    | Underscores     // _

  predicate InClass(k: CharClass, c: char)
  {
    match k
    case Digits => IsDigit(c)
    case Spaces => IsSpace(c)
    case WordChars => IsWordChar(c)
    case Letters => IsLetter(c)
    case LocalPartChars => IsLetter(c) || IsDigit(c) || c in "._%+-"
    case DomainChars => IsLetter(c) || IsDigit(c) || c == '.' || c == '-'
    case Underscores => c == '_'
  }

  /** End of the longest run of class `k` that starts at `i` (a greedy `k*`). */
  function RunEnd(s: string, i: nat, k: CharClass): (e: nat)
    requires i <= |s|
    ensures i <= e <= |s|
    ensures forall j {:trigger InClass(k, s[j])} | i <= j < e :: InClass(k, s[j])
    ensures e == |s| || !InClass(k, s[e])
    decreases |s| - i
  {
    if i < |s| && InClass(k, s[i]) then RunEnd(s, i + 1, k) else i
  }

  /** Every character in `[a, b)` is of class `k`. */
  predicate RunOf(s: string, a: nat, b: nat, k: CharClass)
  {
    a <= b <= |s| && forall x | a <= x < b :: InClass(k, s[x])
  }

  /** `a` is empty or ends in a character outside class `k`. */
  predicate EndsOutside(a: string, k: CharClass)
  {
    a == [] || !InClass(k, a[|a| - 1])
  }

  /** `b` is empty or starts with a character outside class `k`. */
  predicate StartsOutside(b: string, k: CharClass)
  {
    b == [] || !InClass(k, b[0])
  }

  /** A run that nothing of its class follows is the greedy run. */
  lemma RunEndAt(s: string, a: nat, b: nat, k: CharClass)
    requires RunOf(s, a, b, k)
    requires b == |s| || !InClass(k, s[b])
    ensures RunEnd(s, a, k) == b
  {
  }

  /** `#` stands for `\d`; every other template character stands for itself. */
  predicate MatchesTemplate(t: string, template: string)
  {
    && |t| == |template|
    && forall i | 0 <= i < |t| :: if template[i] == '#' then IsDigit(t[i]) else t[i] == template[i]
  }

  /** `\b` at position `i`. */
  predicate IsWordBoundary(s: string, i: nat)
    requires i <= |s|
  {
    (i > 0 && IsWordChar(s[i - 1])) != (i < |s| && IsWordChar(s[i]))
  }

  /** `n` digits start at `i`. */
  predicate DigitsAt(s: string, i: nat, n: nat)
  {
    i + n <= |s| && forall j | i <= j < i + n :: IsDigit(s[j])
  }

  /** A `.` at `p` followed by two letters: where `\.[a-zA-Z]{2,}` can start. */
  predicate TldDotAt(s: string, p: nat)
  {
    p + 2 < |s| && s[p] == '.' && IsLetter(s[p + 1]) && IsLetter(s[p + 2])
  }

  /** The last `p` in `[lo, hi)` with `TldDotAt(s, p)`. */
  function LastTldDot(s: string, lo: nat, hi: nat): (r: Option<nat>)
    requires lo <= hi <= |s|
    ensures r.Some? ==> lo <= r.value < hi && TldDotAt(s, r.value)
    ensures r.Some? ==> forall q | r.value < q < hi :: !TldDotAt(s, q)
    ensures r.None? ==> forall q | lo <= q < hi :: !TldDotAt(s, q)
    decreases hi - lo
  {
    if lo == hi then None
    else if TldDotAt(s, hi - 1) then Some(hi - 1)
    else LastTldDot(s, lo, hi - 1)
  }

  const SsnTemplate := "###-##-####"

  predicate IsPhoneSeparator(c: char) { c == '-' || c == '.' }

  datatype Pattern =
    | EmailAddress           // [a-zA-Z0-9._%+-]+@[a-zA-Z0-9.-]+\.[a-zA-Z]{2,}
    | PhoneNumber            // \b\d{3}[-.]?\d{3}[-.]?\d{4}\b
    | SsnLike                // \b\d{3}-\d{2}-\d{4}\b
    | DisallowedFilenameChar // [^a-z0-9.-] with the i flag
    | UnderscoreRun          // _{2,}
    | NonDigit               // \D

  /**
    The local part `[...]+` cannot contain `@`, so it must run from `i` up to
    the end of its greedy run, and `@` must follow. The domain part
    `[a-zA-Z0-9.-]+` backtracks from the end of its greedy run to the last
    `.` that two letters follow; the top-level domain then takes every letter
    after that `.`.
   */
  function EmailMatchAt(s: string, i: nat): (r: Option<nat>)
    requires i <= |s|
    ensures r.Some? ==> i < r.value <= |s|
  {
    DomainAfterLocal(s, i, RunEnd(s, i, LocalPartChars))
  }

  /** Given the local part `[i, k)`, the `@` at `k` and the domain after it. */
  function DomainAfterLocal(s: string, i: nat, k: nat): Option<nat>
    requires i <= k <= |s|
  {
    if k == i || k == |s| || s[k] != '@' then None else DomainMatchAt(s, k)
  }

  lemma EmailMatchHasAt(s: string, i: nat)
    requires i <= |s|
    ensures EmailMatchAt(s, i).Some? ==> '@' in s[i..EmailMatchAt(s, i).value]
  {
    var k := RunEnd(s, i, LocalPartChars);
    var r := EmailMatchAt(s, i);
    if r.Some? {
      assert s[i..r.value][k - i] == '@';
    }
  }

  /** Where `[a-zA-Z0-9.-]+\.[a-zA-Z]{2,}` ends when the `@` before it is at `k`. */
  function DomainMatchAt(s: string, k: nat): (r: Option<nat>)
    requires k < |s|
    ensures r.Some? ==> k + 2 < r.value <= |s|
  {
    DomainTail(s, k + 2, RunEnd(s, k + 1, DomainChars))
  }

  /** Given the domain run ends at `m`, the end of the TLD after the last usable dot in `[lo, m)`. */
  function DomainTail(s: string, lo: nat, m: nat): Option<nat>
    requires m <= |s|
  {
    if m < lo then None else TldEnd(s, LastTldDot(s, lo, m))
  }

  /** The end of the letters after the dot at `t`, if there is one. */
  function TldEnd(s: string, t: Option<nat>): Option<nat>
    requires t.Some? ==> t.value < |s|
  {
    if t.Some? then Some(RunEnd(s, t.value + 1, Letters)) else None
  }

  /**
    A reading of `[a-zA-Z0-9._%+-]+@[a-zA-Z0-9.-]+\.[a-zA-Z]{2,}` on `s[i..e]`:
    the local part `[i, k)`, the `@` at `k`, the domain `[k + 1, p)`, the `.`
    at `p` and the top-level domain `[p + 1, e)`.
   */
  predicate EmailSplit(s: string, i: nat, k: nat, p: nat, e: nat)
  {
    && i < k && k + 1 < p && p + 3 <= e <= |s|
    && RunOf(s, i, k, LocalPartChars) && s[k] == '@'
    && RunOf(s, k + 1, p, DomainChars) && s[p] == '.'
    && RunOf(s, p + 1, e, Letters)
  }

  /** The greedy run from `a` covers every run of the same class from `a`. */
  lemma RunEndCovers(s: string, a: nat, b: nat, k: CharClass)
    requires RunOf(s, a, b, k)
    ensures b <= RunEnd(s, a, k)
  {
  }

  /** A match found by `EmailMatchAt` is a reading of the expression. */
  lemma EmailMatchIsSplit(s: string, i: nat)
    requires i <= |s| && EmailMatchAt(s, i).Some?
    ensures exists p: nat :: EmailSplit(s, i, RunEnd(s, i, LocalPartChars), p, EmailMatchAt(s, i).value)
  {
    var k := RunEnd(s, i, LocalPartChars);
    var m := RunEnd(s, k + 1, DomainChars);
    var p := LastTldDot(s, k + 2, m).value;
    var e := RunEnd(s, p + 1, Letters);
    TopLevelDomainRun(s, p);
    assert EmailSplit(s, i, k, p, e);
  }

  /**
    Every reading of the expression from `i` is found, and the one chosen is the
    one backtracking tries first: its `.` is at least as far right as that of any
    reading and, for the same `.`, it ends at least as far right.
   */
  lemma EmailMatchIsLongest(s: string, i: nat, k: nat, p: nat, e: nat)
    requires EmailSplit(s, i, k, p, e)
    ensures EmailMatchAt(s, i).Some?
    ensures exists q: nat ::
      && p <= q && EmailSplit(s, i, k, q, EmailMatchAt(s, i).value)
      && (q == p ==> e <= EmailMatchAt(s, i).value)
  {
    assert !InClass(LocalPartChars, s[k]);
    RunEndAt(s, i, k, LocalPartChars);
    var m := RunEnd(s, k + 1, DomainChars);
    EmailDotReached(s, k, p, e);
    var q := LastTldDot(s, k + 2, m).value;
    var r := RunEnd(s, q + 1, Letters);
    TopLevelDomainRun(s, q);
    if q == p {
      RunEndCovers(s, p + 1, e, Letters);
    }
    EmailMatchFromDot(s, i, k, m, q);
    assert RunOf(s, k + 1, q, DomainChars);
    assert RunOf(s, q + 1, r, Letters);
    assert EmailSplit(s, i, k, q, r);
  }

  /** A reading that no domain character follows is exactly the match the expression finds. */
  lemma EmailMatchExact(s: string, i: nat, k: nat, p: nat, e: nat)
    requires EmailSplit(s, i, k, p, e)
    requires e == |s| || !InClass(DomainChars, s[e])
    ensures EmailMatchAt(s, i) == Some(e)
  {
    EmailMatchIsLongest(s, i, k, p, e);
    var r := EmailMatchAt(s, i).value;
    var q: nat :| p <= q && EmailSplit(s, i, k, q, r) && (q == p ==> e <= r);
    assert q < e;
    assert q == p;
    assert r == e;
  }

  /** The same, read through `MatchAt`. */
  lemma EmailSplitIsMatch(s: string, i: nat, k: nat, p: nat, e: nat)
    requires EmailSplit(s, i, k, p, e)
    requires e == |s| || !InClass(DomainChars, s[e])
    ensures MatchAt(EmailAddress, s, i) == Some(e)
  {
    EmailMatchExact(s, i, k, p, e);
  }

  /** The matcher's result once its local run, domain run and last `.` are known. */
  lemma EmailMatchFromDot(s: string, i: nat, k: nat, m: nat, q: nat)
    requires i < k < |s| && s[k] == '@' && k + 2 <= m
    requires RunEnd(s, i, LocalPartChars) == k && RunEnd(s, k + 1, DomainChars) == m
    requires LastTldDot(s, k + 2, m) == Some(q)
    ensures EmailMatchAt(s, i) == Some(RunEnd(s, q + 1, Letters))
  {
  }

  /** The last `.` the domain run offers is at or after the `.` of any reading. */
  lemma EmailDotReached(s: string, k: nat, p: nat, e: nat)
    requires k + 1 < p && p + 3 <= e <= |s|
    requires RunOf(s, k + 1, p, DomainChars) && s[p] == '.' && RunOf(s, p + 1, e, Letters)
    ensures var m := RunEnd(s, k + 1, DomainChars);
      p + 3 <= m && LastTldDot(s, k + 2, m).Some? && p <= LastTldDot(s, k + 2, m).value
  {
    var m := RunEnd(s, k + 1, DomainChars);
    assert RunOf(s, k + 1, p + 3, DomainChars) by {
      assert IsLetter(s[p + 1]) && IsLetter(s[p + 2]);
    }
    RunEndCovers(s, k + 1, p + 3, DomainChars);
    assert TldDotAt(s, p);
  }

  /** After a `.` that two letters follow, the letter run has at least those two. */
  lemma TopLevelDomainRun(s: string, q: nat)
    requires TldDotAt(s, q)
    ensures q + 3 <= RunEnd(s, q + 1, Letters)
  {
    assert RunOf(s, q + 1, q + 3, Letters);
    RunEndCovers(s, q + 1, q + 3, Letters);
  }

  /** The matcher finds a match from `i` exactly when the expression can be read there. */
  lemma EmailMatchIff(s: string, i: nat)
    requires i <= |s|
    ensures EmailMatchAt(s, i).Some? <==> exists k: nat, p: nat, e: nat :: EmailSplit(s, i, k, p, e)
  {
    if EmailMatchAt(s, i).Some? {
      EmailMatchIsSplit(s, i);
    }
    if exists k: nat, p: nat, e: nat :: EmailSplit(s, i, k, p, e) {
      var k: nat, p: nat, e: nat :| EmailSplit(s, i, k, p, e);
      EmailMatchIsLongest(s, i, k, p, e);
    }
  }

  /**
    Each optional separator is taken exactly when a separator is there, since
    a digit must follow otherwise; so at most one alternative is tried.
   */
  function PhoneMatchAt(s: string, i: nat): (r: Option<nat>)
    requires i <= |s|
    ensures r.Some? ==> i < r.value <= |s|
  {
    if IsWordBoundary(s, i) && DigitsAt(s, i, 3) then PhoneAfterArea(s, SkipSeparator(s, i + 3)) else None
  }

  /** Where `[-.]?` from `a` ends. */
  function SkipSeparator(s: string, a: nat): (r: nat)
    ensures r == a || (r == a + 1 && a < |s| && IsPhoneSeparator(s[a]))
  {
    if a < |s| && IsPhoneSeparator(s[a]) then a + 1 else a
  }

  /** `\d{3}[-.]?\d{4}\b` from `b`: the exchange and the line number. */
  function PhoneAfterArea(s: string, b: nat): (r: Option<nat>)
    ensures r.Some? ==> b < r.value <= |s|
  {
    if DigitsAt(s, b, 3) then PhoneLine(s, SkipSeparator(s, b + 3)) else None
  }

  /** `\d{4}\b` from `f`: the line number. */
  function PhoneLine(s: string, f: nat): (r: Option<nat>)
    ensures r.Some? ==> r.value == f + 4 <= |s|
  {
    if DigitsAt(s, f, 4) && IsWordBoundary(s, f + 4) then Some(f + 4) else None
  }

  function SsnMatchAt(s: string, i: nat): (r: Option<nat>)
    requires i <= |s|
    ensures r.Some? ==> r.value == i + 11 <= |s|
  {
    if i + 11 <= |s| && IsWordBoundary(s, i) && MatchesTemplate(s[i..i + 11], SsnTemplate)
       && IsWordBoundary(s, i + 11)
    then Some(i + 11)
    else None
  }

  /** `_{2,}`: the whole run of underscores from `i`, if it has at least two. */
  function UnderscoreRunAt(s: string, i: nat): (r: Option<nat>)
    requires i <= |s|
    ensures r.Some? ==> i + 2 <= r.value <= |s|
    ensures r.Some? ==> forall j | i <= j < r.value :: s[j] == '_'
    ensures r.Some? ==> r.value == |s| || s[r.value] != '_'
    ensures r.None? ==> i + 1 >= |s| || s[i] != '_' || s[i + 1] != '_'
  {
    if i + 1 < |s| && s[i] == '_' && s[i + 1] == '_' then
      var e := RunEnd(s, i, Underscores);
      assert forall j | i <= j < e :: InClass(Underscores, s[j]);
      Some(e)
    else None
  }

  /** `[a-z0-9.-]` with the `i` flag is exactly `[A-Za-z0-9.-]`. */
  predicate IsFilenameChar(c: char) { IsLetter(c) || IsDigit(c) || c == '.' || c == '-' }

  /** Where the match of `p` that starts at `i` ends, if there is one. */
  function MatchAt(p: Pattern, s: string, i: nat): (r: Option<nat>)
    requires i <= |s|
    ensures r.Some? ==> i < r.value <= |s|
    ensures r.Some? && p == EmailAddress ==> '@' in s[i..r.value]
    ensures r.Some? && (p == PhoneNumber || p == SsnLike) ==> IsDigit(s[i])
    ensures r.Some? && p == DisallowedFilenameChar ==> r.value == i + 1 && !IsFilenameChar(s[i])
    ensures r.Some? && p == NonDigit ==> r.value == i + 1 && !IsDigit(s[i])
    ensures r.None? && p == NonDigit && i < |s| ==> IsDigit(s[i])
    ensures r.Some? && p == UnderscoreRun ==> i + 2 <= r.value && s[i] == '_'
    ensures r.Some? && p == UnderscoreRun ==> forall j | i <= j < r.value :: s[j] == '_'
    ensures r.Some? && p == UnderscoreRun ==> r.value == |s| || s[r.value] != '_'
  {
    match p
    case EmailAddress => EmailMatchHasAt(s, i); EmailMatchAt(s, i)
    case PhoneNumber => PhoneMatchAt(s, i)
    case SsnLike => SsnMatchAt(s, i)
    case DisallowedFilenameChar =>
      if i < |s| && !IsFilenameChar(s[i]) then Some(i + 1) else None
    case NonDigit =>
      if i < |s| && !IsDigit(s[i]) then Some(i + 1) else None
    case UnderscoreRun => UnderscoreRunAt(s, i)
  }

  /**
    `s.replace(p, repl)` with the `g` flag, from position `i` on: at each
    position the match there is replaced and the scan resumes after it;
    otherwise the character is kept and the scan moves on by one.
   */
  function ReplaceFrom(s: string, p: Pattern, repl: string, i: nat): (r: string)
    requires i <= |s|
    ensures |repl| <= 1 ==> |r| <= |s| - i
    decreases |s| - i
  {
    if i == |s| then ""
    else
      match MatchAt(p, s, i)
      case Some(e) => repl + ReplaceFrom(s, p, repl, e)
      case None => [s[i]] + ReplaceFrom(s, p, repl, i + 1)
  }

  function ReplaceAll(s: string, p: Pattern, repl: string): string
  {
    ReplaceFrom(s, p, repl, 0)
  }

  /** A scan that finds no match copies the rest of the string. */
  lemma ReplaceWithoutMatch(s: string, p: Pattern, repl: string, i: nat)
    requires i <= |s|
    requires forall j | i <= j < |s| :: MatchAt(p, s, j).None?
    ensures ReplaceFrom(s, p, repl, i) == s[i..]
  {
    ReplaceSkip(s, p, repl, i, |s|);
    assert s[i..|s|] + "" == s[i..];
  }

  /** A stretch of text where no match starts is copied as it is. */
  lemma ReplaceSkip(s: string, p: Pattern, repl: string, i: nat, j: nat)
    requires i <= j <= |s|
    requires forall x | i <= x < j :: MatchAt(p, s, x).None?
    ensures ReplaceFrom(s, p, repl, i) == s[i..j] + ReplaceFrom(s, p, repl, j)
  {
    var t := MatchTable(p, s);
    TableOfIsValid(p, s, t);
    forall x | i <= x < j
      ensures t[x].None?
    {
      assert t[x] == MatchAt(p, s, x);
    }
    ScanTableSkip(s, t, repl, i, j);
    ReplaceFromTable(s, p, repl, t, i);
    ReplaceFromTable(s, p, repl, t, j);
  }

  /** Where no match starts, the scan copies one character and moves on. */
  lemma ReplaceReplaces(s: string, p: Pattern, repl: string, i: nat, e: nat)
    requires i < |s| && MatchAt(p, s, i) == Some(e)
    ensures e <= |s| && ReplaceFrom(s, p, repl, i) == repl + ReplaceFrom(s, p, repl, e)
  {
  }

  lemma ReplaceCopies(s: string, p: Pattern, repl: string, i: nat)
    requires i < |s| && MatchAt(p, s, i).None?
    ensures ReplaceFrom(s, p, repl, i) == [s[i]] + ReplaceFrom(s, p, repl, i + 1)
  {
  }

  /** With a single match, from `i` to `e`, that match is replaced and the text around it kept. */
  lemma ReplaceOneMatch(s: string, p: Pattern, repl: string, i: nat, e: nat)
    requires i <= |s| && MatchAt(p, s, i) == Some(e)
    requires forall x | 0 <= x < i :: MatchAt(p, s, x).None?
    requires forall x | e <= x < |s| :: MatchAt(p, s, x).None?
    ensures ReplaceAll(s, p, repl) == s[..i] + repl + s[e..]
  {
    ReplaceSkip(s, p, repl, 0, i);
    ReplaceWithoutMatch(s, p, repl, e);
    assert ReplaceFrom(s, p, repl, i) == repl + s[e..];
    assert s[0..i] == s[..i];
    AppendAssociates(s[..i], repl, s[e..]);
  }

  /** A single match covering exactly `t` in `a + t + b` is replaced and `a` and `b` are kept. */
  lemma ReplaceOneMatchAround(a: string, t: string, b: string, p: Pattern, repl: string)
    requires MatchAt(p, a + t + b, |a|) == Some(|a| + |t|)
    requires forall x | 0 <= x < |a| :: MatchAt(p, a + t + b, x).None?
    requires forall x | |a| + |t| <= x < |a + t + b| :: MatchAt(p, a + t + b, x).None?
    ensures ReplaceAll(a + t + b, p, repl) == a + repl + b
  {
    ReplaceOneMatch(a + t + b, p, repl, |a|, |a| + |t|);
    OuterParts(a, t, b);
  }

  /** Without an `@` there is no email address to replace. */
  lemma EmailReplaceWithoutAt(s: string, repl: string)
    requires '@' !in s
    ensures ReplaceAll(s, EmailAddress, repl) == s
  {
    ReplaceWithoutMatch(s, EmailAddress, repl, 0);
  }

  /** Phone numbers and SSN-like sequences start with a digit. */
  lemma DigitPatternReplaceWithoutDigit(s: string, p: Pattern, repl: string)
    requires p == PhoneNumber || p == SsnLike
    requires HasNoDigit(s)
    ensures ReplaceAll(s, p, repl) == s
  {
    ReplaceWithoutMatch(s, p, repl, 0);
  }

  // ---------------------------------------------- splitting at white space

  /** A match position moved `d` characters to the right. */
  function ShiftMatch(r: Option<nat>, d: nat): Option<nat>
  {
    if r.Some? then Some(r.value + d) else None
  }

  /** The match of `p` in `s` that starts at `i` is the match in `x`, a prefix of `s`, that starts at `i`. */
  predicate SameMatchPrefix(p: Pattern, s: string, x: string, i: nat)
    requires i <= |x| <= |s|
  {
    MatchAt(p, s, i) == MatchAt(p, x, i)
  }

  /** The matches of `p` in `s` that start up to the end of its prefix `x` are the matches in `x`. */
  predicate MatchesPrefix(p: Pattern, s: string, x: string)
  {
    |x| <= |s| && forall i | 0 <= i <= |x| :: SameMatchPrefix(p, s, x, i)
  }

  /** The match of `p` in `s` that starts at `d + j` is the match in `y`, the part of `s` from `d` on, that starts at `j`, moved. */
  predicate SameMatchPlaced(p: Pattern, s: string, y: string, d: nat, j: nat)
    requires d + |y| == |s| && j < |y|
  {
    MatchAt(p, s, d + j) == ShiftMatch(MatchAt(p, y, j), d)
  }

  /** The matches of `p` in `s` that start from `d` on are the matches in `y`, the part of `s` from `d` on, moved. */
  predicate MatchesPlaced(p: Pattern, s: string, y: string, d: nat)
  {
    d + |y| == |s| && forall j | 0 <= j < |y| :: SameMatchPlaced(p, s, y, d, j)
  }

  /** The matches of `p` in `x + [c] + y` that start up to `c` are the matches in `x`: none at `c`. */
  predicate MatchesBefore(p: Pattern, x: string, c: char, y: string)
  {
    MatchesPrefix(p, x + [c] + y, x)
  }

  /** The matches of `p` in `x + [c] + y` that start past `c` are the matches in `y`, moved. */
  predicate MatchesAfter(p: Pattern, x: string, c: char, y: string)
  {
    MatchesPlaced(p, x + [c] + y, y, |x| + 1)
  }

  /** A table of where the match starting at each position ends: every match ends within `n`. */
  predicate ValidTable(t: seq<Option<nat>>, n: nat)
  {
    |t| == n && forall k | 0 <= k < |t| :: t[k].Some? ==> k < t[k].value <= n
  }

  /** `t` records, at each position of `s`, where the match of `p` that starts there ends. */
  predicate TableOf(p: Pattern, s: string, t: seq<Option<nat>>)
  {
    |t| == |s| && forall k {:trigger MatchAt(p, s, k)} | 0 <= k < |s| :: t[k] == MatchAt(p, s, k)
  }

  /** A table of the matches of `p` is a valid table: each match ends within `s`. */
  lemma TableOfIsValid(p: Pattern, s: string, t: seq<Option<nat>>)
    requires TableOf(p, s, t)
    ensures ValidTable(t, |s|)
  {
    forall k | 0 <= k < |t| && t[k].Some?
      ensures k < t[k].value <= |s|
    {
      assert t[k] == MatchAt(p, s, k);
    }
  }

  /** The matches of `p` in `s`, position by position. */
  function MatchTable(p: Pattern, s: string): (t: seq<Option<nat>>)
    ensures TableOf(p, s, t)
  {
    seq(|s|, k requires 0 <= k < |s| => MatchAt(p, s, k))
  }

  /** The scan of `ReplaceFrom`, reading the matches from a table. */
  function ScanTable(s: string, t: seq<Option<nat>>, repl: string, i: nat): string
    requires ValidTable(t, |s|) && i <= |s|
    decreases |s| - i
  {
    if i == |s| then ""
    else
      match t[i]
      case Some(e) => repl + ScanTable(s, t, repl, e)
      case None => [s[i]] + ScanTable(s, t, repl, i + 1)
  }

  /** A stretch of the table without matches is copied as it is. */
  lemma {:induction false} ScanTableSkip(s: string, t: seq<Option<nat>>, repl: string, i: nat, j: nat)
    requires ValidTable(t, |s|) && i <= j <= |s|
    requires forall x | i <= x < j :: t[x].None?
    ensures ScanTable(s, t, repl, i) == s[i..j] + ScanTable(s, t, repl, j)
    decreases j - i
  {
    if i < j {
      var rest := ScanTable(s, t, repl, j);
      assert t[i] == None;
      ScanTableSkip(s, t, repl, i + 1, j);
      assert ScanTable(s, t, repl, i) == [s[i]] + (s[i + 1..j] + rest);
      AppendAssociates([s[i]], s[i + 1..j], rest);
      assert s[i..j] == [s[i]] + s[i + 1..j];
    }
  }

  /** `ReplaceFrom` is the scan over a table of its matches. */
  lemma {:induction false} ReplaceFromTable(s: string, p: Pattern, repl: string, t: seq<Option<nat>>, i: nat)
    requires TableOf(p, s, t) && ValidTable(t, |s|) && i <= |s|
    ensures ReplaceFrom(s, p, repl, i) == ScanTable(s, t, repl, i)
    decreases |s| - i
  {
    if i < |s| {
      assert t[i] == MatchAt(p, s, i);
      match t[i]
      case Some(e) =>
        ReplaceFromTable(s, p, repl, t, e);
        ReplaceReplaces(s, p, repl, i, e);
        assert ScanTable(s, t, repl, i) == repl + ScanTable(s, t, repl, e);
      case None =>
        ReplaceFromTable(s, p, repl, t, i + 1);
        ReplaceCopies(s, p, repl, i);
        assert ScanTable(s, t, repl, i) == [s[i]] + ScanTable(s, t, repl, i + 1);
    }
  }

  /** A table moved `d` positions to the right. */
  function ShiftTable(t: seq<Option<nat>>, d: nat): (r: seq<Option<nat>>)
    ensures |r| == |t| && forall k | 0 <= k < |t| :: r[k] == ShiftMatch(t[k], d)
  {
    seq(|t|, k requires 0 <= k < |t| => ShiftMatch(t[k], d))
  }

  /** The table of `x + [c] + y` when no match starts at `c` or reaches across it. */
  function JoinTables(tx: seq<Option<nat>>, ty: seq<Option<nat>>): seq<Option<nat>>
  {
    tx + [None] + ShiftTable(ty, |tx| + 1)
  }

  lemma JoinTablesValid(tx: seq<Option<nat>>, ty: seq<Option<nat>>, nx: nat, ny: nat)
    requires ValidTable(tx, nx) && ValidTable(ty, ny)
    ensures ValidTable(JoinTables(tx, ty), nx + 1 + ny)
  {
    var t := JoinTables(tx, ty);
    forall k | 0 <= k < |t| && t[k].Some?
      ensures k < t[k].value <= nx + 1 + ny
    {
      if k < nx {
        assert t[k] == tx[k];
      } else {
        assert t[k] == ShiftMatch(ty[k - nx - 1], nx + 1);
      }
    }
  }

  /** Position `k` of a joined table. */
  lemma JoinTablesAt(tx: seq<Option<nat>>, ty: seq<Option<nat>>, k: nat)
    requires k < |tx| + 1 + |ty|
    ensures |JoinTables(tx, ty)| == |tx| + 1 + |ty|
    ensures JoinTables(tx, ty)[k] ==
      if k < |tx| then tx[k] else if k == |tx| then None else ShiftMatch(ty[k - |tx| - 1], |tx| + 1)
  {
  }

  /** Past the gap at `|tx|`, position `k` of a joined table is the entry of `ty` at `k - d`, moved by `d`. */
  lemma JoinTablesAfterGap(tx: seq<Option<nat>>, ty: seq<Option<nat>>, d: nat, k: nat)
    requires d == |tx| + 1 && d <= k < d + |ty|
    ensures k < |JoinTables(tx, ty)| && JoinTables(tx, ty)[k] == ShiftMatch(ty[k - d], d)
  {
    JoinTablesAt(tx, ty, k);
  }

  /** From `d` on, a table whose entries are those of `y`'s table, moved, gives the matches in `s`. */
  lemma PlacedTableAt(p: Pattern, s: string, y: string, d: nat, t: seq<Option<nat>>, ty: seq<Option<nat>>, k: nat)
    requires MatchesPlaced(p, s, y, d) && TableOf(p, y, ty)
    requires d <= k < d + |y| && k < |t| && t[k] == ShiftMatch(ty[k - d], d)
    ensures t[k] == MatchAt(p, s, k)
  {
    var j := k - d;
    assert SameMatchPlaced(p, s, y, d, j);
    assert ty[j] == MatchAt(p, y, j);
  }

  /** When no match starts at `c` or reaches across it, joining the tables of `x` and `y` gives a table of `s`. */
  lemma JoinedTableOf(p: Pattern, s: string, x: string, y: string, tx: seq<Option<nat>>, ty: seq<Option<nat>>)
    requires TableOf(p, x, tx) && TableOf(p, y, ty)
    requires MatchesPrefix(p, s, x) && MatchesPlaced(p, s, y, |x| + 1)
    ensures TableOf(p, s, JoinTables(tx, ty))
  {
    var t := JoinTables(tx, ty);
    JoinTablesAt(tx, ty, 0);
    forall k | 0 <= k < |s|
      ensures t[k] == MatchAt(p, s, k)
    {
      if k <= |x| {
        JoinedTableBefore(p, s, x, tx, ty, k);
      } else {
        JoinedTableAfter(p, s, x, y, tx, ty, k);
      }
    }
  }

  /** Up to the end of the prefix `x`, the joined table gives the matches in `s`. */
  lemma JoinedTableBefore(p: Pattern, s: string, x: string, tx: seq<Option<nat>>, ty: seq<Option<nat>>, k: nat)
    requires TableOf(p, x, tx) && MatchesPrefix(p, s, x) && k <= |x|
    ensures JoinTables(tx, ty)[k] == MatchAt(p, s, k)
  {
    JoinTablesAt(tx, ty, k);
    assert SameMatchPrefix(p, s, x, k);
    if k < |x| {
      assert tx[k] == MatchAt(p, x, k);
    }
  }

  /** Past the prefix `x` and the character after it, the joined table gives the matches in `s`. */
  lemma JoinedTableAfter(p: Pattern, s: string, x: string, y: string, tx: seq<Option<nat>>, ty: seq<Option<nat>>, k: nat)
    requires |tx| == |x| && TableOf(p, y, ty) && MatchesPlaced(p, s, y, |x| + 1) && |x| < k < |s|
    ensures JoinTables(tx, ty)[k] == MatchAt(p, s, k)
  {
    JoinTablesAfterGap(tx, ty, |x| + 1, k);
    PlacedTableAt(p, s, y, |x| + 1, JoinTables(tx, ty), ty, k);
  }

  /** Up to `|x|`, a scan over a table that starts with the table of `x` follows the scan of `x`. */
  lemma {:induction false} ScanTablePrefix(s: string, t: seq<Option<nat>>, x: string, tx: seq<Option<nat>>, repl: string, i: nat)
    requires ValidTable(t, |s|) && ValidTable(tx, |x|) && |x| <= |s|
    requires s[..|x|] == x && t[..|x|] == tx && i <= |x|
    ensures ScanTable(s, t, repl, i) == ScanTable(x, tx, repl, i) + ScanTable(s, t, repl, |x|)
    decreases |x| - i
  {
    if i < |x| {
      assert t[i] == tx[i] && s[i] == x[i] by {
        assert t[..|x|][i] == t[i] && s[..|x|][i] == s[i];
      }
      var rest := ScanTable(s, t, repl, |x|);
      match tx[i]
      case Some(e) =>
        ScanTablePrefix(s, t, x, tx, repl, e);
        AppendAssociates(repl, ScanTable(x, tx, repl, e), rest);
      case None =>
        ScanTablePrefix(s, t, x, tx, repl, i + 1);
        AppendAssociates([x[i]], ScanTable(x, tx, repl, i + 1), rest);
    }
  }

  /** At position `j` of `y`, the character and table entry are those at `o + j` of `s` and `t`, moved. */
  predicate EntryPlaced(s: string, t: seq<Option<nat>>, y: string, ty: seq<Option<nat>>, o: nat, j: nat)
    requires o + |y| == |s| == |t| && |ty| == |y| && j < |y|
  {
    s[o + j] == y[j] && t[o + j] == ShiftMatch(ty[j], o)
  }

  /** From `o` on, `s` is `y` and `t` is the table of `y`, moved. */
  predicate TablePlaced(s: string, t: seq<Option<nat>>, y: string, ty: seq<Option<nat>>, o: nat)
  {
    o + |y| == |s| == |t| && |ty| == |y| && forall j | 0 <= j < |y| :: EntryPlaced(s, t, y, ty, o, j)
  }

  /** From `o` on, a scan over a table that ends with the table of `y`, moved, is the scan of `y`. */
  lemma {:induction false} ScanTableSuffix(s: string, t: seq<Option<nat>>, y: string, ty: seq<Option<nat>>, o: nat, repl: string, i: nat, j: nat)
    requires ValidTable(t, |s|) && ValidTable(ty, |y|) && TablePlaced(s, t, y, ty, o)
    requires i == o + j && j <= |y|
    ensures ScanTable(s, t, repl, i) == ScanTable(y, ty, repl, j)
    decreases |y| - j
  {
    if j < |y| {
      assert EntryPlaced(s, t, y, ty, o, j);
      match ty[j]
      case Some(e) =>
        assert t[i] == Some(o + e);
        ScanTableSuffix(s, t, y, ty, o, repl, o + e, e);
        assert ScanTable(s, t, repl, i) == repl + ScanTable(s, t, repl, o + e);
      case None =>
        assert t[i] == None && s[i] == y[j];
        ScanTableSuffix(s, t, y, ty, o, repl, i + 1, j + 1);
        assert ScanTable(s, t, repl, i) == [y[j]] + ScanTable(s, t, repl, i + 1);
    }
  }

  /** Scanning `x + [c] + y` over the joined table scans `x`, keeps `c` and scans `y`. */
  lemma ScanTableSplits(x: string, c: char, y: string, tx: seq<Option<nat>>, ty: seq<Option<nat>>, repl: string)
    requires ValidTable(tx, |x|) && ValidTable(ty, |y|)
    ensures ValidTable(JoinTables(tx, ty), |x + [c] + y|)
    ensures ScanTable(x + [c] + y, JoinTables(tx, ty), repl, 0) ==
      ScanTable(x, tx, repl, 0) + [c] + ScanTable(y, ty, repl, 0)
  {
    var s, t := x + [c] + y, JoinTables(tx, ty);
    JoinTablesValid(tx, ty, |x|, |y|);
    var left, right := ScanTable(x, tx, repl, 0), ScanTable(y, ty, repl, 0);
    assert ScanTable(s, t, repl, 0) == left + ScanTable(s, t, repl, |x|) by {
      assert s[..|x|] == x && t[..|x|] == tx;
      ScanTablePrefix(s, t, x, tx, repl, 0);
    }
    assert ScanTable(s, t, repl, |x| + 1) == right by {
      var o := |x| + 1;
      JoinTablesAt(tx, ty, 0);
      forall j | 0 <= j < |y|
        ensures EntryPlaced(s, t, y, ty, o, j)
      {
        JoinTablesAt(tx, ty, o + j);
        assert s[o + j] == y[j];
      }
      ScanTableSuffix(s, t, y, ty, o, repl, o, 0);
    }
    assert ScanTable(s, t, repl, |x|) == [c] + right by {
      assert t[|x|] == None && s[|x|] == c;
    }
    AppendAssociates(left, [c], right);
  }

  /** When no match reaches across `c`, replacing in `x + [c] + y` replaces in `x` and in `y` and keeps `c`. */
  lemma ReplaceAllSplits(p: Pattern, x: string, c: char, y: string, repl: string)
    requires MatchesBefore(p, x, c, y) && MatchesAfter(p, x, c, y)
    ensures ReplaceAll(x + [c] + y, p, repl) == ReplaceAll(x, p, repl) + [c] + ReplaceAll(y, p, repl)
  {
    var s := x + [c] + y;
    var tx, ty := MatchTable(p, x), MatchTable(p, y);
    var t := JoinTables(tx, ty);
    JoinedTableOf(p, s, x, y, tx, ty);
    TableOfIsValid(p, s, t);
    TableOfIsValid(p, x, tx);
    TableOfIsValid(p, y, ty);
    ReplaceFromTable(s, p, repl, t, 0);
    ReplaceFromTable(x, p, repl, tx, 0);
    ReplaceFromTable(y, p, repl, ty, 0);
    ScanTableSplits(x, c, y, tx, ty, repl);
  }

  /** White space is in none of the classes the email expression repeats. */
  lemma SpaceOutsideEmailClasses(c: char)
    requires IsSpace(c)
    ensures !InClass(LocalPartChars, c) && !InClass(DomainChars, c) && !InClass(Letters, c)
    ensures !IsWordChar(c) && !IsDigit(c) && c != '@' && !IsPhoneSeparator(c)
  {
  }

  lemma RunEndBefore(x: string, c: char, y: string, i: nat, k: CharClass)
    requires i <= |x| && !InClass(k, c)
    ensures RunEnd(x + [c] + y, i, k) == RunEnd(x, i, k)
  {
    RunEndAt(x + [c] + y, i, RunEnd(x, i, k), k);
  }

  /** `y` is the part of `s` from `d` on. */
  predicate Placed(s: string, y: string, d: nat)
  {
    d + |y| == |s| && forall j | 0 <= j < |y| :: PlacedChar(s, y, d, j)
  }

  predicate PlacedChar(s: string, y: string, d: nat, j: nat)
    requires d + |y| == |s| && j < |y|
  {
    s[d + j] == y[j]
  }

  lemma PlacedAt(s: string, y: string, d: nat, j: nat, i: nat)
    requires Placed(s, y, d) && j < |y| && i == d + j
    ensures s[i] == y[j]
  {
    assert PlacedChar(s, y, d, j);
  }

  /** `y` is placed after `x + [c]`. */
  lemma PlacedAfter(x: string, c: char, y: string)
    ensures Placed(x + [c] + y, y, |x| + 1)
  {
    var s, d := x + [c] + y, |x| + 1;
    forall j | 0 <= j < |y|
      ensures PlacedChar(s, y, d, j)
    {
      assert s[d + j] == y[j];
    }
  }

  lemma {:induction false} RunEndShift(s: string, y: string, d: nat, j: nat, i: nat, k: CharClass)
    requires Placed(s, y, d) && j <= |y| && i == d + j
    ensures RunEnd(s, i, k) == d + RunEnd(y, j, k)
    decreases |y| - j
  {
    if j < |y| {
      PlacedAt(s, y, d, j, i);
      if InClass(k, y[j]) {
        RunEndShift(s, y, d, j + 1, i + 1, k);
      }
    }
  }

  lemma {:induction false} LastTldDotBefore(x: string, c: char, y: string, lo: nat, hi: nat)
    requires lo <= hi <= |x| && !IsLetter(c)
    ensures LastTldDot(x + [c] + y, lo, hi) == LastTldDot(x, lo, hi)
    decreases hi - lo
  {
    if lo < hi {
      var s := x + [c] + y;
      assert hi - 1 + 2 < |x| || !IsLetter(s[hi - 1 + 1]) || !IsLetter(s[hi - 1 + 2]);
      assert TldDotAt(s, hi - 1) == TldDotAt(x, hi - 1);
      LastTldDotBefore(x, c, y, lo, hi - 1);
    }
  }

  lemma TldDotShift(s: string, y: string, d: nat, j: nat, i: nat)
    requires Placed(s, y, d) && j < |y| && i == d + j
    ensures TldDotAt(s, i) == TldDotAt(y, j)
  {
    PlacedAt(s, y, d, j, i);
    if j + 2 < |y| {
      PlacedAt(s, y, d, j + 1, i + 1);
      PlacedAt(s, y, d, j + 2, i + 2);
    }
  }

  lemma {:induction false} LastTldDotShift(s: string, y: string, d: nat, lo: nat, hi: nat, slo: nat, shi: nat)
    requires Placed(s, y, d) && lo <= hi <= |y| && slo == d + lo && shi == d + hi
    ensures LastTldDot(s, slo, shi) == ShiftMatch(LastTldDot(y, lo, hi), d)
    decreases hi - lo
  {
    if lo < hi {
      TldDotShift(s, y, d, hi - 1, shi - 1);
      LastTldDotShift(s, y, d, lo, hi - 1, slo, shi - 1);
    }
  }

  lemma TldEndBefore(x: string, c: char, y: string, t: Option<nat>)
    requires IsSpace(c) && (t.Some? ==> t.value < |x|)
    ensures TldEnd(x + [c] + y, t) == TldEnd(x, t)
  {
    if t.Some? {
      SpaceOutsideEmailClasses(c);
      RunEndBefore(x, c, y, t.value + 1, Letters);
    }
  }

  lemma DomainTailBefore(x: string, c: char, y: string, lo: nat, m: nat)
    requires IsSpace(c) && m <= |x|
    ensures DomainTail(x + [c] + y, lo, m) == DomainTail(x, lo, m)
  {
    if m >= lo {
      SpaceOutsideEmailClasses(c);
      LastTldDotBefore(x, c, y, lo, m);
      TldEndBefore(x, c, y, LastTldDot(x, lo, m));
    }
  }

  lemma DomainMatchBefore(x: string, c: char, y: string, k: nat)
    requires k < |x| && IsSpace(c)
    ensures DomainMatchAt(x + [c] + y, k) == DomainMatchAt(x, k)
  {
    SpaceOutsideEmailClasses(c);
    RunEndBefore(x, c, y, k + 1, DomainChars);
    DomainTailBefore(x, c, y, k + 2, RunEnd(x, k + 1, DomainChars));
  }

  lemma EmailMatchBefore(x: string, c: char, y: string, i: nat)
    requires i <= |x| && IsSpace(c)
    ensures EmailMatchAt(x + [c] + y, i) == EmailMatchAt(x, i)
  {
    var s := x + [c] + y;
    SpaceOutsideEmailClasses(c);
    RunEndBefore(x, c, y, i, LocalPartChars);
    var k := RunEnd(x, i, LocalPartChars);
    assert k < |s| && (s[k] == '@' <==> k < |x| && x[k] == '@');
    if k != i && k < |x| && x[k] == '@' {
      DomainMatchBefore(x, c, y, k);
    }
  }

  lemma TldEndShift(s: string, y: string, d: nat, t: Option<nat>, ts: Option<nat>)
    requires Placed(s, y, d) && (t.Some? ==> t.value < |y|) && ts == ShiftMatch(t, d)
    ensures TldEnd(s, ts) == ShiftMatch(TldEnd(y, t), d)
  {
    if t.Some? {
      RunEndShift(s, y, d, t.value + 1, ts.value + 1, Letters);
    }
  }

  lemma DomainTailShift(s: string, y: string, d: nat, lo: nat, m: nat, los: nat, ms: nat)
    requires Placed(s, y, d) && m <= |y| && los == d + lo && ms == d + m
    ensures DomainTail(s, los, ms) == ShiftMatch(DomainTail(y, lo, m), d)
  {
    if m >= lo {
      LastTldDotShift(s, y, d, lo, m, los, ms);
      TldEndShift(s, y, d, LastTldDot(y, lo, m), LastTldDot(s, los, ms));
    }
  }

  lemma DomainMatchShift(s: string, y: string, d: nat, k: nat, ks: nat)
    requires Placed(s, y, d) && k < |y| && ks == d + k
    ensures DomainMatchAt(s, ks) == ShiftMatch(DomainMatchAt(y, k), d)
  {
    RunEndShift(s, y, d, k + 1, ks + 1, DomainChars);
    DomainTailShift(s, y, d, k + 2, RunEnd(y, k + 1, DomainChars), ks + 2, RunEnd(s, ks + 1, DomainChars));
  }

  lemma DomainAfterLocalShift(s: string, y: string, d: nat, j: nat, k: nat, i: nat, ks: nat)
    requires Placed(s, y, d) && j <= k <= |y| && i == d + j && ks == d + k
    ensures DomainAfterLocal(s, i, ks) == ShiftMatch(DomainAfterLocal(y, j, k), d)
  {
    if k < |y| {
      PlacedAt(s, y, d, k, ks);
      if k != j && y[k] == '@' {
        DomainMatchShift(s, y, d, k, ks);
      }
    }
  }

  /** The email expression looks only rightwards, so a match in `y` is a match wherever `y` is placed. */
  lemma EmailMatchShift(s: string, y: string, d: nat, j: nat, i: nat)
    requires Placed(s, y, d) && j <= |y| && i == d + j
    ensures EmailMatchAt(s, i) == ShiftMatch(EmailMatchAt(y, j), d)
  {
    RunEndShift(s, y, d, j, i, LocalPartChars);
    DomainAfterLocalShift(s, y, d, j, RunEnd(y, j, LocalPartChars), i, RunEnd(s, i, LocalPartChars));
  }

  lemma DigitsAtBefore(x: string, c: char, y: string, i: nat, n: nat)
    requires i <= |x| && !IsDigit(c)
    ensures DigitsAt(x + [c] + y, i, n) == DigitsAt(x, i, n)
  {
    var s := x + [c] + y;
    if i + n <= |x| {
      assert forall q | i <= q < i + n :: s[q] == x[q];
    } else if i + n <= |s| {
      assert !IsDigit(s[|x|]);
    }
  }

  lemma WordBoundaryBefore(x: string, c: char, y: string, i: nat)
    requires i <= |x| && !IsWordChar(c)
    ensures IsWordBoundary(x + [c] + y, i) == IsWordBoundary(x, i)
  {
  }

  lemma DigitsAtShift(s: string, y: string, d: nat, j: nat, i: nat, n: nat)
    requires Placed(s, y, d) && i == d + j
    ensures DigitsAt(s, i, n) == DigitsAt(y, j, n)
  {
    if j + n <= |y| {
      forall q | i <= q < i + n
        ensures s[q] == y[q - d]
      {
        PlacedAt(s, y, d, q - d, q);
      }
      forall q | j <= q < j + n
        ensures y[q] == s[d + q]
      {
        PlacedAt(s, y, d, q, d + q);
      }
    }
  }

  /** `y` is placed in `s` after a character that is not a word character. */
  predicate PlacedAfterNonWord(s: string, y: string, d: nat)
  {
    Placed(s, y, d) && 0 < d && !IsWordChar(s[d - 1])
  }

  lemma WordBoundaryShift(s: string, y: string, d: nat, j: nat, i: nat)
    requires PlacedAfterNonWord(s, y, d) && j <= |y| && i == d + j
    ensures IsWordBoundary(s, i) == IsWordBoundary(y, j)
  {
    if 0 < j {
      PlacedAt(s, y, d, j - 1, i - 1);
    }
    if j < |y| {
      PlacedAt(s, y, d, j, i);
    }
  }

  lemma SkipSeparatorShift(s: string, y: string, d: nat, j: nat, i: nat)
    requires Placed(s, y, d) && i == d + j
    ensures SkipSeparator(s, i) == d + SkipSeparator(y, j)
  {
    if j < |y| {
      PlacedAt(s, y, d, j, i);
    }
  }

  lemma PhoneLineShift(s: string, y: string, d: nat, f: nat, i: nat)
    requires PlacedAfterNonWord(s, y, d) && i == d + f
    ensures PhoneLine(s, i) == ShiftMatch(PhoneLine(y, f), d)
  {
    DigitsAtShift(s, y, d, f, i, 4);
    if DigitsAt(y, f, 4) {
      WordBoundaryShift(s, y, d, f + 4, i + 4);
    }
  }

  lemma PhoneAfterAreaShift(s: string, y: string, d: nat, b: nat, i: nat)
    requires PlacedAfterNonWord(s, y, d) && i == d + b
    ensures PhoneAfterArea(s, i) == ShiftMatch(PhoneAfterArea(y, b), d)
  {
    DigitsAtShift(s, y, d, b, i, 3);
    if DigitsAt(y, b, 3) {
      SkipSeparatorShift(s, y, d, b + 3, i + 3);
      PhoneLineShift(s, y, d, SkipSeparator(y, b + 3), SkipSeparator(s, i + 3));
    }
  }

  lemma PhoneMatchShift(s: string, y: string, d: nat, j: nat, i: nat)
    requires PlacedAfterNonWord(s, y, d) && j <= |y| && i == d + j
    ensures PhoneMatchAt(s, i) == ShiftMatch(PhoneMatchAt(y, j), d)
  {
    WordBoundaryShift(s, y, d, j, i);
    DigitsAtShift(s, y, d, j, i, 3);
    if IsWordBoundary(y, j) && DigitsAt(y, j, 3) {
      SkipSeparatorShift(s, y, d, j + 3, i + 3);
      PhoneAfterAreaShift(s, y, d, SkipSeparator(y, j + 3), SkipSeparator(s, i + 3));
    }
  }

  lemma SkipSeparatorBefore(x: string, c: char, y: string, a: nat)
    requires a <= |x| && !IsPhoneSeparator(c)
    ensures SkipSeparator(x + [c] + y, a) == SkipSeparator(x, a)
  {
    var s := x + [c] + y;
    if a < |x| {
      assert s[a] == x[a];
    } else {
      assert s[a] == c;
    }
  }

  lemma PhoneLineBefore(x: string, c: char, y: string, f: nat)
    requires f <= |x| && IsSpace(c)
    ensures PhoneLine(x + [c] + y, f) == PhoneLine(x, f)
  {
    SpaceOutsideEmailClasses(c);
    DigitsAtBefore(x, c, y, f, 4);
    if DigitsAt(x, f, 4) {
      WordBoundaryBefore(x, c, y, f + 4);
    }
  }

  lemma PhoneAfterAreaBefore(x: string, c: char, y: string, b: nat)
    requires b <= |x| && IsSpace(c)
    ensures PhoneAfterArea(x + [c] + y, b) == PhoneAfterArea(x, b)
  {
    SpaceOutsideEmailClasses(c);
    DigitsAtBefore(x, c, y, b, 3);
    if DigitsAt(x, b, 3) {
      SkipSeparatorBefore(x, c, y, b + 3);
      PhoneLineBefore(x, c, y, SkipSeparator(x, b + 3));
    }
  }

  lemma PhoneMatchBefore(x: string, c: char, y: string, i: nat)
    requires i <= |x| && IsSpace(c)
    ensures PhoneMatchAt(x + [c] + y, i) == PhoneMatchAt(x, i)
  {
    SpaceOutsideEmailClasses(c);
    WordBoundaryBefore(x, c, y, i);
    DigitsAtBefore(x, c, y, i, 3);
    if IsWordBoundary(x, i) && DigitsAt(x, i, 3) {
      SkipSeparatorBefore(x, c, y, i + 3);
      PhoneAfterAreaBefore(x, c, y, SkipSeparator(x, i + 3));
    }
  }

  /** Each character of the SSN template is a digit place or `-`. */
  lemma SsnTemplateChars()
    ensures forall q | 0 <= q < |SsnTemplate| :: SsnTemplate[q] == '#' || SsnTemplate[q] == '-'
  {
  }

  /** A white-space character anywhere keeps a text from matching the SSN template. */
  lemma SpaceBreaksSsnTemplate(t: string, q: nat)
    requires q < |t| && IsSpace(t[q])
    ensures !MatchesTemplate(t, SsnTemplate)
  {
    SsnTemplateChars();
    if |t| == |SsnTemplate| {
      assert SsnTemplate[q] == '#' || SsnTemplate[q] == '-';
      assert !IsDigit(t[q]) && t[q] != '-';
    }
  }

  lemma SsnMatchBefore(x: string, c: char, y: string, i: nat)
    requires i <= |x| && IsSpace(c)
    ensures SsnMatchAt(x + [c] + y, i) == SsnMatchAt(x, i)
  {
    var s := x + [c] + y;
    SpaceOutsideEmailClasses(c);
    if i + 11 <= |x| {
      assert s[i..i + 11] == x[i..i + 11];
      WordBoundaryBefore(x, c, y, i);
      WordBoundaryBefore(x, c, y, i + 11);
    } else if i + 11 <= |s| {
      var w, q := s[i..i + 11], |x| - i;
      assert s[|x|] == c;
      assert w[q] == s[|x|];
      SpaceBreaksSsnTemplate(w, q);
    }
  }

  lemma SsnMatchShift(s: string, y: string, d: nat, j: nat, i: nat)
    requires PlacedAfterNonWord(s, y, d) && j <= |y| && i == d + j
    ensures SsnMatchAt(s, i) == ShiftMatch(SsnMatchAt(y, j), d)
  {
    if j + 11 <= |y| {
      var u, v := s[i..i + 11], y[j..j + 11];
      forall q | 0 <= q < 11
        ensures u[q] == v[q]
      {
        PlacedAt(s, y, d, j + q, i + q);
      }
      assert u == v;
      WordBoundaryShift(s, y, d, j, i);
      WordBoundaryShift(s, y, d, j + 11, i + 11);
    }
  }

  /** No email address, phone number or SSN-like sequence contains white space. */
  lemma EmailMatchesBeforeSpace(x: string, c: char, y: string)
    requires IsSpace(c)
    ensures MatchesBefore(EmailAddress, x, c, y)
  {
    var s := x + [c] + y;
    forall i | 0 <= i <= |x|
      ensures SameMatchPrefix(EmailAddress, s, x, i)
    {
      EmailMatchBefore(x, c, y, i);
    }
  }

  lemma EmailMatchesPlaced(s: string, y: string, d: nat)
    requires Placed(s, y, d)
    ensures MatchesPlaced(EmailAddress, s, y, d)
  {
    forall j | 0 <= j < |y|
      ensures SameMatchPlaced(EmailAddress, s, y, d, j)
    {
      EmailSamePlaced(s, y, d, j);
    }
  }

  /** At one position of `y`, the email match in `s` is the one in `y`, moved by `d`. */
  lemma EmailSamePlaced(s: string, y: string, d: nat, j: nat)
    requires Placed(s, y, d) && j < |y|
    ensures SameMatchPlaced(EmailAddress, s, y, d, j)
  {
    EmailMatchShift(s, y, d, j, d + j);
  }

  lemma EmailMatchesAfterSpace(x: string, c: char, y: string)
    ensures MatchesAfter(EmailAddress, x, c, y)
  {
    PlacedAfter(x, c, y);
    EmailMatchesPlaced(x + [c] + y, y, |x| + 1);
  }

  lemma PhoneMatchesBeforeSpace(x: string, c: char, y: string)
    requires IsSpace(c)
    ensures MatchesBefore(PhoneNumber, x, c, y)
  {
    var s := x + [c] + y;
    forall i | 0 <= i <= |x|
      ensures SameMatchPrefix(PhoneNumber, s, x, i)
    {
      PhoneMatchBefore(x, c, y, i);
    }
  }

  lemma PhoneMatchesPlaced(s: string, y: string, d: nat)
    requires PlacedAfterNonWord(s, y, d)
    ensures MatchesPlaced(PhoneNumber, s, y, d)
  {
    forall j | 0 <= j < |y|
      ensures SameMatchPlaced(PhoneNumber, s, y, d, j)
    {
      PhoneMatchShift(s, y, d, j, d + j);
    }
  }

  lemma PhoneMatchesAfterSpace(x: string, c: char, y: string)
    requires IsSpace(c)
    ensures MatchesAfter(PhoneNumber, x, c, y)
  {
    SpaceOutsideEmailClasses(c);
    PlacedAfter(x, c, y);
    assert (x + [c] + y)[|x|] == c;
    PhoneMatchesPlaced(x + [c] + y, y, |x| + 1);
  }

  lemma SsnMatchesBeforeSpace(x: string, c: char, y: string)
    requires IsSpace(c)
    ensures MatchesBefore(SsnLike, x, c, y)
  {
    var s := x + [c] + y;
    forall i | 0 <= i <= |x|
      ensures SameMatchPrefix(SsnLike, s, x, i)
    {
      SsnMatchBefore(x, c, y, i);
    }
  }

  lemma SsnMatchesPlaced(s: string, y: string, d: nat)
    requires PlacedAfterNonWord(s, y, d)
    ensures MatchesPlaced(SsnLike, s, y, d)
  {
    forall j | 0 <= j < |y|
      ensures SameMatchPlaced(SsnLike, s, y, d, j)
    {
      SsnMatchShift(s, y, d, j, d + j);
    }
  }

  lemma SsnMatchesAfterSpace(x: string, c: char, y: string)
    requires IsSpace(c)
    ensures MatchesAfter(SsnLike, x, c, y)
  {
    SpaceOutsideEmailClasses(c);
    PlacedAfter(x, c, y);
    assert (x + [c] + y)[|x|] == c;
    SsnMatchesPlaced(x + [c] + y, y, |x| + 1);
  }

  /** No match of the three PII expressions reaches across a white-space character. */
  lemma PiiMatchesSplitAtSpace(p: Pattern, x: string, c: char, y: string)
    requires p == EmailAddress || p == PhoneNumber || p == SsnLike
    requires IsSpace(c)
    ensures MatchesBefore(p, x, c, y) && MatchesAfter(p, x, c, y)
  {
    if p == EmailAddress {
      EmailMatchesBeforeSpace(x, c, y);
      EmailMatchesAfterSpace(x, c, y);
    } else if p == PhoneNumber {
      PhoneMatchesBeforeSpace(x, c, y);
      PhoneMatchesAfterSpace(x, c, y);
    } else {
      SsnMatchesBeforeSpace(x, c, y);
      SsnMatchesAfterSpace(x, c, y);
    }
  }

  /** Replacing email addresses, phone numbers or SSN-like sequences works on each side of a white-space character separately. */
  lemma ReplaceSplitsAtSpace(p: Pattern, x: string, c: char, y: string, repl: string)
    requires p == EmailAddress || p == PhoneNumber || p == SsnLike
    requires IsSpace(c)
    ensures ReplaceAll(x + [c] + y, p, repl) == ReplaceAll(x, p, repl) + [c] + ReplaceAll(y, p, repl)
  {
    PiiMatchesSplitAtSpace(p, x, c, y);
    ReplaceAllSplits(p, x, c, y, repl);
  }
}
