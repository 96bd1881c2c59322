/**
  The upload helpers of app/lib/utils/file.ts: type and size checks against
  the plan tables, extension extraction, filename sanitising, the row-count
  estimate and the hex encoding of a file digest.
 */
module FileUtils {
  import opened Text
  import opened Patterns
  import opened Constants

  /** The fields of a browser `File` the checks read. */
  datatype UploadedFile = UploadedFile(name: string, mimeType: string, size: nat)

  // ------------------------------------------------------------ extensions

  /** Lower-casing changes no character into, or out of, `c` when `c` is not a letter. */
  lemma ToLowerCharKeeps(d: char, c: char)
    requires !IsLetter(c)
    ensures ToLowerChar(d) == c <==> d == c
  {
  }

  /** `getFileExtension`: the lower-cased slice from the last `.` on. */
  function GetFileExtension(filename: string): (r: string)
    ensures EndsWith(ToLower(filename), r)
    ensures '.' in filename ==> |r| >= 1 && r[0] == '.' && '.' !in r[1..]
    ensures '.' !in filename ==>
      r == if filename == [] then "" else [ToLowerChar(filename[|filename| - 1])]
  {
    var dot := LastIndexOf(filename, '.');
    var start := if dot >= 0 then dot else if filename == [] then 0 else |filename| - 1;
    assert Slice(filename, dot) == filename[start..];
    ToLowerSuffix(filename, start);
    assert dot >= 0 ==> '.' !in ToLower(filename[start..])[1..] by {
      if dot >= 0 {
        LowerTailHasNoDot(filename, dot);
      }
    }
    ToLower(filename[start..])
  }

  /** After the last `.`, the lower-cased text has no `.` either. */
  lemma LowerTailHasNoDot(filename: string, dot: nat)
    requires dot < |filename| && forall j | dot < j < |filename| :: filename[j] != '.'
    ensures '.' !in ToLower(filename[dot..])[1..]
  {
    var r := ToLower(filename[dot..]);
    forall k | 1 <= k < |r| ensures r[k] != '.' {
      ToLowerCharKeeps(filename[dot + k], '.');
    }
  }

  /**
    For a `.`-led extension without a further `.`, "the lower-cased name ends
    with it" and "it is the name's extension" say the same thing.
   */
  lemma EndsWithExtensionIff(name: string, e: string)
    requires |e| >= 2 && e[0] == '.' && '.' !in e[1..]
    ensures EndsWith(ToLower(name), e) <==> GetFileExtension(name) == e
  {
    var lower := ToLower(name);
    var r := GetFileExtension(name);
    if EndsWith(lower, e) {
      var a := |name| - |e|;
      assert lower[a] == e[0];
      ToLowerCharKeeps(name[a], '.');
      assert '.' in name;
    }
  }

  /** `exts.some(ext => lowerName.endsWith(ext))` */
  predicate AnyEndsWith(lowerName: string, exts: seq<string>)
  {
    exists i | 0 <= i < |exts| :: EndsWith(lowerName, exts[i])
  }

  /** Testing a list of `.`-led extensions is testing membership of the name's extension. */
  lemma AnyEndsWithIff(name: string, exts: seq<string>)
    requires forall e | e in exts :: |e| >= 2 && e[0] == '.' && '.' !in e[1..]
    ensures AnyEndsWith(ToLower(name), exts) <==> GetFileExtension(name) in exts
  {
    forall i | 0 <= i < |exts|
      ensures EndsWith(ToLower(name), exts[i]) <==> GetFileExtension(name) == exts[i]
    {
      EndsWithExtensionIff(name, exts[i]);
    }
  }

  /** `isValidFileType`: an allowed MIME type, or an allowed extension in any case. */
  function IsValidFileType(f: UploadedFile): (r: bool)
    ensures r <==> f.mimeType in AllowedMimeTypes || GetFileExtension(f.name) in AllowedFileExtensions
  {
    var hasValidMime := f.mimeType in AllowedMimeTypes;
    var hasValidExtension := AnyEndsWith(ToLower(f.name), AllowedFileExtensions);
    AllowedExtensionsAreDotSuffixes();
    AnyEndsWithIff(f.name, AllowedFileExtensions);
    hasValidMime || hasValidExtension
  }

  /** The case of the file name never matters to the type check. */
  lemma FileTypeIgnoresNameCase(f: UploadedFile)
    ensures IsValidFileType(f) == IsValidFileType(f.(name := ToLower(f.name)))
  {
    ToLowerIdempotent(f.name);
  }

  // ------------------------------------------------------------------ sizes

  /** `isValidFileSize`: the plan's byte limit is inclusive. */
  function IsValidFileSize(f: UploadedFile, plan: UserPlan): (r: bool)
    ensures r <==> f.size <= FileLimits(plan).maxFileSizeMB * 1024 * 1024
  {
    f.size <= FileLimits(plan).maxFileSizeBytes
  }

  /** A file within the Free limit is within the Pro limit. */
  lemma FreeSizeFitsPro(f: UploadedFile)
    ensures IsValidFileSize(f, Free) ==> IsValidFileSize(f, Pro)
  {
    ProLimitsExceedFree();
  }

  /** `estimateRowCount`: `Math.floor(bytes / 100)`. */
  function EstimateRowCount(fileSizeBytes: int): (r: int)
    ensures 100 * r <= fileSizeBytes < 100 * r + 100
    ensures 0 <= fileSizeBytes < 100 ==> r == 0
    ensures fileSizeBytes >= 0 ==> r >= 0
  {
    fileSizeBytes / 100
  }

  lemma EstimateRowCountMonotone(a: int, b: int)
    requires a <= b
    ensures EstimateRowCount(a) <= EstimateRowCount(b)
  {
  }

  // ------------------------------------------------------------- sanitising

  /** What `sanitizeFilename` may leave in a name: `[a-z0-9._-]`. */
  predicate IsSanitizedChar(c: char)
  {
    IsLower(c) || IsDigit(c) || c == '.' || c == '-' || c == '_'
  }

  predicate NoDoubleUnderscore(s: string)
  {
    forall i | 0 <= i < |s| - 1 :: !(s[i] == '_' && s[i + 1] == '_')
  }

  /** A name `sanitizeFilename` leaves alone. */
  predicate IsSanitized(s: string)
  {
    (forall i | 0 <= i < |s| :: IsSanitizedChar(s[i])) && NoDoubleUnderscore(s)
  }

  /** The first pass maps every character outside `[A-Za-z0-9.-]` to `_` and keeps the rest. */
  lemma {:induction false} ReplaceDisallowedFrom(s: string, i: nat)
    requires i <= |s|
    ensures var r := ReplaceFrom(s, DisallowedFilenameChar, "_", i);
      |r| == |s| - i &&
      forall j | 0 <= j < |r| :: r[j] == if IsFilenameChar(s[i + j]) then s[i + j] else '_'
    decreases |s| - i
  {
    if i < |s| {
      ReplaceDisallowedFrom(s, i + 1);
    }
  }

  /**
    The second pass starts each result with the character it starts from,
    never grows the text, and leaves no two `_` side by side.
   */
  lemma {:induction false} CollapseFrom(s: string, i: nat)
    requires i <= |s|
    ensures var r := ReplaceFrom(s, UnderscoreRun, "_", i);
      |r| <= |s| - i && (r == [] <==> i == |s|) && (i < |s| ==> r[0] == s[i]) && NoDoubleUnderscore(r)
    decreases |s| - i
  {
    if i < |s| {
      var r := ReplaceFrom(s, UnderscoreRun, "_", i);
      match MatchAt(UnderscoreRun, s, i)
      case Some(e) =>
        CollapseFrom(s, e);
        assert r == "_" + ReplaceFrom(s, UnderscoreRun, "_", e);
      case None =>
        CollapseFrom(s, i + 1);
        assert r == [s[i]] + ReplaceFrom(s, UnderscoreRun, "_", i + 1);
    }
  }

  /** The second pass only ever writes `_` or a character of its input. */
  lemma {:induction false} CollapseKeepsChars(s: string, i: nat, ok: char -> bool)
    requires i <= |s| && ok('_')
    requires forall k | i <= k < |s| :: ok(s[k])
    ensures var r := ReplaceFrom(s, UnderscoreRun, "_", i);
      forall j | 0 <= j < |r| :: ok(r[j])
    decreases |s| - i
  {
    if i < |s| {
      match MatchAt(UnderscoreRun, s, i)
      case Some(e) =>
        CollapseKeepsChars(s, e, ok);
        assert ReplaceFrom(s, UnderscoreRun, "_", i) == "_" + ReplaceFrom(s, UnderscoreRun, "_", e);
        assert forall j | 1 <= j < |ReplaceFrom(s, UnderscoreRun, "_", i)| ::
          ReplaceFrom(s, UnderscoreRun, "_", i)[j] == ReplaceFrom(s, UnderscoreRun, "_", e)[j - 1];
      case None =>
        CollapseKeepsChars(s, i + 1, ok);
        assert ReplaceFrom(s, UnderscoreRun, "_", i) == [s[i]] + ReplaceFrom(s, UnderscoreRun, "_", i + 1);
        assert forall j | 1 <= j < |ReplaceFrom(s, UnderscoreRun, "_", i)| ::
          ReplaceFrom(s, UnderscoreRun, "_", i)[j] == ReplaceFrom(s, UnderscoreRun, "_", i + 1)[j - 1];
    }
  }

  /** A text without `__` has no run for the second pass to collapse. */
  lemma CollapseWithoutRun(s: string)
    requires NoDoubleUnderscore(s)
    ensures ReplaceAll(s, UnderscoreRun, "_") == s
  {
    ReplaceWithoutMatch(s, UnderscoreRun, "_", 0);
  }

  predicate IsFilenameOrUnderscore(c: char) { IsFilenameChar(c) || c == '_' }

  /** `sanitizeFilename` */
  function SanitizeFilename(filename: string): (r: string)
    ensures IsSanitized(r)
    ensures |r| <= |filename|
  {
    var replaced := ReplaceAll(filename, DisallowedFilenameChar, "_");
    var collapsed := ReplaceAll(replaced, UnderscoreRun, "_");
    ReplaceDisallowedFrom(filename, 0);
    CollapseFrom(replaced, 0);
    CollapseKeepsChars(replaced, 0, IsFilenameOrUnderscore);
    var r := ToLower(collapsed);
    assert NoDoubleUnderscore(r) by {
      forall j | 0 <= j < |r| - 1 ensures !(r[j] == '_' && r[j + 1] == '_') {
        ToLowerCharKeeps(collapsed[j], '_');
        ToLowerCharKeeps(collapsed[j + 1], '_');
      }
    }
    r
  }

  /** A name already in sanitized form comes back unchanged. */
  lemma SanitizeKeepsSanitized(s: string)
    requires IsSanitized(s)
    ensures SanitizeFilename(s) == s
  {
    ReplaceDisallowedFrom(s, 0);
    var replaced := ReplaceAll(s, DisallowedFilenameChar, "_");
    assert replaced == s;
    CollapseWithoutRun(s);
    ToLowerKeepsLowerCase(s);
  }

  lemma SanitizeIdempotent(s: string)
    ensures SanitizeFilename(SanitizeFilename(s)) == SanitizeFilename(s)
  {
    SanitizeKeepsSanitized(SanitizeFilename(s));
  }

  // ---------------------------------------------------------- digest to hex

  type Byte = x: int | 0 <= x < 256

  predicate IsHexChar(c: char) { IsDigit(c) || 'a' <= c <= 'f' }

  /** The lower-case digit `toString(16)` writes for `d`. */
  function HexDigit(d: int): (c: char)
    requires 0 <= d < 16
    ensures IsHexChar(c)
  {
    if d < 10 then ('0' as int + d) as char else ('a' as int + d - 10) as char
  }

  /** The value of a hex digit; 0 for any other character. */
  function HexValue(c: char): (d: int)
    ensures 0 <= d < 16
  {
    if IsDigit(c) then c as int - '0' as int
    else if 'a' <= c <= 'f' then c as int - 'a' as int + 10
    else 0
  }

  /** Reading a digit back gives its value. */
  lemma HexDigitValue(d: int)
    requires 0 <= d < 16
    ensures HexValue(HexDigit(d)) == d
  {
  }

  /** The number a string of hex digits denotes. */
  function HexNumber(s: string): nat
    requires forall i | 0 <= i < |s| :: IsHexChar(s[i])
  {
    if s == [] then 0 else 16 * HexNumber(s[..|s| - 1]) + HexValue(s[|s| - 1])
  }

  /** `n.toString(16)`: hex digits without leading zeros that denote `n`. */
  function ToRadix16(n: nat): (r: string)
    ensures |r| >= 1 && forall i | 0 <= i < |r| :: IsHexChar(r[i])
    ensures HexNumber(r) == n
    ensures r[0] == '0' ==> n == 0
    ensures |r| == 1 <==> n < 16
  {
    if n < 16 then
      HexDigitValue(n);
      [HexDigit(n)]
    else
      var r := ToRadix16(n / 16) + [HexDigit(n % 16)];
      assert r[..|r| - 1] == ToRadix16(n / 16);
      HexDigitValue(n % 16);
      r
  }

  /** The two lower-case hex digits of a byte, high digit first. */
  function ByteToHex(b: Byte): (r: string)
    ensures |r| == 2 && IsHexChar(r[0]) && IsHexChar(r[1])
    ensures 16 * HexValue(r[0]) + HexValue(r[1]) == b
  {
    HexDigitValue(b / 16);
    HexDigitValue(b % 16);
    [HexDigit(b / 16), HexDigit(b % 16)]
  }

  /** `b.toString(16).padStart(2, '0')` is exactly those two digits. */
  lemma ByteToHexIsPaddedRadix(b: Byte)
    ensures PadStart(ToRadix16(b), 2, '0') == ByteToHex(b)
  {
    var digits := ToRadix16(b);
    if b < 16 {
      assert HexNumber(digits) == HexValue(digits[0]) by {
        assert digits[..0] == [];
      }
      HexDigitValue(b);
    } else {
      var high := ToRadix16(b / 16);
      assert digits == high + [HexDigit(b % 16)];
      assert HexNumber(high) == HexValue(high[0]) by {
        assert high[..0] == [];
      }
      assert digits[..1] == high;
      HexDigitValue(b / 16);
    }
  }

  /**
    `bytes.map(b => ByteToHex(b)).join('')`, the last step of
    `calculateFileHash`: the texts of the bytes, one after another.
   */
  function HexEncode(bytes: seq<Byte>): (r: string)
    ensures |r| == 2 * |bytes|
  {
    if bytes == [] then "" else ByteToHex(bytes[0]) + HexEncode(bytes[1..])
  }

  /** Two lower-case hex digits per byte. */
  lemma {:induction false} HexEncodeShape(bytes: seq<Byte>)
    ensures forall i | 0 <= i < |HexEncode(bytes)| :: IsHexChar(HexEncode(bytes)[i])
  {
    if bytes != [] {
      HexEncodeShape(bytes[1..]);
    }
  }

  /** Byte `i` is written at positions `2i` and `2i+1`. */
  lemma {:induction false} HexEncodeAt(bytes: seq<Byte>, i: nat)
    requires i < |bytes|
    ensures HexEncode(bytes)[2 * i] == ByteToHex(bytes[i])[0]
    ensures HexEncode(bytes)[2 * i + 1] == ByteToHex(bytes[i])[1]
  {
    var first, rest := ByteToHex(bytes[0]), HexEncode(bytes[1..]);
    assert HexEncode(bytes) == first + rest;
    if i == 0 {
      ConcatBeforePair(first, rest);
    } else {
      HexEncodeAt(bytes[1..], i - 1);
      assert bytes[1..][i - 1] == bytes[i];
      ConcatAfterPair(first, rest, 2 * i);
      ConcatAfterPair(first, rest, 2 * i + 1);
    }
  }

  /** Reads two hex digits per byte back. */
  function DecodeHex(s: string): (bytes: seq<Byte>)
    ensures |bytes| == |s| / 2
  {
    if |s| < 2 then []
    else [16 * HexValue(s[0]) + HexValue(s[1])] + DecodeHex(s[2..])
  }

  /** Decoding reads the first two digits as the first byte. */
  lemma DecodeHexCons(pair: string, rest: string)
    requires |pair| == 2
    ensures DecodeHex(pair + rest) == [16 * HexValue(pair[0]) + HexValue(pair[1])] + DecodeHex(rest)
  {
    assert (pair + rest)[2..] == rest;
  }

  /** The hex text determines the digest bytes. */
  lemma {:induction false} HexRoundTrip(bytes: seq<Byte>)
    ensures DecodeHex(HexEncode(bytes)) == bytes
  {
    if bytes != [] {
      var first := ByteToHex(bytes[0]);
      var rest := HexEncode(bytes[1..]);
      HexRoundTrip(bytes[1..]);
      DecodeHexCons(first, rest);
      assert [bytes[0]] + bytes[1..] == bytes;
    }
  }
}
