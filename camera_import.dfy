/**
 * Numbering of imported camera scans: a new scan in a folder is named `scan_NNN`, one past the
 * largest number already used there, so imports never overwrite each other.
 */
module CameraImport {
  import opened Wrappers
  import opened FoundationTypes
  import opened Strings

  /** Swift's `Int` on a 64-bit Mac. */
  const IntMin: int := -0x8000_0000_0000_0000
  const IntMax: int := 0x7FFF_FFFF_FFFF_FFFF

  const ScanPrefix: string := "scan_"

  predicate IsDigit(c: char) {
    '0' <= c <= '9'
  }

  predicate AllDigits(s: string) {
    forall i :: 0 <= i < |s| ==> IsDigit(s[i])
  }

  /** The value of a string of decimal digits, leading zeros allowed. */
  function DigitsValue(s: string): nat
    requires AllDigits(s)
    decreases |s|
  {
    if s == [] then 0
    else DigitsValue(s[..|s| - 1]) * 10 + (s[|s| - 1] - '0') as nat
  }

  /**
   * `Int(_: String)`: an optional '+' or '-' followed by at least one decimal digit, and
   * nothing else; `None` when the text is not of that form or the value does not fit an `Int`.
   */
  function ParseInt(s: string): (r: Option<int>)
    ensures r.Some? ==> IntMin <= r.value <= IntMax
  {
    var negative := s != [] && s[0] == '-';
    var digits := if s != [] && (s[0] == '-' || s[0] == '+') then s[1..] else s;
    if digits == [] || !AllDigits(digits) then None
    else
      var v: int := if negative then -(DigitsValue(digits) as int) else DigitsValue(digits);
      if IntMin <= v <= IntMax then Some(v) else None
  }

  /** `split(separator: "_").last`: the last non-empty piece between underscores, if any. */
  function LastSegment(name: string): Option<string> {
    var trimmed := TrimEnd(name, '_');
    if trimmed == [] then None else Some(trimmed[LastIndexOf(trimmed, '_') + 1..])
  }

  /** The scan number a directory entry counts for, if it counts at all. */
  function ScanNumber(url: Url): (n: Option<int>)
    ensures n.Some? ==> IntMin <= n.value <= IntMax
  {
    var name := BaseName(url);
    if |name| >= |ScanPrefix| && name[..|ScanPrefix|] == ScanPrefix then
      match LastSegment(name)
      case None => None
      case Some(segment) => ParseInt(segment)
    else None
  }

  /** The number each entry of the folder counts for, in order. */
  function ScanNumbers(contents: seq<Url>): (numbers: seq<Option<int>>)
    ensures |numbers| == |contents|
    decreases |contents|
  {
    if contents == [] then []
    else ScanNumbers(contents[..|contents| - 1]) + [ScanNumber(contents[|contents| - 1])]
  }

  lemma {:induction false} ScanNumbersAt(contents: seq<Url>, i: nat)
    requires i < |contents|
    ensures ScanNumbers(contents)[i] == ScanNumber(contents[i])
    decreases |contents|
  {
    if i < |contents| - 1 {
      var init := contents[..|contents| - 1];
      ScanNumbersAt(init, i);
      assert init[i] == contents[i];
    }
  }

  /** The running `max(maxNumber, number)`, starting from 0. */
  function MaxNumber(numbers: seq<Option<int>>): int
    decreases |numbers|
  {
    if numbers == [] then 0
    else
      var m := MaxNumber(numbers[..|numbers| - 1]);
      match numbers[|numbers| - 1]
      case Some(n) => if n > m then n else m
      case None => m
  }

  /** The running maximum is at least 0, at least every number, and one of them or 0. */
  lemma {:induction false} MaxNumberIsMax(numbers: seq<Option<int>>)
    ensures var m := MaxNumber(numbers);
      m >= 0 &&
      (forall i :: 0 <= i < |numbers| && numbers[i].Some? ==> numbers[i].value <= m) &&
      (m == 0 || Some(m) in numbers)
    decreases |numbers|
  {
    if numbers != [] {
      var init := numbers[..|numbers| - 1];
      MaxNumberIsMax(init);
      assert forall i :: 0 <= i < |init| ==> init[i] == numbers[i];
      assert forall x :: x in init ==> x in numbers;
    }
  }

  /**
   * `nextScanNumber(in:)`: one past the largest scan number, 1 for an unreadable folder; `None`
   * stands for the overflow trap of `maxNumber + 1` when a name already carries `Int.max`.
   */
  function NextScanNumber(contents: Option<seq<Url>>): Option<int> {
    match contents
    case None => Some(1)
    case Some(urls) =>
      var m := MaxNumber(ScanNumbers(urls));
      if m >= IntMax then None else Some(m + 1)
  }

  /** The next number is one past the running maximum, unless that is already `Int.max`. */
  lemma NextIsMaxPlusOne(urls: seq<Url>)
    ensures var m := MaxNumber(ScanNumbers(urls));
      NextScanNumber(Some(urls)) == if m >= IntMax then None else Some(m + 1)
  {
    var contents := Some(urls);
    assert contents.value == urls;
  }

  /** One more entry adds one more number at the end, and the running maximum takes it in. */
  lemma ScanNumbersStep(urls: seq<Url>, i: nat)
    requires i < |urls|
    ensures var before := ScanNumbers(urls[..i]); var n := ScanNumber(urls[i]);
      MaxNumber(ScanNumbers(urls[..i + 1])) ==
        if n.Some? && n.value > MaxNumber(before) then n.value else MaxNumber(before)
  {
    assert urls[..i + 1][..i] == urls[..i];
    var counted := ScanNumbers(urls[..i]) + [ScanNumber(urls[i])];
    assert ScanNumbers(urls[..i + 1]) == counted;
    assert counted[..i] == ScanNumbers(urls[..i]);
  }

  /** The loop of `nextScanNumber(in:)`: the running maximum over the folder's entries. */
  method ComputeMaxNumber(urls: seq<Url>) returns (maxNumber: int)
    ensures maxNumber == MaxNumber(ScanNumbers(urls))
  {
    maxNumber := 0;
    for i := 0 to |urls|
      invariant maxNumber == MaxNumber(ScanNumbers(urls[..i]))
    {
      var number := ScanNumber(urls[i]);
      ScanNumbersStep(urls, i);
      if number.Some? && number.value > maxNumber {
        maxNumber := number.value;
      }
    }
    assert urls[..|urls|] == urls;
  }

  /** `nextScanNumber(in:)`: 1 for an unreadable folder, else one past the running maximum. */
  method ComputeNextScanNumber(contents: Option<seq<Url>>) returns (next: Option<int>)
    ensures next == NextScanNumber(contents)
  {
    if contents.None? {
      return Some(1);
    }
    var maxNumber := ComputeMaxNumber(contents.value);
    NextIsMaxPlusOne(contents.value);
    if maxNumber >= IntMax {
      return None;
    }
    next := Some(maxNumber + 1);
  }

  /** An unreadable folder starts at 1; otherwise the next number is at least 1 when there is one. */
  lemma NextIsPositive(contents: Option<seq<Url>>)
    ensures contents.None? ==> NextScanNumber(contents) == Some(1)
    ensures NextScanNumber(contents).Some? ==> NextScanNumber(contents).value >= 1
  {
    if contents.Some? {
      MaxNumberIsMax(ScanNumbers(contents.value));
    }
  }

  /** There is no next number exactly when a name in the folder already carries `Int.max`. */
  lemma NextTrapsOnlyAtIntMax(urls: seq<Url>)
    ensures NextScanNumber(Some(urls)).None? <==> Some(IntMax) in ScanNumbers(urls)
  {
    var numbers := ScanNumbers(urls);
    ScanNumbersBounded(urls);
    MaxReachesBound(numbers);
  }

  lemma MaxReachesBound(numbers: seq<Option<int>>)
    requires forall i :: 0 <= i < |numbers| && numbers[i].Some? ==> numbers[i].value <= IntMax
    ensures MaxNumber(numbers) >= IntMax <==> Some(IntMax) in numbers
  {
    MaxNumberIsMax(numbers);
    if Some(IntMax) in numbers {
      var i :| 0 <= i < |numbers| && numbers[i] == Some(IntMax);
      assert numbers[i].value <= MaxNumber(numbers);
    }
    var m := MaxNumber(numbers);
    if m != 0 {
      var i :| 0 <= i < |numbers| && numbers[i] == Some(m);
      assert m <= IntMax;
    }
  }

  /** The next number is larger than the number of every entry that counts. */
  lemma NextExceedsEveryScan(urls: seq<Url>, i: nat)
    requires i < |urls|
    ensures var next := NextScanNumber(Some(urls));
      ScanNumber(urls[i]).Some? && next.Some? ==> ScanNumber(urls[i]).value < next.value
  {
    var numbers := ScanNumbers(urls);
    MaxNumberIsMax(numbers);
    ScanNumbersAt(urls, i);
    if numbers[i].Some? {
      assert numbers[i].value <= MaxNumber(numbers);
    }
  }

  /** Every counted number fits an `Int`. */
  lemma ScanNumbersBounded(contents: seq<Url>)
    ensures forall i :: 0 <= i < |contents| && ScanNumbers(contents)[i].Some? ==> ScanNumbers(contents)[i].value <= IntMax
  {
    forall i | 0 <= i < |contents| && ScanNumbers(contents)[i].Some?
      ensures ScanNumbers(contents)[i].value <= IntMax
    {
      ScanNumbersAt(contents, i);
    }
  }

  /** A name that does not start with `scan_` never counts. */
  lemma OtherNamesIgnored(url: Url)
    requires var name := BaseName(url); !(|name| >= |ScanPrefix| && name[..|ScanPrefix|] == ScanPrefix)
    ensures ScanNumber(url) == None
  {
  }

  /** The decimal digits of `n`, without leading zeros. */
  function Digits(n: nat): (s: string)
    ensures AllDigits(s) && s != []
    decreases n
  {
    if n < 10 then [('0' as int + n) as char]
    else Digits(n / 10) + [('0' as int + n % 10) as char]
  }

  /** The digits `d` preceded by as many '0' as bring them to `width` characters. */
  function PadZeros(d: string, width: nat): string {
    var pad := if |d| < width then seq(width - |d|, _ => '0') else [];
    pad + d
  }

  /**
   * The zero-padded decimal form of the whole number `n`, as `%03ld` writes a 64-bit `Int`:
   * the digits of `n`, padded to at least three.
   */
  function Format03(n: nat): (s: string)
    ensures AllDigits(s) && |s| >= 3
  {
    PadZeros(Digits(n), 3)
  }

  /** The file name a scan numbered `n` gets before its extension, with all of `n`'s digits. */
  function ScanName(n: nat): string {
    ScanPrefix + Format03(n)
  }

  /**
   * What `%d` reads of an `Int` argument: a C `int`, that is the low 32 bits of the value
   * taken as a signed number.
   */
  function Int32Of(n: int): (v: int)
    ensures -0x8000_0000 <= v < 0x8000_0000
  {
    var low := n % 0x1_0000_0000;
    if low >= 0x8000_0000 then low - 0x1_0000_0000 else low
  }

  /** `%03d` of a C `int`: a '-' for a negative value, and zeros filling the width of three. */
  function FormatD03(v: int): string {
    if v >= 0 then Format03(v) else "-" + PadZeros(Digits(-v), 2)
  }

  /** `String(format: "scan_%03d", nextNumber)` as written, passing an `Int` to `%d`. */
  function ScanNameAsWritten(n: int): string {
    ScanPrefix + FormatD03(Int32Of(n))
  }

  /** Below 2^31 the written format names a scan with all its digits. */
  lemma ScanNameAsWrittenAgrees(n: int)
    requires 0 <= n < 0x8000_0000
    ensures ScanNameAsWritten(n) == ScanName(n)
  {
    assert n % 0x1_0000_0000 == n;
    assert Int32Of(n) == n;
  }

  /** The written format names `n` and `n + 2^32` alike. */
  lemma ScanNameAsWrittenWraps(n: int)
    ensures ScanNameAsWritten(n + 0x1_0000_0000) == ScanNameAsWritten(n)
  {
    assert (n + 0x1_0000_0000) % 0x1_0000_0000 == n % 0x1_0000_0000;
  }

  /** Over two counted numbers `x` < `y` the running maximum is `y`. */
  lemma MaxOfTwo(numbers: seq<Option<int>>, x: int, y: int)
    requires |numbers| == 2 && numbers[0] == Some(x) && numbers[1] == Some(y) && 0 <= x < y
    ensures MaxNumber(numbers) == y
  {
    MaxNumberIsMax(numbers);
    assert numbers[1].value <= MaxNumber(numbers);
  }

  /** Two saved scans numbered `x` < `y` in one folder leave `y + 1` as the next number. */
  lemma NextAfterTwoScans(folder: Url, ext: string, x: nat, y: nat)
    requires ext != [] && '.' !in ext && '/' !in ext
    requires 1 <= x < y < IntMax
    ensures var contents := [AppendingPathComponent(folder, ScanName(x) + "." + ext),
                             AppendingPathComponent(folder, ScanName(y) + "." + ext)];
      NextScanNumber(Some(contents)) == Some(y + 1)
  {
    var a := AppendingPathComponent(folder, ScanName(x) + "." + ext);
    var b := AppendingPathComponent(folder, ScanName(y) + "." + ext);
    assert MaxNumber(ScanNumbers([a, b])) == y by {
      SavedScanCountsAsItsNumber(folder, x, ext);
      SavedScanCountsAsItsNumber(folder, y, ext);
      ScanNumbersAt([a, b], 0);
      ScanNumbersAt([a, b], 1);
      MaxOfTwo(ScanNumbers([a, b]), x, y);
    }
    NextIsMaxPlusOne([a, b]);
  }

  /**
   * A folder holding `scan_k.ext` and `scan_(k + 2^32 - 1).ext` hands out `k + 2^32` next,
   * which the written format names `scan_k` again: the new scan lands on the existing one.
   * With `k` = 5 these are `scan_005` and `scan_4294967300`.
   */
  lemma ScanNameAsWrittenOverwrites(folder: Url, ext: string, k: nat)
    requires ext != [] && '.' !in ext && '/' !in ext
    requires 1 <= k < 0x8000_0000
    ensures var existing := AppendingPathComponent(folder, ScanName(k) + "." + ext);
      var contents := [existing, AppendingPathComponent(folder, ScanName(k + 0xFFFF_FFFF) + "." + ext)];
      NextScanNumber(Some(contents)) == Some(k + 0x1_0000_0000) &&
      ScanNameAsWritten(k + 0x1_0000_0000) == ScanName(k) == BaseName(existing)
  {
    NextAfterTwoScans(folder, ext, k, k + 0xFFFF_FFFF);
    SavedScanBaseName(folder, k, ext);
    ScanNameAsWrittenWraps(k);
    ScanNameAsWrittenAgrees(k);
  }

  lemma {:induction false} DigitsValueOfDigits(n: nat)
    ensures DigitsValue(Digits(n)) == n
    decreases n
  {
    if n >= 10 {
      DigitsValueOfDigits(n / 10);
      var s := Digits(n);
      assert s[..|s| - 1] == Digits(n / 10);
    }
  }

  /** Leading zeros do not change the value. */
  lemma {:induction false} LeadingZeros(k: nat, s: string)
    requires AllDigits(s)
    ensures AllDigits(seq(k, _ => '0') + s) && DigitsValue(seq(k, _ => '0') + s) == DigitsValue(s)
    decreases |s|
  {
    var z := seq(k, _ => '0');
    if s == [] {
      assert z + s == z;
      ZerosValue(k);
    } else {
      var init := s[..|s| - 1];
      LeadingZeros(k, init);
      assert (z + s)[..|z + s| - 1] == z + init;
    }
  }

  lemma {:induction false} ZerosValue(k: nat)
    ensures AllDigits(seq(k, _ => '0')) && DigitsValue(seq(k, _ => '0')) == 0
    decreases k
  {
    if k > 0 {
      ZerosValue(k - 1);
      assert seq(k, _ => '0')[..k - 1] == seq(k - 1, _ => '0');
    }
  }

  /** The zero-padded number reads back as that number. */
  lemma Format03Value(n: nat)
    ensures DigitsValue(Format03(n)) == n
  {
    var d := Digits(n);
    DigitsValueOfDigits(n);
    if |d| < 3 {
      LeadingZeros(3 - |d|, d);
    } else {
      assert Format03(n) == d;
    }
  }

  /** Once a scan `scan_NNN.ext` is in the folder, the next number handed out is larger than `n`. */
  lemma NextAfterSavedScan(folder: Url, contents: seq<Url>, n: nat, ext: string)
    requires 1 <= n <= IntMax
    requires ext != [] && '.' !in ext && '/' !in ext
    requires AppendingPathComponent(folder, ScanName(n) + "." + ext) in contents
    ensures var next := NextScanNumber(Some(contents)); next.Some? ==> next.value > n
  {
    var url := AppendingPathComponent(folder, ScanName(n) + "." + ext);
    SavedScanCountsAsItsNumber(folder, n, ext);
    var i :| 0 <= i < |contents| && contents[i] == url;
    NextExceedsEveryScan(contents, i);
  }

  /**
   * A scan saved as `scan_NNN.ext` in any folder counts for exactly its number, so a later
   * call never hands out that number again.
   */
  lemma SavedScanCountsAsItsNumber(folder: Url, n: nat, ext: string)
    requires 1 <= n <= IntMax
    requires ext != [] && '.' !in ext && '/' !in ext
    ensures ScanNumber(AppendingPathComponent(folder, ScanName(n) + "." + ext)) == Some(n)
  {
    var name := ScanName(n);
    SavedScanBaseName(folder, n, ext);
    assert name[..|ScanPrefix|] == ScanPrefix;
    ScanNameSegment(n);
    PaddedParses(n);
  }

  /** The base name of a saved `scan_NNN.ext` is `scan_NNN`. */
  lemma SavedScanBaseName(folder: Url, n: nat, ext: string)
    requires ext != [] && '.' !in ext && '/' !in ext
    ensures BaseName(AppendingPathComponent(folder, ScanName(n) + "." + ext)) == ScanName(n)
  {
    var name := ScanName(n);
    var file := name + "." + ext;
    NameHasNoSeparators(n);
    assert '/' !in file by {
      assert forall i :: 0 <= i < |file| ==> file[i] == (if i < |name| then name[i] else if i == |name| then '.' else ext[i - |name| - 1]);
    }
    AppendingPathComponentSplits(folder, file);
    ExtensionSplitsOff(name, ext);
  }

  /** The last underscore-separated piece of `scan_NNN` is the zero-padded number. */
  lemma ScanNameSegment(n: nat)
    ensures LastSegment(ScanName(n)) == Some(Format03(n))
  {
    NameHasNoSeparators(n);
    assert TrimEnd(ScanName(n), '_') == ScanName(n);
    LastUnderscore(Format03(n));
  }

  /** The zero-padded number parses back as the number. */
  lemma PaddedParses(n: nat)
    requires n <= IntMax
    ensures ParseInt(Format03(n)) == Some(n)
  {
    var digits := Format03(n);
    Format03Value(n);
    assert digits[0] != '-' && digits[0] != '+';
  }

  /** `ScanName(n)` is `scan_` followed by digits only: no '/', no '.'. */
  lemma NameHasNoSeparators(n: nat)
    ensures '/' !in ScanName(n) && '.' !in ScanName(n)
    ensures |ScanName(n)| > |ScanPrefix| && ScanName(n)[|ScanName(n)| - 1] != '_'
  {
    var digits := Format03(n);
    assert forall i :: 0 <= i < |ScanName(n)| ==> ScanName(n)[i] == if i < |ScanPrefix| then ScanPrefix[i] else digits[i - |ScanPrefix|];
  }

  /** In `scan_` + digits, the last '_' is the one of the prefix. */
  lemma LastUnderscore(digits: string)
    requires AllDigits(digits) && digits != []
    ensures LastIndexOf(ScanPrefix + digits, '_') == |ScanPrefix| - 1
    ensures (ScanPrefix + digits)[|ScanPrefix|..] == digits
  {
    var s := ScanPrefix + digits;
    assert forall j :: |ScanPrefix| <= j < |s| ==> s[j] == digits[j - |ScanPrefix|];
    var i := LastIndexOf(s, '_');
    assert s[|ScanPrefix| - 1] == '_';
  }

}
