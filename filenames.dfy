/** Which workbook files each page picks up, and the name the Append Total
    page gives a schedule once it has summed its tier-2 column. Money is
    counted in integer cents here: the source sums floats and formats the
    sum with two decimals. */
module FileNames {
  import opened Text

  /** Prefixes of the files the schedule passes skip: the lookup table,
      exports, and the lock and resource-fork files office software leaves. */
  const SchedulePrefixes: seq<string> := ["vlookup_", "duplicate_", "._", "~$"]

  /** Prefixes the duplicate-name scan and the Append Total page skip. */
  const ScanPrefixes: seq<string> := ["vlookup_", "duplicate_ssnit_", "._", "~$"]

  /** A schedule as the validation page, the account check, the duplicate
      check and the schedule annotation select it: an `.xlsx` name in any
      letter case that starts with none of the excluded prefixes. */
  predicate IsScheduleFile(name: string) {
    EndsWith(Lower(name), ".xlsx") && !StartsWithAny(name, SchedulePrefixes)
  }

  /** A schedule as the duplicate-name scan selects it. */
  predicate IsScanFile(name: string) {
    EndsWith(Lower(name), ".xlsx") && !StartsWithAny(name, ScanPrefixes)
  }

  /** A file the Append Total page will rename: the `.xlsx` test is case
      sensitive here, and a name holding `_` counts as already processed. */
  predicate IsAppendCandidate(name: string) {
    EndsWith(name, ".xlsx") && !StartsWithAny(name, ScanPrefixes) && '_' !in name
  }

  lemma LowerKeepsLowerText(s: string)
    requires forall i :: 0 <= i < |s| ==> !('A' <= s[i] <= 'Z')
    ensures Lower(s) == s
  {
  }

  /** Every append candidate is a schedule file for the other passes too. */
  lemma AppendCandidateIsScheduleFile(name: string)
    requires IsAppendCandidate(name)
    ensures IsScheduleFile(name) && IsScanFile(name)
  {
    var n := |name|;
    assert Lower(name)[n - 5..] == Lower(name[n - 5..]);
    LowerKeepsLowerText(".xlsx");
    if StartsWithAny(name, SchedulePrefixes) {
      SchedulePrefixShape(name);
    }
    if StartsWithAny(name, ScanPrefixes) {
      ScanPrefixIsSchedulePrefix(name);
      SchedulePrefixShape(name);
    }
  }

  /** A name with an excluded schedule prefix holds `_` or has an excluded
      scan prefix. */
  lemma SchedulePrefixShape(name: string)
    requires StartsWithAny(name, SchedulePrefixes)
    ensures '_' in name || StartsWithAny(name, ScanPrefixes)
  {
    var i :| 0 <= i < |SchedulePrefixes| && StartsWith(name, SchedulePrefixes[i]);
    if i == 0 {
      assert name[7] == '_';
    } else if i == 1 {
      assert name[9] == '_';
    } else {
      assert StartsWith(name, ScanPrefixes[i]);
    }
  }

  /** Every excluded scan prefix starts with an excluded schedule prefix. */
  lemma ScanPrefixIsSchedulePrefix(name: string)
    requires StartsWithAny(name, ScanPrefixes)
    ensures StartsWithAny(name, SchedulePrefixes)
  {
    var i :| 0 <= i < |ScanPrefixes| && StartsWith(name, ScanPrefixes[i]);
    if i == 1 {
      assert name[..10] == SchedulePrefixes[1];
      assert StartsWith(name, SchedulePrefixes[1]);
    } else {
      assert StartsWith(name, SchedulePrefixes[i]);
    }
  }

  /** The scan skips fewer files than the schedule passes: a schedule file
      is always scanned, since `duplicate_` covers `duplicate_ssnit_`. */
  lemma ScheduleFileIsScanFile(name: string)
    requires IsScheduleFile(name)
    ensures IsScanFile(name)
  {
    if StartsWithAny(name, ScanPrefixes) {
      ScanPrefixIsSchedulePrefix(name);
    }
  }

  /** The workbooks the application writes itself, the lookup table
      `vlookup_<company>.xlsx` and the export `duplicate_ssnit_<company>.xlsx`,
      are never taken for schedules. */
  lemma GeneratedFilesSkipped(company: string)
    ensures !IsScheduleFile("vlookup_" + company + ".xlsx")
    ensures !IsScanFile("vlookup_" + company + ".xlsx")
    ensures !IsAppendCandidate("vlookup_" + company + ".xlsx")
    ensures !IsScheduleFile("duplicate_ssnit_" + company + ".xlsx")
    ensures !IsScanFile("duplicate_ssnit_" + company + ".xlsx")
    ensures !IsAppendCandidate("duplicate_ssnit_" + company + ".xlsx")
  {
    var v := "vlookup_" + company + ".xlsx";
    var d := "duplicate_ssnit_" + company + ".xlsx";
    assert v[..8] == ScanPrefixes[0] && v[..8] == SchedulePrefixes[0];
    assert d[..16] == ScanPrefixes[1];
    assert d[..10] == SchedulePrefixes[1];
  }

  // ---------------------------------------------------------------------
  // os.path.splitext on a bare file name

  /** The position of the last '.' in `s`. */
  function LastIndex(s: string, c: char): (r: Option<nat>)
    ensures r.None? <==> c !in s
    ensures r.Some? ==> r.value < |s| && s[r.value] == c && c !in s[r.value + 1..]
  {
    if s == [] then None
    else if s[|s| - 1] == c then Some(|s| - 1)
    else
      assert s[..|s| - 1] + [s[|s| - 1]] == s;
      LastIndex(s[..|s| - 1], c)
  }

  lemma {:induction false} LastIndexAt(s: string, c: char, i: nat)
    requires i < |s| && s[i] == c && c !in s[i + 1..]
    ensures LastIndex(s, c) == Some(i)
  {
    if i < |s| - 1 {
      assert s[|s| - 1] == s[i + 1..][|s| - 2 - i];
      assert s[..|s| - 1][i + 1..] == s[i + 1..|s| - 1];
      LastIndexAt(s[..|s| - 1], c, i);
    }
  }

  lemma NotInPrefix(s: string, k: nat, c: char)
    requires c !in s && k <= |s|
    ensures c !in s[..k]
  {
    assert forall i :: 0 <= i < k ==> s[..k][i] == s[i];
  }

  predicate AllDots(s: string) {
    forall i :: 0 <= i < |s| ==> s[i] == '.'
  }

  /** `os.path.splitext(name)` for a name without a directory part: the
      extension starts at the last '.', unless only dots precede it. */
  function SplitExt(name: string): (string, string) {
    match LastIndex(name, '.')
    case None => (name, "")
    case Some(d) => if AllDots(name[..d]) then (name, "") else (name[..d], name[d..])
  }

  /** The root and the extension put back together give the name; the
      extension is empty or a single '.' followed by no other '.'. */
  lemma SplitExtSpec(name: string)
    ensures var (root, ext) := SplitExt(name);
      && root + ext == name
      && (ext == "" || (ext[0] == '.' && '.' !in ext[1..] && !AllDots(root)))
  {
    match LastIndex(name, '.')
    case None =>
    case Some(d) =>
      if !AllDots(name[..d]) {
        assert name[..d] + name[d..] == name;
        assert name[d..][1..] == name[d + 1..];
      }
  }

  /** For an `.xlsx` name with something other than dots before the
      extension, the root is the name without `.xlsx`. */
  lemma SplitExtXlsx(name: string)
    requires EndsWith(name, ".xlsx") && !AllDots(name[..|name| - 5])
    ensures SplitExt(name) == (name[..|name| - 5], ".xlsx")
  {
    var d := |name| - 5;
    assert name[d..] == ".xlsx";
    assert name[d] == '.';
    assert name[d + 1..] == "xlsx";
    LastIndexAt(name, '.', d);
  }

  // ---------------------------------------------------------------------
  // The formatted total

  function DigitChar(d: nat): (c: char)
    requires d < 10
    ensures '0' <= c <= '9'
  {
    ('0' as int + d) as char
  }

  predicate IsDigits(s: string) {
    forall i :: 0 <= i < |s| ==> '0' <= s[i] <= '9'
  }

  /** `str(n)` for a natural number: digits only, and no leading zero
      except in "0" itself. */
  function Decimal(n: nat): (r: string)
    ensures r != [] && IsDigits(r)
    ensures r[0] == '0' <==> n == 0
    ensures r[0] == '0' ==> r == "0"
  {
    if n < 10 then [DigitChar(n)] else Decimal(n / 10) + [DigitChar(n % 10)]
  }

  /** The number a string of decimal digits denotes. */
  function DigitsValue(s: string): nat
    requires IsDigits(s)
  {
    if s == [] then 0 else 10 * DigitsValue(s[..|s| - 1]) + (s[|s| - 1] as int - '0' as int)
  }

  lemma {:induction false} DecimalValue(n: nat)
    ensures DigitsValue(Decimal(n)) == n
  {
    if n >= 10 {
      DecimalValue(n / 10);
      var r := Decimal(n);
      assert r[..|r| - 1] == Decimal(n / 10);
    }
  }

  lemma TwoDigits(x: nat, y: nat)
    requires x < 10 && y < 10
    ensures DigitsValue([DigitChar(x), DigitChar(y)]) == 10 * x + y
  {
    var t := [DigitChar(x), DigitChar(y)];
    assert t[..1] == [DigitChar(x)];
    assert [DigitChar(x)][..0] == [];
    assert DigitsValue([DigitChar(x)]) == x;
  }

  /** `f"{total:.2f}"` for a total of `cents` hundredths. */
  function FormatCents(cents: int): (r: string)
    ensures '_' !in r
  {
    var m := if cents < 0 then -cents else cents;
    (if cents < 0 then "-" else "") + Decimal(m / 100) + "." + [DigitChar(m % 100 / 10), DigitChar(m % 10)]
  }

  /** Reads back a total written by `FormatCents`. */
  function ParseCents(s: string): Option<int> {
    if |s| < 4 || s[|s| - 3] != '.' then None
    else ParseAmount(s[..|s| - 3], s[|s| - 2..])
  }

  /** The value of an optionally signed whole part and two decimals. */
  function ParseAmount(sign: string, frac: string): Option<int> {
    var negative := sign != [] && sign[0] == '-';
    var whole := if negative then sign[1..] else sign;
    if whole == [] || !IsDigits(whole) || !IsDigits(frac) then None
    else
      var m := DigitsValue(whole) * 100 + DigitsValue(frac);
      Some(if negative then -m else m)
  }

  /** A signed amount with digits before the point and two after parses
      to its value in cents. */
  lemma ParseCentsShape(negative: bool, whole: string, frac: string)
    requires whole != [] && IsDigits(whole) && |frac| == 2 && IsDigits(frac)
    ensures var s := (if negative then "-" else "") + whole + "." + frac;
      var m := DigitsValue(whole) * 100 + DigitsValue(frac);
      ParseCents(s) == Some(if negative then -m else m)
  {
    var sign := (if negative then "-" else "") + whole;
    ParseSplit(sign, frac);
    if negative {
      AmountNegative(whole, frac);
    } else {
      assert sign == whole;
      AmountNonNegative(whole, frac);
    }
  }

  lemma ParseSplit(sign: string, frac: string)
    requires sign != [] && |frac| == 2
    ensures ParseCents(sign + "." + frac) == ParseAmount(sign, frac)
  {
    var s := sign + "." + frac;
    assert s[..|s| - 3] == sign && s[|s| - 3] == '.' && s[|s| - 2..] == frac;
  }

  lemma AmountNonNegative(whole: string, frac: string)
    requires whole != [] && IsDigits(whole) && IsDigits(frac)
    ensures ParseAmount(whole, frac) == Some(DigitsValue(whole) * 100 + DigitsValue(frac))
  {
    assert '0' <= whole[0] <= '9';
  }

  lemma AmountNegative(whole: string, frac: string)
    requires whole != [] && IsDigits(whole) && IsDigits(frac)
    ensures ParseAmount("-" + whole, frac) == Some(-(DigitsValue(whole) * 100 + DigitsValue(frac)))
  {
    assert ("-" + whole)[1..] == whole;
  }

  /** The formatted total can be read back: no two totals give the same
      text. */
  lemma ParseFormatCents(cents: int)
    ensures ParseCents(FormatCents(cents)) == Some(cents)
  {
    if cents < 0 {
      ParseMagnitude(true, -cents);
    } else {
      ParseMagnitude(false, cents);
    }
  }

  lemma ParseMagnitude(negative: bool, m: nat)
    ensures ParseCents((if negative then "-" else "") + Decimal(m / 100) + "." + [DigitChar(m % 100 / 10), DigitChar(m % 10)])
         == Some(if negative then -(m as int) else m as int)
  {
    var whole, frac := Decimal(m / 100), [DigitChar(m % 100 / 10), DigitChar(m % 10)];
    ParseCentsShape(negative, whole, frac);
    CentsDigits(m);
  }

  /** The digits `FormatCents` writes for `m` hundredths denote `m`. */
  lemma CentsDigits(m: nat)
    ensures DigitsValue(Decimal(m / 100)) * 100 + DigitsValue([DigitChar(m % 100 / 10), DigitChar(m % 10)]) == m
  {
    DecimalValue(m / 100);
    TwoDigits(m % 100 / 10, m % 10);
    CentsSplit(m);
  }

  lemma CentsSplit(m: nat)
    ensures (m / 100) * 100 + 10 * (m % 100 / 10) + m % 10 == m
  {
    var q, r := m / 100, m % 100;
    assert m == q * 100 + r;
    assert m % 10 == r % 10;
  }

  // ---------------------------------------------------------------------
  // The renamed schedule

  /** `f"{splitext(file)[0]}_{total:.2f}.xlsx"`. */
  function AppendedName(file: string, cents: int): string {
    SplitExt(file).0 + "_" + FormatCents(cents) + ".xlsx"
  }

  /** A renamed schedule is never a candidate again: its name holds `_`. */
  lemma RenamedNotCandidate(file: string, cents: int)
    ensures !IsAppendCandidate(AppendedName(file, cents))
  {
    var root := SplitExt(file).0;
    assert AppendedName(file, cents)[|root|] == '_';
  }

  /** Reads the root and the total back out of a renamed schedule's name:
      the total follows the last `_` and precedes `.xlsx`. */
  function ParseAppendedName(name: string): Option<(string, int)> {
    if !EndsWith(name, ".xlsx") then None
    else
      var stem := name[..|name| - 5];
      match LastIndex(stem, '_')
      case None => None
      case Some(u) =>
        match ParseCents(stem[u + 1..])
        case None => None
        case Some(c) => Some((stem[..u], c))
  }

  /** The new name of a candidate holds its root and its total, and both can
      be read back from it. */
  lemma AppendedNameRoundTrip(file: string, cents: int)
    requires IsAppendCandidate(file)
    ensures ParseAppendedName(AppendedName(file, cents)) == Some((SplitExt(file).0, cents))
  {
    var root := SplitExt(file).0;
    SplitExtSpec(file);
    assert root == file[..|root|] by {
      assert file == root + SplitExt(file).1;
    }
    NotInPrefix(file, |root|, '_');
    ParseFormatCents(cents);
    ParseNameParts(root, FormatCents(cents));
  }

  /** `root_<amount>.xlsx` parses back into its root and its amount when
      neither part holds `_`. */
  lemma ParseNameParts(root: string, amount: string)
    requires '_' !in root && '_' !in amount
    ensures ParseAppendedName(root + "_" + amount + ".xlsx") ==
      match ParseCents(amount)
      case None => None
      case Some(c) => Some((root, c))
  {
    var name := root + "_" + amount + ".xlsx";
    var stem := root + "_" + amount;
    assert EndsWith(name, ".xlsx");
    assert name[..|name| - 5] == stem;
    assert stem[|root|] == '_';
    assert stem[|root| + 1..] == amount;
    LastIndexAt(stem, '_', |root|);
    assert stem[..|root|] == root;
  }

  // ---------------------------------------------------------------------
  // The Append Total run over one folder

  /** A file of the folder as the run sees it: its name, its tier-2 total in
      cents when the workbook can be read and has a `tier2` column, and
      whether renaming it succeeds. */
  datatype FolderFile = FolderFile(name: string, tier2Total: Option<int>, renameSucceeds: bool)

  datatype Status = Processed | Failed

  /** The files the run lists, in directory order. */
  function Candidates(folder: seq<FolderFile>): (r: seq<FolderFile>)
    ensures forall f :: f in r <==> f in folder && IsAppendCandidate(f.name)
  {
    if folder == [] then []
    else (if IsAppendCandidate(folder[0].name) then [folder[0]] else []) + Candidates(folder[1..])
  }

  /** What happens to one listed file. */
  function Outcome(f: FolderFile): Status {
    if f.tier2Total.Some? && f.renameSucceeds then Processed else Failed
  }

  /** The name a listed file has after the loop has visited it. */
  function NameAfter(f: FolderFile): string {
    if Outcome(f) == Processed then AppendedName(f.name, f.tier2Total.value) else f.name
  }

  function CountProcessed(files: seq<FolderFile>): (n: nat)
    ensures n <= |files|
  {
    if files == [] then 0
    else CountProcessed(files[..|files| - 1]) + (if Outcome(files[|files| - 1]) == Processed then 1 else 0)
  }

  /** The loop of the Append Total page over the listed files: each is
      renamed to carry its total, or marked failed. */
  method AppendTotal(files: seq<FolderFile>)
    returns (statuses: seq<Status>, newNames: seq<string>, processedCount: nat)
    ensures |statuses| == |files| && |newNames| == |files|
    ensures forall i :: 0 <= i < |files| ==> statuses[i] == Outcome(files[i]) && newNames[i] == NameAfter(files[i])
    ensures processedCount == CountProcessed(files)
  {
    statuses, newNames, processedCount := [], [], 0;
    var idx := 0;
    while idx < |files|
      invariant 0 <= idx <= |files|
      invariant |statuses| == idx && |newNames| == idx
      invariant forall i :: 0 <= i < idx ==> statuses[i] == Outcome(files[i]) && newNames[i] == NameAfter(files[i])
      invariant processedCount == CountProcessed(files[..idx])
    {
      var file := files[idx];
      var status, newFilename := RenameOne(file);
      statuses := statuses + [status];
      newNames := newNames + [newFilename];
      if status == Processed {
        processedCount := processedCount + 1;
      }
      assert files[..idx + 1][..idx] == files[..idx];
      idx := idx + 1;
    }
    assert files[..idx] == files;
  }

  /** A processed file's new name gives back its root and its total. */
  lemma NameAfterRoundTrip(f: FolderFile)
    requires IsAppendCandidate(f.name) && Outcome(f) == Processed
    ensures ParseAppendedName(NameAfter(f)) == Some((SplitExt(f.name).0, f.tier2Total.value))
  {
    AppendedNameRoundTrip(f.name, f.tier2Total.value);
  }

  /** One file of the loop: renamed to carry its total when the total can
      be read and the rename succeeds, marked failed otherwise. */
  method RenameOne(file: FolderFile) returns (status: Status, newFilename: string)
    ensures status == Outcome(file) && newFilename == NameAfter(file)
    ensures status == Processed <==> file.tier2Total.Some? && file.renameSucceeds
  {
    if file.tier2Total.Some? && file.renameSucceeds {
      newFilename := AppendedName(file.name, file.tier2Total.value);
      status := Processed;
    } else {
      newFilename := file.name;
      status := Failed;
    }
  }

  /** A file of the folder after a run: only listed files are renamed. */
  function AfterRun(f: FolderFile): FolderFile {
    if IsAppendCandidate(f.name) then f.(name := NameAfter(f)) else f
  }

  /** The folder after a run. */
  function FolderAfter(folder: seq<FolderFile>): seq<FolderFile> {
    seq(|folder|, i requires 0 <= i < |folder| => AfterRun(folder[i]))
  }

  /** A second run lists only the files the first run failed on: renamed
      files are never summed twice. */
  lemma SecondRunSkipsRenamed(folder: seq<FolderFile>)
    ensures forall g :: g in Candidates(FolderAfter(folder)) ==>
      exists f :: f in Candidates(folder) && Outcome(f) == Failed && g == f
  {
    forall g | g in Candidates(FolderAfter(folder))
      ensures exists f :: f in Candidates(folder) && Outcome(f) == Failed && g == f
    {
      var i :| 0 <= i < |folder| && FolderAfter(folder)[i] == g;
      var f := folder[i];
      if f.tier2Total.Some? {
        RenamedNotCandidate(f.name, f.tier2Total.value);
      }
      assert g == f;
    }
  }
}
