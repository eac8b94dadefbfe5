/** The SSNIT mapping the schedule screens use: the second definition of
    `create_comprehensive_mapping`, which shadows the first at module level.
    The lookup table (`vlookup_<company>.xlsx`) is the primary source, the
    uploaded master report the fallback: a lookup row always writes its
    entry, and a master row either adds an entry for a new SSNIT or fills
    the account number of an existing entry that has none. */
module Mapping {
  import opened Text

  /** A row of the lookup table: columns Ssnit, Accountno, Surname,
      First_Name, Other_Names. */
  datatype LookupRow = LookupRow(
    ssnit: Option<string>, accountno: Option<string>,
    surname: Option<string>, firstName: Option<string>, otherNames: Option<string>)

  /** A row of the master report: columns Ssnit, Client Account Number,
      Surname, First Name, Other Names. */
  datatype MasterRow = MasterRow(
    ssnit: Option<string>, clientAccountNumber: Option<string>,
    surname: Option<string>, firstName: Option<string>, otherNames: Option<string>)

  /** The `'source'` tag of an entry: 'VLOOKUP' or 'Master'. */
  datatype Source = Vlookup | Master

  /** A mapping entry; the empty string stands for a missing value. */
  datatype Entry = Entry(
    accountno: string, surname: string, firstName: string, otherName: string, source: Source)

  type SsnitMap = map<string, Entry>

  /** The normalised SSNIT of a cell: `astype(str)`, stripped, upper-cased.
      The source writes `.str.strip().upper()`, which raises AttributeError
      on a pandas Series; the model follows the evident intent,
      `.str.strip().str.upper()`. */
  function Key(c: Option<string>): string {
    Upper(Trim(CellText(c)))
  }

  /** The guard both loops apply to a key: `ssnit.strip()` non-empty and
      `ssnit not in ['NAN', 'NONE', '']` (`pd.notna` always holds after
      `astype(str)`). A key is already stripped (`KeyIsNormal`), so the
      strip test is the emptiness test; `KeyGuard` states the equivalence. */
  predicate ValidKey(k: string) {
    k != "" && k != "NAN" && k != "NONE"
  }

  /** A key has no surrounding whitespace left to strip and no lower-case
      letter left to upper-case. */
  lemma KeyIsNormal(c: Option<string>)
    ensures Trim(Key(c)) == Key(c)
    ensures IsUpperText(Key(c))
  {
    var t := Trim(CellText(c));
    var _ := TrimSpec(CellText(c));
    UpperKeepsEnds(t);
    TrimStripped(Upper(t));
    UpperIsUpper(t);
  }

  /** Upper-casing neither adds nor removes whitespace at the ends. */
  lemma UpperKeepsEnds(t: string)
    requires t == [] || (!IsSpace(t[0]) && !IsSpace(t[|t| - 1]))
    ensures var u := Upper(t); u == [] || (!IsSpace(u[0]) && !IsSpace(u[|u| - 1]))
  {
    var u := Upper(t);
    if u != [] {
      assert u[0] == UpperChar(t[0]) && u[|u| - 1] == UpperChar(t[|t| - 1]);
    }
  }

  /** An upper-cased text has nothing left to upper-case. */
  lemma UpperIsUpper(t: string)
    ensures IsUpperText(Upper(t))
  {
    var u := Upper(t);
    forall i | 0 <= i < |u| ensures UpperChar(u[i]) == u[i] {
      assert u[i] == UpperChar(t[i]);
    }
  }

  /** `ValidKey` is the guard as the source writes it. */
  lemma KeyGuard(c: Option<string>)
    ensures ValidKey(Key(c)) <==>
      Trim(Key(c)) != "" && Key(c) != "NAN" && Key(c) != "NONE" && Key(c) != ""
  {
    KeyIsNormal(c);
  }

  /** A field as stored: the stripped text, or '' for a missing cell. */
  function FieldText(c: Option<string>): string {
    match c
    case None => ""
    case Some(s) => Trim(s)
  }

  function FromLookup(r: LookupRow): Entry {
    Entry(FieldText(r.accountno), FieldText(r.surname), FieldText(r.firstName),
          FieldText(r.otherNames), Vlookup)
  }

  function FromMaster(r: MasterRow): Entry {
    Entry(FieldText(r.clientAccountNumber), FieldText(r.surname), FieldText(r.firstName),
          FieldText(r.otherNames), Master)
  }

  /** The mapping after the first loop has run over `rows`. */
  function AddLookupRows(m: SsnitMap, rows: seq<LookupRow>): SsnitMap
    decreases |rows|
  {
    if rows == [] then m
    else
      var r := rows[|rows| - 1];
      var m' := AddLookupRows(m, rows[..|rows| - 1]);
      if ValidKey(Key(r.ssnit)) then m'[Key(r.ssnit) := FromLookup(r)] else m'
  }

  /** One iteration of the second loop. */
  function MasterStep(m: SsnitMap, r: MasterRow): SsnitMap {
    var k := Key(r.ssnit);
    if !ValidKey(k) then m
    else if k !in m then m[k := FromMaster(r)]
    else if m[k].accountno == "" then m[k := m[k].(accountno := FieldText(r.clientAccountNumber))]
    else m
  }

  /** The mapping after the second loop has run over `rows`. */
  function AddMasterRows(m: SsnitMap, rows: seq<MasterRow>): SsnitMap
    decreases |rows|
  {
    if rows == [] then m
    else MasterStep(AddMasterRows(m, rows[..|rows| - 1]), rows[|rows| - 1])
  }

  /** The mapping `create_comprehensive_mapping` returns. */
  function ComprehensiveMapping(lookup: seq<LookupRow>, master: seq<MasterRow>): SsnitMap {
    AddMasterRows(AddLookupRows(map[], lookup), master)
  }

  /** `create_comprehensive_mapping(vlookup_df, master_df)`. */
  method CreateComprehensiveMapping(lookup: seq<LookupRow>, master: seq<MasterRow>)
    returns (mapping: SsnitMap)
    ensures mapping == ComprehensiveMapping(lookup, master)
    ensures forall k :: k in mapping ==> ValidKey(k) && Trim(k) == k && IsUpperText(k)
  {
    mapping := map[];
    var i := 0;
    while i < |lookup|
      invariant 0 <= i <= |lookup|
      invariant mapping == AddLookupRows(map[], lookup[..i])
    {
      var row := lookup[i];
      var ssnit := Key(row.ssnit);
      if ValidKey(ssnit) {
        mapping := mapping[ssnit := FromLookup(row)];
      }
      LookupSnoc(lookup, i);
      i := i + 1;
    }
    assert lookup[..i] == lookup;
    var lookupDone := mapping;
    var j := 0;
    while j < |master|
      invariant 0 <= j <= |master|
      invariant mapping == AddMasterRows(lookupDone, master[..j])
    {
      var row := master[j];
      var ssnit := Key(row.ssnit);
      if ValidKey(ssnit) {
        if ssnit !in mapping {
          mapping := mapping[ssnit := FromMaster(row)];
        } else {
          var entry := mapping[ssnit];
          if entry.accountno == "" {
            mapping := mapping[ssnit := entry.(accountno := FieldText(row.clientAccountNumber))];
          }
        }
      }
      MasterSnoc(lookupDone, master, j);
      j := j + 1;
    }
    assert master[..j] == master;
    MappingKeysValid(lookup, master);
  }

  lemma LookupSnoc(rows: seq<LookupRow>, i: int)
    requires 0 <= i < |rows|
    ensures var k := Key(rows[i].ssnit);
      var m := AddLookupRows(map[], rows[..i]);
      AddLookupRows(map[], rows[..i + 1]) == if ValidKey(k) then m[k := FromLookup(rows[i])] else m
  {
    assert rows[..i + 1][..i] == rows[..i];
  }

  lemma MasterSnoc(m: SsnitMap, rows: seq<MasterRow>, j: int)
    requires 0 <= j < |rows|
    ensures AddMasterRows(m, rows[..j + 1]) == MasterStep(AddMasterRows(m, rows[..j]), rows[j])
  {
    assert rows[..j + 1][..j] == rows[..j];
  }

  // ---------------------------------------------------------------------
  // Reference definitions, one key at a time

  /** The last lookup row whose key is `k`. */
  function LastLookup(rows: seq<LookupRow>, k: string): Option<LookupRow>
    decreases |rows|
  {
    if rows == [] then None
    else if Key(rows[|rows| - 1].ssnit) == k then Some(rows[|rows| - 1])
    else LastLookup(rows[..|rows| - 1], k)
  }

  /** The first master row whose key is `k`. */
  function FirstMaster(rows: seq<MasterRow>, k: string): Option<MasterRow>
    decreases |rows|
  {
    if rows == [] then None
    else
      var earlier := FirstMaster(rows[..|rows| - 1], k);
      if earlier.Some? then earlier
      else if Key(rows[|rows| - 1].ssnit) == k then Some(rows[|rows| - 1])
      else None
  }

  /** The first non-empty account number among the master rows whose key
      is `k`, or '' when there is none. */
  function FirstAccount(rows: seq<MasterRow>, k: string): string
    decreases |rows|
  {
    if rows == [] then ""
    else
      var earlier := FirstAccount(rows[..|rows| - 1], k);
      if earlier != "" then earlier
      else if Key(rows[|rows| - 1].ssnit) == k then FieldText(rows[|rows| - 1].clientAccountNumber)
      else ""
  }

  /** An entry whose empty account number is replaced by `acc`. */
  function Filled(e: Entry, acc: string): Entry {
    if e.accountno == "" then e.(accountno := acc) else e
  }

  lemma {:induction false} NoMasterNoAccount(rows: seq<MasterRow>, k: string)
    requires FirstMaster(rows, k).None?
    ensures FirstAccount(rows, k) == ""
    decreases |rows|
  {
    if rows != [] {
      NoMasterNoAccount(rows[..|rows| - 1], k);
    }
  }

  /** What the first loop leaves under the key `k`. */
  lemma {:induction false} LookupPassAt(m: SsnitMap, rows: seq<LookupRow>, k: string)
    ensures var res := AddLookupRows(m, rows);
      if ValidKey(k) && LastLookup(rows, k).Some?
      then k in res && res[k] == FromLookup(LastLookup(rows, k).value)
      else (k in res <==> k in m) && (k in m ==> res[k] == m[k])
    decreases |rows|
  {
    if rows != [] {
      LookupPassAt(m, rows[..|rows| - 1], k);
    }
  }

  /** What the second loop leaves under a valid key `k`. */
  lemma {:induction false} MasterPassAt(m: SsnitMap, rows: seq<MasterRow>, k: string)
    requires ValidKey(k)
    ensures var res := AddMasterRows(m, rows);
      && (k in m ==> k in res && res[k] == Filled(m[k], FirstAccount(rows, k)))
      && (k !in m ==> (k in res <==> FirstMaster(rows, k).Some?))
      && (k !in m && FirstMaster(rows, k).Some? ==>
            res[k] == Filled(FromMaster(FirstMaster(rows, k).value), FirstAccount(rows, k)))
    decreases |rows|
  {
    if rows != [] {
      var pre := rows[..|rows| - 1];
      var last := rows[|rows| - 1];
      MasterPassAt(m, pre, k);
      var mid := AddMasterRows(m, pre);
      assert AddMasterRows(m, rows) == MasterStep(mid, last);
      MasterStepAt(mid, last, k);
      if k !in m && FirstMaster(pre, k).None? {
        NoMasterNoAccount(pre, k);
      }
      if Key(last.ssnit) == k {
        if k in m {
          FilledTwice(m[k], FirstAccount(pre, k), FieldText(last.clientAccountNumber));
        } else if FirstMaster(pre, k).Some? {
          FilledTwice(FromMaster(FirstMaster(pre, k).value), FirstAccount(pre, k), FieldText(last.clientAccountNumber));
        }
      }
    }
  }

  /** One master row changes the mapping under `k` only when its key is `k`. */
  lemma MasterStepAt(m: SsnitMap, r: MasterRow, k: string)
    requires ValidKey(k)
    ensures var res := MasterStep(m, r);
      if Key(r.ssnit) != k then (k in res <==> k in m) && (k in m ==> res[k] == m[k])
      else k in res && res[k] == if k in m then Filled(m[k], FieldText(r.clientAccountNumber)) else FromMaster(r)
  {
  }

  /** Filling twice is filling once with the first non-empty offer. */
  lemma FilledTwice(e: Entry, a: string, b: string)
    ensures Filled(Filled(e, a), b) == Filled(e, if a != "" then a else b)
  {
  }

  /** The second loop never adds or changes an entry under an invalid key. */
  lemma {:induction false} MasterPassInvalid(m: SsnitMap, rows: seq<MasterRow>, k: string)
    requires !ValidKey(k)
    ensures var res := AddMasterRows(m, rows);
      (k in res <==> k in m) && (k in m ==> res[k] == m[k])
    decreases |rows|
  {
    if rows != [] {
      MasterPassInvalid(m, rows[..|rows| - 1], k);
    }
  }

  /** The whole mapping under one key: which keys are present, and which
      row each entry comes from. */
  lemma MappingAt(lookup: seq<LookupRow>, master: seq<MasterRow>, k: string)
    ensures var res := ComprehensiveMapping(lookup, master);
      && (k in res <==> ValidKey(k) && (LastLookup(lookup, k).Some? || FirstMaster(master, k).Some?))
      && (k in res && LastLookup(lookup, k).Some? ==>
            res[k] == Filled(FromLookup(LastLookup(lookup, k).value), FirstAccount(master, k)))
      && (k in res && LastLookup(lookup, k).None? ==>
            res[k] == Filled(FromMaster(FirstMaster(master, k).value), FirstAccount(master, k)))
  {
    LookupPassAt(map[], lookup, k);
    if ValidKey(k) {
      MasterPassAt(AddLookupRows(map[], lookup), master, k);
    } else {
      MasterPassInvalid(AddLookupRows(map[], lookup), master, k);
    }
  }

  // ---------------------------------------------------------------------
  // The reference definitions by row position

  lemma {:induction false} LastLookupAt(rows: seq<LookupRow>, k: string, i: int)
    requires 0 <= i < |rows| && Key(rows[i].ssnit) == k
    requires forall j :: i < j < |rows| ==> Key(rows[j].ssnit) != k
    ensures LastLookup(rows, k) == Some(rows[i])
    decreases |rows|
  {
    if i < |rows| - 1 {
      LastLookupAt(rows[..|rows| - 1], k, i);
    }
  }

  lemma {:induction false} LastLookupNone(rows: seq<LookupRow>, k: string)
    ensures LastLookup(rows, k).None? <==> forall i :: 0 <= i < |rows| ==> Key(rows[i].ssnit) != k
    decreases |rows|
  {
    if rows != [] {
      var pre := rows[..|rows| - 1];
      LastLookupNone(pre, k);
      if Key(rows[|rows| - 1].ssnit) != k {
        assert LastLookup(rows, k) == LastLookup(pre, k);
        forall i | 0 <= i < |pre| ensures pre[i] == rows[i] { }
      }
    }
  }

  lemma {:induction false} FirstMasterAt(rows: seq<MasterRow>, k: string, j: int)
    requires 0 <= j < |rows| && Key(rows[j].ssnit) == k
    requires forall i :: 0 <= i < j ==> Key(rows[i].ssnit) != k
    ensures FirstMaster(rows, k) == Some(rows[j])
    decreases |rows|
  {
    if j < |rows| - 1 {
      FirstMasterAt(rows[..|rows| - 1], k, j);
    } else {
      FirstMasterNone(rows[..|rows| - 1], k);
    }
  }

  lemma {:induction false} FirstMasterNone(rows: seq<MasterRow>, k: string)
    ensures FirstMaster(rows, k).None? <==> forall i :: 0 <= i < |rows| ==> Key(rows[i].ssnit) != k
    decreases |rows|
  {
    if rows != [] {
      var pre := rows[..|rows| - 1];
      FirstMasterNone(pre, k);
      forall i | 0 <= i < |pre| ensures pre[i] == rows[i] { }
      if FirstMaster(pre, k).None? && Key(rows[|rows| - 1].ssnit) != k {
        assert FirstMaster(rows, k).None?;
      }
    }
  }

  /** The account number a master row offers for `k` is the first non-empty
      one among the rows with that key. */
  lemma {:induction false} FirstAccountAt(rows: seq<MasterRow>, k: string, j: int)
    requires 0 <= j < |rows| && Key(rows[j].ssnit) == k
    requires FieldText(rows[j].clientAccountNumber) != ""
    requires forall i :: 0 <= i < j && Key(rows[i].ssnit) == k ==> FieldText(rows[i].clientAccountNumber) == ""
    ensures FirstAccount(rows, k) == FieldText(rows[j].clientAccountNumber)
    decreases |rows|
  {
    if j < |rows| - 1 {
      FirstAccountAt(rows[..|rows| - 1], k, j);
    } else {
      FirstAccountNone(rows[..|rows| - 1], k);
    }
  }

  lemma {:induction false} FirstAccountNone(rows: seq<MasterRow>, k: string)
    requires forall i :: 0 <= i < |rows| && Key(rows[i].ssnit) == k ==> FieldText(rows[i].clientAccountNumber) == ""
    ensures FirstAccount(rows, k) == ""
    decreases |rows|
  {
    if rows != [] {
      FirstAccountNone(rows[..|rows| - 1], k);
    }
  }

  // ---------------------------------------------------------------------
  // The properties of the mapping

  /** The valid keys a sequence of lookup rows supplies. */
  function LookupKeys(rows: seq<LookupRow>): set<string> {
    set i | 0 <= i < |rows| && ValidKey(Key(rows[i].ssnit)) :: Key(rows[i].ssnit)
  }

  /** The valid keys a sequence of master rows supplies. */
  function MasterKeys(rows: seq<MasterRow>): set<string> {
    set i | 0 <= i < |rows| && ValidKey(Key(rows[i].ssnit)) :: Key(rows[i].ssnit)
  }

  /** The mapping holds exactly the valid keys of both sources. */
  lemma MappingKeySet(lookup: seq<LookupRow>, master: seq<MasterRow>)
    ensures ComprehensiveMapping(lookup, master).Keys == LookupKeys(lookup) + MasterKeys(master)
  {
    var res := ComprehensiveMapping(lookup, master);
    forall k ensures k in res <==> k in LookupKeys(lookup) + MasterKeys(master) {
      MappingAt(lookup, master, k);
      LastLookupNone(lookup, k);
      FirstMasterNone(master, k);
    }
  }

  /** Every key of the mapping passed the guard and is stripped and
      upper-case, so none is blank, 'NAN' or 'NONE'. */
  lemma MappingKeysValid(lookup: seq<LookupRow>, master: seq<MasterRow>)
    ensures forall k :: k in ComprehensiveMapping(lookup, master) ==>
      ValidKey(k) && Trim(k) == k && IsUpperText(k)
  {
    MappingKeySet(lookup, master);
    forall k | k in ComprehensiveMapping(lookup, master)
      ensures ValidKey(k) && Trim(k) == k && IsUpperText(k)
    {
      if k in LookupKeys(lookup) {
        var i :| 0 <= i < |lookup| && ValidKey(Key(lookup[i].ssnit)) && k == Key(lookup[i].ssnit);
        KeyIsNormal(lookup[i].ssnit);
      } else {
        var i :| 0 <= i < |master| && ValidKey(Key(master[i].ssnit)) && k == Key(master[i].ssnit);
        KeyIsNormal(master[i].ssnit);
      }
    }
  }

  /** The last lookup row for a key decides its entry: the entry is tagged
      'VLOOKUP', carries that row's names, and keeps its account number
      whenever that is non-empty. */
  lemma LookupRowWins(lookup: seq<LookupRow>, master: seq<MasterRow>, i: int)
    requires 0 <= i < |lookup| && ValidKey(Key(lookup[i].ssnit))
    requires forall j :: i < j < |lookup| ==> Key(lookup[j].ssnit) != Key(lookup[i].ssnit)
    ensures var k := Key(lookup[i].ssnit);
      var res := ComprehensiveMapping(lookup, master);
      && k in res
      && res[k].source == Vlookup
      && res[k].surname == FieldText(lookup[i].surname)
      && res[k].firstName == FieldText(lookup[i].firstName)
      && res[k].otherName == FieldText(lookup[i].otherNames)
      && (FieldText(lookup[i].accountno) != "" ==> res[k].accountno == FieldText(lookup[i].accountno))
  {
    var k := Key(lookup[i].ssnit);
    LastLookupAt(lookup, k, i);
    MappingAt(lookup, master, k);
  }

  /** An empty lookup account number is filled from the first master row
      for the same key that has a non-empty one. */
  lemma EmptyAccountFilled(lookup: seq<LookupRow>, master: seq<MasterRow>, i: int, j: int)
    requires 0 <= i < |lookup| && ValidKey(Key(lookup[i].ssnit))
    requires forall n :: i < n < |lookup| ==> Key(lookup[n].ssnit) != Key(lookup[i].ssnit)
    requires FieldText(lookup[i].accountno) == ""
    requires 0 <= j < |master| && Key(master[j].ssnit) == Key(lookup[i].ssnit)
    requires FieldText(master[j].clientAccountNumber) != ""
    requires forall n :: 0 <= n < j && Key(master[n].ssnit) == Key(lookup[i].ssnit) ==>
      FieldText(master[n].clientAccountNumber) == ""
    ensures var res := ComprehensiveMapping(lookup, master);
      Key(lookup[i].ssnit) in res && res[Key(lookup[i].ssnit)].accountno == FieldText(master[j].clientAccountNumber)
  {
    var k := Key(lookup[i].ssnit);
    LastLookupAt(lookup, k, i);
    FirstAccountAt(master, k, j);
    MappingAt(lookup, master, k);
  }

  /** An empty lookup account number stays empty when no master row for the
      key offers one. */
  lemma EmptyAccountUnfilled(lookup: seq<LookupRow>, master: seq<MasterRow>, i: int)
    requires 0 <= i < |lookup| && ValidKey(Key(lookup[i].ssnit))
    requires forall n :: i < n < |lookup| ==> Key(lookup[n].ssnit) != Key(lookup[i].ssnit)
    requires FieldText(lookup[i].accountno) == ""
    requires forall n :: 0 <= n < |master| && Key(master[n].ssnit) == Key(lookup[i].ssnit) ==>
      FieldText(master[n].clientAccountNumber) == ""
    ensures var res := ComprehensiveMapping(lookup, master);
      Key(lookup[i].ssnit) in res && res[Key(lookup[i].ssnit)].accountno == ""
  {
    var k := Key(lookup[i].ssnit);
    LastLookupAt(lookup, k, i);
    FirstAccountNone(master, k);
    MappingAt(lookup, master, k);
  }

  /** A key only the master report supplies is tagged 'Master' and carries
      the names of the first master row with that key; its account number
      is the first non-empty one offered for the key. */
  lemma MasterOnlyEntry(lookup: seq<LookupRow>, master: seq<MasterRow>, j: int)
    requires 0 <= j < |master| && ValidKey(Key(master[j].ssnit))
    requires forall n :: 0 <= n < j ==> Key(master[n].ssnit) != Key(master[j].ssnit)
    requires forall n :: 0 <= n < |lookup| ==> Key(lookup[n].ssnit) != Key(master[j].ssnit)
    ensures var k := Key(master[j].ssnit);
      var res := ComprehensiveMapping(lookup, master);
      && k in res
      && res[k].source == Master
      && res[k].surname == FieldText(master[j].surname)
      && res[k].firstName == FieldText(master[j].firstName)
      && res[k].otherName == FieldText(master[j].otherNames)
      && res[k].accountno == FirstAccount(master, k)
  {
    var k := Key(master[j].ssnit);
    LastLookupNone(lookup, k);
    FirstMasterAt(master, k, j);
    MappingAt(lookup, master, k);
    if FieldText(master[j].clientAccountNumber) != "" {
      FirstAccountAt(master, k, j);
    }
  }
}
