/** The two older forms of the SSNIT merge: the first definition of
    `create_comprehensive_mapping`, which the second one shadows at module
    level, and the merge written inline in the validation page. Both take
    the lookup table as the primary source and fill every blank field of an
    existing entry from the master report, where the current definition
    fills only the account number (module `Mapping`). */
module LegacyMapping {
  import opened Text
  import opened Mapping

  /** A value stored in an entry: Python `None`, a pandas NaN (which, unlike
      `None`, is truthy), or a string. */
  datatype Value = Null | NaN | Str(text: string)

  /** Python truthiness of a stored value: `if not entry[field]` fills a
      field exactly when its value is not truthy. */
  predicate Truthy(x: Value) {
    x.NaN? || (x.Str? && x.text != "")
  }

  datatype Record = Record(accountno: Value, surname: Value, firstName: Value, otherName: Value)

  /** An entry of the first definition, with its `'source'` tag. */
  datatype Tagged = Tagged(record: Record, source: Source)

  /** Which merge: the first `create_comprehensive_mapping`, or the inline
      merge of the validation page. */
  datatype Variant = Legacy | Inline

  datatype Field = Account | Surname | FirstName | OtherName

  function Get(r: Record, f: Field): Value {
    match f
    case Account => r.accountno
    case Surname => r.surname
    case FirstName => r.firstName
    case OtherName => r.otherName
  }

  /** The key both forms use: `astype(str)`, then stripped; no upper-casing. */
  function LegacyKey(c: Option<string>): string {
    Trim(CellText(c))
  }

  /** The first definition skips a key that is blank after stripping; the
      inline merge takes every key, 'nan' included. */
  predicate Admits(v: Variant, k: string) {
    v.Inline? || k != ""
  }

  /** `str(x).strip() if pd.notna(x) else None`. */
  function Stripped(c: Option<string>): Value {
    match c
    case None => Null
    case Some(s) => Str(Trim(s))
  }

  /** `x if pd.notna(x) else None`: the inline merge stores names unstripped. */
  function Raw(c: Option<string>): Value {
    match c
    case None => Null
    case Some(s) => Str(s)
  }

  /** The value a master row offers to fill field `f`. The inline merge
      copies a name cell as it is, so a missing name arrives as NaN. */
  function FillValue(v: Variant, f: Field, r: MasterRow): Value {
    match f
    case Account => Stripped(r.clientAccountNumber)
    case Surname => if v.Legacy? then Stripped(r.surname) else RawOrNaN(r.surname)
    case FirstName => if v.Legacy? then Stripped(r.firstName) else RawOrNaN(r.firstName)
    case OtherName => if v.Legacy? then Stripped(r.otherNames) else RawOrNaN(r.otherNames)
  }

  function RawOrNaN(c: Option<string>): Value {
    match c
    case None => NaN
    case Some(s) => Str(s)
  }

  function Name(v: Variant, c: Option<string>): Value {
    if v.Legacy? then Stripped(c) else Raw(c)
  }

  function LookupRecord(v: Variant, r: LookupRow): Record {
    Record(Stripped(r.accountno), Name(v, r.surname), Name(v, r.firstName), Name(v, r.otherNames))
  }

  function MasterRecord(v: Variant, r: MasterRow): Record {
    Record(Stripped(r.clientAccountNumber), Name(v, r.surname), Name(v, r.firstName), Name(v, r.otherNames))
  }

  /** One field of an existing entry after a master row with its key. */
  function Fill(x: Value, offered: Value): Value {
    if Truthy(x) then x else offered
  }

  /** An existing entry after a master row with its key. */
  function FillFrom(v: Variant, e: Record, r: MasterRow): Record {
    Record(Fill(e.accountno, FillValue(v, Account, r)),
           Fill(e.surname, FillValue(v, Surname, r)),
           Fill(e.firstName, FillValue(v, FirstName, r)),
           Fill(e.otherName, FillValue(v, OtherName, r)))
  }

  type LegacyMap = map<string, Tagged>

  /** The map after the lookup loop has run over `rows`. */
  function AddLookup(v: Variant, m: LegacyMap, rows: seq<LookupRow>): LegacyMap
    decreases |rows|
  {
    if rows == [] then m
    else
      var r := rows[|rows| - 1];
      var m' := AddLookup(v, m, rows[..|rows| - 1]);
      var k := LegacyKey(r.ssnit);
      if Admits(v, k) then m'[k := Tagged(LookupRecord(v, r), Vlookup)] else m'
  }

  /** One iteration of the master loop. */
  function MasterStep(v: Variant, m: LegacyMap, r: MasterRow): LegacyMap {
    var k := LegacyKey(r.ssnit);
    if !Admits(v, k) then m
    else if k !in m then m[k := Tagged(MasterRecord(v, r), Master)]
    else m[k := m[k].(record := FillFrom(v, m[k].record, r))]
  }

  /** The map after the master loop has run over `rows`. */
  function AddMaster(v: Variant, m: LegacyMap, rows: seq<MasterRow>): LegacyMap
    decreases |rows|
  {
    if rows == [] then m
    else MasterStep(v, AddMaster(v, m, rows[..|rows| - 1]), rows[|rows| - 1])
  }

  function Merge(v: Variant, lookup: seq<LookupRow>, master: seq<MasterRow>): LegacyMap {
    AddMaster(v, AddLookup(v, map[], lookup), master)
  }

  /** The inline merge keeps no `'source'` tag. */
  function Records(m: LegacyMap): (r: map<string, Record>)
    ensures r.Keys == m.Keys
    ensures forall k :: k in m ==> r[k] == m[k].record
  {
    map k | k in m :: m[k].record
  }

  /** The first `create_comprehensive_mapping`. */
  method CreateLegacyMapping(lookup: seq<LookupRow>, master: seq<MasterRow>)
    returns (mapping: LegacyMap)
    ensures mapping == Merge(Legacy, lookup, master)
    ensures forall k :: k in mapping ==> k != "" && Trim(k) == k
  {
    mapping := map[];
    var i := 0;
    while i < |lookup|
      invariant 0 <= i <= |lookup|
      invariant mapping == AddLookup(Legacy, map[], lookup[..i])
    {
      var row := lookup[i];
      var ssnit := LegacyKey(row.ssnit);
      if ssnit != "" {
        mapping := mapping[ssnit := Tagged(LookupRecord(Legacy, row), Vlookup)];
      }
      AddLookupSnoc(Legacy, lookup, i);
      i := i + 1;
    }
    assert lookup[..i] == lookup;
    var lookupDone := mapping;
    var j := 0;
    while j < |master|
      invariant 0 <= j <= |master|
      invariant mapping == AddMaster(Legacy, lookupDone, master[..j])
    {
      var row := master[j];
      var ssnit := LegacyKey(row.ssnit);
      if ssnit != "" {
        if ssnit !in mapping {
          mapping := mapping[ssnit := Tagged(MasterRecord(Legacy, row), Master)];
        } else {
          var entry := FillBlanks(Legacy, mapping[ssnit].record, row);
          mapping := mapping[ssnit := mapping[ssnit].(record := entry)];
        }
      }
      AddMasterSnoc(Legacy, lookupDone, master, j);
      j := j + 1;
    }
    assert master[..j] == master;
    LegacyKeysStripped(lookup, master);
  }

  /** The lookup dictionary of the validation page. */
  method BuildValidationLookup(lookup: seq<LookupRow>, master: seq<MasterRow>)
    returns (dict: map<string, Record>)
    ensures dict == Records(Merge(Inline, lookup, master))
  {
    dict := map[];
    var i := 0;
    while i < |lookup|
      invariant 0 <= i <= |lookup|
      invariant dict == Records(AddLookup(Inline, map[], lookup[..i]))
    {
      var row := lookup[i];
      var ssnit := LegacyKey(row.ssnit);
      RecordsUpdate(AddLookup(Inline, map[], lookup[..i]), ssnit, Tagged(LookupRecord(Inline, row), Vlookup));
      dict := dict[ssnit := LookupRecord(Inline, row)];
      AddLookupSnoc(Inline, lookup, i);
      i := i + 1;
    }
    assert lookup[..i] == lookup;
    ghost var lookupDone := AddLookup(Inline, map[], lookup);
    var j := 0;
    while j < |master|
      invariant 0 <= j <= |master|
      invariant dict == Records(AddMaster(Inline, lookupDone, master[..j]))
    {
      ghost var before := AddMaster(Inline, lookupDone, master[..j]);
      var row := master[j];
      var ssnit := LegacyKey(row.ssnit);
      if ssnit !in dict {
        RecordsUpdate(before, ssnit, Tagged(MasterRecord(Inline, row), Master));
        dict := dict[ssnit := MasterRecord(Inline, row)];
      } else {
        var entry := FillBlanks(Inline, dict[ssnit], row);
        RecordsUpdate(before, ssnit, before[ssnit].(record := entry));
        dict := dict[ssnit := entry];
      }
      AddMasterSnoc(Inline, lookupDone, master, j);
      j := j + 1;
    }
    assert master[..j] == master;
  }

  /** The fill of an existing entry, field by field: each field that is not
      truthy takes the value the master row offers. */
  method FillBlanks(v: Variant, e: Record, row: MasterRow) returns (entry: Record)
    ensures entry == FillFrom(v, e, row)
  {
    entry := e;
    if !Truthy(entry.accountno) {
      entry := entry.(accountno := Stripped(row.clientAccountNumber));
    }
    if !Truthy(entry.surname) {
      entry := entry.(surname := if v.Legacy? then Stripped(row.surname) else RawOrNaN(row.surname));
    }
    if !Truthy(entry.firstName) {
      entry := entry.(firstName := if v.Legacy? then Stripped(row.firstName) else RawOrNaN(row.firstName));
    }
    if !Truthy(entry.otherName) {
      entry := entry.(otherName := if v.Legacy? then Stripped(row.otherNames) else RawOrNaN(row.otherNames));
    }
  }

  lemma AddLookupSnoc(v: Variant, rows: seq<LookupRow>, i: int)
    requires 0 <= i < |rows|
    ensures var k := LegacyKey(rows[i].ssnit);
      var m := AddLookup(v, map[], rows[..i]);
      AddLookup(v, map[], rows[..i + 1]) ==
        if Admits(v, k) then m[k := Tagged(LookupRecord(v, rows[i]), Vlookup)] else m
  {
    assert rows[..i + 1][..i] == rows[..i];
  }

  lemma AddMasterSnoc(v: Variant, m: LegacyMap, rows: seq<MasterRow>, j: int)
    requires 0 <= j < |rows|
    ensures AddMaster(v, m, rows[..j + 1]) == MasterStep(v, AddMaster(v, m, rows[..j]), rows[j])
  {
    assert rows[..j + 1][..j] == rows[..j];
  }

  lemma RecordsUpdate(m: LegacyMap, k: string, t: Tagged)
    ensures Records(m[k := t]) == Records(m)[k := t.record]
  {
  }

  // ---------------------------------------------------------------------
  // Filling one field

  /** A field that starts as `x` and is offered the values `offered` in
      turn, each taken only while the field is not truthy. */
  function Settle(x: Value, offered: seq<Value>): Value
    decreases |offered|
  {
    if offered == [] then x
    else Fill(Settle(x, offered[..|offered| - 1]), offered[|offered| - 1])
  }

  /** A truthy field is never overwritten. */
  lemma {:induction false} SettleKeeps(x: Value, offered: seq<Value>)
    requires Truthy(x)
    ensures Settle(x, offered) == x
    decreases |offered|
  {
    if offered != [] {
      SettleKeeps(x, offered[..|offered| - 1]);
    }
  }

  /** While no truthy value has been offered, the field holds the last one
      offered (or its start value if none was). */
  lemma {:induction false} SettleAllBlank(x: Value, offered: seq<Value>)
    requires !Truthy(x)
    requires forall i :: 0 <= i < |offered| ==> !Truthy(offered[i])
    ensures Settle(x, offered) == if offered == [] then x else offered[|offered| - 1]
    decreases |offered|
  {
    if offered != [] {
      SettleAllBlank(x, offered[..|offered| - 1]);
    }
  }

  /** A blank field ends up with the first truthy value offered. */
  lemma {:induction false} SettleFirstTruthy(x: Value, offered: seq<Value>, j: int)
    requires !Truthy(x)
    requires 0 <= j < |offered| && Truthy(offered[j])
    requires forall i :: 0 <= i < j ==> !Truthy(offered[i])
    ensures Settle(x, offered) == offered[j]
    decreases |offered|
  {
    if j < |offered| - 1 {
      SettleFirstTruthy(x, offered[..|offered| - 1], j);
      SettleKeeps(offered[j], []);
    } else {
      SettleAllBlank(x, offered[..j]);
    }
  }

  /** The values the master rows with key `k` offer to field `f`, in order. */
  function Offers(v: Variant, f: Field, rows: seq<MasterRow>, k: string): seq<Value>
    decreases |rows|
  {
    if rows == [] then []
    else
      var earlier := Offers(v, f, rows[..|rows| - 1], k);
      if LegacyKey(rows[|rows| - 1].ssnit) == k then earlier + [FillValue(v, f, rows[|rows| - 1])]
      else earlier
  }

  // ---------------------------------------------------------------------
  // The master loop, one key at a time

  lemma FillFromGet(v: Variant, e: Record, r: MasterRow, f: Field)
    ensures Get(FillFrom(v, e, r), f) == Fill(Get(e, f), FillValue(v, f, r))
  {
  }

  lemma SettleSnoc(x: Value, offered: seq<Value>, y: Value)
    ensures Settle(x, offered + [y]) == Fill(Settle(x, offered), y)
  {
    assert (offered + [y])[..|offered|] == offered;
  }

  /** One master row: an entry already present keeps its tag, and its
      field `f` is filled when the row carries its key. */
  lemma MasterStepExisting(v: Variant, m: LegacyMap, r: MasterRow, k: string, f: Field)
    requires k in m && Admits(v, k)
    ensures var res := MasterStep(v, m, r);
      && k in res && res[k].source == m[k].source
      && Get(res[k].record, f) ==
           if LegacyKey(r.ssnit) == k then Fill(Get(m[k].record, f), FillValue(v, f, r))
           else Get(m[k].record, f)
  {
    if LegacyKey(r.ssnit) == k {
      FillFromGet(v, m[k].record, r, f);
    }
  }

  /** An entry already present is only filled: its tag stays, and each
      field settles over the values the master rows offer it. */
  lemma {:induction false} MasterPassExisting(v: Variant, m: LegacyMap, rows: seq<MasterRow>, k: string, f: Field)
    requires k in m && Admits(v, k)
    ensures var res := AddMaster(v, m, rows);
      && k in res && res[k].source == m[k].source
      && Get(res[k].record, f) == Settle(Get(m[k].record, f), Offers(v, f, rows, k))
    decreases |rows|
  {
    if rows != [] {
      var pre := rows[..|rows| - 1];
      var r := rows[|rows| - 1];
      MasterPassExisting(v, m, pre, k, f);
      MasterStepExisting(v, AddMaster(v, m, pre), r, k, f);
      if LegacyKey(r.ssnit) == k {
        SettleSnoc(Get(m[k].record, f), Offers(v, f, pre, k), FillValue(v, f, r));
      }
    }
  }

  /** A key no master row carries is left as it was. */
  lemma {:induction false} MasterPassAbsent(v: Variant, m: LegacyMap, rows: seq<MasterRow>, k: string)
    requires !Admits(v, k) || forall i :: 0 <= i < |rows| ==> LegacyKey(rows[i].ssnit) != k
    ensures var res := AddMaster(v, m, rows);
      (k in res <==> k in m) && (k in m ==> res[k] == m[k])
    decreases |rows|
  {
    if rows != [] {
      var pre := rows[..|rows| - 1];
      var last := rows[|rows| - 1];
      assert forall i :: 0 <= i < |pre| ==> pre[i] == rows[i];
      MasterPassAbsent(v, m, pre, k);
      var mid := AddMaster(v, m, pre);
      assert AddMaster(v, m, rows) == MasterStep(v, mid, last);
      if Admits(v, k) {
        assert LegacyKey(last.ssnit) != k;
      }
    }
  }

  lemma {:induction false} AddMasterConcat(v: Variant, m: LegacyMap, a: seq<MasterRow>, b: seq<MasterRow>)
    ensures AddMaster(v, m, a + b) == AddMaster(v, AddMaster(v, m, a), b)
    decreases |b|
  {
    if b == [] {
      assert a + b == a;
    } else {
      assert (a + b)[..|a + b| - 1] == a + b[..|b| - 1];
      assert (a + b)[|a + b| - 1] == b[|b| - 1];
      AddMasterConcat(v, m, a, b[..|b| - 1]);
    }
  }

  /** The lookup loop leaves, under an admitted key, the record of the last
      lookup row with that key. */
  lemma {:induction false} LookupPassAt(v: Variant, m: LegacyMap, rows: seq<LookupRow>, k: string, i: int)
    requires Admits(v, k) && 0 <= i < |rows| && LegacyKey(rows[i].ssnit) == k
    requires forall j :: i < j < |rows| ==> LegacyKey(rows[j].ssnit) != k
    ensures var res := AddLookup(v, m, rows);
      k in res && res[k] == Tagged(LookupRecord(v, rows[i]), Vlookup)
    decreases |rows|
  {
    if i < |rows| - 1 {
      LookupPassAt(v, m, rows[..|rows| - 1], k, i);
    }
  }

  /** A key no lookup row carries is left as it was by the lookup loop. */
  lemma {:induction false} LookupPassAbsent(v: Variant, m: LegacyMap, rows: seq<LookupRow>, k: string)
    requires !Admits(v, k) || forall i :: 0 <= i < |rows| ==> LegacyKey(rows[i].ssnit) != k
    ensures var res := AddLookup(v, m, rows);
      (k in res <==> k in m) && (k in m ==> res[k] == m[k])
    decreases |rows|
  {
    if rows != [] {
      var pre := rows[..|rows| - 1];
      assert forall i :: 0 <= i < |pre| ==> pre[i] == rows[i];
      LookupPassAbsent(v, m, pre, k);
    }
  }

  // ---------------------------------------------------------------------
  // The properties of both merges

  /** The admitted keys a sequence of lookup rows supplies. */
  function LookupKeySet(v: Variant, rows: seq<LookupRow>): set<string> {
    set i | 0 <= i < |rows| && Admits(v, LegacyKey(rows[i].ssnit)) :: LegacyKey(rows[i].ssnit)
  }

  /** The admitted keys a sequence of master rows supplies. */
  function MasterKeySet(v: Variant, rows: seq<MasterRow>): set<string> {
    set i | 0 <= i < |rows| && Admits(v, LegacyKey(rows[i].ssnit)) :: LegacyKey(rows[i].ssnit)
  }

  lemma {:induction false} LookupKeysOf(v: Variant, m: LegacyMap, rows: seq<LookupRow>)
    ensures AddLookup(v, m, rows).Keys == m.Keys + LookupKeySet(v, rows)
    decreases |rows|
  {
    if rows != [] {
      LookupKeysOf(v, m, rows[..|rows| - 1]);
      LookupKeySetSnoc(v, rows);
    }
  }

  lemma LookupKeySetSnoc(v: Variant, rows: seq<LookupRow>)
    requires rows != []
    ensures var n := |rows| - 1;
      LookupKeySet(v, rows) == LookupKeySet(v, rows[..n]) +
        (if Admits(v, LegacyKey(rows[n].ssnit)) then {LegacyKey(rows[n].ssnit)} else {})
  {
    var pre := rows[..|rows| - 1];
    assert forall i :: 0 <= i < |pre| ==> pre[i] == rows[i];
  }

  lemma MasterKeySetSnoc(v: Variant, rows: seq<MasterRow>)
    requires rows != []
    ensures var n := |rows| - 1;
      MasterKeySet(v, rows) == MasterKeySet(v, rows[..n]) +
        (if Admits(v, LegacyKey(rows[n].ssnit)) then {LegacyKey(rows[n].ssnit)} else {})
  {
    var pre := rows[..|rows| - 1];
    assert forall i :: 0 <= i < |pre| ==> pre[i] == rows[i];
  }

  lemma {:induction false} MasterKeysOf(v: Variant, m: LegacyMap, rows: seq<MasterRow>)
    ensures AddMaster(v, m, rows).Keys == m.Keys + MasterKeySet(v, rows)
    decreases |rows|
  {
    if rows != [] {
      MasterKeysOf(v, m, rows[..|rows| - 1]);
      MasterKeySetSnoc(v, rows);
    }
  }

  /** Both merges hold exactly the admitted keys of both sources. */
  lemma MergeKeySet(v: Variant, lookup: seq<LookupRow>, master: seq<MasterRow>)
    ensures Merge(v, lookup, master).Keys == LookupKeySet(v, lookup) + MasterKeySet(v, master)
  {
    LookupKeysOf(v, map[], lookup);
    MasterKeysOf(v, AddLookup(v, map[], lookup), master);
  }

  /** The first definition keeps only stripped, non-empty keys; unlike the
      current one it does not exclude 'nan' or 'None'. */
  lemma LegacyKeysStripped(lookup: seq<LookupRow>, master: seq<MasterRow>)
    ensures forall k :: k in Merge(Legacy, lookup, master) ==> k != "" && Trim(k) == k
  {
    MergeKeySet(Legacy, lookup, master);
    forall k | k in Merge(Legacy, lookup, master)
      ensures k != "" && Trim(k) == k
    {
      if k in LookupKeySet(Legacy, lookup) {
        var i :| 0 <= i < |lookup| && Admits(Legacy, LegacyKey(lookup[i].ssnit)) && k == LegacyKey(lookup[i].ssnit);
        TrimIdempotent(CellText(lookup[i].ssnit));
      } else {
        var i :| 0 <= i < |master| && Admits(Legacy, LegacyKey(master[i].ssnit)) && k == LegacyKey(master[i].ssnit);
        TrimIdempotent(CellText(master[i].ssnit));
      }
    }
  }

  /** A lookup row whose SSNIT cell is missing is keyed 'nan' in both older
      merges. */
  lemma MissingSsnitKeyedNan(v: Variant, lookup: seq<LookupRow>, master: seq<MasterRow>, i: int)
    requires 0 <= i < |lookup| && lookup[i].ssnit.None?
    ensures "nan" in Merge(v, lookup, master)
  {
    MergeKeySet(v, lookup, master);
    TrimStripped("nan");
    assert LegacyKey(lookup[i].ssnit) == "nan";
    assert "nan" in LookupKeySet(v, lookup);
  }

  /** The entry of a key the lookup table supplies: tagged 'VLOOKUP', built
      from the last lookup row with the key, and each of its four fields
      then settled over the values the master rows with the key offer. */
  lemma LookupEntry(v: Variant, lookup: seq<LookupRow>, master: seq<MasterRow>, i: int, f: Field)
    requires 0 <= i < |lookup| && Admits(v, LegacyKey(lookup[i].ssnit))
    requires forall j :: i < j < |lookup| ==> LegacyKey(lookup[j].ssnit) != LegacyKey(lookup[i].ssnit)
    ensures var k := LegacyKey(lookup[i].ssnit);
      var res := Merge(v, lookup, master);
      && k in res && res[k].source == Vlookup
      && Get(res[k].record, f) == Settle(Get(LookupRecord(v, lookup[i]), f), Offers(v, f, master, k))
  {
    var k := LegacyKey(lookup[i].ssnit);
    LookupPassAt(v, map[], lookup, k, i);
    MasterPassExisting(v, AddLookup(v, map[], lookup), master, k, f);
  }

  /** Primary precedence: a truthy lookup value is never overwritten. */
  lemma LookupValueKept(v: Variant, lookup: seq<LookupRow>, master: seq<MasterRow>, i: int, f: Field)
    requires 0 <= i < |lookup| && Admits(v, LegacyKey(lookup[i].ssnit))
    requires forall j :: i < j < |lookup| ==> LegacyKey(lookup[j].ssnit) != LegacyKey(lookup[i].ssnit)
    requires Truthy(Get(LookupRecord(v, lookup[i]), f))
    ensures var k := LegacyKey(lookup[i].ssnit);
      var res := Merge(v, lookup, master);
      k in res && Get(res[k].record, f) == Get(LookupRecord(v, lookup[i]), f)
  {
    var k := LegacyKey(lookup[i].ssnit);
    LookupEntry(v, lookup, master, i, f);
    SettleKeeps(Get(LookupRecord(v, lookup[i]), f), Offers(v, f, master, k));
  }

  /** A blank lookup value (any of the four fields, not only the account
      number) is filled with the first truthy value a master row with the
      same key offers. */
  lemma LookupBlankFilled(v: Variant, lookup: seq<LookupRow>, master: seq<MasterRow>, i: int, f: Field, j: int)
    requires 0 <= i < |lookup| && Admits(v, LegacyKey(lookup[i].ssnit))
    requires forall n :: i < n < |lookup| ==> LegacyKey(lookup[n].ssnit) != LegacyKey(lookup[i].ssnit)
    requires !Truthy(Get(LookupRecord(v, lookup[i]), f))
    requires var offers := Offers(v, f, master, LegacyKey(lookup[i].ssnit));
      0 <= j < |offers| && Truthy(offers[j]) && forall n :: 0 <= n < j ==> !Truthy(offers[n])
    ensures var k := LegacyKey(lookup[i].ssnit);
      var res := Merge(v, lookup, master);
      k in res && Get(res[k].record, f) == Offers(v, f, master, k)[j]
  {
    var k := LegacyKey(lookup[i].ssnit);
    LookupEntry(v, lookup, master, i, f);
    SettleFirstTruthy(Get(LookupRecord(v, lookup[i]), f), Offers(v, f, master, k), j);
  }

  /** The entry of a key only the master report supplies: tagged 'Master',
      built from the first master row with the key, and each field then
      settled over what the later master rows with the key offer. */
  lemma MasterOnlyEntry(v: Variant, lookup: seq<LookupRow>, master: seq<MasterRow>, j: int, f: Field)
    requires 0 <= j < |master| && Admits(v, LegacyKey(master[j].ssnit))
    requires forall n :: 0 <= n < j ==> LegacyKey(master[n].ssnit) != LegacyKey(master[j].ssnit)
    requires forall n :: 0 <= n < |lookup| ==> LegacyKey(lookup[n].ssnit) != LegacyKey(master[j].ssnit)
    ensures var k := LegacyKey(master[j].ssnit);
      var res := Merge(v, lookup, master);
      && k in res && res[k].source == Master
      && Get(res[k].record, f) == Settle(Get(MasterRecord(v, master[j]), f), Offers(v, f, master[j + 1..], k))
  {
    var k := LegacyKey(master[j].ssnit);
    var start := AddLookup(v, map[], lookup);
    LookupPassAbsent(v, map[], lookup, k);
    var afterJ := FirstMasterRow(v, start, master, j);
    assert master == master[..j + 1] + master[j + 1..];
    AddMasterConcat(v, start, master[..j + 1], master[j + 1..]);
    MasterPassExisting(v, afterJ, master[j + 1..], k, f);
  }

  /** The first master row with a key the map lacks creates its entry. */
  lemma FirstMasterRow(v: Variant, m: LegacyMap, rows: seq<MasterRow>, j: int) returns (res: LegacyMap)
    requires 0 <= j < |rows| && Admits(v, LegacyKey(rows[j].ssnit)) && LegacyKey(rows[j].ssnit) !in m
    requires forall n :: 0 <= n < j ==> LegacyKey(rows[n].ssnit) != LegacyKey(rows[j].ssnit)
    ensures res == AddMaster(v, m, rows[..j + 1])
    ensures LegacyKey(rows[j].ssnit) in res
    ensures res[LegacyKey(rows[j].ssnit)] == Tagged(MasterRecord(v, rows[j]), Master)
  {
    var k := LegacyKey(rows[j].ssnit);
    var pre := rows[..j];
    assert forall n :: 0 <= n < |pre| ==> pre[n] == rows[n];
    MasterPassAbsent(v, m, pre, k);
    AddMasterSnoc(v, m, rows, j);
    res := AddMaster(v, m, rows[..j + 1]);
  }

}
