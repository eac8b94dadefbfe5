/** The duplicate screens. Each builds a key per row and keeps the rows
    pandas' `duplicated(subset=key, keep=False)` marks: every row whose key
    some other row shares, in their original order. The keys are the
    word-sorted full name (`multiple_ssnit`), the normalised account number
    and the upper-cased full name (`multiple_account_names`), and the
    trimmed SSNIT within one schedule (`check_individual_schedule_duplicates`). */
module Duplicates {
  import opened Text
  import opened Seqs
  import opened Names
  import opened Mapping
  import opened Annotation

  // ---------------------------------------------------------------------
  // duplicated(keep=False)

  /** Some row other than row `i` has row `i`'s key. */
  predicate HasTwin<K(==)>(keys: seq<K>, i: int)
    requires 0 <= i < |keys|
  {
    exists j :: 0 <= j < |keys| && j != i && keys[j] == keys[i]
  }

  /** The positions from `i` on whose key occurs twice or more, ascending. */
  function KeepFrom<K(==)>(keys: seq<K>, i: nat): (idx: seq<nat>)
    requires i <= |keys|
    ensures forall j :: 0 <= j < |idx| ==> i <= idx[j] < |keys|
    decreases |keys| - i
  {
    if i == |keys| then []
    else (if HasTwin(keys, i) then [i] else []) + KeepFrom(keys, i + 1)
  }

  predicate Ascending(idx: seq<nat>) {
    forall j, l :: 0 <= j < l < |idx| ==> idx[j] < idx[l]
  }

  /** The positions `KeepFrom` lists ascend. */
  lemma {:induction false} KeepFromAscending<K>(keys: seq<K>, i: nat)
    requires i <= |keys|
    ensures Ascending(KeepFrom(keys, i))
    decreases |keys| - i
  {
    if i < |keys| {
      KeepFromAscending(keys, i + 1);
      var head: seq<nat> := if HasTwin(keys, i) then [i] else [];
      var rest := KeepFrom(keys, i + 1);
      var idx := KeepFrom(keys, i);
      assert idx == head + rest;
      forall j, l | 0 <= j < l < |idx| ensures idx[j] < idx[l] {
        if j < |head| {
          assert idx[j] == i && idx[l] == rest[l - |head|];
          assert i + 1 <= rest[l - |head|];
        } else {
          assert idx[j] == rest[j - |head|] && idx[l] == rest[l - |head|];
        }
      }
    }
  }

  /** The positions `KeepFrom` lists are exactly those from `i` on that
      have a twin. */
  lemma {:induction false} KeepFromMembers<K>(keys: seq<K>, i: nat)
    requires i <= |keys|
    ensures forall p :: i <= p < |keys| ==> (p in KeepFrom(keys, i) <==> HasTwin(keys, p))
    decreases |keys| - i
  {
    if i < |keys| {
      KeepFromMembers(keys, i + 1);
      var head: seq<nat> := if HasTwin(keys, i) then [i] else [];
      var rest := KeepFrom(keys, i + 1);
      assert KeepFrom(keys, i) == head + rest;
      assert i !in rest;
      forall p | i <= p < |keys| ensures p in head + rest <==> HasTwin(keys, p) {
        if p > i {
          assert p in head + rest <==> p in rest;
        }
      }
    }
  }

  /** `duplicated(keep=False)` followed by the row selection: the positions
      of the rows whose key some other row shares, in their original order. */
  function KeepFalse<K(==)>(keys: seq<K>): (idx: seq<nat>)
    ensures forall j :: 0 <= j < |idx| ==> idx[j] < |keys|
    ensures forall j, l :: 0 <= j < l < |idx| ==> idx[j] < idx[l]
    ensures forall p :: 0 <= p < |keys| ==> (p in idx <==> HasTwin(keys, p))
  {
    KeepFromAscending(keys, 0);
    KeepFromMembers(keys, 0);
    KeepFrom(keys, 0)
  }

  /** The elements of `s` at the positions `idx`. */
  function Pick<T>(s: seq<T>, idx: seq<nat>): (r: seq<T>)
    requires forall j :: 0 <= j < |idx| ==> idx[j] < |s|
    ensures |r| == |idx|
    ensures forall j :: 0 <= j < |idx| ==> r[j] == s[idx[j]]
  {
    seq(|idx|, j requires 0 <= j < |idx| => s[idx[j]])
  }

  /** A row has a twin exactly when its key occurs at least twice. */
  lemma TwinIffCount<K>(keys: seq<K>, i: int)
    requires 0 <= i < |keys|
    ensures HasTwin(keys, i) <==> multiset(keys)[keys[i]] >= 2
  {
    var rest := keys[..i] + keys[i + 1..];
    RemoveAt(keys, i);
    if HasTwin(keys, i) {
      var j :| 0 <= j < |keys| && j != i && keys[j] == keys[i];
      if j < i {
        assert rest[j] == keys[j];
      } else {
        assert rest[j - 1] == keys[j];
      }
      assert keys[i] in rest;
    }
    if multiset(keys)[keys[i]] >= 2 {
      assert keys[i] in multiset(rest);
      var j :| 0 <= j < |rest| && rest[j] == keys[i];
      if j < i {
        assert keys[j] == rest[j];
      } else {
        assert keys[j + 1] == rest[j];
      }
    }
  }

  lemma PickConcat<T>(s: seq<T>, a: seq<nat>, b: seq<nat>)
    requires forall j :: 0 <= j < |a| ==> a[j] < |s|
    requires forall j :: 0 <= j < |b| ==> b[j] < |s|
    ensures Pick(s, a + b) == Pick(s, a) + Pick(s, b)
  {
    assert forall j :: 0 <= j < |a + b| ==> (a + b)[j] < |s| by {
      forall j | 0 <= j < |a + b| ensures (a + b)[j] < |s| {
        if j >= |a| { assert (a + b)[j] == b[j - |a|]; }
      }
    }
  }

  lemma {:induction false} KeepFromCount<K>(keys: seq<K>, i: nat, k: K)
    requires i <= |keys|
    ensures multiset(Pick(keys, KeepFrom(keys, i)))[k]
         == if multiset(keys)[k] >= 2 then multiset(keys[i..])[k] else 0
    decreases |keys| - i
  {
    if i < |keys| {
      KeepFromCount(keys, i + 1, k);
      KeepFromCountStep(keys, i, k);
    }
  }

  /** Row `i`'s contribution to `KeepFromCount`'s two sides. */
  lemma KeepFromCountStep<K>(keys: seq<K>, i: nat, k: K)
    requires i < |keys|
    ensures multiset(Pick(keys, KeepFrom(keys, i)))[k]
         == (if multiset(keys)[k] >= 2 then multiset([keys[i]])[k] else 0)
            + multiset(Pick(keys, KeepFrom(keys, i + 1)))[k]
    ensures multiset(keys[i..])[k] == multiset([keys[i]])[k] + multiset(keys[i + 1..])[k]
  {
    var head: seq<nat> := if HasTwin(keys, i) then [i] else [];
    KeepFromStep(keys, i);
    CountConcat(Pick(keys, head), Pick(keys, KeepFrom(keys, i + 1)), k);
    assert keys[i..] == [keys[i]] + keys[i + 1..];
    CountConcat([keys[i]], keys[i + 1..], k);
    HeadCount(keys, i, k);
  }

  lemma CountConcat<K>(a: seq<K>, b: seq<K>, k: K)
    ensures multiset(a + b)[k] == multiset(a)[k] + multiset(b)[k]
  {
  }

  /** The selection from `i` on is row `i`, when it has a twin, followed by
      the selection from `i + 1` on. */
  lemma KeepFromStep<K>(keys: seq<K>, i: nat)
    requires i < |keys|
    ensures var head: seq<nat> := if HasTwin(keys, i) then [i] else [];
      Pick(keys, KeepFrom(keys, i)) == Pick(keys, head) + Pick(keys, KeepFrom(keys, i + 1))
  {
    var head: seq<nat> := if HasTwin(keys, i) then [i] else [];
    var rest := KeepFrom(keys, i + 1);
    assert KeepFrom(keys, i) == head + rest;
    PickConcat(keys, head, rest);
  }

  /** What row `i` contributes to the count of `k` among the selected keys. */
  lemma HeadCount<K>(keys: seq<K>, i: nat, k: K)
    requires i < |keys|
    ensures var head: seq<nat> := if HasTwin(keys, i) then [i] else [];
      multiset(Pick(keys, head))[k] == if multiset(keys)[k] >= 2 then multiset([keys[i]])[k] else 0
  {
    TwinIffCount(keys, i);
    if HasTwin(keys, i) {
      assert Pick(keys, [i]) == [keys[i]];
    } else {
      assert Pick(keys, []) == [];
    }
  }

  /** The keys of the selected rows: every key that occurs at least twice,
      with all its occurrences, and no other key. */
  lemma SelectedKeyCounts<K>(keys: seq<K>, k: K)
    ensures multiset(Pick(keys, KeepFalse(keys)))[k]
         == if multiset(keys)[k] >= 2 then multiset(keys)[k] else 0
  {
    KeepFromCount(keys, 0, k);
    assert keys[0..] == keys;
  }

  /** Reordering the rows does not change which keys, and how many of each,
      the screen reports. */
  lemma SelectionPermutationInvariant<K>(a: seq<K>, b: seq<K>)
    requires multiset(a) == multiset(b)
    ensures multiset(Pick(a, KeepFalse(a))) == multiset(Pick(b, KeepFalse(b)))
  {
    forall k ensures multiset(Pick(a, KeepFalse(a)))[k] == multiset(Pick(b, KeepFalse(b)))[k] {
      SelectedKeyCounts(a, k);
      SelectedKeyCounts(b, k);
    }
  }

  // ---------------------------------------------------------------------
  // The keys

  /** `fillna('')` on a text cell. */
  function FillNa(c: Option<string>): string {
    match c
    case None => ""
    case Some(s) => s
  }

  /** The three name columns joined with single spaces, blanks kept. */
  function FullName(r: LookupRow): string {
    FillNa(r.surname) + " " + FillNa(r.firstName) + " " + FillNa(r.otherNames)
  }

  /** `multiple_ssnit`'s key: the full name's words sorted and rejoined,
      without upper-casing. */
  function NameKey(r: LookupRow): string {
    SortedName(FullName(r))
  }

  /** `multiple_account_names`' account key: `astype(str).str.strip().str.upper()`,
      the same normalisation as the mapping keys. */
  function AccountKey(r: LookupRow): string {
    Key(r.accountno)
  }

  /** `multiple_account_names`' name key: the joined name trimmed and
      upper-cased, word order and inner spacing kept. */
  function FullNameKey(r: LookupRow): string {
    Upper(Trim(FullName(r)))
  }

  /** `check_individual_schedule_duplicates`' key: `astype(str).str.strip()`. */
  function ScheduleSsnitKey(r: ScheduleRow): string {
    Trim(CellText(r.ssnit))
  }

  /** The words of a full name are those of its three columns in turn. */
  lemma FullNameWords(r: LookupRow)
    ensures Words(FullName(r)) == Words(FillNa(r.surname)) + Words(FillNa(r.firstName)) + Words(FillNa(r.otherNames))
  {
    var s, f, o := FillNa(r.surname), FillNa(r.firstName), FillNa(r.otherNames);
    WordsSpaceConcat(s, f);
    WordsSpaceConcat(s + " " + f, o);
  }

  /** Two vlookup rows share the sorted-name key exactly when their three
      name columns together hold the same words, so a name entered with its
      parts in other columns or another order is caught. */
  lemma NameKeyIff(r: LookupRow, t: LookupRow)
    ensures NameKey(r) == NameKey(t) <==>
      multiset(Words(FillNa(r.surname))) + multiset(Words(FillNa(r.firstName))) + multiset(Words(FillNa(r.otherNames)))
      == multiset(Words(FillNa(t.surname))) + multiset(Words(FillNa(t.firstName))) + multiset(Words(FillNa(t.otherNames)))
  {
    FullNameWords(r);
    FullNameWords(t);
    SortedNameWordOrder(FullName(r), FullName(t));
  }

  /** The sorted-name key of a row is already in sorted-name form. */
  lemma NameKeyStable(r: LookupRow)
    ensures SortedName(NameKey(r)) == NameKey(r)
  {
    var k := NameKey(r);
    SortedNameWordOrder(k, FullName(r));
    SortedUnique(Words(SortedName(k)), Words(k));
  }

  // ---------------------------------------------------------------------
  // The screens

  function RowKeys<R>(rows: seq<R>, key: R -> string): (keys: seq<string>)
    ensures |keys| == |rows|
    ensures forall i :: 0 <= i < |rows| ==> keys[i] == key(rows[i])
  {
    Apply(key, rows)
  }

  /** The positions of the rows whose key some other row shares, in their
      original order. */
  function DuplicatesBy<R>(rows: seq<R>, key: R -> string): (idx: seq<nat>)
    ensures forall j :: 0 <= j < |idx| ==> idx[j] < |rows|
    ensures forall j, l :: 0 <= j < l < |idx| ==> idx[j] < idx[l]
    ensures forall p :: 0 <= p < |rows| ==>
      (p in idx <==> exists q :: 0 <= q < |rows| && q != p && key(rows[q]) == key(rows[p]))
  {
    var keys := RowKeys(rows, key);
    assert forall p :: 0 <= p < |rows| ==> (HasTwin(keys, p) <==>
      exists q :: 0 <= q < |rows| && q != p && key(rows[q]) == key(rows[p]));
    KeepFalse(keys)
  }

  /** `multiple_ssnit`: the vlookup rows whose sorted-name key is shared. */
  function NameDuplicates(rows: seq<LookupRow>): (idx: seq<nat>)
    ensures forall p :: 0 <= p < |rows| ==>
      (p in idx <==> exists q :: 0 <= q < |rows| && q != p && NameKey(rows[q]) == NameKey(rows[p]))
  {
    DuplicatesBy(rows, NameKey)
  }

  /** `multiple_account_names`, by account: the vlookup rows whose
      normalised account number is shared. */
  function AccountDuplicates(rows: seq<LookupRow>): (idx: seq<nat>)
    ensures forall p :: 0 <= p < |rows| ==>
      (p in idx <==> exists q :: 0 <= q < |rows| && q != p && AccountKey(rows[q]) == AccountKey(rows[p]))
  {
    DuplicatesBy(rows, AccountKey)
  }

  /** `multiple_account_names`, by name: the vlookup rows whose upper-cased
      full name is shared. */
  function FullNameDuplicates(rows: seq<LookupRow>): (idx: seq<nat>)
    ensures forall p :: 0 <= p < |rows| ==>
      (p in idx <==> exists q :: 0 <= q < |rows| && q != p && FullNameKey(rows[q]) == FullNameKey(rows[p]))
  {
    DuplicatesBy(rows, FullNameKey)
  }

  /** `check_individual_schedule_duplicates`: the rows of one schedule whose
      trimmed SSNIT is shared. */
  function ScheduleDuplicates(rows: seq<ScheduleRow>): (idx: seq<nat>)
    ensures forall p :: 0 <= p < |rows| ==>
      (p in idx <==> exists q :: 0 <= q < |rows| && q != p && ScheduleSsnitKey(rows[q]) == ScheduleSsnitKey(rows[p]))
  {
    DuplicatesBy(rows, ScheduleSsnitKey)
  }

  /** Two rows with the same sorted-name key are never split: one is
      reported exactly when the other is. */
  lemma NameTwinsTogether(rows: seq<LookupRow>, p: nat, q: nat)
    requires p < |rows| && q < |rows| && p != q && NameKey(rows[p]) == NameKey(rows[q])
    ensures p in NameDuplicates(rows) && q in NameDuplicates(rows)
  {
  }

  /** The sorted-name screen's report does not depend on the order of the
      vlookup rows. */
  lemma NameDuplicatesPermutationInvariant(a: seq<LookupRow>, b: seq<LookupRow>)
    requires multiset(a) == multiset(b)
    ensures multiset(Pick(RowKeys(a, NameKey), NameDuplicates(a)))
         == multiset(Pick(RowKeys(b, NameKey), NameDuplicates(b)))
  {
    ApplyPermutation(NameKey, a, b);
    SelectionPermutationInvariant(RowKeys(a, NameKey), RowKeys(b, NameKey));
  }

  // ---------------------------------------------------------------------
  // The account standardisation of check_individual_schedule_duplicates

  /** The first position holding `k`. */
  function FirstIndexOf(keys: seq<string>, k: string): (i: nat)
    requires k in keys
    ensures i < |keys| && keys[i] == k
    ensures forall j :: 0 <= j < i ==> keys[j] != k
  {
    if keys[0] == k then 0 else 1 + FirstIndexOf(keys[1..], k)
  }

  /** The schedule as `check_individual_schedule_duplicates` writes it back:
      every `ssnit` cell replaced by its trimmed text, and every row whose
      SSNIT is shared given the account number of the first row with that
      SSNIT. */
  function StandardizeSchedule(rows: seq<ScheduleRow>): (r: seq<ScheduleRow>)
    ensures |r| == |rows|
  {
    var keys := RowKeys(rows, ScheduleSsnitKey);
    seq(|rows|, i requires 0 <= i < |rows| =>
      var row := rows[i].(ssnit := Some(keys[i]));
      if HasTwin(keys, i) then row.(accountno := rows[FirstIndexOf(keys, keys[i])].accountno) else row)
  }

  /** What `check_individual_schedule_duplicates` saves for one schedule.
      A schedule without an `ssnit` column is skipped. One with a shared
      SSNIT but no `accountno` column raises KeyError on the first account
      lookup, which the per-file handler catches before the save, so
      nothing is written either. */
  function CheckScheduleDuplicates(sheet: Sheet): (saved: Option<Sheet>)
    ensures saved.Some? <==>
      "ssnit" in sheet.columns && "accountno" in sheet.columns && ScheduleDuplicates(sheet.rows) != []
    ensures "ssnit" !in sheet.columns ==> saved == None
    ensures "accountno" !in sheet.columns ==> saved == None
    ensures saved.Some? ==> saved.value == Sheet(sheet.columns, StandardizeSchedule(sheet.rows))
  {
    if "ssnit" !in sheet.columns then None
    else if ScheduleDuplicates(sheet.rows) == [] then None
    else if "accountno" !in sheet.columns then None
    else Some(Sheet(sheet.columns, StandardizeSchedule(sheet.rows)))
  }

  /** Standardising keeps every row's trimmed SSNIT. */
  lemma StandardizeScheduleKeys(rows: seq<ScheduleRow>)
    ensures RowKeys(StandardizeSchedule(rows), ScheduleSsnitKey) == RowKeys(rows, ScheduleSsnitKey)
  {
    var out := StandardizeSchedule(rows);
    forall i | 0 <= i < |rows| ensures ScheduleSsnitKey(out[i]) == ScheduleSsnitKey(rows[i]) {
      TrimIdempotent(CellText(rows[i].ssnit));
    }
  }

  /** Running the check again on a schedule it saved saves the same
      schedule: its duplicates are still there and already standardised. */
  lemma CheckScheduleRerun(sheet: Sheet)
    requires CheckScheduleDuplicates(sheet).Some?
    ensures CheckScheduleDuplicates(CheckScheduleDuplicates(sheet).value) == CheckScheduleDuplicates(sheet)
  {
    StandardizeScheduleKeys(sheet.rows);
    StandardizeScheduleIdempotent(sheet.rows);
  }

  /** After standardisation, rows sharing an SSNIT share an account number,
      the first of them keeps its own, a row whose SSNIT is not shared keeps
      its account number, and no column but `ssnit` and `accountno` changes. */
  lemma StandardizeScheduleSpec(rows: seq<ScheduleRow>)
    ensures var out := StandardizeSchedule(rows);
      && (forall i :: 0 <= i < |rows| ==> out[i].ssnit == Some(ScheduleSsnitKey(rows[i])))
      && (forall i, j :: 0 <= i < |rows| && 0 <= j < |rows| && ScheduleSsnitKey(rows[i]) == ScheduleSsnitKey(rows[j]) ==>
            out[i].accountno == out[j].accountno)
      && (forall i :: 0 <= i < |rows| ==>
            (forall j :: 0 <= j < i ==> ScheduleSsnitKey(rows[j]) != ScheduleSsnitKey(rows[i])) ==>
            out[i].accountno == rows[i].accountno)
      && (forall i :: 0 <= i < |rows| ==>
            out[i].(ssnit := rows[i].ssnit, accountno := rows[i].accountno) == rows[i])
  {
    var keys := RowKeys(rows, ScheduleSsnitKey);
    var out := StandardizeSchedule(rows);
    forall i, j | 0 <= i < |rows| && 0 <= j < |rows| && keys[i] == keys[j]
      ensures out[i].accountno == out[j].accountno
    {
      if i != j {
        assert HasTwin(keys, i) && HasTwin(keys, j);
      }
    }
    forall i | 0 <= i < |rows| && (forall j :: 0 <= j < i ==> keys[j] != keys[i])
      ensures out[i].accountno == rows[i].accountno
    {
      if HasTwin(keys, i) {
        var f := FirstIndexOf(keys, keys[i]);
        assert f == i;
      }
    }
  }

  /** Running the check again on a standardised schedule changes nothing. */
  lemma StandardizeScheduleIdempotent(rows: seq<ScheduleRow>)
    ensures StandardizeSchedule(StandardizeSchedule(rows)) == StandardizeSchedule(rows)
  {
    var keys := RowKeys(rows, ScheduleSsnitKey);
    var out := StandardizeSchedule(rows);
    StandardizeScheduleKeys(rows);
    StandardizeScheduleSpec(rows);
    var out2 := StandardizeSchedule(out);
    forall i | 0 <= i < |rows| ensures out2[i] == out[i] {
      if HasTwin(keys, i) {
        var f := FirstIndexOf(keys, keys[i]);
        assert out2[i].accountno == out[f].accountno;
      }
    }
  }

  // ---------------------------------------------------------------------
  // The name groups of multiple_ssnit

  /** The cells at the positions `idx`, grouped by the keys at the same
      positions. */
  function GroupsOf<C>(keys: seq<string>, cells: seq<C>, idx: seq<nat>): map<string, set<C>>
    requires |keys| == |cells|
    requires forall j :: 0 <= j < |idx| ==> idx[j] < |keys|
    decreases |idx|
  {
    if idx == [] then map[]
    else
      var groups := GroupsOf(keys, cells, idx[..|idx| - 1]);
      var p := idx[|idx| - 1];
      var members := if keys[p] in groups then groups[keys[p]] else {};
      groups[keys[p] := members + {cells[p]}]
  }

  lemma GroupsOfStep<C>(keys: seq<string>, cells: seq<C>, idx: seq<nat>, j: int)
    requires |keys| == |cells|
    requires forall l :: 0 <= l < |idx| ==> idx[l] < |keys|
    requires 0 <= j < |idx|
    ensures var groups := GroupsOf(keys, cells, idx[..j]);
      var members := if keys[idx[j]] in groups then groups[keys[idx[j]]] else {};
      GroupsOf(keys, cells, idx[..j + 1]) == groups[keys[idx[j]] := members + {cells[idx[j]]}]
  {
    assert idx[..j + 1][..j] == idx[..j];
  }

  /** The groups are keyed by exactly the keys of the listed positions. */
  ghost predicate GroupKeys<C>(groups: map<string, set<C>>, keys: seq<string>, idx: seq<nat>)
    requires forall j :: 0 <= j < |idx| ==> idx[j] < |keys|
  {
    forall name :: name in groups <==> exists l :: 0 <= l < |idx| && keys[idx[l]] == name
  }

  /** Each group holds exactly the cells of the listed positions with its key. */
  ghost predicate GroupMembers<C(!new)>(groups: map<string, set<C>>, keys: seq<string>, cells: seq<C>, idx: seq<nat>)
    requires |keys| == |cells|
    requires forall j :: 0 <= j < |idx| ==> idx[j] < |keys|
  {
    forall name, c :: name in groups ==>
      (c in groups[name] <==> exists l :: 0 <= l < |idx| && keys[idx[l]] == name && cells[idx[l]] == c)
  }

  ghost predicate GroupsExact<C(!new)>(groups: map<string, set<C>>, keys: seq<string>, cells: seq<C>, idx: seq<nat>)
    requires |keys| == |cells|
    requires forall j :: 0 <= j < |idx| ==> idx[j] < |keys|
  {
    GroupKeys(groups, keys, idx) && GroupMembers(groups, keys, cells, idx)
  }

  lemma GroupsOfSpec<C(!new)>(keys: seq<string>, cells: seq<C>, idx: seq<nat>)
    requires |keys| == |cells|
    requires forall j :: 0 <= j < |idx| ==> idx[j] < |keys|
    ensures GroupsExact(GroupsOf(keys, cells, idx), keys, cells, idx)
  {
    GroupsOfKeys(keys, cells, idx);
    GroupsOfMembers(keys, cells, idx);
  }

  lemma {:induction false} GroupsOfKeys<C>(keys: seq<string>, cells: seq<C>, idx: seq<nat>)
    requires |keys| == |cells|
    requires forall j :: 0 <= j < |idx| ==> idx[j] < |keys|
    ensures GroupKeys(GroupsOf(keys, cells, idx), keys, idx)
    decreases |idx|
  {
    if idx != [] {
      var pre := idx[..|idx| - 1];
      var last := |idx| - 1;
      GroupsOfKeys(keys, cells, pre);
      var earlier := GroupsOf(keys, cells, pre);
      var groups := GroupsOf(keys, cells, idx);
      forall name ensures name in groups <==> exists l :: 0 <= l < |idx| && keys[idx[l]] == name {
        if name in earlier {
          var l :| 0 <= l < |pre| && keys[pre[l]] == name;
          assert idx[l] == pre[l];
        }
        if exists l :: 0 <= l < |idx| && keys[idx[l]] == name {
          var l :| 0 <= l < |idx| && keys[idx[l]] == name;
          if l < last {
            assert pre[l] == idx[l];
          }
        }
      }
    }
  }

  lemma {:induction false} GroupsOfMembers<C(!new)>(keys: seq<string>, cells: seq<C>, idx: seq<nat>)
    requires |keys| == |cells|
    requires forall j :: 0 <= j < |idx| ==> idx[j] < |keys|
    ensures GroupMembers(GroupsOf(keys, cells, idx), keys, cells, idx)
    decreases |idx|
  {
    if idx != [] {
      var pre := idx[..|idx| - 1];
      var last := |idx| - 1;
      GroupsOfMembers(keys, cells, pre);
      GroupsOfKeys(keys, cells, pre);
      var earlier := GroupsOf(keys, cells, pre);
      var groups := GroupsOf(keys, cells, idx);
      forall name, c | name in groups
        ensures c in groups[name] <==> exists l :: 0 <= l < |idx| && keys[idx[l]] == name && cells[idx[l]] == c
      {
        if name in earlier && c in earlier[name] {
          var l :| 0 <= l < |pre| && keys[pre[l]] == name && cells[pre[l]] == c;
          assert idx[l] == pre[l];
        }
        if exists l :: 0 <= l < |idx| && keys[idx[l]] == name && cells[idx[l]] == c {
          var l :| 0 <= l < |idx| && keys[idx[l]] == name && cells[idx[l]] == c;
          if l < last {
            assert pre[l] == idx[l];
          }
        }
      }
    }
  }

  /** `GroupsExact` in terms of the positions themselves. */
  lemma GroupsByPosition<C(!new)>(groups: map<string, set<C>>, keys: seq<string>, cells: seq<C>, idx: seq<nat>)
    requires |keys| == |cells|
    requires forall j :: 0 <= j < |idx| ==> idx[j] < |keys|
    requires GroupsExact(groups, keys, cells, idx)
    ensures forall name :: name in groups <==> exists p :: 0 <= p < |keys| && p in idx && keys[p] == name
    ensures forall name, c :: name in groups ==>
      (c in groups[name] <==> exists p :: 0 <= p < |keys| && p in idx && keys[p] == name && cells[p] == c)
  {
    forall name ensures name in groups <==> exists p :: 0 <= p < |keys| && p in idx && keys[p] == name {
      if name in groups {
        var l :| 0 <= l < |idx| && keys[idx[l]] == name;
        assert idx[l] in idx;
      }
    }
    forall name, c | name in groups
      ensures c in groups[name] <==> exists p :: 0 <= p < |keys| && p in idx && keys[p] == name && cells[p] == c
    {
      if c in groups[name] {
        var l :| 0 <= l < |idx| && keys[idx[l]] == name && cells[idx[l]] == c;
        assert idx[l] in idx;
      }
    }
  }

  /** The loop of `multiple_ssnit` over the reported rows: the `Ssnit` cells
      of the rows whose key is shared, grouped by key. `keys` and `ssnits`
      are the `SortedFullName` and `Ssnit` columns, `dups` the positions
      `duplicated(keep=False)` selects. */
  method GroupDuplicates(keys: seq<string>, ssnits: seq<Option<string>>, dups: seq<nat>)
    returns (groups: map<string, set<Option<string>>>)
    requires |keys| == |ssnits|
    requires forall l :: 0 <= l < |dups| ==> dups[l] < |keys|
    ensures GroupsExact(groups, keys, ssnits, dups)
  {
    groups := map[];
    var j := 0;
    while j < |dups|
      invariant 0 <= j <= |dups|
      invariant groups == GroupsOf(keys, ssnits, dups[..j])
    {
      var name := keys[dups[j]];
      var members := if name in groups then groups[name] else {};
      groups := groups[name := members + {ssnits[dups[j]]}];
      GroupsOfStep(keys, ssnits, dups, j);
      j := j + 1;
    }
    assert dups[..j] == dups;
    GroupsOfSpec(keys, ssnits, dups);
  }

  /** Grouping the rows whose key is shared: a group for each key that
      occurs twice, holding the cells of every row with that key. */
  lemma GroupsOfShared<C(!new)>(groups: map<string, set<C>>, keys: seq<string>, cells: seq<C>, idx: seq<nat>)
    requires |keys| == |cells|
    requires forall j :: 0 <= j < |idx| ==> idx[j] < |keys|
    requires forall p :: 0 <= p < |keys| ==> (p in idx <==> HasTwin(keys, p))
    requires GroupsExact(groups, keys, cells, idx)
    ensures forall name :: name in groups <==>
      exists p, q :: 0 <= p < q < |keys| && keys[p] == name && keys[q] == name
    ensures forall name, c :: name in groups ==>
      (c in groups[name] <==> exists p :: 0 <= p < |keys| && keys[p] == name && cells[p] == c)
  {
    GroupsByPosition(groups, keys, cells, idx);
    forall name
      ensures name in groups <==> exists p, q :: 0 <= p < q < |keys| && keys[p] == name && keys[q] == name
    {
      if name in groups {
        var p :| 0 <= p < |keys| && p in idx && keys[p] == name;
        var q :| 0 <= q < |keys| && q != p && keys[q] == keys[p];
        if p < q {
          assert 0 <= p < q < |keys| && keys[p] == name && keys[q] == name;
        } else {
          assert 0 <= q < p < |keys| && keys[q] == name && keys[p] == name;
        }
      }
      if exists p, q :: 0 <= p < q < |keys| && keys[p] == name && keys[q] == name {
        var p, q :| 0 <= p < q < |keys| && keys[p] == name && keys[q] == name;
        assert HasTwin(keys, p);
      }
    }
    forall name, c | name in groups
      ensures c in groups[name] <==> exists p :: 0 <= p < |keys| && keys[p] == name && cells[p] == c
    {
      if exists p :: 0 <= p < |keys| && keys[p] == name && cells[p] == c {
        var p :| 0 <= p < |keys| && keys[p] == name && cells[p] == c;
        var p0 :| 0 <= p0 < |keys| && p0 in idx && keys[p0] == name;
        if p != p0 {
          assert HasTwin(keys, p);
        }
        assert p in idx;
      }
    }
  }

  /** `GroupsOfShared` in terms of the rows the keys and cells come from. */
  lemma GroupsOfSharedRows(groups: map<string, set<Option<string>>>, rows: seq<LookupRow>, key: LookupRow -> string,
                            keys: seq<string>, cells: seq<Option<string>>, idx: seq<nat>)
    requires |keys| == |rows| && |cells| == |rows|
    requires forall i :: 0 <= i < |rows| ==> keys[i] == key(rows[i]) && cells[i] == rows[i].ssnit
    requires forall j :: 0 <= j < |idx| ==> idx[j] < |keys|
    requires forall p :: 0 <= p < |keys| ==> (p in idx <==> HasTwin(keys, p))
    requires GroupsExact(groups, keys, cells, idx)
    ensures forall name :: name in groups <==>
      exists p, q :: 0 <= p < q < |rows| && key(rows[p]) == name && key(rows[q]) == name
    ensures forall name, c :: name in groups ==>
      (c in groups[name] <==> exists p :: 0 <= p < |rows| && key(rows[p]) == name && rows[p].ssnit == c)
  {
    GroupsOfShared(groups, keys, cells, idx);
  }

  /** `multiple_ssnit`'s name groups: a group for each sorted-name key two
      vlookup rows share, holding the `Ssnit` cells of exactly the rows with
      that key. */
  method DuplicateGroups(rows: seq<LookupRow>) returns (groups: map<string, set<Option<string>>>)
    ensures forall name :: name in groups <==>
      exists p, q :: 0 <= p < q < |rows| && NameKey(rows[p]) == name && NameKey(rows[q]) == name
    ensures forall name, s :: name in groups ==>
      (s in groups[name] <==> exists p :: 0 <= p < |rows| && NameKey(rows[p]) == name && rows[p].ssnit == s)
  {
    var keys := RowKeys(rows, NameKey);
    var ssnits := seq(|rows|, i requires 0 <= i < |rows| => rows[i].ssnit);
    var dups := KeepFalse(keys);
    groups := GroupDuplicates(keys, ssnits, dups);
    GroupsOfSharedRows(groups, rows, NameKey, keys, ssnits, dups);
  }
}
