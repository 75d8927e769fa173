/**
 * What the decoding reference definitions promise: the flat value list of a commit is
 * its fixed values followed by the expanded name-status lines, the status and files
 * lists receive the even and odd positions of that expansion, a rename line stands for a
 * synthetic deletion of each middle path, and the record maps every named field to its
 * positional value.
 */
module DecodeFacts {
  import opened Wrappers
  import opened Text
  import opened Protocol

  function Min(a: int, b: int): int { if a <= b then a else b }

  /** The field names among the first `m`. */
  function FieldKeys(fields: seq<string>, m: nat): set<string>
    requires m <= |fields|
  {
    set i | 0 <= i < m :: fields[i]
  }

  /** All the field names are the names among all the fields. */
  lemma AllFieldKeys(fields: seq<string>)
    ensures FieldKeys(fields, |fields|) == (set f | f in fields)
  {
    forall f | f in fields ensures f in FieldKeys(fields, |fields|) {
      var i :| 0 <= i < |fields| && fields[i] == f;
    }
  }

  /** Position `i` is the last occurrence of its name among the first `m` fields. */
  predicate LastAt(fields: seq<string>, i: nat, m: nat) {
    forall j :: i < j < m && j < |fields| ==> fields[j] != fields[i]
  }

  lemma {:induction false} LastOccurrence(fields: seq<string>, m: nat, x: string) returns (i: nat)
    requires m <= |fields| && x in fields[..m]
    ensures i < m && fields[i] == x && LastAt(fields, i, m)
  {
    if fields[m - 1] == x {
      i := m - 1;
    } else {
      assert x in fields[..m - 1] by {
        var k :| 0 <= k < m && fields[..m][k] == x;
        assert k < m - 1 && fields[..m - 1][k] == x;
      }
      i := LastOccurrence(fields, m - 1, x);
    }
  }

  // ---------------------------------------------------------------------------
  // Alternation

  lemma EvensOddsSnoc(s: seq<string>, x: string)
    ensures Evens(s + [x]) == if |s| % 2 == 0 then Evens(s) + [x] else Evens(s)
    ensures Odds(s + [x]) == if |s| % 2 == 1 then Odds(s) + [x] else Odds(s)
  {
    var t := s + [x];
    if |s| % 2 == 0 {
      assert Evens(t) == Evens(s) + [x] by {
        forall i | 0 <= i < |Evens(t)| ensures Evens(t)[i] == (Evens(s) + [x])[i] {
          if i < |Evens(s)| { assert t[2 * i] == s[2 * i]; }
        }
      }
      assert Odds(t) == Odds(s) by {
        forall i | 0 <= i < |Odds(t)| ensures Odds(t)[i] == Odds(s)[i] {
          assert t[2 * i + 1] == s[2 * i + 1];
        }
      }
    } else {
      assert Evens(t) == Evens(s) by {
        forall i | 0 <= i < |Evens(t)| ensures Evens(t)[i] == Evens(s)[i] {
          assert t[2 * i] == s[2 * i];
        }
      }
      assert Odds(t) == Odds(s) + [x] by {
        forall i | 0 <= i < |Odds(t)| ensures Odds(t)[i] == (Odds(s) + [x])[i] {
          if i < |Odds(s)| { assert t[2 * i + 1] == s[2 * i + 1]; }
        }
      }
    }
  }

  lemma EvensOddsAppend(a: seq<string>, b: seq<string>)
    requires |a| % 2 == 0
    ensures Evens(a + b) == Evens(a) + Evens(b)
    ensures Odds(a + b) == Odds(a) + Odds(b)
  {
    var t := a + b;
    forall i | 0 <= i < |Evens(t)| ensures Evens(t)[i] == (Evens(a) + Evens(b))[i] {
      if i < |a| / 2 { assert t[2 * i] == a[2 * i]; }
      else { assert t[2 * i] == b[2 * (i - |a| / 2)]; }
    }
    forall i | 0 <= i < |Odds(t)| ensures Odds(t)[i] == (Odds(a) + Odds(b))[i] {
      if i < |a| / 2 { assert t[2 * i + 1] == a[2 * i + 1]; }
      else { assert t[2 * i + 1] == b[2 * (i - |a| / 2) + 1]; }
    }
  }

  // ---------------------------------------------------------------------------
  // Rename expansion

  /** The synthetic deletions alternate a `D` status with each path, in order. */
  lemma {:induction false} DeletionsAlternate(paths: seq<string>)
    ensures |Deletions(paths)| == 2 * |paths|
    ensures Evens(Deletions(paths)) == seq(|paths|, _ => "D")
    ensures Odds(Deletions(paths)) == paths
  {
    if paths != [] {
      var init := paths[..|paths| - 1];
      DeletionsAlternate(init);
      EvensOddsAppend(Deletions(init), ["D", paths[|paths| - 1]]);
      assert init + [paths[|paths| - 1]] == paths;
      assert seq(|init|, _ => "D") + ["D"] == seq(|paths|, _ => "D");
    }
  }

  /**
   * One line `S\tp1\t...\tpk` contributes the pair (S, pk) and, when S starts with `R`,
   * the pair ("D", pi) for every 1 <= i < k: its even positions are the statuses and its
   * odd positions the paths of the reference definition.
   */
  lemma ExpandItemAlternates(item: seq<string>)
    requires |item| >= 1
    ensures |ExpandItem(item)| % 2 == 0
    ensures Evens(ExpandItem(item)) == LineStatuses(item)
    ensures Odds(ExpandItem(item)) == LineFiles(item)
  {
    var dels := if IsRename(item[0]) then Deletions(Middle(item)) else [];
    DeletionsAlternate(Middle(item));
    EvensOddsAppend([item[0], item[|item| - 1]], dels);
    assert dels == [] ==> Evens(dels) == [] && Odds(dels) == [];
  }

  /** Over a whole block, the status list and the files list are the reference lists, and so have equal length. */
  lemma {:induction false} ExpandItemsAlternate(items: seq<seq<string>>)
    requires NonEmptyItems(items)
    ensures |ExpandItems(items)| % 2 == 0
    ensures Evens(ExpandItems(items)) == Statuses(items)
    ensures Odds(ExpandItems(items)) == Files(items)
    ensures |Statuses(items)| == |Files(items)|
  {
    if items != [] {
      var init := items[..|items| - 1];
      ExpandItemsAlternate(init);
      ExpandItemAlternates(items[|items| - 1]);
      EvensOddsAppend(ExpandItems(init), ExpandItem(items[|items| - 1]));
    }
  }

  // ---------------------------------------------------------------------------
  // Positional assignment

  /** After `n` values the record holds the initial lists and the named fields assigned so far. */
  predicate KeysShaped(r: Commit, fields: seq<string>, nameStatus: bool, n: nat) {
    r.Keys == InitialRecord(nameStatus).Keys + FieldKeys(fields, Min(n, |fields|))
  }

  /** Each named field assigned so far holds the value at its last position. */
  predicate FieldsShaped(r: Commit, values: seq<string>, fields: seq<string>, n: nat)
    requires n <= |values|
  {
    var m := Min(n, |fields|);
    forall i :: 0 <= i < m && LastAt(fields, i, m) ==> fields[i] in r && r[fields[i]] == Str(values[i])
  }

  /** The values past the named fields alternate into `status` and `files`, unless a field of that name replaced the list. */
  predicate ListsShaped(r: Commit, values: seq<string>, fields: seq<string>, nameStatus: bool, n: nat)
    requires n <= |values|
  {
    var m := Min(n, |fields|);
    && (nameStatus && "status" !in fields[..m] ==> "status" in r && r["status"] == List(Evens(values[m..n])))
    && (nameStatus && "files" !in fields[..m] ==> "files" in r && r["files"] == List(Odds(values[m..n])))
  }

  predicate Shaped(r: Commit, values: seq<string>, fields: seq<string>, nameStatus: bool, n: nat)
    requires n <= |values|
  {
    KeysShaped(r, fields, nameStatus, n) && FieldsShaped(r, values, fields, n) && ListsShaped(r, values, fields, nameStatus, n)
  }

  /** A value at a named position adds that field to the keys. */
  lemma FieldStepKeys(r0: Commit, fields: seq<string>, nameStatus: bool, n: nat, v: string)
    requires 0 < n <= |fields|
    requires KeysShaped(r0, fields, nameStatus, n - 1)
    ensures KeysShaped(AssignStep(r0, fields, nameStatus, n - 1, v), fields, nameStatus, n)
  {
    assert AssignStep(r0, fields, nameStatus, n - 1, v).Keys == r0.Keys + {fields[n - 1]};
    assert FieldKeys(fields, n) == FieldKeys(fields, n - 1) + {fields[n - 1]};
  }

  /** A value at a named position overwrites that field and leaves the others. */
  lemma FieldStepFields(r0: Commit, values: seq<string>, fields: seq<string>, nameStatus: bool, n: nat)
    requires 0 < n <= |values| && n <= |fields|
    requires FieldsShaped(r0, values, fields, n - 1)
    ensures FieldsShaped(AssignStep(r0, fields, nameStatus, n - 1, values[n - 1]), values, fields, n)
  {
    var r := AssignStep(r0, fields, nameStatus, n - 1, values[n - 1]);
    assert r == r0[fields[n - 1] := Str(values[n - 1])];
    forall i | 0 <= i < n && LastAt(fields, i, n) ensures fields[i] in r && r[fields[i]] == Str(values[i]) {
      if i < n - 1 {
        assert fields[n - 1] != fields[i];
        assert LastAt(fields, i, n - 1);
      }
    }
  }

  /** While the named positions last, the lists stay empty. */
  lemma FieldStepLists(r0: Commit, values: seq<string>, fields: seq<string>, nameStatus: bool, n: nat)
    requires 0 < n <= |values| && n <= |fields|
    requires ListsShaped(r0, values, fields, nameStatus, n - 1)
    ensures ListsShaped(AssignStep(r0, fields, nameStatus, n - 1, values[n - 1]), values, fields, nameStatus, n)
  {
    var r := AssignStep(r0, fields, nameStatus, n - 1, values[n - 1]);
    assert r == r0[fields[n - 1] := Str(values[n - 1])];
    assert values[n..n] == [] && values[n - 1..n - 1] == [];
    assert fields[..n] == fields[..n - 1] + [fields[n - 1]];
  }

  /** A value past the named fields keeps the key set: it extends an existing list or is dropped. */
  lemma SlotStepKeys(r0: Commit, fields: seq<string>, nameStatus: bool, n: nat, v: string)
    requires 0 < n && n - 1 >= |fields|
    requires KeysShaped(r0, fields, nameStatus, n - 1)
    ensures KeysShaped(AssignStep(r0, fields, nameStatus, n - 1, v), fields, nameStatus, n)
  {
    assert Min(n, |fields|) == |fields| == Min(n - 1, |fields|);
    assert AssignStep(r0, fields, nameStatus, n - 1, v).Keys == r0.Keys;
  }

  /** A value past the named fields leaves every named field as it was. */
  lemma SlotStepFields(r0: Commit, values: seq<string>, fields: seq<string>, nameStatus: bool, n: nat)
    requires 0 < n <= |values| && n - 1 >= |fields|
    requires FieldsShaped(r0, values, fields, n - 1)
    ensures FieldsShaped(AssignStep(r0, fields, nameStatus, n - 1, values[n - 1]), values, fields, n)
  {
    var m := |fields|;
    var r := AssignStep(r0, fields, nameStatus, n - 1, values[n - 1]);
    assert Min(n, m) == m && Min(n - 1, m) == m;
    forall i | 0 <= i < m && LastAt(fields, i, m) ensures fields[i] in r && r[fields[i]] == Str(values[i]) {
      assert r0[fields[i]].Str?;
    }
  }

  /** A list name that is also a field name holds that field's string. */
  lemma ReplacedList(r0: Commit, values: seq<string>, fields: seq<string>, n: nat, key: string)
    requires n <= |values| && n >= |fields| && key in fields
    requires FieldsShaped(r0, values, fields, n)
    ensures key in r0 && r0[key].Str?
  {
    var m := |fields|;
    assert Min(n, m) == m;
    assert fields[..m] == fields;
    var i := LastOccurrence(fields, m, key);
  }

  /** The last value of a slice is its own one-element tail. */
  lemma SliceSnoc<T>(s: seq<T>, m: nat, n: nat)
    requires m < n <= |s|
    ensures s[m..n] == s[m..n - 1] + [s[n - 1]]
  { }

  /** The lists hold the alternate values `s` met past the field names, unless a field replaced them. */
  predicate ListsAfter(r: Commit, s: seq<string>, fields: seq<string>) {
    && ("status" !in fields ==> "status" in r && r["status"] == List(Evens(s)))
    && ("files" !in fields ==> "files" in r && r["files"] == List(Odds(s)))
  }

  /** Past the field names, shaped lists are `ListsAfter` of the values beyond them. */
  lemma ListsAfterOfShaped(r: Commit, values: seq<string>, fields: seq<string>, n: nat)
    requires |fields| <= n <= |values|
    requires ListsShaped(r, values, fields, true, n)
    ensures ListsAfter(r, values[|fields|..n], fields)
  {
    assert Min(n, |fields|) == |fields|;
    assert fields[..|fields|] == fields;
  }

  /** Past the field names, `ListsAfter` of the values beyond them makes the lists shaped. */
  lemma ShapedOfListsAfter(r: Commit, values: seq<string>, fields: seq<string>, n: nat)
    requires |fields| <= n <= |values|
    requires ListsAfter(r, values[|fields|..n], fields)
    ensures ListsShaped(r, values, fields, true, n)
  {
    assert Min(n, |fields|) == |fields|;
    assert fields[..|fields|] == fields;
  }

  /** A value whose list a field replaced is dropped; the other list keeps its values. */
  lemma DroppedAfter(r0: Commit, s0: seq<string>, v: string, fields: seq<string>)
    requires Slot(|s0|) in fields
    requires ListsAfter(r0, s0, fields)
    ensures ListsAfter(r0, s0 + [v], fields)
  {
    EvensOddsSnoc(s0, v);
  }

  /** A value is pushed onto the list its offset selects; the other list keeps its values. */
  lemma PushedAfter(r0: Commit, s0: seq<string>, v: string, fields: seq<string>)
    requires Slot(|s0|) !in fields
    requires ListsAfter(r0, s0, fields)
    ensures var key := Slot(|s0|);
      key in r0 && r0[key].List? && ListsAfter(r0[key := List(r0[key].items + [v])], s0 + [v], fields)
  {
    EvensOddsSnoc(s0, v);
  }

  /** One value past the named fields, stated on the values beyond them. */
  lemma StepAfter(r0: Commit, s0: seq<string>, v: string, fields: seq<string>, index: nat)
    requires index == |fields| + |s0|
    requires ListsAfter(r0, s0, fields)
    requires Slot(|s0|) in fields ==> Slot(|s0|) in r0 && r0[Slot(|s0|)].Str?
    ensures ListsAfter(AssignStep(r0, fields, true, index, v), s0 + [v], fields)
  {
    if Slot(|s0|) in fields {
      DroppedAfter(r0, s0, v, fields);
    } else {
      PushedAfter(r0, s0, v, fields);
    }
  }

  /** A value past the named fields goes to the list its offset selects, or is dropped when a field replaced that list. */
  lemma SlotStepLists(r0: Commit, values: seq<string>, fields: seq<string>, nameStatus: bool, n: nat)
    requires 0 < n <= |values| && n - 1 >= |fields|
    requires FieldsShaped(r0, values, fields, n - 1) && ListsShaped(r0, values, fields, nameStatus, n - 1)
    ensures ListsShaped(AssignStep(r0, fields, nameStatus, n - 1, values[n - 1]), values, fields, nameStatus, n)
  {
    if nameStatus {
      var m := |fields|;
      var s0 := values[m..n - 1];
      assert |s0| == n - 1 - m;
      ListsAfterOfShaped(r0, values, fields, n - 1);
      if Slot(|s0|) in fields {
        ReplacedList(r0, values, fields, n - 1, Slot(|s0|));
      }
      StepAfter(r0, s0, values[n - 1], fields, n - 1);
      SliceSnoc(values, m, n);
      ShapedOfListsAfter(AssignStep(r0, fields, true, n - 1, values[n - 1]), values, fields, n);
    }
  }

  /** A value at a named position keeps the record shaped. */
  lemma FieldStep(r0: Commit, values: seq<string>, fields: seq<string>, nameStatus: bool, n: nat)
    requires 0 < n <= |values| && n <= |fields|
    requires Shaped(r0, values, fields, nameStatus, n - 1)
    ensures Shaped(AssignStep(r0, fields, nameStatus, n - 1, values[n - 1]), values, fields, nameStatus, n)
  {
    FieldStepKeys(r0, fields, nameStatus, n, values[n - 1]);
    FieldStepFields(r0, values, fields, nameStatus, n);
    FieldStepLists(r0, values, fields, nameStatus, n);
  }

  /** A value past the named positions keeps the record shaped. */
  lemma SlotStep(r0: Commit, values: seq<string>, fields: seq<string>, nameStatus: bool, n: nat)
    requires 0 < n <= |values| && n - 1 >= |fields|
    requires Shaped(r0, values, fields, nameStatus, n - 1)
    ensures Shaped(AssignStep(r0, fields, nameStatus, n - 1, values[n - 1]), values, fields, nameStatus, n)
  {
    SlotStepKeys(r0, fields, nameStatus, n, values[n - 1]);
    SlotStepFields(r0, values, fields, nameStatus, n);
    SlotStepLists(r0, values, fields, nameStatus, n);
  }

  /** Before any value the record is the initial one. */
  lemma InitialShaped(values: seq<string>, fields: seq<string>, nameStatus: bool)
    ensures Shaped(InitialRecord(nameStatus), values, fields, nameStatus, 0)
  {
    assert FieldKeys(fields, 0) == {};
    assert values[0..0] == [];
  }

  /** One assignment keeps the record shaped. */
  lemma AssignedStep(values: seq<string>, fields: seq<string>, nameStatus: bool, n: nat)
    requires 0 < n <= |values|
    requires Shaped(Assigned(values, fields, nameStatus, n - 1), values, fields, nameStatus, n - 1)
    ensures Shaped(Assigned(values, fields, nameStatus, n), values, fields, nameStatus, n)
  {
    var r0 := Assigned(values, fields, nameStatus, n - 1);
    if n - 1 < |fields| {
      FieldStep(r0, values, fields, nameStatus, n);
    } else {
      SlotStep(r0, values, fields, nameStatus, n);
    }
  }

  lemma {:induction false} AssignedShape(values: seq<string>, fields: seq<string>, nameStatus: bool, n: nat)
    requires n <= |values|
    ensures Shaped(Assigned(values, fields, nameStatus, n), values, fields, nameStatus, n)
  {
    if n == 0 {
      InitialShaped(values, fields, nameStatus);
    } else {
      AssignedShape(values, fields, nameStatus, n - 1);
      AssignedStep(values, fields, nameStatus, n);
    }
  }

  /** `src/index.js` throws exactly when a name-status value must be pushed onto a field that replaced its list. */
  predicate JsCrashes(fields: seq<string>, nameStatus: bool, n: nat) {
    nameStatus && ((n > |fields| && "status" in fields) || (n > |fields| + 1 && "files" in fields))
  }

  /** Past the named fields, the list a value goes to is still an array exactly when no field of that name replaced it. */
  lemma SlotIsList(values: seq<string>, fields: seq<string>, n: nat)
    requires |fields| <= n < |values|
    ensures var r0 := Assigned(values, fields, true, n);
      var key := Slot(n - |fields|);
      (key in r0 && r0[key].List?) <==> key !in fields
  {
    AssignedShape(values, fields, true, n);
    var r0 := Assigned(values, fields, true, n);
    var key := Slot(n - |fields|);
    assert Min(n, |fields|) == |fields|;
    assert fields[..|fields|] == fields;
    if key in fields {
      var i := LastOccurrence(fields, |fields|, key);
      assert r0[key].Str?;
    }
  }

  /** The two assignment loops agree, except that src/index.js throws where src/index.ts skips a replaced list. */
  lemma {:induction false} JsAssignedAgrees(values: seq<string>, fields: seq<string>, nameStatus: bool, n: nat)
    requires n <= |values|
    ensures JsAssigned(values, fields, nameStatus, n)
      == if JsCrashes(fields, nameStatus, n) then Err(PushError) else Ok(Assigned(values, fields, nameStatus, n))
  {
    if n > 0 {
      JsAssignedAgrees(values, fields, nameStatus, n - 1);
      if !JsCrashes(fields, nameStatus, n - 1) && n - 1 >= |fields| && nameStatus {
        SlotIsList(values, fields, n - 1);
      }
    }
  }

  // ---------------------------------------------------------------------------
  // One raw commit

  /** The tab-separated values before `@end@`, without the one before the first tab. */
  function FixedValues(rawCommit: string): seq<string> {
    Split(Split(rawCommit, EndMarker)[0], Delimiter)[1..]
  }

  /** The split lines of the name-status block, when there is a non-empty text after `@end@`. */
  function BlockItems(rawCommit: string): (items: seq<seq<string>>)
    ensures NonEmptyItems(items)
  {
    var parts := Split(rawCommit, EndMarker);
    if |parts| > 1 && parts[1] != "" then SplitItems(NameStatusLines(parts[1])) else []
  }

  /** A block whose trimmed lines end in one empty line yields the lines before it. */
  lemma NameStatusLinesDropEmpty(block: string, lines: seq<string>)
    requires Split(TrimLeft(block), "\n") == lines + [""]
    ensures NameStatusLines(block) == lines
  {
    var split := lines + [""];
    assert split[..|split| - 1] == lines;
  }

  /** The shift after the concatenation takes the first value of the fixed part. */
  lemma ShiftAfterConcat(head: seq<string>, tail: seq<string>)
    requires |head| >= 1
    ensures (head + tail)[1..] == head[1..] + tail
  {
  }

  /** What follows the fixed part of a concatenation is the rest. */
  lemma SuffixAfterConcat(fixed: seq<string>, rest: seq<string>)
    ensures (fixed + rest)[|fixed|..|fixed + rest|] == rest
  {
  }

  /** The flat value list is the fixed values followed by the expanded block lines. */
  lemma FlatValuesLayout(rawCommit: string)
    ensures FlatValues(rawCommit) == FixedValues(rawCommit) + ExpandItems(BlockItems(rawCommit))
  {
    var parts := Split(rawCommit, EndMarker);
    var head := Split(parts[0], Delimiter);
    var tail := if |parts| > 1 && parts[1] != "" then NameStatusValues(parts[1]) else [];
    assert ExpandItems(BlockItems(rawCommit)) == tail by {
      if |parts| > 1 && parts[1] != "" {
        assert BlockItems(rawCommit) == SplitItems(NameStatusLines(parts[1]));
      } else {
        assert BlockItems(rawCommit) == [];
      }
    }
    ShiftAfterConcat(head, tail);
  }

  /**
   * When the fixed portion holds one value per requested field, the record maps each field
   * to its value, and `status` / `files` exist exactly when name-status was requested and
   * hold the decoded block's statuses and paths, which have equal length.
   */
  lemma ParseCommitZip(rawCommit: string, fields: seq<string>, nameStatus: bool)
    requires |FixedValues(rawCommit)| == |fields|
    requires "status" !in fields && "files" !in fields
    ensures var r := ParseCommit(rawCommit, fields, nameStatus);
      var fixed := FixedValues(rawCommit);
      var items := BlockItems(rawCommit);
      && r.Keys == (set f | f in fields) + (if nameStatus then NameStatusFields else {})
      && (forall i :: 0 <= i < |fields| && LastAt(fields, i, |fields|) ==> r[fields[i]] == Str(fixed[i]))
      && (nameStatus ==> r["status"] == List(Statuses(items)) && r["files"] == List(Files(items)))
      && |Statuses(items)| == |Files(items)|
  {
    var values := FlatValues(rawCommit);
    var fixed := FixedValues(rawCommit);
    var items := BlockItems(rawCommit);
    var r := ParseCommit(rawCommit, fields, nameStatus);
    var m := |fields|;
    FlatValuesLayout(rawCommit);
    assert values == fixed + ExpandItems(items);
    assert Min(|values|, m) == m;
    AssignedShape(values, fields, nameStatus, |values|);
    assert r == Assigned(values, fields, nameStatus, |values|);
    ExpandItemsAlternate(items);
    SuffixAfterConcat(fixed, ExpandItems(items));
    assert fields[..m] == fields;
    assert KeysShaped(r, fields, nameStatus, |values|);
    AllFieldKeys(fields);
    assert InitialRecord(nameStatus).Keys == if nameStatus then NameStatusFields else {};
    assert FieldsShaped(r, values, fields, |values|);
    forall i | 0 <= i < m && LastAt(fields, i, m) ensures r[fields[i]] == Str(fixed[i]) {
      assert values[i] == fixed[i];
    }
    assert ListsShaped(r, values, fields, nameStatus, |values|);
  }
}
