/** What the column manager of qbank_columnsortorder computes, as functions of
    its two position maps and of the stored settings, together with the
    properties of those functions. The class in column_manager.dfy is proved
    to compute exactly these functions. */
module ColumnOrder {
  import opened PhpStrings
  import opened PhpArrays

  /** A column identifier (a fully qualified class name) mapped to its position. */
  type Positions = Dict<string, int>

  /** The two settings of the plugin that hold the enabled and disabled columns. */
  const EnabledSetting: string := "columnsortorderenabled"
  const DisabledSetting: string := "columnsortorderdisabled"

  /** Identifiers containing this text name custom-field columns. */
  const CustomFieldColumn: string := "qbank_customfields\\custom_field_column"

  /** The key that sort_columns always moves to the front. */
  const CheckboxColumn: string := "checkbox_column"

  /** The internal name of the checkbox column, which get_columns leaves out. */
  const CheckboxName: string := "checkbox"

  /** The key PHP turns into the integer 0, which get_disabled_columns skips. */
  const ZeroKey: string := "0"

  // ---------------------------------------------------------------------------
  // Loading and saving the settings

  /** array_flip(explode(',', $stored)): each stored identifier mapped to its index. */
  function Parse(stored: string): Positions
  {
    FlipList(Explode(',', stored))
  }

  /** implode(',', array_flip($m)): one identifier per position, in the order
      in which the positions first occur among the keys. */
  function Serialise(m: Positions): string
  {
    Implode(',', ValuesInOrder(Flip(m)))
  }

  /** Loading maps every stored identifier to the index of its LAST occurrence,
      and never yields an empty map. */
  lemma ParseLastIndex(stored: string)
    ensures var parts := Explode(',', stored);
      && (forall i :: 0 <= i < |parts| ==> parts[i] in Parse(stored).values)
      && (forall k :: k in Parse(stored).values ==>
            && 0 <= Parse(stored).values[k] < |parts|
            && parts[Parse(stored).values[k]] == k
            && forall j :: Parse(stored).values[k] < j < |parts| ==> parts[j] != k)
    ensures |Parse(stored).keys| >= 1
  {
    var parts := Explode(',', stored);
    FlipListLastIndex(parts);
    assert parts[0] in Parse(stored).values;
  }

  /** An unset or empty setting loads as the one-entry map "" => 0. */
  lemma ParseEmpty()
    ensures Parse("") == OrderedMap([""], map["" := 0])
  {
  }

  /** What set_column_order stores reads back as each given identifier mapped to
      its index, provided the identifiers are distinct, comma-free and there is
      at least one. */
  lemma {:induction false} StoredOrderReadsBack(columns: seq<string>)
    requires |columns| >= 1 && Distinct(columns)
    requires forall i :: 0 <= i < |columns| ==> ',' !in columns[i]
    ensures Parse(Implode(',', columns)).keys == columns
    ensures forall i :: 0 <= i < |columns| ==> Parse(Implode(',', columns)).values[columns[i]] == i
  {
    ExplodeImplode(',', columns);
    FlipListDistinct(columns);
  }

  /** Saving what was loaded writes back the very same string when the stored
      identifiers are distinct. */
  lemma SerialiseParse(stored: string)
    requires Distinct(Explode(',', stored))
    ensures Serialise(Parse(stored)) == stored
  {
    FlipRestoresList(Explode(',', stored));
    ImplodeExplode(',', stored);
  }

  /** array_flip twice over a list without repetitions gives the list back. */
  lemma FlipRestoresList(parts: seq<string>)
    requires Distinct(parts)
    ensures ValuesInOrder(Flip(FlipList(parts))) == parts
  {
    FlipFlipList(parts);
    var f := Flip(FlipList(parts));
    var written := ValuesInOrder(f);
    assert |written| == |parts|;
    forall i | 0 <= i < |parts| ensures written[i] == parts[i] {
      assert f.keys[i] == i;
      assert written[i] == f.values[f.keys[i]];
    }
    assert written == parts;
  }

  /** update_config writes one identifier per distinct position: every
      identifier written is one of the map's, every position is represented,
      and no position twice. */
  lemma SerialiseOnePerPosition(m: Positions)
    ensures var written := ValuesInOrder(Flip(m));
      && (forall i :: 0 <= i < |written| ==> written[i] in m.values)
      && (forall i, j :: 0 <= i < j < |written| ==> m.values[written[i]] != m.values[written[j]])
      && (forall k :: k in m.values ==> exists i :: 0 <= i < |written| && m.values[written[i]] == m.values[k])
  {
    var f := Flip(m);
    var written := ValuesInOrder(f);
    forall i | 0 <= i < |written| ensures written[i] in m.values && m.values[written[i]] == f.keys[i] {
      WrittenAt(m, i);
    }
    forall i, j | 0 <= i < j < |written| ensures m.values[written[i]] != m.values[written[j]] {
      WrittenAt(m, i);
      WrittenAt(m, j);
    }
    forall k | k in m.values ensures exists i :: 0 <= i < |written| && m.values[written[i]] == m.values[k] {
      var i := PositionWritten(m, k);
      WrittenAt(m, i);
    }
  }

  /** Of two identifiers sharing a position, the one enumerated earlier is not
      written: array_flip overwrote it with the later one. */
  lemma SerialiseDropsEarlier(m: Positions, i: int, j: int)
    requires 0 <= i < j < |m.keys| && m.values[m.keys[i]] == m.values[m.keys[j]]
    ensures m.keys[i] !in ValuesInOrder(Flip(m))
  {
    var written := ValuesInOrder(Flip(m));
    FlipPositionsLaterWins(m.keys, m.values);
    if m.keys[i] in written {
      var t :| 0 <= t < |written| && written[t] == m.keys[i];
      WrittenAt(m, t);
    }
  }

  /** The identifier written at index `i` holds the position array_flip put there. */
  lemma WrittenAt(m: Positions, i: int)
    requires 0 <= i < |Flip(m).keys|
    ensures ValuesInOrder(Flip(m))[i] in m.values
    ensures m.values[ValuesInOrder(Flip(m))[i]] == Flip(m).keys[i]
  {
    var f := Flip(m);
    FlipPositionsLaterWins(m.keys, m.values);
    var p := f.keys[i];
    assert p in f.values;
    assert ValuesInOrder(f)[i] == f.values[p];
    assert f.values[p] in m.keys;
  }

  /** The index at which the position of `k` is written. */
  lemma PositionWritten(m: Positions, k: string) returns (i: int)
    requires k in m.values
    ensures 0 <= i < |Flip(m).keys| && Flip(m).keys[i] == m.values[k]
  {
    var f := Flip(m);
    FlipPositionsLaterWins(m.keys, m.values);
    var t :| 0 <= t < |m.keys| && m.keys[t] == k;
    assert m.values[k] in f.values;
    i :| 0 <= i < |f.keys| && f.keys[i] == m.values[k];
  }

  /** update_config: each map is written only when it is not empty. */
  function Persisted(settings: map<string, string>, enabled: Positions, disabled: Positions): map<string, string>
  {
    var withEnabled := if |enabled.keys| > 0 then settings[EnabledSetting := Serialise(enabled)] else settings;
    if |disabled.keys| > 0 then withEnabled[DisabledSetting := Serialise(disabled)] else withEnabled
  }

  /** Only the two column settings can change, and an empty map leaves its
      setting exactly as it was. */
  lemma PersistedWrites(settings: map<string, string>, enabled: Positions, disabled: Positions)
    ensures var r := Persisted(settings, enabled, disabled);
      && (forall name :: name != EnabledSetting && name != DisabledSetting ==>
            (name in r <==> name in settings) && (name in r ==> r[name] == settings[name]))
      && (|enabled.keys| > 0 ==> EnabledSetting in r && r[EnabledSetting] == Serialise(enabled))
      && (|enabled.keys| == 0 ==>
            (EnabledSetting in r <==> EnabledSetting in settings)
            && (EnabledSetting in r ==> r[EnabledSetting] == settings[EnabledSetting]))
      && (|disabled.keys| > 0 ==> DisabledSetting in r && r[DisabledSetting] == Serialise(disabled))
      && (|disabled.keys| == 0 ==>
            (DisabledSetting in r <==> DisabledSetting in settings)
            && (DisabledSetting in r ==> r[DisabledSetting] == settings[DisabledSetting]))
  {
  }

  // ---------------------------------------------------------------------------
  // Removing, enabling and disabling the columns of a plugin

  /** The enabled and the disabled columns, as a pair of position maps. */
  datatype ColumnSets = ColumnSets(enabled: Positions, disabled: Positions)

  /** No identifier is both enabled and disabled. */
  predicate Disjoint(sets: ColumnSets)
  {
    sets.enabled.values.Keys !! sets.disabled.values.Keys
  }

  /** The identifiers among `keys` for which strpos($key, $plugin) !== false. */
  function Matching(keys: seq<string>, plugin: string): set<string>
  {
    set k | k in keys && Contains(k, plugin)
  }

  /** Scanning one more identifier adds it to the matches exactly when it
      contains the plugin name. */
  lemma MatchingSnoc(keys: seq<string>, i: int, plugin: string)
    requires 0 <= i < |keys|
    ensures Matching(keys[..i + 1], plugin) ==
      if Contains(keys[i], plugin) then Matching(keys[..i], plugin) + {keys[i]} else Matching(keys[..i], plugin)
  {
    assert keys[..i + 1] == keys[..i] + [keys[i]];
  }

  /** One step of the loop of enablecolumns and disablecolumns: a matching
      identifier is assigned into the target and unset from the source, any
      other is passed over. */
  lemma MoveStep(source: Positions, target: Positions, plugin: string, i: int, gone: set<string>, picked: seq<string>)
    requires 0 <= i < |source.keys|
    requires gone == Matching(source.keys[..i], plugin)
    requires picked == Keep(source.keys[..i], Matching(source.keys, plugin))
    ensures var key, keys := source.keys[i], source.keys;
      var moved := Matching(keys, plugin);
      if Contains(key, plugin) then
        && Matching(keys[..i + 1], plugin) == gone + {key}
        && Keep(keys[..i + 1], moved) == picked + [key]
        && PutAll(target, picked + [key], source.values) == Put(PutAll(target, picked, source.values), key, source.values[key])
        && Without(source, gone + {key}) == Unset(Without(source, gone), key)
      else
        && Matching(keys[..i + 1], plugin) == gone
        && Keep(keys[..i + 1], moved) == picked
  {
    var keys, key := source.keys, source.keys[i];
    var moved := Matching(keys, plugin);
    MatchingSnoc(keys, i, plugin);
    KeepSnoc(keys, i, moved);
    assert key in moved <==> Contains(key, plugin);
    if Contains(key, plugin) {
      PutAllSnoc(target, picked, key, source.values);
      WithoutWithout(source, gone, {key});
    }
  }

  /** The maps remove_unused_column_from_db hands to update_config. */
  function AfterRemove(sets: ColumnSets, plugin: string): ColumnSets
  {
    var gone := Matching(sets.disabled.keys, plugin);
    ColumnSets(Without(sets.enabled, gone), Without(sets.disabled, gone))
  }

  /** The maps enablecolumns hands to update_config. */
  function AfterEnable(sets: ColumnSets, plugin: string): ColumnSets
  {
    var moved := Matching(sets.disabled.keys, plugin);
    ColumnSets(PutAll(sets.enabled, Keep(sets.disabled.keys, moved), sets.disabled.values),
               Without(sets.disabled, moved))
  }

  /** The maps disablecolumns hands to update_config. */
  function AfterDisable(sets: ColumnSets, plugin: string): ColumnSets
  {
    var moved := Matching(sets.enabled.keys, plugin);
    ColumnSets(Without(sets.enabled, moved),
               PutAll(sets.disabled, Keep(sets.enabled.keys, moved), sets.enabled.values))
  }

  /** remove_unused_column_from_db deletes, from both maps, exactly the disabled
      identifiers that contain the plugin name; an enabled identifier that
      matches but is not disabled stays, and every survivor keeps its position
      and its place in the order. */
  lemma RemoveDeletesMatchingDisabled(sets: ColumnSets, plugin: string)
    ensures var r := AfterRemove(sets, plugin);
      && (forall k :: k in r.disabled.values <==> k in sets.disabled.values && !Contains(k, plugin))
      && (forall k :: k in r.enabled.values <==>
            k in sets.enabled.values && !(k in sets.disabled.values && Contains(k, plugin)))
      && (forall k :: k in r.enabled.values ==> r.enabled.values[k] == sets.enabled.values[k])
      && (forall k :: k in r.disabled.values ==> r.disabled.values[k] == sets.disabled.values[k])
      && r.enabled.keys == Omit(sets.enabled.keys, Matching(sets.disabled.keys, plugin))
      && r.disabled.keys == Omit(sets.disabled.keys, Matching(sets.disabled.keys, plugin))
      && (Disjoint(sets) ==> Disjoint(r))
  {
  }

  /** enablecolumns moves every disabled identifier containing the plugin name
      to the enabled map at its disabled position (appended after the enabled
      identifiers, in disabled order, unless already enabled) and leaves every
      other entry as it was; disjoint maps stay disjoint. */
  lemma EnableMovesMatching(sets: ColumnSets, plugin: string)
    ensures var r := AfterEnable(sets, plugin);
      var moved := Matching(sets.disabled.keys, plugin);
      && (forall k :: k in r.enabled.values <==> k in sets.enabled.values || k in moved)
      && (forall k :: k in moved ==> r.enabled.values[k] == sets.disabled.values[k])
      && (forall k :: k in sets.enabled.values && k !in moved ==> r.enabled.values[k] == sets.enabled.values[k])
      && r.enabled.keys == sets.enabled.keys + Omit(Keep(sets.disabled.keys, moved), sets.enabled.values.Keys)
      && (forall k :: k in r.disabled.values <==> k in sets.disabled.values && !Contains(k, plugin))
      && (forall k :: k in r.disabled.values ==> r.disabled.values[k] == sets.disabled.values[k])
      && r.disabled.keys == Omit(sets.disabled.keys, moved)
      && (Disjoint(sets) ==> Disjoint(r))
  {
    MovedIntoTarget(sets.disabled, sets.enabled, plugin);
    MovedOutOfSource(sets.disabled, plugin);
  }

  /** disablecolumns is the mirror image: every enabled identifier containing
      the plugin name moves to the disabled map at its enabled position. */
  lemma DisableMovesMatching(sets: ColumnSets, plugin: string)
    ensures var r := AfterDisable(sets, plugin);
      var moved := Matching(sets.enabled.keys, plugin);
      && (forall k :: k in r.disabled.values <==> k in sets.disabled.values || k in moved)
      && (forall k :: k in moved ==> r.disabled.values[k] == sets.enabled.values[k])
      && (forall k :: k in sets.disabled.values && k !in moved ==> r.disabled.values[k] == sets.disabled.values[k])
      && r.disabled.keys == sets.disabled.keys + Omit(Keep(sets.enabled.keys, moved), sets.disabled.values.Keys)
      && (forall k :: k in r.enabled.values <==> k in sets.enabled.values && !Contains(k, plugin))
      && (forall k :: k in r.enabled.values ==> r.enabled.values[k] == sets.enabled.values[k])
      && r.enabled.keys == Omit(sets.enabled.keys, moved)
      && (Disjoint(sets) ==> Disjoint(r))
  {
    MovedIntoTarget(sets.enabled, sets.disabled, plugin);
    MovedOutOfSource(sets.enabled, plugin);
  }

  /** The target of a move gains the matching identifiers of the source, with
      their source positions, appended in source order unless already there. */
  lemma MovedIntoTarget(source: Positions, target: Positions, plugin: string)
    ensures var moved := Matching(source.keys, plugin);
      var r := PutAll(target, Keep(source.keys, moved), source.values);
      && (forall k :: k in r.values <==> k in target.values || k in moved)
      && (forall k :: k in moved ==> r.values[k] == source.values[k])
      && (forall k :: k in target.values && k !in moved ==> r.values[k] == target.values[k])
      && r.keys == target.keys + Omit(Keep(source.keys, moved), target.values.Keys)
  {
    var moved := Matching(source.keys, plugin);
    var ks := Keep(source.keys, moved);
    PutAllKeys(target, ks, source.values);
    PutAllEntries(target, ks, source.values);
  }

  /** The source of a move loses exactly its matching identifiers. */
  lemma MovedOutOfSource(source: Positions, plugin: string)
    ensures var r := Without(source, Matching(source.keys, plugin));
      && (forall k :: k in r.values <==> k in source.values && !Contains(k, plugin))
      && (forall k :: k in r.values ==> r.values[k] == source.values[k])
      && r.keys == Omit(source.keys, Matching(source.keys, plugin))
  {
  }

  /** Positions of the two maps are indices into two different lists, so they
      collide: enabling a column whose disabled position is already held by an
      enabled column writes only one of the two back, and the enabled column
      that was there first is gone from the saved setting. */
  lemma EnableThenSaveCanDropColumn(kept: string, moved: string, plugin: string)
    requires kept != moved && Contains(moved, plugin)
    ensures var after := AfterEnable(ColumnSets(Single(kept, 0), Single(moved, 0)), plugin);
      && kept in after.enabled.values && moved in after.enabled.values
      && Serialise(after.enabled) == moved
  {
    EnableSingleColumn(kept, moved, plugin);
    SerialiseSamePosition(kept, moved);
  }

  /** Two columns at the same position are saved as the later one alone. */
  lemma SerialiseSamePosition(kept: string, moved: string)
    requires kept != moved
    ensures Serialise(Put(Single(kept, 0), moved, 0)) == moved
  {
    FlipSamePosition(kept, moved, 0);
    assert ValuesInOrder(Single(0, moved)) == [moved];
  }

  /** Enabling the one disabled column of a plugin next to one enabled column
      puts it after that column, at its disabled position. */
  lemma EnableSingleColumn(kept: string, moved: string, plugin: string)
    requires kept != moved && Contains(moved, plugin)
    ensures AfterEnable(ColumnSets(Single(kept, 0), Single(moved, 0)), plugin).enabled
      == Put(Single(kept, 0), moved, 0)
  {
    assert Matching([moved], plugin) == {moved};
    assert Keep([moved], {moved}) == [moved] by {
      assert [moved][..0] == [];
    }
    PutAllSnoc(Single(kept, 0), [], moved, Single(moved, 0).values);
  }

  // ---------------------------------------------------------------------------
  // Sorting the columns of the question bank view

  /** The name sort_columns files a persisted identifier under: a custom-field
      identifier loses its first segment only, any other keeps its last segment. */
  function ShortName(classname: string): string
  {
    if Contains(classname, CustomFieldColumn) then DropFirstSegment(classname) else LastSegment(classname)
  }

  lemma CustomFieldHasBackslash(classname: string)
    requires Contains(classname, CustomFieldColumn)
    ensures Backslash in classname
  {
    ContainsIff(classname, CustomFieldColumn);
    var i :| OccursAt(classname, CustomFieldColumn, i);
    assert classname[i + 18] == CustomFieldColumn[18];
  }

  /** A custom-field identifier is its first segment, a backslash, and its short
      name; any other identifier's short name is its backslash-free last segment. */
  lemma ShortNameShape(classname: string)
    ensures Contains(classname, CustomFieldColumn) ==>
      && Backslash !in FirstSegment(classname)
      && classname == FirstSegment(classname) + [Backslash] + ShortName(classname)
    ensures !Contains(classname, CustomFieldColumn) ==>
      var n := ShortName(classname);
      && Backslash !in n
      && |n| <= |classname| && classname[|classname| - |n|..] == n
      && (|n| == |classname| || classname[|classname| - |n| - 1] == Backslash)
  {
    if Contains(classname, CustomFieldColumn) {
      CustomFieldHasBackslash(classname);
      DropFirstSegmentSplits(classname);
    } else {
      LastSegmentIsSuffix(classname);
    }
  }

  /** The short names of `ks`, in order. */
  function ShortNames(ks: seq<string>): seq<string>
  {
    seq(|ks|, i requires 0 <= i < |ks| => ShortName(ks[i]))
  }

  /** The positions of `ks`, in order. */
  function PositionsOf(ks: seq<string>, pos: map<string, int>): seq<int>
    requires forall k :: k in ks ==> k in pos
  {
    seq(|ks|, i requires 0 <= i < |ks| => pos[ks[i]])
  }

  /** The foreach of sort_columns: each persisted identifier, in the given order,
      assigned its position under its short name. */
  function Renamed(ks: seq<string>, pos: map<string, int>): Positions
    requires forall k :: k in ks ==> k in pos
  {
    AssignAll(ShortNames(ks), PositionsOf(ks, pos))
  }

  /** The foreach of sort_columns, one identifier further. */
  lemma RenamedSnoc(ks: seq<string>, i: int, pos: map<string, int>)
    requires 0 <= i < |ks| && forall k :: k in ks ==> k in pos
    ensures Renamed(ks[..i + 1], pos) == Put(Renamed(ks[..i], pos), ShortName(ks[i]), pos[ks[i]])
  {
    var names, vals := ShortNames(ks[..i + 1]), PositionsOf(ks[..i + 1], pos);
    assert names[..i] == ShortNames(ks[..i]);
    assert vals[..i] == PositionsOf(ks[..i], pos);
    assert names[i] == ShortName(ks[i]) && vals[i] == pos[ks[i]];
  }

  /** Every identifier's short name becomes a key, and nothing else does,
      whether or not short names collide; short names that do not collide come
      out in the given order, each with the position of the identifier it came
      from. */
  lemma RenamedShape(ks: seq<string>, pos: map<string, int>)
    requires forall k :: k in ks ==> k in pos
    ensures forall n :: n in Renamed(ks, pos).values ==> n in ShortNames(ks)
    ensures forall i :: 0 <= i < |ks| ==> ShortNames(ks)[i] in Renamed(ks, pos).values
    ensures Distinct(ShortNames(ks)) ==>
      && Renamed(ks, pos).keys == ShortNames(ks)
      && forall i :: 0 <= i < |ks| ==> Renamed(ks, pos).values[ShortNames(ks)[i]] == pos[ks[i]]
  {
    AssignAllKeys(ShortNames(ks), PositionsOf(ks, pos));
    if Distinct(ShortNames(ks)) {
      AssignAllDistinct(ShortNames(ks), PositionsOf(ks, pos));
    }
  }

  /** Moving checkbox_column to the front: array_merge of the one-entry map
      with what remains after unsetting it. */
  function CheckboxFirst(m: Positions): Positions
  {
    if CheckboxColumn in m.values then
      Merge(Single(CheckboxColumn, m.values[CheckboxColumn]), Unset(m, CheckboxColumn))
    else m
  }

  /** checkbox_column, when present, becomes the first key with its value kept;
      every other key keeps its value and its relative order. */
  lemma CheckboxFirstShape(m: Positions)
    ensures CheckboxFirst(m).values == m.values
    ensures CheckboxColumn in m.values ==>
      CheckboxFirst(m).keys == [CheckboxColumn] + Omit(m.keys, {CheckboxColumn})
    ensures CheckboxColumn !in m.values ==> CheckboxFirst(m).keys == m.keys
    ensures Omit(CheckboxFirst(m).keys, {CheckboxColumn}) == Omit(m.keys, {CheckboxColumn})
  {
    if CheckboxColumn in m.values {
      MergeToFrontKeys(m, CheckboxColumn);
      MergeToFrontValues(m, CheckboxColumn);
      var drop := {CheckboxColumn};
      OmitAppend([CheckboxColumn], Omit(m.keys, drop), drop);
      OmitOmit(m.keys, drop, drop);
      assert drop + drop == drop;
      assert Omit([CheckboxColumn], drop) == [];
    }
  }

  /** sort_columns: with no stored order, the argument unchanged; otherwise the
      stored identifiers by ascending position under their short names, merged
      with the argument, with checkbox_column moved to the front. */
  function SortedColumns(order: Positions, live: Positions): Positions
  {
    if |order.keys| == 0 then live
    else CheckboxFirst(Merge(Renamed(ASort(order).keys, order.values), live))
  }

  /** With no stored order sort_columns returns its argument unchanged; a
      loaded order is never empty, so a manager that loaded its settings always
      sorts. */
  lemma SortColumnsWithoutOrder(live: Positions, stored: string)
    ensures SortedColumns(Empty(), live) == live
    ensures |Parse(stored).keys| > 0
  {
    ParseLastIndex(stored);
  }

  /** Stored identifiers whose short names do not collide still have distinct
      short names once sorted. */
  lemma SortedNamesDistinct(order: Positions)
    requires forall a, b :: a in order.values && b in order.values && a != b ==> ShortName(a) != ShortName(b)
    ensures Distinct(ShortNames(SortKeys(order.keys, order.values)))
  {
    var sorted := SortKeys(order.keys, order.values);
    DistinctByMultiset(order.keys, sorted);
    forall i, j | 0 <= i < j < |sorted| ensures ShortNames(sorted)[i] != ShortNames(sorted)[j] {
      assert sorted[i] in order.keys && sorted[j] in order.keys;
    }
  }

  /** What sort_columns returns for a non-empty stored order holds the short
      names of the stored identifiers and the keys of the argument and nothing
      else, and the argument's positions win on shared keys. */
  lemma SortColumnsValues(order: Positions, live: Positions)
    requires |order.keys| > 0
    ensures var names := ShortNames(SortKeys(order.keys, order.values));
      var r := SortedColumns(order, live);
      && (forall n :: n in r.values ==> n in names || n in live.values)
      && (forall n :: n in names ==> n in r.values)
      && (forall k :: k in live.values ==> k in r.values && r.values[k] == live.values[k])
  {
    var sorted := SortKeys(order.keys, order.values);
    var renamed := Renamed(sorted, order.values);
    RenamedShape(sorted, order.values);
    MergeShape(renamed, live);
    CheckboxFirstShape(Merge(renamed, live));
  }

  /** When short names do not collide, every short name the argument does not
      override holds the stored position of its identifier. */
  lemma SortColumnsStoredPositions(order: Positions, live: Positions)
    requires |order.keys| > 0
    requires forall a, b :: a in order.values && b in order.values && a != b ==> ShortName(a) != ShortName(b)
    ensures var sorted := SortKeys(order.keys, order.values);
      var names := ShortNames(sorted);
      forall i :: 0 <= i < |sorted| && names[i] !in live.values ==>
        names[i] in SortedColumns(order, live).values && SortedColumns(order, live).values[names[i]] == order.values[sorted[i]]
  {
    var sorted := SortKeys(order.keys, order.values);
    var renamed := Renamed(sorted, order.values);
    SortedNamesDistinct(order);
    RenamedShape(sorted, order.values);
    MergeShape(renamed, live);
    CheckboxFirstShape(Merge(renamed, live));
  }

  /** The order of what sort_columns returns for a non-empty stored order whose
      short names do not collide: checkbox_column first when present, then the
      short names of the stored identifiers by ascending stored position (ties
      in stored order), then the argument's other keys in the argument's order. */
  lemma SortColumnsOrder(order: Positions, live: Positions)
    requires |order.keys| > 0
    requires forall a, b :: a in order.values && b in order.values && a != b ==> ShortName(a) != ShortName(b)
    ensures var names := ShortNames(SortKeys(order.keys, order.values));
      var r := SortedColumns(order, live);
      && Omit(r.keys, {CheckboxColumn}) == Omit(names + Omit(live.keys, set n | n in names), {CheckboxColumn})
      && (CheckboxColumn in r.values ==> r.keys[0] == CheckboxColumn)
  {
    var sorted := SortKeys(order.keys, order.values);
    var names := ShortNames(sorted);
    SortedNamesDistinct(order);
    var renamed := Renamed(sorted, order.values);
    RenamedShape(sorted, order.values);
    assert renamed.values.Keys == set n | n in names;
    MergeShape(renamed, live);
    CheckboxFirstShape(Merge(renamed, live));
  }

  /** Two stored columns merged with a view that holds the second and a new
      one: the first stored column comes first, the shared one takes the
      view's position, and the new one is appended. */
  lemma SortColumnsTwoStored(order: Positions, live: Positions)
    requires |order.keys| == 2 && order.keys[0] != order.keys[1]
    requires order.values == map[order.keys[0] := 0, order.keys[1] := 1]
    requires |live.keys| == 2 && live.keys[0] == ShortName(order.keys[1])
    requires live.values == map[live.keys[0] := 0, live.keys[1] := 1]
    requires var names := [ShortName(order.keys[0]), live.keys[0], live.keys[1]];
      && names[0] != names[1] && names[1] != names[2] && names[0] != names[2]
      && CheckboxColumn !in names
    ensures var r := SortedColumns(order, live);
      && r.keys == [ShortName(order.keys[0]), live.keys[0], live.keys[1]]
      && r.values == map[ShortName(order.keys[0]) := 0, live.keys[0] := 0, live.keys[1] := 1]
  {
    var renamed := RenamedTwo(order);
    var name := ShortName(order.keys[0]);
    MergeOverrideAppend(name, live.keys[0], live.keys[1], renamed, live);
    OverrideMiddle(name, live.keys[0], live.keys[1], renamed.values, live.values);
    var merged := Merge(renamed, live);
    assert CheckboxColumn !in merged.values;
    assert SortedColumns(order, live) == CheckboxFirst(merged);
  }

  /** The stored part of SortColumnsTwoStored: sorted by position, then shortened. */
  lemma RenamedTwo(order: Positions) returns (renamed: Positions)
    requires |order.keys| == 2 && order.keys[0] != order.keys[1]
    requires order.values == map[order.keys[0] := 0, order.keys[1] := 1]
    requires ShortName(order.keys[0]) != ShortName(order.keys[1])
    ensures renamed == Renamed(ASort(order).keys, order.values)
    ensures renamed.keys == [ShortName(order.keys[0]), ShortName(order.keys[1])]
    ensures renamed.values == map[ShortName(order.keys[0]) := 0, ShortName(order.keys[1]) := 1]
  {
    var first, second := order.keys[0], order.keys[1];
    assert order.keys == [first, second];
    SortTwo(first, second, order.values);
    assert ASort(order).keys == [first, second];
    NamesAndPositionsOfTwo(first, second, order.values);
    AssignTwo(ShortName(first), ShortName(second), 0, 1);
    renamed := Renamed([first, second], order.values);
  }

  lemma NamesAndPositionsOfTwo(first: string, second: string, pos: map<string, int>)
    requires pos == map[first := 0, second := 1] && first != second
    ensures ShortNames([first, second]) == [ShortName(first), ShortName(second)]
    ensures PositionsOf([first, second], pos) == [0, 1]
  {
  }

  /** Stored qbank_a\\col_x and qbank_b\\col_y merged with col_y => 0, col_z => 1
      give col_x => 0, col_y => 0, col_z => 1, in that order. */
  lemma SortColumnsExample(order: Positions, live: Positions)
    requires order.keys == ["qbank_a" + [Backslash] + "col_x", "qbank_b" + [Backslash] + "col_y"]
    requires order.values == map[order.keys[0] := 0, order.keys[1] := 1]
    requires live.keys == ["col_y", "col_z"] && live.values == map["col_y" := 0, "col_z" := 1]
    ensures SortedColumns(order, live).keys == ["col_x", "col_y", "col_z"]
    ensures SortedColumns(order, live).values == map["col_x" := 0, "col_y" := 0, "col_z" := 1]
  {
    ShorterThanCustomField("qbank_a" + [Backslash] + "col_x");
    ShorterThanCustomField("qbank_b" + [Backslash] + "col_y");
    ShortNameOfPlain("qbank_a", "col_x");
    ShortNameOfPlain("qbank_b", "col_y");
    SortColumnsTwoStored(order, live);
  }

  /** An identifier `plugin\name` that names no custom field is filed under `name`. */
  lemma ShortNameOfPlain(plugin: string, name: string)
    requires Backslash !in name && !Contains(plugin + [Backslash] + name, CustomFieldColumn)
    ensures ShortName(plugin + [Backslash] + name) == name
  {
    LastSegmentOfJoin(plugin, name);
  }

  /** An identifier shorter than the custom-field marker cannot contain it. */
  lemma ShorterThanCustomField(classname: string)
    requires |classname| < |CustomFieldColumn|
    ensures !Contains(classname, CustomFieldColumn)
  {
  }

  /** update_config skips an empty map, so enabling the only disabled column
      leaves the stored disabled setting as it was: the column is then written
      to the enabled setting and still named by the disabled one. */
  lemma EnableLastDisabledStaysStored(settings: map<string, string>, enabled: Positions, column: string, plugin: string)
    requires Contains(column, plugin) && column !in enabled.values
    requires DisabledSetting in settings && settings[DisabledSetting] == column && ',' !in column
    ensures Parse(settings[DisabledSetting]) == Single(column, 0)
    ensures var after := AfterEnable(ColumnSets(enabled, Single(column, 0)), plugin);
      var saved := Persisted(settings, after.enabled, after.disabled);
      && after.disabled.keys == []
      && column in ValuesInOrder(Flip(after.enabled))
      && EnabledSetting in saved && saved[EnabledSetting] == Serialise(after.enabled)
      && DisabledSetting in saved && saved[DisabledSetting] == column
  {
    ParseOne(column);
    var after := EnableOnlyDisabled(enabled, column, plugin);
    PersistedWrites(settings, after.enabled, after.disabled);
    LastKeyWritten(after.enabled);
  }

  /** A setting holding one comma-free identifier loads as that identifier at 0. */
  lemma ParseOne(column: string)
    requires ',' !in column
    ensures Parse(column) == Single(column, 0)
  {
    ExplodeSingle(',', column);
    assert [column][..0] == [];
  }

  /** Enabling the only disabled column appends it to the enabled map at 0
      and empties the disabled map. */
  lemma EnableOnlyDisabled(enabled: Positions, column: string, plugin: string) returns (after: ColumnSets)
    requires Contains(column, plugin) && column !in enabled.values
    ensures after == AfterEnable(ColumnSets(enabled, Single(column, 0)), plugin)
    ensures after.enabled == Put(enabled, column, 0) && after.disabled.keys == []
    ensures after.enabled.keys[|after.enabled.keys| - 1] == column
  {
    var sets := ColumnSets(enabled, Single(column, 0));
    assert Matching([column], plugin) == {column};
    assert Keep([column], {column}) == [column] by {
      assert [column][..0] == [];
    }
    assert Omit([column], {column}) == [] by {
      assert [column][..0] == [];
    }
    PutAllSnoc(enabled, [], column, sets.disabled.values);
    after := AfterEnable(sets, plugin);
  }

  /** The key enumerated last is always written: no later key can take its position. */
  lemma LastKeyWritten(m: Positions)
    requires |m.keys| > 0
    ensures m.keys[|m.keys| - 1] in ValuesInOrder(Flip(m))
  {
    var i := PositionWritten(m, m.keys[|m.keys| - 1]);
    WrittenAt(m, i);
  }

  // ---------------------------------------------------------------------------
  // Listing the enabled and the disabled columns

  /** A column of the question bank view as the view enumerates it. */
  datatype VisibleColumn = VisibleColumn(key: string, name: string, title: string, className: string)

  /** One record of get_columns. */
  datatype ColumnEntry = ColumnEntry(className: string, name: string, colname: string)

  /** get_columns: every visible column but the checkbox, with its class, its
      title and the last segment of its key. */
  function ColumnListing(visible: seq<VisibleColumn>): seq<ColumnEntry>
  {
    if visible == [] then []
    else
      var n := |visible| - 1;
      var c := visible[n];
      ColumnListing(visible[..n]) +
        (if c.name == CheckboxName then [] else [ColumnEntry(c.className, c.title, LastSegment(c.key))])
  }

  /** The listing of consecutive runs of columns is the concatenation of their
      listings, so records come out in the view's order. */
  lemma {:induction false} ColumnListingConcat(a: seq<VisibleColumn>, b: seq<VisibleColumn>)
    ensures ColumnListing(a + b) == ColumnListing(a) + ColumnListing(b)
    decreases |b|
  {
    if b == [] {
      assert a + b == a;
    } else {
      var n := |b| - 1;
      var front, c := b[..n], b[n];
      calc {
        ColumnListing(a + b);
        { SplitLast(b); assert a + b == (a + front) + [c]; }
        ColumnListing((a + front) + [c]);
        { ColumnListingSnoc(a + front, c); }
        ColumnListing(a + front) + ColumnListing([c]);
        { ColumnListingConcat(a, front); }
        ColumnListing(a) + ColumnListing(front) + ColumnListing([c]);
        { ColumnListingSnoc(front, c); SplitLast(b); }
        ColumnListing(a) + ColumnListing(b);
      }
    }
  }

  lemma ColumnListingSnoc(s: seq<VisibleColumn>, c: VisibleColumn)
    ensures ColumnListing(s + [c]) == ColumnListing(s) + ColumnListing([c])
  {
    assert (s + [c])[..|s|] == s;
    assert [c][..0] == [];
  }

  /** A single column yields no record exactly when it is the checkbox, and
      otherwise the record of its class, its title and its short key. */
  lemma ColumnListingOne(c: VisibleColumn)
    ensures c.name == CheckboxName ==> ColumnListing([c]) == []
    ensures c.name != CheckboxName ==> ColumnListing([c]) == [ColumnEntry(c.className, c.title, LastSegment(c.key))]
  {
    assert [c][..0] == [];
  }

  /** One record of get_disabled_columns. */
  datatype DisabledColumn = DisabledColumn(disabledName: string)

  /** The outcome of a listing that may have to instantiate a class that does not exist. */
  datatype Listing<T> = Listed(value: T) | ClassNotFound(className: string)

  /** get_disabled_columns can report `key` without instantiating a missing class. */
  predicate Reportable(key: string, titles: map<string, string>)
  {
    key == ZeroKey || Contains(key, CustomFieldColumn) || key in titles
  }

  /** get_disabled_columns: the key "0" is skipped, a custom-field identifier is
      reported by its last segment, any other by the title of its column
      (looked up in `titles`); an identifier with no column aborts the listing. */
  function DisabledListing(keys: seq<string>, titles: map<string, string>): Listing<seq<DisabledColumn>>
  {
    if keys == [] then Listed([])
    else
      var n := |keys| - 1;
      match DisabledListing(keys[..n], titles)
      case ClassNotFound(missing) => ClassNotFound(missing)
      case Listed(listed) =>
        var key := keys[n];
        if key == ZeroKey then Listed(listed)
        else if Contains(key, CustomFieldColumn) then Listed(listed + [DisabledColumn(LastSegment(key))])
        else if key in titles then Listed(listed + [DisabledColumn(titles[key])])
        else ClassNotFound(key)
  }

  /** The listing succeeds exactly when every identifier can be reported, and
      when it fails it names an identifier that cannot be. */
  lemma {:induction false} DisabledListingOutcome(keys: seq<string>, titles: map<string, string>)
    ensures DisabledListing(keys, titles).Listed? <==> forall k :: k in keys ==> Reportable(k, titles)
    ensures DisabledListing(keys, titles).ClassNotFound? ==>
      DisabledListing(keys, titles).className in keys && !Reportable(DisabledListing(keys, titles).className, titles)
    ensures DisabledListing(keys, titles).ClassNotFound? ==>
      exists j :: 0 <= j < |keys| && keys[j] == DisabledListing(keys, titles).className
        && !Reportable(keys[j], titles) && forall i :: 0 <= i < j ==> Reportable(keys[i], titles)
    decreases |keys|
  {
    if keys != [] {
      var n := |keys| - 1;
      var front, last := keys[..n], keys[n];
      DisabledListingOutcome(front, titles);
      SplitLast(keys);
      assert forall k :: k in keys <==> k in front || k == last;
      if DisabledListing(front, titles).Listed? {
        if !Reportable(last, titles) {
          assert DisabledListing(keys, titles) == ClassNotFound(last);
          assert forall i :: 0 <= i < n ==> keys[i] in front;
        } else {
          assert DisabledListing(keys, titles).Listed?;
        }
      } else {
        assert DisabledListing(keys, titles) == DisabledListing(front, titles);
        var j :| 0 <= j < |front| && front[j] == DisabledListing(front, titles).className
          && !Reportable(front[j], titles) && forall i :: 0 <= i < j ==> Reportable(front[i], titles);
        assert keys[j] == front[j];
        assert forall i :: 0 <= i < j ==> keys[i] == front[i];
      }
    }
  }

  /** `name` is how get_disabled_columns reports `key`: by its last segment for
      a custom field, by the title of its column otherwise. */
  predicate ListedName(key: string, titles: map<string, string>, name: string)
  {
    if Contains(key, CustomFieldColumn) then name == LastSegment(key) else key in titles && name == titles[key]
  }

  /** A successful listing holds one record per identifier other than "0", in
      order: the last segment for a custom field, the column's title otherwise. */
  lemma {:induction false} DisabledListingNames(keys: seq<string>, titles: map<string, string>)
    requires forall k :: k in keys ==> Reportable(k, titles)
    ensures DisabledListing(keys, titles).Listed?
    ensures var listed := DisabledListing(keys, titles).value;
      var shown := Omit(keys, {ZeroKey});
      && |listed| == |shown|
      && forall i :: 0 <= i < |shown| ==> ListedName(shown[i], titles, listed[i].disabledName)
    decreases |keys|
  {
    if keys != [] {
      var n := |keys| - 1;
      var front, last := keys[..n], keys[n];
      assert forall k :: k in front ==> k in keys;
      DisabledListingNames(front, titles);
      SplitLast(keys);
      DisabledListingSnoc(front, last, titles);
      OmitSnoc(front, last, {ZeroKey});
      if last != ZeroKey {
        DisabledListingNamesStep(front, last, titles);
      }
    }
  }

  /** The step of DisabledListingNames for an identifier other than "0". */
  lemma DisabledListingNamesStep(front: seq<string>, last: string, titles: map<string, string>)
    requires last != ZeroKey && DisabledListing(front, titles).Listed?
    requires var before := DisabledListing(front, titles).value;
      var shown := Omit(front, {ZeroKey});
      && |before| == |shown|
      && forall i :: 0 <= i < |shown| ==> ListedName(shown[i], titles, before[i].disabledName)
    requires var before := DisabledListing(front, titles).value;
      && DisabledListing(front + [last], titles).Listed?
      && |DisabledListing(front + [last], titles).value| == |before| + 1
      && DisabledListing(front + [last], titles).value[..|before|] == before
      && ListedName(last, titles, DisabledListing(front + [last], titles).value[|before|].disabledName)
    requires Omit(front + [last], {ZeroKey}) == Omit(front, {ZeroKey}) + [last]
    ensures var listed := DisabledListing(front + [last], titles).value;
      var shown := Omit(front + [last], {ZeroKey});
      && |listed| == |shown|
      && forall i :: 0 <= i < |shown| ==> ListedName(shown[i], titles, listed[i].disabledName)
  {
    var before := DisabledListing(front, titles).value;
    var listed := DisabledListing(front + [last], titles).value;
    var shownBefore := Omit(front, {ZeroKey});
    var shown := Omit(front + [last], {ZeroKey});
    forall i | 0 <= i < |shown| ensures ListedName(shown[i], titles, listed[i].disabledName) {
      if i < |shownBefore| {
        assert shown[i] == shownBefore[i];
        assert listed[i] == before[i];
      }
    }
  }

  /** One more reportable identifier adds at most one record at the end. */
  lemma DisabledListingSnoc(front: seq<string>, last: string, titles: map<string, string>)
    requires DisabledListing(front, titles).Listed? && Reportable(last, titles)
    ensures last == ZeroKey ==> DisabledListing(front + [last], titles) == DisabledListing(front, titles)
    ensures last != ZeroKey ==>
      && DisabledListing(front + [last], titles).Listed?
      && |DisabledListing(front + [last], titles).value| == |DisabledListing(front, titles).value| + 1
      && DisabledListing(front + [last], titles).value[..|DisabledListing(front, titles).value|] == DisabledListing(front, titles).value
      && ListedName(last, titles, DisabledListing(front + [last], titles).value[|DisabledListing(front, titles).value|].disabledName)
  {
    assert (front + [last])[..|front|] == front;
  }

  /** The first identifier that cannot be reported ends the listing: whatever
      follows it, the listing fails naming that identifier. */
  lemma {:induction false} DisabledListingStopsAtFailure(keys: seq<string>, j: int, titles: map<string, string>)
    requires 0 <= j <= |keys|
    requires DisabledListing(keys[..j], titles).ClassNotFound?
    ensures DisabledListing(keys, titles) == DisabledListing(keys[..j], titles)
    decreases |keys| - j
  {
    if j < |keys| {
      assert keys[..j + 1][..j] == keys[..j];
      DisabledListingStopsAtFailure(keys, j + 1, titles);
    } else {
      assert keys[..j] == keys;
    }
  }

  /** A disabled custom-field column is listed under its field's own name,
      the text after its last backslash. */
  lemma CustomFieldListedByName(field: string, titles: map<string, string>)
    requires Backslash !in field
    ensures DisabledListing([CustomFieldColumn + [Backslash] + field], titles) == Listed([DisabledColumn(field)])
  {
    var key := CustomFieldColumn + [Backslash] + field;
    assert key[..|CustomFieldColumn|] == CustomFieldColumn;
    assert Contains(key, CustomFieldColumn);
    assert key != ZeroKey;
    LastSegmentOfJoin(CustomFieldColumn, field);
    assert LastSegment(key) == field;
    assert [] + [DisabledColumn(field)] == [DisabledColumn(field)];
    assert [key][..0] == [];
    assert DisabledListing([key], titles) == Listed([] + [DisabledColumn(LastSegment(key))]);
  }

  /** With no disabled setting stored, listing the disabled columns looks up a
      class named "" and fails unless such a column exists. */
  lemma UnsetDisabledSettingFails(titles: map<string, string>)
    requires "" !in titles
    ensures DisabledListing(Parse("").keys, titles) == ClassNotFound("")
  {
    ParseEmpty();
    assert [""][..0] == [];
  }
}
