/** The column manager of qbank_columnsortorder: it loads the enabled and the
    disabled columns from the plugin settings, lists them, moves the columns
    of a plugin between the two settings, and orders the columns of the
    question bank view. Each method is proved to compute the corresponding
    function of ColumnOrder. */
module ColumnSortOrder {
  import opened PhpStrings
  import opened PhpArrays
  import opened ColumnOrder

  /** The settings of the plugin: setting name => stored text. */
  class ConfigStore {
    var settings: map<string, string>

    constructor(initial: map<string, string>)
      ensures settings == initial
    {
      settings := initial;
    }

    /** get_config: a setting that was never stored reads as "". */
    function Get(name: string): string
      reads this
    {
      if name in settings then settings[name] else ""
    }

    /** set_config. */
    method Set(name: string, value: string)
      modifies this
      ensures settings == old(settings)[name := value]
    {
      settings := settings[name := value];
    }
  }

  class ColumnManager {
    /** Where the two settings live. */
    const store: ConfigStore

    /** The enabled columns as loaded: identifier => position. */
    var columnOrder: Positions

    /** The disabled columns as loaded: identifier => position. */
    var disabledColumns: Positions

    /** Loads both settings; neither map is ever empty, since an unset setting
        loads as "" => 0. */
    constructor(store: ConfigStore)
      ensures this.store == store
      ensures columnOrder == Parse(store.Get(EnabledSetting))
      ensures disabledColumns == Parse(store.Get(DisabledSetting))
      ensures |columnOrder.keys| >= 1 && |disabledColumns.keys| >= 1
    {
      this.store := store;
      columnOrder := Parse(store.Get(EnabledSetting));
      disabledColumns := Parse(store.Get(DisabledSetting));
      ParseLastIndex(store.Get(EnabledSetting));
      ParseLastIndex(store.Get(DisabledSetting));
    }

    /** Stores the given identifiers, comma-separated, as the enabled columns. */
    static method SetColumnOrder(store: ConfigStore, columns: seq<string>)
      modifies store
      ensures store.settings == old(store.settings)[EnabledSetting := Implode(',', columns)]
    {
      store.Set(EnabledSetting, Implode(',', columns));
    }

    /** The visible columns of the question bank view other than the checkbox,
        each as its class, its title and the last segment of its key. */
    method GetColumns(visible: seq<VisibleColumn>) returns (columns: seq<ColumnEntry>)
      ensures columns == ColumnListing(visible)
    {
      columns := [];
      var i := 0;
      while i < |visible|
        invariant 0 <= i <= |visible|
        invariant columns == ColumnListing(visible[..i])
      {
        var column := visible[i];
        assert visible[..i + 1][..i] == visible[..i];
        if column.name != CheckboxName {
          columns := columns + [ColumnEntry(column.className, column.title, LastSegment(column.key))];
        }
        i := i + 1;
      }
      assert visible[..i] == visible;
    }

    /** The names of the disabled columns; `titles` holds the title of each
        column class that exists, and a class missing from it aborts the
        listing. */
    method GetDisabledColumns(titles: map<string, string>) returns (result: Listing<seq<DisabledColumn>>)
      ensures result == DisabledListing(disabledColumns.keys, titles)
    {
      var keys := disabledColumns.keys;
      var disabled := [];
      var i := 0;
      while i < |keys|
        invariant 0 <= i <= |keys|
        invariant DisabledListing(keys[..i], titles) == Listed(disabled)
      {
        var key := keys[i];
        assert keys[..i + 1][..i] == keys[..i];
        if key != ZeroKey {
          if Contains(key, CustomFieldColumn) {
            disabled := disabled + [DisabledColumn(LastSegment(key))];
          } else if key in titles {
            disabled := disabled + [DisabledColumn(titles[key])];
          } else {
            DisabledListingStopsAtFailure(keys, i + 1, titles);
            return ClassNotFound(key);
          }
        }
        i := i + 1;
      }
      assert keys[..i] == keys;
      return Listed(disabled);
    }

    /** Writes each non-empty map back to its setting. */
    method UpdateConfig(enabled: Positions, disabled: Positions)
      modifies store
      ensures store.settings == Persisted(old(store.settings), enabled, disabled)
    {
      if |enabled.keys| > 0 {
        store.Set(EnabledSetting, Serialise(enabled));
      }
      if |disabled.keys| > 0 {
        store.Set(DisabledSetting, Serialise(disabled));
      }
    }

    /** Deletes from both settings every disabled column whose identifier
        contains `plugin`. */
    method RemoveUnusedColumnFromDb(plugin: string)
      modifies store
      ensures var after := AfterRemove(ColumnSets(columnOrder, disabledColumns), plugin);
        store.settings == Persisted(old(store.settings), after.enabled, after.disabled)
      ensures columnOrder == old(columnOrder) && disabledColumns == old(disabledColumns)
    {
      var enabled := columnOrder;
      var disabled := disabledColumns;
      var keys := disabledColumns.keys;
      ghost var gone: set<string> := {};
      assert Matching(keys[..0], plugin) == {};
      WithoutNothing(columnOrder);
      WithoutNothing(disabledColumns);
      var i := 0;
      while i < |keys|
        invariant 0 <= i <= |keys|
        invariant store.settings == old(store.settings)
        invariant gone == Matching(keys[..i], plugin)
        invariant enabled == Without(columnOrder, gone)
        invariant disabled == Without(disabledColumns, gone)
      {
        var key := keys[i];
        MatchingSnoc(keys, i, plugin);
        if Contains(key, plugin) {
          WithoutOneMore(columnOrder, gone, key);
          WithoutOneMore(disabledColumns, gone, key);
          if key in enabled.values {
            enabled := Unset(enabled, key);
          }
          if key in disabled.values {
            disabled := Unset(disabled, key);
          }
          gone := gone + {key};
        }
        i := i + 1;
      }
      assert keys[..i] == keys;
      ghost var after := AfterRemove(ColumnSets(columnOrder, disabledColumns), plugin);
      assert enabled == after.enabled && disabled == after.disabled;
      UpdateConfig(enabled, disabled);
    }

    /** Moves every disabled column whose identifier contains `plugin` to the
        enabled setting, at its disabled position. */
    method EnableColumns(plugin: string)
      modifies store
      ensures var after := AfterEnable(ColumnSets(columnOrder, disabledColumns), plugin);
        store.settings == Persisted(old(store.settings), after.enabled, after.disabled)
      ensures columnOrder == old(columnOrder) && disabledColumns == old(disabledColumns)
    {
      var disabled, enabled := MoveMatching(disabledColumns, columnOrder, plugin);
      UpdateConfig(enabled, disabled);
    }

    /** Moves every enabled column whose identifier contains `plugin` to the
        disabled setting, at its enabled position. */
    method DisableColumns(plugin: string)
      modifies store
      ensures var after := AfterDisable(ColumnSets(columnOrder, disabledColumns), plugin);
        store.settings == Persisted(old(store.settings), after.enabled, after.disabled)
      ensures columnOrder == old(columnOrder) && disabledColumns == old(disabledColumns)
    {
      var enabled, disabled := MoveMatching(columnOrder, disabledColumns, plugin);
      UpdateConfig(enabled, disabled);
    }

    /** The loop shared by enablecolumns and disablecolumns: each column of
        `source` whose identifier contains `plugin` is assigned into `target`
        with its position, in the order of `source`, and unset from `source`. */
    static method MoveMatching(source: Positions, target: Positions, plugin: string)
      returns (rest: Positions, grown: Positions)
      ensures var moved := Matching(source.keys, plugin);
        && rest == Without(source, moved)
        && grown == PutAll(target, Keep(source.keys, moved), source.values)
    {
      rest, grown := source, target;
      var keys := source.keys;
      ghost var moved := Matching(keys, plugin);
      ghost var gone: set<string> := {};
      ghost var picked: seq<string> := [];
      assert Matching(keys[..0], plugin) == {};
      WithoutNothing(source);
      var i := 0;
      while i < |keys|
        invariant 0 <= i <= |keys|
        invariant gone == Matching(keys[..i], plugin)
        invariant picked == Keep(keys[..i], moved)
        invariant forall k :: k in picked ==> k in source.values
        invariant grown == PutAll(target, picked, source.values)
        invariant rest == Without(source, gone)
      {
        var key := keys[i];
        assert key in source.values;
        MoveStep(source, target, plugin, i, gone, picked);
        if Contains(key, plugin) {
          grown := Put(grown, key, source.values[key]);
          rest := Unset(rest, key);
          gone := gone + {key};
          picked := picked + [key];
        }
        i := i + 1;
      }
      assert keys[..i] == keys;
    }

    /** Orders the columns of the view by the stored enabled order: see
        SortedColumns, and the lemmas SortColumnsValues, SortColumnsOrder and
        SortColumnsStoredPositions for what that order is. */
    method SortColumns(orderToSort: Positions) returns (properOrder: Positions)
      ensures properOrder == SortedColumns(columnOrder, orderToSort)
    {
      if |columnOrder.keys| == 0 {
        return orderToSort;
      }
      var sorted := ASort(columnOrder);
      var renamed := RenameColumns(sorted);
      properOrder := Merge(renamed, orderToSort);
      if CheckboxColumn in properOrder.values {
        var first := properOrder.values[CheckboxColumn];
        var rest := Unset(properOrder, CheckboxColumn);
        properOrder := Merge(Single(CheckboxColumn, first), rest);
      }
    }

    /** The foreach of sort_columns: each persisted identifier, in the sorted
        order, assigned its position under its short name. */
    static method RenameColumns(sorted: Positions) returns (renamed: Positions)
      ensures renamed == Renamed(sorted.keys, sorted.values)
    {
      renamed := Empty();
      var i := 0;
      while i < |sorted.keys|
        invariant 0 <= i <= |sorted.keys|
        invariant renamed == Renamed(sorted.keys[..i], sorted.values)
      {
        var classname := sorted.keys[i];
        var position := sorted.values[classname];
        RenamedSnoc(sorted.keys, i, sorted.values);
        if Contains(classname, CustomFieldColumn) {
          renamed := Put(renamed, DropFirstSegment(classname), position);
        } else {
          renamed := Put(renamed, LastSegment(classname), position);
        }
        i := i + 1;
      }
      assert sorted.keys[..i] == sorted.keys;
    }
  }
}
