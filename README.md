# Column sort order manager of the question bank (qbank_columnsortorder)

This project is a Dafny model of `column_manager`, the class that keeps the
column order of the question bank view. It holds two position maps, both
loaded from plugin settings:

- `columnorder` for the enabled columns;
- `disabledcolumns` for the disabled ones.

Each map sends a fully qualified column class name to an integer position.
The model covers how the class:

- loads the two maps from comma-separated settings and saves them back;
- moves, or deletes, the columns of one plugin between the two maps;
- lists the visible and the disabled columns;
- merges the stored order with the live order of the view and puts
  `checkbox_column` first.

Files:

- `php_strings.dfy` (module `PhpStrings`): the string built-ins the class
  uses. These are `explode`, `implode`, `strpos` used as a containment test,
  and the two ways a class name is shortened.
- `php_arrays.dfy` (module `PhpArrays`): PHP arrays as insertion-ordered
  dictionaries (`OrderedMap`, restricted to valid ones by `Dict`). It also
  defines the array built-ins the class calls: keyed assignment, `unset`,
  `array_merge`, `array_flip` and `asort`.
- `column_order.dfy` (module `ColumnOrder`): what each operation computes,
  as functions of the maps and the settings, and the lemmas about them.
- `column_manager.dfy` (module `ColumnSortOrder`): the class itself.
  `ColumnManager` has the two map fields and a reference to a `ConfigStore`
  (setting name => stored text). Its methods run the source's `foreach`
  loops, and each one is proved to compute the matching `ColumnOrder`
  function.

The model follows the code as written; these consequences of it are worth knowing:

- An unset or empty setting loads as the one-entry map `"" => 0`, not as an
  empty map. `explode(',', '')` gives `[""]`. A loaded map is therefore never
  empty, and `sort_columns` always takes its merging branch on a freshly
  constructed manager.
- A disabled identifier with no installed column class makes `new $class`
  fail, and the whole listing with it. The model returns `ClassNotFound`
  rather than skipping that entry.
- The `!empty` guard of `update_config` skips an empty map. Enabling the last
  disabled column therefore leaves the old disabled setting in place, so the
  column is stored in both settings (`EnableLastDisabledStaysStored`).
- Positions in the two maps are indices into two different lists, so they
  can collide. `array_flip` keeps only the later key of a shared position, so
  enabling a column can drop another one from the saved setting
  (`EnableThenSaveCanDropColumn`).
- For `sort_columns`, keys of the stored order keep their order and keys
  that only the argument has are appended, because that is what
  `array_merge` does for string keys.

## Model

| member | source | states |
|---|---|---|
| ColumnSortOrder.ColumnManager.constructor | question/bank/columnsortorder/classes/column_manager.php:51-54 | Both fields are the parse of their setting, an unset setting reading as ""; neither map is ever empty |
| ColumnOrder.ParseLastIndex | question/bank/columnsortorder/classes/column_manager.php:52-53 | Every part of the comma split becomes a key; each key holds the index of its last occurrence; the map has at least one entry |
| ColumnOrder.ParseEmpty | question/bank/columnsortorder/classes/column_manager.php:52-53 | An empty or unset setting loads as the single entry "" => 0 |
| PhpArrays.FlipListLastIndex | question/bank/columnsortorder/classes/column_manager.php:52-53 | array_flip of a list: the keys are exactly the elements, each holding the last index at which it occurs |
| PhpArrays.FlipListDistinct | question/bank/columnsortorder/classes/column_manager.php:52-53 | array_flip of a repetition-free list keeps the list order and maps the element at index i to i |
| PhpStrings.Explode | question/bank/columnsortorder/classes/column_manager.php:52-53 | explode always yields at least one part, and no part holds the separator |
| PhpStrings.ImplodeExplode | question/bank/columnsortorder/classes/column_manager.php:52-53 | Joining the parts of a split with the same separator gives back the split string |
| PhpStrings.ExplodeImplode | question/bank/columnsortorder/classes/column_manager.php:60-62 | Splitting the join of at least one separator-free part gives back exactly those parts |
| ColumnSortOrder.ColumnManager.SetColumnOrder | question/bank/columnsortorder/classes/column_manager.php:60-63 | The enabled setting becomes the comma join of the argument; no other setting changes |
| ColumnOrder.StoredOrderReadsBack | question/bank/columnsortorder/classes/column_manager.php:60-62 | Loading what set_column_order stored from distinct, comma-free identifiers gives them back in order, each at its index |
| ColumnOrder.SerialiseParse | question/bank/columnsortorder/classes/column_manager.php:128-137 | Saving a freshly loaded map writes back the very string it was loaded from when the stored identifiers are distinct |
| ColumnOrder.SerialiseOnePerPosition | question/bank/columnsortorder/classes/column_manager.php:130 | update_config writes only identifiers of the map, never two of the same position, and every position at least once |
| ColumnOrder.SerialiseDropsEarlier | question/bank/columnsortorder/classes/column_manager.php:130 | Of two identifiers that share a position, the one enumerated first is not written |
| PhpArrays.FlipPositionsLaterWins | question/bank/columnsortorder/classes/column_manager.php:130 | After array_flip each position holds a key that had it, and never a key that a later key with the same position overwrote |
| PhpArrays.FlipPositionsInjective | question/bank/columnsortorder/classes/column_manager.php:130 | When no two keys share a position, array_flip loses nothing and lists the positions in key order |
| ColumnSortOrder.ColumnManager.UpdateConfig | question/bank/columnsortorder/classes/column_manager.php:128-137 | The settings become Persisted of the old settings and the two maps |
| ColumnOrder.PersistedWrites | question/bank/columnsortorder/classes/column_manager.php:128-137 | Only the two column settings can change; a non-empty map writes its serialisation; an empty map leaves its setting exactly as it was |
| ColumnSortOrder.ColumnManager.RemoveUnusedColumnFromDb | question/bank/columnsortorder/classes/column_manager.php:144-158 | The loop computes AfterRemove of the loaded maps and saves it through update_config; the fields are not modified |
| ColumnOrder.RemoveDeletesMatchingDisabled | question/bank/columnsortorder/classes/column_manager.php:144-157 | Exactly the disabled identifiers that contain the plugin name leave both maps; a matching identifier that is only enabled stays; survivors keep position and order; disjoint maps stay disjoint |
| ColumnSortOrder.ColumnManager.MoveMatching | question/bank/columnsortorder/classes/column_manager.php:168-173 | The shared loop: matching source keys are unset from the source and assigned, in source order and with their positions, into the target |
| ColumnSortOrder.ColumnManager.EnableColumns | question/bank/columnsortorder/classes/column_manager.php:165-175 | Saves AfterEnable of the loaded maps through update_config; the fields are not modified |
| ColumnOrder.EnableMovesMatching | question/bank/columnsortorder/classes/column_manager.php:165-174 | Every matching disabled identifier moves to the enabled map with its disabled position; new ones are appended in disabled order; every other entry is unchanged; disjoint maps stay disjoint |
| ColumnSortOrder.ColumnManager.DisableColumns | question/bank/columnsortorder/classes/column_manager.php:182-192 | Saves AfterDisable of the loaded maps through update_config; the fields are not modified |
| ColumnOrder.DisableMovesMatching | question/bank/columnsortorder/classes/column_manager.php:182-191 | Every matching enabled identifier moves to the disabled map with its enabled position; every other entry is unchanged; disjoint maps stay disjoint |
| ColumnOrder.MovedIntoTarget | question/bank/columnsortorder/classes/column_manager.php:170 | The receiving map gains exactly the matching keys with their source positions, appended in source order unless already present |
| ColumnOrder.MovedOutOfSource | question/bank/columnsortorder/classes/column_manager.php:171 | The giving map loses exactly its matching keys; the rest keep their position and order |
| ColumnOrder.EnableThenSaveCanDropColumn | question/bank/columnsortorder/classes/column_manager.php:165-174 | An enabled column and an enabled-by-plugin column both at position 0 are both in the computed map, but only the moved one is saved |
| ColumnOrder.EnableLastDisabledStaysStored | question/bank/columnsortorder/classes/column_manager.php:129-137 | When the disabled setting holds exactly one column and it is enabled, the disabled map becomes empty, the enabled setting is rewritten and names the column, and the disabled setting still holds that same column |
| ColumnOrder.ParseOne | question/bank/columnsortorder/classes/column_manager.php:52-53 | A setting without a comma loads as the one-entry map from that text to position 0 |
| ColumnOrder.EnableOnlyDisabled | question/bank/columnsortorder/classes/column_manager.php:165-174 | Enabling the only disabled column appends it to the enabled map at position 0 and leaves the disabled map empty |
| ColumnOrder.LastKeyWritten | question/bank/columnsortorder/classes/column_manager.php:130 | The identifier assigned last into a map always appears in the text written for it |
| ColumnSortOrder.ColumnManager.SortColumns | question/bank/columnsortorder/classes/column_manager.php:200-227 | Returns SortedColumns of the loaded enabled map and the argument |
| ColumnSortOrder.ColumnManager.RenameColumns | question/bank/columnsortorder/classes/column_manager.php:207-216 | The loop assigns each sorted identifier's position under its short name, giving Renamed of the sorted keys |
| PhpArrays.SortKeysIsStableSort | question/bank/columnsortorder/classes/column_manager.php:205 | asort yields a permutation of the keys, ascending by position, and keys of equal position keep their relative order |
| ColumnOrder.ShortNameShape | question/bank/columnsortorder/classes/column_manager.php:208-215 | A custom-field identifier loses only its first segment and the backslash after it; any other identifier keeps only its backslash-free last segment |
| PhpStrings.LastSegmentIsSuffix | question/bank/columnsortorder/classes/column_manager.php:214 | end(explode('\\', s)) is the backslash-free suffix of s that is all of s or follows a backslash |
| PhpStrings.DropFirstSegmentSplits | question/bank/columnsortorder/classes/column_manager.php:210-211 | Dropping the first segment leaves everything after the first backslash, or "" when there is none |
| PhpStrings.ContainsIff | question/bank/columnsortorder/classes/column_manager.php:209 | strpos($s, $needle) !== false holds exactly when the needle occurs at some index of s |
| ColumnOrder.RenamedShape | question/bank/columnsortorder/classes/column_manager.php:207-216 | The keys are exactly the short names, whether or not they collide; when they do not collide they come out in order, each with its identifier's position |
| PhpArrays.MergeShape | question/bank/columnsortorder/classes/column_manager.php:217 | array_merge keeps the first map's keys first, appends the second map's new keys in order, and the second map's values win |
| ColumnOrder.SortColumnsWithoutOrder | question/bank/columnsortorder/classes/column_manager.php:200-227 | With an empty stored order the argument comes back unchanged; a loaded order is never empty |
| ColumnOrder.SortColumnsValues | question/bank/columnsortorder/classes/column_manager.php:204-224 | The result holds the stored short names and the argument's keys and nothing else; every argument key keeps the argument's value |
| ColumnOrder.SortColumnsStoredPositions | question/bank/columnsortorder/classes/column_manager.php:204-217 | A stored short name the argument does not hold keeps its identifier's stored position |
| ColumnOrder.SortColumnsOrder | question/bank/columnsortorder/classes/column_manager.php:204-224 | checkbox_column comes first when present; the other keys are the stored short names by ascending stored position, then the argument-only keys in the argument's order |
| ColumnOrder.SortColumnsTwoStored | question/bank/columnsortorder/classes/column_manager.php:204-224 | Two stored identifiers at 0 and 1, merged with an argument holding the second one's short name at 0 and a new key at 1, give the first short name at 0, the shared key at 0 (the argument wins) and the new key at 1, in that order |
| ColumnOrder.SortColumnsExample | question/bank/columnsortorder/classes/column_manager.php:204-224 | Stored qbank_a\col_x, qbank_b\col_y with argument col_y => 0, col_z => 1 gives col_x => 0, col_y => 0, col_z => 1 in that order |
| ColumnOrder.ShortNameOfPlain | question/bank/columnsortorder/classes/column_manager.php:208-214 | An identifier plugin\name that does not contain the custom-field marker is filed under name, whatever its length |
| ColumnOrder.CheckboxFirstShape | question/bank/columnsortorder/classes/column_manager.php:219-223 | checkbox_column, when present, becomes the first key with its value kept; all values and the relative order of the other keys are unchanged |
| PhpArrays.MergeToFrontKeys | question/bank/columnsortorder/classes/column_manager.php:220-222 | Merging a one-entry map with the rest of the map after unsetting that key puts the key first and keeps the others in order |
| PhpArrays.MergeToFrontValues | question/bank/columnsortorder/classes/column_manager.php:220-222 | The same merge leaves every key's value as it was |
| ColumnSortOrder.ColumnManager.GetColumns | question/bank/columnsortorder/classes/column_manager.php:84-98 | The loop over the visible columns returns ColumnListing of them |
| ColumnOrder.ColumnListingConcat | question/bank/columnsortorder/classes/column_manager.php:86-96 | The listing of two runs of columns is the concatenation of their listings, so records keep the view's order |
| ColumnOrder.ColumnListingOne | question/bank/columnsortorder/classes/column_manager.php:87-95 | A column named checkbox gives no record; any other gives its class, its title and the last segment of its key |
| ColumnSortOrder.ColumnManager.GetDisabledColumns | question/bank/columnsortorder/classes/column_manager.php:105-126 | The loop over the disabled identifiers returns DisabledListing of them, stopping at the first class it cannot instantiate |
| ColumnOrder.DisabledListingOutcome | question/bank/columnsortorder/classes/column_manager.php:108-124 | The listing succeeds exactly when every identifier is "0", a custom field or a known class; a failure names the FIRST identifier that is none of these, every earlier one being reportable |
| ColumnOrder.DisabledListingNames | question/bank/columnsortorder/classes/column_manager.php:108-124 | A successful listing has one record per identifier other than "0", in order: the last segment for a custom field, the column title otherwise |
| ColumnOrder.DisabledListingStopsAtFailure | question/bank/columnsortorder/classes/column_manager.php:118 | Once an identifier cannot be instantiated, nothing after it changes the outcome |
| ColumnOrder.CustomFieldListedByName | question/bank/columnsortorder/classes/column_manager.php:110-116 | A disabled qbank_customfields\custom_field_column\field is listed under field |
| ColumnOrder.UnsetDisabledSettingFails | question/bank/columnsortorder/classes/column_manager.php:105-118 | With no disabled setting stored, the listing tries to instantiate the class "" and fails unless it exists |

## Left out

- `get_questionbank` (building the question bank view) is host code. The
  visible columns are a parameter of `GetColumns`: a sequence of records
  holding key, name, title and class. `get_class($column)` is the record's
  class field.
- `new $class(...)` in `get_disabled_columns` is dynamic class loading. It is
  a parameter `titles` that maps each installed class name to its column
  title. A missing class is `ClassNotFound`, which stands for the PHP error
  that ends the listing.
- `get_config` and `set_config` are the host settings store. They are the
  `settings` map of `ConfigStore`: an unset setting reads as "", and a write
  replaces one entry. Store errors and concurrent writers are not modelled.
- PHP turns numeric-string keys into integers, and `array_merge` renumbers
  integer keys. Keys are modelled as strings throughout. The one exception is
  the `$class !== 0` guard of `get_disabled_columns`, which is modelled as
  skipping the key "0".
- `strpos` with an empty needle is modelled as a match, which is PHP 8
  behaviour.
- `asort` is specified by the stable insertion sort `SortKeys`. PHP's own
  sorting algorithm is not modelled; the model keeps only its result
  (sorted, a permutation, and stable, as PHP 8 guarantees).
- ColumnOrder.SortColumnsOrder: states the key order only when no two stored
  identifiers share a short name. With a collision, a later identifier
  overwrites an earlier one's position. `RenamedShape` covers that case for
  membership but not for order.
- ColumnOrder.SortColumnsStoredPositions: states the stored position only
  when no two stored identifiers share a short name, for the same reason.
- ColumnOrder.SerialiseParse: the round trip is stated only for stored
  settings without repeated identifiers. With repeats, loading keeps the last
  index and saving drops the earlier copies (`ParseLastIndex`,
  `SerialiseOnePerPosition`).
- The date-range filter condition, its JavaScript date widget and the
  date-picker form of qbank_viewcreator are page rendering and form
  plumbing with no logic of their own. They are not part of this model.
- ColumnSortOrder.ColumnManager.SortColumns: the argument `$ordertosort`, an untyped array of columns in the source, is modelled as identifier => int; its values are only carried through to the result, never inspected.
