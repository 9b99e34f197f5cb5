# Mass-action block: supported-format upgrades and the duplicate event

This project models two pieces of the Moodle mass-action block (`block_massaction`) in Dafny and proves properties of the model.

**Supported-format reconciliation** (`db/upgrade.php`). The block keeps the course formats it is offered on in one row of the plugin-config table: plugin `block_massaction`, setting `applicablecourseformats`. The value is a comma-separated list. `add_supported_format` and `remove_supported_format` work in the same steps:

1. read the value and `explode` it on `,`;
2. walk the installed course-format plugins in registry order;
3. keep the plugins that pass a filter. For add: selected, or equal to the added format. For remove: selected, and not the removed format;
4. `implode` the kept names with `,` and overwrite the row.

In the model:

- The registry is an input: the installed names, in enumeration order.
- The table is the class `Upgrade.ConfigPlugins`, which holds a map from (plugin, name) to value.
- `PhpStrings.Split` and `PhpStrings.Join` model `explode` and `implode`. `explode` of `""` is `[""]`.
- The two selection loops are the methods `SupportedAfterAdd` and `SupportedAfterRemove`. Each is proved against a filter specification (`AddedFormats`, `RemainingFormats`).
- The lemmas prove:
  - exactly which names are kept;
  - the kept list is in registry order, has no duplicates, and is the only list with both properties;
  - reading the stored value back gives the intended membership;
  - each helper is idempotent.
- A missing config row makes the helper fail. Nothing is written and the table is unchanged.

**The `massaction_duplicated` event** (`classes/event/massaction_duplicated.php`). PHP values are modelled by the datatype `MassactionEvent.Value`: null, bool, int, string, or an ordered array of (key, value) entries. Its parts:

- `init` sets `crud` to `'c'` and `edulevel` to `LEVEL_OTHER` (0). No other field changes.
- `get_description` builds one `cmid from 'src' to 'dst'` fragment per `cms` entry. It joins the fragments with `", "` after the fixed prefix and then adds the error tail:
  - with no errors, a single `'`;
  - with errors, `" with error '"` and the errors joined by `"','"`, with no closing quote.
- `validate_data` fails with a coding exception exactly when `other['cms']` is unset or is not an array.

With no errors, the code appends a lone `'` after the fragments, and the model keeps it (`DescriptionWithoutErrors`, `TwoModulesExample`). With errors, the code opens a quote before the error list and never closes it, and the model keeps that too (`DescriptionWithErrors`). The code does not check that the format name is non-empty, so the model has no such precondition.

Plugin names are compared with plain string equality. PHP's `in_array` compares loosely, which agrees with string equality because plugin names are non-numeric identifiers.

## Model

| member | source | states |
|---|---|---|
| `Upgrade.ConfigPlugins.AddSupportedFormat` | db/upgrade.php:33-62 | If the setting row exists, only that row changes. Its new value is the comma-join of the installed formats that were selected or equal the added format. If the row is missing, the helper fails and nothing is written. |
| `Upgrade.ConfigPlugins.RemoveSupportedFormat` | db/upgrade.php:69-98 | If the row exists, only that row changes. Its new value is the comma-join of the installed formats that were selected and differ from the removed one. If the row is missing, the helper fails and nothing is written. |
| `Upgrade.SupportedAfterAdd` | db/upgrade.php:47-54 | The add loop's output equals the order-preserving filter of the installed names by "selected, or equal to the added format". |
| `Upgrade.SupportedAfterRemove` | db/upgrade.php:83-90 | The remove loop's output equals the order-preserving filter of the installed names by "selected and not the removed format". |
| `Upgrade.AddedFormatsMembers` | db/upgrade.php:43-54 | After an add, a name is kept iff it is installed and (selected or the added format). Uninstalled names are dropped, an uninstalled added format is ignored, and no installed selected name is lost. |
| `Upgrade.RemainingFormatsMembers` | db/upgrade.php:79-90 | After a remove, a name is kept iff it is installed, selected, and not the removed format. The removed format never remains, and nothing is added. |
| `Upgrade.AddedFormatsOrdered` | db/upgrade.php:48-60 | The added list is a subsequence of the registry enumeration. It has no duplicates when registry names are distinct. |
| `Upgrade.RemainingFormatsOrdered` | db/upgrade.php:84-96 | The remaining list is a subsequence of the registry enumeration. It has no duplicates when registry names are distinct. |
| `Upgrade.AddedFormatsUnique` | db/upgrade.php:47-54 | Any registry-ordered list with exactly the add's members equals the added list. The order of the previously stored value plays no part. |
| `Upgrade.RemainingFormatsUnique` | db/upgrade.php:83-90 | Any registry-ordered list with exactly the remove's members equals the remaining list. |
| `Upgrade.AddUninstalledFormat` | db/upgrade.php:48-52 | Adding a format that is not installed stores exactly what removing it would store: the installed names already selected. |
| `Upgrade.ReadBack` | db/upgrade.php:37-38 | Exploding the stored join of installed names lists each installed name exactly when it was kept, including the empty list that is stored as `""`. |
| `Upgrade.AddedSettingReadBack` | db/upgrade.php:37-61 | Reading the setting back after an add: an installed name is listed iff it was listed before or is the added format. |
| `Upgrade.RemainingSettingReadBack` | db/upgrade.php:73-97 | Reading the setting back after a remove: an installed name is listed iff it was listed before and is not the removed format. |
| `Upgrade.AddIdempotent` | db/upgrade.php:33-62 | Running the add twice with the same installed plugins stores the same value as running it once. |
| `Upgrade.RemoveIdempotent` | db/upgrade.php:69-98 | Running the remove twice with the same installed plugins stores the same value as running it once. |
| `Upgrade.AddMiddleExample` | db/upgrade.php:47-61 | With three distinct formats installed, adding the middle one to "first,last" stores "first,middle,last", in registry order. |
| `Upgrade.RemoveMiddleExample` | db/upgrade.php:83-97 | With three distinct formats installed, removing the middle one from "first,middle,last" stores "first,last". |
| `Upgrade.AddedFormatsSnoc` | db/upgrade.php:48-53 | The add filter walks the registry in order. One more installed name is appended exactly when it is selected or is the added format. |
| `Upgrade.RemainingFormatsSnoc` | db/upgrade.php:84-89 | The remove filter walks the registry in order. One more installed name is appended exactly when it is selected and is not the removed format. |
| `PhpStrings.Split` | db/upgrade.php:38 | `explode` on `,` always yields at least one piece, and no piece contains the delimiter. |
| `PhpStrings.JoinSplit` | db/upgrade.php:38 | Imploding the pieces of an explode with the same delimiter gives back the original string. |
| `PhpStrings.SplitJoin` | db/upgrade.php:60 | Exploding the implode of one or more delimiter-free pieces gives back the pieces. |
| `PhpStrings.JoinContainsPart` | classes/event/massaction_duplicated.php:55 | Every part of an `implode` occurs in its result. |
| `PhpStrings.JoinKeepsPartOrder` | classes/event/massaction_duplicated.php:55 | In an `implode`, an earlier part ends, followed at least by the separator, before a later part begins. |
| `MassactionEvent.DescriptionKeepsCmOrder` | classes/event/massaction_duplicated.php:50-55 | For entries i < j of `cms`, fragment i occurs in the description and ends at least ", " before fragment j begins, so moves are described in iteration order. |
| `MassactionEvent.MassactionDuplicated.Init` | classes/event/massaction_duplicated.php:35-38 | `crud` becomes `'c'` and `edulevel` becomes `LEVEL_OTHER`. Every other data field is unchanged. |
| `MassactionEvent.MassactionDuplicated.GetDescription` | classes/event/massaction_duplicated.php:49-57 | The loop-built description equals the prefix, the joined fragments and the error tail. It always begins with "Mass action duplicate has been completed. ". |
| `MassactionEvent.ValidateDataCharacterised` | classes/event/massaction_duplicated.php:64-70 | Validation fails iff `other['cms']` is not an array, which includes unset. When it passes, the description walks exactly that array's entries. |
| `MassactionEvent.RejectedEventDescribesNothing` | classes/event/massaction_duplicated.php:51-56 | If `cms` would fail validation, `foreach` visits nothing and the description is the prefix followed by the error tail. |
| `MassactionEvent.DescriptionMentionsEveryCm` | classes/event/massaction_duplicated.php:50-55 | For every `cms` entry, its fragment occurs in the description. |
| `MassactionEvent.DescriptionWithoutErrors` | classes/event/massaction_duplicated.php:54-56 | When `errors` is empty or absent, the description is the prefix, the fragments joined by ", ", and one trailing lone quote. Its last character is `'`. |
| `MassactionEvent.DescriptionWithErrors` | classes/event/massaction_duplicated.php:54-56 | When `errors` is a non-empty array, the description ends with " with error '" and the error texts joined by "','", with no closing quote. |
| `MassactionEvent.TwoModulesExample` | classes/event/massaction_duplicated.php:49-57 | An event with two `cms` entries and an empty error list is described as the prefix, the first fragment, ", ", the second fragment, and a lone `'`. |
| `MassactionEvent.TwoModulesEventShape` | classes/event/massaction_duplicated.php:64-70 | An `other` array holding a two-entry `cms` array and an empty `errors` array passes validation, and its entries and error list are the ones the example above assumes. |

## Left out

- The plugin registry (`core_plugin_manager::get_installed_plugins`) is not modelled. Its result is an input sequence of installed names in enumeration order.
- The `lang_string` display names built at db/upgrade.php:44 and 80 are left out. Only the keys reach the result.
- The `isset($plugins[$format])` guard at db/upgrade.php:49 and 85 is left out. It is always true inside that loop.
- The add and remove methods require distinct installed names. The registry result is a keyed array, so it cannot repeat a name (db/upgrade.php:43-45).
- The first loop that copies registry keys into `$plugins` (db/upgrade.php:43-45 and 79-81) is represented by the installed sequence itself.
- `get_config` caching and the separate `$DB` read and update are left out. One consistent table map stands for both. Transactions, database errors and concurrent upgraders are not modelled.
- The model does not capture PHP's exact failure for a missing row. PHP either raises an error or creates a default object that the update rejects. The model reports `RecordMissing` and writes nothing.
- `in_array` is modelled as string equality. Loose comparison of numeric-looking strings, and PHP's conversion of numeric-string array keys to integers, are not modelled, because plugin names are identifiers.
- `Upgrade.AddIdempotent` and `Upgrade.RemoveIdempotent` assume that installed plugin names are non-empty and contain no comma (`ValidPluginNames`). Moodle plugin names always satisfy this.
- `get_name` is a localisation lookup through `get_string`, so it is not modelled.
- The host event framework is not modelled: `core\event\base`, `parent::validate_data()`, logging and dispatch.
- The event's `other` is read through `Lookup`. It gives null when `other` is not an array. If keys repeated it would take the first match; PHP arrays never repeat keys.
- Floats and objects are not among the modelled PHP values.
- `MassactionEvent.MassactionDuplicated.GetDescription`: requires `errors` to be either empty in PHP's sense or an array. For any other value, `implode` raises a type error (PHP 8). PHP 7.4 instead warns and returns null, so the description would end in " with error '". Neither path is modelled.
