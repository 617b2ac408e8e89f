# CoMPASS settings table, modelled in Dafny

`getCoMPASS.py` reads the XML settings export of a CoMPASS data-acquisition board and prints
a parameter-by-channel table of seven acquisition settings: energy coarse gain, gate, short
gate, pre-gate, trigger mode, trigger threshold and record length. This project models the
three pieces of that script and proves what they compute:

- `extract_parameter_values`, an imperative scan of the document for one key
  (module `Extractor`);
- `format_energy_coarse_gain`, a pure rewrite of the raw gain code (module `EnergyGain`);
- `build_table`, which works out the enabled channels, fills a row-to-(channel-to-value)
  map with global defaults and channel overrides, and then drops disabled columns
  (module `TableBuilder`).

The parsed document is the datatype `Settings.Board`. It holds the global
`parameters/entry` list and the `channel` list. Each channel has an `index` text and a
`values/entry` list. A global entry always carries its `value/value` text. A channel entry
carries the text of its `value` child as an `Option`, because that child may be missing.
`Wrappers` holds the `Option` type. Cells of the table are `Option<string>`, where `None`
stands for Python's `None`.

The specification side is made of functions. The extraction functions and the override
lookup recurse from the end of a list, so that one loop step is one unfolding:
- `Extractor.GlobalValues`, `Extractor.EntryValues` and `Extractor.ChannelValues` give the
  matches in document order.
- `TableBuilder.LastOverride` is the value the last override pair writes for a column.

Two more functions do not recurse:
- `TableBuilder.FirstGlobal` is the first global value.
- `TableBuilder.EnabledChannels` is the enabled-channel set.

`TableBuilder.TableSpec` states the finished table declaratively:
- its rows are the seven display names;
- a column is present in a row exactly when the channel is enabled and it is either one of
  the slots CH0..CH7 or has an override for that parameter;
- a column with an override shows the formatted last override;
- any other column shows the formatted first global value, or `None`.

`Scenario` works one document through the whole build: channel 0 is enabled and has a local
threshold of 500, channel 1 is disabled, and the global record length is 1000.

A channel outside the slots CH0..CH7 behaves differently. In the map of maps, an enabled
channel with another index (`8`, say) is a column only of the rows where it has an override.
The reason is that the defaults go only to CH0..CH7 (getCoMPASS.py:59-61, getCoMPASS.py:80-82).
`RowResolved` states this. It holds of the dictionary that is built before the
`pd.DataFrame(data).T` conversion (getCoMPASS.py:97).

## Model

| member | source | states |
|---|---|---|
| `Extractor.ExtractParameterValues` | getCoMPASS.py:5-35 | the two loops return exactly the global `value/value` texts of matching entries in document order, and the (index, value) pairs of matching channel entries that have a `value` child, in channel-then-entry order |
| `Extractor.GlobalValuesAppend` | getCoMPASS.py:14-18 | global extraction of a concatenated entry list is the concatenation of the extractions, so document order is kept |
| `Extractor.GlobalValuesMember` | getCoMPASS.py:14-18 | a text is a global value exactly when some global entry with the key holds it |
| `Extractor.GlobalValuesEmpty` | getCoMPASS.py:14-18 | there are no global values exactly when no global entry has the key |
| `Extractor.GlobalValuesHead` | getCoMPASS.py:14-18 | the first global value is the value of the earliest entry with the key |
| `Extractor.EntryValuesAppend` | getCoMPASS.py:27-33 | a channel's overrides of a concatenated entry list are the concatenation of the overrides |
| `Extractor.SkipEntryWithoutValue` | getCoMPASS.py:30-33 | an entry without a `value` child, at any position, leaves the channel's overrides unchanged |
| `Extractor.ChannelValuesAppend` | getCoMPASS.py:23-33 | overrides of a concatenated channel list are the concatenation of the overrides, so channel order is kept |
| `Extractor.EntryValuesMember` | getCoMPASS.py:27-33 | a pair is an override of one channel exactly when it has that channel's index and some entry with the key has a `value` child with that text |
| `Extractor.ChannelValuesHas` | getCoMPASS.py:23-33 | every matching channel entry with a `value` child produces its (index, value) pair |
| `Extractor.ChannelValuesFrom` | getCoMPASS.py:23-33 | every override pair comes from a matching channel entry with a `value` child |
| `Extractor.ChannelValuesMember` | getCoMPASS.py:23-33 | a pair is an override exactly when some channel with that index has a matching entry whose `value` child holds that text |
| `Extractor.AbsentKeyYieldsNothing` | getCoMPASS.py:10-35 | a key that no entry carries gives an empty global list and an empty override list |
| `EnergyGain.Split` | getCoMPASS.py:40 | Python's `split('_')` gives at least one piece, and no piece contains the separator |
| `EnergyGain.JoinSplit` | getCoMPASS.py:40 | joining the pieces of `split` with the separator gives back the original string |
| `EnergyGain.SplitFirstPiece` | getCoMPASS.py:40-41 | the first piece is a prefix of the string that ends at the string's end or just before a separator |
| `EnergyGain.SplitAfterHead` | getCoMPASS.py:40-41 | after a separator-free head and one separator, the pieces are the head followed by the pieces of the rest |
| `EnergyGain.ContainsFrom` | getCoMPASS.py:39 | a substring that occurs from some position on is found by the `in` test |
| `EnergyGain.ContainsAt` | getCoMPASS.py:39 | conversely, a substring the `in` test finds occurs from some position on |
| `EnergyGain.FormatEnergyCoarseGain` | getCoMPASS.py:38-43 | a value that starts with `CHARGESENS_` and contains `FC_LSB_VPP` becomes its second `_`-piece: the separator-free text right after `CHARGESENS_`, ending at the end or at a `_`; any other value is returned unchanged |
| `EnergyGain.FormatEnergyCoarseGainCode` | getCoMPASS.py:38-43 | `CHARGESENS_20_FC_LSB_VPP_X` becomes `20` |
| `EnergyGain.FormatEnergyCoarseGainPlain` | getCoMPASS.py:38-43 | `100` stays `100` |
| `TableBuilder.FirstGlobalNone` | getCoMPASS.py:75 | there is no global default exactly when no global entry carries the key |
| `TableBuilder.FirstGlobalAt` | getCoMPASS.py:75 | the global default is the value of the earliest global entry with the key |
| `TableBuilder.LastOverrideNone` | getCoMPASS.py:85-90 | a column gets no override exactly when no override pair names it |
| `TableBuilder.LastOverrideAt` | getCoMPASS.py:85-90 | the override a column keeps is the value of the last pair that names it |
| `TableBuilder.EnabledChannelsMember` | getCoMPASS.py:64-68 | `CH<index>` is enabled exactly when some channel with that index has an `SRV_PARAM_CH_ENABLED` entry whose `value` child reads `true`; global entries have no effect |
| `TableBuilder.CollectEnabled` | getCoMPASS.py:64-68 | the loop collects `CH<index>` for exactly the pairs whose value is `true` |
| `TableBuilder.FillDefaults` | getCoMPASS.py:80-82 | each enabled slot among CH0..CH7 gets the default; every other cell, and the set of columns otherwise, stays as it was |
| `TableBuilder.WriteOverrides` | getCoMPASS.py:85-90 | every channel named by an override gets a column, enabled or not, holding its last override value (formatted for the energy-gain key); all other cells stay as they were |
| `TableBuilder.FillRow` | getCoMPASS.py:72-90 | one parameter's row before filtering: the columns are the slots plus the overridden channels; a cell shows the last override, else the formatted first global value for an enabled slot, else `None` |
| `TableBuilder.KeepEnabledResolves` | getCoMPASS.py:93-94 | keeping only enabled columns turns a filled row into a finished row |
| `TableBuilder.ParameterKeysDistinct` | getCoMPASS.py:48-56 | the seven display names are pairwise distinct |
| `TableBuilder.FillRows` | getCoMPASS.py:71-90 | after the parameter loop, every configured row is filled for its key, no row is added, and a row that no parameter names is unchanged |
| `TableBuilder.DropDisabled` | getCoMPASS.py:92-94 | after the filter loop, every configured row is finished, no row is added, and a row that no parameter names is unchanged |
| `TableBuilder.FillAndFilter` | getCoMPASS.py:71-94 | the parameter loop followed by the filter loop, over rows that are exactly the display names, gives a finished table |
| `TableBuilder.ColumnsAreEnabled` | getCoMPASS.py:92-94 | in a finished table, every column of every row is an enabled channel, even when a disabled channel had overrides |
| `TableBuilder.BuildTable` | getCoMPASS.py:46-94 | the built table meets `TableSpec`: exactly the seven rows; the columns and cells are as described above; only enabled channels appear |
| `TableBuilder.OverrideWins` | getCoMPASS.py:84-90 | in a finished row (every row of the built table is one), an enabled channel with an override for the row's parameter shows its formatted last override, never the global default |
| `TableBuilder.DefaultApplies` | getCoMPASS.py:74-82 | in a finished row, an enabled slot among CH0..CH7 without an override shows the formatted first global value, or `None` when there is no global value |
| `TableBuilder.RowIsDetermined` | getCoMPASS.py:80-94 | a finished row is determined by the document, the key and the enabled set |
| `TableBuilder.TableMeetsIsDetermined` | getCoMPASS.py:71-94 | two finished tables for the same parameter list are equal |
| `TableBuilder.TableIsDetermined` | getCoMPASS.py:46-94 | the table is a function of the document, so building twice gives identical tables |
| `Scenario.ExampleChannelValues` | getCoMPASS.py:23-33 | the example's override pairs for any key, in document order |
| `Scenario.ExampleEnabled` | getCoMPASS.py:64-68 | in the example, only CH0 is enabled |
| `Scenario.ExampleOverrides` | getCoMPASS.py:85-90 | in the example, only the threshold key has an override, namely (`0`, `500`) |
| `Scenario.ExampleDefault` | getCoMPASS.py:75-78 | in the example, only the record length has a global default, `1000` |
| `Scenario.ExampleRow` | getCoMPASS.py:71-94 | each finished example row is the single column CH0, holding 500, 1000 or `None` |
| `Scenario.ExampleTable` | getCoMPASS.py:46-94 | the example table has exactly column CH0: the record length row reads 1000, the threshold row 500, and every other row is unset |

## Left out

- Parsing (`ET.parse`) and the re-reading of the file on every extraction call are left out, because they are I/O. The model works on one parsed, read-only `Board`.
- A node text that ElementTree reports as `None` is not modelled. Texts are strings.
- The `AttributeError` that a missing `board`, `parameters`, `key`, `index` or `values` node would raise is not modelled. These nodes are present by construction of the datatypes.
- `Settings.GlobalEntry` requires a `value/value` text for every global entry. The script reads that text only for an entry whose key matches (getCoMPASS.py:16-17), and raises `AttributeError` when such an entry lacks it; that error is not modelled. Requiring the text everywhere is harmless, because the value of an entry whose key does not match is never read.
- The `board` attribute printed at the start of every extraction is left out, because it is console output only. So are all other prints and the `sys.argv` entry point.
- The `pandas.DataFrame` conversion and transpose, including the library's column order and its filling of missing cells, are left out. The result is the map of maps the function builds before the conversion.
