/** The table builder: one row per configured parameter, one column per enabled channel,
    each cell the channel's last override if it has one and the first global value
    otherwise. */
module TableBuilder {
  import opened Wrappers
  import opened Settings
  import opened Extractor
  import opened EnergyGain

  const EnabledKey: string := "SRV_PARAM_CH_ENABLED"
  const EnabledLiteral: string := "true"
  const EnergyKey: string := "SRV_PARAM_CH_ENERGY_COARSE_GAIN"

  /** The seven configured parameters: key and display row name, in display order. */
  const ParameterKeys: seq<(string, string)> := [
    (EnergyKey, "Energy coarse gain (fC/LSB x Vpp)"),
    ("SRV_PARAM_CH_GATE", "Gate (ns)"),
    ("SRV_PARAM_CH_GATESHORT", "Short Gate (ns)"),
    ("SRV_PARAM_CH_GATEPRE", "Pre-gate (ns)"),
    ("SRV_PARAM_CH_DISCR_MODE", "Trigger Mode"),
    ("SRV_PARAM_CH_THRESHOLD", "Trigger Threshold (arb.)"),
    ("SRV_PARAM_RECLEN", "Record Length (ns)")
  ]

  const RowNames: set<string> := set entry | entry in ParameterKeys :: entry.1

  /** The eight fixed channel slots that receive the global default. */
  const Slots: seq<string> := ["CH0", "CH1", "CH2", "CH3", "CH4", "CH5", "CH6", "CH7"]

  /** A row maps a channel name to its cell; `None` is an unset cell. */
  type Row = map<string, Option<string>>
  type Table = map<string, Row>

  /** The column name of a channel: `CH` followed by its index text. */
  function ChannelName(index: string): string
  {
    "CH" + index
  }

  /** A value as it is shown in the row of `key`: only the energy gain is rewritten. */
  function Formatted(key: string, value: string): string
  {
    if key == EnergyKey then FormatEnergyCoarseGain(value) else value
  }

  /** The global default of a parameter: its first global value, if any. */
  function FirstGlobal(entries: seq<GlobalEntry>, key: string): Option<string>
  {
    var globals := GlobalValues(entries, key);
    if |globals| > 0 then Some(globals[0]) else None
  }

  /** There is no global default exactly when no global entry carries the key. */
  lemma FirstGlobalNone(entries: seq<GlobalEntry>, key: string)
    ensures FirstGlobal(entries, key).None? <==> forall i :: 0 <= i < |entries| ==> entries[i].key != key
  {
    GlobalValuesEmpty(entries, key);
  }

  /** The global default is the value of the earliest global entry with the key. */
  lemma FirstGlobalAt(entries: seq<GlobalEntry>, key: string, i: nat)
    requires i < |entries| && entries[i].key == key
    requires forall j :: 0 <= j < i ==> entries[j].key != key
    ensures FirstGlobal(entries, key) == Some(entries[i].value)
  {
    GlobalValuesHead(entries, key, i);
  }

  /** The cell an enabled slot without override shows: the formatted global default. */
  function DefaultCell(entries: seq<GlobalEntry>, key: string): Option<string>
  {
    match FirstGlobal(entries, key)
    case None => None
    case Some(v) => Some(Formatted(key, v))
  }

  /** The value the last override pair for the column `name` writes, if any. */
  function LastOverride(overrides: seq<(string, string)>, name: string): Option<string>
  {
    if overrides == [] then None
    else
      var last := overrides[|overrides| - 1];
      if ChannelName(last.0) == name then Some(last.1)
      else LastOverride(overrides[..|overrides| - 1], name)
  }

  /** No override value for a column exactly when no pair names it. */
  lemma {:induction false} LastOverrideNone(overrides: seq<(string, string)>, name: string)
    ensures LastOverride(overrides, name).None? <==>
            forall i :: 0 <= i < |overrides| ==> ChannelName(overrides[i].0) != name
  {
    if overrides != [] {
      var n := |overrides| - 1;
      LastOverrideNone(overrides[..n], name);
      assert forall i :: 0 <= i < n ==> overrides[..n][i] == overrides[i];
    }
  }

  /** The override value for a column is the value of the last pair that names it. */
  lemma {:induction false} LastOverrideAt(overrides: seq<(string, string)>, name: string, i: nat)
    requires i < |overrides| && ChannelName(overrides[i].0) == name
    requires forall j :: i < j < |overrides| ==> ChannelName(overrides[j].0) != name
    ensures LastOverride(overrides, name) == Some(overrides[i].1)
  {
    var n := |overrides| - 1;
    if i < n {
      LastOverrideAt(overrides[..n], name, i);
    }
  }

  /** The channel names a list of enablement pairs switches on. */
  function EnabledFrom(pairs: seq<(string, string)>): set<string>
  {
    set p | p in pairs && p.1 == EnabledLiteral :: ChannelName(p.0)
  }

  /** The enabled channels come from the channel overrides of the enablement key only. */
  function EnabledChannels(board: Board): set<string>
  {
    EnabledFrom(ChannelValues(board.channels, EnabledKey))
  }

  /** A column is enabled exactly when some channel of that name has an enablement entry
      whose value child reads `true`; global entries play no part. */
  lemma EnabledChannelsMember(board: Board, name: string)
    ensures name in EnabledChannels(board) <==>
            exists c, e :: 0 <= c < |board.channels| && 0 <= e < |board.channels[c].entries| &&
                           board.channels[c].entries[e] == ChannelEntry(EnabledKey, Some(EnabledLiteral)) &&
                           ChannelName(board.channels[c].index) == name
  {
    var pairs := ChannelValues(board.channels, EnabledKey);
    if name in EnabledChannels(board) {
      var p :| p in pairs && p.1 == EnabledLiteral && ChannelName(p.0) == name;
      ChannelValuesMember(board.channels, EnabledKey, p);
    }
    if exists c, e :: 0 <= c < |board.channels| && 0 <= e < |board.channels[c].entries| &&
                      board.channels[c].entries[e] == ChannelEntry(EnabledKey, Some(EnabledLiteral)) &&
                      ChannelName(board.channels[c].index) == name {
      var c, e :| 0 <= c < |board.channels| && 0 <= e < |board.channels[c].entries| &&
                  board.channels[c].entries[e] == ChannelEntry(EnabledKey, Some(EnabledLiteral)) &&
                  ChannelName(board.channels[c].index) == name;
      var p := (board.channels[c].index, EnabledLiteral);
      ChannelValuesMember(board.channels, EnabledKey, p);
    }
  }

  /** The enablement loop: a channel name is added for each pair whose value is `true`. */
  method CollectEnabled(pairs: seq<(string, string)>) returns (enabled: set<string>)
    ensures enabled == EnabledFrom(pairs)
  {
    enabled := {};
    var i := 0;
    while i < |pairs|
      invariant 0 <= i <= |pairs|
      invariant enabled == EnabledFrom(pairs[..i])
    {
      var (index, value) := pairs[i];
      if value == EnabledLiteral {
        enabled := enabled + {ChannelName(index)};
      }
      assert pairs[..i + 1] == pairs[..i] + [pairs[i]];
      i := i + 1;
    }
    assert pairs[..i] == pairs;
  }

  /** The default loop: every enabled slot among CH0..CH7 gets `value`; other cells keep
      what they had. */
  method FillDefaults(row: Row, enabled: set<string>, value: Option<string>) returns (r: Row)
    ensures forall c :: c in r <==> c in row || (c in Slots && c in enabled)
    ensures forall c :: c in r ==> r[c] == if c in Slots && c in enabled then value else row[c]
  {
    r := row;
    var i := 0;
    while i < |Slots|
      invariant 0 <= i <= |Slots|
      invariant forall c :: c in r <==> c in row || (c in Slots[..i] && c in enabled)
      invariant forall c :: c in r ==> r[c] == if c in Slots[..i] && c in enabled then value else row[c]
    {
      var channel := Slots[i];
      if channel in enabled {
        r := r[channel := value];
      }
      assert Slots[..i + 1] == Slots[..i] + [channel];
      i := i + 1;
    }
    assert Slots[..i] == Slots;
  }

  /** The override loop: each pair writes its (formatted) value into its channel's cell,
      enabled or not, so a column ends up with its last override. */
  method WriteOverrides(row: Row, overrides: seq<(string, string)>, key: string) returns (r: Row)
    ensures forall c :: c in r <==> c in row || LastOverride(overrides, c).Some?
    ensures forall c :: c in r ==>
              r[c] == match LastOverride(overrides, c)
                      case Some(v) => Some(Formatted(key, v))
                      case None => row[c]
  {
    r := row;
    var i := 0;
    while i < |overrides|
      invariant 0 <= i <= |overrides|
      invariant forall c :: c in r <==> c in row || LastOverride(overrides[..i], c).Some?
      invariant forall c :: c in r ==>
                  r[c] == match LastOverride(overrides[..i], c)
                          case Some(v) => Some(Formatted(key, v))
                          case None => row[c]
    {
      var (index, value) := overrides[i];
      if key == EnergyKey {
        value := FormatEnergyCoarseGain(value);
      }
      r := r[ChannelName(index) := Some(value)];
      assert overrides[..i + 1][..i] == overrides[..i];
      i := i + 1;
    }
    assert overrides[..i] == overrides;
  }

  /** The final filter of one row: only enabled columns remain. */
  function KeepEnabled(row: Row, enabled: set<string>): Row
  {
    map c | c in row && c in enabled :: row[c]
  }

  /** A row after the default and override loops, before the filter. */
  ghost predicate RowFilled(row: Row, board: Board, key: string, enabled: set<string>)
  {
    var overrides := ChannelValues(board.channels, key);
    && (forall c :: c in row <==> c in Slots || LastOverride(overrides, c).Some?)
    && (forall c :: c in row ==>
          row[c] == match LastOverride(overrides, c)
                    case Some(v) => Some(Formatted(key, v))
                    case None => if c in enabled then DefaultCell(board.parameters, key) else None)
  }

  /** A finished row: its columns are the enabled channels that are slots or have an
      override; a column with an override shows the last one, any other the default. */
  ghost predicate RowResolved(row: Row, board: Board, key: string, enabled: set<string>)
  {
    var overrides := ChannelValues(board.channels, key);
    && (forall c :: c in row <==> c in enabled && (c in Slots || LastOverride(overrides, c).Some?))
    && (forall c :: c in row ==>
          row[c] == match LastOverride(overrides, c)
                    case Some(v) => Some(Formatted(key, v))
                    case None => DefaultCell(board.parameters, key))
  }

  /** A finished table for a parameter list: one row per display name, each resolved
      against the enabled set. */
  ghost predicate TableMeets(board: Board, params: seq<(string, string)>, table: Table)
  {
    && table.Keys == (set entry | entry in params :: entry.1)
    && forall k :: 0 <= k < |params| ==>
         && params[k].1 in table
         && RowResolved(table[params[k].1], board, params[k].0, EnabledChannels(board))
  }

  /** The finished table: exactly the seven rows of `ParameterKeys`, each resolved. */
  ghost predicate TableSpec(board: Board, table: Table)
  {
    TableMeets(board, ParameterKeys, table)
  }

  /** A row as initialised: the eight slots, all unset. */
  const InitialRow: Row := map c | c in Slots :: None

  /** One parameter's pass: extract, pick and format the global default, fill the
      enabled slots with it, then write the overrides. */
  method FillRow(board: Board, key: string, enabled: set<string>) returns (row: Row)
    ensures RowFilled(row, board, key, enabled)
  {
    var globals, overrides := ExtractParameterValues(board, key);
    var globalValue := if |globals| > 0 then Some(globals[0]) else None;
    if key == EnergyKey && globalValue.Some? && globalValue.value != "" {
      globalValue := Some(FormatEnergyCoarseGain(globalValue.value));
    }
    assert !HasGainPattern("");
    assert globalValue == DefaultCell(board.parameters, key);
    row := FillDefaults(InitialRow, enabled, globalValue);
    row := WriteOverrides(row, overrides, key);
  }

  /** The filter turns a filled row into a finished one. */
  lemma KeepEnabledResolves(row: Row, board: Board, key: string, enabled: set<string>)
    requires RowFilled(row, board, key, enabled)
    ensures RowResolved(KeepEnabled(row, enabled), board, key, enabled)
  {
  }

  /** No two parameters of a list share a display row. */
  predicate DistinctRows(params: seq<(string, string)>)
  {
    forall i, j :: 0 <= i < j < |params| ==> params[i].1 != params[j].1
  }

  /** The display names of `ParameterKeys` are distinct: each row belongs to one parameter. */
  lemma ParameterKeysDistinct()
    ensures DistinctRows(ParameterKeys)
  {
    assert forall i, j :: 0 <= i < j < |ParameterKeys| ==> |ParameterKeys[i].1| != |ParameterKeys[j].1|;
  }

  /** The parameter loop: each parameter's row is replaced by its filled row. */
  method FillRows(board: Board, params: seq<(string, string)>, enabled: set<string>, data: Table)
    returns (filled: Table)
    requires DistinctRows(params)
    requires forall k :: 0 <= k < |params| ==> params[k].1 in data
    ensures filled.Keys == data.Keys
    ensures forall k :: 0 <= k < |params| ==> RowFilled(filled[params[k].1], board, params[k].0, enabled)
    ensures forall r :: r in data && (forall k :: 0 <= k < |params| ==> params[k].1 != r) ==> filled[r] == data[r]
  {
    filled := data;
    var k := 0;
    while k < |params|
      invariant 0 <= k <= |params|
      invariant filled.Keys == data.Keys
      invariant forall j :: 0 <= j < k ==> RowFilled(filled[params[j].1], board, params[j].0, enabled)
      invariant forall r :: r in data && (forall j :: 0 <= j < |params| ==> params[j].1 != r) ==> filled[r] == data[r]
    {
      var (key, rowName) := params[k];
      var row := FillRow(board, key, enabled);
      filled := filled[rowName := row];
      k := k + 1;
    }
  }

  /** The filter loop: every row keeps only its enabled columns. */
  method DropDisabled(board: Board, params: seq<(string, string)>, enabled: set<string>, data: Table)
    returns (table: Table)
    requires DistinctRows(params)
    requires forall k :: 0 <= k < |params| ==> params[k].1 in data
    requires forall k :: 0 <= k < |params| ==> RowFilled(data[params[k].1], board, params[k].0, enabled)
    ensures table.Keys == data.Keys
    ensures forall k :: 0 <= k < |params| ==> RowResolved(table[params[k].1], board, params[k].0, enabled)
    ensures forall r :: r in data && (forall k :: 0 <= k < |params| ==> params[k].1 != r) ==> table[r] == data[r]
  {
    table := data;
    var k := 0;
    while k < |params|
      invariant 0 <= k <= |params|
      invariant table.Keys == data.Keys
      invariant forall j :: 0 <= j < k ==> RowResolved(table[params[j].1], board, params[j].0, enabled)
      invariant forall j :: k <= j < |params| ==> table[params[j].1] == data[params[j].1]
      invariant forall r :: r in data && (forall j :: 0 <= j < |params| ==> params[j].1 != r) ==> table[r] == data[r]
    {
      var (key, rowName) := params[k];
      KeepEnabledResolves(table[rowName], board, key, enabled);
      table := table[rowName := KeepEnabled(table[rowName], enabled)];
      k := k + 1;
    }
  }

  /** A channel that is not enabled is a column of no row, whatever overrides it has. */
  lemma ColumnsAreEnabled(board: Board, table: Table)
    requires TableSpec(board, table)
    ensures forall row, c :: row in table && c in table[row] ==> c in EnabledChannels(board)
  {
    forall row, c | row in table && c in table[row]
      ensures c in EnabledChannels(board)
    {
      var entry :| entry in ParameterKeys && entry.1 == row;
      var k :| 0 <= k < |ParameterKeys| && ParameterKeys[k] == entry;
      assert RowResolved(table[ParameterKeys[k].1], board, ParameterKeys[k].0, EnabledChannels(board));
    }
  }

  /** The two loops over a parameter list whose display names are exactly the rows of
      `data`: fill every row, then filter it. */
  method FillAndFilter(board: Board, params: seq<(string, string)>, enabled: set<string>, data: Table)
    returns (table: Table)
    requires DistinctRows(params)
    requires data.Keys == (set entry | entry in params :: entry.1)
    requires enabled == EnabledChannels(board)
    ensures TableMeets(board, params, table)
  {
    assert forall k :: 0 <= k < |params| ==> params[k] in params;
    var filled := FillRows(board, params, enabled, data);
    table := DropDisabled(board, params, enabled, filled);
  }

  /** The whole build: enabled set, defaults and overrides per parameter, then the filter. */
  method BuildTable(board: Board) returns (table: Table)
    ensures TableSpec(board, table)
    ensures forall row, c :: row in table && c in table[row] ==> c in EnabledChannels(board)
  {
    var data: Table := map name | name in RowNames :: InitialRow;

    var _, enabledValues := ExtractParameterValues(board, EnabledKey);
    var enabled := CollectEnabled(enabledValues);
    assert enabled == EnabledChannels(board);

    ParameterKeysDistinct();
    assert data.Keys == RowNames;
    table := FillAndFilter(board, ParameterKeys, enabled, data);
    ColumnsAreEnabled(board, table);
  }

  /** Override precedence: in a finished row, an enabled channel with an override for
      the row's parameter shows the formatted value of its last override, never the
      global default. */
  lemma OverrideWins(row: Row, board: Board, key: string, c: nat, e: nat)
    requires RowResolved(row, board, key, EnabledChannels(board))
    requires c < |board.channels| && e < |board.channels[c].entries|
    requires board.channels[c].entries[e].key == key && board.channels[c].entries[e].value.Some?
    requires ChannelName(board.channels[c].index) in EnabledChannels(board)
    ensures var name := ChannelName(board.channels[c].index);
            var last := LastOverride(ChannelValues(board.channels, key), name);
            && last.Some?
            && name in row
            && row[name] == Some(Formatted(key, last.value))
  {
    var name := ChannelName(board.channels[c].index);
    var overrides := ChannelValues(board.channels, key);
    var p := (board.channels[c].index, board.channels[c].entries[e].value.value);
    ChannelValuesHas(board.channels, key, c, e, p.1);
    var i :| 0 <= i < |overrides| && overrides[i] == p;
    LastOverrideNone(overrides, name);
  }

  /** Default: in a finished row, an enabled slot among CH0..CH7 with no override for the
      row's parameter shows the formatted first global value, or an unset cell when there
      is none. */
  lemma DefaultApplies(row: Row, board: Board, key: string, name: string)
    requires RowResolved(row, board, key, EnabledChannels(board))
    requires name in Slots && name in EnabledChannels(board)
    requires forall c, e :: 0 <= c < |board.channels| && 0 <= e < |board.channels[c].entries| &&
                            ChannelName(board.channels[c].index) == name ==>
                              board.channels[c].entries[e].key != key ||
                              board.channels[c].entries[e].value.None?
    ensures name in row
    ensures row[name] == DefaultCell(board.parameters, key)
  {
    var overrides := ChannelValues(board.channels, key);
    forall i | 0 <= i < |overrides|
      ensures ChannelName(overrides[i].0) != name
    {
      ChannelValuesFrom(board.channels, key, overrides[i]);
    }
    LastOverrideNone(overrides, name);
  }

  /** A finished row is determined by the document, the parameter and the enabled set. */
  lemma RowIsDetermined(r1: Row, r2: Row, board: Board, key: string, enabled: set<string>)
    requires RowResolved(r1, board, key, enabled) && RowResolved(r2, board, key, enabled)
    ensures r1 == r2
  {
    assert r1.Keys == r2.Keys;
  }

  /** Two finished tables for the same parameter list agree. */
  lemma TableMeetsIsDetermined(board: Board, params: seq<(string, string)>, t1: Table, t2: Table)
    requires TableMeets(board, params, t1) && TableMeets(board, params, t2)
    ensures t1 == t2
  {
    forall row | row in t1
      ensures t1[row] == t2[row]
    {
      var entry :| entry in params && entry.1 == row;
      var k :| 0 <= k < |params| && params[k] == entry;
      RowIsDetermined(t1[row], t2[row], board, entry.0, EnabledChannels(board));
    }
  }

  /** The table is a function of the document: two tables that both meet the
      specification are equal, so building twice gives the same table. */
  lemma TableIsDetermined(board: Board, t1: Table, t2: Table)
    requires TableSpec(board, t1) && TableSpec(board, t2)
    ensures t1 == t2
  {
    TableMeetsIsDetermined(board, ParameterKeys, t1, t2);
  }
}
