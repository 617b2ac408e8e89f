/** A worked document: channel 0 enabled with a local threshold, channel 1 disabled,
    and a global record length. */
module Scenario {
  import opened Wrappers
  import opened Settings
  import opened Extractor
  import opened TableBuilder

  const ThresholdKey: string := "SRV_PARAM_CH_THRESHOLD"
  const RecordLengthKey: string := "SRV_PARAM_RECLEN"

  const ExampleBoard: Board := Board(
    [GlobalEntry(RecordLengthKey, "1000")],
    [ Channel("0", [ChannelEntry(EnabledKey, Some("true")), ChannelEntry(ThresholdKey, Some("500"))]),
      Channel("1", [ChannelEntry(EnabledKey, Some("false"))]) ])

  /** The example's overrides of any key, entry by entry. */
  lemma ExampleChannelValues(key: string)
    ensures ChannelValues(ExampleBoard.channels, key) ==
              (if key == EnabledKey then [("0", "true")] else []) +
              (if key == ThresholdKey then [("0", "500")] else []) +
              (if key == EnabledKey then [("1", "false")] else [])
  {
    var c0, c1 := ExampleBoard.channels[0], ExampleBoard.channels[1];
    assert ExampleBoard.channels == [c0] + [c1];
    ChannelValuesAppend([c0], [c1], key);
    assert [c0][..0] == [] && [c1][..0] == [];
    var e0, e1, f0 := c0.entries[0], c0.entries[1], c1.entries[0];
    assert c0.entries == [e0] + [e1] && c1.entries == [f0];
    EntryValuesAppend(c0.index, [e0], [e1], key);
    assert [e0][..0] == [] && [e1][..0] == [] && [f0][..0] == [];
    assert EntryValues(c0.index, [e0], key) == if key == EnabledKey then [("0", "true")] else [];
    assert EntryValues(c0.index, [e1], key) == if key == ThresholdKey then [("0", "500")] else [];
    assert EntryValues(c1.index, [f0], key) == if key == EnabledKey then [("1", "false")] else [];
    assert ChannelValues([c0], key) == EntryValues(c0.index, c0.entries, key);
    assert ChannelValues([c1], key) == EntryValues(c1.index, c1.entries, key);
  }

  /** Only channel 0 is enabled. */
  lemma ExampleEnabled()
    ensures EnabledChannels(ExampleBoard) == {"CH0"}
  {
    ExampleChannelValues(EnabledKey);
    var pairs := ChannelValues(ExampleBoard.channels, EnabledKey);
    assert pairs == [("0", "true"), ("1", "false")];
    assert pairs[0] in pairs && ChannelName(pairs[0].0) == "CH0";
    forall name | name in EnabledFrom(pairs)
      ensures name == "CH0"
    {
      var p :| p in pairs && p.1 == EnabledLiteral && name == ChannelName(p.0);
      assert p == pairs[0] || p == pairs[1];
    }
  }

  /** The overrides of the example for each configured key. */
  lemma ExampleOverrides(key: string)
    requires key in (set entry | entry in ParameterKeys :: entry.0)
    ensures ChannelValues(ExampleBoard.channels, key) == if key == ThresholdKey then [("0", "500")] else []
  {
    ExampleChannelValues(key);
    assert key != EnabledKey;
  }

  /** The global default of the example for each configured key. */
  lemma ExampleDefault(key: string)
    requires key in (set entry | entry in ParameterKeys :: entry.0)
    ensures DefaultCell(ExampleBoard.parameters, key) == if key == RecordLengthKey then Some("1000") else None
  {
    var entries := ExampleBoard.parameters;
    assert entries[..0] == [];
    assert GlobalValues(entries, key) == if key == RecordLengthKey then ["1000"] else [];
    assert key != EnergyKey || key != RecordLengthKey;
  }

  /** One finished row of the example: the single column CH0, holding the threshold
      override, the global record length, or nothing. */
  lemma ExampleRow(row: Row, key: string)
    requires key in (set entry | entry in ParameterKeys :: entry.0)
    requires RowResolved(row, ExampleBoard, key, {"CH0"})
    ensures row == map["CH0" := if key == ThresholdKey then Some("500")
                                else if key == RecordLengthKey then Some("1000")
                                else None]
  {
    ExampleOverrides(key);
    ExampleDefault(key);
    var overrides := ChannelValues(ExampleBoard.channels, key);
    assert LastOverride(overrides, "CH0") == if key == ThresholdKey then Some("500") else None;
    assert "CH0" in Slots;
    assert row.Keys == {"CH0"};
  }

  /** The table built from the example has exactly one column, CH0; the record length
      row shows 1000, the threshold row 500, and every other row an unset cell. */
  lemma ExampleTable(table: Table)
    requires TableSpec(ExampleBoard, table)
    ensures table.Keys == RowNames
    ensures forall k :: 0 <= k < |ParameterKeys| ==>
              table[ParameterKeys[k].1] ==
                map["CH0" := if ParameterKeys[k].0 == ThresholdKey then Some("500")
                             else if ParameterKeys[k].0 == RecordLengthKey then Some("1000")
                             else None]
  {
    ExampleEnabled();
    forall k | 0 <= k < |ParameterKeys|
      ensures table[ParameterKeys[k].1] ==
                map["CH0" := if ParameterKeys[k].0 == ThresholdKey then Some("500")
                             else if ParameterKeys[k].0 == RecordLengthKey then Some("1000")
                             else None]
    {
      assert ParameterKeys[k] in ParameterKeys;
      ExampleRow(table[ParameterKeys[k].1], ParameterKeys[k].0);
    }
  }
}
