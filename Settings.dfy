/** The parsed CoMPASS settings document, already read into memory and never changed.

    board
      parameters
        entry* { key, value { value } }
      channel* { index, values { entry* { key, value? } } }
 */
module Settings {
  import opened Wrappers

  /** A global `parameters/entry`: its `key` text and the text of its nested
      `value/value` node, which the document always provides. */
  datatype GlobalEntry = GlobalEntry(key: string, value: string)

  /** A channel-local `values/entry`: its `key` text and the text of its `value`
      child, which may be missing. */
  datatype ChannelEntry = ChannelEntry(key: string, value: Option<string>)

  /** A `channel` node: its `index` text and its local entries in document order. */
  datatype Channel = Channel(index: string, entries: seq<ChannelEntry>)

  /** The `board` node: global entries and channels, both in document order. */
  datatype Board = Board(parameters: seq<GlobalEntry>, channels: seq<Channel>)
}
