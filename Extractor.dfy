/** The parameter extractor: for one key, the global values of the board and the
    (channel index, value) overrides of its channels, both in document order. */
module Extractor {
  import opened Wrappers
  import opened Settings

  /** The `value/value` texts of the global entries whose key is `key`, in document order. */
  function GlobalValues(entries: seq<GlobalEntry>, key: string): seq<string>
  {
    if entries == [] then []
    else
      var last := entries[|entries| - 1];
      GlobalValues(entries[..|entries| - 1], key) + (if last.key == key then [last.value] else [])
  }

  /** The overrides one channel contributes: a pair for each matching entry that has a
      `value` child; a matching entry without one contributes nothing. */
  function EntryValues(index: string, entries: seq<ChannelEntry>, key: string): seq<(string, string)>
  {
    if entries == [] then []
    else
      var last := entries[|entries| - 1];
      EntryValues(index, entries[..|entries| - 1], key) +
        (if last.key == key && last.value.Some? then [(index, last.value.value)] else [])
  }

  /** The overrides of all channels: channel order first, then entry order within a channel. */
  function ChannelValues(channels: seq<Channel>, key: string): seq<(string, string)>
  {
    if channels == [] then []
    else
      var last := channels[|channels| - 1];
      ChannelValues(channels[..|channels| - 1], key) + EntryValues(last.index, last.entries, key)
  }

  /** One pass over the global entries, then one over every channel's entries,
      appending matches to the two result lists. */
  method ExtractParameterValues(board: Board, key: string)
    returns (globals: seq<string>, overrides: seq<(string, string)>)
    ensures globals == GlobalValues(board.parameters, key)
    ensures overrides == ChannelValues(board.channels, key)
  {
    globals := [];
    var i := 0;
    while i < |board.parameters|
      invariant 0 <= i <= |board.parameters|
      invariant globals == GlobalValues(board.parameters[..i], key)
    {
      var entry := board.parameters[i];
      if entry.key == key {
        globals := globals + [entry.value];
      }
      assert board.parameters[..i + 1][..i] == board.parameters[..i];
      i := i + 1;
    }
    assert board.parameters[..i] == board.parameters;

    overrides := [];
    var c := 0;
    while c < |board.channels|
      invariant 0 <= c <= |board.channels|
      invariant overrides == ChannelValues(board.channels[..c], key)
    {
      var channel := board.channels[c];
      var j := 0;
      while j < |channel.entries|
        invariant 0 <= j <= |channel.entries|
        invariant overrides ==
          ChannelValues(board.channels[..c], key) + EntryValues(channel.index, channel.entries[..j], key)
      {
        var entry := channel.entries[j];
        if entry.key == key {
          match entry.value
          case Some(v) =>
            overrides := overrides + [(channel.index, v)];
          case None =>
        }
        assert channel.entries[..j + 1][..j] == channel.entries[..j];
        j := j + 1;
      }
      assert channel.entries[..j] == channel.entries;
      assert board.channels[..c + 1][..c] == board.channels[..c];
      c := c + 1;
    }
    assert board.channels[..c] == board.channels;
  }

  /** Extraction distributes over concatenation of entry lists: document order is kept. */
  lemma {:induction false} GlobalValuesAppend(a: seq<GlobalEntry>, b: seq<GlobalEntry>, key: string)
    ensures GlobalValues(a + b, key) == GlobalValues(a, key) + GlobalValues(b, key)
    decreases |b|
  {
    if b == [] {
      assert a + b == a;
    } else {
      var n := |b| - 1;
      assert (a + b)[..|a + b| - 1] == a + b[..n];
      GlobalValuesAppend(a, b[..n], key);
    }
  }

  /** A text is a global value exactly when some global entry with the key holds it. */
  lemma {:induction false} GlobalValuesMember(entries: seq<GlobalEntry>, key: string, v: string)
    ensures v in GlobalValues(entries, key) <==>
            exists i :: 0 <= i < |entries| && entries[i] == GlobalEntry(key, v)
  {
    if entries != [] {
      var n := |entries| - 1;
      var init := entries[..n];
      GlobalValuesMember(init, key, v);
      if exists i :: 0 <= i < |entries| && entries[i] == GlobalEntry(key, v) {
        var i :| 0 <= i < |entries| && entries[i] == GlobalEntry(key, v);
        if i < n {
          assert init[i] == entries[i];
        }
      }
      if v in GlobalValues(init, key) {
        var i :| 0 <= i < |init| && init[i] == GlobalEntry(key, v);
        assert entries[i] == init[i];
      }
    }
  }

  /** No global value exactly when no global entry has the key. */
  lemma {:induction false} GlobalValuesEmpty(entries: seq<GlobalEntry>, key: string)
    ensures GlobalValues(entries, key) == [] <==> forall i :: 0 <= i < |entries| ==> entries[i].key != key
  {
    if entries != [] {
      var n := |entries| - 1;
      GlobalValuesEmpty(entries[..n], key);
      assert forall i :: 0 <= i < n ==> entries[..n][i] == entries[i];
    }
  }

  /** The first global value is the value of the earliest entry with the key. */
  lemma GlobalValuesHead(entries: seq<GlobalEntry>, key: string, i: nat)
    requires i < |entries| && entries[i].key == key
    requires forall j :: 0 <= j < i ==> entries[j].key != key
    ensures GlobalValues(entries, key) != [] && GlobalValues(entries, key)[0] == entries[i].value
  {
    var before, at, after := entries[..i], [entries[i]], entries[i + 1..];
    assert entries == before + (at + after);
    GlobalValuesAppend(before, at + after, key);
    GlobalValuesAppend(at, after, key);
    GlobalValuesEmpty(before, key);
    assert at[..0] == [];
  }

  /** Entry-level extraction distributes over concatenation of entry lists. */
  lemma {:induction false} EntryValuesAppend(index: string, a: seq<ChannelEntry>, b: seq<ChannelEntry>, key: string)
    ensures EntryValues(index, a + b, key) == EntryValues(index, a, key) + EntryValues(index, b, key)
    decreases |b|
  {
    if b == [] {
      assert a + b == a;
    } else {
      var n := |b| - 1;
      assert (a + b)[..|a + b| - 1] == a + b[..n];
      EntryValuesAppend(index, a, b[..n], key);
    }
  }

  /** Skip policy: a channel entry without a `value` child, wherever it stands, changes
      nothing in the channel's overrides. */
  lemma SkipEntryWithoutValue(index: string, a: seq<ChannelEntry>, e: ChannelEntry, b: seq<ChannelEntry>, key: string)
    requires e.value.None?
    ensures EntryValues(index, a + [e] + b, key) == EntryValues(index, a + b, key)
  {
    EntryValuesAppend(index, a + [e], b, key);
    EntryValuesAppend(index, a, [e], key);
    EntryValuesAppend(index, a, b, key);
    assert [e][..0] == [];
  }

  /** Channel-level extraction distributes over concatenation of channel lists:
      channel order is kept. */
  lemma {:induction false} ChannelValuesAppend(a: seq<Channel>, b: seq<Channel>, key: string)
    ensures ChannelValues(a + b, key) == ChannelValues(a, key) + ChannelValues(b, key)
    decreases |b|
  {
    if b == [] {
      assert a + b == a;
    } else {
      var n := |b| - 1;
      assert (a + b)[..|a + b| - 1] == a + b[..n];
      ChannelValuesAppend(a, b[..n], key);
    }
  }

  /** A pair is an override of one channel exactly when it carries that channel's index
      and some entry of it has the key and a `value` child with that text. */
  lemma {:induction false} EntryValuesMember(index: string, entries: seq<ChannelEntry>, key: string, p: (string, string))
    ensures p in EntryValues(index, entries, key) <==>
            p.0 == index && exists e :: 0 <= e < |entries| && entries[e] == ChannelEntry(key, Some(p.1))
  {
    if entries != [] {
      var n := |entries| - 1;
      var init := entries[..n];
      EntryValuesMember(index, init, key, p);
      if exists e :: 0 <= e < |entries| && entries[e] == ChannelEntry(key, Some(p.1)) {
        var e :| 0 <= e < |entries| && entries[e] == ChannelEntry(key, Some(p.1));
        if e < n {
          assert init[e] == entries[e];
        }
      }
      if p in EntryValues(index, init, key) {
        var e :| 0 <= e < |init| && init[e] == ChannelEntry(key, Some(p.1));
        assert entries[e] == init[e];
      }
    }
  }

  /** Every matching entry with a `value` child yields its pair. */
  lemma ChannelValuesHas(channels: seq<Channel>, key: string, c: nat, e: nat, v: string)
    requires c < |channels| && e < |channels[c].entries|
    requires channels[c].entries[e] == ChannelEntry(key, Some(v))
    ensures (channels[c].index, v) in ChannelValues(channels, key)
  {
    var p := (channels[c].index, v);
    EntryValuesMember(channels[c].index, channels[c].entries, key, p);
    assert channels == channels[..c] + ([channels[c]] + channels[c + 1..]);
    ChannelValuesAppend(channels[..c], [channels[c]] + channels[c + 1..], key);
    ChannelValuesAppend([channels[c]], channels[c + 1..], key);
    assert [channels[c]][..0] == [];
  }

  /** Every pair comes from a matching entry with a `value` child. */
  lemma {:induction false} ChannelValuesFrom(channels: seq<Channel>, key: string, p: (string, string))
    requires p in ChannelValues(channels, key)
    ensures exists c, e :: 0 <= c < |channels| && 0 <= e < |channels[c].entries| &&
                           channels[c].index == p.0 && channels[c].entries[e] == ChannelEntry(key, Some(p.1))
  {
    var n := |channels| - 1;
    var init, last := channels[..n], channels[n];
    if p in ChannelValues(init, key) {
      ChannelValuesFrom(init, key, p);
      var c, e :| 0 <= c < |init| && 0 <= e < |init[c].entries| &&
                  init[c].index == p.0 && init[c].entries[e] == ChannelEntry(key, Some(p.1));
      assert channels[c] == init[c];
    } else {
      EntryValuesMember(last.index, last.entries, key, p);
      var e :| 0 <= e < |last.entries| && last.entries[e] == ChannelEntry(key, Some(p.1));
      assert channels[n].entries[e] == ChannelEntry(key, Some(p.1));
    }
  }

  /** A pair is an override exactly when some channel with that index has an entry with
      the key and a `value` child with that text. */
  lemma ChannelValuesMember(channels: seq<Channel>, key: string, p: (string, string))
    ensures p in ChannelValues(channels, key) <==>
            exists c, e :: 0 <= c < |channels| && 0 <= e < |channels[c].entries| &&
                           channels[c].index == p.0 && channels[c].entries[e] == ChannelEntry(key, Some(p.1))
  {
    if p in ChannelValues(channels, key) {
      ChannelValuesFrom(channels, key, p);
    }
    if exists c, e :: 0 <= c < |channels| && 0 <= e < |channels[c].entries| &&
                      channels[c].index == p.0 && channels[c].entries[e] == ChannelEntry(key, Some(p.1)) {
      var c, e :| 0 <= c < |channels| && 0 <= e < |channels[c].entries| &&
                  channels[c].index == p.0 && channels[c].entries[e] == ChannelEntry(key, Some(p.1));
      ChannelValuesHas(channels, key, c, e, p.1);
    }
  }

  /** A key that no entry carries yields nothing, neither globally nor per channel. */
  lemma AbsentKeyYieldsNothing(board: Board, key: string)
    requires forall i :: 0 <= i < |board.parameters| ==> board.parameters[i].key != key
    requires forall c, e :: 0 <= c < |board.channels| && 0 <= e < |board.channels[c].entries| ==>
                            board.channels[c].entries[e].key != key
    ensures GlobalValues(board.parameters, key) == []
    ensures ChannelValues(board.channels, key) == []
  {
    GlobalValuesEmpty(board.parameters, key);
    var r := ChannelValues(board.channels, key);
    if r != [] {
      ChannelValuesMember(board.channels, key, r[0]);
      assert false;
    }
  }
}
