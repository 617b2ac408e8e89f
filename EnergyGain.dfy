/** The rewrite of the energy-coarse-gain setting: a raw value such as
    `CHARGESENS_20_FC_LSB_VPP_X` is shown as its gain magnitude `20`. */
module EnergyGain {

  const GainPrefix: string := "CHARGESENS_"
  const GainMarker: string := "FC_LSB_VPP"
  const Underscore: char := '_'

  /** Python's `sub in s` on strings: `sub` occurs somewhere in `s`. */
  predicate Contains(s: string, sub: string)
  {
    sub <= s || (s != [] && Contains(s[1..], sub))
  }

  /** Python's `s.split(sep)` for a one-character separator: the maximal pieces between
      separators, empty pieces included, so there is always at least one piece. */
  function Split(s: string, sep: char): (parts: seq<string>)
    ensures |parts| >= 1
    ensures forall k :: 0 <= k < |parts| ==> sep !in parts[k]
  {
    if s == [] then [""]
    else
      var rest := Split(s[1..], sep);
      if s[0] == sep then [""] + rest else [[s[0]] + rest[0]] + rest[1..]
  }

  /** Python's `sep.join(parts)`. */
  function Join(parts: seq<string>, sep: char): string
    requires |parts| >= 1
  {
    if |parts| == 1 then parts[0] else parts[0] + [sep] + Join(parts[1..], sep)
  }

  /** Joining the pieces with the separator gives back the original string. */
  lemma {:induction false} JoinSplit(s: string, sep: char)
    ensures Join(Split(s, sep), sep) == s
  {
    if s != [] {
      JoinSplit(s[1..], sep);
      var rest := Split(s[1..], sep);
      if s[0] == sep {
        assert ([""] + rest)[1..] == rest;
      } else {
        var parts := [[s[0]] + rest[0]] + rest[1..];
        if |rest| > 1 {
          assert parts[1..] == rest[1..];
          assert rest == [rest[0]] + rest[1..];
        }
      }
    }
  }

  /** The first piece is the longest separator-free prefix: it is a prefix of `s`, and
      it ends where `s` ends or where a separator stands. */
  lemma {:induction false} SplitFirstPiece(s: string, sep: char)
    ensures Split(s, sep)[0] <= s
    ensures |Split(s, sep)[0]| == |s| || s[|Split(s, sep)[0]|] == sep
  {
    if s != [] && s[0] != sep {
      SplitFirstPiece(s[1..], sep);
    }
  }

  /** Behind a separator-free head and one separator, `split` starts a new piece. */
  lemma {:induction false} SplitAfterHead(head: string, sep: char, tail: string)
    requires sep !in head
    ensures Split(head + [sep] + tail, sep) == [head] + Split(tail, sep)
  {
    if head == [] {
      assert ([sep] + tail)[1..] == tail;
    } else {
      var s := head + [sep] + tail;
      assert s[1..] == head[1..] + [sep] + tail;
      SplitAfterHead(head[1..], sep, tail);
      assert [s[0]] + head[1..] == head;
    }
  }

  /** The value looks like a coarse-gain code: it starts with `CHARGESENS_` and
      contains `FC_LSB_VPP`. */
  predicate HasGainPattern(value: string)
  {
    GainPrefix <= value && Contains(value, GainMarker)
  }

  /** The rewrite: a coarse-gain code becomes its second `_`-separated piece, that is the
      text after `CHARGESENS_` up to the next `_` or the end; anything else is unchanged. */
  function FormatEnergyCoarseGain(value: string): (r: string)
    ensures !HasGainPattern(value) ==> r == value
    ensures HasGainPattern(value) ==>
              && Underscore !in r
              && GainPrefix + r <= value
              && (|value| == |GainPrefix| + |r| || value[|GainPrefix| + |r|] == Underscore)
  {
    if HasGainPattern(value) then
      var tail := value[|GainPrefix|..];
      assert value == "CHARGESENS" + [Underscore] + tail;
      SplitAfterHead("CHARGESENS", Underscore, tail);
      SplitFirstPiece(tail, Underscore);
      Split(value, Underscore)[1]
    else
      value
  }

  /** A string that occurs from some position on occurs in the whole string. */
  lemma {:induction false} ContainsFrom(s: string, sub: string, k: nat)
    requires k <= |s| && sub <= s[k..]
    ensures Contains(s, sub)
  {
    if k > 0 {
      assert s[1..][k - 1..] == s[k..];
      ContainsFrom(s[1..], sub, k - 1);
    }
  }

  /** The `in` test finds a substring only where it occurs from some position on. */
  lemma {:induction false} ContainsAt(s: string, sub: string)
    requires Contains(s, sub)
    ensures exists k :: 0 <= k <= |s| && sub <= s[k..]
  {
    if sub <= s {
      assert s[0..] == s;
    } else {
      ContainsAt(s[1..], sub);
      var k :| 0 <= k <= |s[1..]| && sub <= s[1..][k..];
      assert s[1..][k..] == s[k + 1..];
    }
  }

  /** A worked coarse-gain code: gain 20. */
  lemma FormatEnergyCoarseGainCode(v: string)
    requires v == "CHARGESENS_20_FC_LSB_VPP_X"
    ensures FormatEnergyCoarseGain(v) == "20"
  {
    assert v[14..] == "FC_LSB_VPP_X";
    ContainsFrom(v, GainMarker, 14);
    assert GainPrefix <= v;
    var r := FormatEnergyCoarseGain(v);
    assert r == v[11..11 + |r|];
    assert v[11] == '2' && v[12] == '0' && v[13] == Underscore;
  }

  /** A worked plain value: it is left as it is. */
  lemma FormatEnergyCoarseGainPlain()
    ensures FormatEnergyCoarseGain("100") == "100"
  {
    assert !(GainPrefix <= "100");
  }
}
