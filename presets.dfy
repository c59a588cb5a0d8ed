/**
 * The preset input sources the accessory offers: the presets loaded from
 * the device are filtered by the configured preset list and labelled with
 * their quick-load label and name.
 */
module Presets {
  import opened JsValues

  /** A preset as the catalog returns it: its name `n` and optional quick-load label `ql`. */
  datatype PresetInfo = PresetInfo(n: string, ql: Option<string>)

  /** One `[key, value]` pair of the loaded presets, in enumeration order. */
  datatype PresetEntry = PresetEntry(key: string, info: PresetInfo)

  /** An input source added to the presets service: identifier and configured name. */
  datatype InputSource = InputSource(identifier: string, name: string)

  /** The quick-load label is used when it is present and not empty (a truthy string). */
  predicate HasQuickLabel(info: PresetInfo) {
    info.ql.Some? && info.ql.value != ""
  }

  /** The label `(ql ? ql + " " : "") + n + " "`. */
  function Label(info: PresetInfo): (text: string)
    ensures |text| > |info.n|
    ensures HasQuickLabel(info) ==> |text| == |info.ql.value| + |info.n| + 2
    ensures text[|text| - |info.n| - 1..] == info.n + " "
    ensures HasQuickLabel(info) ==> text[..|info.ql.value| + 1] == info.ql.value + " "
    ensures !HasQuickLabel(info) ==> |text| == |info.n| + 1
  {
    (if HasQuickLabel(info) then info.ql.value + " " else "") + info.n + " "
  }

  /** A preset key is offered when its integer value (by `parseInt`) is one of the enabled presets. */
  predicate IsEnabled(key: string, enabledPresets: seq<int>) {
    var x := ParseInt(key);
    x.Int? && x.n in enabledPresets
  }

  /** The filter is the `indexOf(parseInt(key)) >= 0` test on the enabled presets. */
  lemma IsEnabledIndexOf(key: string, enabledPresets: seq<int>)
    ensures IsEnabled(key, enabledPresets) <==> IndexOfNum(enabledPresets, ParseInt(key)) >= 0
  {
  }

  function SourceOf(e: PresetEntry): InputSource {
    InputSource(e.key, Label(e.info))
  }

  /** The input sources added for the given entries, in order, skipping presets that are not enabled. */
  function PresetInputSources(entries: seq<PresetEntry>, enabledPresets: seq<int>): (out: seq<InputSource>)
    ensures |out| <= |entries|
  {
    if |entries| == 0 then []
    else
      var last := entries[|entries| - 1];
      PresetInputSources(entries[..|entries| - 1], enabledPresets)
        + (if IsEnabled(last.key, enabledPresets) then [SourceOf(last)] else [])
  }

  /** Filtering one more entry appends its source exactly when its key is enabled. */
  lemma PresetInputSourcesStep(entries: seq<PresetEntry>, i: int, enabledPresets: seq<int>)
    requires 0 <= i < |entries|
    ensures PresetInputSources(entries[..i + 1], enabledPresets) ==
      PresetInputSources(entries[..i], enabledPresets)
        + (if IsEnabled(entries[i].key, enabledPresets) then [SourceOf(entries[i])] else [])
  {
    assert entries[..i + 1][..i] == entries[..i];
  }

  /** Every input source added comes from an enabled entry and carries that entry's key and label. */
  lemma {:induction false} OfferedFromEnabled(entries: seq<PresetEntry>, enabledPresets: seq<int>, x: InputSource)
    requires x in PresetInputSources(entries, enabledPresets)
    ensures exists i :: 0 <= i < |entries| && IsEnabled(entries[i].key, enabledPresets) && x == SourceOf(entries[i])
    decreases |entries|
  {
    var n := |entries| - 1;
    var init := entries[..n];
    if x in PresetInputSources(init, enabledPresets) {
      OfferedFromEnabled(init, enabledPresets, x);
      var i :| 0 <= i < |init| && IsEnabled(init[i].key, enabledPresets) && x == SourceOf(init[i]);
      assert init[i] == entries[i];
    } else {
      assert IsEnabled(entries[n].key, enabledPresets) && x == SourceOf(entries[n]);
    }
  }

  /** The input sources of all entries extend those of all entries but the last, by the last one when it is enabled. */
  lemma SourcesOfInit(entries: seq<PresetEntry>, enabledPresets: seq<int>)
    requires |entries| > 0
    ensures var n := |entries| - 1;
      forall x :: x in PresetInputSources(entries[..n], enabledPresets) ==> x in PresetInputSources(entries, enabledPresets)
    ensures var n := |entries| - 1;
      IsEnabled(entries[n].key, enabledPresets) ==> SourceOf(entries[n]) in PresetInputSources(entries, enabledPresets)
  {
  }

  /** Every enabled preset's entry is offered, under its own key and label. */
  lemma {:induction false} EnabledPresetOffered(entries: seq<PresetEntry>, enabledPresets: seq<int>, i: int)
    requires 0 <= i < |entries| && IsEnabled(entries[i].key, enabledPresets)
    ensures SourceOf(entries[i]) in PresetInputSources(entries, enabledPresets)
    decreases |entries|
  {
    var n := |entries| - 1;
    SourcesOfInit(entries, enabledPresets);
    if i < n {
      var init := entries[..n];
      assert init[i] == entries[i];
      EnabledPresetOffered(init, enabledPresets, i);
    }
  }

  /** An input source is added exactly for each entry whose key is enabled, labelled from that entry. */
  lemma PresetInputSourcesMembers(entries: seq<PresetEntry>, enabledPresets: seq<int>, x: InputSource)
    ensures x in PresetInputSources(entries, enabledPresets) <==>
      exists i :: 0 <= i < |entries| && IsEnabled(entries[i].key, enabledPresets) && x == SourceOf(entries[i])
  {
    if x in PresetInputSources(entries, enabledPresets) {
      OfferedFromEnabled(entries, enabledPresets, x);
    }
    if exists i :: 0 <= i < |entries| && IsEnabled(entries[i].key, enabledPresets) && x == SourceOf(entries[i]) {
      var i :| 0 <= i < |entries| && IsEnabled(entries[i].key, enabledPresets) && x == SourceOf(entries[i]);
      EnabledPresetOffered(entries, enabledPresets, i);
    }
  }

  /** With no enabled presets nothing is offered. */
  lemma {:induction false} NoPresetsNoSources(entries: seq<PresetEntry>)
    ensures PresetInputSources(entries, []) == []
    decreases |entries|
  {
    if |entries| > 0 {
      NoPresetsNoSources(entries[..|entries| - 1]);
    }
  }

  /** A key spelled as the decimal form of a preset id is enabled exactly when that id is configured. */
  lemma DecimalKeyEnabled(id: nat, enabledPresets: seq<int>)
    ensures IsEnabled(DecimalString(id), enabledPresets) <==> id in enabledPresets
  {
    ParseIntDecimal(id, "");
    assert DecimalString(id) + "" == DecimalString(id);
  }

  /** A key with no digits (such as a name) is never enabled, whatever the configured presets. */
  lemma NonNumericKeyDisabled(key: string, enabledPresets: seq<int>)
    requires forall i :: 0 <= i < |key| ==> !IsDigit(key[i], 10)
    ensures !IsEnabled(key, enabledPresets)
  {
    ParseIntNoDigits(key);
  }
}
