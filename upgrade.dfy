/**
 * The upgrade helpers of the mass-action block: they reconcile the stored list
 * of course formats the block is offered on (setting `applicablecourseformats`
 * of plugin `block_massaction`, a comma-separated string in the plugin-config
 * table) with the course-format plugins installed on the site, after a format
 * is added to or removed from the supported set.
 *
 * The site's plugin registry is an input: the installed format names, in the
 * order the registry enumerates them. Names are compared as plain strings.
 */
module Upgrade {
  import opened Wrappers
  import opened PhpStrings
  import opened Sequences

  /** Key of a row of the plugin-config table: (plugin, setting name). */
  type ConfigKey = (string, string)

  /** The one row both helpers read and rewrite. */
  const SettingKey: ConfigKey := ("block_massaction", "applicablecourseformats")

  /** Why an upgrade helper did not write. */
  datatype UpgradeError = RecordMissing

  /** A course-format plugin name as the registry reports it: an identifier,
      so never empty and never containing the list separator. */
  ghost predicate ValidPluginNames(installed: seq<string>)
  {
    forall i :: 0 <= i < |installed| ==> installed[i] != "" && ',' !in installed[i]
  }

  /** The installed formats kept by `add_supported_format`: those already
      selected, plus the added one, in registry order. */
  function AddedFormats(installed: seq<string>, selected: seq<string>, addformat: string): seq<string>
  {
    Filter(installed, (format: string) => format in selected || format == addformat)
  }

  /** The installed formats kept by `remove_supported_format`: those selected
      other than the removed one, in registry order. */
  function RemainingFormats(installed: seq<string>, selected: seq<string>, removeformat: string): seq<string>
  {
    Filter(installed, (format: string) => format in selected && format != removeformat)
  }

  /** The value `add_supported_format` stores, given the value it read. */
  function AddedSetting(installed: seq<string>, value: string, addformat: string): string
  {
    Join(AddedFormats(installed, Split(value, ','), addformat), ",")
  }

  /** The value `remove_supported_format` stores, given the value it read. */
  function RemainingSetting(installed: seq<string>, value: string, removeformat: string): string
  {
    Join(RemainingFormats(installed, Split(value, ','), removeformat), ",")
  }

  /** The selection loop of `add_supported_format`. */
  method SupportedAfterAdd(installed: seq<string>, selected: seq<string>, addformat: string)
    returns (supported: seq<string>)
    ensures supported == AddedFormats(installed, selected, addformat)
  {
    supported := [];
    var i := 0;
    while i < |installed|
      invariant 0 <= i <= |installed|
      invariant supported == AddedFormats(installed[..i], selected, addformat)
    {
      var format := installed[i];
      assert installed[..i + 1] == installed[..i] + [format];
      AddedFormatsSnoc(installed[..i], selected, addformat, format);
      if format in selected || format == addformat {
        supported := supported + [format];
      }
      i := i + 1;
    }
    assert installed[..i] == installed;
  }

  /** The selection loop of `remove_supported_format`. */
  method SupportedAfterRemove(installed: seq<string>, selected: seq<string>, removeformat: string)
    returns (supported: seq<string>)
    ensures supported == RemainingFormats(installed, selected, removeformat)
  {
    supported := [];
    var i := 0;
    while i < |installed|
      invariant 0 <= i <= |installed|
      invariant supported == RemainingFormats(installed[..i], selected, removeformat)
    {
      var format := installed[i];
      assert installed[..i + 1] == installed[..i] + [format];
      RemainingFormatsSnoc(installed[..i], selected, removeformat, format);
      if format in selected && format != removeformat {
        supported := supported + [format];
      }
      i := i + 1;
    }
    assert installed[..i] == installed;
  }

  /** The add filter visits the registry in order: one more installed name is
      appended exactly when it is selected or is the added format. */
  lemma AddedFormatsSnoc(installed: seq<string>, selected: seq<string>, addformat: string, format: string)
    ensures AddedFormats(installed + [format], selected, addformat)
         == AddedFormats(installed, selected, addformat) + (if format in selected || format == addformat then [format] else [])
  {
    FilterSnoc(installed, (format: string) => format in selected || format == addformat, format);
  }

  /** The remove filter visits the registry in order: one more installed name is
      appended exactly when it is selected and is not the removed format. */
  lemma RemainingFormatsSnoc(installed: seq<string>, selected: seq<string>, removeformat: string, format: string)
    ensures RemainingFormats(installed + [format], selected, removeformat)
         == RemainingFormats(installed, selected, removeformat) + (if format in selected && format != removeformat then [format] else [])
  {
    FilterSnoc(installed, (format: string) => format in selected && format != removeformat, format);
  }

  /** The plugin-config table, as far as the upgrade helpers use it. */
  class ConfigPlugins {
    var rows: map<ConfigKey, string>

    constructor (initial: map<ConfigKey, string>)
      ensures rows == initial
    {
      rows := initial;
    }

    /** `add_supported_format`: rewrites the setting row with the installed formats
        that were selected or are `addformat`; fails without writing when the row
        does not exist. No other row changes. */
    method AddSupportedFormat(installed: seq<string>, addformat: string) returns (outcome: Outcome<UpgradeError>)
      requires Distinct(installed)
      modifies this
      ensures SettingKey in old(rows) ==>
        outcome == Pass && rows == old(rows)[SettingKey := AddedSetting(installed, old(rows)[SettingKey], addformat)]
      ensures SettingKey !in old(rows) ==> outcome == Fail(RecordMissing) && rows == old(rows)
    {
      // A missing setting reads as false, which explodes like the empty string.
      var current := if SettingKey in rows then rows[SettingKey] else "";
      var selectedformats := Split(current, ',');
      var supportedformats := SupportedAfterAdd(installed, selectedformats, addformat);
      if SettingKey !in rows {
        return Fail(RecordMissing);
      }
      rows := rows[SettingKey := Join(supportedformats, ",")];
      return Pass;
    }

    /** `remove_supported_format`: rewrites the setting row with the installed formats
        that were selected and are not `removeformat`; fails without writing when the
        row does not exist. No other row changes. */
    method RemoveSupportedFormat(installed: seq<string>, removeformat: string) returns (outcome: Outcome<UpgradeError>)
      requires Distinct(installed)
      modifies this
      ensures SettingKey in old(rows) ==>
        outcome == Pass && rows == old(rows)[SettingKey := RemainingSetting(installed, old(rows)[SettingKey], removeformat)]
      ensures SettingKey !in old(rows) ==> outcome == Fail(RecordMissing) && rows == old(rows)
    {
      var current := if SettingKey in rows then rows[SettingKey] else "";
      var selectedformats := Split(current, ',');
      var supportedformats := SupportedAfterRemove(installed, selectedformats, removeformat);
      if SettingKey !in rows {
        return Fail(RecordMissing);
      }
      rows := rows[SettingKey := Join(supportedformats, ",")];
      return Pass;
    }
  }

  /** After an add, a name is listed exactly when it is installed and was selected
      or is the added format: names no longer installed are dropped, an uninstalled
      `addformat` is ignored, and nothing installed and selected is lost. */
  lemma {:induction false} AddedFormatsMembers(installed: seq<string>, selected: seq<string>, addformat: string, x: string)
    ensures x in AddedFormats(installed, selected, addformat) <==> x in installed && (x in selected || x == addformat)
  {
    FilterMembers(installed, (format: string) => format in selected || format == addformat, x);
  }

  /** After a remove, a name is listed exactly when it is installed, was selected,
      and is not the removed format: a remove never adds a name. */
  lemma {:induction false} RemainingFormatsMembers(installed: seq<string>, selected: seq<string>, removeformat: string, x: string)
    ensures x in RemainingFormats(installed, selected, removeformat) <==> x in installed && x in selected && x != removeformat
  {
    FilterMembers(installed, (format: string) => format in selected && format != removeformat, x);
  }

  /** The added list follows registry order and, since registry names are
      distinct, has no duplicates. */
  lemma {:induction false} AddedFormatsOrdered(installed: seq<string>, selected: seq<string>, addformat: string)
    ensures IsSubsequence(AddedFormats(installed, selected, addformat), installed)
    ensures Distinct(installed) ==> Distinct(AddedFormats(installed, selected, addformat))
  {
    var keep := (format: string) => format in selected || format == addformat;
    FilterIsSubsequence(installed, keep);
    if Distinct(installed) {
      SubsequenceDistinct(Filter(installed, keep), installed);
    }
  }

  /** The remaining list follows registry order and has no duplicates. */
  lemma {:induction false} RemainingFormatsOrdered(installed: seq<string>, selected: seq<string>, removeformat: string)
    ensures IsSubsequence(RemainingFormats(installed, selected, removeformat), installed)
    ensures Distinct(installed) ==> Distinct(RemainingFormats(installed, selected, removeformat))
  {
    var keep := (format: string) => format in selected && format != removeformat;
    FilterIsSubsequence(installed, keep);
    if Distinct(installed) {
      SubsequenceDistinct(Filter(installed, keep), installed);
    }
  }

  /** The added list is the only registry-ordered list of exactly the installed
      names that were selected or are `addformat`; the old stored order plays no part. */
  lemma {:induction false} AddedFormatsUnique(installed: seq<string>, selected: seq<string>, addformat: string, r: seq<string>)
    requires Distinct(installed)
    requires IsSubsequence(r, installed)
    requires forall x :: x in r <==> x in installed && (x in selected || x == addformat)
    ensures r == AddedFormats(installed, selected, addformat)
  {
    var added := AddedFormats(installed, selected, addformat);
    AddedFormatsOrdered(installed, selected, addformat);
    forall x
      ensures x in r <==> x in added
    {
      AddedFormatsMembers(installed, selected, addformat, x);
    }
    SubsequenceUnique(r, added, installed);
  }

  /** The remaining list is the only registry-ordered list of exactly the installed
      names that were selected and differ from `removeformat`. */
  lemma {:induction false} RemainingFormatsUnique(installed: seq<string>, selected: seq<string>, removeformat: string, r: seq<string>)
    requires Distinct(installed)
    requires IsSubsequence(r, installed)
    requires forall x :: x in r <==> x in installed && x in selected && x != removeformat
    ensures r == RemainingFormats(installed, selected, removeformat)
  {
    var remaining := RemainingFormats(installed, selected, removeformat);
    RemainingFormatsOrdered(installed, selected, removeformat);
    forall x
      ensures x in r <==> x in remaining
    {
      RemainingFormatsMembers(installed, selected, removeformat, x);
    }
    SubsequenceUnique(r, remaining, installed);
  }

  /** Adding a format that is not installed changes nothing beyond dropping
      uninstalled names: it stores what removing that format would store. */
  lemma {:induction false} AddUninstalledFormat(installed: seq<string>, selected: seq<string>, addformat: string)
    requires addformat !in installed
    ensures AddedFormats(installed, selected, addformat) == RemainingFormats(installed, selected, addformat)
  {
    FilterCongruent(installed,
      (format: string) => format in selected || format == addformat,
      (format: string) => format in selected && format != addformat);
  }

  /** Reading back a stored list of installed names: an installed name is in the
      exploded value exactly when it is in the list (an empty list is stored as
      `""`, which explodes to `[""]`, and no plugin is named `""`). */
  lemma ReadBack(installed: seq<string>, kept: seq<string>, x: string)
    requires ValidPluginNames(installed)
    requires forall y :: y in kept ==> y in installed
    requires x in installed
    ensures x in Split(Join(kept, ","), ',') <==> x in kept
  {
    if kept != [] {
      forall i | 0 <= i < |kept|
        ensures ',' !in kept[i]
      {
        assert kept[i] in kept;
      }
      SplitJoin(kept, ',');
    }
  }

  /** Reading the setting back after an add: an installed name is listed exactly
      when it was listed before or is the added format. */
  lemma {:induction false} AddedSettingReadBack(installed: seq<string>, value: string, addformat: string, x: string)
    requires ValidPluginNames(installed)
    requires x in installed
    ensures x in Split(AddedSetting(installed, value, addformat), ',') <==> x in Split(value, ',') || x == addformat
  {
    var kept := AddedFormats(installed, Split(value, ','), addformat);
    forall y | y in kept
      ensures y in installed
    {
      AddedFormatsMembers(installed, Split(value, ','), addformat, y);
    }
    ReadBack(installed, kept, x);
    AddedFormatsMembers(installed, Split(value, ','), addformat, x);
  }

  /** Reading the setting back after a remove: an installed name is listed exactly
      when it was listed before and is not the removed format. */
  lemma {:induction false} RemainingSettingReadBack(installed: seq<string>, value: string, removeformat: string, x: string)
    requires ValidPluginNames(installed)
    requires x in installed
    ensures x in Split(RemainingSetting(installed, value, removeformat), ',') <==> x in Split(value, ',') && x != removeformat
  {
    var kept := RemainingFormats(installed, Split(value, ','), removeformat);
    forall y | y in kept
      ensures y in installed
    {
      RemainingFormatsMembers(installed, Split(value, ','), removeformat, y);
    }
    ReadBack(installed, kept, x);
    RemainingFormatsMembers(installed, Split(value, ','), removeformat, x);
  }

  /** Running `add_supported_format(f)` a second time with the same installed
      plugins stores the value the first run stored. */
  lemma {:induction false} AddIdempotent(installed: seq<string>, value: string, addformat: string)
    requires ValidPluginNames(installed)
    ensures AddedSetting(installed, AddedSetting(installed, value, addformat), addformat)
         == AddedSetting(installed, value, addformat)
  {
    var once := AddedSetting(installed, value, addformat);
    forall i | 0 <= i < |installed|
      ensures (installed[i] in Split(once, ',') || installed[i] == addformat)
           == (installed[i] in Split(value, ',') || installed[i] == addformat)
    {
      AddedSettingReadBack(installed, value, addformat, installed[i]);
    }
    FilterCongruent(installed,
      (format: string) => format in Split(once, ',') || format == addformat,
      (format: string) => format in Split(value, ',') || format == addformat);
  }

  /** Running `remove_supported_format(f)` a second time with the same installed
      plugins stores the value the first run stored. */
  lemma {:induction false} RemoveIdempotent(installed: seq<string>, value: string, removeformat: string)
    requires ValidPluginNames(installed)
    ensures RemainingSetting(installed, RemainingSetting(installed, value, removeformat), removeformat)
         == RemainingSetting(installed, value, removeformat)
  {
    var once := RemainingSetting(installed, value, removeformat);
    forall i | 0 <= i < |installed|
      ensures (installed[i] in Split(once, ',') && installed[i] != removeformat)
           == (installed[i] in Split(value, ',') && installed[i] != removeformat)
    {
      RemainingSettingReadBack(installed, value, removeformat, installed[i]);
    }
    FilterCongruent(installed,
      (format: string) => format in Split(once, ',') && format != removeformat,
      (format: string) => format in Split(value, ',') && format != removeformat);
  }

  /** With three formats installed, adding the middle one to a setting that lists
      the outer two stores all three, in registry order. */
  lemma AddMiddleExample(first: string, middle: string, last: string)
    requires ValidPluginNames([first, middle, last])
    requires Distinct([first, middle, last])
    ensures AddedSetting([first, middle, last], Join([first, last], ","), middle) == Join([first, middle, last], ",")
  {
    var installed := [first, middle, last];
    assert installed[0] != installed[1] && installed[1] != installed[2] && installed[0] != installed[2];
    assert ',' !in installed[0] && ',' !in installed[2];
    SplitJoin([first, last], ',');
    var addKeep := (format: string) => format in [first, last] || format == middle;
    assert installed[1..] == [middle, last] && installed[1..][1..] == [last] && [last][1..] == [];
    assert Filter([last], addKeep) == [last];
    assert Filter([middle, last], addKeep) == [middle, last];
    assert AddedFormats(installed, [first, last], middle) == installed;
  }

  /** With three formats installed, removing the middle one from a setting that
      lists all three stores the outer two, in registry order. */
  lemma RemoveMiddleExample(first: string, middle: string, last: string)
    requires ValidPluginNames([first, middle, last])
    requires Distinct([first, middle, last])
    ensures RemainingSetting([first, middle, last], Join([first, middle, last], ","), middle) == Join([first, last], ",")
  {
    var installed := [first, middle, last];
    assert installed[0] != installed[1] && installed[1] != installed[2] && installed[0] != installed[2];
    assert ',' !in installed[0] && ',' !in installed[1] && ',' !in installed[2];
    SplitJoin(installed, ',');
    var removeKeep := (format: string) => format in installed && format != middle;
    assert installed[1..] == [middle, last] && installed[1..][1..] == [last] && [last][1..] == [];
    assert Filter([last], removeKeep) == [last];
    assert Filter([middle, last], removeKeep) == [last];
    assert RemainingFormats(installed, installed, middle) == [first, last];
  }
}
