/**
 * A filter of the map view: a search setting plus three switches, stored in
 * the preferences as one string of ten `;`-separated fields.
 */
module Filters {
  import opened Wrappers
  import opened Text

  /** The search modes, printed under their own names. */
  datatype SearchMode = Replace | Add | Remove | InSelection

  function ModeName(m: SearchMode): (s: string)
    ensures ';' !in s
  {
    match m
    case Replace => "replace"
    case Add => "add"
    case Remove => "remove"
    case InSelection => "in_selection"
  }

  /** The mode a preference field names; any other text leaves the mode at `current`. */
  function ModeOf(field: string, current: SearchMode): (m: SearchMode)
    ensures ModeName(m) == field || m == current
    ensures field in {"replace", "add", "remove", "in_selection"} ==> ModeName(m) == field
  {
    if field == "replace" then Replace
    else if field == "add" then Add
    else if field == "remove" then Remove
    else if field == "in_selection" then InSelection
    else current
  }

  /** The version written as the first field. */
  const Version: string := "1"

  /** All the settings of a filter. */
  datatype FilterSettings = FilterSettings(
    text: string, mode: SearchMode, caseSensitive: bool, regexSearch: bool, allElements: bool,
    enable: bool, hiding: bool, inverted: bool)

  /** The two ways the preference-string constructor fails. */
  datatype FilterError =
    | IncompatiblePreferences  // the Error thrown by the version guard
    | IndexOutOfBounds         // reading a field the split array does not have

  class Filter {
    var text: string
    var mode: SearchMode
    var caseSensitive: bool
    var regexSearch: bool
    var allElements: bool
    var enable: bool
    var hiding: bool
    var inverted: bool

    function Settings(): FilterSettings
      reads this
    {
      FilterSettings(text, mode, caseSensitive, regexSearch, allElements, enable, hiding, inverted)
    }

    /** Filter(): an enabled, visible, non-inverted filter with an empty add-mode search. */
    constructor ()
      ensures Settings() == FilterSettings("", Add, false, false, false, true, false, false)
    {
      text, mode, caseSensitive, regexSearch, allElements := "", Add, false, false, false;
      enable, hiding, inverted := true, false, false;
    }

    /** Filter(text, mode, caseSensitive, regexSearch, allElements) */
    constructor WithSearch(text: string, mode: SearchMode, caseSensitive: bool, regexSearch: bool, allElements: bool)
      ensures Settings() == FilterSettings(text, mode, caseSensitive, regexSearch, allElements, true, false, false)
    {
      this.text, this.mode, this.caseSensitive, this.regexSearch, this.allElements := text, mode, caseSensitive, regexSearch, allElements;
      enable, hiding, inverted := true, false, false;
    }

    /**
     * The rest of Filter(String prefText), once the guard has passed: starts
     * from the default filter and overwrites its fields one by one from the
     * split string; the mode is assigned once per name it matches.
     */
    constructor FromPrefFields(prfs: seq<string>)
      requires |prfs| >= 9
      ensures Settings() == SettingsOfFields(prfs)
    {
      text, mode, caseSensitive, regexSearch, allElements := "", Add, false, false, false;
      enable, hiding, inverted := true, false, false;
      text := prfs[1];
      if prfs[2] == "replace" {
        mode := Replace;
      }
      if prfs[2] == "add" {
        mode := Add;
      }
      if prfs[2] == "remove" {
        mode := Remove;
      }
      if prfs[2] == "in_selection" {
        mode := InSelection;
      }
      caseSensitive := ParseBoolean(prfs[3]);
      regexSearch := ParseBoolean(prfs[4]);
      enable := ParseBoolean(prfs[6]);
      hiding := ParseBoolean(prfs[7]);
      inverted := ParseBoolean(prfs[8]);
    }

    /** getPrefString: ten `;`-separated fields; `allElements` is not written. */
    function GetPrefString(): (s: string)
      reads this
      ensures s == Join(PrefFields(Settings()), ';')
    {
      JoinTen(PrefFields(Settings()));
      Version + ";" + text + ";" + ModeName(mode) + ";" + BoolToString(caseSensitive) + ";" +
      BoolToString(regexSearch) + ";" + "legacy" + ";" + BoolToString(enable) + ";" +
      BoolToString(hiding) + ";" + BoolToString(inverted) + ";" + "false"
    }
  }

  /**
   * Unless the text holds a `;`, the preference string splits into exactly
   * the ten fields: the version, the search settings, a constant fifth
   * field, the three switches and a constant last field.
   */
  lemma PrefStringFields(f: Filter)
    requires ';' !in f.text
    ensures JavaSplit(f.GetPrefString(), ';') == PrefFields(f.Settings())
  {
    var fields := PrefFields(f.Settings());
    var s := f.GetPrefString();
    JoinTen(fields);
    assert s == Join(fields, ';');
    JavaSplitJoin(fields, ';');
  }

  /** The ten fields getPrefString writes for the given settings. */
  function PrefFields(st: FilterSettings): (fields: seq<string>)
    ensures |fields| == 10 && fields[0] == Version && fields[1] == st.text
    ensures ';' !in st.text ==> forall i :: 0 <= i < |fields| ==> ';' !in fields[i]
  {
    [Version, st.text, ModeName(st.mode), BoolToString(st.caseSensitive), BoolToString(st.regexSearch),
     "legacy", BoolToString(st.enable), BoolToString(st.hiding), BoolToString(st.inverted), "false"]
  }

  /** A ten-part join written out. */
  lemma JoinTen(f: seq<string>)
    requires |f| == 10
    ensures Join(f, ';') == f[0] + ";" + f[1] + ";" + f[2] + ";" + f[3] + ";" + f[4] + ";" +
                            f[5] + ";" + f[6] + ";" + f[7] + ";" + f[8] + ";" + f[9]
  {
    assert Join(f[..1], ';') == f[0];
    assert Join(f[..2], ';') == Join(f[..1], ';') + ";" + f[1] by { assert f[..2][..1] == f[..1]; }
    assert Join(f[..3], ';') == Join(f[..2], ';') + ";" + f[2] by { assert f[..3][..2] == f[..2]; }
    assert Join(f[..4], ';') == Join(f[..3], ';') + ";" + f[3] by { assert f[..4][..3] == f[..3]; }
    assert Join(f[..5], ';') == Join(f[..4], ';') + ";" + f[4] by { assert f[..5][..4] == f[..4]; }
    assert Join(f[..6], ';') == Join(f[..5], ';') + ";" + f[5] by { assert f[..6][..5] == f[..5]; }
    assert Join(f[..7], ';') == Join(f[..6], ';') + ";" + f[6] by { assert f[..7][..6] == f[..6]; }
    assert Join(f[..8], ';') == Join(f[..7], ';') + ";" + f[7] by { assert f[..8][..7] == f[..7]; }
    assert Join(f[..9], ';') == Join(f[..8], ';') + ";" + f[8] by { assert f[..9][..8] == f[..8]; }
    assert Join(f[..10], ';') == Join(f[..9], ';') + ";" + f[9] by { assert f[..10][..9] == f[..9]; }
    assert f[..10] == f;
  }

  /** The settings fields 1 to 8 of a split preference string give; fields 5 and 9 are not read. */
  function SettingsOfFields(prfs: seq<string>): (st: FilterSettings)
    requires |prfs| >= 9
    ensures st.text == prfs[1] && !st.allElements
    ensures st.caseSensitive == ParseBoolean(prfs[3]) && st.regexSearch == ParseBoolean(prfs[4])
    ensures st.enable == ParseBoolean(prfs[6]) && st.hiding == ParseBoolean(prfs[7]) && st.inverted == ParseBoolean(prfs[8])
  {
    FilterSettings(prfs[1], ModeOf(prfs[2], Add), ParseBoolean(prfs[3]), ParseBoolean(prfs[4]), false,
                   ParseBoolean(prfs[6]), ParseBoolean(prfs[7]), ParseBoolean(prfs[8]))
  }

  /**
   * What Filter(prefText) makes of a preference string, guard as written:
   * it rejects a string only when it has a field count other than ten AND
   * a first field other than the version.
   */
  function Parsed(prefText: string): (r: Result<FilterSettings, FilterError>)
    ensures var prfs := JavaSplit(prefText, ';');
            && (r.Success? <==> |prfs| == 10 || (|prfs| >= 9 && prfs[0] == Version))
            && (r.Success? ==> r.value == SettingsOfFields(prfs))
            && (r == Failure(IncompatiblePreferences) <==> |prfs| != 0 && |prfs| != 10 && prfs[0] != Version)
  {
    var prfs := JavaSplit(prefText, ';');
    if |prfs| == 0 then Failure(IndexOutOfBounds)
    else if |prfs| != 10 && prfs[0] != Version then Failure(IncompatiblePreferences)
    else if |prfs| < 9 then Failure(IndexOutOfBounds)
    else Success(SettingsOfFields(prfs))
  }

  /**
   * Filter(String prefText): splits the string and checks the version
   * guard; reading a missing field throws, and the half-built filter is
   * then discarded.
   */
  method NewFilterFromPrefText(prefText: string) returns (r: Result<Filter, FilterError>)
    ensures r.Failure? ==> Parsed(prefText) == Failure(r.error)
    ensures r.Success? ==> fresh(r.value) && Parsed(prefText) == Success(r.value.Settings())
  {
    var prfs := JavaSplit(prefText, ';');
    if |prfs| == 0 {
      return Failure(IndexOutOfBounds);
    }
    if |prfs| != 10 && prfs[0] != Version {
      return Failure(IncompatiblePreferences);
    }
    if |prfs| < 9 {
      return Failure(IndexOutOfBounds);
    }
    var f := new Filter.FromPrefFields(prfs);
    return Success(f);
  }

  /**
   * Round trip: a filter whose text holds no `;` is restored from its
   * preference string, except `allElements`, which comes back false.
   */
  lemma PrefStringRoundTrip(f: Filter)
    requires ';' !in f.text
    ensures Parsed(f.GetPrefString()) == Success(f.Settings().(allElements := false))
  {
    PrefStringFields(f);
    assert ModeOf(ModeName(f.mode), Add) == f.mode;
  }

  /**
   * As written, the guard lets any ten-field string through, whatever its
   * version, e.g. "2;x;add;false;false;legacy;true;false;false;false".
   */
  lemma AsWrittenAcceptsOtherVersion(fields: seq<string>)
    requires |fields| == 10 && fields[0] != Version && fields[9] != ""
    requires forall i :: 0 <= i < 10 ==> ';' !in fields[i]
    ensures Parsed(Join(fields, ';')).Success?
    ensures ParsedIntended(Join(fields, ';')) == Failure(IncompatiblePreferences)
  {
    JavaSplitJoin(fields, ';');
  }

  /**
   * As written, a short string of the current version gets past the guard
   * and fails on a missing field instead of with the incompatibility error.
   */
  lemma AsWrittenShortStringReadsMissingField()
    ensures Parsed("1;x") == Failure(IndexOutOfBounds)
    ensures ParsedIntended("1;x") == Failure(IncompatiblePreferences)
  {
    var t := "1;x";
    assert t == Join(["1", "x"], ';');
    SplitJoin(["1", "x"], ';');
    assert ';' in t by { assert t[1] == ';'; }
    assert JavaSplit(t, ';') == ["1", "x"];
  }

  /** Filter(prefText) with the guard the error message describes: ten fields and version 1, or the error. */
  function ParsedIntended(prefText: string): (r: Result<FilterSettings, FilterError>)
    ensures var prfs := JavaSplit(prefText, ';');
            && (r.Success? <==> |prfs| == 10 && prfs[0] == Version)
            && (r.Success? ==> r.value == SettingsOfFields(prfs))
            && (r.Failure? ==> r.error == IncompatiblePreferences)
  {
    var prfs := JavaSplit(prefText, ';');
    if |prfs| != 10 || prfs[0] != Version then Failure(IncompatiblePreferences)
    else Success(SettingsOfFields(prfs))
  }

  /**
   * With the intended guard the constructor never reads a missing field,
   * accepts exactly the ten-field strings of version 1, and still restores
   * every filter whose text holds no `;`.
   */
  lemma IntendedGuardAcceptsExactlyCurrentVersion(prefText: string, f: Filter)
    ensures ParsedIntended(prefText) != Failure(IndexOutOfBounds)
    ensures ParsedIntended(prefText).Success? <==>
              |JavaSplit(prefText, ';')| == 10 && JavaSplit(prefText, ';')[0] == Version
    ensures ';' !in f.text ==> ParsedIntended(f.GetPrefString()) == Success(f.Settings().(allElements := false))
  {
    if ';' !in f.text {
      PrefStringFields(f);
      assert ModeOf(ModeName(f.mode), Add) == f.mode;
    }
  }
}
