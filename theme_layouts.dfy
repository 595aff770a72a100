/**
  `add-theme-layouts-to-configctl.py`: formatting a control-file row, and
  appending one row per known waybar theme to the control file, numbered after
  the highest index already there.
*/
module ThemeLayouts {
  import opened Wrappers
  import opened Text
  import opened CtlConfig

  // -------------------------------------------------------------- formatting

  /** A module group as written in a row: `( a b c )`, or `()` when the
      joined names are empty. */
  function ModuleGroup(names: seq<string>): (g: string)
    ensures g == "()" || (|g| >= 4 && g[..2] == "( " && g[|g| - 2..] == " )")
  {
    var joined := Join(names, ' ');
    if joined == "" then "()" else "( " + joined + " )"
  }

  /** `format_config_ctl_line`: `index|height|position|L|C|R`. */
  function FormatLine(index: int, height: int, position: string,
                      left: seq<string>, center: seq<string>, right: seq<string>): (line: string)
    ensures '|' !in position && (forall m <- left + center + right :: '|' !in m) ==>
              SplitOn(line, '|') == [IntToString(index), IntToString(height), position,
                                     ModuleGroup(left), ModuleGroup(center), ModuleGroup(right)]
  {
    RowFieldsSplit(index, height, position, left, center, right);
    Join([IntToString(index), IntToString(height), position,
          ModuleGroup(left), ModuleGroup(center), ModuleGroup(right)], '|')
  }

  /** Splitting the joined fields of a row on `|` gives them back when the
      position and the module names hold no `|`. */
  lemma RowFieldsSplit(index: int, height: int, position: string,
                       left: seq<string>, center: seq<string>, right: seq<string>)
    ensures var fields := [IntToString(index), IntToString(height), position,
                           ModuleGroup(left), ModuleGroup(center), ModuleGroup(right)];
            '|' !in position && (forall m <- left + center + right :: '|' !in m) ==>
              SplitOn(Join(fields, '|'), '|') == fields
  {
    if '|' !in position && (forall m <- left + center + right :: '|' !in m) {
      assert forall m <- left :: m in left + center + right;
      assert forall m <- center :: m in left + center + right;
      assert forall m <- right :: m in left + center + right;
      ModuleGroupExcludesBar(left);
      ModuleGroupExcludesBar(center);
      ModuleGroupExcludesBar(right);
      assert '|' !in IntToString(index) && '|' !in IntToString(height);
      SplitOnJoin([IntToString(index), IntToString(height), position,
                   ModuleGroup(left), ModuleGroup(center), ModuleGroup(right)], '|');
    }
  }

  /** A name the row format can carry: a non-empty run of non-whitespace
      characters without `|`. */
  predicate IsModuleName(m: string) {
    IsWord(m) && '|' !in m
  }

  /** A group of module names is parsed back to the same names. */
  lemma ModuleGroupRoundTrip(names: seq<string>)
    requires forall m <- names :: IsModuleName(m)
    ensures ParseModules(ModuleGroup(names)) == names
  {
    var joined := Join(names, ' ');
    JoinWordsEnds(names);
    if names == [] {
      ParseModulesEmptyGroup();
    } else {
      assert ModuleGroup(names) == "( " + joined + " )";
      ParseModulesPadded(joined);
      SplitWordsJoin(names);
    }
  }

  /** The spaces just inside the parentheses of a group are not words. */
  lemma ParseModulesPadded(inside: string)
    ensures ParseModules("( " + inside + " )") == SplitWords(inside)
  {
    var padded := " " + inside + " ";
    assert "( " + inside + " )" == "(" + padded + ")";
    ParseModulesUnwrapsOnce(padded);
    assert padded == " " + (inside + " ");
    SplitWordsSpace(inside + " ");
    SplitWordsTrailing(inside, " ");
  }

  /** A group of names without `|` has no `|`. */
  lemma ModuleGroupExcludesBar(names: seq<string>)
    requires forall m <- names :: '|' !in m
    ensures '|' !in ModuleGroup(names)
  {
    var joined := Join(names, ' ');
    JoinExcludes(names, ' ', '|');
    if joined != "" {
      assert ModuleGroup(names) == "( " + joined + " )";
      assert '|' !in "( " && '|' !in " )";
    }
  }

  /** Parsing a formatted row gives back what was formatted, provided the
      position holds no `|`, every module name is a module name and the
      height is not negative. */
  lemma ParseFormatRoundTrip(index: int, height: nat, position: string,
                             left: seq<string>, center: seq<string>, right: seq<string>)
    requires '|' !in position
    requires forall m <- left + center + right :: IsModuleName(m)
    ensures ParseLine(FormatLine(index, height, position, left, center, right))
         == Some(CtlEntry(index, Some(height), position, left, center, right))
  {
    var line := FormatLine(index, height, position, left, center, right);
    assert forall m <- left :: m in left + center + right;
    assert forall m <- center :: m in left + center + right;
    assert forall m <- right :: m in left + center + right;
    var fields := [IntToString(index), IntToString(height), position,
                   ModuleGroup(left), ModuleGroup(center), ModuleGroup(right)];
    assert SplitOn(line, '|') == fields;
    FormatLineEnds(index, height, position, left, center, right);
    assert ParseLine(line) == ParseFields(fields);
    ParseIntToString(index);
    assert IntToString(height) == NatToString(height);
    assert ParseHeight(fields[1]) == Some(height);
    ModuleGroupRoundTrip(left);
    ModuleGroupRoundTrip(center);
    ModuleGroupRoundTrip(right);
  }

  /** A formatted row starts with a digit or `-` and ends with `)`, so it is
      its own strip and not a comment. */
  lemma FormatLineEnds(index: int, height: int, position: string,
                       left: seq<string>, center: seq<string>, right: seq<string>)
    ensures var line := FormatLine(index, height, position, left, center, right);
            && line != []
            && (IsDigit(line[0]) || line[0] == '-')
            && line[|line| - 1] == ')'
            && Strip(line) == line
  {
    var fields := [IntToString(index), IntToString(height), position,
                   ModuleGroup(left), ModuleGroup(center), ModuleGroup(right)];
    JoinFirst(fields, '|');
    JoinLastChar(fields, '|');
    StripUnpadded(FormatLine(index, height, position, left, center, right));
  }

  /** The row given as the format's example in `parse_config_ctl_line`'s
      documentation, `2|40|top|( hyprland/workspaces wlr/taskbar )|( clock )|( pulseaudio battery tray )`
      (written here as its six fields joined with `|`), parses to the three
      documented module lists. */
  lemma ParseLineDocExample()
    ensures ParseLine(Join(["2", "40", "top", "( hyprland/workspaces wlr/taskbar )", "( clock )",
                            "( pulseaudio battery tray )"], '|'))
         == Some(CtlEntry(2, Some(40), "top",
                          ["hyprland/workspaces", "wlr/taskbar"], ["clock"], ["pulseaudio", "battery", "tray"]))
  {
    var left := [Workspaces, Taskbar];
    var center := [Clock];
    var right := [Pulseaudio, Battery, Tray];
    BarModuleNames();
    SystemModuleNames();
    assert forall m <- left + center + right :: IsModuleName(m);
    ParseFormatRoundTrip(2, 40, "top", left, center, right);
    DocExampleFields();
  }

  /** The example row is the formatting of its index, height, position and
      module lists. */
  lemma DocExampleFields()
    ensures FormatLine(2, 40, "top", [Workspaces, Taskbar], [Clock], [Pulseaudio, Battery, Tray])
         == Join(["2", "40", "top", "( hyprland/workspaces wlr/taskbar )", "( clock )",
                  "( pulseaudio battery tray )"], '|')
  {
    LeftGroupLiteral();
    CenterGroupLiteral();
    RightGroupLiteral();
    IndexLiterals();
  }

  lemma LeftGroupLiteral()
    ensures ModuleGroup([Workspaces, Taskbar]) == "( hyprland/workspaces wlr/taskbar )"
  {
    assert Join([Workspaces, Taskbar], ' ') == Workspaces + " " + Taskbar;
    LeftGroupSpelled();
  }

  /** The left-hand group of the example, spelled out. */
  lemma LeftGroupSpelled()
    ensures "( " + (Workspaces + " " + Taskbar) + " )" == "( hyprland/workspaces wlr/taskbar )"
  {
  }

  lemma CenterGroupLiteral()
    ensures ModuleGroup([Clock]) == "( clock )"
  {
    assert Join([Clock], ' ') == Clock;
  }

  lemma RightGroupLiteral()
    ensures ModuleGroup([Pulseaudio, Battery, Tray]) == "( pulseaudio battery tray )"
  {
    var right := [Pulseaudio, Battery, Tray];
    assert Join(right[1..], ' ') == Battery + " " + Tray;
    assert Join(right, ' ') == Pulseaudio + " " + (Battery + " " + Tray);
    RightGroupSpelled();
  }

  /** The right-hand group of the example, spelled out. */
  lemma RightGroupSpelled()
    ensures "( " + (Pulseaudio + " " + (Battery + " " + Tray)) + " )" == "( pulseaudio battery tray )"
  {
  }

  lemma IndexLiterals()
    ensures IntToString(2) == "2" && IntToString(40) == "40"
  {
  }

  // --------------------------------------------------------- the theme table

  /** The modules one theme needs; `custom`, when there, is appended to the
      right-hand group. */
  datatype ThemeModules = ThemeModules(
    left: seq<string>,
    center: seq<string>,
    right: seq<string>,
    custom: Option<seq<string>>)

  /** The module names the table uses. */
  const Workspaces: string := "hyprland/workspaces"
  const Taskbar: string := "wlr/taskbar"
  const Clock: string := "clock"
  const Pulseaudio: string := "pulseaudio"
  const Battery: string := "battery"
  const Tray: string := "tray"
  const Cpu: string := "cpu"
  const Memory: string := "memory"
  const Temperature: string := "temperature"
  const Network: string := "network"
  const Disk: string := "disk"
  const IdleInhibitor: string := "idle_inhibitor"
  const Backlight: string := "backlight"
  const CustomLauncher: string := "custom/launcher"
  const CustomWeather: string := "custom/weather"
  const CustomVpn: string := "custom/vpn"
  const CustomNotification: string := "custom/notification"
  const CustomCava: string := "custom/cava"
  const CustomMedia: string := "custom/media"
  const CustomLayout: string := "custom/layout"
  const CustomUpdater: string := "custom/updater"
  const CustomSnip: string := "custom/snip"
  const CustomOsButton: string := "custom/os_button"

  /** The themes and their module requirements, in table order. */
  const ThemeModulesTable: seq<(string, ThemeModules)> := [
    ("aniks-super-waybar", ThemeModules(
      [Workspaces, Taskbar], [Clock], [Pulseaudio, Battery, Tray], None)),
    ("beautiful-waybar-theme", ThemeModules(
      [Workspaces], [Clock],
      [Cpu, Memory, Temperature, Network, Pulseaudio, Battery, Tray],
      Some([CustomLauncher, CustomWeather, CustomVpn, CustomNotification, CustomCava]))),
    ("cjbassis-configuration", ThemeModules(
      [Workspaces], [Clock], [Cpu, Memory, Disk, Pulseaudio, Battery], None)),
    ("dn-debugs-waybar-config", ThemeModules(
      [Workspaces], [Clock],
      [Cpu, Memory, Disk, Network, Pulseaudio, Battery, Tray],
      Some([CustomLauncher, CustomMedia, CustomLayout, CustomUpdater, CustomSnip]))),
    ("frankydolls-win10-like-configuration", ThemeModules(
      [Workspaces], [Clock],
      [Cpu, Memory, Disk, Temperature, Network, Pulseaudio, Battery, Tray],
      Some([CustomOsButton]))),
    ("macos-15-sequoia-configuration", ThemeModules(
      [Workspaces], [Clock], [Pulseaudio, Battery, Tray], None)),
    ("mechabar", ThemeModules(
      [Workspaces, Taskbar], [IdleInhibitor, Clock],
      [Backlight, Pulseaudio, Battery, Tray], None)),
    ("notscripters-configuration", ThemeModules(
      [Workspaces], [Clock], [Pulseaudio, Battery, Tray], None)),
    ("whiteshadows-configuration", ThemeModules(
      [Workspaces], [Clock], [Pulseaudio, Battery, Tray], None)),
    ("woioeows-configuration", ThemeModules(
      [Workspaces], [Clock], [Pulseaudio, Battery, Tray], None))
  ]

  /** Every name a theme lists is one the row format can carry. */
  predicate ModulesWellFormed(t: ThemeModules) {
    && (forall m <- t.left :: IsModuleName(m))
    && (forall m <- t.center :: IsModuleName(m))
    && (forall m <- t.right :: IsModuleName(m))
    && (t.custom.Some? ==> forall m <- t.custom.value :: IsModuleName(m))
  }

  /** The theme's modules once `right.extend(custom)` has run. */
  function ExtendRight(t: ThemeModules): (u: ThemeModules)
    ensures u.left == t.left && u.center == t.center && u.custom == t.custom
    ensures u.right == t.right + (if t.custom.Some? then t.custom.value else [])
    ensures ModulesWellFormed(t) ==> ModulesWellFormed(u)
  {
    match t.custom
    case None => t
    case Some(extra) => t.(right := t.right + extra)
  }

  /** The table once every theme's right-hand list has been extended. */
  function ExtendTable(themes: seq<(string, ThemeModules)>): (r: seq<(string, ThemeModules)>)
    ensures |r| == |themes|
    ensures forall j :: 0 <= j < |themes| ==> r[j].0 == themes[j].0 && r[j].1 == ExtendRight(themes[j].1)
  {
    seq(|themes|, j requires 0 <= j < |themes| => (themes[j].0, ExtendRight(themes[j].1)))
  }

  /** Extending one more theme appends its extended entry. */
  lemma ExtendTableSnoc(themes: seq<(string, ThemeModules)>, name: string, modules: ThemeModules)
    ensures ExtendTable(themes + [(name, modules)]) == ExtendTable(themes) + [(name, ExtendRight(modules))]
  {
  }

  /** The extension is not idempotent: a theme with custom modules gets them
      once more on every run over the same table. */
  lemma ExtendRightTwice(t: ThemeModules)
    requires t.custom.Some?
    ensures ExtendRight(ExtendRight(t)).right == t.right + t.custom.value + t.custom.value
  {
  }

  // ------------------------------------------------------ the max-index scan

  /** The length of the first line of non-empty text, its newline included. */
  function LineLength(text: string): (k: nat)
    requires text != []
    ensures 0 < k <= |text|
    ensures forall i :: 0 <= i < k - 1 ==> text[i] != '\n'
    ensures k < |text| ==> text[k - 1] == '\n'
  {
    if text[0] == '\n' || |text| == 1 then 1 else 1 + LineLength(text[1..])
  }

  /** The lines joined back together. */
  function Concat(lines: seq<string>): string {
    if lines == [] then "" else lines[0] + Concat(lines[1..])
  }

  /** `readlines()`: the text cut after every newline; the last line may lack
      one. */
  function ReadLines(text: string): (lines: seq<string>)
    ensures forall l <- lines :: l != []
    ensures Concat(lines) == text
    decreases |text|
  {
    if text == [] then []
    else
      var k := LineLength(text);
      assert text == text[..k] + text[k..];
      [text[..k]] + ReadLines(text[k..])
  }

  /** Every line but the last ends with a newline, and no line holds a
      newline before its final character. */
  predicate CutAtNewlines(lines: seq<string>) {
    && (forall i :: 0 <= i < |lines| - 1 ==> |lines[i]| > 0 && lines[i][|lines[i]| - 1] == '\n')
    && (forall i, j :: 0 <= i < |lines| && 0 <= j < |lines[i]| - 1 ==> lines[i][j] != '\n')
  }

  /** `readlines()` cuts the text right after every newline and nowhere
      else. */
  lemma {:induction false} ReadLinesCutsAtNewlines(text: string)
    ensures CutAtNewlines(ReadLines(text))
    decreases |text|
  {
    if text != [] {
      var k := LineLength(text);
      var rest := ReadLines(text[k..]);
      ReadLinesCutsAtNewlines(text[k..]);
      assert CutAtNewlines(rest);
      var lines := ReadLines(text);
      assert lines == [text[..k]] + rest;
      assert |lines| > 1 ==> k < |text| by {
        if k == |text| {
          assert text[k..] == [];
        }
      }
      forall i, j | 0 <= i < |lines| && 0 <= j < |lines[i]| - 1
        ensures lines[i][j] != '\n'
      {
        if i == 0 {
          assert lines[0][j] == text[j];
        } else {
          assert lines[i] == rest[i - 1];
        }
      }
      forall i | 0 <= i < |lines| - 1
        ensures |lines[i]| > 0 && lines[i][|lines[i]| - 1] == '\n'
      {
        if i == 0 {
          assert lines[0][k - 1] == text[k - 1];
        } else {
          assert lines[i] == rest[i - 1];
        }
      }
    }
  }

  /** The leading field of a line holding `|`, when `int()` accepts it. */
  function LeadingIndex(line: string): Option<int> {
    if '|' in line && Strip(line) != "" then ParseInt(SplitOn(line, '|')[0]) else None
  }

  /** The highest of the values present, starting from 0: never below 0,
      never below any value present, and either 0 or one of them. */
  function MaxOf(xs: seq<Option<int>>): (m: int)
    ensures m >= 0
    ensures forall i :: 0 <= i < |xs| && xs[i].Some? ==> xs[i].value <= m
    ensures m == 0 || exists i :: 0 <= i < |xs| && xs[i] == Some(m)
  {
    if xs == [] then 0
    else
      var front := xs[..|xs| - 1];
      var m := MaxOf(front);
      assert forall i :: 0 <= i < |front| ==> front[i] == xs[i];
      match xs[|xs| - 1]
      case None => m
      case Some(k) => if m < k then k else m
  }

  /** The leading index of every line. */
  function LeadingIndices(lines: seq<string>): seq<Option<int>> {
    seq(|lines|, i requires 0 <= i < |lines| => LeadingIndex(lines[i]))
  }

  /** The highest leading index of the lines, starting from 0: never below 0,
      never below any leading index, and either 0 or one of them. */
  function MaxIndexOf(lines: seq<string>): (m: int)
    ensures m >= 0
    ensures forall i :: 0 <= i < |lines| && LeadingIndex(lines[i]).Some? ==> LeadingIndex(lines[i]).value <= m
    ensures m == 0 || exists i :: 0 <= i < |lines| && LeadingIndex(lines[i]) == Some(m)
  {
    var xs := LeadingIndices(lines);
    assert forall i :: 0 <= i < |lines| ==> xs[i] == LeadingIndex(lines[i]);
    MaxOf(xs)
  }

  /** The scan loop of `add_theme_layouts_to_configctl`. */
  method MaxIndex(lines: seq<string>) returns (m: int)
    ensures m == MaxIndexOf(lines)
  {
    ghost var xs := LeadingIndices(lines);
    m := 0;
    for i := 0 to |lines|
      invariant m == MaxOf(xs[..i])
    {
      assert xs[..i + 1][..i] == xs[..i];
      var index := LeadingIndex(lines[i]);
      assert xs[i] == index;
      if index.Some? {
        m := if m < index.value then index.value else m;
      }
    }
    assert xs[..|lines|] == xs;
  }

  /** Text before the first `|` of `t` that holds no `|` itself joins the
      first field. */
  lemma FirstFieldAfter(pre: string, t: string, post: string)
    requires '|' in t && '|' !in pre
    ensures SplitOn(pre + t + post, '|')[0] == pre + SplitOn(t, '|')[0]
  {
    AppendAssoc(pre, t, post);
    SplitOnAppend(pre, t + post, '|');
    SplitOnFirstField(t, post, '|');
  }

  /** A row holds a `|` once stripped. */
  lemma RowHasBar(line: string)
    requires ParseLine(line).Some?
    ensures '|' in Strip(line)
  {
    var t := Strip(line);
    ParseLineFields(line);
    if '|' !in t {
      SplitOnNoSep(t, '|');
    }
  }

  /** For a line whose strip holds a `|`, the leading field is read from the
      stripped line: the whitespace `strip()` drops before it does not
      change what `int()` accepts. */
  lemma LeadingIndexStripped(line: string)
    requires '|' in Strip(line)
    ensures LeadingIndex(line) == ParseInt(SplitOn(Strip(line), '|')[0])
  {
    var t := Strip(line);
    StripParts(line);
    var a := |line| - |StripStart(line)|;
    var pre := line[..a];
    var post := line[a + |t|..];
    assert line == pre + t + post;
    assert '|' !in pre by {
      forall i | 0 <= i < |pre|
        ensures pre[i] != '|'
      {
        assert IsSpace(line[i]);
      }
    }
    assert '|' in line by {
      var k :| 0 <= k < |t| && t[k] == '|';
      assert line[a + k] == '|';
    }
    FirstFieldAfter(pre, t, post);
    ParseIntSpaces(pre, SplitOn(t, '|')[0]);
  }

  /** A line that parses as a row has that row's index as its leading field,
      so the scan sees every row. */
  lemma LeadingIndexOfRow(line: string)
    requires ParseLine(line).Some?
    ensures LeadingIndex(line) == Some(ParseLine(line).value.index)
  {
    RowHasBar(line);
    LeadingIndexStripped(line);
    ParseLineFields(line);
  }

  /** Every index handed out lies above the index of every row already in
      the file. */
  lemma NewIndexAboveRows(lines: seq<string>, i: int, j: nat)
    requires 0 <= i < |lines| && ParseLine(lines[i]).Some?
    ensures ParseLine(lines[i]).value.index < MaxIndexOf(lines) + 1 + j
  {
    LeadingIndexOfRow(lines[i]);
  }

  // ------------------------------------------------------------ appending

  /** The row written for one theme. */
  function ThemeEntry(name: string, modules: ThemeModules, index: int): (string, string) {
    (name, FormatLine(index, 40, "top", modules.left, modules.center, ExtendRight(modules).right))
  }

  /** The rows written for the table, numbered from `first`. */
  function NewEntries(themes: seq<(string, ThemeModules)>, first: int): (r: seq<(string, string)>)
    ensures |r| == |themes|
    ensures forall j :: 0 <= j < |themes| ==> r[j] == ThemeEntry(themes[j].0, themes[j].1, first + j)
  {
    seq(|themes|, j requires 0 <= j < |themes| => ThemeEntry(themes[j].0, themes[j].1, first + j))
  }

  /** One step of the allocation loop on the table: the theme at `i` is
      still the original one, and extending it in place (only when it has
      custom modules) extends one more theme. */
  lemma ExtendStep(table: seq<(string, ThemeModules)>, i: nat, current: seq<(string, ThemeModules)>)
    requires i < |table| && current == ExtendTable(table[..i]) + table[i..]
    ensures current[i] == table[i]
    ensures var (name, modules) := table[i];
            var done := ExtendTable(table[..i + 1]) + table[i + 1..];
            && (modules.custom.Some? ==> current[i := (name, modules.(right := modules.right + modules.custom.value))] == done)
            && (modules.custom.None? ==> current == done)
  {
    assert table[..i + 1] == table[..i] + [table[i]];
    assert table[i..] == [table[i]] + table[i + 1..];
    ExtendTableSnoc(table[..i], table[i].0, table[i].1);
  }

  /** One step of the allocation loop on the rows: the row written for the
      theme at `i`, numbered `first + i`, numbers one more theme. */
  lemma EntryStep(table: seq<(string, ThemeModules)>, i: nat, first: int, entries: seq<(string, string)>)
    requires i < |table| && entries == NewEntries(table[..i], first)
    ensures entries + [ThemeEntry(table[i].0, table[i].1, first + i)] == NewEntries(table[..i + 1], first)
  {
    assert table[..i + 1] == table[..i] + [table[i]];
    NewEntriesSnoc(table[..i], table[i].0, table[i].1, first);
  }

  /** Numbering one more theme appends its row. */
  lemma NewEntriesSnoc(themes: seq<(string, ThemeModules)>, name: string, modules: ThemeModules, first: int)
    ensures NewEntries(themes + [(name, modules)], first)
         == NewEntries(themes, first) + [ThemeEntry(name, modules, first + |themes|)]
  {
  }

  /** Each written row parses back to its theme's modules, with the right-hand
      list extended, height 40, position `top` and consecutive indices from
      `first`. */
  lemma NewEntriesParse(themes: seq<(string, ThemeModules)>, first: int)
    requires forall e <- themes :: ModulesWellFormed(e.1)
    ensures forall j :: 0 <= j < |themes| ==>
              var t := themes[j].1;
              && NewEntries(themes, first)[j].0 == themes[j].0
              && ParseLine(NewEntries(themes, first)[j].1)
                 == Some(CtlEntry(first + j, Some(40), "top", t.left, t.center, ExtendRight(t).right))
  {
    forall j | 0 <= j < |themes|
      ensures ParseLine(NewEntries(themes, first)[j].1)
              == Some(CtlEntry(first + j, Some(40), "top", themes[j].1.left, themes[j].1.center,
                               ExtendRight(themes[j].1).right))
    {
      var t := themes[j].1;
      assert themes[j] in themes;
      var u := ExtendRight(t);
      assert forall m <- t.left + t.center + u.right :: IsModuleName(m);
      ParseFormatRoundTrip(first + j, 40, "top", t.left, t.center, u.right);
    }
  }

  /** The characters the table's module names are made of. */
  predicate IsNameChar(c: char) {
    ('a' <= c <= 'z') || ('0' <= c <= '9') || c == '/' || c == '_' || c == '-'
  }

  /** A non-empty name made of name characters only. */
  predicate NameChars(m: string) {
    m != [] && forall i :: 0 <= i < |m| ==> IsNameChar(m[i])
  }

  /** Name characters are neither whitespace nor `|`. */
  lemma NameCharsModuleName(m: string)
    requires NameChars(m)
    ensures IsModuleName(m)
  {
    assert forall i :: 0 <= i < |m| ==> !IsSpace(m[i]) && m[i] != '|';
  }

  /** The bar's own modules are names the row format can carry. */
  lemma BarModuleNames()
    ensures IsModuleName(Workspaces) && IsModuleName(Taskbar) && IsModuleName(Clock) &&
            IsModuleName(IdleInhibitor) && IsModuleName(Backlight)
  {
    assert IsModuleName(Workspaces) by { assert NameChars(Workspaces); NameCharsModuleName(Workspaces); }
    assert IsModuleName(Taskbar) by { assert NameChars(Taskbar); NameCharsModuleName(Taskbar); }
    assert IsModuleName(Clock) by { assert NameChars(Clock); NameCharsModuleName(Clock); }
    assert IsModuleName(IdleInhibitor) by { assert NameChars(IdleInhibitor); NameCharsModuleName(IdleInhibitor); }
    assert IsModuleName(Backlight) by { assert NameChars(Backlight); NameCharsModuleName(Backlight); }
  }

  /** The system-status modules are names the row format can carry. */
  lemma SystemModuleNames()
    ensures IsModuleName(Pulseaudio) && IsModuleName(Battery) && IsModuleName(Tray) &&
            IsModuleName(Cpu) && IsModuleName(Memory) && IsModuleName(Temperature) &&
            IsModuleName(Network) && IsModuleName(Disk)
  {
    assert IsModuleName(Pulseaudio) by { assert NameChars(Pulseaudio); NameCharsModuleName(Pulseaudio); }
    assert IsModuleName(Battery) by { assert NameChars(Battery); NameCharsModuleName(Battery); }
    assert IsModuleName(Tray) by { assert NameChars(Tray); NameCharsModuleName(Tray); }
    assert IsModuleName(Cpu) by { assert NameChars(Cpu); NameCharsModuleName(Cpu); }
    assert IsModuleName(Memory) by { assert NameChars(Memory); NameCharsModuleName(Memory); }
    assert IsModuleName(Temperature) by { assert NameChars(Temperature); NameCharsModuleName(Temperature); }
    assert IsModuleName(Network) by { assert NameChars(Network); NameCharsModuleName(Network); }
    assert IsModuleName(Disk) by { assert NameChars(Disk); NameCharsModuleName(Disk); }
  }

  /** The first five custom modules are names the row format can carry. */
  lemma CustomModuleNames()
    ensures IsModuleName(CustomLauncher) && IsModuleName(CustomWeather) && IsModuleName(CustomVpn) &&
            IsModuleName(CustomNotification) && IsModuleName(CustomCava)
  {
    assert IsModuleName(CustomLauncher) by { assert NameChars(CustomLauncher); NameCharsModuleName(CustomLauncher); }
    assert IsModuleName(CustomWeather) by { assert NameChars(CustomWeather); NameCharsModuleName(CustomWeather); }
    assert IsModuleName(CustomVpn) by { assert NameChars(CustomVpn); NameCharsModuleName(CustomVpn); }
    assert IsModuleName(CustomNotification) by { assert NameChars(CustomNotification); NameCharsModuleName(CustomNotification); }
    assert IsModuleName(CustomCava) by { assert NameChars(CustomCava); NameCharsModuleName(CustomCava); }
  }

  /** The other custom modules are names the row format can carry. */
  lemma MoreCustomModuleNames()
    ensures IsModuleName(CustomMedia) && IsModuleName(CustomLayout) && IsModuleName(CustomUpdater) &&
            IsModuleName(CustomSnip) && IsModuleName(CustomOsButton)
  {
    assert IsModuleName(CustomMedia) by { assert NameChars(CustomMedia); NameCharsModuleName(CustomMedia); }
    assert IsModuleName(CustomLayout) by { assert NameChars(CustomLayout); NameCharsModuleName(CustomLayout); }
    assert IsModuleName(CustomUpdater) by { assert NameChars(CustomUpdater); NameCharsModuleName(CustomUpdater); }
    assert IsModuleName(CustomSnip) by { assert NameChars(CustomSnip); NameCharsModuleName(CustomSnip); }
    assert IsModuleName(CustomOsButton) by { assert NameChars(CustomOsButton); NameCharsModuleName(CustomOsButton); }
  }

  /** Every theme in the table lists only names the row format can carry. */
  lemma ThemeModulesTableWellFormed()
    ensures forall e <- ThemeModulesTable :: ModulesWellFormed(e.1)
  {
    FirstThemesWellFormed();
    LastThemesWellFormed();
    assert forall k :: 0 <= k < |ThemeModulesTable| ==> ModulesWellFormed(ThemeModulesTable[k].1);
  }

  /** The first five themes list only names the row format can carry. */
  lemma FirstThemesWellFormed()
    ensures forall k :: 0 <= k < 5 ==> ModulesWellFormed(ThemeModulesTable[k].1)
  {
    OpeningThemesWellFormed();
    MiddleThemesWellFormed();
  }

  /** The first three themes list only names the row format can carry. */
  lemma OpeningThemesWellFormed()
    ensures forall k :: 0 <= k < 3 ==> ModulesWellFormed(ThemeModulesTable[k].1)
  {
    BarModuleNames();
    SystemModuleNames();
    CustomModuleNames();
    MoreCustomModuleNames();
    assert ModulesWellFormed(ThemeModulesTable[0].1);
    assert ModulesWellFormed(ThemeModulesTable[1].1);
    assert ModulesWellFormed(ThemeModulesTable[2].1);
  }

  /** The fourth and fifth themes list only names the row format can carry. */
  lemma MiddleThemesWellFormed()
    ensures forall k :: 3 <= k < 5 ==> ModulesWellFormed(ThemeModulesTable[k].1)
  {
    BarModuleNames();
    SystemModuleNames();
    CustomModuleNames();
    MoreCustomModuleNames();
    assert ModulesWellFormed(ThemeModulesTable[3].1);
    assert ModulesWellFormed(ThemeModulesTable[4].1);
  }

  /** The last five themes list only names the row format can carry. */
  lemma LastThemesWellFormed()
    ensures forall k :: 5 <= k < 10 ==> ModulesWellFormed(ThemeModulesTable[k].1)
  {
    BarModuleNames();
    SystemModuleNames();
    assert ModulesWellFormed(ThemeModulesTable[5].1);
    assert ModulesWellFormed(ThemeModulesTable[6].1);
    assert ModulesWellFormed(ThemeModulesTable[7].1);
    assert ModulesWellFormed(ThemeModulesTable[8].1);
    assert ModulesWellFormed(ThemeModulesTable[9].1);
  }

  /** The comment line written before the appended rows. */
  const Marker: string := "# Theme-specific layouts (added by add-theme-layouts-to-configctl.py)"

  /** A `# name` line followed by the row, for every entry. */
  function EntryLines(entries: seq<(string, string)>): string {
    if entries == [] then ""
    else "# " + entries[0].0 + "\n" + entries[0].1 + "\n" + EntryLines(entries[1..])
  }

  /** What a non-dry run appends to the file. */
  function AppendedText(entries: seq<(string, string)>): string {
    "\n" + Marker + "\n" + EntryLines(entries)
  }

  /** The result `add_theme_layouts_to_configctl` reports. */
  datatype AddResult = AddResult(added: nat, entries: seq<(string, string)>, nextIndex: int)

  /** The module table, which a run updates in place. */
  class ThemeTable {
    var themes: seq<(string, ThemeModules)>

    /** The table as the script defines it. */
    constructor ()
      ensures themes == ThemeModulesTable
    {
      themes := ThemeModulesTable;
    }

    /** The allocation loop of `add_theme_layouts_to_configctl`: one row per
        theme in table order, numbered from `first`, each theme's right-hand
        list extended in the table itself before its row is formatted. */
    method ExtendAndFormat(first: int) returns (entries: seq<(string, string)>, next: int)
      modifies this
      ensures themes == ExtendTable(old(themes))
      ensures entries == NewEntries(old(themes), first)
      ensures next == first + |old(themes)|
    {
      ghost var table := themes;
      entries := [];
      next := first;
      var i := 0;
      assert table[..0] == [] && table[0..] == table;
      assert ExtendTable([]) == [] && NewEntries([], first) == [];
      while i < |themes|
        invariant 0 <= i <= |table|
        invariant next == first + i
        invariant themes == ExtendTable(table[..i]) + table[i..]
        invariant entries == NewEntries(table[..i], first)
      {
        ExtendStep(table, i, themes);
        var name := themes[i].0;
        var modules := themes[i].1;
        var right := modules.right;
        if modules.custom.Some? {
          right := right + modules.custom.value;
          themes := themes[i := (name, modules.(right := right))];
        }
        var entry := (name, FormatLine(next, 40, "top", modules.left, modules.center, right));
        assert entry == ThemeEntry(table[i].0, table[i].1, first + i);
        EntryStep(table, i, first, entries);
        entries := entries + [entry];
        next := next + 1;
        i := i + 1;
      }
      assert table[..i] == table && table[i..] == [];
    }

    /** `add_theme_layouts_to_configctl` over the file's text: rows numbered
        consecutively from one above the highest leading index, in table
        order, each theme's right-hand list extended in the table itself,
        and the appended text unless this is a dry run. */
    method AddThemeLayouts(content: string, dryRun: bool) returns (result: AddResult, newContent: string)
      modifies this
      ensures themes == ExtendTable(old(themes))
      ensures result.added == |old(themes)|
      ensures result.entries == NewEntries(old(themes), MaxIndexOf(ReadLines(content)) + 1)
      ensures result.nextIndex == MaxIndexOf(ReadLines(content)) + 1 + result.added
      ensures newContent == if dryRun then content else content + AppendedText(result.entries)
    {
      ghost var before := themes;
      var maxIndex := MaxIndex(ReadLines(content));
      var first := maxIndex + 1;
      var entries, next := ExtendAndFormat(first);
      assert first == MaxIndexOf(ReadLines(content)) + 1;
      assert entries == NewEntries(before, first) && next == first + |before|;
      result := AddResult(|entries|, entries, next);
      assert result.added == |before| && result.entries == entries;
      if dryRun {
        newContent := content;
      } else {
        newContent := content + AppendedText(entries);
      }
    }
  }
}
