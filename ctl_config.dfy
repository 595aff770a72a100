/**
  `generate-config-from-ctl.py`: parsing one row of the status bar's control
  file (`config.ctl`), finding a row by theme comment or by index, and merging
  the row into the bar's configuration document (`config.jsonc`).

  A control-file row is `index|height|position|(left)|(center)|(right)`, each
  module group a parenthesised, whitespace-separated list of module names.
*/
module CtlConfig {
  import opened Wrappers
  import opened Text

  /** One parsed row of the control file. */
  datatype CtlEntry = CtlEntry(
    index: int,
    height: Option<nat>,
    position: string,
    modulesLeft: seq<string>,
    modulesCenter: seq<string>,
    modulesRight: seq<string>)

  // ------------------------------------------------------------ row parsing

  /** `parse_modules`: strip, remove one enclosing `(`...`)` pair when both are
      there, strip again and split on whitespace. */
  function ParseModules(field: string): (r: seq<string>)
    ensures forall m <- r :: IsWord(m)
  {
    var s := Strip(field);
    var inner := if |s| >= 2 && s[0] == '(' && s[|s| - 1] == ')' then Strip(s[1..|s| - 1]) else s;
    if inner == "" then [] else SplitWords(inner)
  }

  /** The height field: `int(h) if h and h.isdigit() else None`. */
  function ParseHeight(field: string): Option<nat> {
    if IsDigits(field) then Some(DigitsValue(field)) else None
  }

  /** The height field reads back what `str` writes for a non-negative
      height, and refuses a sign, surrounding whitespace or an empty field. */
  lemma ParseHeightOfString(n: nat, pad: string)
    requires pad != [] && IsSpace(pad[0])
    ensures ParseHeight(NatToString(n)) == Some(n)
    ensures ParseHeight("-" + NatToString(n)) == None && ParseHeight("+" + NatToString(n)) == None
    ensures ParseHeight(pad + NatToString(n)) == None && ParseHeight(NatToString(n) + pad) == None
    ensures ParseHeight("") == None
  {
    var t := NatToString(n);
    assert !IsDigit('-') && !IsDigit('+') && !IsDigit(pad[0]);
    assert ("-" + t)[0] == '-' && ("+" + t)[0] == '+' && (pad + t)[0] == pad[0];
    assert (t + pad)[|t|] == pad[0];
  }

  /** The row once the line has been split on `|`: fewer than six fields, or a
      first field `int()` rejects, give None; fields after the sixth are never
      looked at. */
  function ParseFields(parts: seq<string>): Option<CtlEntry> {
    if |parts| < 6 then None
    else
      match ParseInt(parts[0])
      case None => None
      case Some(index) =>
        Some(CtlEntry(index, ParseHeight(parts[1]), parts[2],
                      ParseModules(parts[3]), ParseModules(parts[4]), ParseModules(parts[5])))
  }

  /** `parse_config_ctl_line`: blank lines and `#` comments are not rows. */
  function ParseLine(line: string): (r: Option<CtlEntry>)
    ensures r.Some? ==> Strip(line) != "" && Strip(line)[0] != '#'
  {
    var t := Strip(line);
    if t == "" || t[0] == '#' then None
    else ParseFields(SplitOn(t, '|'))
  }

  /** A line that is blank or a comment once stripped is never a row. */
  lemma ParseLineSkipsBlankAndComments(line: string)
    requires Strip(line) == "" || StartsWith(Strip(line), "#")
    ensures ParseLine(line) == None
  {
    if Strip(line) != "" {
      assert Strip(line)[0] == Strip(line)[..1][0];
    }
  }

  /** When a line is a row, and what each of its fields becomes: the row needs
      six fields and an integer first field; the height is present exactly when
      the second field is all digits; the position is the third field as it
      stands; the module groups are the next three fields. */
  lemma ParseLineFields(line: string)
    ensures var t := Strip(line);
            var parts := SplitOn(t, '|');
            && (ParseLine(line).Some? <==> t != "" && t[0] != '#' && |parts| >= 6 && ParseInt(parts[0]).Some?)
            && (ParseLine(line).Some? ==>
                  var e := ParseLine(line).value;
                  && Some(e.index) == ParseInt(parts[0])
                  && (e.height.Some? <==> IsDigits(parts[1]))
                  && (e.height.Some? ==> e.height.value == DigitsValue(parts[1]))
                  && e.position == parts[2]
                  && e.modulesLeft == ParseModules(parts[3])
                  && e.modulesCenter == ParseModules(parts[4])
                  && e.modulesRight == ParseModules(parts[5]))
  {
  }

  /** Appending further `|`-separated fields to a row leaves its parse
      unchanged: only the first six fields count. */
  lemma ParseLineIgnoresExtraFields(line: string, extra: string)
    requires line == Strip(line) && |SplitOn(line, '|')| >= 6
    ensures ParseLine(line + "|" + extra) == ParseLine(line)
  {
    assert line != [] by {
      assert SplitOn([], '|') == [""];
    }
    var whole := line + "|" + extra;
    assert StripStart(whole) == whole by {
      assert whole[0] == line[0];
    }
    StripEndAfter(line + "|", extra);
    var t := Strip(whole);
    assert t == line + "|" + StripEnd(extra);
    assert t[0] == line[0];
    SplitOnConcat(line, StripEnd(extra), '|');
    var parts := SplitOn(line, '|');
    var longer := SplitOn(t, '|');
    assert longer[..6] == parts[..6];
    assert longer[0] == parts[0] && longer[1] == parts[1] && longer[2] == parts[2];
    assert longer[3] == parts[3] && longer[4] == parts[4] && longer[5] == parts[5];
  }

  /** `parse_modules` removes exactly one enclosing pair of parentheses and
      splits what is inside on whitespace. */
  lemma ParseModulesUnwrapsOnce(inside: string)
    ensures ParseModules("(" + inside + ")") == SplitWords(inside)
  {
    var s := "(" + inside + ")";
    StripUnpadded(s);
    assert s[1..|s| - 1] == inside;
    SplitWordsStrip(inside);
    if Strip(inside) == "" {
      assert SplitWords(Strip(inside)) == [];
    }
  }

  /** A module group without enclosing parentheses is split as it stands. */
  lemma ParseModulesBare(field: string)
    requires var s := Strip(field); !(|s| >= 2 && s[0] == '(' && s[|s| - 1] == ')')
    ensures ParseModules(field) == SplitWords(field)
  {
    SplitWordsStrip(field);
    if Strip(field) == "" {
      assert SplitWords(Strip(field)) == [];
    }
  }

  /** `()` is the empty group, not a group holding an empty name. */
  lemma ParseModulesEmptyGroup()
    ensures ParseModules("()") == []
  {
    ParseModulesUnwrapsOnce("");
    assert "(" + "" + ")" == "()";
  }

  // ---------------------------------------------------------------- lookups

  /** The comment forms that name a theme: `# name` or `#name` anywhere in the
      line. */
  predicate IsThemeComment(line: string, theme: string) {
    Contains(line, "# " + theme) || Contains(line, "#" + theme)
  }

  /** Line `i` names the theme and the line after it, stripped, holds a `|` and
      is not a comment: the lookup by theme stops there. */
  predicate ThemeHit(lines: seq<string>, theme: string, i: int)
    requires 0 <= i < |lines|
  {
    && IsThemeComment(lines[i], theme)
    && i + 1 < |lines|
    && '|' in Strip(lines[i + 1])
    && !StartsWith(Strip(lines[i + 1]), "#")
  }

  /** The first position in `[from, n)` where `hit` holds: the shape of both
      lookups, which scan the lines in order and stop at the first match. */
  function FirstWhere(n: nat, hit: nat -> bool, from: nat): Option<nat>
    decreases n - from
  {
    if from >= n then None
    else if hit(from) then Some(from)
    else FirstWhere(n, hit, from + 1)
  }

  /** `FirstWhere` finds the first position where `hit` holds, and None means
      that it holds nowhere from `from` on. */
  lemma {:induction false} FirstWhereIsFirst(n: nat, hit: nat -> bool, from: nat)
    ensures match FirstWhere(n, hit, from)
            case None => forall i :: from <= i < n ==> !hit(i)
            case Some(k) => from <= k < n && hit(k) && forall i :: from <= i < k ==> !hit(i)
    decreases n - from
  {
    if from < n && !hit(from) {
      FirstWhereIsFirst(n, hit, from + 1);
    }
  }

  /** `ThemeHit` as a predicate on positions. */
  function ThemeHits(lines: seq<string>, theme: string): nat -> bool {
    (i: nat) => i < |lines| && ThemeHit(lines, theme, i)
  }

  /** The line the lookup by theme parses: the stripped line after the first
      stopping line, if there is one. */
  function ThemeRowLine(lines: seq<string>, theme: string): Option<string> {
    match FirstWhere(|lines|, ThemeHits(lines, theme), 0)
    case None => None
    case Some(k) => if k + 1 < |lines| then Some(Strip(lines[k + 1])) else None
  }

  /** The result of the lookup by theme: the parse of the line after the
      first stopping line (that parse may itself be None), or None. */
  function ThemeLookup(lines: seq<string>, theme: string): Option<CtlEntry> {
    match ThemeRowLine(lines, theme)
    case None => None
    case Some(row) => ParseLine(row)
  }

  /** The lookup by theme parses the line after the first theme comment that
      is followed by a row-like line, and gives None when there is no such
      comment. */
  lemma ThemeLookupFirstHit(lines: seq<string>, theme: string)
    ensures (forall i :: 0 <= i < |lines| ==> !ThemeHit(lines, theme, i)) ==> ThemeLookup(lines, theme) == None
    ensures forall i ::
              && 0 <= i < |lines| && ThemeHit(lines, theme, i)
              && (forall j :: 0 <= j < i ==> !ThemeHit(lines, theme, j))
              ==> ThemeLookup(lines, theme) == ParseLine(Strip(lines[i + 1]))
  {
    var hits := ThemeHits(lines, theme);
    FirstWhereIsFirst(|lines|, hits, 0);
    forall i | 0 <= i < |lines|
      ensures hits(i) == ThemeHit(lines, theme, i)
    {
    }
  }

  /** The scan of `find_config_ctl_entry_by_theme`: the stripped line after
      the first theme comment followed by a row-like line. */
  method FindThemeRow(lines: seq<string>, theme: string) returns (row: Option<string>)
    ensures row == ThemeRowLine(lines, theme)
  {
    var i := 0;
    while i < |lines|
      invariant 0 <= i <= |lines|
      invariant FirstWhere(|lines|, ThemeHits(lines, theme), i) == FirstWhere(|lines|, ThemeHits(lines, theme), 0)
    {
      if ThemeHit(lines, theme, i) {
        return Some(Strip(lines[i + 1]));
      }
      i := i + 1;
    }
    return None;
  }

  /** `find_config_ctl_entry_by_theme` over the file's lines. A missing file
      reads as no lines. */
  method FindEntryByTheme(lines: seq<string>, theme: string) returns (r: Option<CtlEntry>)
    ensures r == ThemeLookup(lines, theme)
  {
    var row := FindThemeRow(lines, theme);
    r := if row.Some? then ParseLine(row.value) else None;
  }

  /** The index a line would give as a row, found without parsing the module
      groups. */
  function RowIndex(line: string): Option<int> {
    var t := Strip(line);
    if t == "" || t[0] == '#' then None
    else
      var parts := SplitOn(t, '|');
      if |parts| < 6 then None else ParseInt(parts[0])
  }

  /** `RowIndex` is the index of the parsed row, and None exactly when the
      line is not a row. */
  lemma RowIndexOfParse(line: string)
    ensures RowIndex(line) == if ParseLine(line).Some? then Some(ParseLine(line).value.index) else None
  {
  }

  /** Line `i` parses as a row with the wanted index. */
  predicate IndexHit(lines: seq<string>, index: int, i: int)
    requires 0 <= i < |lines|
  {
    RowIndex(lines[i]) == Some(index)
  }

  /** `IndexHit` as a predicate on positions. */
  function IndexHits(lines: seq<string>, index: int): nat -> bool {
    (i: nat) => i < |lines| && IndexHit(lines, index, i)
  }

  /** The result of the lookup by index: the parse of the first line with the
      wanted index, or None. */
  function IndexLookup(lines: seq<string>, index: int): Option<CtlEntry> {
    match FirstWhere(|lines|, IndexHits(lines, index), 0)
    case None => None
    case Some(k) => if k < |lines| then ParseLine(lines[k]) else None
  }

  /** The lookup by index gives a row with the wanted index, the parse of the
      first line that has it, and None exactly when no line has it. */
  lemma IndexLookupFirstHit(lines: seq<string>, index: int)
    ensures IndexLookup(lines, index).Some? ==> IndexLookup(lines, index).value.index == index
    ensures (forall i :: 0 <= i < |lines| ==> !IndexHit(lines, index, i)) <==> IndexLookup(lines, index) == None
    ensures forall i ::
              && 0 <= i < |lines| && IndexHit(lines, index, i)
              && (forall j :: 0 <= j < i ==> !IndexHit(lines, index, j))
              ==> IndexLookup(lines, index) == ParseLine(lines[i])
  {
    var hits := IndexHits(lines, index);
    FirstWhereIsFirst(|lines|, hits, 0);
    match FirstWhere(|lines|, hits, 0)
    case None =>
      forall i | 0 <= i < |lines|
        ensures !IndexHit(lines, index, i)
      {
        assert !hits(i);
      }
    case Some(k) =>
      assert hits(k);
      RowIndexOfParse(lines[k]);
      forall i | 0 <= i < |lines| && IndexHit(lines, index, i) && (forall j :: 0 <= j < i ==> !IndexHit(lines, index, j))
        ensures i == k
      {
        assert hits(i) == IndexHit(lines, index, i);
      }
  }

  /** The scan of `find_config_ctl_entry_by_index`: the position of the first
      line that parses with the wanted index. */
  method FindRowByIndex(lines: seq<string>, index: int) returns (k: Option<nat>)
    ensures k == FirstWhere(|lines|, IndexHits(lines, index), 0)
  {
    var i := 0;
    while i < |lines|
      invariant 0 <= i <= |lines|
      invariant FirstWhere(|lines|, IndexHits(lines, index), i) == FirstWhere(|lines|, IndexHits(lines, index), 0)
    {
      if IndexHit(lines, index, i) {
        return Some(i);
      }
      i := i + 1;
    }
    return None;
  }

  /** `find_config_ctl_entry_by_index` over the file's lines. A missing file
      reads as no lines. */
  method FindEntryByIndex(lines: seq<string>, index: int) returns (r: Option<CtlEntry>)
    ensures r == IndexLookup(lines, index)
  {
    var k := FindRowByIndex(lines, index);
    r := if k.Some? && k.value < |lines| then ParseLine(lines[k.value]) else None;
  }

  // ------------------------------------------------------ configuration merge

  /** The JSON values a configuration document holds (numbers as integers). */
  datatype Json =
    | JNull
    | JBool(b: bool)
    | JNumber(n: int)
    | JString(s: string)
    | JArray(items: seq<Json>)
    | JObject(members: map<string, Json>)

  /** What the optional header file gave: no header (none named, or the file
      is missing), a file that is not valid JSON, or a JSON object. */
  datatype Header = NoHeader | UnparsableHeader | HeaderObject(members: map<string, Json>)

  /** The configuration used when there is no header file. */
  const DefaultConfig: map<string, Json> := map[
    "layer" := JString("top"),
    "output" := JArray([JString("*")]),
    "exclusive" := JBool(true),
    "passthrough" := JBool(false),
    "gtk-layer-shell" := JBool(true),
    "reload_style_on_change" := JBool(true)]

  /** The `include` value added when the merged configuration has none. */
  const DefaultInclude: Json := JArray([
    JString("$XDG_CONFIG_HOME/waybar/modules/*json*"),
    JString("$XDG_CONFIG_HOME/waybar/includes/includes.json")])

  /** The keys the merge may set; every other key is carried over untouched. */
  const MergedKeys: set<string> := {"position", "height", "modules-left", "modules-center", "modules-right", "include"}

  /** The configuration the merge starts from. */
  function BaseConfig(header: Header): map<string, Json> {
    match header
    case NoHeader => DefaultConfig
    case UnparsableHeader => map[]
    case HeaderObject(members) => members
  }

  /** A list of module names as a JSON array of strings. */
  function ModuleList(names: seq<string>): (j: Json)
    ensures j.JArray? && |j.items| == |names|
    ensures forall i :: 0 <= i < |names| ==> j.items[i] == JString(names[i])
  {
    JArray(seq(|names|, i requires 0 <= i < |names| => JString(names[i])))
  }

  /** Python's truth value of the row's height: absent and 0 are both false. */
  predicate HasHeight(entry: CtlEntry) {
    entry.height.Some? && entry.height.value != 0
  }

  /** `key` is present in `after` exactly when it was in `before`, with the
      same value. */
  predicate KeptFrom(before: map<string, Json>, after: map<string, Json>, key: string) {
    && (key in after <==> key in before)
    && (key in before ==> after[key] == before[key])
  }

  /** The keys written to `config.jsonc`, in the order they are written. */
  function EmittedKeys(withHeight: bool): seq<string> {
    ["layer", "output", "position"]
    + (if withHeight then ["height"] else [])
    + ["exclusive", "passthrough", "gtk-layer-shell", "reload_style_on_change", "include",
       "modules-left", "modules-center", "modules-right"]
  }

  /** The values written for keys the merged configuration lacks, as in
      `config.get(key, fallback)`. The position and the module lists have
      none: they are read as `config[key]`. */
  const Fallbacks: map<string, Json> := map[
    "layer" := JString("top"),
    "output" := JArray([JString("*")]),
    "exclusive" := JBool(true),
    "passthrough" := JBool(false),
    "gtk-layer-shell" := JBool(true),
    "reload_style_on_change" := JBool(true),
    "include" := JArray([])]

  /** The merged configuration holds every key that is read without a
      fallback. */
  predicate HasDirectKeys(config: map<string, Json>) {
    "position" in config && "modules-left" in config && "modules-center" in config && "modules-right" in config
  }

  /** The value written for `key`: the merged value, or its fallback. */
  function EmittedValue(config: map<string, Json>, key: string): Json
    requires key in config || key in Fallbacks
  {
    if key in config then config[key] else Fallbacks[key]
  }

  /** The document written to `config.jsonc`: the row index named in its
      header comment and its key/value pairs in order. */
  datatype Document = Document(sourceIndex: int, fields: seq<(string, Json)>)

  /** The merge step of `generate_config_jsonc`. The position and the three
      module lists are always overwritten; the height only when the row's
      height is present and non-zero; `include` is added only when missing;
      every other key keeps its value. */
  method MergeEntry(entry: CtlEntry, header: Header) returns (config: map<string, Json>)
    ensures "position" in config && config["position"] == JString(entry.position)
    ensures HasHeight(entry) ==> "height" in config && config["height"] == JNumber(entry.height.value)
    ensures !HasHeight(entry) ==> KeptFrom(BaseConfig(header), config, "height")
    ensures "modules-left" in config && config["modules-left"] == ModuleList(entry.modulesLeft)
    ensures "modules-center" in config && config["modules-center"] == ModuleList(entry.modulesCenter)
    ensures "modules-right" in config && config["modules-right"] == ModuleList(entry.modulesRight)
    ensures "include" in config
    ensures config["include"] == if "include" in BaseConfig(header) then BaseConfig(header)["include"] else DefaultInclude
    ensures forall key :: key !in MergedKeys ==> KeptFrom(BaseConfig(header), config, key)
  {
    config := BaseConfig(header);
    config := config["position" := JString(entry.position)];
    if HasHeight(entry) {
      config := config["height" := JNumber(entry.height.value)];
    }
    config := config["modules-left" := ModuleList(entry.modulesLeft)];
    config := config["modules-center" := ModuleList(entry.modulesCenter)];
    config := config["modules-right" := ModuleList(entry.modulesRight)];
    if "include" !in config {
      config := config["include" := DefaultInclude];
    }
  }

  /** The value written for `key`: the row's own height for `height`, and
      otherwise the merged value or its fallback. */
  function WrittenValue(entry: CtlEntry, config: map<string, Json>, key: string): Json
    requires HasDirectKeys(config) && key in EmittedKeys(HasHeight(entry))
  {
    if key == "height" && HasHeight(entry) then JNumber(entry.height.value) else EmittedValue(config, key)
  }

  /** The write step of `generate_config_jsonc`: the document names the row's
      index and holds the fixed keys in the fixed order, `height` only when the
      row's height is non-zero. */
  method WriteDocument(entry: CtlEntry, config: map<string, Json>) returns (doc: Document)
    requires HasDirectKeys(config)
    ensures doc.sourceIndex == entry.index
    ensures |doc.fields| == |EmittedKeys(HasHeight(entry))|
    ensures forall i :: 0 <= i < |doc.fields| ==>
              doc.fields[i] == (EmittedKeys(HasHeight(entry))[i], WrittenValue(entry, config, EmittedKeys(HasHeight(entry))[i]))
  {
    var fields := [
      ("layer", EmittedValue(config, "layer")),
      ("output", EmittedValue(config, "output")),
      ("position", EmittedValue(config, "position"))];
    if HasHeight(entry) {
      fields := fields + [("height", JNumber(entry.height.value))];
    }
    fields := fields + [
      ("exclusive", EmittedValue(config, "exclusive")),
      ("passthrough", EmittedValue(config, "passthrough")),
      ("gtk-layer-shell", EmittedValue(config, "gtk-layer-shell")),
      ("reload_style_on_change", EmittedValue(config, "reload_style_on_change")),
      ("include", EmittedValue(config, "include")),
      ("modules-left", EmittedValue(config, "modules-left")),
      ("modules-center", EmittedValue(config, "modules-center")),
      ("modules-right", EmittedValue(config, "modules-right"))];
    doc := Document(entry.index, fields);
  }

  /** `generate_config_jsonc`: merge the row into the base configuration,
      then write the document, with `height` among its keys exactly when the
      row's height is non-zero. */
  method GenerateConfig(entry: CtlEntry, header: Header) returns (config: map<string, Json>, doc: Document)
    ensures "position" in config && config["position"] == JString(entry.position)
    ensures HasHeight(entry) ==> "height" in config && config["height"] == JNumber(entry.height.value)
    ensures !HasHeight(entry) ==> KeptFrom(BaseConfig(header), config, "height")
    ensures "modules-left" in config && config["modules-left"] == ModuleList(entry.modulesLeft)
    ensures "modules-center" in config && config["modules-center"] == ModuleList(entry.modulesCenter)
    ensures "modules-right" in config && config["modules-right"] == ModuleList(entry.modulesRight)
    ensures "include" in config
    ensures config["include"] == if "include" in BaseConfig(header) then BaseConfig(header)["include"] else DefaultInclude
    ensures forall key :: key !in MergedKeys ==> KeptFrom(BaseConfig(header), config, key)
    ensures doc.sourceIndex == entry.index
    ensures |doc.fields| == |EmittedKeys(HasHeight(entry))|
    ensures forall i :: 0 <= i < |doc.fields| ==>
              doc.fields[i] == (EmittedKeys(HasHeight(entry))[i], EmittedValue(config, EmittedKeys(HasHeight(entry))[i]))
  {
    config := MergeEntry(entry, header);
    doc := WriteDocument(entry, config);
  }

  /** The written keys are distinct, and `height` is among them exactly when
      asked for. */
  lemma EmittedKeysShape(withHeight: bool)
    ensures ("height" in EmittedKeys(withHeight)) <==> withHeight
    ensures forall i, j :: 0 <= i < j < |EmittedKeys(withHeight)| ==> EmittedKeys(withHeight)[i] != EmittedKeys(withHeight)[j]
    ensures forall k <- EmittedKeys(withHeight) :: k in MergedKeys || k in DefaultConfig
  {
  }
}
