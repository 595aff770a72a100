# HyDE Waybar layout tools, modelled in Dafny

This project models three helper scripts that HyDE uses to manage Waybar status-bar layouts and themes.

- **`generate-config-from-ctl.py`** reads the bar's control file, `config.ctl`. Each row of that file has the form `index|height|position|( left modules )|( center modules )|( right modules )`. The script picks one row, either through a `# theme` comment line above it or by its index. It merges the row into a base configuration and writes the bar's `config.jsonc`.
- **`add-theme-layouts-to-configctl.py`** scans `config.ctl` for the highest leading index. It then appends one row per known theme, taken from its built-in module table and numbered consecutively above that index. A theme's `custom` modules are appended to its right-hand group, and this extension happens in place, in the table itself.
- **`templatize-waybar-themes.py`** rewrites hard-coded colours in a theme's style sheet as HyDE colour variables. It makes two `re.sub` passes: first over `rgb(...)`/`rgba(...)` literals, then over `#hex` literals. For each literal it asks a classifier for a variable, judging the literal by its lowered spelling and by the 50 characters that precede it. Literals the classifier names are replaced and logged; all others are kept.

The project has five modules, one per file:

| file | module | what it holds |
|---|---|---|
| `wrappers.dfy` | `Wrappers` | the `Option` type |
| `text.dfy` | `Text` | the parts of Python's `str` that the scripts use: `strip`, `split()`, `split(sep)`, `join`, `int()`, `str()` of an integer, `isdigit`, `in` and `lower` |
| `ctl_config.dfy` | `CtlConfig` | row parsing, both lookups, the merge and the document written |
| `theme_layouts.dfy` | `ThemeLayouts` | row formatting, the theme table, the maximum-index scan, and the `ThemeTable` class whose methods extend the table in place and produce the new rows |
| `templatize.dfy` | `Templatize` | `hex_to_rgb`, brightness, the classifier `suggest_hyde_var`, the two literal scanners, and the substitution passes |

**How the model departs from the Python:**

- **Loops become methods.** Loops over lines or literals are methods with loop invariants: `FindThemeRow`, `FindRowByIndex`, `MaxIndex`, `ThemeTable.ExtendAndFormat` and `SubstitutePass`. Each method is proved equal to a specification function, and the lemmas about the source's promises are stated on those functions.
- **Files become strings.** A file's content is a string. "Missing file" reads as no lines.
- **Colour arithmetic is exact.** Brightness is compared as the integer 299r + 587g + 114b against the scaled thresholds. Alpha values are compared as exact decimal fractions.
- **Where the code and its description differ, the model follows the code.** A six-digit literal such as `#123456` with no recognised keyword in its context is not left unchanged. Its brightness, about 0.18, lies inside (0.1, 0.95), so the classifier proposes the dark accent `@wallbash_1xa3`; `DarkAccentExample` states this.

## Model

| member | source | states |
|---|---|---|
| Text.Strip | Configs/.local/lib/hyde/generate-config-from-ctl.py:22 | the stripped line is no longer than the line and starts and ends with a non-whitespace character, or is empty |
| Text.StripEmpty | Configs/.local/lib/hyde/generate-config-from-ctl.py:22-24 | a line strips to nothing exactly when every character is whitespace, so these are the lines skipped as blank |
| Text.SplitWords | Configs/.local/lib/hyde/generate-config-from-ctl.py:45 | `split()` yields only non-empty runs of non-whitespace |
| Text.SplitOn | Configs/.local/lib/hyde/generate-config-from-ctl.py:26 | splitting on the bar always yields at least one field, and no field holds the separator |
| Text.SplitOnJoin | Configs/.local/lib/hyde/add-theme-layouts-to-configctl.py:83 | splitting a bar-joined row on the bar gives back its fields when none of them holds a bar |
| Text.SplitWordsJoin | Configs/.local/lib/hyde/add-theme-layouts-to-configctl.py:74-76 | `split()` undoes `' '.join` on module names |
| Text.ParseIntToString | Configs/.local/lib/hyde/add-theme-layouts-to-configctl.py:83 | `int(str(n)) == n` for every integer, so a written index reads back as itself |
| Text.ParseIntSpaces | Configs/.local/lib/hyde/add-theme-layouts-to-configctl.py:95-97 | `int()` ignores leading whitespace, so a first field with a leading space reads as the same index |
| Text.Lower | Configs/.local/lib/hyde/templatize-waybar-themes.py:66-67 | `lower()` keeps the length and lowers each character in place |
| Text.LowerTwice | Configs/.local/lib/hyde/templatize-waybar-themes.py:66-67 | lowering is idempotent |
| CtlConfig.ParseModules | Configs/.local/lib/hyde/generate-config-from-ctl.py:36-46 | every module name parsed from a group is a non-empty run of non-whitespace |
| CtlConfig.ParseLine | Configs/.local/lib/hyde/generate-config-from-ctl.py:15-62 | a parsed row never comes from a blank or comment line |
| CtlConfig.ParseLineSkipsBlankAndComments | Configs/.local/lib/hyde/generate-config-from-ctl.py:22-24 | a line that is blank or starts with `#` once stripped is not a row |
| CtlConfig.ParseLineFields | Configs/.local/lib/hyde/generate-config-from-ctl.py:22-59 | a line is a row exactly when it is non-blank, not a comment, has at least six fields and has an integer first field; the height is present exactly when the second field is all digits; the position and module groups come from fields three to six |
| CtlConfig.ParseLineIgnoresExtraFields | Configs/.local/lib/hyde/generate-config-from-ctl.py:26-50 | appending further fields to a row leaves its parse unchanged |
| CtlConfig.ParseModulesUnwrapsOnce | Configs/.local/lib/hyde/generate-config-from-ctl.py:39-46 | exactly one enclosing pair of parentheses is removed, and the inside is split on whitespace |
| CtlConfig.ParseModulesBare | Configs/.local/lib/hyde/generate-config-from-ctl.py:39-46 | a group without enclosing parentheses is split as it stands |
| CtlConfig.ParseModulesEmptyGroup | Configs/.local/lib/hyde/generate-config-from-ctl.py:40-43 | `()` is the empty list of modules |
| CtlConfig.ParseHeightOfString | Configs/.local/lib/hyde/generate-config-from-ctl.py:32-54 | the height field reads back the decimal text of any non-negative height, and is absent for an empty field, a sign or surrounding whitespace, which `isdigit` rejects |
| CtlConfig.FirstWhereIsFirst | Configs/.local/lib/hyde/generate-config-from-ctl.py:72-81 | the in-order scan returns the first position where its test holds, and None only when the test holds nowhere |
| CtlConfig.ThemeLookupFirstHit | Configs/.local/lib/hyde/generate-config-from-ctl.py:72-81 | the theme lookup parses the stripped line after the first `# theme`/`#theme` comment whose next line holds a bar and is not a comment; with no such comment it finds nothing |
| CtlConfig.FindThemeRow | Configs/.local/lib/hyde/generate-config-from-ctl.py:72-81 | the scan loop returns exactly the line that the lookup specification names |
| CtlConfig.FindEntryByTheme | Configs/.local/lib/hyde/generate-config-from-ctl.py:64-81 | the result is the theme lookup's result |
| CtlConfig.RowIndexOfParse | Configs/.local/lib/hyde/generate-config-from-ctl.py:89-92 | the index test used by the scan agrees with the parsed row's index, and fails exactly on non-rows |
| CtlConfig.IndexLookupFirstHit | Configs/.local/lib/hyde/generate-config-from-ctl.py:89-94 | the index lookup returns a row with the wanted index, namely the parse of the first line that has it, and returns None exactly when no line has it |
| CtlConfig.FindRowByIndex | Configs/.local/lib/hyde/generate-config-from-ctl.py:89-92 | the scan loop stops at the first line whose row has the wanted index |
| CtlConfig.FindEntryByIndex | Configs/.local/lib/hyde/generate-config-from-ctl.py:83-94 | the result is the index lookup's result |
| CtlConfig.ModuleList | Configs/.local/lib/hyde/generate-config-from-ctl.py:130-132 | the JSON array holds the module names as strings, in order |
| CtlConfig.MergeEntry | Configs/.local/lib/hyde/generate-config-from-ctl.py:107-139 | position and module lists are overwritten; the height is overwritten only when present and non-zero, and otherwise kept; `include` is kept or else defaulted; every other key of the base (header, defaults, or `{}` for an unparsable header) is kept |
| CtlConfig.WriteDocument | Configs/.local/lib/hyde/generate-config-from-ctl.py:145-164 | the document names the row's index and writes the fixed keys in the fixed order, each with its merged value or its `get` fallback; the position and the module lists have no fallback and are read from the merged configuration, which always holds them; `height` is written only when the height is non-zero |
| CtlConfig.GenerateConfig | Configs/.local/lib/hyde/generate-config-from-ctl.py:96-166 | the merged configuration and the written document, as the two previous rows state |
| CtlConfig.EmittedKeysShape | Configs/.local/lib/hyde/generate-config-from-ctl.py:149-162 | the written keys are distinct; `height` is among them exactly when asked for; each key is merged or has a default |
| ThemeLayouts.ModuleGroup | Configs/.local/lib/hyde/add-theme-layouts-to-configctl.py:74-81 | a group is written `()` or as `( ... )` with a space inside each parenthesis |
| ThemeLayouts.ModuleGroupRoundTrip | Configs/.local/lib/hyde/add-theme-layouts-to-configctl.py:74-81 | parsing a written group gives back the module names, including the empty group |
| ThemeLayouts.ParseModulesPadded | Configs/.local/lib/hyde/add-theme-layouts-to-configctl.py:79-81 | the spaces inside `( ... )` do not change what the parser reads |
| ThemeLayouts.ModuleGroupExcludesBar | Configs/.local/lib/hyde/add-theme-layouts-to-configctl.py:74-81 | a group of names without a bar holds no bar |
| ThemeLayouts.FormatLine | Configs/.local/lib/hyde/add-theme-layouts-to-configctl.py:70-83 | a formatted row splits on the bar into exactly six fields: the index, the height, the position and the three written groups, whenever the position and the names hold no bar |
| ThemeLayouts.ParseFormatRoundTrip | Configs/.local/lib/hyde/add-theme-layouts-to-configctl.py:70-83 | parsing a formatted row gives back its index, height, position and module lists, whenever the position holds no bar and every module name is a non-empty run of non-whitespace without a bar |
| ThemeLayouts.FormatLineEnds | Configs/.local/lib/hyde/add-theme-layouts-to-configctl.py:83 | a formatted row starts with a digit or `-` and ends with `)`, so it is its own strip and not a comment |
| ThemeLayouts.ParseLineDocExample | Configs/.local/lib/hyde/generate-config-from-ctl.py:19-20 | the documented example row parses to index 2, height 40, `top` and the three documented module lists |
| ThemeLayouts.DocExampleFields | Configs/.local/lib/hyde/add-theme-layouts-to-configctl.py:70-83 | formatting index 2, height 40, `top` and the example's module lists gives exactly the documented row |
| ThemeLayouts.ExtendRight | Configs/.local/lib/hyde/add-theme-layouts-to-configctl.py:112-118 | extending keeps the left and center groups and the custom list; the right group becomes the original right group followed by the custom modules, or stays as it is without them; well-formed names stay well-formed |
| ThemeLayouts.ExtendTable | Configs/.local/lib/hyde/add-theme-layouts-to-configctl.py:106-118 | extending the table keeps every theme's name and position and extends each theme |
| ThemeLayouts.ExtendRightTwice | Configs/.local/lib/hyde/add-theme-layouts-to-configctl.py:112-118 | the in-place extension is not idempotent: a second run over the same table appends the custom modules again |
| ThemeLayouts.ReadLines | Configs/.local/lib/hyde/add-theme-layouts-to-configctl.py:89-90 | `readlines()` gives non-empty lines that concatenate back to the text |
| ThemeLayouts.ReadLinesCutsAtNewlines | Configs/.local/lib/hyde/add-theme-layouts-to-configctl.py:89-90 | `readlines()` cuts right after each newline and nowhere else: every line but the last ends with a newline, and no line has a newline before its last character |
| ThemeLayouts.MaxOf | Configs/.local/lib/hyde/add-theme-layouts-to-configctl.py:93-100 | the running maximum from 0 is at least 0 and at least every present value, and is either 0 or one of those values |
| ThemeLayouts.MaxIndexOf | Configs/.local/lib/hyde/add-theme-layouts-to-configctl.py:92-100 | the highest index is at least 0 and at least every leading index, and is either 0 or one of them |
| ThemeLayouts.MaxIndex | Configs/.local/lib/hyde/add-theme-layouts-to-configctl.py:92-100 | the scan loop computes that highest index |
| ThemeLayouts.LeadingIndexStripped | Configs/.local/lib/hyde/add-theme-layouts-to-configctl.py:95-97 | the index the scan reads from the first bar-separated field of the unstripped line equals the one read from the stripped line |
| ThemeLayouts.LeadingIndexOfRow | Configs/.local/lib/hyde/add-theme-layouts-to-configctl.py:94-100 | every line that parses as a row has that row's index as its leading index, so the scan sees every existing row |
| ThemeLayouts.NewIndexAboveRows | Configs/.local/lib/hyde/add-theme-layouts-to-configctl.py:92-104 | every index handed out is above the index of every row already in the file |
| ThemeLayouts.NewEntries | Configs/.local/lib/hyde/add-theme-layouts-to-configctl.py:102-123 | one entry per theme, in table order, numbered consecutively from the first index, with height 40, position `top` and the extended right-hand group |
| ThemeLayouts.NewEntriesParse | Configs/.local/lib/hyde/add-theme-layouts-to-configctl.py:106-123 | each new row parses back as its theme's modules with the right-hand group extended, height 40, position `top` and consecutive indices |
| ThemeLayouts.ThemeModulesTableWellFormed | Configs/.local/lib/hyde/add-theme-layouts-to-configctl.py:14-68 | every module name in the theme table can be carried by the row format |
| ThemeLayouts.ThemeTable.constructor | Configs/.local/lib/hyde/add-theme-layouts-to-configctl.py:14-68 | the table starts out as the script's theme table |
| ThemeLayouts.ThemeTable.ExtendAndFormat | Configs/.local/lib/hyde/add-theme-layouts-to-configctl.py:102-123 | after the loop, every theme in the table is extended in place; the rows are the table's new entries from the first index; the next index is the first plus the number of themes |
| ThemeLayouts.ThemeTable.AddThemeLayouts | Configs/.local/lib/hyde/add-theme-layouts-to-configctl.py:85-138 | the table is extended in place; one entry per theme, numbered from one above the highest leading index of the file's lines; the reported next index follows the last entry; the file gains the marker comment and a `# name` line plus a row per entry, unless this is a dry run |
| Templatize.SuggestedNamesAreReferences | Configs/.local/lib/hyde/templatize-waybar-themes.py:55-221 | every variable the classifier can propose is an `@` reference |
| Templatize.DropHashes | Configs/.local/lib/hyde/templatize-waybar-themes.py:38 | `lstrip('#')` leaves no leading `#` |
| Templatize.DropHashesSuffix | Configs/.local/lib/hyde/templatize-waybar-themes.py:38 | `lstrip('#')` removes exactly a prefix made of `#`s: the result is a suffix of the input and every character before it is `#` |
| Templatize.Doubled | Configs/.local/lib/hyde/templatize-waybar-themes.py:40 | every character is written twice, in order |
| Templatize.DropHashOfDigits | Configs/.local/lib/hyde/templatize-waybar-themes.py:38 | the `#` in front of hex digits is the only one dropped |
| Templatize.HexPairValue | Configs/.local/lib/hyde/templatize-waybar-themes.py:41 | `int(xy, 16)` on two hex digits is 16·x + y |
| Templatize.HexDigitInt | Configs/.local/lib/hyde/templatize-waybar-themes.py:41 | `int(x, 16)` on one hex digit is its value, as for the short last slice of a five-digit colour |
| Templatize.HexToRgbSixDigits | Configs/.local/lib/hyde/templatize-waybar-themes.py:36-41 | a six-digit colour reads as three channels, two digits each, each in 0..255 |
| Templatize.HexToRgbThreeDigits | Configs/.local/lib/hyde/templatize-waybar-themes.py:36-41 | a three-digit colour doubles its digits, so every channel is 17 times its digit |
| Templatize.HexToRgbFourDigits | Configs/.local/lib/hyde/templatize-waybar-themes.py:36-41 | a four-digit colour has an empty third slice, which `int` rejects, so the conversion fails |
| Templatize.HexToRgbFiveDigits | Configs/.local/lib/hyde/templatize-waybar-themes.py:36-41 | a five-digit colour reads two full channels and a blue channel from its single last digit |
| Templatize.HexToRgbLengths | Configs/.local/lib/hyde/templatize-waybar-themes.py:36-41 | `hex_to_rgb` succeeds only when, once the `#`s are dropped, the colour has three characters or at least five; shorter forms leave a slice empty, which `int` rejects |
| Templatize.Brightness | Configs/.local/lib/hyde/templatize-waybar-themes.py:50-53 | the brightness times 255000 is the weighted sum 299r + 587g + 114b |
| Templatize.BrightnessThresholds | Configs/.local/lib/hyde/templatize-waybar-themes.py:146-150 | the brightness comparisons with 0.3, 0.6, 0.1 and 0.95 are the integer comparisons of the weighted sum with 76500, 153000, 25500 and 242250 |
| Templatize.Bucket | Configs/.local/lib/hyde/templatize-waybar-themes.py:146-151 | an accent is always one of the dark, medium or light wallbash variables |
| Templatize.BucketByBrightness | Configs/.local/lib/hyde/templatize-waybar-themes.py:146-151 | the accent is dark below brightness 0.3, medium below 0.6, and light otherwise |
| Templatize.AlphaThresholds | Configs/.local/lib/hyde/templatize-waybar-themes.py:76-79 | the exact alpha tests are `alpha < 0.1` and `alpha >= 0.9` on the decimal's value |
| Templatize.ParseDecimalFraction | Configs/.local/lib/hyde/templatize-waybar-themes.py:76 | `float` reads digits, a point and digits as the digits over the matching power of ten |
| Templatize.AlphaOfParts | Configs/.local/lib/hyde/templatize-waybar-themes.py:73-76 | the alpha of a group `r,g,b,a` is `float(a)`: the fourth comma-separated part |
| Templatize.OpenerAt | Configs/.local/lib/hyde/templatize-waybar-themes.py:251 | the opener is 5 long exactly when `rgba(` starts at the position, 4 exactly when `rgb(` does and `rgba(` does not, and 0 otherwise |
| Templatize.CloseFrom | Configs/.local/lib/hyde/templatize-waybar-themes.py:251 | the result is the first `)` at or after the position, or None when there is none |
| Templatize.NextRgba | Configs/.local/lib/hyde/templatize-waybar-themes.py:251 | the leftmost match of `rgba?\([^)]+\)` at or after the position; None when no position matches |
| Templatize.HexRun | Configs/.local/lib/hyde/templatize-waybar-themes.py:237 | the run of hex digits is maximal |
| Templatize.HexAt | Configs/.local/lib/hyde/templatize-waybar-themes.py:237 | a match ends exactly after `#`, three to six hex digits and a word boundary: it is found exactly when such a run exists, and then the match is that run |
| Templatize.NextHex | Configs/.local/lib/hyde/templatize-waybar-themes.py:237 | the leftmost match of `#[0-9a-fA-F]{3,6}\b` at or after the position; None when no position matches |
| Templatize.ColourRule | Configs/.local/lib/hyde/templatize-waybar-themes.py:69-109 | the colour rules propose only known variables |
| Templatize.ContextRule | Configs/.local/lib/hyde/templatize-waybar-themes.py:111-221 | the context rules propose only known variables |
| Templatize.Classify | Configs/.local/lib/hyde/templatize-waybar-themes.py:66-221 | the classifier proposes only known variables |
| Templatize.Suggest | Configs/.local/lib/hyde/templatize-waybar-themes.py:55-221 | `suggest_hyde_var` proposes nothing, or one of the ten known variables |
| Templatize.SuggestIgnoresCase | Configs/.local/lib/hyde/templatize-waybar-themes.py:66-67 | only the lowered colour and context matter |
| Templatize.HexFieldOfLiteral | Configs/.local/lib/hyde/templatize-waybar-themes.py:142 | the field cut out of a lowercase hex literal is its digits |
| Templatize.HexLiteralShade | Configs/.local/lib/hyde/templatize-waybar-themes.py:84 | a three- or six-digit literal passes the black test exactly when its digits are all 0, and the white test exactly when they are all f |
| Templatize.HexLiteralSuggestion | Configs/.local/lib/hyde/templatize-waybar-themes.py:111-216 | a lowercase hex literal that is neither black nor white is classified by the first context rule that applies: active, then hover, then background, colour or border (an accent by brightness); otherwise it gets an accent only for brightness strictly between 0.1 and 0.95, and is kept outside that range |
| Templatize.FourDigitHexKept | Configs/.local/lib/hyde/templatize-waybar-themes.py:140-153 | a four-digit literal is kept outside active and hover contexts, because `hex_to_rgb` rejects it |
| Templatize.DarkAccentExample | Configs/.local/lib/hyde/templatize-waybar-themes.py:202-216 | `#123456` in an empty context becomes the dark accent |
| Templatize.BlackHexSuggestion | Configs/.local/lib/hyde/templatize-waybar-themes.py:84-87 | `#000` and `#000000` become the main background in a background context, and the main foreground otherwise, whatever else the context says |
| Templatize.WhiteHexSuggestion | Configs/.local/lib/hyde/templatize-waybar-themes.py:101-104 | `#fff` and `#ffffff` always become the main foreground |
| Templatize.RgbLiteralSuggestion | Configs/.local/lib/hyde/templatize-waybar-themes.py:69-221 | a colour mentioning neither `rgba` nor `#` is replaced only in an active or hover context |
| Templatize.RgbaGroupOfLiteral | Configs/.local/lib/hyde/templatize-waybar-themes.py:72 | `re.search(...).group(1)` on `rgba(g)` is `g` |
| Templatize.TransparentRgbaSuggestion | Configs/.local/lib/hyde/templatize-waybar-themes.py:71-79 | an `rgba` literal with alpha below 0.1 becomes the bar background in any context |
| Templatize.OpaqueBlackRgbaSuggestion | Configs/.local/lib/hyde/templatize-waybar-themes.py:89-97 | a black `rgba` literal with alpha at least 0.9 follows the background test |
| Templatize.WhiteRgbaSuggestion | Configs/.local/lib/hyde/templatize-waybar-themes.py:106-109 | a white `rgba` literal that is not almost transparent becomes the main foreground in any context |
| Templatize.OrdinaryRgbaSuggestion | Configs/.local/lib/hyde/templatize-waybar-themes.py:69-221 | any other `rgba` literal goes by its context alone: active, then hover, then a background naming black; otherwise it is kept |
| Templatize.NextLiteral | Configs/.local/lib/hyde/templatize-waybar-themes.py:237-251 | the next literal is a match of the pass's pattern that lies in the text and starts with `r` or `#`; no match starts earlier, and None means no match starts at or after the position |
| Templatize.ContextBefore | Configs/.local/lib/hyde/templatize-waybar-themes.py:242-243 | the context is the up to 50 characters just before the literal |
| Templatize.Head30 | Configs/.local/lib/hyde/templatize-waybar-themes.py:247 | the logged context is the context's first 30 characters, or all of it when it is shorter |
| Templatize.EmitShape | Configs/.local/lib/hyde/templatize-waybar-themes.py:239-262 | the callback either returns the literal unchanged and logs nothing, or returns an `@` reference and logs it |
| Templatize.SubstitutedStep | Configs/.local/lib/hyde/templatize-waybar-themes.py:239-268 | one step of a `re.sub` pass copies the text up to the next match, puts the callback's result in place of the match, and continues after it |
| Templatize.SubstitutePass | Configs/.local/lib/hyde/templatize-waybar-themes.py:239-268 | the pass loop produces the specified substituted text and log, literal by literal, left to right |
| Templatize.SubstitutedChanges | Configs/.local/lib/hyde/templatize-waybar-themes.py:239-268 | a pass changes the text exactly when it logs a replacement |
| Templatize.SubstitutedLog | Configs/.local/lib/hyde/templatize-waybar-themes.py:247-261 | each logged replacement records a literal the pass matched, the first 30 characters of the 50 before it in the text the pass reads, and the name `suggest_hyde_var` chose for them; that name is a known variable and the literal is of the pass's kind |
| Templatize.TemplatizedUnchanged | Configs/.local/lib/hyde/templatize-waybar-themes.py:264-285 | a run that logs no replacement leaves the text unchanged |
| Templatize.Templatized | Configs/.local/lib/hyde/templatize-waybar-themes.py:264-268 | the two passes, `rgba` first and then hex over its result, log only known variables |
| Templatize.TemplatizeThemeFile | Configs/.local/lib/hyde/templatize-waybar-themes.py:223-286 | the report counts and lists the replacements of both passes and says whether the text changed; a zero count means unmodified; the backup and new text are written only on a changing, non-dry run |

## Left out

- The command-line front ends (`main`, argument parsing, exit codes, the messages printed) are not modelled.
- File I/O is not modelled: reading, appending, `mkdir`, and writing the `.css.bak` backup. Files are strings passed in, and the written files are returned as values.
- `find_config_ctl_entry_by_theme` and `find_config_ctl_entry_by_index`: a missing file is modelled as an empty list of lines.
- The `print` to stderr in `parse_config_ctl_line`'s error path is not modelled. That path returns None, and the model does the same.
- The header file's JSON parsing is abstracted to three outcomes: no header, an unparsable header, or a JSON object. A header that is valid JSON but not an object is not modelled: there `config["position"] = …` at generate-config-from-ctl.py:124-125 raises. `Json` numbers are integers, so a header's floating-point values cannot be represented.
- `json.dumps` text (quoting, `indent=8`) is not modelled. The document is a list of keys and JSON values.
- The `modules_dir` argument of `generate_config_jsonc` is never used by the source and is not modelled.
- `Text.ParseInt` accepts only ASCII digits with an optional sign and surrounding whitespace. It does not accept underscores or non-ASCII decimal digits, which Python's `int()` does; the same holds for `isdigit`.
- `Templatize.ParseDecimal` parses alpha values as plain decimals. It covers Python's `float()` only for those: exponents, `inf`, `nan` and underscores are not accepted.
- Brightness is computed exactly, not in binary floating point. This can differ from Python only when the weighted sum falls on a threshold within rounding error.
- `Text.Lower` lowers only ASCII letters.
- `Templatize.HexAt` treats only ASCII letters, digits and `_` as word characters for `\b`. Python's `\b` also counts other Unicode letters and digits.
- `rgba_to_rgb`, `HYDE_VARS` and `WALLBASH_VARS` are defined in the templatizer but never used by the code modelled here.
