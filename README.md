# New World Config Manager: the main window's state and its tree views

This project is a Dafny model of `MainWindow`, the window of New World Config
Manager. The window loads one of the game's two XML configuration files, shows
it in a two- or three-column tree widget, writes edits back into the in-memory
XML, and saves, resets or restores the configuration.

Four parts of the window are modelled:

- **The rebindings view** (`_populate_rebindings_tree`). There is one bold group
  row per `actionmap` child of the root. Each `action` in it gets one editable
  row per `rebind` child, or a single "N/A" placeholder when it has none. Each
  editable row is linked (`item_id_to_rebind_element`) to its `rebind` element.
- **The user-settings view** (`_populate_generic_xml_tree`). This is a recursive
  walk:
  - A `Class` element with a `field` attribute becomes one setting row. Its
    children are hoisted to be that row's siblings.
  - A `Class` element without `field` gets a row only at the top of the tree.
  - Any other element gets a row showing its tag and stripped text.
  - A setting is shown with a colour editor when its field is a reticle colour,
    or when its lower-cased name contains "color" and its value is four
    space-separated floats. Otherwise it is shown as editable raw text.
  - A reticle colour whose value does not parse is healed in place to
    "0.0 1.0 0.0 1.0" during the walk.
- **The editing handlers** (`handle_item_changed`, `handle_color_editor_changed`).
  An edit writes the row's text back to the linked element's `input` (rebindings)
  or stripped `value` (settings). A colour edit writes the four components
  joined by spaces. Both mark the configuration as changed.
- **The load, reset, save and restore handlers.** They decide which document is
  active, what the tree and the two row-to-element maps hold, and whether Save
  and Reset are enabled.

How the model represents the program:

- **Documents.** An XML document is an arena of elements (`XmlDoc`). An
  element's identity is its index, and every child has a larger index than its
  parent, so every walk terminates.
- **Tree rows.** The tree widget's rows are a sequence of `Node`s (`TreeModel`).
  A row's index stands for the `id(item)` the window uses as a dictionary key.
- **The window.** `MainWindow.Window` is a class whose fields are the window's
  state: the active document and path of each kind, the two maps, the rows, the
  unsaved-changes flag and the enabled state of Save and Reset.
- **Handlers.** Each handler is a method. Dialog answers, the results of the
  file lookups and parses, and the outcome of a write or copy are its
  parameters.
- **Invariant.** `Coherent` is preserved by every handler:
  - at most one document is active, and a document goes with its path;
  - the maps point into the tree and into the active document;
  - Save is enabled exactly while a document is loaded;
  - Reset is enabled exactly while there are unsaved changes.
- **Specification functions.** The two views are given as recursive functions:
  `RebindingsTree` (built in append order) and `SettingsTree` (a transform over
  the element shapes). The window's loops and recursion are proved to build
  exactly those, and the lemmas about the functions state what the views
  contain.

The Python string operations the settings view relies on are modelled in `Text`:
`strip`, `split()`, `lower`, `" ".join`, the substring test, and the syntax
`float()` accepts. The most important fact about them is the round trip
`Tokens(Join(ts)) == ts`. It is why a value written by the colour editor is
classified as a colour again on the next load.

Where the code and the documented intent differ, the model follows the code:

- A `Class` with a `field` but no `value` is still a setting, with value "".
- The self-heal changes the loaded document, but loading still reports no
  unsaved changes.
- A `Class` without `field` is shown only when its parent is the tree widget
  itself.
- When the rebindings file is not found, or fails to parse, the stale
  `item_id_to_rebind_element` map is not cleared. The tree is empty then, so the
  stale map is harmless, and `Coherent` allows exactly that.

## Model

| member | source | states |
|---|---|---|
| Text.StripLeftSpec | newworld_config_manager/main_window.py:284 | `lstrip` keeps a suffix, drops only whitespace (Python's `isspace` set) and stops at the first non-whitespace character |
| Text.StripRightSpec | newworld_config_manager/main_window.py:284 | `rstrip` keeps a prefix, drops only whitespace and stops at the last non-whitespace character |
| Text.StripTrims | newworld_config_manager/main_window.py:535 | `strip()` returns a slice of its input such that everything dropped before and after it is whitespace, the slice neither starts nor ends with whitespace, and stripping twice is stripping once |
| Text.WordSpec | newworld_config_manager/main_window.py:226 | one word of `split()` is the longest whitespace-free prefix, non-empty when the text starts with a non-space |
| Text.Tokens | newworld_config_manager/main_window.py:226 | every token of `split()` is non-empty and free of whitespace |
| Text.TokensIgnoreLeading | newworld_config_manager/main_window.py:226 | `split()` ignores leading whitespace |
| Text.TokensOfWord | newworld_config_manager/main_window.py:226 | a non-empty whitespace-free word splits into exactly itself |
| Text.TokensSplitAtSpaces | newworld_config_manager/main_window.py:226 | any non-empty run of whitespace separates tokens: `split()` of `a + ws + b` is `split()` of `a` followed by `split()` of `b` |
| Text.TokensOfJoin | newworld_config_manager/main_window.py:238 | splitting what `" ".join` built from whitespace-free words gives back exactly those words |
| Text.LowerSpec | newworld_config_manager/main_window.py:217-218 | `lower()` maps each ASCII capital to its small letter and keeps every other character |
| Text.IndexOf | newworld_config_manager/main_window.py:226 | the first index of a character, or the length when it is absent; no earlier position holds it |
| XmlDoc.Get | newworld_config_manager/main_window.py:210-211 | `element.get(key, default)` is the attribute when present and the default otherwise |
| XmlDoc.SetAttrAt | newworld_config_manager/main_window.py:512 | on the arena, `element.set(key, value)` on element `i` leaves the length and every other element unchanged, keeps tag, text and children, makes `key` read back as `value`, adds only `key` to the attribute keys and keeps every other attribute |
| XmlDoc.SetAttr | newworld_config_manager/main_window.py:512 | `element.set(key, value)` changes exactly one attribute of one element; every other attribute, the tag, text, children and every other element are unchanged |
| XmlDoc.SetAttrKeepsWellFormed | newworld_config_manager/main_window.py:535 | setting an attribute keeps the document well formed |
| XmlDoc.Tagged | newworld_config_manager/main_window.py:179 | `findall(tag)` over children returns only entries of the list carrying the tag, and every entry carrying the tag is among them |
| XmlDoc.TaggedInOrder | newworld_config_manager/main_window.py:179 | `findall(tag)` keeps order and multiplicity: the result is the entries at strictly increasing positions of the list, and those positions are exactly the positions whose element carries the tag |
| XmlDoc.FindAll | newworld_config_manager/main_window.py:165 | `findall(tag)` on an element returns only children of it that carry the tag, and every child carrying the tag is among them |
| XmlDoc.FindAllInOrder | newworld_config_manager/main_window.py:165 | `findall(tag)` on an element returns its tagged children in document order, each as often as it occurs among the children |
| XmlDoc.PrefixDisjoint | newworld_config_manager/main_window.py:270-271 | the elements below the first `n` children of an element are disjoint from those below child `n`, in an arena where each element has at most one parent |
| Colour.Classify | newworld_config_manager/main_window.py:217-243 | the colour editor is used iff the field is a reticle colour, or its name contains "color" and the value parses as four floats; the value is healed iff the field is a reticle colour whose value does not parse |
| Colour.DefaultIsRgba | newworld_config_manager/main_window.py:234-238 | the default written by the self-heal parses as four floats, so a healed field is never healed again |
| Colour.JoinedRgbaParses | newworld_config_manager/main_window.py:548-549 | four float renderings joined by spaces pass the space test and parse as four floats |
| Colour.ColourEditKeepsEditor | newworld_config_manager/main_window.py:548-549 | the value a colour edit writes is classified as a colour with no heal for any colour or reticle field, so the editor survives a save and reload |
| Colour.PlainUnlessParsed | newworld_config_manager/main_window.py:224-243 | a value without a space never gets the colour editor or a heal unless the field is a reticle colour |
| RebindingsView.AddRebindsShape | newworld_config_manager/main_window.py:185-197 | the rebind rows follow the earlier rows, one per rebind in order, each linked to its own rebind element; earlier rows and links are kept and no other key is added |
| RebindingsView.ActionRows | newworld_config_manager/main_window.py:175-197 | an action without rebinds adds exactly one "N/A" row and no link; otherwise exactly one editable row per rebind, each linked to its `rebind` element and showing its `input` |
| RebindingsView.RebindingsTreeShape | newworld_config_manager/main_window.py:151-201 | in the rebindings view a row is linked iff it is editable, each link names a `rebind` element whose `input` the row shows, rows nest two levels deep, and there is one top-level row per `actionmap` |
| SettingsView.HealElemProperties | newworld_config_manager/main_window.py:232-238 | healing keeps what an element shows and its children, is idempotent, and leaves a value that needs no further healing |
| SettingsView.HealAllShapes | newworld_config_manager/main_window.py:232-238 | healing any set of elements leaves the shape of every element as it was |
| SettingsView.HealAllUnion | newworld_config_manager/main_window.py:232-238 | healing one set of elements and then another is healing their union |
| SettingsView.ReloadAfterHealIsStable | newworld_config_manager/main_window.py:203-290 | loading the healed document again gives the same rows and links and heals nothing more |
| SettingsView.SettingsTreeCovers | newworld_config_manager/main_window.py:208-271 | the settings view links exactly the `Class` elements with `field` at or below the root, every link's target is one of them, and in an arena where every element has one parent no two rows link to the same element |
| SettingsView.SettingsTreeRows | newworld_config_manager/main_window.py:276-290 | every element at or below the root whose tag is not `Class` is shown as a non-setting row named by its tag with its stripped text as the value |
| SettingsView.SettingsTreeShape | newworld_config_manager/main_window.py:203-290 | in the settings view a row is linked iff it is a setting row; each link names a `Class` element with `field` whose row shows that field, shows the value on plain rows, and has the colour editor exactly as classified; nothing hangs under a setting row; a `Class` container row appears only at the top |
| MainWindow.BaseName | newworld_config_manager/main_window.py:402 | `Path(p).name` is the suffix after the last separator and contains no separator |
| MainWindow.Window.constructor | newworld_config_manager/main_window.py:79-87 | the new window has no document, path or map, an empty tree, and Save and Reset disabled |
| MainWindow.Window.PopulateRebindings | newworld_config_manager/main_window.py:151-201 | the tree and rebind map become exactly the rebindings view of the document; nothing else changes |
| MainWindow.AppendActionMap | newworld_config_manager/main_window.py:165-197 | one pass of the outer loop appends the group row and the rows of each action, as the view specifies |
| MainWindow.AppendAction | newworld_config_manager/main_window.py:175-197 | one action appends its placeholder or its rebind rows and links, as the view specifies |
| MainWindow.Window.PopulateGeneric | newworld_config_manager/main_window.py:203-290 | populating from the root appends the settings view's rows and links and heals every visited reticle colour; nothing else changes |
| MainWindow.PopulateElement | newworld_config_manager/main_window.py:203-290 | one recursive call carries the walk on by exactly the rows, links and heals the view gives for that element |
| MainWindow.PopulateHead | newworld_config_manager/main_window.py:208-284 | the part before the loop adds the element's own row (setting with link and heal, or shown container, or nothing) and picks where its children go |
| MainWindow.PopulateChildren | newworld_config_manager/main_window.py:270-271 | the loop over the children carries the walk on by the children's part of the view, in order |
| MainWindow.RebindingLinks | newworld_config_manager/main_window.py:197 | every rebind link names a row of the view and a `rebind` element |
| MainWindow.HealedLinks | newworld_config_manager/main_window.py:263 | after the self-heal, every settings link names a row and a setting element, and a colour-editor row's field is a colour or reticle field |
| MainWindow.ResetEnabledMeansDocument | newworld_config_manager/main_window.py:575-589 | while Reset is enabled a document is loaded, and a kept settings path always has its document, so the reload after a parse failure and the last branch of the reset are never reached from an enabled Reset button |
| MainWindow.LoadedCoherent | newworld_config_manager/main_window.py:293-418 | the states the two load handlers end in satisfy the window invariant |
| MainWindow.FreshSettingsCoherent | newworld_config_manager/main_window.py:383-395 | the state right after a settings file is shown satisfies the window invariant |
| MainWindow.Window.LoadRebindings | newworld_config_manager/main_window.py:293-352 | with no config folder, or on Cancel, nothing changes; otherwise the settings document is dropped; a parsed file becomes active with its rebindings view and Save enabled; a missing or unparsable file leaves no document, an empty tree and Save disabled; no unsaved changes in either case |
| MainWindow.Window.ShowRebindings | newworld_config_manager/main_window.py:334-340 | the parsed rebindings document becomes active with its view, Save enabled and no unsaved changes |
| MainWindow.Window.LoadUserSettings | newworld_config_manager/main_window.py:354-418 | with no config folder, or on Cancel, nothing changes; otherwise the rebindings document is dropped; a missing file leaves nothing loaded; an unparsable one keeps its path and shows the single error row; a parsed one is shown with its settings view, its reticle colours healed and Save enabled; no unsaved changes in any case |
| MainWindow.Window.ShowUserSettings | newworld_config_manager/main_window.py:383-395 | the parsed settings document, healed, becomes active with its view and links, Save enabled and no unsaved changes |
| MainWindow.Window.ItemChanged | newworld_config_manager/main_window.py:502-540 | a column-1 change on a row without a colour editor sets the linked rebind's `input` to the text, or the linked setting's `value` to the stripped text, and marks the change; any other change does nothing |
| MainWindow.Window.EditValue | newworld_config_manager/main_window.py:502-540 | committing the text a row already shows changes nothing, since no `itemChanged` is emitted; committing a different text updates that row and then writes it back as `ItemChanged` does |
| MainWindow.Window.ColourChanged | newworld_config_manager/main_window.py:542-560 | a linked colour row's setting gets the components joined by spaces as its `value` and the change is marked; that value is classified as a colour again; an unlinked row changes nothing |
| MainWindow.Window.SaveCurrent | newworld_config_manager/main_window.py:591-613 | the rebindings document is saved when it is truthy, else the settings document when it is truthy, else nothing; only a successful write clears the unsaved changes |
| MainWindow.Window.ResetChanges | newworld_config_manager/main_window.py:562-589 | with no path or no confirmation nothing changes; with a rebindings path the whole new state is the rebindings load's outcome, and with a settings path it is the settings load's outcome, both without the backup question and with no unsaved changes |
| MainWindow.Window.RestoreFromBackup | newworld_config_manager/main_window.py:437-500 | with no config folder, no folder chosen, no confirmation or a failed copy nothing changes; after a successful copy the window is cleared |

## Left out

- Qt rendering is not modelled: fonts, icons, colour previews, column counts, headers, widths, expansion and signal blocking. Population never triggers the edit handler, as signal blocking ensures.
- Status-bar texts, message boxes and console output are not modelled. Dialog answers are parameters of the handlers.
- `ColorEditorWidget` and its slider arithmetic are not modelled, because they are floating point. A colour edit is given as the `str()` renderings of the four floats.
- `perform_backup` and `handle_backup_settings` are not modelled. Their outcome never affects the window, so a backup is reported only as the `backupRequested` result of the load handlers.
- `handle_restore_from_backup`: removing and copying the folder is one `copyOk` parameter. Only the clearing of the window's state after success is modelled.
- The lookups of `ConfigParser` are parameters of the handlers: `_find_latest_rebindings_file`, `load_xml_config` and `load_user_settings_config`. The same goes for `save_xml_config`'s result (`writeOk`). As shipped, `save_xml_config` is a stub that returns `None`, so every save in the program reports failure. The model covers both outcomes.
- File paths are `Option<string>`. A found path is never empty, so Python's truth test on a path is `Some?`.
- `id(item)` is modelled as the row's index. The reuse of an `id` after a row is freed is not modelled.
- Text.IsFloatToken: accepts only ASCII decimal literals and `inf`, `infinity` and `nan`. `float()` also accepts digit-group underscores and non-ASCII decimal digits, so such a value is plain text in the model but a colour in the program.
- MainWindow.Window.LoadUserSettings: a colour component that `int(x * 255)` or `QColor` cannot take makes the program raise while it builds the colour preview and the editor's sliders (main_window.py:250 and :34), so that load never completes. Such a component is `inf`, `nan`, or too large in magnitude: from about 7.05e305 up, `x * 255` overflows to infinity, and a smaller finite value can still fall outside the C `int` range. The model completes every such load and shows the colour editor, because the preview and the sliders are not modelled.
- Text.Lower: maps only ASCII capitals. Python's `lower()` also folds other scripts, which the two field-name tests never need.
- MainWindow.BaseName: follows `Path.name` only for paths without a trailing separator, which is what the lookups return.
- `main.py`, the application entry point, is not part of this model.
