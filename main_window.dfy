/** The state machine of `MainWindow`: which document is active, the rows
    of the tree widget, the row-to-element maps, the unsaved-changes flag and
    the enabled state of the Save and Reset buttons, and the handlers that
    change them. Dialog answers, file lookups, parse results and the outcome
    of writes and copies are parameters of the handlers. */
module MainWindow {
  import opened Text
  import opened XmlDoc
  import opened TreeModel
  import opened Colour
  import opened RebindingsView
  import opened SettingsView

  datatype Option<T> = None | Some(value: T)

  /** The answer to the three-button backup question. */
  datatype Reply = Yes | No | Cancel

  /** What `load_user_settings_config` hands back when it finds the file:
      its path, and the parsed root or nothing when parsing failed. */
  datatype Found = Found(path: string, root: Option<Document>)

  /** What a press of "Save Current Config" did: nothing (no document that
      passes the truth test), or a call of `save_xml_config` on the given
      path and document that reported success or not. */
  datatype SaveOutcome = NothingToSave | Attempted(path: string, doc: Document, written: bool)

  /** All the window's state at one moment. */
  datatype Snapshot = Snapshot(rebDoc: Option<Document>, rebPath: Option<string>, rebindMap: map<nat, nat>,
                               userDoc: Option<Document>, userPath: Option<string>, userMap: map<nat, nat>,
                               tree: seq<Node>, dirty: bool, saveEnabled: bool, resetEnabled: bool)

  predicate IsSeparator(c: char) {
    c == '/' || c == '\\'
  }

  /** `Path(p).name` for a path with no trailing separator: the text after
      the last separator, `/` or `\` as on Windows. */
  function BaseName(p: string): (r: string)
    ensures |r| <= |p| && r == p[|p| - |r|..]
    ensures forall k :: 0 <= k < |r| ==> !IsSeparator(r[k])
    ensures |r| < |p| ==> IsSeparator(p[|p| - |r| - 1])
  {
    if p == [] || IsSeparator(p[|p| - 1]) then []
    else BaseName(p[..|p| - 1]) + [p[|p| - 1]]
  }

  /** The single row shown when the user settings file was found but did not
      parse. */
  function ErrorRow(path: string): Node {
    Node(TreeTop, "Error", "Could not parse " + BaseName(path) + " as XML.", "", false, false)
  }

  /** `if root:` on an ElementTree element: an element is true only when it
      has children. */
  predicate Truthy(d: Document)
    requires WellFormed(d)
  {
    |d.elems[d.root].children| > 0
  }

  /** Every rebind link names a row of the tree and a `rebind` element of
      the rebindings document. */
  ghost predicate RebindLinks(m: map<nat, nat>, rows: nat, d: Document) {
    forall k :: k in m ==> k < rows && m[k] < |d.elems| && d.elems[m[k]].tag == "rebind"
  }

  /** Every user-setting link names a row of the tree and a `Class` element
      with a `field`; a row that carries a colour editor is linked to a
      field the classification gives the editor to. */
  ghost predicate SettingLinks(m: map<nat, nat>, tree: seq<Node>, d: Document) {
    forall k :: k in m ==>
      && k < |tree| && m[k] < |d.elems| && IsSetting(d.elems[m[k]])
      && (tree[k].colourEditor ==>
            IsColourCandidate(d.elems[m[k]].attrs["field"]) || IsReticleField(d.elems[m[k]].attrs["field"]))
  }

  /** At most one document is active; a document goes with its path; a
      path is only ever set once the configuration folder was found; the
      maps point into the tree and into the active document (a stale
      rebind map survives only while the tree is empty); Save is enabled
      exactly while a document is loaded, Reset exactly while there are
      unsaved changes, and there are unsaved changes only to a loaded
      document. */
  ghost predicate Coherent(s: Snapshot, dirFound: bool) {
    && !(s.rebPath.Some? && s.userPath.Some?)
    && (s.rebDoc.Some? <==> s.rebPath.Some?)
    && (s.userDoc.Some? ==> s.userPath.Some?)
    && ((s.rebPath.Some? || s.userPath.Some?) ==> dirFound)
    && (s.rebDoc.Some? ==> WellFormed(s.rebDoc.value) && RebindLinks(s.rebindMap, |s.tree|, s.rebDoc.value))
    && (s.rebDoc.None? ==> s.rebindMap == map[] || s.tree == [])
    && (s.userDoc.Some? ==> WellFormed(s.userDoc.value) && SettingLinks(s.userMap, s.tree, s.userDoc.value))
    && (s.userDoc.None? ==> s.userMap == map[])
    && (s.saveEnabled <==> s.rebDoc.Some? || s.userDoc.Some?)
    && s.resetEnabled == s.dirty
    && (s.dirty ==> s.rebDoc.Some? || s.userDoc.Some?)
  }

  /** Reset is enabled only while there are unsaved changes, and so only
      while a document is loaded: the reload of a settings file whose path
      was kept after a parse failure is never reached through the Reset
      button. */
  lemma ResetEnabledMeansDocument(s: Snapshot, dirFound: bool)
    requires Coherent(s, dirFound) && s.resetEnabled
    ensures s.rebDoc.Some? || s.userDoc.Some?
    ensures s.userPath.Some? ==> s.userDoc.Some?
  {
  }

  /** The whole state `handle_load_rebindings` leaves once it is past the
      folder check and the backup question: the settings document, its path
      and its map are dropped and nothing is unsaved. A found file that
      parses becomes the active document with its rebindings view and Save
      enabled; otherwise no document is active, the tree is empty, Save is
      disabled and the rebind map is left as it was. */
  function RebindingsLoaded(s: Snapshot, found: Option<string>, parsed: Option<Document>): Snapshot
    requires parsed.Some? ==> WellFormed(parsed.value)
  {
    if found.Some? && parsed.Some? then
      var v := RebindingsTree(parsed.value);
      Snapshot(parsed, found, v.links, None, None, map[], v.rows, false, true, false)
    else
      Snapshot(None, None, s.rebindMap, None, None, map[], [], false, false, false)
  }

  /** The whole state `handle_load_user_settings` leaves once it is past the
      folder check and the backup question: the rebindings document, its
      path and its map are dropped and nothing is unsaved. A missing file
      leaves nothing loaded; a file that does not parse keeps its path and
      shows the single error row; a parsed file is shown with its settings
      view and links, becomes the active document with its reticle colours
      healed, and enables Save. */
  function SettingsLoaded(result: Option<Found>): Snapshot
    requires result.Some? && result.value.root.Some? ==> WellFormed(result.value.root.value)
  {
    match result
    case None => Snapshot(None, None, map[], None, None, map[], [], false, false, false)
    case Some(Found(p, None)) => Snapshot(None, None, map[], None, Some(p), map[], [ErrorRow(p)], false, false, false)
    case Some(Found(p, Some(d))) =>
      var g := SettingsTree(d);
      Snapshot(None, None, map[], Some(Document(HealAll(d.elems, g.settings), d.root)), Some(p),
               g.links, g.nodes, false, true, false)
  }

  class Window {
    /** Whether `new_world_config_dir` was found; fixed for the window's life. */
    const configDirFound: bool
    var rebDoc: Option<Document>
    var rebPath: Option<string>
    /** `item_id_to_rebind_element`, row index to element index. */
    var rebindMap: map<nat, nat>
    var userDoc: Option<Document>
    var userPath: Option<string>
    /** `item_id_to_usersetting_element`, row index to element index. */
    var userMap: map<nat, nat>
    var tree: seq<Node>
    /** `changes_made_in_current_config`. */
    var dirty: bool
    var saveEnabled: bool
    var resetEnabled: bool

    ghost function Snap(): Snapshot
      reads this
    {
      Snapshot(rebDoc, rebPath, rebindMap, userDoc, userPath, userMap, tree, dirty, saveEnabled, resetEnabled)
    }

    /** The window's state is coherent: see `Coherent`. */
    ghost predicate Valid()
      reads this
    {
      Coherent(Snap(), configDirFound)
    }

    /** The window as `__init__` leaves it: nothing loaded, an empty tree,
        Save and Reset disabled. */
    constructor(configDirFound: bool)
      ensures Valid()
      ensures this.configDirFound == configDirFound
      ensures Snap() == Snapshot(None, None, map[], None, None, map[], [], false, false, false)
    {
      this.configDirFound := configDirFound;
      rebDoc, rebPath, rebindMap := None, None, map[];
      userDoc, userPath, userMap := None, None, map[];
      tree := [];
      dirty, saveEnabled, resetEnabled := false, false, false;
    }

    // ----- Population -----

    /** `_populate_rebindings_tree`: clears the tree and the rebind map and
        builds the rebindings view of `d`, one action map at a time. */
    method PopulateRebindings(d: Document)
      requires WellFormed(d)
      modifies this
      ensures View(tree, rebindMap) == RebindingsTree(d)
      ensures Snap() == old(Snap()).(tree := tree, rebindMap := rebindMap)
    {
      ghost var s0 := Snap();
      tree := [];
      rebindMap := map[];
      var ams := FindAll(d.elems, d.root, "actionmap");
      assert AllIn(d.elems, ams);
      var i := 0;
      while i < |ams|
        invariant 0 <= i <= |ams|
        invariant View(tree, rebindMap) == ActionMapsView(d.elems, ams[..i])
        invariant Snap() == s0.(tree := tree, rebindMap := rebindMap)
      {
        ActionMapsViewStep(d.elems, ams, i);
        var v := AppendActionMap(d, View(tree, rebindMap), ams[i]);
        tree, rebindMap := v.rows, v.links;
        i := i + 1;
      }
      assert ams[..|ams|] == ams;
    }

    /** `_populate_generic_xml_tree(tree widget, root)` on the user
        settings document: appends the rows of its settings view, links each
        setting row to its element, and heals in place every visited
        reticle colour whose value does not parse. */
    method PopulateGeneric()
      requires userDoc.Some? && WellFormed(userDoc.value)
      requires forall k :: k in userMap ==> k < |tree|
      modifies this
      ensures userDoc.Some? && userDoc.value.root == old(userDoc.value.root)
      ensures (ShapesAcyclic(old(userDoc.value.elems));
        var g := GenElem(Shapes(old(userDoc.value.elems)), old(userDoc.value.root), TreeTop, |old(tree)|);
        Walk(userDoc.value.elems, tree, userMap) == After(old(userDoc.value.elems), {}, Walk(old(userDoc.value.elems), old(tree), old(userMap)), g))
      ensures Snap() == old(Snap()).(tree := tree, userMap := userMap, userDoc := userDoc)
    {
      var d := userDoc.value;
      HealAllNone(d.elems);
      var w := PopulateElement(d.elems, {}, Walk(d.elems, tree, userMap), TreeTop, d.root);
      userDoc := Some(Document(w.elems, d.root));
      tree, userMap := w.rows, w.links;
    }

    // ----- Loading -----

    /** `handle_load_rebindings`. Without the configuration folder, or when
        the backup question is answered Cancel, nothing changes. Otherwise
        (after a backup when the answer is Yes) the user settings document is
        dropped and its map cleared; when the file is found and parses, its
        document becomes the active one, the tree shows its rebindings view,
        Save is enabled and there are no unsaved changes; when it is not
        found or does not parse, no document is active, the tree is empty
        and Save is disabled. */
    method LoadRebindings(promptForBackup: bool, reply: Reply, found: Option<string>, parsed: Option<Document>)
      returns (backupRequested: bool)
      requires Valid()
      requires parsed.Some? ==> WellFormed(parsed.value)
      modifies this
      ensures Valid()
      ensures backupRequested <==> configDirFound && promptForBackup && reply == Yes
      ensures !configDirFound || (promptForBackup && reply == Cancel) ==> Snap() == old(Snap())
      ensures configDirFound && !(promptForBackup && reply == Cancel) ==>
        Snap() == RebindingsLoaded(old(Snap()), found, parsed)
    {
      backupRequested := false;
      if !configDirFound {
        return;
      }
      if promptForBackup {
        if reply == Cancel {
          return;
        }
        if reply == Yes {
          backupRequested := true;
        }
      }
      ghost var target := RebindingsLoaded(Snap(), found, parsed);
      LoadedCoherent(Snap(), found, parsed, None);
      userDoc, userPath := None, None;
      userMap := map[];
      tree := [];
      if found.None? {
        saveEnabled, dirty, resetEnabled := false, false, false;
        rebDoc, rebPath := None, None;
        assert Snap() == target;
      } else if parsed.Some? {
        ShowRebindings(found.value, parsed.value);
        assert Snap() == target;
      } else {
        tree := [];
        saveEnabled, dirty, resetEnabled := false, false, false;
        rebDoc, rebPath := None, None;
        assert Snap() == target;
      }
    }

    /** The end of `handle_load_rebindings` when the file parsed: the
        document becomes the active one, the tree shows its rebindings view,
        Save is enabled and there are no unsaved changes. */
    method ShowRebindings(p: string, d: Document)
      requires WellFormed(d) && configDirFound
      requires userDoc == None && userPath == None && userMap == map[]
      modifies this
      ensures Valid()
      ensures View(tree, rebindMap) == RebindingsTree(d)
      ensures Snap() == Snapshot(Some(d), Some(p), rebindMap, None, None, map[], tree, false, true, false)
    {
      rebPath := Some(p);
      rebDoc := Some(d);
      PopulateRebindings(d);
      assert tree == RebindingsTree(d).rows && rebindMap == RebindingsTree(d).links;
      RebindingLinks(d);
      saveEnabled, dirty, resetEnabled := true, false, false;
    }

    /** `handle_load_user_settings`. Without the configuration folder, or
        when the backup question is answered Cancel, nothing changes.
        Otherwise the rebindings document is dropped, both maps are cleared
        and there are no unsaved changes. When the file is not found, no
        document or path is kept and the tree is empty. When it is found but
        does not parse, its path is kept, no document is active and the tree
        holds the single error row. When it parses, the tree shows its
        settings view, the active document is the parsed one with its
        reticle colours healed, and Save is enabled; the healing does not
        count as an unsaved change. */
    method LoadUserSettings(promptForBackup: bool, reply: Reply, result: Option<Found>)
      returns (backupRequested: bool)
      requires Valid()
      requires result.Some? && result.value.root.Some? ==> WellFormed(result.value.root.value)
      modifies this
      ensures Valid()
      ensures backupRequested <==> configDirFound && promptForBackup && reply == Yes
      ensures !configDirFound || (promptForBackup && reply == Cancel) ==> Snap() == old(Snap())
      ensures configDirFound && !(promptForBackup && reply == Cancel) ==>
        Snap() == SettingsLoaded(result)
    {
      backupRequested := false;
      if !configDirFound {
        return;
      }
      if promptForBackup {
        if reply == Cancel {
          return;
        }
        if reply == Yes {
          backupRequested := true;
        }
      }
      LoadedCoherent(Snap(), None, None, result);
      rebDoc, rebPath := None, None;
      rebindMap := map[];
      tree := [];
      userMap := map[];
      match result {
        case None =>
          saveEnabled, dirty, resetEnabled := false, false, false;
          userDoc, userPath := None, None;
          assert Snap() == SettingsLoaded(result);
        case Some(Found(p, root)) =>
          if root.Some? {
            ShowUserSettings(p, root.value);
            assert Snap() == SettingsLoaded(result);
          } else {
            userPath := Some(p);
            tree := tree + [ErrorRow(p)];
            saveEnabled, dirty, resetEnabled := false, false, false;
            userDoc := None;
            assert tree == [ErrorRow(p)];
            assert Snap() == SettingsLoaded(result);
          }
      }
    }

    /** The end of `handle_load_user_settings` when the file parsed: the
        document becomes the active one, the tree is populated from it
        (healing its reticle colours in place), Save is enabled and there
        are no unsaved changes. */
    method ShowUserSettings(p: string, d: Document)
      requires WellFormed(d) && configDirFound
      requires rebDoc == None && rebPath == None && rebindMap == map[] && tree == [] && userMap == map[]
      modifies this
      ensures Valid()
      ensures Snap() == Snapshot(None, None, map[],
        Some(Document(HealAll(d.elems, SettingsTree(d).settings), d.root)), Some(p), SettingsTree(d).links,
        SettingsTree(d).nodes, false, true, false)
    {
      ghost var g := SettingsTree(d);
      ghost var healed := Document(HealAll(d.elems, g.settings), d.root);
      userPath := Some(p);
      userDoc := Some(d);
      PopulateGeneric();
      AfterFresh(d);
      assert userDoc.value == healed && tree == g.nodes && userMap == g.links;
      saveEnabled, dirty, resetEnabled := true, false, false;
      FreshSettingsCoherent(p, d);
    }

    // ----- Editing -----

    /** `handle_item_changed(item, column)`: an edit of the value column of
        a row without a colour editor is written back. A row in the rebind
        map sets its element's `input` to the row's text; otherwise a row in
        the user-setting map sets its element's `value` to the stripped
        text; either way the change is unsaved. Any other change does
        nothing. */
    method ItemChanged(item: nat, column: int)
      requires Valid() && item < |tree|
      modifies this
      ensures Valid()
      ensures var text := old(tree[item].value);
        if column == 1 && !old(tree[item].colourEditor) && item in old(rebindMap) then
          && rebDoc.Some? && old(rebDoc).Some?
          && rebDoc.value == SetAttr(old(rebDoc.value), old(rebindMap[item]), "input", text)
          && dirty && resetEnabled
          && Snap() == old(Snap()).(rebDoc := rebDoc, dirty := true, resetEnabled := true)
        else if column == 1 && !old(tree[item].colourEditor) && item in old(userMap) then
          && userDoc.Some? && old(userDoc).Some?
          && userDoc.value == SetAttr(old(userDoc.value), old(userMap[item]), "value", Strip(text))
          && dirty && resetEnabled
          && Snap() == old(Snap()).(userDoc := userDoc, dirty := true, resetEnabled := true)
        else
          Snap() == old(Snap())
    {
      if column == 1 && !tree[item].colourEditor {
        var text := tree[item].value;
        if item in rebindMap {
          var d := rebDoc.value;
          rebDoc := Some(SetAttr(d, rebindMap[item], "input", text));
          SetAttrKeepsWellFormed(d, rebindMap[item], "input", text);
          dirty := true;
          resetEnabled := true;
        } else if item in userMap {
          var d := userDoc.value;
          userDoc := Some(SetAttr(d, userMap[item], "value", Strip(text)));
          SetAttrKeepsWellFormed(d, userMap[item], "value", Strip(text));
          SetValueKeepsSettingLinks(userMap, tree, d, userMap[item], Strip(text));
          dirty := true;
          resetEnabled := true;
        }
      }
    }

    /** The user commits `text` in the value column of an editable row. When
        it equals what the row already shows, the tree widget keeps the row as
        it is and emits no `itemChanged`, so nothing happens. Otherwise the
        row shows the new text and `itemChanged` is emitted for column 1. */
    method EditValue(item: nat, text: string)
      requires Valid() && item < |tree| && tree[item].editable
      modifies this
      ensures Valid()
      ensures tree == old(tree)[item := old(tree[item]).(value := text)]
      ensures text == old(tree[item].value) ==> Snap() == old(Snap())
      ensures text != old(tree[item].value) && !old(tree[item].colourEditor) && item in old(rebindMap) ==>
        && rebDoc.Some? && old(rebDoc).Some?
        && rebDoc.value == SetAttr(old(rebDoc.value), old(rebindMap[item]), "input", text)
        && Snap() == old(Snap()).(tree := tree, rebDoc := rebDoc, dirty := true, resetEnabled := true)
      ensures (text != old(tree[item].value) && !old(tree[item].colourEditor) && item !in old(rebindMap)
                 && item in old(userMap)) ==>
        && userDoc.Some? && old(userDoc).Some?
        && userDoc.value == SetAttr(old(userDoc.value), old(userMap[item]), "value", Strip(text))
        && Snap() == old(Snap()).(tree := tree, userDoc := userDoc, dirty := true, resetEnabled := true)
      ensures old(tree[item].colourEditor) || (item !in old(rebindMap) && item !in old(userMap)) ==>
        Snap() == old(Snap()).(tree := tree)
    {
      if text == tree[item].value {
        assert tree == tree[item := tree[item].(value := text)];
        return;
      }
      var row := tree[item].(value := text);
      assert userDoc.Some? ==> SettingLinks(userMap, tree[item := row], userDoc.value) by {
        assert forall k :: 0 <= k < |tree| ==> tree[item := row][k].colourEditor == tree[k].colourEditor;
      }
      tree := tree[item := row];
      ItemChanged(item, 1);
    }

    /** `handle_color_editor_changed(item, rgba)`, where `rgba` holds the
        `str()` renderings of the four floats the editor emits. A row in the
        user-setting map gets its element's `value` set to them joined with
        spaces, and the change is unsaved; the icon update that follows
        changes column 0 only, which `ItemChanged` ignores. When the
        renderings are float literals, the stored value is classified as a
        colour again, so the editor survives a save and reload. */
    method ColourChanged(item: nat, rgba: seq<string>)
      requires Valid() && item < |tree| && tree[item].colourEditor && |rgba| == 4
      modifies this
      ensures Valid()
      ensures item in old(userMap) ==>
        && userDoc.Some? && old(userDoc).Some?
        && userDoc.value == SetAttr(old(userDoc.value), old(userMap[item]), "value", Join(rgba))
        && dirty && resetEnabled
        && Snap() == old(Snap()).(userDoc := userDoc, dirty := true, resetEnabled := true)
        && ((forall k :: 0 <= k < 4 ==> IsRgbaPart(rgba[k])) ==>
              var el := userDoc.value.elems[userMap[item]];
              Classify(el.attrs["field"], Get(el, "value", "")) == Decision(true, false))
      ensures item !in old(userMap) ==> Snap() == old(Snap())
    {
      if item in userMap {
        var d := userDoc.value;
        var value := Join(rgba);
        var i := userMap[item];
        userDoc := Some(SetAttr(d, i, "value", value));
        SetAttrKeepsWellFormed(d, i, "value", value);
        SetValueKeepsSettingLinks(userMap, tree, d, i, value);
        dirty := true;
        resetEnabled := true;
        if forall k :: 0 <= k < 4 ==> IsRgbaPart(rgba[k]) {
          var el := userDoc.value.elems[i];
          assert el.attrs["field"] == d.elems[i].attrs["field"] by {
            FieldIsNotValue();
          }
          ColourEditKeepsEditor(el.attrs["field"], rgba);
        }
      }
    }

    // ----- Save, reset, restore -----

    /** `handle_save_current_config`. The rebindings document is saved when
        it and its path pass Python's truth test, else the user settings
        document under the same test; an element passes only when it has
        children, so a loaded document whose root is empty is reported as
        nothing to save. A successful write clears the unsaved changes; a
        failed one changes nothing. */
    method SaveCurrent(writeOk: bool) returns (r: SaveOutcome)
      requires Valid()
      modifies this
      ensures Valid()
      ensures old(rebDoc).Some? && Truthy(old(rebDoc).value) ==>
        r == Attempted(old(rebPath).value, old(rebDoc).value, writeOk)
      ensures !(old(rebDoc).Some? && Truthy(old(rebDoc).value)) && old(userDoc).Some? && Truthy(old(userDoc).value) ==>
        r == Attempted(old(userPath).value, old(userDoc).value, writeOk)
      ensures !(old(rebDoc).Some? && Truthy(old(rebDoc).value)) && !(old(userDoc).Some? && Truthy(old(userDoc).value)) ==>
        r == NothingToSave
      ensures if r.Attempted? && writeOk then Snap() == old(Snap()).(dirty := false, resetEnabled := false)
              else Snap() == old(Snap())
    {
      r := NothingToSave;
      if rebDoc.Some? && Truthy(rebDoc.value) && rebPath.Some? {
        r := Attempted(rebPath.value, rebDoc.value, writeOk);
      } else if userDoc.Some? && Truthy(userDoc.value) && userPath.Some? {
        r := Attempted(userPath.value, userDoc.value, writeOk);
      }
      if r.Attempted? && writeOk {
        dirty := false;
        resetEnabled := false;
      }
    }

    /** `handle_reset_changes`. With no path kept, or when the confirmation
        is refused, nothing changes. Otherwise the active kind of
        configuration is loaded again from disk, without the backup
        question: the rebindings when that document is active, the user
        settings when that document is active or its file was found but did
        not parse. The results of the new lookup are the parameters. */
    method ResetChanges(confirmed: bool, rebFound: Option<string>, rebParsed: Option<Document>, userResult: Option<Found>)
      requires Valid()
      requires rebParsed.Some? ==> WellFormed(rebParsed.value)
      requires userResult.Some? && userResult.value.root.Some? ==> WellFormed(userResult.value.root.value)
      modifies this
      ensures Valid()
      ensures (old(rebPath).None? && old(userPath).None?) || !confirmed ==> Snap() == old(Snap())
      ensures old(rebPath).Some? && confirmed ==> Snap() == RebindingsLoaded(old(Snap()), rebFound, rebParsed)
      ensures old(userPath).Some? && confirmed ==> Snap() == SettingsLoaded(userResult)
    {
      if rebPath.None? && userPath.None? {
        return;
      }
      if !confirmed {
        return;
      }
      if rebDoc.Some? && rebPath.Some? {
        var _ := LoadRebindings(false, No, rebFound, rebParsed);
      } else if userDoc.Some? && userPath.Some? {
        var _ := LoadUserSettings(false, No, userResult);
      } else if userPath.Some? {
        var _ := LoadUserSettings(false, No, userResult);
      } else {
        assert false;
      }
    }

    /** `handle_restore_from_backup`. Without the configuration folder, with
        no folder chosen (the dialog returns ""), when the warning is not
        confirmed, or when removing and copying the folder fails, the window
        state is unchanged. After a successful copy the window is cleared:
        no document, no path, empty tree and maps, no unsaved changes, Save
        and Reset disabled. */
    method RestoreFromBackup(selected: string, confirmed: bool, copyOk: bool) returns (restored: bool)
      requires Valid()
      modifies this
      ensures Valid()
      ensures restored <==> configDirFound && selected != "" && confirmed && copyOk
      ensures restored ==> Snap() == Snapshot(None, None, map[], None, None, map[], [], false, false, false)
      ensures !restored ==> Snap() == old(Snap())
    {
      restored := false;
      if !configDirFound || selected == "" || !confirmed || !copyOk {
        return;
      }
      tree := [];
      rebDoc, rebPath := None, None;
      rebindMap := map[];
      userDoc, userPath := None, None;
      userMap := map[];
      saveEnabled, dirty, resetEnabled := false, false, false;
      restored := true;
    }
  }

  /** One call of `_populate_generic_xml_tree(parent, element)` on element
      `e` of a document loaded as `base`, of which the elements `healed`
      have been healed already: carries the walk on by the rows of the
      settings view of `e`, a link from each setting row to its element, and
      the self-heal of every visited reticle colour whose value does not
      parse. Healing keeps what every element shows, so the rows are those
      of the document as loaded. */
  method PopulateElement(ghost base: seq<Element>, ghost healed: set<nat>, w: Walk, parent: Parent, e: nat)
    returns (w': Walk)
    requires WellFormedArena(base) && e < |base| && w.elems == HealAll(base, healed)
    ensures (ShapesAcyclic(base); w' == After(base, healed, w, GenElem(Shapes(base), e, parent, |w.rows|)))
    decreases |base| - e, 1
  {
    ShapesAcyclic(base);
    ghost var sh := Shapes(base);
    ghost var hd := Head(sh, e, parent, |w.rows|);
    var w1, inner := PopulateHead(base, healed, w, parent, e);
    GenElemSplit(sh, e, parent, |w.rows|);
    ShapesAt(base, e);
    HealAllLook(base, healed, e);
    assert |w1.rows| == |w.rows| + |hd.nodes|;
    ghost var cs := sh[e].children;
    assert w.elems[e].children == cs;
    ghost var ch := GenChildren(sh, e, cs, inner, |w1.rows|);
    ghost var whole := GenElem(sh, e, parent, |w.rows|);
    assert whole == Cat(hd, ch);
    w' := PopulateChildren(base, healed + hd.settings, w1, e, w.elems[e].children, inner);
    assert w' == After(base, healed + hd.settings, w1, ch);
    AfterCat(base, healed, w, hd, ch);
  }

  /** The part of `_populate_generic_xml_tree` before its loop: the row of
      element `e` itself (a setting, with its link and its self-heal, or a
      shown container), and where its children go. */
  method PopulateHead(ghost base: seq<Element>, ghost healed: set<nat>, w: Walk, parent: Parent, e: nat)
    returns (w': Walk, inner: Parent)
    requires e < |base| && w.elems == HealAll(base, healed)
    ensures w' == After(base, healed, w, Head(Shapes(base), e, parent, |w.rows|))
    ensures inner == Inner(Shapes(base), e, parent, |w.rows|)
  {
    ghost var sh := Shapes(base);
    var el := w.elems[e];
    ShapesAt(base, e);
    HealAllLook(base, healed, e);
    HealAllAdd(base, healed, e);
    HealElemProperties(el);
    assert healed + {} == healed;
    w', inner := w, parent;
    if IsSetting(el) {
      var field := el.attrs["field"];
      var value := Get(el, "value", "");
      var decision := Classify(field, value);
      var elems := w.elems;
      if decision.heal {
        elems := SetAttrAt(elems, e, "value", DefaultRgba);
      }
      assert elems == w.elems[e := HealElem(el)];
      var row := if decision.colourEditor then Node(parent, field, "", "", false, true)
                 else Node(parent, field, value, "", true, false);
      assert Head(sh, e, parent, |w.rows|) == Gen([row], map[|w.rows| := e], {e});
      UpdateIsUnion(w.links, |w.rows|, e);
      w' := Walk(elems, w.rows + [row], w.links[|w.rows| := e]);
    } else if el.tag != "Class" || parent == TreeTop {
      var row := Node(parent, el.tag, Strip(el.text), "", false, false);
      assert Head(sh, e, parent, |w.rows|) == Gen([row], map[], {});
      UnionEmpty(w.links);
      w' := Walk(w.elems, w.rows + [row], w.links);
      inner := Under(|w.rows|);
    } else {
      assert Head(sh, e, parent, |w.rows|) == Gen([], map[], {});
      AfterEmpty(base, healed, w);
    }
  }

  lemma UnionEmpty(m: map<nat, nat>)
    ensures m + map[] == m
  {
  }

  lemma UpdateIsUnion(m: map<nat, nat>, k: nat, v: nat)
    ensures m[k := v] == m + map[k := v]
  {
  }

  /** The loop of `_populate_generic_xml_tree` over the children `cs` of
      element `owner`, each populated under `parent`. */
  method PopulateChildren(ghost base: seq<Element>, ghost healed: set<nat>, w: Walk, owner: nat, cs: seq<nat>, parent: Parent)
    returns (w': Walk)
    requires WellFormedArena(base) && owner < |base| && ChildrenOf(Shapes(base), owner, cs)
    requires w.elems == HealAll(base, healed)
    ensures (ShapesAcyclic(base); w' == After(base, healed, w, GenChildren(Shapes(base), owner, cs, parent, |w.rows|)))
    decreases |base| - owner, 0
  {
    ShapesAcyclic(base);
    ghost var sh := Shapes(base);
    assert cs[..0] == [];
    AfterEmpty(base, healed, w);
    w' := w;
    var i := 0;
    while i < |cs|
      invariant 0 <= i <= |cs| && ChildrenOf(sh, owner, cs[..i])
      invariant w' == After(base, healed, w, GenChildren(sh, owner, cs[..i], parent, |w.rows|))
    {
      ghost var c := GenChildren(sh, owner, cs[..i], parent, |w.rows|);
      ghost var before := w';
      w' := PopulateElement(base, healed + c.settings, w', parent, cs[i]);
      ChildStep(base, healed, w, owner, cs, i, parent, before, w');
      i := i + 1;
    }
    assert cs[..|cs|] == cs;
  }

  /** One turn of the loop over the children: the walk after the children
      before `cs[i]`, carried on by `cs[i]`, is the walk after one more. */
  lemma ChildStep(base: seq<Element>, healed: set<nat>, w: Walk, owner: nat, cs: seq<nat>, i: nat, parent: Parent,
                  before: Walk, after: Walk)
    requires WellFormedArena(base) && owner < |base| && i < |cs|
    requires ChildrenOf(Shapes(base), owner, cs) && ChildrenOf(Shapes(base), owner, cs[..i])
    requires (ShapesAcyclic(base);
      before == After(base, healed, w, GenChildren(Shapes(base), owner, cs[..i], parent, |w.rows|)))
    requires (ShapesAcyclic(base);
      after == After(base, healed + GenChildren(Shapes(base), owner, cs[..i], parent, |w.rows|).settings, before,
                     GenElem(Shapes(base), cs[i], parent, |before.rows|)))
    ensures ChildrenOf(Shapes(base), owner, cs[..i + 1])
    ensures (ShapesAcyclic(base);
      after == After(base, healed, w, GenChildren(Shapes(base), owner, cs[..i + 1], parent, |w.rows|)))
  {
    ShapesAcyclic(base);
    var sh := Shapes(base);
    var c := GenChildren(sh, owner, cs[..i], parent, |w.rows|);
    AfterStep(base, healed, w, c, GenElem(sh, cs[i], parent, |before.rows|), before, after);
    GenChildrenStep(sh, owner, cs, i, parent, |w.rows|, |before.rows|);
  }

  /** A walk carried on by `g` and then by `h` is the walk carried on by
      both at once; the rows of `g` come first. */
  lemma AfterStep(base: seq<Element>, healed: set<nat>, w: Walk, g: Gen, h: Gen, mid: Walk, end: Walk)
    requires mid == After(base, healed, w, g)
    requires end == After(base, healed + g.settings, mid, h)
    ensures |mid.rows| == |w.rows| + |g.nodes|
    ensures end == After(base, healed, w, Cat(g, h))
  {
    AfterCat(base, healed, w, g, h);
  }

  /** The body of the outer loop of `_populate_rebindings_tree`: the bold
      group row of one `actionmap`, then the rows of each of its actions. */
  method AppendActionMap(d: Document, v: View, am: nat) returns (r: View)
    requires WellFormed(d) && am < |d.elems|
    ensures r == AddActionMap(d.elems, v, am)
  {
    var group := |v.rows|;
    var g0 := View(v.rows + [GroupRow(d.elems[am])], v.links);
    r := g0;
    var acts := FindAll(d.elems, am, "action");
    var j := 0;
    while j < |acts|
      invariant 0 <= j <= |acts|
      invariant r == AddActions(d.elems, g0, acts[..j], group)
    {
      AddActionsStep(d.elems, g0, acts, j, group);
      r := AppendAction(d, r, acts[j], group);
      j := j + 1;
    }
    assert acts[..|acts|] == acts;
  }

  /** The rows of one `action` under the group row `group`: a placeholder
      showing "N/A" when it has no `rebind`, else one editable row per
      rebind, each linked to its element. */
  method AppendAction(d: Document, v: View, a: nat, group: nat) returns (r: View)
    requires WellFormed(d) && a < |d.elems|
    ensures r == AddAction(d.elems, v, a, group)
  {
    var rbs := FindAll(d.elems, a, "rebind");
    if rbs == [] {
      r := View(v.rows + [PlaceholderRow(d.elems[a], group)], v.links);
    } else {
      r := v;
      var k := 0;
      while k < |rbs|
        invariant 0 <= k <= |rbs|
        invariant r == AddRebinds(d.elems, v, a, rbs[..k], group)
      {
        AddRebindsStep(d.elems, v, a, rbs, k, group);
        r := View(r.rows + [BindingRow(d.elems[a], d.elems[rbs[k]], group)], r.links[|r.rows| := rbs[k]]);
        k := k + 1;
      }
      assert rbs[..|rbs|] == rbs;
    }
  }

  /** The links of a rebindings view name rows of it and `rebind` elements. */
  lemma RebindingLinks(d: Document)
    requires WellFormed(d)
    ensures RebindLinks(RebindingsTree(d).links, |RebindingsTree(d).rows|, d)
  {
    RebindingsTreeShape(d);
  }

  /** The state right after a user settings file is shown is coherent. */
  lemma FreshSettingsCoherent(p: string, d: Document)
    requires WellFormed(d)
    ensures var g := SettingsTree(d);
      Coherent(Snapshot(None, None, map[], Some(Document(HealAll(d.elems, g.settings), d.root)), Some(p),
        g.links, g.nodes, false, true, false), true)
  {
    ReloadAfterHealIsStable(d);
    HealedLinks(d);
  }

  /** The states the two load handlers leave are coherent. */
  lemma LoadedCoherent(s: Snapshot, found: Option<string>, parsed: Option<Document>, result: Option<Found>)
    requires parsed.Some? ==> WellFormed(parsed.value)
    requires result.Some? && result.value.root.Some? ==> WellFormed(result.value.root.value)
    ensures Coherent(RebindingsLoaded(s, found, parsed), true)
    ensures Coherent(SettingsLoaded(result), true)
  {
    if parsed.Some? {
      RebindingLinks(parsed.value);
    }
    if result.Some? && result.value.root.Some? {
      FreshSettingsCoherent(result.value.path, result.value.root.value);
    }
  }

  lemma FieldIsNotValue()
    ensures "field" != "value"
  {
    assert "field"[0] != "value"[0];
  }

  /** Setting an element's `value` keeps every setting link valid: tags,
      `field` attributes and the rows are untouched. */
  lemma SetValueKeepsSettingLinks(m: map<nat, nat>, tree: seq<Node>, d: Document, i: nat, v: string)
    requires i < |d.elems| && SettingLinks(m, tree, d)
    ensures SettingLinks(m, tree, SetAttr(d, i, "value", v))
  {
    FieldIsNotValue();
    var r := SetAttr(d, i, "value", v);
    forall k | k in m
      ensures IsSetting(r.elems[m[k]]) && r.elems[m[k]].attrs["field"] == d.elems[m[k]].attrs["field"]
    {
    }
  }

  /** After a user settings load the links name settings of the healed
      document, and colour-editor rows name colour fields. */
  lemma HealedLinks(d: Document)
    requires WellFormed(d)
    ensures var g := SettingsTree(d);
      SettingLinks(g.links, g.nodes, Document(HealAll(d.elems, g.settings), d.root))
  {
    var g := SettingsTree(d);
    SettingsTreeShape(d);
    var h := HealAll(d.elems, g.settings);
    forall k | k in g.links
      ensures && k < |g.nodes| && g.links[k] < |h| && IsSetting(h[g.links[k]])
              && (g.nodes[k].colourEditor ==>
                    IsColourCandidate(h[g.links[k]].attrs["field"]) || IsReticleField(h[g.links[k]].attrs["field"]))
    {
      var idx := g.links[k];
      HealedLink(d.elems, g.settings, idx, g.nodes[k]);
    }
  }

  /** One setting link after the self-heal: the element is still a setting
      with the same `field`, so a colour editor stays on a colour field. */
  lemma HealedLink(elems: seq<Element>, visited: set<nat>, idx: nat, row: Node)
    requires idx < |elems| && IsSetting(elems[idx])
    requires row.colourEditor <==> Decide(elems[idx]).colourEditor
    ensures idx < |HealAll(elems, visited)|
    ensures var el := HealAll(elems, visited)[idx];
      && IsSetting(el) && el.attrs["field"] == elems[idx].attrs["field"]
      && (row.colourEditor ==> IsColourCandidate(el.attrs["field"]) || IsReticleField(el.attrs["field"]))
  {
    HealAllAt(elems, visited, idx);
    FieldIsNotValue();
  }
}
