/** The settings window: the saved key-to-sound map, the staged edits that
    are committed or discarded as a whole, the keys whose sound is broken,
    the key being edited, and the colour of each on-screen keyboard button. */
module MainForm {
  import opened Wrappers
  import opened Lists
  import Keys
  import UserSettings

  type KeyCode = Keys.KeyCode

  /** Keys that can never be selected for editing. */
  const ForbiddenKeys: seq<KeyCode> := [Keys.None, Keys.RWin, Keys.LWin, Keys.NumLock]

  /** The text stored for a disabled application. */
  const FalseText: string := "False"

  datatype Color = White | Cyan | Magenta | Yellow | GreenYellow

  /** The two pages of the window: the main switch and the sound editor. */
  datatype Page = MainPage | SettingsPage

  // ---------------------------------------------------------------------------
  // What the window shows

  /** The path shown for a key: its staged value when it has one (an empty
      one included), else its saved one, else nothing. */
  function DisplayedPath(k: KeyCode, pending: map<KeyCode, string>, saved: map<KeyCode, string>): string
  {
    if k in pending then pending[k] else if k in saved then saved[k] else ""
  }

  /** The path label: blank for a path of white space only. */
  function PathLabel(path: string): string
  {
    if forall i :: 0 <= i < |path| ==> UserSettings.IsWhiteSpace(path[i]) then "" else path
  }

  /** The colour of the button for key b while `selected` is highlighted. */
  function ButtonColor(b: KeyCode, selected: KeyCode, errors: seq<KeyCode>,
                       pending: map<KeyCode, string>, saved: map<KeyCode, string>): Color
  {
    if b == Keys.None then White
    else if b == selected then Cyan
    else if b in errors then Magenta
    else if b in pending then Yellow
    else if b in saved then GreenYellow
    else White
  }

  /** Each colour says exactly which state the key is in: a highlighted key
      is cyan whatever else holds, a broken sound hides a staged edit, and a
      staged edit hides the saved sound. */
  lemma ColorMeaning(b: KeyCode, selected: KeyCode, errors: seq<KeyCode>,
                     pending: map<KeyCode, string>, saved: map<KeyCode, string>)
    ensures var c := ButtonColor(b, selected, errors, pending, saved);
            && (c == Cyan <==> b != Keys.None && b == selected)
            && (c == Magenta <==> b != Keys.None && b != selected && b in errors)
            && (c == Yellow <==> b != Keys.None && b != selected && b !in errors && b in pending)
            && (c == GreenYellow <==> b != Keys.None && b != selected && b !in errors && b !in pending && b in saved)
            && (c == White <==> b == Keys.None || (b != selected && b !in errors && b !in pending && b !in saved))
  {
  }

  // ---------------------------------------------------------------------------
  // Staged edits

  /** The saved map after applying the staged values of `keys`: an empty
      value deletes the key, any other value is stored. */
  function Applied(saved: map<KeyCode, string>, pending: map<KeyCode, string>, keys: set<KeyCode>): map<KeyCode, string>
    requires keys <= pending.Keys
  {
    map k | k in saved.Keys + keys && (k in keys ==> |pending[k]| > 0) :: if k in keys then pending[k] else saved[k]
  }

  /** Applying one more staged value deletes or stores that key. */
  lemma AppliedStep(saved: map<KeyCode, string>, pending: map<KeyCode, string>, keys: set<KeyCode>, k: KeyCode)
    requires keys <= pending.Keys && k in pending
    ensures Applied(saved, pending, keys + {k})
            == if |pending[k]| == 0 then Applied(saved, pending, keys) - {k}
               else Applied(saved, pending, keys)[k := pending[k]]
  {
    var a := Applied(saved, pending, keys + {k});
    var b := if |pending[k]| == 0 then Applied(saved, pending, keys) - {k}
             else Applied(saved, pending, keys)[k := pending[k]];
    assert a.Keys == b.Keys;
  }

  lemma AppliedNothing(saved: map<KeyCode, string>, pending: map<KeyCode, string>)
    ensures Applied(saved, pending, {}) == saved
  {
    assert Applied(saved, pending, {}).Keys == saved.Keys;
  }

  /** The saved map after committing every staged value. */
  function Committed(saved: map<KeyCode, string>, pending: map<KeyCode, string>): map<KeyCode, string>
  {
    Applied(saved, pending, pending.Keys)
  }

  /** The staged values after staging a deletion for every key of `keys`. */
  function Overridden(pending: map<KeyCode, string>, keys: set<KeyCode>): map<KeyCode, string>
  {
    map k | k in pending.Keys + keys :: if k in keys then "" else pending[k]
  }

  lemma OverriddenStep(pending: map<KeyCode, string>, keys: set<KeyCode>, k: KeyCode)
    ensures Overridden(pending, keys + {k}) == Overridden(pending, keys)[k := ""]
  {
    var a := Overridden(pending, keys + {k});
    var b := Overridden(pending, keys)[k := ""];
    assert a.Keys == b.Keys;
  }

  /** The staged values after clearing k: a deletion when k has a saved
      sound, otherwise no staged value at all. */
  function Cleared(saved: map<KeyCode, string>, pending: map<KeyCode, string>, k: KeyCode): map<KeyCode, string>
  {
    if k in saved then pending[k := ""] else pending - {k}
  }

  /** Committing deletes the keys staged empty, stores the other staged
      values and leaves every key without a staged value as it was. */
  lemma CommitEffect(saved: map<KeyCode, string>, pending: map<KeyCode, string>, k: KeyCode)
    ensures var r := Committed(saved, pending);
            && (k in pending && |pending[k]| == 0 ==> k !in r)
            && (k in pending && |pending[k]| > 0 ==> k in r && r[k] == pending[k])
            && (k !in pending ==> (k in r <==> k in saved) && (k in saved ==> r[k] == saved[k]))
  {
  }

  /** What the editor shows before a commit is what is saved after it. */
  lemma {:induction false} CommitKeepsDisplay(saved: map<KeyCode, string>, pending: map<KeyCode, string>, k: KeyCode)
    ensures DisplayedPath(k, map[], Committed(saved, pending)) == DisplayedPath(k, pending, saved)
  {
    CommitEffect(saved, pending, k);
  }

  /** Resetting everything and committing keeps only the sounds picked for
      keys that had none saved. */
  lemma {:induction false} ResetThenCommit(saved: map<KeyCode, string>, pending: map<KeyCode, string>)
    ensures Committed(saved, Overridden(pending, saved.Keys))
            == map k | k in pending.Keys - saved.Keys && |pending[k]| > 0 :: pending[k]
  {
    var staged := Overridden(pending, saved.Keys);
    var r := Committed(saved, staged);
    var expected := map k | k in pending.Keys - saved.Keys && |pending[k]| > 0 :: pending[k];
    forall k ensures (k in r <==> k in expected) && (k in r ==> r[k] == expected[k]) {
      CommitEffect(saved, staged, k);
    }
  }

  /** Clearing a key and committing leaves it without a sound and every
      other key as a plain commit would. */
  lemma {:induction false} ClearThenCommit(saved: map<KeyCode, string>, pending: map<KeyCode, string>, k: KeyCode)
    ensures k !in Committed(saved, Cleared(saved, pending, k))
    ensures Committed(saved, Cleared(saved, pending, k)) - {k} == Committed(saved, pending) - {k}
  {
    var staged := Cleared(saved, pending, k);
    CommitEffect(saved, staged, k);
    var a := Committed(saved, staged) - {k};
    var b := Committed(saved, pending) - {k};
    forall j ensures (j in a <==> j in b) && (j in a ==> a[j] == b[j]) {
      CommitEffect(saved, staged, j);
      CommitEffect(saved, pending, j);
    }
  }

  /** A key of a non-empty set, as the loops over a dictionary's keys need. */
  lemma SomeKey(keys: set<KeyCode>) returns (k: KeyCode)
    requires keys != {}
    ensures k in keys
  {
    if forall x :: x !in keys {
      assert false;
    } else {
      k :| k in keys;
    }
  }

  // ---------------------------------------------------------------------------
  // The window

  class Form1 {
    var isEnabled: bool
    var selectedKey: KeyCode
    var page: Page
    /** The saved key-to-sound map. */
    var soundPath: map<KeyCode, string>
    /** Staged edits; an empty path stages a deletion. */
    var unsavedSetting: map<KeyCode, string>
    /** Keys whose sound file was missing or failed to play. */
    var errorSound: seq<KeyCode>
    /** The key label: nothing, or the selected key. */
    var keyLabel: Option<KeyCode>
    /** The path label. */
    var pathLabel: string
    /** The keys of the on-screen keyboard buttons. */
    const buttons: set<KeyCode>
    /** The background colour of each button, once painted. */
    var colors: map<KeyCode, Color>

    ghost predicate Valid()
      reads this
    {
      NoDuplicates(errorSound)
    }

    /** The colours of all buttons with `key` highlighted, in the current state. */
    function Colors(key: KeyCode): map<KeyCode, Color>
      reads this
    {
      map b | b in buttons :: ButtonColor(b, key, errorSound, unsavedSetting, soundPath)
    }

    /** The window as created, given the stored "enabled" setting and the
        buttons of its keyboard. */
    constructor(enableSetting: string, buttons: set<KeyCode>)
      ensures Valid()
      ensures isEnabled == (enableSetting != FalseText)
      ensures selectedKey == Keys.None && page == MainPage
      ensures soundPath == map[] && unsavedSetting == map[] && errorSound == []
      ensures keyLabel == None && pathLabel == "" && colors == map[]
      ensures this.buttons == buttons
    {
      isEnabled := enableSetting != FalseText;
      selectedKey := Keys.None;
      page := MainPage;
      soundPath := map[];
      unsavedSetting := map[];
      errorSound := [];
      keyLabel := None;
      pathLabel := "";
      this.buttons := buttons;
      colors := map[];
    }

    /** Repaints every button with `key` highlighted. */
    method SelectKeyboardButton(key: KeyCode)
      modifies this`colors
      ensures colors == Colors(key)
    {
      colors := map b | b in buttons :: ButtonColor(b, key, errorSound, unsavedSetting, soundPath);
    }

    /** Shows the selected key and the path it will have. */
    method ResetKeySelectedText()
      modifies this`keyLabel, this`pathLabel
      ensures keyLabel == if selectedKey == Keys.None then None else Some(selectedKey)
      ensures pathLabel == PathLabel(DisplayedPath(selectedKey, unsavedSetting, soundPath))
    {
      keyLabel := if selectedKey == Keys.None then None else Some(selectedKey);
      var path := DisplayedPath(selectedKey, unsavedSetting, soundPath);
      pathLabel := PathLabel(path);
    }

    /** A key chosen on screen or pressed in the editor: forbidden keys are
        ignored; any other becomes the highlighted, edited key. */
    method OnKeySelected(key: KeyCode)
      modifies this`colors, this`selectedKey, this`keyLabel, this`pathLabel
      ensures key in ForbiddenKeys ==> unchanged(this)
      ensures key !in ForbiddenKeys ==>
                && selectedKey == key && colors == Colors(key) && keyLabel == Some(key)
                && pathLabel == PathLabel(DisplayedPath(key, unsavedSetting, soundPath))
    {
      if key in ForbiddenKeys {
        return;
      }
      SelectKeyboardButton(key);
      selectedKey := key;
      ResetKeySelectedText();
    }

    /** The enable check box. */
    method SetEnabled(checked: bool)
      modifies this`isEnabled
      ensures isEnabled == checked
    {
      isEnabled := checked;
    }

    /** Opens the editor with no button highlighted. */
    method OpenSettings()
      modifies this`colors, this`page
      ensures colors == Colors(Keys.None) && page == SettingsPage
    {
      SelectKeyboardButton(Keys.None);
      page := SettingsPage;
    }

    /** Back to the main page, discarding the staged edits; with edits
        staged, only when the user agrees to leave. */
    method Discard(leave: bool)
      modifies this`unsavedSetting, this`page
      ensures if |old(unsavedSetting)| > 0 && !leave then unchanged(this)
              else unsavedSetting == map[] && page == MainPage
      ensures soundPath == old(soundPath)
    {
      if |unsavedSetting| > 0 && !leave {
        return;
      }
      unsavedSetting := map[];
      page := MainPage;
    }

    /** Clears the edited key's sound. */
    method ClearSelected()
      modifies this`unsavedSetting, this`keyLabel, this`pathLabel
      ensures unsavedSetting == Cleared(soundPath, old(unsavedSetting), selectedKey)
      ensures pathLabel == PathLabel(DisplayedPath(selectedKey, unsavedSetting, soundPath))
      ensures pathLabel == ""
      ensures keyLabel == if selectedKey == Keys.None then None else Some(selectedKey)
    {
      if selectedKey in soundPath {
        unsavedSetting := unsavedSetting[selectedKey := ""];
      } else {
        unsavedSetting := unsavedSetting - {selectedKey};
      }
      ResetKeySelectedText();
    }

    /** Stages a deletion for every saved key, when confirmed, and repaints
        with nothing highlighted. */
    method ResetAll(confirmed: bool)
      modifies this`unsavedSetting, this`colors, this`keyLabel, this`pathLabel
      ensures unsavedSetting == if confirmed then Overridden(old(unsavedSetting), soundPath.Keys) else old(unsavedSetting)
      ensures colors == Colors(Keys.None)
      ensures pathLabel == PathLabel(DisplayedPath(selectedKey, unsavedSetting, soundPath))
      ensures keyLabel == if selectedKey == Keys.None then None else Some(selectedKey)
    {
      if confirmed {
        ghost var pending := unsavedSetting;
        var todo := soundPath.Keys;
        while todo != {}
          invariant todo <= soundPath.Keys
          invariant unsavedSetting == Overridden(pending, soundPath.Keys - todo)
        {
          ghost var some := SomeKey(todo);
          var k :| k in todo;
          OverriddenStep(pending, soundPath.Keys - todo, k);
          unsavedSetting := unsavedSetting[k := ""];
          assert soundPath.Keys - (todo - {k}) == (soundPath.Keys - todo) + {k};
          todo := todo - {k};
        }
        assert soundPath.Keys - todo == soundPath.Keys;
      }
      SelectKeyboardButton(Keys.None);
      ResetKeySelectedText();
    }

    /** A sound file chosen (or the dialog cancelled) for the edited key:
        the path is staged and shown, and the key is no longer broken. */
    method PickSound(chosen: Option<string>)
      requires Valid()
      modifies this`unsavedSetting, this`errorSound, this`pathLabel
      ensures Valid()
      ensures chosen.None? ==> unchanged(this)
      ensures chosen.Some? ==>
                && unsavedSetting == old(unsavedSetting)[selectedKey := chosen.value]
                && pathLabel == chosen.value
                && errorSound == Remove(old(errorSound), selectedKey)
                && selectedKey !in errorSound
                && forall k :: k != selectedKey ==> (k in errorSound <==> k in old(errorSound))
    {
      if chosen.Some? {
        var filePath := chosen.value;
        pathLabel := filePath;
        unsavedSetting := unsavedSetting[selectedKey := filePath];
        Forget(selectedKey);
      }
    }

    /** Saves every staged edit, empties the staging area, repaints with
        nothing highlighted and returns to the main page. */
    method Commit()
      modifies this`soundPath, this`unsavedSetting, this`colors, this`page
      ensures soundPath == Committed(old(soundPath), old(unsavedSetting))
      ensures unsavedSetting == map[]
      ensures colors == Colors(Keys.None) && page == MainPage
    {
      SaveStaged(unsavedSetting);
      unsavedSetting := map[];
      SelectKeyboardButton(Keys.None);
      page := MainPage;
    }

    /** The loop of Commit: each staged value in turn deletes or stores its key. */
    method SaveStaged(pending: map<KeyCode, string>)
      modifies this`soundPath
      ensures soundPath == Committed(old(soundPath), pending)
    {
      ghost var saved := soundPath;
      ghost var done: set<KeyCode> := {};
      var todo := pending.Keys;
      AppliedNothing(saved, pending);
      while todo != {}
        invariant todo !! done && todo + done == pending.Keys
        invariant soundPath == Applied(saved, pending, done)
      {
        ghost var some := SomeKey(todo);
        var k :| k in todo;
        AppliedStep(saved, pending, done, k);
        SaveOne(k, pending[k]);
        done := done + {k};
        todo := todo - {k};
      }
      assert done == pending.Keys;
    }

    /** One staged value: an empty one deletes the key, any other is stored. */
    method SaveOne(k: KeyCode, value: string)
      modifies this`soundPath
      ensures soundPath == if |value| == 0 then old(soundPath) - {k} else old(soundPath)[k := value]
    {
      if |value| == 0 {
        soundPath := soundPath - {k};
      } else {
        soundPath := soundPath[k := value];
      }
    }

    /** Drops key from the broken sounds (List.Remove: its one occurrence, if any). */
    method Forget(key: KeyCode)
      requires Valid()
      modifies this`errorSound
      ensures Valid()
      ensures errorSound == Remove(old(errorSound), key)
      ensures key !in errorSound && forall k :: k != key ==> (k in errorSound <==> k in old(errorSound))
    {
      RemoveDistinct(errorSound, key);
      errorSound := Remove(errorSound, key);
    }

    /** Records a broken sound for key, once. */
    method MarkBroken(key: KeyCode)
      requires Valid()
      modifies this`errorSound
      ensures Valid()
      ensures errorSound == if key in old(errorSound) then old(errorSound) else old(errorSound) + [key]
    {
      if key !in errorSound {
        errorSound := errorSound + [key];
      }
    }

    /** A key press delivered by the keyboard hook. In the editor (the
        settings page, shown and not minimised) it selects the key.
        Otherwise, when enabled and the key has a saved sound, the sound is
        played if its file exists (and the key is no longer broken) or the
        key is recorded as broken. Returns the path played, if any. */
    method OnHookPressed(key: KeyCode, shown: bool, fileExists: string -> bool) returns (played: Option<string>)
      requires Valid()
      modifies this`colors, this`selectedKey, this`keyLabel, this`pathLabel, this`errorSound
      ensures Valid()
      ensures page == SettingsPage && shown ==>
                played == None && errorSound == old(errorSound)
                && (key !in ForbiddenKeys ==> selectedKey == key && colors == Colors(key))
                && (key in ForbiddenKeys ==> selectedKey == old(selectedKey) && colors == old(colors))
      ensures page == SettingsPage && shown && key !in ForbiddenKeys ==>
                keyLabel == Some(key) && pathLabel == PathLabel(DisplayedPath(key, unsavedSetting, soundPath))
      ensures !(page == SettingsPage && shown && key !in ForbiddenKeys) ==>
                keyLabel == old(keyLabel) && pathLabel == old(pathLabel)
      ensures !(page == SettingsPage && shown) ==>
                && selectedKey == old(selectedKey) && colors == old(colors)
                && (!isEnabled || key !in soundPath ==> played == None && errorSound == old(errorSound))
                && (isEnabled && key in soundPath && fileExists(soundPath[key]) ==>
                      played == Some(soundPath[key]) && key !in errorSound
                      && forall k :: k != key ==> (k in errorSound <==> k in old(errorSound)))
                && (isEnabled && key in soundPath && !fileExists(soundPath[key]) ==>
                      played == None && key in errorSound
                      && forall k :: k != key ==> (k in errorSound <==> k in old(errorSound)))
    {
      played := None;
      if page == SettingsPage && shown {
        OnKeySelected(key);
        return;
      }
      if !isEnabled || key !in soundPath {
        return;
      }
      var soundFile := soundPath[key];
      if fileExists(soundFile) {
        played := Some(soundFile);
        if key in errorSound {
          Forget(key);
        }
      } else {
        MarkBroken(key);
      }
    }

    /** A handler failure reported by the keyboard hook: the key is broken. */
    method OnHookError(key: KeyCode)
      requires Valid()
      modifies this`errorSound
      ensures Valid()
      ensures key in errorSound && forall k :: k != key ==> (k in errorSound <==> k in old(errorSound))
    {
      MarkBroken(key);
    }
  }
}
