# KeyboardTalk key-handling core, modelled in Dafny

KeyboardTalk is a Windows tray application that plays a sound when a key is
pressed. This project models and proves its four pieces of key-handling logic:

- **The global keyboard hook and per-key debouncer** (`intercept_keys.dfy`,
  module `InterceptKeys`).
  - Each virtual-key code gets one `Key` object, created lazily and cached.
  - OS key-repeat key-downs are folded into one logical press; a key-up
    re-arms the key.
  - A novel key-down runs the press pipeline.
  - Every message is forwarded along the hook chain.
  - `Hook`/`Unhook` are guarded by an installed flag.
- **The dispatch registry** (`keydown_event_handler.dfy`, module
  `KeydownEventService`).
  - `EventEmitter` keeps an ordered, append-only list of actions per key.
  - `Load` registers each handler module once and refuses types that are not
    handler modules.
  - `LoadFromAssembly` loads the eligible modules.
  - `Press` runs a key's actions, then the pressed subscribers, and hands the
    first exception to the error subscribers.
- **The settings section parser** (`user_settings.dfy`, module
  `UserSettings`). `GetSection` turns the decoded NUL-separated `key=value`
  buffer into a dictionary. It trims keys and values, drops malformed
  entries, and keeps the last value for a repeated key.
- **The settings window** (`main_form.dfy`, module `MainForm`, class
  `Form1`).
  - State: the saved key-to-sound map, the staged edits (an empty path stages
    a deletion) and the list of keys with a broken sound.
  - The button handlers that select, clear, reset, pick, commit and discard.
  - The hook callbacks that play a sound or record it as broken.
  - The button-colour and displayed-path rules.

`lists.dfy` holds the `List.Remove` semantics the window uses.
`keys.dfy` holds the WinForms key codes the core names.
`wrappers.dfy` holds `Option`, `Result` and `Outcome`.

Exceptions are modelled as data:
- A press is given the set `throws` of delegates that raise on this call.
- A multicast delegate is the sequence of its targets. Invoking it runs them
  in order up to the first that raises (`Invoke`).
- A press yields the sequence of delegate calls it makes (`Call`).

The OS, the file system and the dialogs are parameters:
- the handle the OS returns;
- whether a sound file exists;
- whether the user confirmed;
- the file the user chose;
- whether the window is shown.

Behaviour of the code that the model keeps as written:
- A handler that raises ends `Press`: the later handlers do not run and the
  pressed subscribers are not told, because the catch at
  KeydownEventHandler.cs:104 wraps both `Emit` and `OnPressed`.
- `RemoveAllListener` subtracts each event from itself. `X -= X` leaves the
  event null, so both subscriber lists become empty.
- `Unhook` drops only the two subscriber lists. The bindings and the loaded
  modules stay.
- `OnPressed` and `OnError` are multicast events. `Hook` appends with `+=`,
  so they are modelled as sequences, not as single slots.
- There is no try/catch around the callback. No delivery fault is caught or
  reported at the hook boundary.

## Model

| member | source | states |
|---|---|---|
| InterceptKeys.Key.constructor | KeyboardTalk/Controllers/InterceptKeys/InterceptKeys.cs:93-97 | A new key carries its code and starts unpressed. The code is a constant and never changes. |
| InterceptKeys.Key.Keydown | KeyboardTalk/Controllers/InterceptKeys/InterceptKeys.cs:99-107 | Returns true exactly when the key was not pressed. Afterwards it is pressed, so a repeat returns false and changes nothing. |
| InterceptKeys.Key.Keyup | KeyboardTalk/Controllers/InterceptKeys/InterceptKeys.cs:109-117 | Returns true exactly when the key was pressed. Afterwards it is released, so a redundant key-up returns false and changes nothing. |
| InterceptKeys.RunConcat | KeyboardTalk/Controllers/InterceptKeys/InterceptKeys.cs:46-72 | Processing two streams of callbacks one after the other is the same as processing their concatenation. The final flags agree and the press lists concatenate. |
| InterceptKeys.RepeatsWhileHeld | KeyboardTalk/Controllers/InterceptKeys/InterceptKeys.cs:58-64 | While a key is held, any number of repeated key-downs press nothing and change no flag. |
| InterceptKeys.HeldKeyPressesOnce | KeyboardTalk/Controllers/InterceptKeys/InterceptKeys.cs:58-68 | From released, n >= 1 key-downs followed by a key-up give exactly one press of that key and leave it released. |
| InterceptKeys.DownDownDownUpDown | KeyboardTalk/Controllers/InterceptKeys/InterceptKeys.cs:58-68 | Down, down, down, up is one press plus a reset. A further down presses again, giving presses [k, k]. |
| InterceptKeys.PressesNeedReleases | KeyboardTalk/Controllers/InterceptKeys/InterceptKeys.cs:58-68 | Over any stream, a key's presses never exceed its key-ups plus one. Exactly: presses plus "held at start" are at most key-ups plus "held at end". |
| InterceptKeys.OnlyKeydownsPress | KeyboardTalk/Controllers/InterceptKeys/InterceptKeys.cs:48-68 | Key-ups, other messages and negative hook codes never press. A stream of negative hook codes leaves every flag unchanged. |
| InterceptKeys.OtherKeysUntouched | KeyboardTalk/Controllers/InterceptKeys/InterceptKeys.cs:51-68 | Messages for other codes never change a key's flag and never press it. |
| InterceptKeys.InterceptKeys.constructor | KeyboardTalk/Controllers/InterceptKeys/InterceptKeys.cs:12-16 | The adapter starts with an empty key cache, not installed, a null handle, no subscribers, no bindings and no loaded modules. |
| InterceptKeys.InterceptKeys.Hook | KeyboardTalk/Controllers/InterceptKeys/InterceptKeys.cs:18-26 | Returns true exactly when not installed. Then it appends the pressed subscriber (and the error subscriber when given) and records the OS handle. When already installed it changes no handle or subscriber. Either way the adapter ends up installed. |
| InterceptKeys.InterceptKeys.Unhook | KeyboardTalk/Controllers/InterceptKeys/InterceptKeys.cs:28-35 | Returns true exactly when installed. Then it empties both subscriber lists. When not installed it changes nothing. Either way the adapter ends up not installed, with the cache, handle and modules unchanged. |
| InterceptKeys.InterceptKeys.CachedKey | KeyboardTalk/Controllers/InterceptKeys/InterceptKeys.cs:50-56 | A cached key is reused, never replaced. An unseen code gets a fresh, unpressed Key for that code. The cache only gains that one entry, and no other flag changes. |
| InterceptKeys.InterceptKeys.Debounce | KeyboardTalk/Controllers/InterceptKeys/InterceptKeys.cs:58-68 | A key-down sets the key pressed and runs the press pipeline exactly when it was not pressed. A key-up releases the key without a press. Other messages change nothing. |
| InterceptKeys.InterceptKeys.HookCallback | KeyboardTalk/Controllers/InterceptKeys/InterceptKeys.cs:46-72 | The pressed flags move as the value-level `Step` says. The calls made are the press pipeline exactly when `Step` reports a novel key-down. A negative hook code leaves the cache alone. Otherwise the cache gains at most the message's code, and an existing entry is kept. The message is always forwarded to the next hook. |
| InterceptKeys.InterceptKeys.DeliverAll | KeyboardTalk/Controllers/InterceptKeys/InterceptKeys.cs:46-72 | Feeding a stream of messages to the callback one by one leaves the pressed flags as `Run` says. The calls made are one press pipeline per press that `Run` reports, in order, for the bindings and subscribers as they stand. The hook state is unchanged. |
| InterceptKeys.HookTwice | KeyboardTalk/Controllers/InterceptKeys/InterceptKeys.cs:18-26 | Installing twice gives (true, false). |
| InterceptKeys.HookLifecycle | KeyboardTalk/Controllers/InterceptKeys/InterceptKeys.cs:18-35 | On a fresh adapter, uninstalling twice gives (false, false). Install then uninstall succeeds, and a later install succeeds with only its own subscribers. |
| InterceptKeys.ReturnKeyScenario | KeyboardTalk/Controllers/InterceptKeys/InterceptKeys.cs:46-72 | With a Return handler bound: a raw down of Return runs it once and tells the pressed subscriber once, with no error. The up does nothing, and both messages are forwarded. |
| InterceptKeys.FailingHandlerScenario | KeyboardTalk/Services/KeydownEventService/Classes/KeydownEventHandler.cs:97-108 | A raising handler for key 65: a raw down reports the error once, with key 65 and that handler as cause. The pressed subscriber is not told. |
| KeydownEventService.Invoke | KeyboardTalk/Services/KeydownEventService/Classes/KeydownEventHandler.cs:13-16 | A multicast invocation runs a prefix of its targets, in order. It reports a thrower exactly when some target raises. With no thrower every target runs. Otherwise the thrower ran last, and no earlier target raised. |
| KeydownEventService.InvokeStopsAtFirstThrower | KeyboardTalk/Services/KeydownEventService/Classes/KeydownEventHandler.cs:13-16 | When target i is the first to raise, exactly targets 0..i run and target i is the reported cause. |
| KeydownEventService.PressWithoutFailure | KeyboardTalk/Services/KeydownEventService/Classes/KeydownEventHandler.cs:97-103 | When nothing raises, every bound action runs in order, then every pressed subscriber is told of the key, and no error subscriber is called. |
| KeydownEventService.PressWithFailingHandler | KeyboardTalk/Services/KeydownEventService/Classes/KeydownEventHandler.cs:97-107 | When bound action i raises first: actions 0..i run, and each error subscriber is told once with the key and that cause. No pressed subscriber is told. |
| KeydownEventService.PressWithFailingSubscriber | KeyboardTalk/Services/KeydownEventService/Classes/KeydownEventHandler.cs:97-107 | When the actions all complete and pressed subscriber i raises first: subscribers 0..i are told, then each error subscriber once with that cause. |
| KeydownEventService.BindingsOfMethods | KeyboardTalk/Services/KeydownEventService/Classes/KeydownEventHandler.cs:70-82 | A module binds (key, action) exactly when one of its methods carries a key attribute listing the key and becomes that action. Methods without the attribute bind nothing. |
| KeydownEventService.RegisterAppends | KeyboardTalk/Services/KeydownEventService/Classes/KeydownEventHandler.cs:26-39 | Registering pairs appends each key's new actions, in order, after its existing list. A key gets a list exactly when it had one or some pair names it. |
| KeydownEventService.RegisterConcat | KeyboardTalk/Services/KeydownEventService/Classes/KeydownEventHandler.cs:70-82 | Registering method by method is the same as registering all the pairs at once. |
| KeydownEventService.LoadBindsOnce | KeyboardTalk/Services/KeydownEventService/Classes/KeydownEventHandler.cs:58-85 | Loading a new handler module adds, for every key, exactly the actions its methods bind, after the existing ones, and records the module. Loading it again changes nothing. |
| KeydownEventService.LoadAllRecords | KeyboardTalk/Services/KeydownEventService/Classes/KeydownEventHandler.cs:87-95 | After loading a list of modules, a type is recorded exactly when it was before or is in the list. No type is ever recorded twice. |
| KeydownEventService.EligibleExactly | KeyboardTalk/Services/KeydownEventService/Classes/KeydownEventHandler.cs:89 | The types picked from an assembly are exactly its handler-module types that do not opt out of auto-registration. |
| KeydownEventService.EventEmitter.constructor | KeyboardTalk/Services/KeydownEventService/Classes/KeydownEventHandler.cs:21-24 | A new emitter has no bindings. |
| KeydownEventService.EventEmitter.On | KeyboardTalk/Services/KeydownEventService/Classes/KeydownEventHandler.cs:26-39 | Appends the action to the end of the key's list, creating the list when absent. Every other key's list is unchanged. |
| KeydownEventService.EventEmitter.Emit | KeyboardTalk/Services/KeydownEventService/Classes/KeydownEventHandler.cs:41-45 | Runs exactly the key's actions in registration order, up to the first that raises. An unbound key runs nothing and raises nothing. |
| KeydownEventService.KeydownEventHandler.constructor | KeyboardTalk/Services/KeydownEventService/Classes/KeydownEventHandler.cs:52-56 | A new registry has no subscribers, no bindings and no loaded modules. |
| KeydownEventService.KeydownEventHandler.Load | KeyboardTalk/Services/KeydownEventService/Classes/KeydownEventHandler.cs:58-85 | A type that is not a handler module fails with ArgumentException and changes nothing. Otherwise the bindings and module list become what `Loaded` gives: already loaded means unchanged, else its bindings are registered and it is recorded. Subscribers are untouched. No module type is ever recorded twice (`Valid`). |
| KeydownEventService.KeydownEventHandler.BindMethod | KeyboardTalk/Services/KeydownEventService/Classes/KeydownEventHandler.cs:72-81 | One method's action is appended to each key of its attribute, in order. A method without the attribute binds nothing. |
| KeydownEventService.KeydownEventHandler.LoadFromAssembly | KeyboardTalk/Services/KeydownEventService/Classes/KeydownEventHandler.cs:87-95 | Loads exactly the eligible types, in the assembly's order. None of them can fail. No module type is recorded twice. |
| KeydownEventService.KeydownEventHandler.Press | KeyboardTalk/Services/KeydownEventService/Classes/KeydownEventHandler.cs:97-108 | The calls made are the key's actions up to the first that raises, then (if none raised) the pressed subscribers up to the first that raises, then each error subscriber once if anything raised. Nothing escapes. |
| KeydownEventService.KeydownEventHandler.RemoveAllListener | KeyboardTalk/Services/KeydownEventService/Classes/KeydownEventHandler.cs:110-114 | Both subscriber lists become empty. The loaded modules stay. |
| UserSettings.TrimStartSpec | KeyboardTalk/Controllers/UserSettings/UserSettings.cs:55 | Trimming the start removes a prefix made only of characters to strip, and the result starts with a character to keep (or is empty). |
| UserSettings.TrimEndSpec | KeyboardTalk/Controllers/UserSettings/UserSettings.cs:55 | Trimming the end removes a suffix made only of characters to strip, and the result ends with a character to keep (or is empty). |
| UserSettings.TrimByRemovesStripped | KeyboardTalk/Controllers/UserSettings/UserSettings.cs:55 | Trimming keeps a contiguous piece of the text. Everything before and after that piece is a character to strip. |
| UserSettings.TrimByTrimmed | KeyboardTalk/Controllers/UserSettings/UserSettings.cs:63-64 | A trimmed text has nothing to strip at either end. |
| UserSettings.TrimStartPrefix | KeyboardTalk/Controllers/UserSettings/UserSettings.cs:55 | Trimming the start of a stripped prefix followed by a text that starts with a kept character gives that text. |
| UserSettings.TrimEndSuffix | KeyboardTalk/Controllers/UserSettings/UserSettings.cs:55 | Trimming the end of a text that ends with a kept character, followed by a stripped suffix, gives that text. |
| UserSettings.TrimOfTrimmed | KeyboardTalk/Controllers/UserSettings/UserSettings.cs:63-64 | Trimming is idempotent on text that is already trimmed. |
| UserSettings.TrimPadded | KeyboardTalk/Controllers/UserSettings/UserSettings.cs:55 | A trimmed text padded on both sides with characters to strip (such as the NUL padding of the buffer) trims back to itself. |
| UserSettings.IndexOf | KeyboardTalk/Controllers/UserSettings/UserSettings.cs:60 | The index found holds the separator and nothing before it does: it is the first occurrence. |
| UserSettings.SplitCount | KeyboardTalk/Controllers/UserSettings/UserSettings.cs:60-61 | Splitting gives more than one field exactly when the separator occurs. So "at least two fields" means "the entry has an '='". |
| UserSettings.SplitFields | KeyboardTalk/Controllers/UserSettings/UserSettings.cs:56 | No field holds the separator. |
| UserSettings.FirstField | KeyboardTalk/Controllers/UserSettings/UserSettings.cs:60 | The first field is the text before the first separator, and the rest are the fields of what follows it. |
| UserSettings.JoinSplit | KeyboardTalk/Controllers/UserSettings/UserSettings.cs:56 | Joining the fields back with the separator gives the original text. |
| UserSettings.SplitJoin | KeyboardTalk/Controllers/UserSettings/UserSettings.cs:56 | Splitting a join of separator-free fields gives back those fields. |
| UserSettings.GetSection | KeyboardTalk/Controllers/UserSettings/UserSettings.cs:55-69 | The loop builds exactly the dictionary `Section` describes. The buffer is trimmed of NULs and split at NULs, and each entry with at least two '='-fields sets its trimmed key to its trimmed value, overwriting earlier ones. |
| UserSettings.SectionTrimmed | KeyboardTalk/Controllers/UserSettings/UserSettings.cs:63-64 | Every key and every value of the dictionary has no white space at either end. |
| UserSettings.SetsKeyMeaning | KeyboardTalk/Controllers/UserSettings/UserSettings.cs:60-63 | An entry sets key k exactly when it contains '=' and the trimmed text before its first '=' is k. Entries without '=', empty ones included, set nothing. |
| UserSettings.SectionKeys | KeyboardTalk/Controllers/UserSettings/UserSettings.cs:58-67 | The dictionary's keys are exactly the keys its entries set. |
| UserSettings.LastEntryWins | KeyboardTalk/Controllers/UserSettings/UserSettings.cs:65 | When entry i sets k to v and no later entry sets k, the dictionary maps k to v. |
| UserSettings.ValueStopsAtSecondEquals | KeyboardTalk/Controllers/UserSettings/UserSettings.cs:60-64 | For `key=value` followed by nothing or by a second '=', the value is only the text between the first and second '='. Whatever follows is lost, so `a=b=c` gives value `b`. |
| UserSettings.ParseStored | KeyboardTalk/Controllers/UserSettings/UserSettings.cs:60-64 | An entry `k=v` written from a storable pair parses back to that pair. |
| UserSettings.EntriesOfSerialized | KeyboardTalk/Controllers/UserSettings/UserSettings.cs:55-56 | The entries read back from a stored section, NUL padding included, are exactly the stored entries. An empty section gives one empty entry. |
| UserSettings.RoundTrip | KeyboardTalk/Controllers/UserSettings/UserSettings.cs:55-67 | Storable pairs with distinct keys, written as NUL-separated `k=v` entries and parsed, give a dictionary with exactly those keys, each mapped to its value. |
| Lists.Remove | KeyboardTalk/Forms/Form1.cs:289 | List.Remove takes away one occurrence of the item, or nothing when it is absent, and keeps every other item. |
| Lists.RemoveDistinct | KeyboardTalk/Forms/Form1.cs:289 | On a list without duplicates, removing an item leaves no occurrence of it, keeps every other item, and keeps the list duplicate-free. |
| MainForm.ColorMeaning | KeyboardTalk/Forms/Form1.cs:185-208 | Each colour identifies one state, in priority order: the None key is white; the highlighted key is cyan; then a broken sound is magenta; then a staged edit is yellow; then a saved sound is green-yellow; otherwise white. |
| MainForm.AppliedStep | KeyboardTalk/Forms/Form1.cs:309-321 | One commit step: a staged empty value deletes the key, and any other staged value is stored under it. |
| MainForm.OverriddenStep | KeyboardTalk/Forms/Form1.cs:298-301 | One reset step stages a deletion for one more key. |
| MainForm.CommitEffect | KeyboardTalk/Forms/Form1.cs:309-321 | After a commit: a key staged empty has no sound; a key staged with a path has that path; a key with no staged value keeps its saved sound, or lack of one. |
| MainForm.CommitKeepsDisplay | KeyboardTalk/Forms/Form1.cs:152 | The path the editor shows for a key before a commit is the path shown for it afterwards. |
| MainForm.ResetThenCommit | KeyboardTalk/Forms/Form1.cs:293-302 | A confirmed reset followed by a commit keeps only the non-empty paths staged for keys that had no saved sound. |
| MainForm.ClearThenCommit | KeyboardTalk/Forms/Form1.cs:327-338 | Clearing a key and committing leaves it without a sound, and leaves every other key as a plain commit would. |
| MainForm.Form1.constructor | KeyboardTalk/Forms/Form1.cs:20-37 | The window is enabled unless the stored setting is "False". It starts with no selected key, the main page, and empty saved, staged and broken sets. |
| MainForm.Form1.SelectKeyboardButton | KeyboardTalk/Forms/Form1.cs:178-215 | Every keyboard button gets its colour by the priority rule, with the given key highlighted. |
| MainForm.Form1.ResetKeySelectedText | KeyboardTalk/Forms/Form1.cs:149-154 | The key label is blank for None and otherwise shows the selected key. The path label shows the staged path, else the saved path, else nothing, and is blank when that is only white space. |
| MainForm.Form1.OnKeySelected | KeyboardTalk/Forms/Form1.cs:141-147 | None, RWin, LWin and NumLock are ignored and change nothing. Any other key becomes the selected, highlighted key, and the labels show it and its path. |
| MainForm.Form1.SetEnabled | KeyboardTalk/Forms/Form1.cs:246-258 | The enabled flag follows the check box. |
| MainForm.Form1.OpenSettings | KeyboardTalk/Forms/Form1.cs:260-264 | The editor opens with no button highlighted. |
| MainForm.Form1.Discard | KeyboardTalk/Forms/Form1.cs:266-276 | With edits staged and leaving refused, nothing changes. Otherwise the staged edits are dropped and the main page is shown. The saved sounds never change. |
| MainForm.Form1.ClearSelected | KeyboardTalk/Forms/Form1.cs:327-338 | A selected key with a saved sound gets a staged deletion. Otherwise its staged value is dropped. Either way its path label becomes blank. |
| MainForm.Form1.ResetAll | KeyboardTalk/Forms/Form1.cs:293-305 | When confirmed, every saved key gets a staged deletion, and the other staged values are kept. Then the buttons are repainted with nothing highlighted and the labels are refreshed. |
| MainForm.Form1.PickSound | KeyboardTalk/Forms/Form1.cs:278-291 | A chosen file is staged for the selected key and shown, and that key is no longer broken. Every other broken key stays broken. A cancelled dialog changes nothing. |
| MainForm.Form1.Commit | KeyboardTalk/Forms/Form1.cs:307-325 | The saved sounds become `Committed` of the old saved and staged maps, and nothing stays staged. The buttons are repainted with nothing highlighted, and the main page is shown. |
| MainForm.Form1.SaveStaged | KeyboardTalk/Forms/Form1.cs:309-321 | The loop over the staged values, in any order, leaves the saved sounds as `Committed` says. |
| MainForm.Form1.SaveOne | KeyboardTalk/Forms/Form1.cs:311-320 | One staged value: an empty one deletes the key, and any other is stored. |
| MainForm.Form1.Forget | KeyboardTalk/Forms/Form1.cs:93-96 | The key is removed from the broken list and the other broken keys stay. |
| MainForm.Form1.MarkBroken | KeyboardTalk/Forms/Form1.cs:105-108 | The key is appended to the broken list only when absent, so the list never holds a key twice. |
| MainForm.Form1.OnHookPressed | KeyboardTalk/Forms/Form1.cs:76-110 | In the shown editor, a press selects the key as `OnKeySelected` does and plays nothing. Otherwise, when enabled and the key has a saved sound: if the file exists it is played and the key is no longer broken, else the key becomes broken. In every other case nothing happens. |
| MainForm.Form1.OnHookError | KeyboardTalk/Forms/Form1.cs:111-117 | A failure for a key marks it broken, once. No other key's state changes. |

## Left out

- Win32 calls (`SetWindowsHookEx`, `UnhookWindowsHookEx`, `CallNextHookEx`,
  `GetModuleHandle`, `Marshal.ReadInt32`) are foreign calls:
  - the hook handle is a parameter;
  - the message's key code is a parameter;
  - forwarding is the returned `CallNextHookEx` value.
- The `lock` in `Key.Keydown`/`Keyup` is per-key mutual exclusion. Callbacks
  are modelled one at a time.
- Reflection in `Load`/`LoadFromAssembly` is modelled as data:
  - a module is a record of its identity, whether it derives from
    `KeydownEventBase`, whether it lacks `DontAutoRegisterAttribute`, and its
    methods' key lists and actions;
  - delegates are action identities, and `KeyAttribute` is folded into the
    method record;
  - `Activator.CreateInstance` is not modelled.
- An exception raised by an `OnError` subscriber itself would escape `Press`
  and the hook callback. It is not modelled: error subscribers are assumed
  not to raise.
- Settings file I/O (`GetPrivateProfileSection`, `GetPrivateProfileString`,
  `WritePrivateProfileString`, `Delete`, `IsExists`) is left out, and so is
  the UTF-16 decoding of the buffer. `GetSection` starts from the decoded
  text, which may be of any length.
- The settings writes done by the window are left out: the check box, the
  commit, and `InitUserSetting`. Only the in-memory maps are modelled.
- `Form1_Load` is settings-file plumbing. Its `Dictionary.Add` can throw on a
  duplicate parsed key. The window starts with an empty saved map.
- The window's GUI is replaced by parameters or left out:
  - message boxes become booleans (`leave`, `confirmed`);
  - the file dialog becomes an optional path;
  - the minimised/visible window state becomes `shown`;
  - the notify icon, `OnClosing` and panel visibility (only the current page
    is kept) are left out;
  - the recursion over the control tree becomes a map over the set of button
    keys;
  - `Path.GetFullPath` on the path label is left out;
  - the key label holds the key code rather than the enum name's text.
- NAudio playback is left out. A successful play is the returned path.
- `KeyboardButton.cs` only relays a click as `Pressed(Key)`; the button set
  stands in for it.
- Dictionary enumeration order in the reset and commit loops is not
  modelled: the loops take the keys in any order, and the result is proved
  the same for every order.
- The `nCode >= 0` test and the `(IntPtr)` message comparisons use plain
  integers. No 32/64-bit pointer width is modelled.
- UserSettings.Split: its own contract only states that there is at least
  one field. What the fields are is proved separately by `SplitCount`,
  `SplitFields`, `FirstField`, `JoinSplit` and `SplitJoin`.
