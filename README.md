# yap login and navigation core, modelled in Dafny

yap is a terminal UI served over SSH. A session shows a short list of screens. The
first is usually a login screen with a user-name input, a masked password input, a
Submit and a Cancel button, and a row of strategy tabs. A login strategy is a tab
name, optionally backed by a basic-auth table of `user:secret` entries. A per-session
navigator keeps the list of screens and the index of the active one. An accepted
login asks the navigator for the next screen.

The model covers the following. `Navigator`, `LoginView`, `ServerLogin`, `LoginAction`,
`BasicAuthTable`, `TabStyle`, `ScreenConfig` and `ServerModel` each model one Go file;
`Base`, `Tea`, `Cycle` and `LoginForm` are shared by several of them, and
`LoginScenario` holds two walkthroughs.

- `Navigator` (internal/server/view/index.go): the navigator as a class over screen
  objects. It keeps a ghost log of the screens it initialised, so every move states
  which screen was activated and that no other screen was touched.
- `LoginView` (internal/tui/view/login/view.go): the main login screen. `Update`
  covers every key binding, resizes, clock ticks and the login attempt.
- `ServerLogin` (internal/server/view/login.go): the older login screen, which
  moves on without checking anything.
- `LoginForm`: what the two login screens share.
  - The two inputs and the focus-ring loops `updateFocus` and `updateInputs`, kept
    as in-place loops over an array.
  - The key bindings.
  - The screen reply.
- `Cycle`: the wrap-around step used by both focus rings and by the tab switcher.
- `LoginAction` (internal/tui/view/login/action.go): tab names, the default tab, and
  dispatch of a login to the first tab with the selected name.
- `BasicAuthTable` (internal/tui/view/login/auth/basicauth.go):
  - `Prepare` parses the entries into a table: last entry wins, the first malformed
    entry is an error, and an empty realm becomes "yap".
  - `Validator` checks a name and password against that table.
- `TabStyle` (internal/tui/style/func.go): `SwitchTab` and `Max`.
- `ScreenConfig` (internal/tui/config.go): configured views become login screens.
- `ServerModel` (internal/server/view/model.go): the demo screen's `Update`.
- `LoginScenario`: the two login walkthroughs, one accepted and one refused, of a
  strategy holding the entry `alice:hunter2`.

Behaviour of the code worth knowing:

- A successful login does not clear an earlier error (view.go:167-178). The screen
  moves on and any `err` stays in the copy that is left behind.
- A password is not compared verbatim with a stored pair.
  - It goes through the external hash check `goauth.CheckSecret`.
  - The table is looked up by user name, and a later entry for the same user
    replaces an earlier one (basicauth.go:25, 51).
  - An empty stored secret always refuses.
- The scenarios store the entry `alice:hunter2` and take the hash check's answer for
  ("hunter2", "hunter2") as a hypothesis. The library's checks expect a hashed
  secret (MD5-crypt by default), and "hunter2" carries no hash prefix, so the real
  check very likely refuses that pair. The accepted walkthrough then needs an entry
  whose secret is a hash of "hunter2". The library is not part of this model, so
  this is not proved here.
- SwitchTab starts from the first tab carrying the current name (func.go:50-56). With
  a repeated name that can trap the selection: with tabs a, b, a, prev-tab from "a"
  gives "a" again (`TabStyle.SwitchedRepeatedName`).

Modelling conventions:

- The Go login screens are value receivers. Every copy shares the backing array of
  the `inputs` slice, so each screen is a datatype whose `inputs` field is an
  `array`. `updateFocus` on a copy changes the shared inputs, as it does in Go.
- `index.NextModel(cfg)`, called from a login screen, is returned as the reply
  `Advance(model, cfg)`. The session-level index type of internal/tui/model is not
  part of this model.
- The external hash check (`CheckSecret`) and the text-input component's own editing
  (`Editor`) are function parameters. Nothing is assumed about them.
- The message types of the two packages (`tea.KeyMsg`, `tea.WindowSizeMsg`, both
  `TimeMsg` types) are one `Msg` datatype. A key press is its key name.

## Model

| member | source | states |
|---|---|---|
| Base.FirstIndexOf | internal/tui/style/func.go:50-56 | the first-match search: an index holding the item with no earlier match, or none exactly when the item is absent |
| Cycle.Forward | internal/tui/view/login/view.go:124-129 | the next-focus step stays in [0, n) and equals (i + 1) mod n |
| Cycle.Backward | internal/tui/view/login/view.go:130-135 | the previous-focus step stays in [0, n) and equals (i - 1 + n) mod n |
| Cycle.ForwardBackwardInverse | internal/tui/view/login/view.go:124-135 | next then prev, and prev then next, return to the same focus |
| Cycle.ForwardCycle | internal/tui/view/login/view.go:124-129 | pressing next focusMax times brings the focus back where it started |
| Cycle.ForwardIterInRange | internal/server/view/login.go:105-110 | any number of next presses keeps the focus inside the ring |
| TabStyle.Max | internal/tui/style/func.go:101-106 | the result is at least both arguments and is one of them |
| TabStyle.Switched | internal/tui/style/func.go:45-71 | fewer than two tabs: the current name comes back; otherwise the result is one of the tabs |
| TabStyle.SwitchTab | internal/tui/style/func.go:45-71 | the find-first loop and wrap-around step give the tab that Switched defines |
| TabStyle.SwitchedAt | internal/tui/style/func.go:50-68 | when tab i is the first tab with its name (duplicates allowed), next and prev from that name give tab (i+1) mod n and tab (i-1+n) mod n |
| TabStyle.SwitchedRepeatedName | internal/tui/style/func.go:50-68 | with tabs a, b, a, prev from "a" gives "a" and next gives "b": later duplicates are never the starting point |
| TabStyle.SwitchedFromUnknown | internal/tui/style/func.go:50-68 | a name that is no tab counts as tab 0: next gives tab 1, prev gives the last tab |
| TabStyle.SwitchedRoundTrip | internal/tui/style/func.go:58-70 | with distinct names, next then prev (and prev then next) returns the current tab |
| TabStyle.SwitchedCycle | internal/tui/style/func.go:58-62 | with distinct names, pressing next once per tab returns the current tab |
| BasicAuthTable.Split | internal/tui/view/login/auth/basicauth.go:20 | splitting on the colon always yields at least one piece |
| BasicAuthTable.SplitCount | internal/tui/view/login/auth/basicauth.go:20-21 | there is one piece more than there are colons |
| BasicAuthTable.SplitPiecesFree | internal/tui/view/login/auth/basicauth.go:20 | no piece contains the colon |
| BasicAuthTable.SplitJoin | internal/tui/view/login/auth/basicauth.go:20 | joining the pieces with colons gives back the entry |
| BasicAuthTable.JoinSplit | internal/tui/view/login/auth/basicauth.go:20 | pieces free of colons, joined and split again, come back unchanged |
| BasicAuthTable.WellFormedIffOneColon | internal/tui/view/login/auth/basicauth.go:20-23 | an entry is accepted exactly when it has exactly one colon |
| BasicAuthTable.ParseUsers | internal/tui/view/login/auth/basicauth.go:18-26 | a successful parse means every entry is well formed |
| BasicAuthTable.ParseFailsIff | internal/tui/view/login/auth/basicauth.go:19-23 | parsing fails exactly when some entry is malformed, and then it fails with the first malformed entry |
| BasicAuthTable.ParseLastWins | internal/tui/view/login/auth/basicauth.go:19-26 | a user is in the table exactly when some entry names it, and it maps to the secret of the last entry naming it |
| BasicAuthTable.Lookup | internal/tui/view/login/auth/basicauth.go:34-40 | the stored secret of a known user, "" for an unknown one |
| BasicAuthTable.BasicAuth.Prepare | internal/tui/view/login/auth/basicauth.go:17-44 | on a malformed entry: that error, with table and realm unchanged; otherwise the parsed table is installed and an empty realm becomes "yap" |
| BasicAuthTable.BasicAuth.Validator | internal/tui/view/login/auth/basicauth.go:46-56 | not prepared: NotPrepared; prepared: passes exactly when the user is in the table with a non-empty secret the hash check accepts, else InvalidCredentials |
| BasicAuthTable.PreparedValidator | internal/tui/view/login/auth/basicauth.go:17-56 | after Prepare, a login passes exactly when the last entry naming the user has a non-empty secret the hash check accepts |
| LoginAction.Auth.Login | internal/tui/view/login/action.go:56-66 | no backend: ErrNoSelection; otherwise passes exactly when the validator passes, and a refusal is wrapped in ErrLogin |
| LoginAction.Action.TabNames | internal/tui/view/login/action.go:19-26 | one name per tab, in tab order |
| LoginAction.Action.TabSelected | internal/tui/view/login/action.go:28-38 | the configured selection, else the first tab's name, else "" |
| LoginAction.Action.Login | internal/tui/view/login/action.go:40-48 | no tab has the selected name: ErrNoSelection; otherwise the first tab with that name decides |
| LoginForm.Refocused | internal/tui/view/login/view.go:185-195 | an input is focused exactly when asked to be; its text and echo mode are kept |
| LoginForm.UpdateFocus | internal/tui/view/login/view.go:180-199 | input i is focused and styled exactly when i is the focus index; with Submit or Cancel focused, no input is |
| LoginForm.BlurAll | internal/tui/view/login/view.go:119-123 | every input loses focus and nothing else about it changes |
| LoginForm.UpdateInputs | internal/tui/view/login/view.go:201-211 | every input handles the message itself |
| LoginForm.Bind | internal/tui/view/login/view.go:118-154 | each listed key selects its own binding (esc and ctrl+c quit, tab next, shift+tab prev, enter login, space select, ctrl+right and ctrl+left switch tabs on the main screen only); a key is unbound exactly when no binding lists it |
| LoginView.NewLoginModel | internal/tui/view/login/view.go:39-97 | fresh inputs, the second masked; focus 0 on a ring of 4; no error; tab names and selected tab from the strategies |
| LoginView.Initialize | internal/tui/view/login/view.go:103-112 | takes the navigator's size, refocuses the inputs for the current focus, and changes nothing else |
| LoginView.Login | internal/tui/view/login/view.go:167-178 | refusal: stays with the error stamped with the screen's clock; acceptance: asks for the next screen with the screen's size, leaving the error as it was |
| LoginView.Update | internal/tui/view/login/view.go:114-166 | the reaction to each key binding, resize and tick (quit, focus ring, login on Enter or Space on Submit, quit on Space on Cancel, tab switch); everything else reaches the inputs |
| ServerLogin.NewLoginModel | internal/server/view/login.go:30-78 | fresh inputs, the first with placeholder "eates", the second masked; focus 0 on a ring of 4 |
| ServerLogin.Initialize | internal/server/view/login.go:84-93 | takes the navigator's size and refocuses the inputs for the current focus |
| ServerLogin.Update | internal/server/view/login.go:95-142 | quit, focus ring, Space on Submit moves on without any check, Space on Cancel quits; Enter, ticks and the rest reach the inputs |
| ServerModel.Update | internal/server/view/model.go:35-56 | a tick sets only the time and a resize only the size; "q" and "ctrl+c" quit; "alt+m" flips the alternate screen and enters it exactly when it is now on; anything else changes nothing |
| ServerModel.AltScreenTwice | internal/server/view/model.go:46-52 | pressing "alt+m" twice restores the state |
| ScreenConfig.SelectionAction | internal/tui/config.go:24-30 | a login screen exactly when the selection has a login action, built from it |
| ScreenConfig.Models | internal/tui/config.go:32-40 | one entry per view in view order; a login screen exactly for views with a login action; no two screens share their inputs |
| Navigator.Screen.SetIndex | internal/server/view/login.go:80-82 | the screen records its navigator and keeps its size |
| Navigator.Screen.Initialize | internal/server/view/login.go:84-89 | the screen takes the given size and keeps its navigator |
| Navigator.IndexModel.SetModels | internal/server/view/index.go:30-36 | every screen is given this navigator, no screen is resized, and the first screen is returned |
| Navigator.IndexModel.GetModel | internal/server/view/index.go:38-44 | out of range: nil, no command, and no screen touched; in range: that screen, initialised with the size, with every other screen unchanged and the activation logged |
| Navigator.IndexModel.InitModel | internal/server/view/index.go:46-50 | the index becomes 0 and screen 0 is activated |
| Navigator.IndexModel.PrevModel | internal/server/view/index.go:52-58 | the index goes down by one but not below 0, and that screen is activated |
| Navigator.IndexModel.NextModel | internal/server/view/index.go:60-64 | the index goes up by one with no upper bound; past the last screen, nil comes back and nothing is initialised |
| Navigator.OvershootAndReturn | internal/server/view/index.go:52-64 | from the last screen, next overshoots to nil and prev comes back to the last screen, which is the only screen initialised |
| LoginScenario.AliceEntryParts | internal/tui/view/login/auth/basicauth.go:20-25 | the entry "alice:hunter2" is user "alice" with secret "hunter2" |
| LoginScenario.AliceAccepted | internal/tui/view/login/view.go:136-137 | Enter with alice and a password the hash check accepts moves on with no error set |
| LoginScenario.AliceRefused | internal/tui/view/login/view.go:167-171 | Enter with alice and a password the hash check refuses stays, with InvalidCredentials stamped with the screen's clock |

## Left out

- Rendering (`View` of every screen), the tab bar, `ColorGrid`, styles, the help and
  keymap objects, `innerWidth`, and time formatting: presentation only.
- The text-input component's own editing, cursor and blinking are the opaque `Editor`
  parameter. The commands the inputs return are collapsed into one command value
  per branch (`InitCmd`, `FocusCmd`, `InputsCmd`).
- The hash check of the external auth library (MD5-crypt, `{SHA}`, `$apr1$`, bcrypt)
  is the opaque `CheckSecret` parameter. The realm is stored but never used by a
  check, as in the code.
- `Prepare` is never called by any caller in the modelled files. The model does not
  say who prepares a table. An unprepared table refuses every login with
  NotPrepared.
- The session-level index of internal/tui/model is not part of this model. A login
  screen's call to `NextModel` is the `Advance` reply. Login screens are not linked
  into the navigator's `Screen` objects: `Screen` keeps only what the navigator uses
  (its navigator and its size).
- Navigator.IndexModel.SetModels: a nil entry in the screen list (config.go:29 gives
  one for a view without a login action) would make the Go code fail on `SetIndex`.
  The model's screens are never null, so that failure is not modelled.
- Navigator.IndexModel.SetModels: an empty screen list makes the Go code fail with an
  index out of range at index.go:35, and the session handler calls SetModels on
  the configured screens (wish.go:37-44) before any InitModel. The requirement of at least one screen excludes that case,
  so the model does not capture the failure.
- Navigator.IndexModel.NextModel: `ModelIndex` is a Go `int`. Its overflow after
  2^63 - 1 presses is not modelled; the index is unbounded.
- The one-second ticker, the SSH server and middleware, and the command-line and
  configuration bootstrap are I/O and concurrency. A tick reaches the model only as
  a `TimeMsg`.
