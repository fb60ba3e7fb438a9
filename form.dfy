/** What the two login screens (internal/tui/view/login/view.go and its older twin
    internal/server/view/login.go) have in common: two text inputs, the focus ring
    "field 0, field 1, Submit, Cancel", the key bindings, and the loops that refocus
    the inputs or pass a message to them. */
module LoginForm {
  import opened Base
  import opened Tea

  /** The two inputs: user name and password. */
  const InputCount: nat := 2

  datatype InputStyle = NoStyle | FocusedStyle
  datatype EchoMode = EchoNormal | EchoPassword

  /** The part of a text input this model tracks. */
  datatype TextInput = TextInput(value: string, focused: bool, style: InputStyle, echo: EchoMode, placeholder: string)

  /** `textinput.New()`: empty, unfocused, plain. */
  const NewInput: TextInput := TextInput("", false, NoStyle, EchoNormal, "")

  /** The text-input component's own handling of a message (typing, cursor blink),
      taken as given. */
  type Editor = (TextInput, Msg) -> TextInput

  /** An input after updateFocus: focused and styled iff `on`, its text untouched. */
  function Refocused(t: TextInput, on: bool): (r: TextInput)
    ensures r.focused == on && r.value == t.value && r.echo == t.echo
  {
    t.(focused := on, style := if on then FocusedStyle else NoStyle)
  }

  /** updateFocus: input i gets focus iff i is the focus index; with Submit or Cancel
      focused no input has focus. */
  method UpdateFocus(inputs: array<TextInput>, focusIndex: int) returns (cmd: Cmd)
    modifies inputs
    ensures forall i :: 0 <= i < inputs.Length ==> inputs[i] == Refocused(old(inputs[i]), i == focusIndex)
    ensures !(0 <= focusIndex < inputs.Length) ==> forall i :: 0 <= i < inputs.Length ==> !inputs[i].focused
    ensures cmd == FocusCmd
  {
    var i := 0;
    while i <= inputs.Length - 1
      invariant 0 <= i <= inputs.Length
      invariant forall j :: 0 <= j < i ==> inputs[j] == Refocused(old(inputs[j]), j == focusIndex)
      invariant forall j :: i <= j < inputs.Length ==> inputs[j] == old(inputs[j])
    {
      if i == focusIndex {
        inputs[i] := Refocused(inputs[i], true);
        i := i + 1;
        continue;
      }
      inputs[i] := Refocused(inputs[i], false);
      i := i + 1;
    }
    cmd := FocusCmd;
  }

  /** The quit branch: every input loses focus (its style is left as it was). */
  method BlurAll(inputs: array<TextInput>)
    modifies inputs
    ensures forall i :: 0 <= i < inputs.Length ==> inputs[i] == old(inputs[i]).(focused := false)
  {
    for i := 0 to inputs.Length
      invariant forall j :: 0 <= j < i ==> inputs[j] == old(inputs[j]).(focused := false)
      invariant forall j :: i <= j < inputs.Length ==> inputs[j] == old(inputs[j])
    {
      inputs[i] := inputs[i].(focused := false);
    }
  }

  /** updateInputs: every input handles the message itself. */
  method UpdateInputs(inputs: array<TextInput>, msg: Msg, edit: Editor) returns (cmd: Cmd)
    modifies inputs
    ensures forall i :: 0 <= i < inputs.Length ==> inputs[i] == edit(old(inputs[i]), msg)
    ensures cmd == InputsCmd
  {
    for i := 0 to inputs.Length
      invariant forall j :: 0 <= j < i ==> inputs[j] == edit(old(inputs[j]), msg)
      invariant forall j :: i <= j < inputs.Length ==> inputs[j] == old(inputs[j])
    {
      inputs[i] := edit(inputs[i], msg);
    }
    cmd := InputsCmd;
  }

  // Key bindings, as `key.WithKeys(...)` declares them.
  const QuitKeys: seq<string> := ["esc", "ctrl+c"]
  const NextKeys: seq<string> := ["tab"]
  const PrevKeys: seq<string> := ["shift+tab"]
  const LoginKeys: seq<string> := ["enter"]
  const SelectionKeys: seq<string> := [" "]
  const NextTabKeys: seq<string> := ["ctrl+right"]
  const PrevTabKeys: seq<string> := ["ctrl+left"]

  datatype Binding = QuitKey | NextKey | PrevKey | LoginKey | SelectionKey | NextTabKey | PrevTabKey | Unbound

  /** Which case of a login screen's key switch a key press takes, tried in the order
      the switch lists them; `withTabs` is false for the older screen, which has no
      tab bindings. */
  function Bind(key: string, withTabs: bool): (b: Binding)
    ensures b == Unbound <==>
      key !in QuitKeys + NextKeys + PrevKeys + LoginKeys + SelectionKeys
      && (withTabs ==> key !in NextTabKeys + PrevTabKeys)
    ensures !withTabs ==> b != NextTabKey && b != PrevTabKey
    ensures key in QuitKeys ==> b == QuitKey
    ensures key in NextKeys ==> b == NextKey
    ensures key in PrevKeys ==> b == PrevKey
    ensures key in LoginKeys ==> b == LoginKey
    ensures key in SelectionKeys ==> b == SelectionKey
    ensures withTabs && key in NextTabKeys ==> b == NextTabKey
    ensures withTabs && key in PrevTabKeys ==> b == PrevTabKey
  {
    if key in QuitKeys then QuitKey
    else if key in NextKeys then NextKey
    else if key in PrevKeys then PrevKey
    else if key in LoginKeys then LoginKey
    else if key in SelectionKeys then SelectionKey
    else if withTabs && key in NextTabKeys then NextTabKey
    else if withTabs && key in PrevTabKeys then PrevTabKey
    else Unbound
  }

  /** What a login screen's Update hands back: itself (a copy) with a command, or the
      result of asking its navigator for the next screen (`index.NextModel(cfg)`), here
      recorded as that request together with the state the screen was left in. */
  datatype Reply<M> = Stay(model: M, cmd: Cmd) | Advance(model: M, cfg: Config)
}
