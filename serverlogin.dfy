/** The older login screen of internal/server/view/login.go: the same two inputs and
    focus ring as the main screen, without strategies, errors or a clock. Submitting
    does not check anything: it goes straight to the next screen. */
module ServerLogin {
  import opened Tea
  import opened Cycle
  import opened LoginForm

  /** The screen's state; copies share the one `inputs` array. */
  datatype ServerLoginModel = ServerLoginModel(
    width: int,
    height: int,
    inputs: array<TextInput>,
    focusIndex: int,
    focusMax: int)
  {
    predicate Valid() {
      inputs.Length == InputCount && focusMax == inputs.Length + 2 && 0 <= focusIndex < focusMax
    }
  }

  /** NewLoginModel: fresh inputs (the first with a placeholder, the second masked),
      focus on the first input. */
  method NewLoginModel() returns (m: ServerLoginModel)
    ensures fresh(m.inputs)
    ensures m.Valid() && m.focusIndex == 0 && m.width == 0 && m.height == 0
    ensures m.inputs[0] == NewInput.(placeholder := "eates")
    ensures m.inputs[1] == NewInput.(echo := EchoPassword)
  {
    var inputs := new TextInput[InputCount](_ => NewInput);
    for i := 0 to inputs.Length
      invariant forall j :: 0 <= j < i ==>
        inputs[j] == if j == 0 then NewInput.(placeholder := "eates") else NewInput.(echo := EchoPassword)
      invariant forall j :: i <= j < inputs.Length ==> inputs[j] == NewInput
    {
      var t := NewInput;
      if i == 0 {
        t := t.(placeholder := "eates");
      } else if i == 1 {
        t := t.(echo := EchoPassword);
      }
      inputs[i] := t;
    }
    m := ServerLoginModel(0, 0, inputs, 0, inputs.Length + 2);
  }

  /** Initialize: take the navigator's sizing context and refocus the inputs. */
  method Initialize(m: ServerLoginModel, cfg: Config) returns (r: ServerLoginModel, cmd: Cmd)
    modifies m.inputs
    ensures r == m.(width := cfg.width, height := cfg.height)
    ensures forall i :: 0 <= i < m.inputs.Length ==> m.inputs[i] == Refocused(old(m.inputs[i]), i == m.focusIndex)
    ensures cmd == InitCmd
  {
    r := m.(width := cfg.width, height := cfg.height);
    var _ := UpdateFocus(r.inputs, r.focusIndex);
    cmd := InitCmd;
  }

  /** The messages Update hands on to the text inputs: everything except the quit,
      next and prev keys and except Space on Submit or Cancel (Enter is among them). */
  predicate ReachesInputs(m: ServerLoginModel, msg: Msg) {
    !msg.KeyMsg?
    || Bind(msg.key, false) in {LoginKey, Unbound}
    || (Bind(msg.key, false) == SelectionKey && m.focusIndex != m.inputs.Length && m.focusIndex != m.inputs.Length + 1)
  }

  /** Update: the screen's reaction to one message. */
  method Update(m: ServerLoginModel, msg: Msg, edit: Editor) returns (r: Reply<ServerLoginModel>)
    requires m.Valid()
    modifies m.inputs
    ensures r.model.Valid() && r.model.inputs == m.inputs
    ensures msg.KeyMsg? && Bind(msg.key, false) == QuitKey ==>
      r == Stay(m, QuitCmd)
      && forall i :: 0 <= i < m.inputs.Length ==> m.inputs[i] == old(m.inputs[i]).(focused := false)
    ensures msg.KeyMsg? && Bind(msg.key, false) == NextKey ==>
      r == Stay(m.(focusIndex := Forward(m.focusIndex, m.focusMax)), FocusCmd)
    ensures msg.KeyMsg? && Bind(msg.key, false) == PrevKey ==>
      r == Stay(m.(focusIndex := Backward(m.focusIndex, m.focusMax)), FocusCmd)
    ensures msg.KeyMsg? && Bind(msg.key, false) in {NextKey, PrevKey} ==>
      forall i :: 0 <= i < m.inputs.Length ==> m.inputs[i] == Refocused(old(m.inputs[i]), i == r.model.focusIndex)
    // Space on Submit moves on with the current size; Space on Cancel quits
    ensures msg.KeyMsg? && Bind(msg.key, false) == SelectionKey && m.focusIndex == m.inputs.Length ==>
      r == Advance(m, Config(m.width, m.height)) && unchanged(m.inputs)
    ensures msg.KeyMsg? && Bind(msg.key, false) == SelectionKey && m.focusIndex == m.inputs.Length + 1 ==>
      r == Stay(m, QuitCmd) && unchanged(m.inputs)
    // a resize changes only the size; Enter, ticks and the rest change nothing here
    ensures msg.WindowSizeMsg? ==> r == Stay(m.(width := msg.width, height := msg.height), InputsCmd)
    ensures ReachesInputs(m, msg) && !msg.WindowSizeMsg? ==> r == Stay(m, InputsCmd)
    ensures ReachesInputs(m, msg) ==>
      forall i :: 0 <= i < m.inputs.Length ==> m.inputs[i] == edit(old(m.inputs[i]), msg)
  {
    var s := m;
    match msg {
      case KeyMsg(key) =>
        match Bind(key, false) {
          case QuitKey =>
            BlurAll(s.inputs);
            return Stay(s, QuitCmd);
          case NextKey =>
            s := s.(focusIndex := Forward(s.focusIndex, s.focusMax));
            var cmd := UpdateFocus(s.inputs, s.focusIndex);
            return Stay(s, cmd);
          case PrevKey =>
            s := s.(focusIndex := Backward(s.focusIndex, s.focusMax));
            var cmd := UpdateFocus(s.inputs, s.focusIndex);
            return Stay(s, cmd);
          case LoginKey =>
          case SelectionKey =>
            if s.focusIndex == s.inputs.Length {
              return Advance(s, Config(s.width, s.height));
            } else if s.focusIndex == s.inputs.Length + 1 {
              return Stay(s, QuitCmd);
            }
          case NextTabKey =>
          case PrevTabKey =>
          case Unbound =>
        }
      case WindowSizeMsg(width, height) =>
        s := s.(height := height, width := width);
      case TimeMsg(_) =>
      case OtherMsg =>
    }
    // character input and cursor blinking
    var cmd := UpdateInputs(s.inputs, msg, edit);
    r := Stay(s, cmd);
  }
}
