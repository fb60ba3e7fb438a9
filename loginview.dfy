/** The login screen of internal/tui/view/login/view.go: two inputs, a focus ring
    over the inputs and the Submit and Cancel buttons, a strategy tab selector, and
    the last login error stamped with the screen's clock. */
module LoginView {
  import opened Base
  import opened Tea
  import opened Cycle
  import opened TabStyle
  import opened BasicAuthTable
  import opened LoginAction
  import opened LoginForm

  /** The screen's state. Update works on a copy of it, but every copy shares the one
      `inputs` array, as copies of a Go struct share the backing array of a slice. */
  datatype LoginModel = LoginModel(
    width: int,
    height: int,
    inputs: array<TextInput>,
    focusIndex: int,
    focusMax: int,
    err: Option<Timed<LoginError>>,
    time: Time,
    action: Action,
    tabs: seq<string>,
    selectedTab: string)
  {
    /** Two inputs, a ring of four focus stops, the focus on one of them. */
    predicate Valid() {
      inputs.Length == InputCount && focusMax == inputs.Length + 2 && 0 <= focusIndex < focusMax
    }
  }

  /** The state NewLoginModel builds from a strategy configuration. */
  predicate IsNew(m: LoginModel, action: Action)
    reads m.inputs
  {
    && m.Valid() && m.focusIndex == 0
    && m.width == 0 && m.height == 0 && m.err == None && m.time == 0
    && m.action == action && m.tabs == action.TabNames() && m.selectedTab == action.TabSelected()
    && m.inputs[0] == NewInput
    && m.inputs[1] == NewInput.(echo := EchoPassword)
  }

  /** NewLoginModel: fresh inputs (the second one masked), focus on the first input,
      tab names and the selected tab taken from the configuration. */
  method NewLoginModel(action: Action) returns (m: LoginModel)
    ensures fresh(m.inputs)
    ensures IsNew(m, action)
  {
    var inputs := new TextInput[InputCount](_ => NewInput);
    for i := 0 to inputs.Length
      invariant forall j :: 0 <= j < i ==> inputs[j] == if j == 1 then NewInput.(echo := EchoPassword) else NewInput
      invariant forall j :: i <= j < inputs.Length ==> inputs[j] == NewInput
    {
      var t := NewInput;
      if i == 1 {
        t := t.(echo := EchoPassword);
      }
      inputs[i] := t;
    }
    m := LoginModel(0, 0, inputs, 0, inputs.Length + 2, None, 0, action, action.TabNames(), action.TabSelected());
  }

  /** Initialize: take the navigator's sizing context and refocus the inputs. */
  method Initialize(m: LoginModel, cfg: Config) returns (r: LoginModel, cmd: Cmd)
    modifies m.inputs
    ensures r == m.(width := cfg.width, height := cfg.height)
    ensures forall i :: 0 <= i < m.inputs.Length ==> m.inputs[i] == Refocused(old(m.inputs[i]), i == m.focusIndex)
    ensures cmd == InitCmd
  {
    r := m.(width := cfg.width, height := cfg.height);
    var _ := UpdateFocus(r.inputs, r.focusIndex);
    cmd := InitCmd;
  }

  /** The login attempt: the selected strategy checks the two input values. */
  function Attempt(m: LoginModel, checkSecret: CheckSecret): Outcome<LoginError>
    requires m.Valid()
    reads m.inputs, m.action.Backends()
  {
    m.action.Login(m.selectedTab, m.inputs[0].value, m.inputs[1].value, checkSecret)
  }

  /** login: a refused attempt stores the error stamped with the screen's current
      time and stays; an accepted one asks the navigator for the next screen with the
      current size, leaving any earlier error in place. */
  function Login(m: LoginModel, checkSecret: CheckSecret): (r: Reply<LoginModel>)
    requires m.Valid()
    reads m.inputs, m.action.Backends()
    ensures r.Stay? <==> Attempt(m, checkSecret).Fail?
    ensures r.Stay? ==> r == Stay(m.(err := Some(Timed(Attempt(m, checkSecret).error, m.time))), NoCmd)
    ensures r.Advance? ==> r.model == m && r.cfg == Config(m.width, m.height)
  {
    match Attempt(m, checkSecret)
    case Fail(e) => Stay(m.(err := Some(Timed(e, m.time))), NoCmd)
    case Pass => Advance(m, Config(m.width, m.height))
  }

  /** The messages Update hands on to the text inputs: everything except a bound key,
      and except Space on Submit or Cancel. */
  predicate ReachesInputs(m: LoginModel, msg: Msg) {
    !msg.KeyMsg?
    || Bind(msg.key, true) == Unbound
    || (Bind(msg.key, true) == SelectionKey && m.focusIndex != m.inputs.Length && m.focusIndex != m.inputs.Length + 1)
  }

  /** Update: the screen's reaction to one message. */
  method Update(m: LoginModel, msg: Msg, checkSecret: CheckSecret, edit: Editor) returns (r: Reply<LoginModel>)
    requires m.Valid()
    modifies m.inputs
    ensures r.model.Valid() && r.model.inputs == m.inputs
    // the quit key blurs every input and quits
    ensures msg.KeyMsg? && Bind(msg.key, true) == QuitKey ==>
      r == Stay(m, QuitCmd)
      && forall i :: 0 <= i < m.inputs.Length ==> m.inputs[i] == old(m.inputs[i]).(focused := false)
    // next and prev move the focus round the ring and refocus the inputs
    ensures msg.KeyMsg? && Bind(msg.key, true) == NextKey ==>
      r == Stay(m.(focusIndex := Forward(m.focusIndex, m.focusMax)), FocusCmd)
    ensures msg.KeyMsg? && Bind(msg.key, true) == PrevKey ==>
      r == Stay(m.(focusIndex := Backward(m.focusIndex, m.focusMax)), FocusCmd)
    ensures msg.KeyMsg? && Bind(msg.key, true) in {NextKey, PrevKey} ==>
      forall i :: 0 <= i < m.inputs.Length ==> m.inputs[i] == Refocused(old(m.inputs[i]), i == r.model.focusIndex)
    // Enter at any focus, or Space on Submit, logs in
    ensures msg.KeyMsg? && (Bind(msg.key, true) == LoginKey
                            || (Bind(msg.key, true) == SelectionKey && m.focusIndex == m.inputs.Length)) ==>
      r == Login(m, checkSecret) && unchanged(m.inputs)
    // Space on Cancel quits
    ensures msg.KeyMsg? && Bind(msg.key, true) == SelectionKey && m.focusIndex == m.inputs.Length + 1 ==>
      r == Stay(m, QuitCmd) && unchanged(m.inputs)
    // the tab keys change only the selected tab
    ensures msg.KeyMsg? && Bind(msg.key, true) == NextTabKey ==>
      r == Stay(m.(selectedTab := Switched(m.tabs, m.selectedTab, true)), NoCmd) && unchanged(m.inputs)
    ensures msg.KeyMsg? && Bind(msg.key, true) == PrevTabKey ==>
      r == Stay(m.(selectedTab := Switched(m.tabs, m.selectedTab, false)), NoCmd) && unchanged(m.inputs)
    // a resize changes only the size, a tick only the clock; everything else that
    // reaches the inputs changes nothing else
    ensures msg.WindowSizeMsg? ==> r == Stay(m.(width := msg.width, height := msg.height), InputsCmd)
    ensures msg.TimeMsg? ==> r == Stay(m.(time := msg.at), InputsCmd)
    ensures ReachesInputs(m, msg) && !msg.WindowSizeMsg? && !msg.TimeMsg? ==> r == Stay(m, InputsCmd)
    ensures ReachesInputs(m, msg) ==>
      forall i :: 0 <= i < m.inputs.Length ==> m.inputs[i] == edit(old(m.inputs[i]), msg)
  {
    var s := m;
    match msg {
      case KeyMsg(key) =>
        match Bind(key, true) {
          case QuitKey =>
            BlurAll(s.inputs);
            return Stay(s, QuitCmd);
          case NextKey =>
            s := s.(focusIndex := Forward(s.focusIndex, s.focusMax));
            var cmd := UpdateFocus(s.inputs, s.focusIndex);
            return Stay(s, cmd);
          case PrevKey =>
            s := s.(focusIndex := Backward(s.focusIndex, s.focusMax));
            var cmd := UpdateFocus(s.inputs, s.focusIndex);
            return Stay(s, cmd);
          case LoginKey =>
            return Login(s, checkSecret);
          case SelectionKey =>
            if s.focusIndex == s.inputs.Length {
              return Login(s, checkSecret);
            } else if s.focusIndex == s.inputs.Length + 1 {
              return Stay(s, QuitCmd);
            }
          case NextTabKey =>
            var tab := SwitchTab(s.tabs, s.selectedTab, true);
            return Stay(s.(selectedTab := tab), NoCmd);
          case PrevTabKey =>
            var tab := SwitchTab(s.tabs, s.selectedTab, false);
            return Stay(s.(selectedTab := tab), NoCmd);
          case Unbound =>
        }
      case WindowSizeMsg(width, height) =>
        s := s.(height := height, width := width);
      case TimeMsg(at) =>
        s := s.(time := at);
      case OtherMsg =>
    }
    // character input and cursor blinking
    var cmd := UpdateInputs(s.inputs, msg, edit);
    r := Stay(s, cmd);
  }
}
