/** The demo screen's Update of internal/server/view/model.go: it records ticks and
    the window size, quits on "q" or "ctrl+c", and toggles the alternate screen on
    "alt+m". */
module ServerModel {
  import opened Base
  import opened Tea

  datatype ModelGen = ModelGen(term: string, width: int, height: int, time: Time, altScreen: bool)

  const QuitKeys: seq<string> := ["q", "ctrl+c"]
  const AltScreenKey: string := "alt+m"

  /** Update: a value-receiver transition returning the new state and a command. */
  function Update(m: ModelGen, msg: Msg): (r: (ModelGen, Cmd))
    // a tick sets only the time, a resize only the size
    ensures msg.TimeMsg? ==> r == (m.(time := msg.at), NoCmd)
    ensures msg.WindowSizeMsg? ==> r == (m.(width := msg.width, height := msg.height), NoCmd)
    // "q" and "ctrl+c" quit and change nothing
    ensures msg.KeyMsg? && msg.key in QuitKeys ==> r == (m, QuitCmd)
    // "alt+m" flips the alternate screen and enters it exactly when it is now on
    ensures msg.KeyMsg? && msg.key == AltScreenKey ==>
      r.0 == m.(altScreen := !m.altScreen) && (r.1 == EnterAltScreen <==> r.0.altScreen)
      && (r.1 == EnterAltScreen || r.1 == ExitAltScreen)
    // any other key, or any other message, changes nothing
    ensures msg.KeyMsg? && msg.key !in QuitKeys && msg.key != AltScreenKey ==> r == (m, NoCmd)
    ensures msg.OtherMsg? ==> r == (m, NoCmd)
  {
    match msg
    case TimeMsg(at) => (m.(time := at), NoCmd)
    case WindowSizeMsg(width, height) => (m.(height := height, width := width), NoCmd)
    case KeyMsg(key) =>
      if key in QuitKeys then (m, QuitCmd)
      else if key == AltScreenKey then
        var next := m.(altScreen := !m.altScreen);
        if next.altScreen then (next, EnterAltScreen) else (next, ExitAltScreen)
      else (m, NoCmd)
    case OtherMsg => (m, NoCmd)
  }

  /** Pressing "alt+m" twice restores the state it started from. */
  lemma AltScreenTwice(m: ModelGen)
    ensures Update(Update(m, KeyMsg(AltScreenKey)).0, KeyMsg(AltScreenKey)).0 == m
  {
  }
}
