/** The vocabulary screens share with the terminal-UI runtime: the messages a
    screen receives, the commands it hands back (as tags), the sizing context a
    navigator passes to a screen it activates, and an error stamped with the time
    it happened. */
module Tea {
  import opened Base

  /** A message delivered to a screen. A key press is identified by the runtime's
      string form of the key ("tab", "shift+tab", "ctrl+c", " ", "alt+m", ...). */
  datatype Msg =
    | KeyMsg(key: string)
    | WindowSizeMsg(width: int, height: int)
    | TimeMsg(at: Time)
    | OtherMsg

  /** A command returned to the runtime, kept abstract: only which kind it is. */
  datatype Cmd =
    | NoCmd           // nil
    | QuitCmd         // tea.Quit
    | EnterAltScreen  // tea.EnterAltScreen
    | ExitAltScreen   // tea.ExitAltScreen
    | InitCmd         // what a screen's Init returns: cursor blink batched with the focus update
    | FocusCmd        // the batch built by updateFocus
    | InputsCmd       // the batch of the text inputs' own commands built by updateInputs

  /** The sizing context (`Config{Width, Height}`) handed to a screen on (re)initialisation. */
  datatype Config = Config(width: int, height: int)

  /** An error stamped with a time (`TimeErr(err, t)`); the time formatting is left out. */
  datatype Timed<E> = Timed(err: E, at: Time)
}
