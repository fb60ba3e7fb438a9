/** The login strategies of internal/tui/view/login/action.go: a list of named tabs,
    each optionally backed by a basic-auth table, and the dispatch of a login to the
    first tab with the selected name. */
module LoginAction {
  import opened Base
  import opened BasicAuthTable

  datatype LoginError =
    | NoSelection                 // ErrNoSelection
    | LoginFailed(cause: AuthError) // ErrLogin wrapping the validator's error

  /** One strategy tab; `basicAuth` is a pointer shared by every copy of the tab. */
  datatype Auth = Auth(name: string, basicAuth: BasicAuth?) {

    /** A tab without a backend answers ErrNoSelection; otherwise the backend's
        validator decides, and its refusal is wrapped in ErrLogin. */
    function Login(username: string, password: string, checkSecret: CheckSecret): (r: Outcome<LoginError>)
      reads basicAuth
      ensures basicAuth == null ==> r == Fail(NoSelection)
      ensures basicAuth != null ==>
        (r == Pass <==> basicAuth.Validator(username, password, checkSecret) == Pass)
      ensures basicAuth != null && r != Pass ==>
        r == Fail(LoginFailed(basicAuth.Validator(username, password, checkSecret).error))
    {
      if basicAuth != null then
        match basicAuth.Validator(username, password, checkSecret)
        case Fail(e) => Fail(LoginFailed(e))
        case Pass => Pass
      else Fail(NoSelection)
    }
  }

  datatype Action = Action(banner: string, tabs: seq<Auth>, selected: string) {

    /** The backends the tabs point to. */
    function Backends(): set<BasicAuth?> {
      set i | 0 <= i < |tabs| :: tabs[i].basicAuth
    }

    /** GetTabNames: one name per tab, in tab order. */
    function TabNames(): (names: seq<string>)
      ensures |names| == |tabs|
      ensures forall i :: 0 <= i < |tabs| ==> names[i] == tabs[i].name
    {
      seq(|tabs|, i requires 0 <= i < |tabs| => tabs[i].name)
    }

    /** TabSelected: the configured selection, else the first tab's name, else "". */
    function TabSelected(): (name: string)
      ensures selected != "" ==> name == selected
      ensures selected == "" && |tabs| > 0 ==> name == tabs[0].name
      ensures selected == "" && |tabs| == 0 ==> name == ""
    {
      if selected != "" then selected
      else if |tabs| > 0 then tabs[0].name
      else ""
    }

    /** Login: delegated to the first tab whose name is `selectedTab` (later tabs of
        the same name are never consulted); ErrNoSelection when no tab has the name. */
    function Login(selectedTab: string, username: string, password: string, checkSecret: CheckSecret): (r: Outcome<LoginError>)
      reads Backends()
      ensures (forall i :: 0 <= i < |tabs| ==> tabs[i].name != selectedTab) ==> r == Fail(NoSelection)
      ensures forall i :: 0 <= i < |tabs| && tabs[i].name == selectedTab
                          && (forall j :: 0 <= j < i ==> tabs[j].name != selectedTab)
                          ==> r == tabs[i].Login(username, password, checkSecret)
    {
      match FirstIndexOf(TabNames(), selectedTab)
      case None => Fail(NoSelection)
      case Some(i) => tabs[i].Login(username, password, checkSecret)
    }
  }
}
