/** The two login walkthroughs of one basic-auth strategy holding the entry
    "alice:hunter2": Enter with the right password moves on, with the wrong one the
    screen stays and records the refusal stamped with its clock. */
module LoginScenario {
  import opened Base
  import opened Tea
  import opened BasicAuthTable
  import opened LoginAction
  import opened LoginForm
  import opened LoginView

  const AliceEntry: string := "alice:hunter2"

  /** The entry splits into the user "alice" and the secret "hunter2". */
  lemma AliceEntryParts()
    ensures Split(AliceEntry, Separator) == ["alice", "hunter2"]
  {
    var parts := ["alice", "hunter2"];
    assert Separator !in parts[0] && Separator !in parts[1];
    assert Join(parts[1..], Separator) == "hunter2";
    assert Join(parts, Separator) == AliceEntry;
    JoinSplit(parts, Separator);
  }

  /** A screen over one prepared "basic" strategy with the entry, the two inputs
      holding `username` and `password` as typing leaves them, the clock at `now`. */
  method AliceScreen(username: string, password: string, now: Time) returns (m: LoginModel)
    ensures fresh(m.inputs) && m.Valid() && m.time == now && m.err == None
    ensures m.inputs[0].value == username && m.inputs[1].value == password
    ensures m.selectedTab == "basic" && |m.action.tabs| == 1 && m.action.tabs[0].name == "basic"
    ensures m.action.tabs[0].basicAuth != null
    ensures m.action.tabs[0].basicAuth.table == Some(map["alice" := "hunter2"])
  {
    var backend := new BasicAuth([AliceEntry], "");
    AliceEntryParts();
    assert [AliceEntry][..0] == [];
    assert ParseUsers([AliceEntry]) == Ok(map["alice" := "hunter2"]);
    var _ := backend.Prepare();
    var action := Action("", [Auth("basic", backend)], "");
    m := NewLoginModel(action);
    m.inputs[0] := m.inputs[0].(value := username);
    m.inputs[1] := m.inputs[1].(value := password);
    m := m.(time := now);
  }

  /** Enter with "alice" and the password the hash check accepts for the stored
      secret: the screen asks for the next screen and sets no error. */
  method AliceAccepted(checkSecret: CheckSecret, edit: Editor, now: Time) returns (r: Reply<LoginModel>)
    requires checkSecret("hunter2", "hunter2")
    ensures r.Advance? && r.model.err == None && r.model.time == now
  {
    var m := AliceScreen("alice", "hunter2", now);
    assert Bind("enter", true) == LoginKey;
    assert m.action.TabNames() == ["basic"];
    r := Update(m, KeyMsg("enter"), checkSecret, edit);
  }

  /** Enter with "alice" and a password the hash check refuses: the screen stays,
      with InvalidCredentials stamped with its clock and no command. */
  method AliceRefused(checkSecret: CheckSecret, edit: Editor, now: Time) returns (r: Reply<LoginModel>)
    requires !checkSecret("wrong", "hunter2")
    ensures r.Stay? && r.cmd == NoCmd
    ensures r.model.err == Some(Timed(LoginFailed(InvalidCredentials), now))
  {
    var m := AliceScreen("alice", "wrong", now);
    assert Bind("enter", true) == LoginKey;
    assert m.action.TabNames() == ["basic"];
    r := Update(m, KeyMsg("enter"), checkSecret, edit);
  }
}
