/** Screen assembly of internal/tui/config.go: each configured view becomes a login
    screen built from its login action, or nothing when it has none. */
module ScreenConfig {
  import opened Base
  import opened LoginAction
  import opened LoginView

  datatype Selection = Selection(login: Option<Action>)

  /** A configured view. Only `selection` is used; the navigation names are carried
      but never read. */
  datatype View = View(id: string, next: string, prev: string, up: string, down: string, selection: Selection)

  /** Selection.Action: a new login screen for a login action, otherwise none. */
  method SelectionAction(s: Selection) returns (model: Option<LoginModel>)
    ensures model.None? <==> s.login.None?
    ensures model.Some? ==> fresh(model.value.inputs) && IsNew(model.value, s.login.value)
  {
    if s.login.Some? {
      var m := NewLoginModel(s.login.value);
      return Some(m);
    }
    return None;
  }

  /** Screen.Models: one entry per view, in view order, each built from that view's
      selection alone; distinct login screens never share their inputs. */
  method Models(screen: seq<View>) returns (models: seq<Option<LoginModel>>)
    ensures |models| == |screen|
    ensures forall i :: 0 <= i < |screen| ==> (models[i].None? <==> screen[i].selection.login.None?)
    ensures forall i :: 0 <= i < |screen| && models[i].Some? ==> IsNew(models[i].value, screen[i].selection.login.value)
    ensures forall i, j :: 0 <= i < j < |screen| && models[i].Some? && models[j].Some? ==>
      models[i].value.inputs != models[j].value.inputs
  {
    models := [];
    for k := 0 to |screen|
      invariant |models| == k
      invariant forall i :: 0 <= i < k ==> (models[i].None? <==> screen[i].selection.login.None?)
      invariant forall i :: 0 <= i < k && models[i].Some? ==>
        fresh(models[i].value.inputs) && IsNew(models[i].value, screen[i].selection.login.value)
      invariant forall i, j :: 0 <= i < j < k && models[i].Some? && models[j].Some? ==>
        models[i].value.inputs != models[j].value.inputs
    {
      var m := SelectionAction(screen[k].selection);
      models := models + [m];
    }
  }
}
