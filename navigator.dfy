/** The per-session screen navigator of internal/server/view/index.go: an ordered list
    of screens and the index of the active one. Going to the first screen, forward or
    back re-initialises the target screen with the sizing context passed in. */
module Navigator {
  import opened Tea

  /** A screen as the navigator uses it (the `Model` interface): it can be told its
      navigator (SetIndex) and be initialised with a sizing context (Initialize). */
  class Screen {
    var width: int
    var height: int
    var index: IndexModel?

    constructor ()
      ensures width == 0 && height == 0 && index == null
    {
      width, height, index := 0, 0, null;
    }

    method SetIndex(nav: IndexModel)
      modifies this
      ensures index == nav && width == old(width) && height == old(height)
    {
      index := nav;
    }

    method Initialize(cfg: Config) returns (cmd: Cmd)
      modifies this
      ensures width == cfg.width && height == cfg.height && index == old(index)
      ensures cmd == InitCmd
    {
      width, height := cfg.width, cfg.height;
      cmd := InitCmd;
    }
  }

  class IndexModel {
    var width: int
    var height: int
    var models: seq<Screen>
    var modelIndex: int
    /** The indices of the screens getModel has initialised, oldest first. */
    ghost var initialised: seq<int>

    /** The index never goes below 0; it may run past the last screen. */
    ghost predicate Valid()
      reads this
    {
      modelIndex >= 0
    }

    constructor (width: int, height: int, models: seq<Screen>)
      ensures Valid() && modelIndex == 0 && initialised == []
      ensures this.width == width && this.height == height && this.models == models
    {
      this.width, this.height, this.models := width, height, models;
      modelIndex := 0;
      initialised := [];
    }

    /** What getModel(i, cfg) did between the old and the new state: with i out of
        range it returned nil and touched no screen; otherwise it returned screen i,
        initialised exactly that screen with `cfg`, and logged it. */
    twostate predicate Activated(i: int, cfg: Config, new screen: Screen?, cmd: Cmd)
      reads this, models
    {
      && models == old(models)
      && if 0 <= i < |models| then
        && screen == models[i] && cmd == InitCmd
        && screen.width == cfg.width && screen.height == cfg.height && screen.index == old(models[i].index)
        && (forall s :: s in old(models) && s != screen ==> unchanged(s))
        && initialised == old(initialised) + [i]
      else
        && screen == null && cmd == NoCmd
        && (forall s :: s in old(models) ==> unchanged(s))
        && initialised == old(initialised)
    }

    /** SetModels: every screen is given this navigator; the first screen is returned
        as it is, without initialising it. Indexing the first screen needs one. */
    method SetModels() returns (first: Screen)
      requires |models| > 0
      modifies models
      ensures forall i :: 0 <= i < |models| ==> models[i].index == this
      ensures forall i :: 0 <= i < |models| ==>
        models[i].width == old(models[i].width) && models[i].height == old(models[i].height)
      ensures first == models[0]
    {
      for i := 0 to |models|
        invariant forall j :: 0 <= j < i ==> models[j].index == this
        invariant forall j :: 0 <= j < |models| ==>
          models[j].width == old(models[j].width) && models[j].height == old(models[j].height)
      {
        models[i].SetIndex(this);
      }
      first := models[0];
    }

    /** getModel: the screen at `index`, initialised with `cfg`, or nil when the index
        is out of range. */
    method GetModel(index: int, cfg: Config) returns (screen: Screen?, cmd: Cmd)
      modifies this`initialised, models
      ensures Activated(index, cfg, screen, cmd)
    {
      if index < 0 || index >= |models| {
        return null, NoCmd;
      }
      screen := models[index];
      cmd := screen.Initialize(cfg);
      initialised := initialised + [index];
    }

    /** InitModel: back to the first screen. */
    method InitModel(cfg: Config) returns (screen: Screen?, cmd: Cmd)
      requires Valid()
      modifies this`modelIndex, this`initialised, models
      ensures Valid() && modelIndex == 0
      ensures Activated(0, cfg, screen, cmd)
    {
      modelIndex := 0;
      screen, cmd := GetModel(modelIndex, cfg);
    }

    /** PrevModel: one screen back, staying on the first screen when already there. */
    method PrevModel(cfg: Config) returns (screen: Screen?, cmd: Cmd)
      requires Valid()
      modifies this`modelIndex, this`initialised, models
      ensures Valid()
      ensures modelIndex == if old(modelIndex) != 0 then old(modelIndex) - 1 else 0
      ensures Activated(modelIndex, cfg, screen, cmd)
    {
      if modelIndex != 0 {
        modelIndex := modelIndex - 1;
      }
      screen, cmd := GetModel(modelIndex, cfg);
    }

    /** NextModel: one screen forward, with no upper bound: past the last screen the
        index keeps counting and nil is returned. */
    method NextModel(cfg: Config) returns (screen: Screen?, cmd: Cmd)
      requires Valid()
      modifies this`modelIndex, this`initialised, models
      ensures Valid()
      ensures modelIndex == old(modelIndex) + 1
      ensures Activated(modelIndex, cfg, screen, cmd)
    {
      modelIndex := modelIndex + 1;
      screen, cmd := GetModel(modelIndex, cfg);
    }
  }

  /** From the last screen, NextModel overshoots (nil, index one past the end) and a
      following PrevModel comes back to the last screen. */
  method OvershootAndReturn(nav: IndexModel, cfg: Config) returns (past: Screen?, back: Screen?)
    requires nav.Valid() && |nav.models| > 0 && nav.modelIndex == |nav.models| - 1
    modifies nav, nav.models
    ensures nav.models == old(nav.models) && nav.modelIndex == |nav.models| - 1
    ensures past == null && back == nav.models[|nav.models| - 1]
    ensures nav.initialised == old(nav.initialised) + [|nav.models| - 1]
  {
    var cmd;
    past, cmd := nav.NextModel(cfg);
    assert nav.modelIndex == |nav.models|;
    back, cmd := nav.PrevModel(cfg);
  }
}
