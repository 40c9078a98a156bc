/** The window registry of `Site`: the map `activated` from logical window
    names to browser handles, and the field `active_window` naming the window
    the page layer currently targets.

    Each operation is first stated as a function on a `Registry` value
    (its new registry and whether it raised); the class `Site` holds the two
    fields and its methods are proved to perform exactly those transitions. */
module Windows {
  import opened Base

  /** The window bound at construction. */
  const Main := "main"

  /** The prompt for the administrator password that both restoring and publishing open. */
  const PasswordWindow := "password"

  /** `name_new_window` looks at the browser's handles this many times. */
  const NewWindowAttempts := 5

  /** The browser's `window_handles`, one list per attempt of `name_new_window`. */
  type Polls = p: seq<seq<Handle>> | |p| == NewWindowAttempts witness [[], [], [], [], []]

  /** The state of the registry: the bindings and the active name. */
  datatype Registry = Registry(activated: map<string, Handle>, active: string)

  /** What a registry operation leaves behind: the new registry, and whether it raised. */
  datatype Transition = Transition(reg: Registry, outcome: Outcome)

  /** No handle is bound to two names. */
  ghost predicate Injective(m: map<string, Handle>)
  {
    forall a, b :: a in m && b in m && a != b ==> m[a] != m[b]
  }

  /** The registry invariant: bindings injective, `main` bound, the active name bound. */
  ghost predicate Valid(r: Registry)
  {
    Injective(r.activated) && Main in r.activated && r.active in r.activated
  }

  /** The first non-empty value among successive reads of `current_window_handle`. */
  function FirstNonEmpty(handles: seq<Handle>): (h: Handle)
    requires exists i :: 0 <= i < |handles| && handles[i] != ""
    ensures h != ""
    ensures forall j :: 0 <= j < |handles| && handles[j] != "" && (forall i :: 0 <= i < j ==> handles[i] == "") ==> h == handles[j]
    decreases |handles|
  {
    if handles[0] != "" then handles[0]
    else
      assert exists i :: 0 <= i < |handles[1..]| && handles[1..][i] != "" by {
        var i :| 0 <= i < |handles| && handles[i] != "";
        assert handles[1..][i - 1] == handles[i];
      }
      var h := FirstNonEmpty(handles[1..]);
      assert forall j :: 1 <= j < |handles| ==> handles[j] == handles[1..][j - 1];
      h
  }

  /** The registry `Site.__init__` builds: `main` bound to the browser's current window, and active. */
  function Initial(handles: seq<Handle>): (r: Registry)
    requires exists i :: 0 <= i < |handles| && handles[i] != ""
    ensures Valid(r) && r.active == Main && r.activated.Keys == {Main}
  {
    Registry(map[Main := FirstNonEmpty(handles)], Main)
  }

  /** `[h for h in handles if h not in bound]`. */
  function Unbound(handles: seq<Handle>, bound: set<Handle>): (r: seq<Handle>)
    ensures forall h :: h in r <==> h in handles && h !in bound
    ensures r != [] ==> forall j :: 0 <= j < |handles| && handles[j] !in bound ==> r[0] in handles[..j + 1]
    decreases |handles|
  {
    if handles == [] then []
    else
      var rest := Unbound(handles[1..], bound);
      assert forall j :: 1 <= j < |handles| ==> handles[..j + 1] == [handles[0]] + handles[1..][..j];
      if handles[0] in bound then rest else [handles[0]] + rest
  }

  /** The handle `name_new_window` binds: the first unbound handle of the first attempt that shows one. */
  function AwaitNewWindow(polls: seq<seq<Handle>>, bound: set<Handle>): (h: Option<Handle>)
    ensures h.Some? ==> h.value !in bound
    decreases |polls|
  {
    if polls == [] then None
    else
      var newHandles := Unbound(polls[0], bound);
      if newHandles != [] then Some(newHandles[0]) else AwaitNewWindow(polls[1..], bound)
  }

  /** No window appears exactly when every handle of every attempt is bound already. */
  lemma {:induction false} AwaitNoWindow(polls: seq<seq<Handle>>, bound: set<Handle>)
    ensures AwaitNewWindow(polls, bound).None? <==> forall i, x :: 0 <= i < |polls| && x in polls[i] ==> x in bound
    decreases |polls|
  {
    if polls != [] {
      var newHandles := Unbound(polls[0], bound);
      if newHandles != [] {
        assert newHandles[0] in polls[0] && newHandles[0] !in bound;
      } else {
        AwaitNoWindow(polls[1..], bound);
        assert forall i :: 1 <= i < |polls| ==> polls[i] == polls[1..][i - 1];
      }
    }
  }

  /** The handle taken is the first unbound one of the first attempt that has one. */
  lemma {:induction false} AwaitNewWindowFirst(polls: seq<seq<Handle>>, bound: set<Handle>)
    ensures forall i ::
      (0 <= i < |polls| && Unbound(polls[i], bound) != [] && (forall j :: 0 <= j < i ==> Unbound(polls[j], bound) == [])) ==>
      AwaitNewWindow(polls, bound) == Some(Unbound(polls[i], bound)[0])
    decreases |polls|
  {
    if polls != [] && Unbound(polls[0], bound) == [] {
      AwaitNewWindowFirst(polls[1..], bound);
      forall i | 0 <= i < |polls| && Unbound(polls[i], bound) != [] && (forall j :: 0 <= j < i ==> Unbound(polls[j], bound) == [])
        ensures AwaitNewWindow(polls, bound) == Some(Unbound(polls[i], bound)[0])
      {
        assert i != 0;
        assert polls[1..][i - 1] == polls[i];
        assert forall j :: 0 <= j < i - 1 ==> Unbound(polls[1..][j], bound) == Unbound(polls[j + 1], bound);
      }
    }
  }

  /** `activate_window(name)`: a `KeyError` when `name` is unbound, else `name` becomes active. */
  function ActivateStep(r: Registry, name: string): (t: Transition)
    ensures t.reg.activated == r.activated
    ensures t.outcome == (if name in r.activated then Pass else Fail(KeyError))
    ensures t.reg.active == (if name in r.activated then name else r.active)
  {
    if name in r.activated then Transition(r.(active := name), Pass) else Transition(r, Fail(KeyError))
  }

  /** `name_new_window(name, activate)`: refuse a name already bound; otherwise bind
      the first live handle not yet bound, waiting at most five attempts for one. */
  function NewWindowStep(r: Registry, name: string, polls: Polls, activate: bool): (t: Transition)
    ensures name in r.activated ==> t == Transition(r, Fail(NameUsedTwice))
    ensures t.outcome.Fail? ==> t.reg == r
    ensures t.outcome == Fail(WindowDidNotAppear) <==>
      name !in r.activated && forall i, h :: 0 <= i < |polls| && h in polls[i] ==> h in r.activated.Values
    ensures t.outcome.Pass? ==>
      && name !in r.activated
      && name in t.reg.activated
      && t.reg.activated[name] !in r.activated.Values
      && t.reg.activated - {name} == r.activated
      && t.reg.active == (if activate then name else r.active)
    ensures forall i ::
      (0 <= i < |polls| && name !in r.activated && Unbound(polls[i], r.activated.Values) != [] &&
       (forall j :: 0 <= j < i ==> Unbound(polls[j], r.activated.Values) == [])) ==>
      t.outcome.Pass? && t.reg.activated[name] == Unbound(polls[i], r.activated.Values)[0]
  {
    AwaitNoWindow(polls, r.activated.Values);
    AwaitNewWindowFirst(polls, r.activated.Values);
    if name in r.activated then Transition(r, Fail(NameUsedTwice))
    else match AwaitNewWindow(polls, r.activated.Values)
      case None => Transition(r, Fail(WindowDidNotAppear))
      case Some(h) =>
        var bound := r.activated[name := h];
        assert bound - {name} == r.activated;
        Transition(Registry(bound, if activate then name else r.active), Pass)
  }

  /** The window `close_window` refocuses: `then_focus`, or `main` when it is falsy. */
  function Fallback(thenFocus: string): string
  {
    if thenFocus != "" then thenFocus else Main
  }

  /** `close_window(name, then_focus)`. The browser's close may fail; that is swallowed.
      The `del` in `finally` raises `KeyError` for an unbound name; otherwise the name
      is unbound and the fallback is activated, which raises when it is unbound. */
  function CloseStep(r: Registry, name: string, thenFocus: string): (t: Transition)
    ensures name !in t.reg.activated
    ensures t.reg.activated == r.activated - {name}
    ensures t.outcome.Pass? <==> name in r.activated && Fallback(thenFocus) in r.activated && Fallback(thenFocus) != name
    ensures t.outcome.Fail? ==> t.outcome.error == KeyError && t.reg.active == r.active
    ensures t.outcome.Pass? ==> t.reg.active == Fallback(thenFocus)
  {
    if name !in r.activated then
      assert r.activated - {name} == r.activated;
      Transition(r, Fail(KeyError))
    else ActivateStep(r.(activated := r.activated - {name}), Fallback(thenFocus))
  }

  /** Binding a new window keeps the registry invariant. */
  lemma NewWindowKeepsValid(r: Registry, name: string, polls: Polls, activate: bool)
    requires Valid(r)
    ensures Valid(NewWindowStep(r, name, polls, activate).reg)
  {
    var t := NewWindowStep(r, name, polls, activate);
    if t.outcome.Pass? {
      var m := t.reg.activated;
      forall a, b | a in m && b in m && a != b
        ensures m[a] != m[b]
      {
        if a != name && b != name {
          assert a in r.activated && b in r.activated;
          assert m[a] == r.activated[a] && m[b] == r.activated[b];
        } else if a == name {
          assert b in r.activated && m[b] == r.activated[b];
        } else {
          assert a in r.activated && m[a] == r.activated[a];
        }
      }
      assert Main in m by { assert Main in r.activated; }
    }
  }

  /** Closing any window but `main` with a successful refocus keeps the registry invariant;
      and afterwards the closed name cannot be activated. */
  lemma CloseKeepsValid(r: Registry, name: string, thenFocus: string)
    requires Valid(r) && name != Main
    ensures CloseStep(r, name, thenFocus).outcome.Pass? ==> Valid(CloseStep(r, name, thenFocus).reg)
    ensures ActivateStep(CloseStep(r, name, thenFocus).reg, name).outcome == Fail(KeyError)
  {
  }

  /** The registry of one browser session, updated in place. */
  class Site {
    var activated: map<string, Handle>
    var activeWindow: string

    /** The registry value the fields hold. */
    function Model(): Registry
      reads this
    {
      Registry(activated, activeWindow)
    }

    /** `Site.__init__`, past the driver set-up: read the current window handle until it is
        non-empty, bind it to `main` and make `main` active. */
    constructor (currentHandles: seq<Handle>)
      requires exists i :: 0 <= i < |currentHandles| && currentHandles[i] != ""
      ensures Model() == Initial(currentHandles)
    {
      var bound: map<string, Handle> := map[];
      var k := 0;
      while Main !in bound || bound[Main] == ""
        invariant 0 <= k <= |currentHandles|
        invariant forall j :: 0 <= j < k - 1 ==> currentHandles[j] == ""
        invariant k == 0 <==> bound == map[]
        invariant k > 0 ==> bound == map[Main := currentHandles[k - 1]]
        decreases |currentHandles| - k
      {
        assert forall j :: 0 <= j < k ==> currentHandles[j] == "";
        bound := bound[Main := currentHandles[k]];
        k := k + 1;
      }
      activated := bound;
      activeWindow := Main;
    }

    /** `activate_window(name)`. */
    method ActivateWindow(name: string) returns (outcome: Outcome)
      modifies this
      ensures Transition(Model(), outcome) == ActivateStep(old(Model()), name)
    {
      if name !in activated {
        return Fail(KeyError);
      }
      activeWindow := name;
      outcome := Pass;
    }

    /** `name_new_window(name, activate)`. */
    method NameNewWindow(name: string, polls: Polls, activate: bool) returns (outcome: Outcome)
      modifies this
      ensures Transition(Model(), outcome) == NewWindowStep(old(Model()), name, polls, activate)
    {
      if name in activated {
        return Fail(NameUsedTwice);
      }
      var i := 0;
      while i < NewWindowAttempts
        invariant 0 <= i <= NewWindowAttempts
        invariant Model() == old(Model())
        invariant AwaitNewWindow(polls, activated.Values) == AwaitNewWindow(polls[i..], activated.Values)
      {
        var newHandles := Unbound(polls[i], activated.Values);
        if newHandles != [] {
          activated := activated[name := newHandles[0]];
          if activate {
            outcome := ActivateWindow(name);
          } else {
            outcome := Pass;
          }
          return;
        }
        assert polls[i..][1..] == polls[i + 1..];
        i := i + 1;
      }
      outcome := Fail(WindowDidNotAppear);
    }

    /** `close_window(name, then_focus)`, with "" standing for a falsy `then_focus`. */
    method CloseWindow(name: string, thenFocus: string) returns (outcome: Outcome)
      modifies this
      ensures Transition(Model(), outcome) == CloseStep(old(Model()), name, thenFocus)
    {
      var fallback := Fallback(thenFocus);
      // try: switch to the window and close it; whatever the browser raises here is swallowed
      if name !in activated {
        // finally: `del` of an unbound name raises KeyError
        return Fail(KeyError);
      }
      activated := activated - {name};
      outcome := ActivateWindow(fallback);
    }
  }
}
