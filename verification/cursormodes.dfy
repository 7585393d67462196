/** The cursor-mode registry: named modes, one of them current, and for
    each of the four mouse event types a handler list per mode. Defining,
    selecting and registering are checked transitions that raise
    `ValueError`; the four dispatchers call the handlers of the current
    mode in registration order. */
module CursorModes {
  import opened Wrappers

  /** The event type codes `MOUSE_PRESS` .. `MOUSE_LEAVE`. */
  const MousePress: int := 1
  const MouseRelease: int := 2
  const MouseMove: int := 3
  const MouseLeave: int := 4

  function EventTypes(): set<int> {
    {MousePress, MouseRelease, MouseMove, MouseLeave}
  }

  const Default: string := "default"

  /** A handler, known by identity; `callable` says whether `callable(fn)`
      holds for it. */
  datatype Handler = Handler(id: nat, callable: bool)

  /** An argument to `defineMode`: a string, a list (of further arguments),
      or any other value. */
  datatype ModeArg = Name(s: string) | List(items: seq<ModeArg>) | NotAString

  datatype ModeError =
    | NotStr
    | AlreadyDefined(mode: string)
    | UndefinedMode(mode: string)
    | UndefinedEventType(evtype: int)
    | NotCallable

  /** `modes`, `currentMode` and `events` (event type -> mode -> handlers). */
  datatype Registry = Registry(modes: seq<string>, current: string, events: map<int, map<string, seq<Handler>>>)

  predicate Distinct(s: seq<string>) {
    forall i, j :: 0 <= i < j < |s| ==> s[i] != s[j]
  }

  /** What every reachable registry satisfies: the four event types each
      hold one list per defined mode, every registered handler is callable,
      modes are distinct, `'default'` is one of them and the current mode is
      defined. */
  predicate Valid(g: Registry) {
    && g.events.Keys == EventTypes()
    && (forall t :: t in g.events ==> g.events[t].Keys == set m | m in g.modes)
    && (forall t, m, h :: t in g.events && m in g.events[t] && h in g.events[t][m] ==> h.callable)
    && Distinct(g.modes)
    && Default in g.modes
    && g.current in g.modes
  }

  /** `CursorMode()`: only `'default'`, selected, with no handlers. */
  function NewRegistry(): (g: Registry)
    ensures Valid(g) && g.modes == [Default] && g.current == Default
    ensures forall t :: t in EventTypes() ==> g.events[t][Default] == []
  {
    var none := map[Default := []];
    Registry([Default], Default,
             map[MousePress := none, MouseRelease := none, MouseMove := none, MouseLeave := none])
  }

  // ---------------------------------------------------------------------
  // defineMode

  /** `defineMode` of one string. */
  function DefineOne(g: Registry, m: string): (r: Result<Registry, ModeError>)
    requires Valid(g)
    ensures m in g.modes <==> r == Failure(AlreadyDefined(m))
    ensures r.Success? ==> && Valid(r.value)
                           && r.value.modes == g.modes + [m]
                           && r.value.current == g.current
                           && r.value.events.Keys == g.events.Keys
                           && forall t :: t in g.events ==> r.value.events[t] == g.events[t][m := []]
  {
    if m in g.modes then Failure(AlreadyDefined(m))
    else
      var ev := map t | t in g.events :: g.events[t][m := []];
      var g' := Registry(g.modes + [m], g.current, ev);
      assert Valid(g') by {
        assert forall t :: t in ev ==> ev[t].Keys == set x | x in g'.modes;
        DistinctAppend(g.modes, m);
      }
      Success(g')
  }

  lemma DistinctAppend(s: seq<string>, m: string)
    requires Distinct(s) && m !in s
    ensures Distinct(s + [m])
  {
  }

  /** The effect of a `defineMode` call: the registry it leaves behind and
      the exception it raises, if any. A list argument defines its elements
      one after another, and one that fails stops the loop with the earlier
      ones already defined. */
  datatype Outcome = Outcome(reg: Registry, raised: Option<ModeError>)

  function DefineMode(g: Registry, a: ModeArg): (o: Outcome)
    requires Valid(g)
    ensures Valid(o.reg) && o.reg.current == g.current && g.modes <= o.reg.modes
    ensures a.NotAString? ==> o == Outcome(g, Some(NotStr))
    decreases a
  {
    match a
    case NotAString => Outcome(g, Some(NotStr))
    case Name(m) =>
      (match DefineOne(g, m)
       case Failure(e) => Outcome(g, Some(e))
       case Success(g') => Outcome(g', None))
    case List(items) => DefineModes(g, items)
  }

  function DefineModes(g: Registry, items: seq<ModeArg>): (o: Outcome)
    requires Valid(g)
    ensures Valid(o.reg) && o.reg.current == g.current && g.modes <= o.reg.modes
    decreases items
  {
    if items == [] then Outcome(g, None)
    else
      var first := DefineMode(g, items[0]);
      if first.raised.Some? then first
      else DefineModes(first.reg, items[1..])
  }

  /** A failed single definition leaves the registry as it was. */
  lemma DefineModeAtomic(g: Registry, a: ModeArg)
    requires Valid(g) && !a.List? && DefineMode(g, a).raised.Some?
    ensures DefineMode(g, a).reg == g
  {
  }

  /** A list of strings as a `defineMode` argument list. */
  function AsArgs(names: seq<string>): seq<ModeArg> {
    seq(|names|, i requires 0 <= i < |names| => Name(names[i]))
  }

  /** Distinct fresh names in a list are all appended, in order, and
      nothing is raised. */
  lemma {:induction false} DefineModesFresh(g: Registry, names: seq<string>)
    requires Valid(g) && Distinct(names)
    requires forall i :: 0 <= i < |names| ==> names[i] !in g.modes
    ensures DefineModes(g, AsArgs(names)).raised.None?
    ensures DefineModes(g, AsArgs(names)).reg.modes == g.modes + names
    decreases |names|
  {
    if names != [] {
      var g' := FreshStep(g, names);
      DefineModesFresh(g', names[1..]);
      ConsAppend(g.modes, names);
    }
  }

  /** The first of a list of distinct fresh names is defined, and the rest
      are still distinct and fresh afterwards. */
  lemma FreshStep(g: Registry, names: seq<string>) returns (g': Registry)
    requires Valid(g) && Distinct(names) && names != []
    requires forall i :: 0 <= i < |names| ==> names[i] !in g.modes
    ensures Valid(g') && g'.modes == g.modes + [names[0]] && Distinct(names[1..])
    ensures forall i :: 0 <= i < |names[1..]| ==> names[1..][i] !in g'.modes
    ensures DefineModes(g, AsArgs(names)) == DefineModes(g', AsArgs(names[1..]))
  {
    var items := AsArgs(names);
    g' := DefineOne(g, names[0]).value;
    assert items[0] == Name(names[0]) && items[1..] == AsArgs(names[1..]);
    assert DefineMode(g, items[0]) == Outcome(g', None);
    var rest := names[1..];
    assert forall i :: 0 <= i < |rest| ==> rest[i] == names[i + 1];
  }

  lemma ConsAppend(a: seq<string>, names: seq<string>)
    requires names != []
    ensures (a + [names[0]]) + names[1..] == a + names
  {
    assert names == [names[0]] + names[1..];
  }

  /** `defineMode(['a', 5])` on a fresh registry raises for the 5 but keeps
      `'a'` defined. */
  lemma DefineModesNotAtomic()
    ensures var o := DefineModes(NewRegistry(), [Name("a"), NotAString]);
      o.raised == Some(NotStr) && o.reg.modes == [Default, "a"]
  {
    var g := NewRegistry();
    var g' := DefineOne(g, "a").value;
    assert DefineMode(g, Name("a")) == Outcome(g', None);
    assert [Name("a"), NotAString][1..] == [NotAString];
    assert DefineModes(g', [NotAString]) == Outcome(g', Some(NotStr));
  }

  // ---------------------------------------------------------------------
  // setMode / resetMode

  /** `setMode(mode)`: only a defined mode can become current. */
  function SetMode(g: Registry, m: string): (r: Result<Registry, ModeError>)
    requires Valid(g)
    ensures r.Success? <==> m in g.modes
    ensures r.Failure? ==> r.error == UndefinedMode(m)
    ensures r.Success? ==> Valid(r.value) && r.value == g.(current := m)
  {
    if m !in g.modes then Failure(UndefinedMode(m)) else Success(g.(current := m))
  }

  /** `resetMode()`: back to `'default'`, which never fails. */
  function ResetMode(g: Registry): (r: Registry)
    requires Valid(g)
    ensures Valid(r) && r.current == Default && r.modes == g.modes && r.events == g.events
  {
    SetMode(g, Default).value
  }

  // ---------------------------------------------------------------------
  // defineEvent and dispatch

  /** `defineEvent(fn, evtype, mode)`: the checks in order, then `fn` goes
      at the end of that one list. */
  function DefineEvent(g: Registry, fn: Handler, t: int, m: string): (r: Result<Registry, ModeError>)
    requires Valid(g)
    ensures r.Success? <==> t in EventTypes() && m in g.modes && fn.callable
    ensures t !in EventTypes() ==> r == Failure(UndefinedEventType(t))
    ensures t in EventTypes() && m !in g.modes ==> r == Failure(UndefinedMode(m))
    ensures t in EventTypes() && m in g.modes && !fn.callable ==> r == Failure(NotCallable)
    ensures r.Success? ==> Valid(r.value) && r.value.modes == g.modes && r.value.current == g.current
  {
    if t !in g.events then Failure(UndefinedEventType(t))
    else if m !in g.modes then Failure(UndefinedMode(m))
    else if !fn.callable then Failure(NotCallable)
    else
      AppendValid(g, t, m, fn);
      Success(Append(g, t, m, fn))
  }

  /** `self.events[evtype][mode].append(fn)`. */
  function Append(g: Registry, t: int, m: string, fn: Handler): Registry
    requires t in g.events && m in g.events[t]
  {
    g.(events := g.events[t := g.events[t][m := g.events[t][m] + [fn]]])
  }

  /** Appending a callable handler under a defined event type and mode
      keeps the registry valid. */
  lemma AppendValid(g: Registry, t: int, m: string, fn: Handler)
    requires Valid(g) && t in g.events && m in g.modes && fn.callable
    ensures m in g.events[t] && Valid(Append(g, t, m, fn))
  {
    AppendCallable(g.events, t, m, fn);
    var ev' := Append(g, t, m, fn).events;
    assert ev'.Keys == g.events.Keys;
    assert ev'[t].Keys == g.events[t].Keys;
  }

  /** Appending a callable handler to one list keeps every handler callable. */
  lemma AppendCallable(ev: map<int, map<string, seq<Handler>>>, t: int, m: string, fn: Handler)
    requires t in ev && m in ev[t] && fn.callable
    requires forall t', m', h :: t' in ev && m' in ev[t'] && h in ev[t'][m'] ==> h.callable
    ensures var ev' := ev[t := ev[t][m := ev[t][m] + [fn]]];
      forall t', m', h :: t' in ev' && m' in ev'[t'] && h in ev'[t'][m'] ==> h.callable
  {
    var ev' := ev[t := ev[t][m := ev[t][m] + [fn]]];
    forall t': int, m': string, h: Handler | t' in ev' && m' in ev'[t'] && h in ev'[t'][m']
      ensures h.callable
    {
      if t' == t && m' == m {
        assert h in ev[t][m] || h == fn;
      }
    }
  }

  /** The handlers `onMousePress`/`onMouseRelease`/`onMouseMove`/
      `onMouseLeave` call, in the order they call them. */
  function Dispatch(g: Registry, t: int): (hs: seq<Handler>)
    requires Valid(g) && t in EventTypes()
    ensures forall h :: h in hs ==> h.callable
  {
    g.events[t][g.current]
  }

  /** A fresh registry calls nothing on any event. */
  lemma NewRegistryDispatchesNothing(t: int)
    requires t in EventTypes()
    ensures Dispatch(NewRegistry(), t) == []
  {
  }

  /** After registering `fn` for `t` and `m`, the dispatcher of `t` calls it
      last when `m` is current; every other (event type, mode) list is as
      before. */
  lemma DefineEventDispatch(g: Registry, fn: Handler, t: int, m: string, t': int, m': string)
    requires Valid(g) && DefineEvent(g, fn, t, m).Success?
    requires t' in EventTypes() && m' in g.modes
    ensures var g' := DefineEvent(g, fn, t, m).value;
      Dispatch(g'.(current := m'), t')
        == if t' == t && m' == m then Dispatch(g.(current := m'), t') + [fn] else Dispatch(g.(current := m'), t')
  {
  }

  /** Defining a mode gives it an empty list everywhere and leaves the
      handlers of every existing mode alone. */
  lemma DefineOneDispatch(g: Registry, m: string, t: int, m': string)
    requires Valid(g) && DefineOne(g, m).Success? && t in EventTypes()
    requires m' == m || m' in g.modes
    ensures var g' := DefineOne(g, m).value;
      Dispatch(g'.(current := m'), t) == if m' == m then [] else Dispatch(g.(current := m'), t)
  {
  }
}
