/**
 * The namespace-keyed registry of DOM event listeners: `boundEvents` maps a
 * namespace to the `{el, type, listener}` entries registered under it.
 * `on` registers one entry per word of a space-separated type list, `off`
 * detaches the first matching listener but keeps its entry, and `offAll`
 * detaches a namespace's listeners and forgets the namespace.
 *
 * Elements and listener functions are compared by identity, so they are
 * numbers here. The calls to `addEventListener` and `removeEventListener`
 * are recorded in a ghost log of effects, and `Live` replays that log into
 * the set of listeners the DOM holds.
 */
module Events {
  import opened Strings
  import opened Wrappers

  /** One registry entry: `{el, type, listener}`. */
  datatype Binding = Binding(el: nat, eventType: string, listener: nat)

  /** A call into the DOM: `el.addEventListener(type, listener)` or
      `el.removeEventListener(type, listener)`. */
  datatype Effect = Attach(b: Binding) | Detach(b: Binding)

  type Table = map<string, seq<Binding>>

  /** The namespace a call uses: `'default'` when none is given. */
  function NamespaceKey(ns: Option<string>): string
  {
    match ns
    case None => "default"
    case Some(k) => k
  }

  lemma EffectsAssoc(a: seq<Effect>, b: seq<Effect>, c: seq<Effect>)
    ensures (a + b) + c == a + (b + c)
  {
  }

  /** The entries of a namespace, none when it is absent. */
  function Listed(bound: Table, key: string): seq<Binding>
  {
    if key in bound then bound[key] else []
  }

  /** The table after `getEvents`, which creates a missing namespace with
      an empty list: the namespace is now present and every list reads as
      it did. */
  function WithNamespace(bound: Table, key: string): (r: Table)
    ensures key in r && r.Keys == bound.Keys + {key}
    ensures forall k :: Listed(r, k) == Listed(bound, k)
  {
    bound[key := Listed(bound, key)]
  }

  predicate Matches(b: Binding, el: nat, eventType: string)
  {
    b.el == el && b.eventType == eventType
  }

  /** `events.find(bound => bound.el === el && bound.type === type)`: the
      first matching entry, if there is one. */
  function Find(events: seq<Binding>, el: nat, eventType: string): (r: Option<Binding>)
    ensures r.None? <==> forall i :: 0 <= i < |events| ==> !Matches(events[i], el, eventType)
    ensures r.Some? ==>
      exists i :: (0 <= i < |events| && events[i] == r.value
        && Matches(r.value, el, eventType)
        && forall j :: 0 <= j < i ==> !Matches(events[j], el, eventType))
  {
    if |events| == 0 then None
    else if Matches(events[0], el, eventType) then Some(events[0])
    else
      var r := Find(events[1..], el, eventType);
      if r.Some? then
        ghost var i :| 0 <= i < |events[1..]| && events[1..][i] == r.value
          && Matches(r.value, el, eventType)
          && forall j :: 0 <= j < i ==> !Matches(events[1..][j], el, eventType);
        assert events[i + 1] == r.value;
        assert forall j :: 0 < j < i + 1 ==> events[j] == events[1..][j - 1];
        r
      else
        assert forall i :: 0 < i < |events| ==> events[i] == events[1..][i - 1];
        r
  }

  /** The entries `on(el, type, listener)` registers, one per word. */
  function Bindings(el: nat, types: seq<string>, listener: nat): seq<Binding>
  {
    seq(|types|, i requires 0 <= i < |types| => Binding(el, types[i], listener))
  }

  function Attaches(bs: seq<Binding>): seq<Effect>
  {
    seq(|bs|, i requires 0 <= i < |bs| => Attach(bs[i]))
  }

  function Detaches(bs: seq<Binding>): seq<Effect>
  {
    seq(|bs|, i requires 0 <= i < |bs| => Detach(bs[i]))
  }

  /** The table after `on(el, type, listener, namespace)`: the namespace's
      list grows by one entry per non-empty word of `type`, in order, and
      every other namespace is untouched. A type list with no words calls
      nothing, so it does not even create the namespace. */
  function Registered(bound: Table, el: nat, eventType: string, listener: nat, key: string): (r: Table)
    ensures Listed(r, key) == Listed(bound, key) + Bindings(el, Sanitize(eventType), listener)
    ensures forall k :: k != key ==> (k in r <==> k in bound) && Listed(r, k) == Listed(bound, k)
    ensures key in r <==> key in bound || |Sanitize(eventType)| > 0
  {
    var types := Sanitize(eventType);
    if |types| == 0 then bound
    else bound[key := Listed(bound, key) + Bindings(el, types, listener)]
  }

  /** The DOM calls `on` makes. */
  function OnLog(el: nat, eventType: string, listener: nat): seq<Effect>
  {
    Attaches(Bindings(el, Sanitize(eventType), listener))
  }

  /** The DOM call `off(el, type, namespace)` makes: the listener of the
      first matching entry is removed from `el`, if there is one. */
  function OffLog(bound: Table, el: nat, eventType: string, key: string): seq<Effect>
  {
    match Find(Listed(bound, key), el, eventType)
    case None => []
    case Some(event) => [Detach(Binding(el, eventType, event.listener))]
  }

  /** The DOM calls `offAll(namespace)` makes: every entry is detached. */
  function OffAllLog(bound: Table, key: string): seq<Effect>
  {
    Detaches(Listed(bound, key))
  }

  /** The listeners the DOM holds after a sequence of calls. Adding a
      listener that is already there changes nothing, and removing one
      removes it whatever was added before. */
  ghost function Live(log: seq<Effect>): set<Binding>
  {
    if |log| == 0 then {}
    else
      var prev := Live(log[..|log| - 1]);
      match log[|log| - 1]
      case Attach(b) => prev + {b}
      case Detach(b) => prev - {b}
  }

  function Elems(bs: seq<Binding>): set<Binding>
  {
    set b | b in bs
  }

  lemma LiveSnoc(log: seq<Effect>, e: Effect)
    ensures Live(log + [e]) == if e.Attach? then Live(log) + {e.b} else Live(log) - {e.b}
  {
    assert (log + [e])[..|log|] == log;
  }

  /** Attaching a list of listeners makes every one of them live. */
  lemma {:induction false} LiveAttaches(log: seq<Effect>, bs: seq<Binding>)
    ensures Live(log + Attaches(bs)) == Live(log) + Elems(bs)
    decreases |bs|
  {
    if |bs| > 0 {
      var init := bs[..|bs| - 1];
      var last := bs[|bs| - 1];
      LiveAttaches(log, init);
      assert Attaches(bs) == Attaches(init) + [Attach(last)];
      assert log + Attaches(bs) == (log + Attaches(init)) + [Attach(last)];
      LiveSnoc(log + Attaches(init), Attach(last));
      assert bs == init + [last];
      assert Elems(bs) == Elems(init) + {last};
    } else {
      assert log + Attaches(bs) == log;
    }
  }

  /** Detaching a list of listeners leaves none of them live. */
  lemma {:induction false} LiveDetaches(log: seq<Effect>, bs: seq<Binding>)
    ensures Live(log + Detaches(bs)) == Live(log) - Elems(bs)
    decreases |bs|
  {
    if |bs| > 0 {
      var init := bs[..|bs| - 1];
      var last := bs[|bs| - 1];
      LiveDetaches(log, init);
      assert Detaches(bs) == Detaches(init) + [Detach(last)];
      assert log + Detaches(bs) == (log + Detaches(init)) + [Detach(last)];
      LiveSnoc(log + Detaches(init), Detach(last));
      assert bs == init + [last];
      assert Elems(bs) == Elems(init) + {last};
    } else {
      assert log + Detaches(bs) == log;
    }
  }

  /** `on` with two space-separated type lists is `on` with the first and
      then `on` with the second. */
  lemma RegisteredSplit(bound: Table, el: nat, t1: string, t2: string, listener: nat, key: string)
    ensures Registered(bound, el, t1 + " " + t2, listener, key)
         == Registered(Registered(bound, el, t1, listener, key), el, t2, listener, key)
  {
    SanitizeAround(t1, t2);
    var w1, w2 := Sanitize(t1), Sanitize(t2);
    var b1, b2 := Bindings(el, w1, listener), Bindings(el, w2, listener);
    assert Bindings(el, w1 + w2, listener) == b1 + b2;
    var lst := Listed(bound, key);
    if |w1| == 0 {
      assert w1 + w2 == w2;
      RegisteredSame(bound, el, t1 + " " + t2, t2, listener, key);
    } else if |w2| == 0 {
      assert w1 + w2 == w1;
      RegisteredSame(bound, el, t1 + " " + t2, t1, listener, key);
    } else {
      var mid := bound[key := lst + b1];
      assert Registered(bound, el, t1, listener, key) == mid;
      assert Registered(mid, el, t2, listener, key) == mid[key := Listed(mid, key) + b2];
      AppendTwice(bound, key, b1, b2);
    }
  }

  lemma RegisteredSame(bound: Table, el: nat, s1: string, s2: string, listener: nat, key: string)
    requires Sanitize(s1) == Sanitize(s2)
    ensures Registered(bound, el, s1, listener, key) == Registered(bound, el, s2, listener, key)
  {
  }

  lemma AppendTwice(bound: Table, key: string, b1: seq<Binding>, b2: seq<Binding>)
    ensures var mid := bound[key := Listed(bound, key) + b1];
      mid[key := Listed(mid, key) + b2] == bound[key := Listed(bound, key) + (b1 + b2)]
  {
    var mid := bound[key := Listed(bound, key) + b1];
    assert Listed(mid, key) + b2 == Listed(bound, key) + (b1 + b2);
  }

  /** `offAll` after `on` forgets the namespace as if `on` had not been
      called, and none of the listeners it detaches, old or new, stays
      live. */
  lemma OffAllUndoesOn(bound: Table, log: seq<Effect>, el: nat, eventType: string,
                       listener: nat, key: string)
    ensures Registered(bound, el, eventType, listener, key) - {key} == bound - {key}
    ensures var added := Bindings(el, Sanitize(eventType), listener);
      Live(log + OnLog(el, eventType, listener)
           + OffAllLog(Registered(bound, el, eventType, listener, key), key))
      == Live(log) - Elems(Listed(bound, key)) - Elems(added)
  {
    RegisteredElsewhere(bound, el, eventType, listener, key);
    OffAllAfterOn(bound, log, el, eventType, listener, key);
  }

  /** `on` changes only the namespace it registers in. */
  lemma RegisteredElsewhere(bound: Table, el: nat, eventType: string, listener: nat, key: string)
    ensures Registered(bound, el, eventType, listener, key) - {key} == bound - {key}
  {
  }

  lemma OffAllAfterOn(bound: Table, log: seq<Effect>, el: nat, eventType: string,
                      listener: nat, key: string)
    ensures var added := Bindings(el, Sanitize(eventType), listener);
      Live(log + OnLog(el, eventType, listener)
           + OffAllLog(Registered(bound, el, eventType, listener, key), key))
      == Live(log) - Elems(Listed(bound, key)) - Elems(added)
  {
    var added := Bindings(el, Sanitize(eventType), listener);
    var r := Registered(bound, el, eventType, listener, key);
    assert Detaches(Listed(r, key)) == Detaches(Listed(bound, key) + added);
    LiveAttaches(log, added);
    LiveDetaches(log + OnLog(el, eventType, listener), Listed(bound, key) + added);
    assert Elems(Listed(bound, key) + added) == Elems(Listed(bound, key)) + Elems(added);
  }

  /** The registry together with the log of DOM calls made so far. */
  class Registry {
    var bound: Table
    ghost var log: seq<Effect>

    constructor ()
      ensures bound == map[] && log == []
    {
      bound := map[];
      log := [];
    }

    /** `getEvents(namespace)`. */
    method GetEvents(ns: Option<string>) returns (events: seq<Binding>)
      modifies this
      ensures events == Listed(old(bound), NamespaceKey(ns))
      ensures bound == WithNamespace(old(bound), NamespaceKey(ns))
      ensures log == old(log)
    {
      var key := NamespaceKey(ns);
      if key !in bound {
        bound := bound[key := []];
      }
      events := bound[key];
    }

    /** `deleteNamespace(namespace)`. */
    method DeleteNamespace(ns: Option<string>)
      modifies this
      ensures bound == old(bound) - {NamespaceKey(ns)}
      ensures log == old(log)
    {
      bound := bound - {NamespaceKey(ns)};
    }

    /** `off(el, type, namespace)`: detaches the first matching listener
        and leaves every entry of the registry where it was (at most the
        namespace is created, empty). */
    method Off(el: nat, eventType: string, ns: Option<string>)
      modifies this
      ensures bound == WithNamespace(old(bound), NamespaceKey(ns))
      ensures forall k :: Listed(bound, k) == Listed(old(bound), k)
      ensures log == old(log) + OffLog(old(bound), el, eventType, NamespaceKey(ns))
    {
      var events := GetEvents(ns);
      var event := Find(events, el, eventType);
      if event.Some? {
        log := log + [Detach(Binding(el, eventType, event.value.listener))];
      }
    }

    /** `offAll(namespace)`: detaches every listener of the namespace, in
        order, then deletes the namespace; no other namespace changes. */
    method OffAll(ns: Option<string>)
      modifies this
      ensures bound == old(bound) - {NamespaceKey(ns)}
      ensures log == old(log) + OffAllLog(old(bound), NamespaceKey(ns))
    {
      var events := GetEvents(ns);
      var i := 0;
      while i < |events|
        invariant 0 <= i <= |events|
        invariant bound == WithNamespace(old(bound), NamespaceKey(ns))
        invariant log == old(log) + Detaches(events[..i])
      {
        assert Detaches(events[..i + 1]) == Detaches(events[..i]) + [Detach(events[i])];
        log := log + [Detach(events[i])];
        i := i + 1;
      }
      assert events[..i] == events;
      DeleteNamespace(ns);
    }

    /** `_on(el, type, listener, namespace)`: one entry appended, one
        listener attached. */
    method OnOne(el: nat, eventType: string, listener: nat, ns: Option<string>)
      modifies this
      ensures bound == old(bound)[NamespaceKey(ns) :=
        Listed(old(bound), NamespaceKey(ns)) + [Binding(el, eventType, listener)]]
      ensures log == old(log) + [Attach(Binding(el, eventType, listener))]
    {
      var events := GetEvents(ns);
      bound := bound[NamespaceKey(ns) := events + [Binding(el, eventType, listener)]];
      log := log + [Attach(Binding(el, eventType, listener))];
    }

    /** `on(el, type, listener, namespace)`: `_on` for each non-empty word
        of `type`, in order. */
    method On(el: nat, eventType: string, listener: nat, ns: Option<string>)
      modifies this
      ensures bound == Registered(old(bound), el, eventType, listener, NamespaceKey(ns))
      ensures log == old(log) + OnLog(el, eventType, listener)
    {
      var key := NamespaceKey(ns);
      var types := Sanitize(eventType);
      var k := 0;
      while k < |types|
        invariant 0 <= k <= |types|
        invariant bound == if k == 0 then old(bound)
          else old(bound)[key := Listed(old(bound), key) + Bindings(el, types[..k], listener)]
        invariant log == old(log) + Attaches(Bindings(el, types[..k], listener))
      {
        assert Bindings(el, types[..k + 1], listener)
            == Bindings(el, types[..k], listener) + [Binding(el, types[k], listener)];
        assert Attaches(Bindings(el, types[..k + 1], listener))
            == Attaches(Bindings(el, types[..k], listener)) + [Attach(Binding(el, types[k], listener))];
        ghost var before := bound;
        ghost var grown := Listed(old(bound), key) + Bindings(el, types[..k + 1], listener);
        assert Listed(before, key) + [Binding(el, types[k], listener)] == grown;
        OnOne(el, types[k], listener, ns);
        assert bound == before[key := grown];
        assert before[key := grown] == old(bound)[key := grown];
        k := k + 1;
      }
      assert types[..k] == types;
    }

    /** `setResizeEvent`: `off(window, 'resize', 'drop-ui')`, then `on`
        with the new handler. */
    method SetResizeEvent(window: nat, handler: nat)
      modifies this
      ensures bound == RebindAsWrittenTable(old(bound), window, handler)
      ensures log == old(log) + RebindAsWrittenLog(old(bound), window, handler)
    {
      assert NamespaceKey(Some(ResizeNamespace)) == ResizeNamespace;
      ghost var before := log;
      Off(window, "resize", Some(ResizeNamespace));
      ghost var offLog := log[|before|..];
      On(window, "resize", handler, Some(ResizeNamespace));
      EffectsAssoc(before, offLog, OnLog(window, "resize", handler));
    }

    /** The rebinding `setResizeEvent` is meant to do: `offAll` the
        namespace, then `on` with the new handler. */
    method ResetResizeEvent(window: nat, handler: nat)
      modifies this
      ensures bound == RebindTable(old(bound), window, handler)
      ensures log == old(log) + RebindLog(old(bound), window, handler)
    {
      assert NamespaceKey(Some(ResizeNamespace)) == ResizeNamespace;
      ghost var before := log;
      OffAll(Some(ResizeNamespace));
      ghost var offLog := log[|before|..];
      On(window, "resize", handler, Some(ResizeNamespace));
      EffectsAssoc(before, offLog, OnLog(window, "resize", handler));
    }

    /** The directive's `unbind` as written: `offAll(window, 'resize',
        'drop-ui')` hands `window` to `offAll` as its only parameter, the
        namespace, so the namespace looked up is the window's property key. */
    method UnbindAsWritten()
      modifies this
      ensures bound == old(bound) - {WindowKey}
      ensures log == old(log) + OffAllLog(old(bound), WindowKey)
    {
      OffAll(Some(WindowKey));
    }

    /** The `unbind` meant: `offAll('drop-ui')`. */
    method Unbind()
      modifies this
      ensures bound == old(bound) - {ResizeNamespace}
      ensures log == old(log) + OffAllLog(old(bound), ResizeNamespace)
    {
      OffAll(Some(ResizeNamespace));
    }
  }

  /** The namespace the position directive keeps its resize handler in. */
  const ResizeNamespace: string := "drop-ui"

  /** The key a window object becomes when it is used as a property name. */
  const WindowKey: string := "[object Window]"

  function RebindAsWrittenTable(bound: Table, window: nat, handler: nat): Table
  {
    Registered(WithNamespace(bound, ResizeNamespace), window, "resize", handler, ResizeNamespace)
  }

  function RebindAsWrittenLog(bound: Table, window: nat, handler: nat): seq<Effect>
  {
    OffLog(bound, window, "resize", ResizeNamespace) + OnLog(window, "resize", handler)
  }

  function RebindTable(bound: Table, window: nat, handler: nat): Table
  {
    Registered(bound - {ResizeNamespace}, window, "resize", handler, ResizeNamespace)
  }

  function RebindLog(bound: Table, window: nat, handler: nat): seq<Effect>
  {
    OffAllLog(bound, ResizeNamespace) + OnLog(window, "resize", handler)
  }

  lemma SanitizeResize()
    ensures Sanitize("resize") == ["resize"]
  {
    SanitizeJoin(["resize"]);
  }

  /** As written, a rebind detaches the handler of the namespace's first
      entry, whichever handler was attached last, and appends the new
      handler's entry behind it. */
  lemma RebindAsWrittenStep(bound: Table, window: nat, first: nat, handler: nat)
    requires |Listed(bound, ResizeNamespace)| > 0
    requires Listed(bound, ResizeNamespace)[0] == Binding(window, "resize", first)
    ensures RebindAsWrittenLog(bound, window, handler)
         == [Detach(Binding(window, "resize", first)), Attach(Binding(window, "resize", handler))]
    ensures Listed(RebindAsWrittenTable(bound, window, handler), ResizeNamespace)
         == Listed(bound, ResizeNamespace) + [Binding(window, "resize", handler)]
  {
    SanitizeResize();
    assert Bindings(window, ["resize"], handler) == [Binding(window, "resize", handler)];
  }

  /** The first rebind on an empty registry registers and attaches the
      handler. */
  lemma RebindAsWrittenFirst(window: nat, handler: nat)
    ensures RebindAsWrittenLog(map[], window, handler) == [Attach(Binding(window, "resize", handler))]
    ensures Listed(RebindAsWrittenTable(map[], window, handler), ResizeNamespace)
         == [Binding(window, "resize", handler)]
  {
    SanitizeResize();
    assert Bindings(window, ["resize"], handler) == [Binding(window, "resize", handler)];
  }

  /** As written, three rebinds with handlers 1, 2 and 3 leave handlers 2
      and 3 both attached: every `off` after the first finds the first
      entry, whose handler is already gone, and never the one attached
      last. */
  lemma RebindAsWrittenLeaks(window: nat)
    ensures var b0, log0 := map[], [];
      var b1, log1 := RebindAsWrittenTable(b0, window, 1), log0 + RebindAsWrittenLog(b0, window, 1);
      var b2, log2 := RebindAsWrittenTable(b1, window, 2), log1 + RebindAsWrittenLog(b1, window, 2);
      var log3 := log2 + RebindAsWrittenLog(b2, window, 3);
      Binding(window, "resize", 2) in Live(log3) && Binding(window, "resize", 3) in Live(log3)
  {
    var h1, h2, h3 := Binding(window, "resize", 1), Binding(window, "resize", 2), Binding(window, "resize", 3);
    var b1 := RebindAsWrittenTable(map[], window, 1);
    RebindAsWrittenFirst(window, 1);
    RebindAsWrittenStep(b1, window, 1, 2);
    var b2 := RebindAsWrittenTable(b1, window, 2);
    RebindAsWrittenStep(b2, window, 1, 3);
    LiveFiveCalls(h1, h2, h3);
  }

  lemma LiveFiveCalls(h1: Binding, h2: Binding, h3: Binding)
    requires h1 != h2 && h1 != h3
    ensures var log := [] + [Attach(h1)] + [Detach(h1), Attach(h2)] + [Detach(h1), Attach(h3)];
      h2 in Live(log) && h3 in Live(log)
  {
    var log := [] + [Attach(h1)] + [Detach(h1), Attach(h2)] + [Detach(h1), Attach(h3)];
    LiveSnoc([], Attach(h1));
    assert [] + [Attach(h1)] == [Attach(h1)];
    LiveSnoc([Attach(h1)], Detach(h1));
    LiveSnoc([Attach(h1), Detach(h1)], Attach(h2));
    LiveSnoc([Attach(h1), Detach(h1), Attach(h2)], Detach(h1));
    LiveSnoc([Attach(h1), Detach(h1), Attach(h2), Detach(h1)], Attach(h3));
    assert log == [Attach(h1), Detach(h1), Attach(h2), Detach(h1)] + [Attach(h3)];
  }

  /** With `offAll` in place of `off`, a rebind leaves the new handler as
      the namespace's only entry and detaches every handler it listed
      before. */
  lemma RebindReplaces(bound: Table, log: seq<Effect>, window: nat, handler: nat)
    ensures Listed(RebindTable(bound, window, handler), ResizeNamespace)
         == [Binding(window, "resize", handler)]
    ensures Live(log + RebindLog(bound, window, handler))
         == Live(log) - Elems(Listed(bound, ResizeNamespace)) + {Binding(window, "resize", handler)}
  {
    OnResize(window, handler);
    var h := Binding(window, "resize", handler);
    LiveDetaches(log, Listed(bound, ResizeNamespace));
    EffectsAssoc(log, OffAllLog(bound, ResizeNamespace), Attaches([h]));
    LiveAttaches(log + OffAllLog(bound, ResizeNamespace), [h]);
    assert Elems([h]) == {h};
  }

  /** `on(window, 'resize', handler)` registers and attaches one binding. */
  lemma OnResize(window: nat, handler: nat)
    ensures OnLog(window, "resize", handler) == Attaches([Binding(window, "resize", handler)])
    ensures Bindings(window, Sanitize("resize"), handler) == [Binding(window, "resize", handler)]
  {
    SanitizeResize();
    assert Bindings(window, ["resize"], handler) == [Binding(window, "resize", handler)];
  }

  /** So, from any state whose resize entries are exactly the live resize
      handlers, any number of corrected rebinds keep exactly one handler
      live: the latest. */
  lemma RebindKeepsOne(bound: Table, log: seq<Effect>, window: nat, handler: nat)
    requires forall b :: (b in Live(log) && b.el == window && b.eventType == "resize"
      ==> b in Elems(Listed(bound, ResizeNamespace)))
    ensures var r, l := RebindTable(bound, window, handler), log + RebindLog(bound, window, handler);
      && (forall b :: b in Live(l) && b.el == window && b.eventType == "resize"
            <==> b == Binding(window, "resize", handler))
      && (forall b :: b in Live(l) && b.el == window && b.eventType == "resize"
            ==> b in Elems(Listed(r, ResizeNamespace)))
  {
    RebindReplaces(bound, log, window, handler);
  }

  /** As written, unbinding after a rebind leaves the resize handler both
      attached and registered. */
  lemma UnbindAsWrittenLeaves(window: nat, handler: nat)
    ensures var h := Binding(window, "resize", handler);
      var b1, l1 := RebindAsWrittenTable(map[], window, handler), RebindAsWrittenLog(map[], window, handler);
      && h in Live(l1 + OffAllLog(b1, WindowKey))
      && Listed(b1 - {WindowKey}, ResizeNamespace) == [h]
  {
    var h := Binding(window, "resize", handler);
    RebindAsWrittenFirst(window, handler);
    var b1, l1 := RebindAsWrittenTable(map[], window, handler), RebindAsWrittenLog(map[], window, handler);
    assert WindowKey !in b1;
    assert l1 + OffAllLog(b1, WindowKey) == l1;
  }

  /** The corrected unbind, from any state whose resize entries cover the
      live resize handlers, leaves no resize handler of the window attached
      and no `drop-ui` namespace. */
  lemma UnbindDetaches(bound: Table, log: seq<Effect>, window: nat)
    requires forall b :: (b in Live(log) && b.el == window && b.eventType == "resize"
      ==> b in Elems(Listed(bound, ResizeNamespace)))
    ensures ResizeNamespace !in bound - {ResizeNamespace}
    ensures forall b :: b in Live(log + OffAllLog(bound, ResizeNamespace)) ==>
      !(b.el == window && b.eventType == "resize")
  {
    LiveDetaches(log, Listed(bound, ResizeNamespace));
  }
}
