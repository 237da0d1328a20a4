/** Client code driving the registry through the situations its users rely
    on; every assertion follows from the registry's contracts alone. */
module Scenarios {
  import opened IndieDelegates
  import opened Registry

  /** Suppressing a live linter clears its messages at once; further updates
      from it are dropped; lifting the suppression restores the messages it
      holds by then, including those whose update was dropped. */
  method SuppressThenRestore(m1: Message, m2: Message, m3: Message)
  {
    var registry := new IndieRegistry((config: Indie) => true);
    var r := registry.Register(Indie("foo"));
    var foo := r.linter;
    foo.SetAllMessages([m1, m2]);
    registry.RelayUpdate(foo, [m1, m2]);
    assert registry.events == [Event.Observe(foo), DidUpdate(foo, [m1, m2])];

    registry.UpdateDisabledProviders(["foo"]);
    assert Without(["foo"], []) == ["foo"];
    assert Without([], ["foo"]) == [];
    assert FirstNamed([foo], "foo") == Some(foo);
    assert registry.disabledProviders == ["foo"];
    assert registry.events == [Event.Observe(foo), DidUpdate(foo, [m1, m2]), DidUpdate(foo, [])];

    foo.SetAllMessages([m3]);
    registry.RelayUpdate(foo, [m3]);
    assert |registry.events| == 3;

    registry.UpdateDisabledProviders([]);
    assert Without([], ["foo"]) == [];
    assert Without(["foo"], []) == ["foo"];
    assert registry.disabledProviders == [];
    assert registry.events[3..] == [DidUpdate(foo, [m3])];
  }

  /** As written, sending the same suppressed-name list twice forgets the
      suppression: the second call stores an empty list and emits nothing,
      so the linter's next update is relayed. */
  method SameListTwice(m: Message)
  {
    var registry := new IndieRegistry((config: Indie) => true);
    var r := registry.Register(Indie("foo"));
    var foo := r.linter;

    registry.UpdateDisabledProviders(["foo"]);
    assert Without(["foo"], []) == ["foo"];
    assert registry.disabledProviders == ["foo"];
    var logged := |registry.events|;

    registry.UpdateDisabledProviders(["foo"]);
    assert Without(["foo"], ["foo"]) == [];
    assert registry.disabledProviders == [];
    assert |registry.events| == logged;

    registry.RelayUpdate(foo, [m]);
    assert registry.events[logged..] == [DidUpdate(foo, [m])];
  }

  /** Suppressing a name nobody carries emits nothing but is remembered: a
      linter registered later under that name is muted until the name is
      lifted, and the lift restores the messages whose update was dropped. */
  method SuppressBeforeRegister(m: Message)
  {
    var registry := new IndieRegistry((config: Indie) => true);
    registry.UpdateDisabledProviders(["bar"]);
    assert Without(["bar"], []) == ["bar"] && Without([], ["bar"]) == [];
    assert Synthetic([], ["bar"], true) == [] && Synthetic([], [], false) == [];
    assert registry.events == [];

    var r := registry.Register(Indie("bar"));
    var bar := r.linter;
    assert registry.delegates == [bar] && registry.disabledProviders == ["bar"];
    bar.SetAllMessages([m]);
    registry.RelayUpdate(bar, [m]);
    assert registry.events == [Event.Observe(bar)];

    ghost var before := registry.events;
    registry.UpdateDisabledProviders([]);
    assert Without(["bar"], []) == ["bar"] && Without([], ["bar"]) == [];
    assert registry.delegates == [bar] && bar.messages == [m];
    assert registry.events == before + Synthetic([bar], [], true) + Synthetic([bar], ["bar"], false);
    assert FirstNamed([bar], "bar") == Some(bar);
    assert Synthetic([bar], ["bar"], false) == [DidUpdate(bar, [m])];
    assert registry.events == [Event.Observe(bar), DidUpdate(bar, [m])];

    registry.RelayUpdate(bar, [m]);
    assert registry.events[2..] == [DidUpdate(bar, [m])];
  }

  /** An invalid configuration changes nothing; `observe` replays the live
      linters in registration order; a destroyed linter drops out. */
  method RegisterObserveDestroy()
  {
    var registry := new IndieRegistry((config: Indie) => config.name != "");
    var bad := registry.Register(Indie(""));
    assert bad == Rejected(RegisterError);
    assert registry.delegates == [] && registry.events == [];

    var a := registry.Register(Indie("a"));
    var b := registry.Register(Indie("b"));
    var replayed, cursor := registry.Observe();
    assert replayed == [a.linter, b.linter] && cursor == 2;

    registry.OnDidDestroy(a.linter);
    RemoveAt([a.linter, b.linter], 0);
    var providers := registry.GetProviders();
    assert providers == [b.linter];
  }
}
