/** The indie linter registry (lib/indie-registry.js): it admits indie
    linters, relays their message updates unless their name is suppressed,
    synthesises clear and restore updates when the suppressed-name list
    changes, and disposes every live delegate on teardown.

    What the registry emits is recorded in an append-only log of events:
    `Observe(d)` for the `observe` channel and `DidUpdate(d, msgs)` for the
    `did-update` channel. */
module Registry {
  import opened IndieDelegates

  datatype Option<T> = None | Some(value: T)

  datatype Event =
    | Observe(linter: IndieDelegate)
    | DidUpdate(linter: IndieDelegate, messages: seq<Message>)

  /** Outcome of `register`: the new delegate, or the error it throws. */
  datatype Registration =
    | Registered(linter: IndieDelegate)
    | Rejected(reason: string)

  const RegisterError := "Error registering Indie Linter"

  /** No element occurs twice: a JS `Set` seen in its insertion order. */
  predicate Distinct<T(==)>(s: seq<T>)
  {
    forall i, j :: 0 <= i < j < |s| ==> s[i] != s[j]
  }

  /** `a` is `b` with some elements deleted, the rest kept in order. */
  predicate IsSubsequence<T(==)>(a: seq<T>, b: seq<T>)
    decreases |b|
  {
    a == [] ||
    (b != [] && ((a[0] == b[0] && IsSubsequence(a[1..], b[1..])) || IsSubsequence(a, b[1..])))
  }

  // ---------------------------------------------------------------------
  // Expression-level parts of `updateDisabledProviders` and the handlers
  // ---------------------------------------------------------------------

  /** `xs.filter(x => !excluded.includes(x))`: the elements of `xs` that are
      not in `excluded`, in order, one per occurrence. Both diff lists of
      `updateDisabledProviders` are of this form. */
  function Without(xs: seq<string>, excluded: seq<string>): (r: seq<string>)
    ensures forall x :: x in r <==> x in xs && x !in excluded
  {
    if xs == [] then []
    else (if xs[0] in excluded then [] else [xs[0]]) + Without(xs[1..], excluded)
  }

  /** `Without` keeps every occurrence of a kept element: the filter is one
      entry per occurrence, not a set difference. */
  lemma {:induction false} WithoutCounts(xs: seq<string>, excluded: seq<string>)
    ensures forall x :: multiset(Without(xs, excluded))[x] == if x in excluded then 0 else multiset(xs)[x]
  {
    if xs != [] {
      assert xs == [xs[0]] + xs[1..];
      WithoutCounts(xs[1..], excluded);
    }
  }

  /** `[...delegates].find(({name}) => name === target)`: some live
      delegate named `target`, if there is one; `FirstNamedIsFirst` shows
      it is the first in insertion order. */
  function FirstNamed(ds: seq<IndieDelegate>, target: string): (r: Option<IndieDelegate>)
    ensures r.None? <==> forall d :: d in ds ==> d.name != target
    ensures r.Some? ==> r.value in ds && r.value.name == target
  {
    if ds == [] then None
    else if ds[0].name == target then Some(ds[0])
    else FirstNamed(ds[1..], target)
  }

  /** The delegate `FirstNamed` finds sits at some position `i` and no
      delegate before it carries the name. */
  lemma {:induction false} FirstNamedIsFirst(ds: seq<IndieDelegate>, target: string)
    ensures FirstNamed(ds, target).Some? ==>
      exists i :: 0 <= i < |ds| && ds[i] == FirstNamed(ds, target).value &&
        forall j :: 0 <= j < i ==> ds[j].name != target
  {
    if ds != [] && ds[0].name != target {
      FirstNamedIsFirst(ds[1..], target);
      var r := FirstNamed(ds[1..], target);
      if r.Some? {
        var i :| 0 <= i < |ds[1..]| && ds[1..][i] == r.value && forall j :: 0 <= j < i ==> ds[1..][j].name != target;
        assert ds[i + 1] == r.value;
        forall j | 0 <= j < i + 1 ensures ds[j].name != target {
          if j > 0 { assert ds[j] == ds[1..][j - 1]; }
        }
      }
    }
  }

  /** A duplicate-free sequence stays so without its head, and its head does
      not occur again. */
  lemma DistinctTail<T>(s: seq<T>)
    requires Distinct(s) && s != []
    ensures Distinct(s[1..]) && s[0] !in s[1..]
  {
    forall k | 0 <= k < |s[1..]| ensures s[1..][k] != s[0] {
      assert s[1..][k] == s[k + 1];
    }
  }

  /** `delegates.delete(d)`: removal by identity; a no-op when `d` is absent. */
  function Remove<T(==)>(s: seq<T>, d: T): (r: seq<T>)
    ensures d !in s ==> r == s
    ensures forall x :: x in r ==> x in s && x != d
    ensures forall x :: x in s && x != d ==> x in r
    ensures Distinct(s) ==> Distinct(r) && |r| == if d in s then |s| - 1 else |s|
  {
    if s == [] then []
    else
      var rest := Remove(s[1..], d);
      assert Distinct(s) ==> Distinct(s[1..]) && s[0] !in s[1..] by {
        if Distinct(s) { DistinctTail(s); }
      }
      if s[0] == d then rest
      else
        assert Distinct(s) ==> Distinct([s[0]] + rest) by {
          if Distinct(s) {
            forall i, j | 0 <= i < j < |[s[0]] + rest| ensures ([s[0]] + rest)[i] != ([s[0]] + rest)[j] {
              assert ([s[0]] + rest)[j] == rest[j - 1] && rest[j - 1] in rest;
            }
          }
        }
        [s[0]] + rest
  }

  /** What `hideLinterMessages(name)` (clear) or `showLinterMessages(name)`
      (restore) emits: one update for the first delegate named `name`,
      carrying no messages or that delegate's current messages, and nothing
      when no live delegate has that name. */
  function SyntheticFor(ds: seq<IndieDelegate>, name: string, clear: bool): seq<Event>
    reads ds
  {
    match FirstNamed(ds, name)
    case None => []
    case Some(d) => [DidUpdate(d, if clear then [] else d.messages)]
  }

  /** The updates emitted by `names.forEach(hideLinterMessages)` (clear) or
      `names.forEach(showLinterMessages)` (restore), in order: at most one
      per name. */
  function Synthetic(ds: seq<IndieDelegate>, names: seq<string>, clear: bool): (r: seq<Event>)
    reads ds
    ensures |r| <= |names|
    decreases |names|
  {
    if names == [] then []
    else Synthetic(ds, names[..|names| - 1], clear) + SyntheticFor(ds, names[|names| - 1], clear)
  }

  /** Every synthetic update clears, or restores the current messages of,
      the first live delegate carrying one of the given names. */
  lemma {:induction false} SyntheticSound(ds: seq<IndieDelegate>, names: seq<string>, clear: bool)
    ensures forall e :: e in Synthetic(ds, names, clear) ==>
      e.DidUpdate? && e.linter.name in names && FirstNamed(ds, e.linter.name) == Some(e.linter) &&
      e.linter in ds && e.messages == (if clear then [] else e.linter.messages)
    decreases |names|
  {
    if names != [] {
      var init := names[..|names| - 1];
      assert names == init + [names[|names| - 1]];
      SyntheticSound(ds, init, clear);
    }
  }

  /** Every given name that a live delegate carries gets its update, for the
      first such delegate. */
  lemma {:induction false} SyntheticComplete(ds: seq<IndieDelegate>, names: seq<string>, clear: bool)
    ensures forall n :: n in names && FirstNamed(ds, n).Some? ==>
      DidUpdate(FirstNamed(ds, n).value, if clear then [] else FirstNamed(ds, n).value.messages)
        in Synthetic(ds, names, clear)
    decreases |names|
  {
    if names != [] {
      var init := names[..|names| - 1];
      assert names == init + [names[|names| - 1]];
      SyntheticComplete(ds, init, clear);
    }
  }

  /** Emitting for one more name appends what that name alone emits. */
  lemma SyntheticSnoc(ds: seq<IndieDelegate>, names: seq<string>, i: nat, clear: bool)
    requires i < |names|
    ensures Synthetic(ds, names[..i + 1], clear) == Synthetic(ds, names[..i], clear) + SyntheticFor(ds, names[i], clear)
  {
    assert names[..i + 1][..i] == names[..i];
  }

  /** Names that no live delegate carries produce no synthetic update. */
  lemma {:induction false} SyntheticSilentWithoutMatch(ds: seq<IndieDelegate>, names: seq<string>, clear: bool)
    requires forall n :: n in names ==> FirstNamed(ds, n).None?
    ensures Synthetic(ds, names, clear) == []
    decreases |names|
  {
    if names != [] {
      var init := names[..|names| - 1];
      assert names[|names| - 1] in names;
      assert forall n :: n in init ==> n in names;
      SyntheticSilentWithoutMatch(ds, init, clear);
    }
  }

  // ---------------------------------------------------------------------
  // Properties of the suppression diff
  // ---------------------------------------------------------------------

  /** The stored list after `updateDisabledProviders(names)` keeps the order
      of `names`: it is a subsequence of it. */
  lemma {:induction false} StoredIsSubsequence(names: seq<string>, disabled: seq<string>)
    ensures IsSubsequence(Without(names, disabled), names)
  {
    if names != [] {
      StoredIsSubsequence(names[1..], disabled);
      var w := Without(names, disabled);
      var tail := Without(names[1..], disabled);
      if names[0] in disabled {
        assert w == tail;
      } else {
        assert w == [names[0]] + tail;
        assert w[0] == names[0] && w[1..] == tail;
      }
    }
  }

  /** When every requested name was already suppressed, the stored list
      becomes empty. */
  lemma {:induction false} AlreadyDisabledEmptiesList(names: seq<string>, disabled: seq<string>)
    requires forall n :: n in names ==> n in disabled
    ensures Without(names, disabled) == []
  {
    if names != [] {
      assert names[0] in names;
      AlreadyDisabledEmptiesList(names[1..], disabled);
    }
  }

  /** Applying the same list twice (line 74 stores only the newly disabled
      names): the second call stores none of the names the first call
      newly suppressed, so they are no longer suppressed, and it emits no
      restore update because its newly-enabled list is empty. */
  lemma ReapplyingLiftsSuppression(names: seq<string>, disabled: seq<string>)
    ensures forall n :: n in names && n !in disabled ==> n !in Without(names, Without(names, disabled))
    ensures Without(Without(names, disabled), names) == []
  {
    AlreadyDisabledEmptiesList(Without(names, disabled), names);
  }

  /** Removing a live delegate from a duplicate-free sequence takes out that
      one entry and keeps every other one in place. */
  lemma {:induction false} RemoveAt<T>(s: seq<T>, k: nat)
    requires Distinct(s) && k < |s|
    ensures Remove(s, s[k]) == s[..k] + s[k + 1..]
  {
    DistinctTail(s);
    if k > 0 {
      assert s[1..][k - 1] == s[k];
      assert s[0] != s[k];
      RemoveAt(s[1..], k - 1);
      assert s[1..][..k - 1] + s[1..][k..] == s[1..k] + s[k + 1..];
      assert s[..k] + s[k + 1..] == [s[0]] + (s[1..k] + s[k + 1..]);
    }
  }

  // ---------------------------------------------------------------------
  // The registry
  // ---------------------------------------------------------------------

  class IndieRegistry {
    /** `validateIndie` from lib/validate.js, supplied by the caller. */
    const isValidIndie: Indie -> bool
    /** The live delegate set, in insertion order. */
    var delegates: seq<IndieDelegate>
    var disabledProviders: seq<string>
    /** Everything emitted on the emitter so far. */
    var events: seq<Event>
    /** Whether `subscriptions.dispose()` has run. */
    var subscriptionsDisposed: bool
    /** Delegates whose destroy and update handlers `register` installed. */
    ghost var wired: set<IndieDelegate>
    /** The delegates `dispose` has called `dispose` on, in call order. */
    ghost var disposals: seq<IndieDelegate>

    ghost predicate Valid()
      reads this
    {
      Distinct(delegates) &&
      (forall d :: d in delegates ==> d in wired)
    }

    /** A registry with no delegates and nothing suppressed. The
        configuration subscription is left to the caller, who passes each
        new suppressed-name list to `UpdateDisabledProviders`. */
    constructor (validate: Indie -> bool)
      ensures Valid()
      ensures isValidIndie == validate
      ensures delegates == [] && disabledProviders == [] && events == []
      ensures !subscriptionsDisposed && wired == {} && disposals == []
    {
      isValidIndie := validate;
      delegates := [];
      disabledProviders := [];
      events := [];
      subscriptionsDisposed := false;
      wired := {};
      disposals := [];
    }

    /** `register(config, version)`: an invalid configuration is rejected
        with nothing changed; a valid one yields a fresh delegate, appended
        to the live set and announced by exactly one `Observe` event. */
    method Register(config: Indie) returns (r: Registration)
      requires Valid()
      modifies this`delegates, this`events, this`wired
      ensures Valid()
      ensures disabledProviders == old(disabledProviders)
      ensures !isValidIndie(config) ==>
        r == Rejected(RegisterError) &&
        delegates == old(delegates) && events == old(events) && wired == old(wired)
      ensures isValidIndie(config) ==>
        r.Registered? && fresh(r.linter) &&
        r.linter.name == config.name && r.linter.messages == [] &&
        delegates == old(delegates) + [r.linter] &&
        events == old(events) + [Event.Observe(r.linter)] &&
        wired == old(wired) + {r.linter}
    {
      if !isValidIndie(config) {
        return Rejected(RegisterError);
      }
      var indieLinter := new IndieDelegate(config);
      delegates := delegates + [indieLinter];
      wired := wired + {indieLinter};
      events := events + [Event.Observe(indieLinter)];
      r := Registered(indieLinter);
    }

    /** The destroy handler `register` installs for `linter`: it deletes
        that delegate, by identity, and emits nothing. */
    method OnDidDestroy(linter: IndieDelegate)
      requires Valid() && linter in wired
      modifies this`delegates
      ensures Valid()
      ensures delegates == Remove(old(delegates), linter)
      ensures linter !in delegates
      ensures |delegates| == if linter in old(delegates) then |old(delegates)| - 1 else |old(delegates)|
    {
      delegates := Remove(delegates, linter);
    }

    /** The update handler `register` installs for `linter`: updates of a
        suppressed name are dropped, all others are relayed unchanged. */
    method RelayUpdate(linter: IndieDelegate, messages: seq<Message>)
      requires Valid() && linter in wired
      modifies this`events
      ensures Valid()
      ensures linter.name in disabledProviders ==> events == old(events)
      ensures linter.name !in disabledProviders ==> events == old(events) + [DidUpdate(linter, messages)]
    {
      if linter.name in disabledProviders {
        return;
      }
      events := events + [DidUpdate(linter, messages)];
    }

    /** `hideLinterMessages`: clear the first delegate named `targetName`. */
    method HideLinterMessages(targetName: string)
      modifies this`events
      ensures events == old(events) + SyntheticFor(delegates, targetName, true)
    {
      var indieLinter := FirstNamed(delegates, targetName);
      if indieLinter.Some? {
        events := events + [DidUpdate(indieLinter.value, [])];
      }
    }

    /** `showLinterMessages`: restore the current messages of the first
        delegate named `targetName`. */
    method ShowLinterMessages(targetName: string)
      modifies this`events
      ensures events == old(events) + SyntheticFor(delegates, targetName, false)
    {
      var indieLinter := FirstNamed(delegates, targetName);
      if indieLinter.Some? {
        var messages := indieLinter.value.GetMessages();
        events := events + [DidUpdate(indieLinter.value, messages)];
      }
    }

    /** `updateDisabledProviders(names)`, as written: the stored list becomes
        the newly disabled names only; clears for those come first, then
        restores for the names no longer listed. */
    method UpdateDisabledProviders(disabledProviderNames: seq<string>)
      requires Valid()
      modifies this`disabledProviders, this`events
      ensures Valid()
      ensures disabledProviders == Without(disabledProviderNames, old(disabledProviders))
      ensures events == old(events)
        + Synthetic(delegates, Without(disabledProviderNames, old(disabledProviders)), true)
        + Synthetic(delegates, Without(old(disabledProviders), disabledProviderNames), false)
    {
      var newlyDisabledNames := Without(disabledProviderNames, disabledProviders);
      var newlyEnabledNames := Without(disabledProviders, disabledProviderNames);

      disabledProviders := newlyDisabledNames;

      HideAll(newlyDisabledNames);
      ShowAll(newlyEnabledNames);
    }

    /** `names.forEach(hideLinterMessages)`. */
    method HideAll(names: seq<string>)
      modifies this`events
      ensures events == old(events) + Synthetic(delegates, names, true)
    {
      ghost var start := events;
      ghost var ds := delegates;
      var i := 0;
      while i < |names|
        invariant 0 <= i <= |names|
        invariant delegates == ds
        invariant events == start + Synthetic(ds, names[..i], true)
      {
        HideLinterMessages(names[i]);
        SyntheticSnoc(ds, names, i, true);
        i := i + 1;
      }
      assert names[..i] == names;
    }

    /** `names.forEach(showLinterMessages)`. */
    method ShowAll(names: seq<string>)
      modifies this`events
      ensures events == old(events) + Synthetic(delegates, names, false)
    {
      ghost var start := events;
      ghost var ds := delegates;
      var i := 0;
      while i < |names|
        invariant 0 <= i <= |names|
        invariant delegates == ds
        invariant events == start + Synthetic(ds, names[..i], false)
      {
        ShowLinterMessages(names[i]);
        SyntheticSnoc(ds, names, i, false);
        i := i + 1;
      }
      assert names[..i] == names;
    }

    /** `getProviders()`: the live delegates in insertion order. */
    method GetProviders() returns (providers: seq<IndieDelegate>)
      requires Valid()
      ensures providers == delegates && Distinct(providers)
    {
      providers := delegates;
    }

    /** `observe(callback)`: the callback is first replayed once per live
        delegate, in insertion order; from `cursor` on it receives every
        `Observe` event of the log. */
    method Observe() returns (replayed: seq<IndieDelegate>, cursor: nat)
      requires Valid()
      ensures replayed == delegates && Distinct(replayed) && cursor == |events|
    {
      replayed := [];
      var i := 0;
      while i < |delegates|
        invariant 0 <= i <= |delegates|
        invariant replayed == delegates[..i]
      {
        replayed := replayed + [delegates[i]];
        i := i + 1;
      }
      cursor := |events|;
    }

    /** `dispose()`: each delegate live at the start is disposed once, in
        insertion order, then the subscriptions are released. */
    method Dispose()
      requires Valid()
      modifies this`subscriptionsDisposed, this`disposals, delegates`disposeCalls
      ensures Valid()
      ensures subscriptionsDisposed
      ensures disposals == old(disposals) + delegates
      ensures forall d :: d in delegates ==> d.disposeCalls == old(d.disposeCalls) + 1
    {
      var i := 0;
      while i < |delegates|
        invariant 0 <= i <= |delegates|
        invariant disposals == old(disposals) + delegates[..i]
        invariant forall j :: 0 <= j < |delegates| ==>
          delegates[j].disposeCalls == old(delegates[j].disposeCalls) + (if j < i then 1 else 0)
      {
        var entry := delegates[i];
        entry.Dispose();
        disposals := disposals + [entry];
        i := i + 1;
      }
      subscriptionsDisposed := true;
    }
  }
}
