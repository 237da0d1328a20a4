# Indie linter registry, modelled in Dafny

This project models `IndieRegistry` (lib/indie-registry.js), the part of the
linter package that admits "indie" linters and republishes their messages.
The registry:

- keeps the live delegates in a `Set`, in insertion order and by identity;
- keeps the list of suppressed provider names, `disabledProviders`;
- emits `observe` (a new delegate) and `did-update` (a delegate and its
  messages) on its emitter.

The model is a class, `Registry.IndieRegistry`. Its fields are:

- `delegates`, a duplicate-free `seq<IndieDelegate>`;
- `disabledProviders`, a `seq<string>`;
- `events`, an append-only log of `Observe(d)` and `DidUpdate(d, msgs)`
  records that stands for everything emitted;
- `subscriptionsDisposed`, a flag for `subscriptions.dispose()`.

Ghost fields record which delegates had handlers installed (`wired`) and the
order in which `dispose` reached them (`disposals`).

The expression-level parts are pure functions:

- `Without` is the `filter`/`includes` diff. It computes both the
  newly-disabled and the newly-enabled lists.
- `FirstNamed` is the `find` over `[...this.delegates]`.
- `Remove` is `Set.prototype.delete`.
- `Synthetic` gives the updates that `hideLinterMessages` and
  `showLinterMessages` emit over a list of names.

The `forEach` and `for…of` loops are `while` loops with invariants.

The delegate (lib/indie-delegate.js, not part of this model) is a small
class, `IndieDelegates.IndieDelegate`. It has a constant name, a message
snapshot and a count of `dispose` calls. Validation (lib/validate.js, not
part of this model) is a function passed to the registry's constructor.

`scenarios.dfy` drives the registry as a client would. It shows four
things from the contracts alone:

- suppressing a live linter clears its messages, and lifting the
  suppression restores the messages it holds by then, including those
  whose update was dropped while it was suppressed;
- updates from a suppressed name are dropped;
- a name suppressed before its linter registers still mutes that linter;
- sending the same list twice lifts the suppression.

The model follows the code as written:

- Line 74 stores only the newly disabled names, not the whole new list. So
  a name that is sent again becomes un-suppressed, and no restore update
  is emitted (`ReapplyingLiftsSuppression`, `Scenarios.SameListTwice`).
- No version check is made on `register`.

## Model

| member | source | states |
|---|---|---|
| Registry.Without | lib/indie-registry.js:51-52 | a name is in the diff exactly when it is in the first list and not in the second (`!includes`) |
| Registry.WithoutCounts | lib/indie-registry.js:71-72 | the `filter` keeps each surviving name once per occurrence and drops every excluded one entirely |
| Registry.FirstNamed | lib/indie-registry.js:55-56 | `find` yields nothing exactly when no live delegate has the name; otherwise a live delegate with that name |
| Registry.FirstNamedIsFirst | lib/indie-registry.js:63-64 | the delegate `find` yields has no delegate with the same name before it in insertion order |
| Registry.Remove | lib/indie-registry.js:37 | deleting by identity removes exactly that delegate; a no-op when it is absent; the set stays duplicate-free and shrinks by one exactly when the delegate was there |
| Registry.RemoveAt | lib/indie-registry.js:36-38 | deleting the delegate at position k leaves every other delegate in its original order |
| Registry.Synthetic | lib/indie-registry.js:76-77 | a `forEach` over names emits at most one update per name |
| Registry.SyntheticSound | lib/indie-registry.js:54-69 | every synthetic update targets the first live delegate with one of the names; it carries no messages (hide) or that delegate's current messages (show) |
| Registry.SyntheticComplete | lib/indie-registry.js:54-69 | every name that a live delegate carries gets its update for the first such delegate |
| Registry.SyntheticSilentWithoutMatch | lib/indie-registry.js:57-68 | names that no live delegate carries emit nothing |
| Registry.StoredIsSubsequence | lib/indie-registry.js:71-74 | the stored suppressed list is a subsequence of the list passed in |
| Registry.AlreadyDisabledEmptiesList | lib/indie-registry.js:71-74 | when every name passed in was already suppressed, the stored list becomes empty |
| Registry.ReapplyingLiftsSuppression | lib/indie-registry.js:71-77 | a second call with the same list stores none of the names the first call newly suppressed, and its newly-enabled list is empty, so nothing is restored |
| Registry.IndieRegistry.constructor | lib/indie-registry.js:16-20 | a new registry has no delegates, nothing suppressed, nothing emitted and live subscriptions |
| Registry.IndieRegistry.Register | lib/indie-registry.js:30-49 | an invalid config yields the "Error registering Indie Linter" error and changes nothing; a valid one appends one fresh delegate with the config's name, emits exactly one `observe` for it and returns it, leaving the suppressed list alone |
| Registry.IndieRegistry.OnDidDestroy | lib/indie-registry.js:36-38 | the destroy handler deletes exactly that delegate, by identity, emits nothing, and is a no-op when the delegate is absent |
| Registry.IndieRegistry.RelayUpdate | lib/indie-registry.js:39-45 | an update from a suppressed name appends nothing; any other appends exactly one `did-update` with the messages unchanged |
| Registry.IndieRegistry.HideLinterMessages | lib/indie-registry.js:54-60 | emits an empty update for the first live delegate with the name, or nothing |
| Registry.IndieRegistry.ShowLinterMessages | lib/indie-registry.js:62-69 | emits that delegate's current messages for the first live delegate with the name, or nothing |
| Registry.IndieRegistry.UpdateDisabledProviders | lib/indie-registry.js:50-78 | the stored list becomes the newly disabled names; the log gains the hide updates for those, then the show updates for the newly enabled names; the delegates are unchanged |
| Registry.IndieRegistry.HideAll | lib/indie-registry.js:76 | the `forEach` appends the hide updates of all the names, in order |
| Registry.IndieRegistry.ShowAll | lib/indie-registry.js:77 | the `forEach` appends the show updates of all the names, in order |
| Registry.IndieRegistry.GetProviders | lib/indie-registry.js:79-81 | returns the live delegates in insertion order, without duplicates, and changes nothing |
| Registry.IndieRegistry.Observe | lib/indie-registry.js:82-85 | replays every live delegate once, in insertion order, changes nothing, and returns the log position from which new `observe` events reach the subscriber |
| Registry.IndieRegistry.Dispose | lib/indie-registry.js:89-94 | each delegate live at the start has `dispose` called exactly once, in insertion order, and nothing else about it changes; then the subscriptions are released |

## Left out

- The `atom.config.observe` subscription (lib/indie-registry.js:22-26) is host configuration I/O. Callers pass each new list to `UpdateDisabledProviders` directly. That includes the first call, which the subscription would make during construction.
- The internals of `Emitter` and `CompositeDisposable` are not modelled. Neither are subscriber callbacks or the `Disposable` handles that `observe` and `onDidUpdate` return. Emitting is appending to `events`, and `subscriptions.dispose()` sets a flag.
- `onDidUpdate` (lib/indie-registry.js:86-88) only subscribes on the emitter, so it has no member. A subscriber receives the `DidUpdate` records appended to `events` after it subscribed.
- Registry.IndieRegistry.Observe: the callback itself is foreign code. The replay is returned as the sequence of delegates the callback would receive.
- `validateIndie` (lib/validate.js) is not part of this model. It is the `isValidIndie` function given to the constructor.
- The `IndieDelegate` constructor (lib/indie-delegate.js) is not part of this model. The stub keeps only a name taken from the config, a message snapshot that starts empty, and a count of `dispose` calls.
- The `version` argument of `register` is passed to `IndieDelegate` and never checked in this file, so the model has no version check.
- Registry.IndieRegistry.Dispose: re-entrant destroy notifications are not modelled. A delegate's own `dispose` may fire its destroy handler, which deletes it from the set during the loop. That behaviour lives in the unseen delegate. The model disposes each delegate live when the loop starts, in order. A JS `Set` iteration also visits each of those entries, even when the current one is deleted.
- Behaviour after `dispose`, including a second `dispose`, is not modelled. It depends on the unseen delegate and emitter.
- Flow type annotations and the module import/export are not modelled.
