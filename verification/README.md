# hawtio-core decision logic in Dafny

This project models the two pieces of decision logic in the hawtio console's
bootstrap layer and proves properties about them.

- **The tab strip controller** of the navigation component (`HawtioTabs`,
  `tabs.dfy`). A change of the bound inputs does two things. It raises the
  `adjustingTabs` flag and defers a measurement. It also resolves the active
  tab: the explicit input first, then the tab whose path is the current
  location, then the first tab. The deferred measurement walks the rendered tab
  widths left to right with a running total. It marks tab *i* visible exactly
  while that total is below the strip width less the "More" dropdown's width.
  `visibleTabs` and `moreTabs` filter the list on that flag. A click makes a
  tab active and fires the change notification.
- **The bootstrap-once sequencer** (`HawtioBootstrap`, `bootstrap.dfy`). This
  is the completion callback of the plugin loader. If the `injector` getter or
  the upgrade-adapter reference already yields something, the callback does
  nothing. Otherwise it bootstraps exactly once. With an upgrade adapter present
  it takes the hybrid path and keeps the adapter reference and the injector
  inside it. Without one it takes the direct path and keeps the injector the
  framework returns.
- **Three smaller pieces of the same core file.** The first is the in-memory
  local-storage stand-in (`DummyStorage`, `storage.dfy`). The other two are the
  `documentBase` fallback to `'/'` and the browser-flag derivation
  (`HawtioEnvironment`, `environment.dfy`).

Each handler is a pure function over an immutable record. Effects the source
has on its collaborators are returned explicitly:

- the deferred measurement;
- location writes;
- change notifications;
- a trace of calls into the framework's bootstrap entry points.

Modelling choices:

- Object identity (`===`) is a `ref` field of `Tab`. The source's `label`
  field is called `title`, because `label` is a reserved word in Dafny.
- A tab's `visible` is `Option<bool>`. Lodash's `_.filter` with
  `{visible: true}` or `{visible: false}` drops tabs that were never measured.
  So the two derived lists partition the tabs only once every tab has been
  measured.
- The `$timeout` deferral becomes two steps, `BeginAdjust` and
  `FinishAdjust`. The DOM measurements become parameters: the widths of the
  rendered tabs in order, the strip's width and the dropdown's width. More
  widths than tabs would make the source throw a TypeError on
  `this.tabs[i].visible`. `FinishAdjust` models that as `Threw`: the tabs it
  reached are updated and `adjustingTabs` stays raised.
- `$onChanges` runs after the framework has assigned the changed one-way
  bindings. `ApplyBindings` models that assignment. `OnChanges` models the
  handler's body, which reads the changes object.
- The framework's `angular.bootstrap` and `UpgradeAdapter.bootstrap` are
  opaque functions in a `Framework` record. `angular.bootstrap` may yield no
  handle. The hybrid entry point always returns a reference object, and the
  adapter it returns may have been updated. The plugin loader's bootstrap
  element and module list are inputs (`Loaded`).

Two points of the code are easy to misread:

- An explicit active tab is looked up by identity in the tab list
  (`hawtio-tabs.component.ts:26`). If it is not in the list, the active tab
  becomes undefined; it is not adopted as given.
- The hybrid path sets both `UpgradeAdapterRef` and `_injector`
  (`hawtio-core.ts:167-171`). While an adapter exists, though, the `injector`
  getter reads the adapter's own `ng1Injector` and never `_injector`
  (`hawtio-core.ts:23-24`).

## Model

| member | source | states |
|---|---|---|
| HawtioTabs.Flags | src/app/navigation/hawtio-tabs/hawtio-tabs.component.ts:48-54 | The running-total loop marks tab i visible iff the widths of tabs 0..i add up to less than the available width. |
| HawtioTabs.BeginAdjust | src/app/navigation/hawtio-tabs/hawtio-tabs.component.ts:39-43 | Starting an adjustment raises `adjustingTabs`, changes nothing else and schedules exactly one deferred measurement. |
| HawtioTabs.FinishAdjust | src/app/navigation/hawtio-tabs/hawtio-tabs.component.ts:43-57 | Each measured tab i gets `visible` = (prefix sum of widths 0..i < strip width − dropdown width). Only `visible` changes; titles, paths, identities, order and unmeasured tabs stay as they were. `adjustingTabs` drops to false when the measurement completes. When there are more widths than tabs it throws and the flag stays up. |
| HawtioTabs.MeasuredVisibleIsPrefix | src/app/navigation/hawtio-tabs/hawtio-tabs.component.ts:51-54 | With non-negative widths, once a measured tab is marked invisible, every later measured tab is invisible too. |
| HawtioTabs.FilterMembers | src/app/navigation/hawtio-tabs/hawtio-tabs.component.ts:60-66 | A tab is in the filtered list iff it is in the tab list and its `visible` is defined and equal to the flag. |
| HawtioTabs.FilterIsOrderedSelection | src/app/navigation/hawtio-tabs/hawtio-tabs.component.ts:60-66 | The filtered list is the tabs at exactly the flagged indices, in increasing index order: an order-preserving subsequence. |
| HawtioTabs.VisibleAndMorePartition | src/app/navigation/hawtio-tabs/hawtio-tabs.component.ts:60-66 | Once every tab is measured, `visibleTabs` and `moreTabs` together hold every tab exactly as often as the list does (multiset equality). |
| HawtioTabs.ControllerQueries | src/app/navigation/hawtio-tabs/hawtio-tabs.component.ts:60-66 | No tab value (same identity, title, path and `visible`) is in both `visibleTabs` and `moreTabs`. An undefined tab list yields two empty lists. With every tab measured, the two lengths add up to the number of tabs. |
| HawtioTabs.PrefixShapedSplit | src/app/navigation/hawtio-tabs/hawtio-tabs.component.ts:60-66 | Take a list where every tab is measured and, after the first overflowing tab, all tabs overflow. Then `visibleTabs` is a prefix of the list and `moreTabs` is exactly the remaining suffix. |
| HawtioTabs.FullMeasurementSplitsTabs | src/app/navigation/hawtio-tabs/hawtio-tabs.component.ts:43-66 | Take a measurement that covers every tab, with non-negative widths. Afterwards the strip shows a prefix of the tabs in order, and the "More" menu shows exactly the rest. |
| HawtioTabs.NoObjectInBothLists | src/app/navigation/hawtio-tabs/hawtio-tabs.component.ts:60-66 | On a list of distinct tab objects, no object appears both in `visibleTabs` and in `moreTabs`. |
| HawtioTabs.MeasuredListsShareNoObject | src/app/navigation/hawtio-tabs/hawtio-tabs.component.ts:43-66 | The measurement keeps every entry's identity. After measuring a list of distinct objects, no object is both in the strip and in the "More" menu. |
| HawtioTabs.FindIndex | src/app/navigation/hawtio-tabs/hawtio-tabs.component.ts:26-28 | The lookup finds the first tab satisfying the predicate, or reports that no tab satisfies it. |
| HawtioTabs.ActivateTab | src/app/navigation/hawtio-tabs/hawtio-tabs.component.ts:24-37 | Explicit tab: the result is the first tab identical to it, or undefined if none is, and there is no location write. Otherwise: the first tab whose path is the location, written back to the location. Failing that: the first tab, with its path written. With no tabs: the active tab is unchanged and nothing is written. |
| HawtioTabs.ApplyBindings | src/app/navigation/hawtio-tabs/hawtio-tabs.component.ts:76-79 | Each changed one-way input takes its current value. Unchanged inputs and the adjusting flag are left alone. |
| HawtioTabs.OnChanges | src/app/navigation/hawtio-tabs/hawtio-tabs.component.ts:17-22 | With undefined tabs nothing changes and nothing happens. Otherwise the measurement is scheduled first, then the resolved active tab is stored and its location write, if any, follows. |
| HawtioTabs.OnClick | src/app/navigation/hawtio-tabs/hawtio-tabs.component.ts:68-71 | A click makes the tab active, touches nothing else and emits exactly one change notification carrying that tab. |
| HawtioTabs.AdjustCycle | src/app/navigation/hawtio-tabs/hawtio-tabs.component.ts:17-57 | Across a change and its measurement, `adjustingTabs` goes true then false. The active tab chosen by the change survives the measurement, and tab identities and paths keep their order. |
| HawtioBootstrap.InjectorOf | src/app/core/hawtio-core.ts:21-27 | The getter yields the adapter's injector whenever an upgrade adapter exists, and the stored `_injector` otherwise. |
| HawtioBootstrap.OnPluginsLoaded | src/app/core/hawtio-core.ts:155-180 | If already bootstrapped, the state is returned unchanged. Otherwise exactly one bootstrap call is appended, with the loader's element, its modules and strict DI. Hybrid path: the reference and the adapter are kept and `_injector` is the reference's injector. Direct path: `_injector` is the framework's result and the adapter fields are untouched. |
| HawtioBootstrap.BootstrapEstablishesGuard | src/app/core/hawtio-core.ts:156-177 | After a bootstrap that yields a handle, the guard holds. On the direct path the getter then returns the framework's injector. On the hybrid path it returns the `ng1Injector` of the adapter the framework handed back. |
| HawtioBootstrap.HybridGetterIgnoresStoredInjector | src/app/core/hawtio-core.ts:167-171 | Suppose that after a hybrid bootstrap the reference carries an injector but the adapter does not. Then `_injector` is set, yet the getter yields nothing. |
| HawtioBootstrap.StaysBootstrapped | src/app/core/hawtio-core.ts:156-159 | Once bootstrapped, any number of further callbacks leave the state, including the call trace, unchanged. |
| HawtioBootstrap.BootstrapOnce | src/app/core/hawtio-core.ts:155-180 | Take a state that is not bootstrapped and a bootstrap that yields a handle. Any non-empty run of callbacks then makes exactly one bootstrap call in total, and the first callback does all the work. |
| HawtioBootstrap.StartUpBootstrapsOnce | src/app/core/hawtio-core.ts:149-180 | Start with no adapter, or an adapter whose injector is unset, and a bootstrap that yields a handle. Any non-empty run of callbacks then makes exactly one bootstrap call, hybrid exactly when an adapter exists. |
| HawtioBootstrap.PresetAdapterNeverBootstraps | src/app/core/hawtio-core.ts:149-159 | An adapter whose injector is already set at start-up passes the guard, so no callback ever bootstraps. |
| HawtioBootstrap.NullHandleBootstrapsAgain | src/app/core/hawtio-core.ts:172-177 | A direct bootstrap that yields no handle leaves the guard open, so two callbacks make two bootstrap calls. The non-null proviso of `BootstrapOnce` is needed. |
| DummyStorage.GetItem | src/app/core/hawtio-core.ts:43 | Reading a key yields its item when one is stored, and undefined otherwise. |
| DummyStorage.SetItem | src/app/core/hawtio-core.ts:44 | After storing v under k, reading k gives v. Every other key reads as before. |
| DummyStorage.RemoveItem | src/app/core/hawtio-core.ts:45-49 | Removing k returns its previous item (or undefined), and k then reads as undefined. Every other key reads as before. |
| DummyStorage.LastWriteWins | src/app/core/hawtio-core.ts:40-51 | Start from an empty store and apply any history of set/remove/clear calls. Reading a key then gives the value of the latest call naming it; `clear` has no effect. |
| DummyStorage.InertMembers | src/app/core/hawtio-core.ts:40-51 | Whatever is stored, `length` is 0, `key(i)` is undefined and `clear` leaves the store unchanged. |
| HawtioEnvironment.DocumentBase | src/app/core/hawtio-core.ts:54-63 | With a base element, its `href` is returned without a warning. Without one, `'/'` is returned and one missing-base warning is logged. The result is undefined only when the first base element has no `href`. |
| HawtioEnvironment.DeriveFlags | src/app/core/hawtio-core.ts:132-146 | An empty match yields an empty object. A non-empty match sets the browser's flag and `version`. `chrome` implies `webkit`, and `webkit` without `chrome` implies `safari`. `webkit` is set iff the browser is chrome or webkit; `safari` is set iff it is webkit or safari. No other key is set. |
| HawtioEnvironment.BrowserFlags | src/app/core/hawtio-core.ts:129-147 | An existing flags object is never overwritten. Otherwise the derived flags are installed. |

## Left out

- DOM measurement (`$document.find`, `.width()`, `clientWidth`): the widths are parameters. `FinishAdjust` takes them as integers; fractional widths that jQuery can report are not modelled.
- The `$timeout` render-flush deferral: modelled only as the two steps `BeginAdjust` and `FinishAdjust`. Interleavings of several pending measurements are not modelled.
- The tab class file `hawtio-tab.ts` is not part of this model. A tab's initial `visible` value is whatever the caller supplies.
- The active tab is stored as a value, so its `visible` field is a snapshot. Only identity (`ref`) and path matter for the active tab, and both are stable.
- HawtioTabs.FinishAdjust: a list holding the same tab object twice is not modelled faithfully. The model gives each entry its own `visible`, whereas the source writes to the one object and the last write wins. The identity lemmas therefore require `DistinctObjects`; the template's `track by tab.path` rejects such lists anyway.
- The component's template and CSS classes: they are rendering only.
- The plugin loader (`plugin-loader.ts`) is not part of this model. Its discovery, pending counter and join behaviour are not modelled; its bootstrap element and module list are inputs.
- `angular.bootstrap`, `UpgradeAdapter.bootstrap` and the probe for the hybrid runtime (`window['ng']`): foreign framework calls, modelled as opaque functions and an optional adapter in the initial state (`HawtioBootstrap.Initial`).
- HawtioBootstrap.BootstrapEstablishesGuard: whether the hybrid framework makes its adapter's `ng1Injector` agree with the reference's is outside the model. On the hybrid path the getter's value is the adapter's injector, which may differ from the stored `_injector` (`HybridGetterIgnoresStoredInjector`).
- Debug and warning logging in the bootstrap callback: no behaviour depends on it.
- The `uaMatch` regular expressions and their `|| ""` / `|| "0"` defaults: the match result is an input.
- The Angular module config and run blocks, and the `localStorage`, `viewRegistry`, `pageTitle`, `toastr` and `HawtioDashboard` service factories: inert glue with no decision logic.
- DummyStorage.GetItem: the items share the storage object with its methods and inherited members. Keys naming those members (`getItem`, `toString`, …) are excluded by `PlainKey` instead of being modelled.
- DummyStorage.SetItem: the value of the assignment expression that `setItem` returns is not modelled.
