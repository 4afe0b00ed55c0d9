/**
 * The bootstrap-once sequencer: the callback the plugin loader runs when
 * loading completes, which bootstraps the application exactly once, either
 * directly or through the hybrid upgrade adapter, and the `injector` getter
 * through which the rest of the console reads the result.
 *
 * The framework's bootstrap entry points are opaque functions handed in as
 * a `Framework` record; every call to them is appended to a trace kept in
 * the state, so that "no second bootstrap" can be stated.
 */
module HawtioBootstrap {
  import opened Wrappers

  /** Opaque handles produced by the framework. */
  datatype Injector = Injector(id: nat)
  datatype Element = Element(id: nat)

  /** The hybrid upgrade adapter, with the injector property the getter reads. */
  datatype Adapter = Adapter(id: nat, ng1Injector: Option<Injector>)

  /** What the hybrid bootstrap returns; it carries the first runtime's injector. */
  datatype AdapterRef = AdapterRef(id: nat, ng1Injector: Option<Injector>)

  datatype Mode = Direct | Hybrid

  /** One call into the framework: mode, root element, module list and the
      strict-dependency-injection option. */
  datatype BootCall = BootCall(mode: Mode, element: Element, modules: seq<string>, strictDi: bool)

  /** Every bootstrap call is made with strict dependency injection on. */
  const StrictDi: bool := true

  /** The core object's fields, plus the trace of bootstrap calls made so far. */
  datatype Core = Core(
    injector_: Option<Injector>,
    upgradeAdapter: Option<Adapter>,
    upgradeAdapterRef: Option<AdapterRef>,
    bootstraps: seq<BootCall>)

  /** What the plugin loader reports once loading completes. */
  datatype Loaded = Loaded(element: Element, modules: seq<string>)

  /** The framework's two bootstrap entry points. The direct one may yield no
      handle; the hybrid one always yields a reference object and may update
      the adapter it is called on. */
  datatype Framework = Framework(
    angularBootstrap: (Element, seq<string>) -> Option<Injector>,
    upgradeBootstrap: (Adapter, Element, seq<string>) -> (Adapter, AdapterRef))

  /** The state before anything was bootstrapped; `adapter` is the upgrade
      adapter created when the hybrid runtime is present. */
  function Initial(adapter: Option<Adapter>): Core {
    Core(None, adapter, None, [])
  }

  /** The `injector` getter: with an upgrade adapter the adapter's injector,
      otherwise the stored one. */
  function InjectorOf(s: Core): (r: Option<Injector>)
    ensures s.upgradeAdapter.Some? ==> r == s.upgradeAdapter.value.ng1Injector
    ensures s.upgradeAdapter.None? ==> r == s.injector_
  {
    match s.upgradeAdapter
    case Some(a) => a.ng1Injector
    case None => s.injector_
  }

  /** The guard of the completion callback. */
  predicate Bootstrapped(s: Core) {
    InjectorOf(s).Some? || s.upgradeAdapterRef.Some?
  }

  /** The plugin loader's completion callback. */
  function OnPluginsLoaded(s: Core, ld: Loaded, fw: Framework): (r: Core)
    // already bootstrapped: nothing happens
    ensures Bootstrapped(s) ==> r == s
    // otherwise exactly one call is added to the trace
    ensures !Bootstrapped(s) ==>
      |r.bootstraps| == |s.bootstraps| + 1 && r.bootstraps[..|s.bootstraps|] == s.bootstraps
      && r.bootstraps[|s.bootstraps|].element == ld.element
      && r.bootstraps[|s.bootstraps|].modules == ld.modules
      && r.bootstraps[|s.bootstraps|].strictDi
    // hybrid path: through the adapter, keeping its reference and the injector inside it
    ensures !Bootstrapped(s) && s.upgradeAdapter.Some? ==>
      var (adapter, ref) := fw.upgradeBootstrap(s.upgradeAdapter.value, ld.element, ld.modules);
      && r.bootstraps[|s.bootstraps|].mode == Hybrid
      && r.upgradeAdapter == Some(adapter)
      && r.upgradeAdapterRef == Some(ref)
      && r.injector_ == ref.ng1Injector
    // direct path: the framework's injector is stored, nothing else changes
    ensures !Bootstrapped(s) && s.upgradeAdapter.None? ==>
      && r.bootstraps[|s.bootstraps|].mode == Direct
      && r.injector_ == fw.angularBootstrap(ld.element, ld.modules)
      && r.upgradeAdapter == s.upgradeAdapter
      && r.upgradeAdapterRef == s.upgradeAdapterRef
  {
    if Bootstrapped(s) then
      s
    else
      match s.upgradeAdapter
      case Some(a) =>
        var (adapter, ref) := fw.upgradeBootstrap(a, ld.element, ld.modules);
        s.(upgradeAdapter := Some(adapter),
           upgradeAdapterRef := Some(ref),
           injector_ := ref.ng1Injector,
           bootstraps := s.bootstraps + [BootCall(Hybrid, ld.element, ld.modules, StrictDi)])
      case None =>
        s.(injector_ := fw.angularBootstrap(ld.element, ld.modules),
           bootstraps := s.bootstraps + [BootCall(Direct, ld.element, ld.modules, StrictDi)])
  }

  /** The callback run once per completion report, in order. */
  function RunCallbacks(s: Core, reports: seq<Loaded>, fw: Framework): Core
    decreases |reports|
  {
    if |reports| == 0 then s
    else RunCallbacks(OnPluginsLoaded(s, reports[0], fw), reports[1..], fw)
  }

  /** After the callback on a fresh state, the application counts as
      bootstrapped unless the direct bootstrap yielded no handle. The getter
      then yields the framework's injector on the direct path, and on the
      hybrid path the injector of the adapter the framework handed back. */
  lemma BootstrapEstablishesGuard(s: Core, ld: Loaded, fw: Framework)
    requires !Bootstrapped(s)
    requires s.upgradeAdapter.Some? || fw.angularBootstrap(ld.element, ld.modules).Some?
    ensures Bootstrapped(OnPluginsLoaded(s, ld, fw))
    ensures s.upgradeAdapter.None? ==> InjectorOf(OnPluginsLoaded(s, ld, fw)) == fw.angularBootstrap(ld.element, ld.modules)
    ensures s.upgradeAdapter.Some? ==>
      InjectorOf(OnPluginsLoaded(s, ld, fw))
        == fw.upgradeBootstrap(s.upgradeAdapter.value, ld.element, ld.modules).0.ng1Injector
  {
  }

  /** On the hybrid path the getter never reads the `_injector` the callback
      stores: when the reference carries an injector but the adapter does
      not, the getter yields nothing although `_injector` is set. */
  lemma HybridGetterIgnoresStoredInjector(s: Core, ld: Loaded, fw: Framework)
    requires !Bootstrapped(s) && s.upgradeAdapter.Some?
    requires fw.upgradeBootstrap(s.upgradeAdapter.value, ld.element, ld.modules).0.ng1Injector.None?
    requires fw.upgradeBootstrap(s.upgradeAdapter.value, ld.element, ld.modules).1.ng1Injector.Some?
    ensures OnPluginsLoaded(s, ld, fw).injector_.Some?
    ensures InjectorOf(OnPluginsLoaded(s, ld, fw)).None?
  {
  }

  /** Once bootstrapped, any number of further callbacks change nothing. */
  lemma {:induction false} StaysBootstrapped(s: Core, reports: seq<Loaded>, fw: Framework)
    requires Bootstrapped(s)
    ensures RunCallbacks(s, reports, fw) == s
    decreases |reports|
  {
    if |reports| > 0 {
      StaysBootstrapped(OnPluginsLoaded(s, reports[0], fw), reports[1..], fw);
    }
  }

  /** Starting from a state that is not bootstrapped, any non-empty run of
      callbacks bootstraps exactly once, provided the bootstrap yields a
      handle: the first callback does all the work. */
  lemma {:induction false} BootstrapOnce(s: Core, reports: seq<Loaded>, fw: Framework)
    requires |reports| > 0 && !Bootstrapped(s)
    requires s.upgradeAdapter.Some? || fw.angularBootstrap(reports[0].element, reports[0].modules).Some?
    ensures RunCallbacks(s, reports, fw) == OnPluginsLoaded(s, reports[0], fw)
    ensures |RunCallbacks(s, reports, fw).bootstraps| == |s.bootstraps| + 1
  {
    var first := OnPluginsLoaded(s, reports[0], fw);
    BootstrapEstablishesGuard(s, reports[0], fw);
    StaysBootstrapped(first, reports[1..], fw);
  }

  /** From start-up, with no upgrade adapter or one whose injector is not
      yet set, any non-empty run of callbacks makes exactly one bootstrap
      call, provided the bootstrap yields a handle. */
  lemma StartUpBootstrapsOnce(adapter: Option<Adapter>, reports: seq<Loaded>, fw: Framework)
    requires |reports| > 0
    requires adapter.None? || adapter.value.ng1Injector.None?
    requires adapter.Some? || fw.angularBootstrap(reports[0].element, reports[0].modules).Some?
    ensures |RunCallbacks(Initial(adapter), reports, fw).bootstraps| == 1
    ensures RunCallbacks(Initial(adapter), reports, fw).bootstraps[0].mode == (if adapter.Some? then Hybrid else Direct)
  {
    BootstrapOnce(Initial(adapter), reports, fw);
  }

  /** An adapter whose injector is already set counts as bootstrapped at
      start-up, so the callback then never bootstraps. */
  lemma PresetAdapterNeverBootstraps(adapter: Adapter, reports: seq<Loaded>, fw: Framework)
    requires adapter.ng1Injector.Some?
    ensures RunCallbacks(Initial(Some(adapter)), reports, fw).bootstraps == []
  {
    StaysBootstrapped(Initial(Some(adapter)), reports, fw);
  }

  /** The proviso is needed: a direct bootstrap that yields no handle leaves
      the guard open, and the next callback bootstraps again. */
  lemma NullHandleBootstrapsAgain(s: Core, first: Loaded, second: Loaded, fw: Framework)
    requires !Bootstrapped(s) && s.upgradeAdapter.None?
    requires fw.angularBootstrap(first.element, first.modules).None?
    ensures |RunCallbacks(s, [first, second], fw).bootstraps| == |s.bootstraps| + 2
  {
    var once := OnPluginsLoaded(s, first, fw);
    assert !Bootstrapped(once);
    var twice := OnPluginsLoaded(once, second, fw);
    assert [first, second][1..] == [second];
    assert RunCallbacks(s, [first, second], fw) == RunCallbacks(once, [second], fw);
    assert [second][1..] == [];
    assert RunCallbacks(once, [second], fw) == RunCallbacks(twice, [], fw);
  }
}
