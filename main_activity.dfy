/**
 * The lifecycle of the main activity as far as its destroy listeners and the manager gate
 * go: `onCreate` registers the theme observer, records how to unregister it, and installs
 * the manager's files only when becoming the manager succeeds; `onDestroy` invokes the
 * listeners held in the activity's field.
 */
module MainActivity {

  /** The only listener the activity creates: unregister the theme `ContentObserver`. */
  datatype Listener = UnregisterObserverListener

  /** The calls out of the activity that the model keeps, in the order they are made. */
  datatype Effect =
    | RegisterThemeObserver
    | UnregisterThemeObserver
    | InstallManagerFiles
    | TryInstallUltraTool
    | SetContent

  /** What one run of onCreate adds to the effects, given `becomeManager`'s result. */
  function CreateEffects(isManager: bool): seq<Effect> {
    [RegisterThemeObserver]
    + (if isManager then [InstallManagerFiles, TryInstallUltraTool] else [])
    + [SetContent]
  }

  /** What invoking these listeners in order adds to the effects. */
  function ListenerEffects(listeners: seq<Listener>): (r: seq<Effect>)
    ensures |r| == |listeners|
    ensures forall k :: 0 <= k < |r| ==> r[k] == UnregisterThemeObserver
  {
    if listeners == [] then [] else ListenerEffects(listeners[..|listeners| - 1]) + [UnregisterThemeObserver]
  }

  class Activity {
    /** The field `destroyListeners`. */
    var destroyListeners: seq<Listener>
    /** Whether the theme observer is registered with the content resolver. */
    var observerRegistered: bool
    var effects: seq<Effect>

    constructor ()
      ensures destroyListeners == [] && !observerRegistered && effects == []
    {
      destroyListeners := [];
      observerRegistered := false;
      effects := [];
    }

    method RegisterObserver()
      modifies this`observerRegistered, this`effects
      ensures observerRegistered && effects == old(effects) + [RegisterThemeObserver]
    {
      observerRegistered := true;
      effects := effects + [RegisterThemeObserver];
    }

    /** The manager gate: install the manager's files only for the manager. */
    method InstallIfManager(isManager: bool)
      modifies this`effects
      ensures effects == old(effects) + if isManager then [InstallManagerFiles, TryInstallUltraTool] else []
    {
      if isManager {
        effects := effects + [InstallManagerFiles];
        effects := effects + [TryInstallUltraTool];
      }
    }

    /**
     * `onCreate` as written: the unregister listener goes into a local list that shadows
     * the field, so the field is left as it was. `isManager` is `becomeManager`'s result.
     */
    method OnCreate(isManager: bool)
      modifies this`observerRegistered, this`effects
      ensures observerRegistered
      ensures effects == old(effects) + CreateEffects(isManager)
    {
      RegisterObserver();
      var destroyListeners: seq<Listener> := [];
      destroyListeners := destroyListeners + [UnregisterObserverListener];
      InstallIfManager(isManager);
      effects := effects + [SetContent];
    }

    /** `onCreate` with the listener added to the field, as its later use in `onDestroy` needs. */
    method OnCreateRegisteringListener(isManager: bool)
      modifies this`destroyListeners, this`observerRegistered, this`effects
      ensures observerRegistered
      ensures destroyListeners == old(destroyListeners) + [UnregisterObserverListener]
      ensures effects == old(effects) + CreateEffects(isManager)
    {
      RegisterObserver();
      destroyListeners := destroyListeners + [UnregisterObserverListener];
      InstallIfManager(isManager);
      effects := effects + [SetContent];
    }

    method Invoke(listener: Listener)
      modifies this`observerRegistered, this`effects
      ensures !observerRegistered && effects == old(effects) + [UnregisterThemeObserver]
    {
      match listener
      case UnregisterObserverListener =>
        observerRegistered := false;
        effects := effects + [UnregisterThemeObserver];
    }

    /** `onDestroy`: every listener of the field, in order; the observer stays registered if there is none. */
    method OnDestroy()
      modifies this`observerRegistered, this`effects
      ensures effects == old(effects) + ListenerEffects(destroyListeners)
      ensures observerRegistered <==> old(observerRegistered) && destroyListeners == []
    {
      var i := 0;
      while i < |destroyListeners|
        invariant 0 <= i <= |destroyListeners|
        invariant effects == old(effects) + ListenerEffects(destroyListeners[..i])
        invariant observerRegistered <==> old(observerRegistered) && i == 0
      {
        assert destroyListeners[..i + 1][..i] == destroyListeners[..i];
        Invoke(destroyListeners[i]);
        i := i + 1;
      }
      assert destroyListeners[..i] == destroyListeners;
    }
  }

  /**
   * A fresh activity created and destroyed as written: the observer is still registered
   * afterwards and was never unregistered.
   */
  method CreateThenDestroy(isManager: bool) returns (stillRegistered: bool, unregistered: bool)
    ensures stillRegistered && !unregistered
  {
    var a := new Activity();
    a.OnCreate(isManager);
    a.OnDestroy();
    stillRegistered := a.observerRegistered;
    unregistered := UnregisterThemeObserver in a.effects;
    assert a.effects == CreateEffects(isManager);
  }

  /** The same with the listener kept in the field: destroying unregisters the observer, once. */
  method CreateThenDestroyRegisteringListener(isManager: bool) returns (stillRegistered: bool, unregistered: bool)
    ensures !stillRegistered && unregistered
  {
    var a := new Activity();
    a.OnCreateRegisteringListener(isManager);
    a.OnDestroy();
    stillRegistered := a.observerRegistered;
    unregistered := UnregisterThemeObserver in a.effects;
    assert a.effects == CreateEffects(isManager) + [UnregisterThemeObserver];
  }

  /** Becoming the manager is what decides whether the manager's files are installed. */
  lemma InstallOnlyForManager(isManager: bool)
    ensures InstallManagerFiles in CreateEffects(isManager) <==> isManager
    ensures TryInstallUltraTool in CreateEffects(isManager) <==> isManager
    ensures CreateEffects(isManager)[0] == RegisterThemeObserver
    ensures CreateEffects(isManager)[|CreateEffects(isManager)| - 1] == SetContent
  {
  }
}
