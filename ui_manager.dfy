/**
  The state flags of `vulkan/ui_window_manager.cpp`: `g_uiManagerEnabled`,
  `g_uiManagerInitialized` and the function-static `configRead` of
  `ui_manager_is_enabled`, as the fields of one object. The SDL/ImGui work is
  reduced to whether a UI backend was compiled in and whether the platform
  calls of `ui_manager_init` succeed.
 */
module UiManager {
  import opened Wrappers
  import opened UiConfig

  class UiWindowManager {
    /** `UI_WINDOWS_ENABLED_BY_DEFAULT`: whether `ENABLE_UI_WINDOWS` was defined. */
    const enabledByDefault: bool
    /** Whether `USE_SDL3_UI` or `USE_SDL2_UI` was defined. */
    const backendCompiled: bool
    /** `g_uiManagerEnabled` */
    var enabled: bool
    /** `g_uiManagerInitialized` */
    var initialized: bool
    /** The function-static `configRead` of `ui_manager_is_enabled`. */
    var configRead: bool

    /**
      The manager is only ever initialized after the configuration was read
      and found enabling, and only with a backend compiled in.
     */
    ghost predicate Valid()
      reads this
    {
      initialized ==> configRead && enabled && backendCompiled
    }

    /** Program start: the static initializers. */
    constructor (enabledByDefault: bool, backendCompiled: bool)
      ensures Valid()
      ensures this.enabledByDefault == enabledByDefault && this.backendCompiled == backendCompiled
      ensures enabled == enabledByDefault && !initialized && !configRead
    {
      this.enabledByDefault := enabledByDefault;
      this.backendCompiled := backendCompiled;
      enabled := enabledByDefault;
      initialized := false;
      configRead := false;
    }

    /**
      What `ui_manager_is_enabled` returns given what the two configuration
      files hold now: the cached flag once the configuration was read,
      otherwise the outcome of reading it.
     */
    function EnabledNow(cwd: Option<seq<string>>, parent: Option<seq<string>>): (isEnabled: bool)
      reads this
    {
      if configRead then enabled else ProjectConfig(cwd, parent, enabledByDefault)
    }

    /**
      `ui_manager_is_enabled`: reads the configuration on the first call only;
      every later call returns the cached flag, whatever the files hold by then.
     */
    method IsEnabled(cwd: Option<seq<string>>, parent: Option<seq<string>>) returns (isEnabled: bool)
      requires Valid()
      modifies this`enabled, this`configRead
      ensures Valid()
      ensures configRead && isEnabled == enabled
      ensures isEnabled == old(EnabledNow(cwd, parent))
      ensures old(configRead) ==> enabled == old(enabled)
    {
      if !configRead {
        enabled := ReadProjectConfig(cwd, parent, enabledByDefault);
        configRead := true;
      }
      return enabled;
    }

    /**
      `ui_manager_init`: true at once when already initialized; false when the
      configuration disables the windows; without a compiled-in backend it
      latches the manager disabled and fails; otherwise it initializes exactly
      when the platform calls succeed.
     */
    method Init(cwd: Option<seq<string>>, parent: Option<seq<string>>, platformReady: bool) returns (ok: bool)
      requires Valid()
      modifies this`enabled, this`configRead, this`initialized
      ensures Valid()
      ensures ok == initialized
      ensures old(initialized) ==> ok && enabled == old(enabled) && configRead == old(configRead)
      ensures !old(initialized) ==> configRead
      ensures !old(initialized) ==> (ok <==> old(EnabledNow(cwd, parent)) && backendCompiled && platformReady)
      ensures !old(initialized) && old(EnabledNow(cwd, parent)) && !backendCompiled ==> !enabled
      ensures !old(initialized) && (backendCompiled || !old(EnabledNow(cwd, parent))) ==>
        enabled == old(EnabledNow(cwd, parent))
    {
      if initialized {
        return true;
      }
      var isEnabled := IsEnabled(cwd, parent);
      if !isEnabled {
        return false;
      }
      if !backendCompiled {
        enabled := false;
        return false;
      }
      if !platformReady {
        return false;
      }
      initialized := true;
      return true;
    }

    /**
      The guard of `ui_manager_update` and `ui_manager_render`: they do their
      work only while the manager is initialized and enabled, which, by the
      invariant, is whenever it is initialized.
     */
    function FrameActive(): (active: bool)
      reads this
      requires Valid()
      ensures active <==> initialized
    {
      initialized && enabled
    }

    /** `ui_manager_shutdown`: nothing when not initialized, otherwise it ends uninitialized. */
    method Shutdown()
      requires Valid()
      modifies this`initialized
      ensures Valid()
      ensures !initialized
    {
      if !initialized {
        return;
      }
      initialized := false;
    }
  }

  /**
    Once the configuration has been read, `ui_manager_is_enabled` no longer
    depends on the files: two calls with different file contents agree.
   */
  method CachedAfterFirstRead(m: UiWindowManager, cwd: Option<seq<string>>, parent: Option<seq<string>>,
                              cwd2: Option<seq<string>>, parent2: Option<seq<string>>)
    returns (first: bool, second: bool)
    requires m.Valid()
    modifies m
    ensures first == second
    ensures first == old(m.EnabledNow(cwd, parent))
  {
    first := m.IsEnabled(cwd, parent);
    second := m.IsEnabled(cwd2, parent2);
  }
}
