/**
 * Runtime contexts (`PydeflateContext`) and the per-thread default-context
 * slot with its session and temporary-context managers. One thread is
 * modelled: the thread-local slot is one mutable field.
 */
module Contexts {
  import opened Wrappers
  import opened Exceptions

  /**
   * A context. `id` stands for object identity; the cache manager and the
   * logger it builds are not modelled. Extra configuration values are text.
   */
  datatype Context = Context(id: nat, dataDir: string, logLevel: int, enableValidation: bool, config: map<string, string>)

  /** `logging.INFO` */
  const Info: int := 20

  /** Parameters of `create` that a configuration key must not repeat. */
  const CreateParameters: set<string> := {"cls", "data_dir", "log_level", "enable_validation"}

  /** Where `create` puts a context's data: `get_data_dir()` when none is given, else the resolved path. */
  function DataDirFor(dataDir: Option<string>, defaultDir: string, resolve: string -> string): string {
    if dataDir.None? then defaultDir else resolve(dataDir.value)
  }

  /** The fields `temporary_context` may override; any other key is ignored. */
  datatype Overrides = Overrides(
    dataDir: Option<string>,
    logLevel: Option<int>,
    enableValidation: Option<bool>,
    config: map<string, string>)

  /** The configuration of a temporary context: the default's, updated by the override's. */
  function MergedConfig(base: map<string, string>, extra: map<string, string>): (m: map<string, string>)
    ensures m.Keys == base.Keys + extra.Keys
    ensures forall k :: k in extra ==> m[k] == extra[k]
    ensures forall k :: k in base && k !in extra ==> m[k] == base[k]
  {
    base + extra
  }

  /** Updating by an empty configuration changes nothing. */
  lemma MergedConfigEmpty(base: map<string, string>)
    ensures MergedConfig(base, map[]) == base
  {
  }

  class ContextSlot {
    /** `_thread_local.context`, absent until first set. */
    var slot: Option<Context>
    /** The identity the next created context receives. */
    var nextId: nat
    /** `get_data_dir()` and path resolution, which read the environment and the file system. */
    const defaultDir: string
    const resolve: string -> string

    constructor (defaultDir: string, resolve: string -> string)
      ensures slot.None? && nextId == 0 && this.defaultDir == defaultDir && this.resolve == resolve
    {
      slot := None;
      nextId := 0;
      this.defaultDir := defaultDir;
      this.resolve := resolve;
    }

    /**
     * `PydeflateContext.create(data_dir, log_level, enable_validation, **config)`:
     * a new context, or `TypeError` when a configuration key repeats a parameter.
     */
    method Create(dataDir: Option<string>, logLevel: int, enableValidation: bool, config: map<string, string>)
      returns (r: Outcome<Context>)
      modifies this
      ensures slot == old(slot)
      ensures r.Fail? <==> config.Keys * CreateParameters != {}
      ensures r.Fail? ==> r.error.cls == TypeError && nextId == old(nextId)
      ensures r.Ok? ==> r.value == Context(old(nextId), DataDirFor(dataDir, defaultDir, resolve), logLevel, enableValidation, config)
      ensures r.Ok? ==> nextId == old(nextId) + 1
    {
      if config.Keys * CreateParameters != {} {
        return Fail(Error(TypeError, "PydeflateContext.create() got multiple values for a keyword argument"));
      }
      r := Ok(Context(nextId, DataDirFor(dataDir, defaultDir, resolve), logLevel, enableValidation, config));
      nextId := nextId + 1;
    }

    /** `get_default_context()`: creates the default once, then keeps returning it. */
    method GetDefault() returns (c: Context)
      modifies this
      ensures slot == Some(c)
      ensures old(slot).Some? ==> c == old(slot).value && nextId == old(nextId)
      ensures old(slot).None? ==> c == Context(old(nextId), defaultDir, Info, true, map[]) && nextId == old(nextId) + 1
    {
      if slot.None? {
        var r := Create(None, Info, true, map[]);
        slot := Some(r.value);
      }
      c := slot.value;
    }

    /** `set_default_context(context)` */
    method SetDefault(c: Context)
      modifies this
      ensures slot == Some(c) && nextId == old(nextId)
    {
      slot := Some(c);
    }

    /**
     * Entering `pydeflate_session(...)`: a new context becomes the default;
     * the previous slot content is kept for the exit.
     */
    method SessionEnter(dataDir: Option<string>, logLevel: int, enableValidation: bool, config: map<string, string>)
      returns (r: Outcome<Context>, previous: Option<Context>)
      modifies this
      ensures previous == old(slot)
      ensures r.Fail? <==> config.Keys * CreateParameters != {}
      ensures r.Fail? ==> r.error.cls == TypeError && slot == old(slot)
      ensures r.Ok? ==> slot == Some(r.value) && r.value.id == old(nextId)
      ensures r.Ok? ==> r.value.dataDir == DataDirFor(dataDir, defaultDir, resolve) && r.value.config == config
    {
      r := Create(dataDir, logLevel, enableValidation, config);
      previous := slot;
      if r.Ok? {
        SetDefault(r.value);
      }
    }

    /**
     * Leaving the session, normally or by an exception (the `finally` block):
     * the previous default comes back, or the slot is emptied if there was none.
     */
    method SessionExit(previous: Option<Context>)
      modifies this
      ensures slot == previous && nextId == old(nextId)
    {
      if previous.Some? {
        SetDefault(previous.value);
      } else if slot.Some? {
        slot := None;
      }
    }

    /**
     * Entering `temporary_context(**overrides)`: a context taking every field
     * not overridden from the current default becomes the default.
     */
    method TemporaryEnter(o: Overrides) returns (r: Outcome<Context>, previous: Context)
      modifies this
      ensures old(slot).Some? ==> previous == old(slot).value
      ensures old(slot).None? ==> previous == Context(old(nextId), defaultDir, Info, true, map[])
      ensures var created := old(nextId) + (if old(slot).None? then 1 else 0);
              && (r.Fail? ==> nextId == created)
              && (r.Ok? ==> r.value.id == created && nextId == created + 1)
      ensures var base := previous;
              var config := MergedConfig(base.config, o.config);
              && (r.Fail? <==> config.Keys * CreateParameters != {})
              && (r.Fail? ==> r.error.cls == TypeError && slot == Some(previous))
              && (r.Ok? ==> && slot == Some(r.value)
                            && r.value.dataDir == resolve(o.dataDir.GetOr(base.dataDir))
                            && r.value.logLevel == o.logLevel.GetOr(base.logLevel)
                            && r.value.enableValidation == o.enableValidation.GetOr(base.enableValidation)
                            && r.value.config == config)
    {
      var base := GetDefault();
      var config := MergedConfig(base.config, o.config);
      r := Create(Some(o.dataDir.GetOr(base.dataDir)), o.logLevel.GetOr(base.logLevel),
                  o.enableValidation.GetOr(base.enableValidation), config);
      if r.Fail? {
        return r, base;
      }
      previous := GetDefault();
      SetDefault(r.value);
    }

    /** Leaving the temporary context: the previous default comes back. */
    method TemporaryExit(previous: Context)
      modifies this
      ensures slot == Some(previous) && nextId == old(nextId)
    {
      SetDefault(previous);
    }
  }
}
