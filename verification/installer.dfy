/** The installer that Composer calls for every package: it reads the
    package's `extra` metadata and, when the `pxb-config` key is there,
    registers, unregisters or replaces that module class name in the
    registry persisted at config/modules.php. */
module Installer {
  import opened Registry

  /** The metadata key that names a package's module class. */
  const ConfigKey: string := "pxb-config"

  /** A package's `extra` block; only the string under ConfigKey matters. */
  type Extra = map<string, string>

  /** What a lifecycle event does to the registry. */
  datatype Action = Nothing | Load(id: string) | Unload(id: string) | Swap(from: string, to: string)

  /** `install` loads the module exactly when the package declares one. */
  function InstallAction(extra: Extra): (a: Action)
    ensures a.Nothing? || a.Load?
    ensures a.Nothing? <==> ConfigKey !in extra
    ensures a.Load? ==> a.id == extra[ConfigKey]
  {
    if ConfigKey in extra then Load(extra[ConfigKey]) else Nothing
  }

  /** `uninstall` unloads the module exactly when the package declares one. */
  function UninstallAction(extra: Extra): (a: Action)
    ensures a.Nothing? || a.Unload?
    ensures a.Nothing? <==> ConfigKey !in extra
    ensures a.Unload? ==> a.id == extra[ConfigKey]
  {
    if ConfigKey in extra then Unload(extra[ConfigKey]) else Nothing
  }

  /** `update` swaps the old module for the new one exactly when both the
      initial and the target package declare one and the two differ; a
      package that gains or loses the key leaves the registry alone. */
  function UpdateAction(initial: Extra, target: Extra): (a: Action)
    ensures a.Nothing? || a.Swap?
    ensures a.Nothing? <==>
      ConfigKey !in initial || ConfigKey !in target || initial[ConfigKey] == target[ConfigKey]
    ensures a.Swap? ==> a.from == initial[ConfigKey] && a.to == target[ConfigKey] && a.from != a.to
  {
    if ConfigKey in target && ConfigKey in initial && initial[ConfigKey] != target[ConfigKey]
    then Swap(initial[ConfigKey], target[ConfigKey])
    else Nothing
  }

  /** The registry after an action: nothing changes for Nothing, a loaded
      module is present, an unloaded one loses exactly one copy, and a swap
      leaves the new module present. */
  function Apply(list: seq<string>, a: Action): (r: seq<string>)
    ensures a.Nothing? ==> r == list
    ensures a.Load? ==> a.id in r && |list| <= |r| && r[..|list|] == list
    ensures a.Unload? ==> multiset(r) == multiset(list) - multiset{a.id}
    ensures a.Swap? ==> a.to in r
    ensures a.Swap? ==> forall x :: x != a.from && x != a.to ==> (x in r <==> x in list)
  {
    match a
    case Nothing => list
    case Load(id) => Register(list, id)
    case Unload(id) => Unregister(list, id)
    case Swap(from, to) => Replace(list, from, to)
  }

  /** Every action keeps a duplicate-free registry duplicate-free. */
  lemma ActionKeepsNoDuplicates(list: seq<string>, a: Action)
    requires NoDuplicates(list)
    ensures NoDuplicates(Apply(list, a))
  {
    match a
    case Nothing =>
    case Load(id) => RegisterKeepsNoDuplicates(list, id);
    case Unload(id) => UnregisterKeepsNoDuplicates(list, id);
    case Swap(from, to) =>
      UnregisterKeepsNoDuplicates(list, from);
      RegisterKeepsNoDuplicates(Unregister(list, from), to);
  }

  /** Installing a package and then uninstalling it restores a registry that
      did not hold its module. */
  lemma InstallThenUninstall(list: seq<string>, extra: Extra)
    requires ConfigKey in extra ==> extra[ConfigKey] !in list
    ensures Apply(Apply(list, InstallAction(extra)), UninstallAction(extra)) == list
  {
    if ConfigKey in extra {
      UnregisterUndoesRegister(list, extra[ConfigKey]);
    }
  }

  /** The installer object; `modules` is the list that config/modules.php
      holds between calls. Each private operation loads that list and, only
      when it changes the list, writes the whole list back, which here is an
      update of the field. */
  class ModuleInstaller {
    var modules: seq<string>

    /** Starts from what config/modules.php holds; a file that does not hold
        a list counts as an empty registry (see Recovered). */
    constructor (stored: Stored)
      ensures modules == Recovered(stored)
    {
      modules := Recovered(stored);
    }

    /** `loadModule`: nothing to do when the module is registered already,
        otherwise it is appended. */
    method LoadModule(moduleClass: string)
      modifies this
      ensures moduleClass in old(modules) ==> modules == old(modules)
      ensures moduleClass !in old(modules) ==> modules == old(modules) + [moduleClass]
      ensures modules == Register(old(modules), moduleClass)
    {
      if moduleClass in modules {
        // already loaded: nothing to do
      } else {
        modules := modules + [moduleClass];
      }
    }

    /** `unloadModule`: nothing to do when the module is not registered,
        otherwise the entry `array_search` finds is removed. */
    method UnloadModule(moduleClass: string)
      modifies this
      ensures moduleClass !in old(modules) ==> modules == old(modules)
      ensures modules == Unregister(old(modules), moduleClass)
    {
      if moduleClass !in modules {
        // already unloaded: nothing to do
      } else {
        var index := ArraySearch(modules, moduleClass);
        match index
        case Some(i) =>
          modules := modules[..i] + modules[i + 1..];
      }
    }

    /** `updateModule`: unload the old module, then load the new one. */
    method UpdateModule(oldClass: string, newClass: string)
      modifies this
      ensures modules == Replace(old(modules), oldClass, newClass)
      ensures NoDuplicates(old(modules)) && oldClass != newClass ==>
        NoDuplicates(modules) && newClass in modules && oldClass !in modules
    {
      ghost var before := modules;
      UnloadModule(oldClass);
      LoadModule(newClass);
      if NoDuplicates(before) && oldClass != newClass {
        ReplaceSwaps(before, oldClass, newClass);
      }
    }

    /** `install`: registers the package's module when it declares one. */
    method Install(extra: Extra)
      modifies this
      ensures ConfigKey !in extra ==> modules == old(modules)
      ensures modules == Apply(old(modules), InstallAction(extra))
      ensures NoDuplicates(old(modules)) ==> NoDuplicates(modules)
      ensures ConfigKey in extra ==> extra[ConfigKey] in modules
    {
      ghost var before := modules;
      if ConfigKey in extra {
        LoadModule(extra[ConfigKey]);
      }
      if NoDuplicates(before) {
        ActionKeepsNoDuplicates(before, InstallAction(extra));
      }
    }

    /** `update`: replaces the module when both versions declare one and
        the declared names differ. */
    method Update(initial: Extra, target: Extra)
      modifies this
      ensures ConfigKey !in initial || ConfigKey !in target ==> modules == old(modules)
      ensures ConfigKey in initial && ConfigKey in target && initial[ConfigKey] == target[ConfigKey] ==>
        modules == old(modules)
      ensures modules == Apply(old(modules), UpdateAction(initial, target))
      ensures NoDuplicates(old(modules)) ==> NoDuplicates(modules)
    {
      ghost var before := modules;
      if ConfigKey in target && ConfigKey in initial {
        if initial[ConfigKey] == target[ConfigKey] {
          // no changes
        } else {
          UpdateModule(initial[ConfigKey], target[ConfigKey]);
        }
      }
      if NoDuplicates(before) {
        ActionKeepsNoDuplicates(before, UpdateAction(initial, target));
      }
    }

    /** `uninstall`: unregisters the package's module when it declares one. */
    method Uninstall(extra: Extra)
      modifies this
      ensures ConfigKey !in extra ==> modules == old(modules)
      ensures modules == Apply(old(modules), UninstallAction(extra))
      ensures NoDuplicates(old(modules)) ==> NoDuplicates(modules)
      ensures NoDuplicates(old(modules)) && ConfigKey in extra ==> extra[ConfigKey] !in modules
    {
      ghost var before := modules;
      if ConfigKey in extra {
        UnloadModule(extra[ConfigKey]);
        if NoDuplicates(before) {
          UnregisterKeepsNoDuplicates(before, extra[ConfigKey]);
        }
      }
    }
  }

  // -----------------------------------------------------------------------
  // The registry file when it does not hold a list

  /** What `include` of config/modules.php yields: the list it returns, or a
      scalar (an integer, a float or `true`). An empty file, as created with
      `touch` by the constructor, yields the integer 1. */
  datatype Stored = Entries(list: seq<string>) | Scalar

  /** The stored value right after construction: an existing file keeps its
      content, a missing one is created empty and so holds the scalar 1. */
  function StoredAfterConstruct(existing: Option<Stored>): (s: Stored)
    ensures existing.None? ==> s.Scalar?
    ensures existing.Some? ==> s == existing.value
  {
    match existing
    case None => Scalar
    case Some(s) => s
  }

  /** `loadModule` as written, over a stored list or scalar. On a scalar it
      only warns and then goes on with that value: `in_array` rejects it (a
      warning and `null` in PHP 7, a TypeError in PHP 8) and `[]=` cannot
      append to a scalar, so either the call aborts or it writes the same
      scalar back. */
  function LoadModuleAsWritten(stored: Stored, moduleClass: string): (r: Stored)
    ensures stored.Scalar? ==> r.Scalar?
    ensures stored.Entries? ==> r.Entries? && moduleClass in r.list
  {
    match stored
    case Scalar => Scalar
    case Entries(list) => Entries(Register(list, moduleClass))
  }

  /** A run of `loadModule` calls as written. */
  function LoadAllAsWritten(stored: Stored, ids: seq<string>): Stored
    decreases |ids|
  {
    if ids == [] then stored else LoadAllAsWritten(LoadModuleAsWritten(stored, ids[0]), ids[1..])
  }

  /** As written, a project without config/modules.php never gets a module
      registered: whatever packages are installed, the file holds no list. */
  lemma {:induction false} FreshProjectNeverRegisters(ids: seq<string>)
    ensures LoadAllAsWritten(StoredAfterConstruct(None), ids).Scalar?
  {
    ScalarStays(ids);
  }

  /** A stored scalar absorbs every `loadModule` call. */
  lemma {:induction false} ScalarStays(ids: seq<string>)
    ensures LoadAllAsWritten(Scalar, ids) == Scalar
    decreases |ids|
  {
    if ids != [] {
      ScalarStays(ids[1..]);
    }
  }

  /** The registry a stored value stands for, treating a scalar as the empty
      registry. */
  function Recovered(stored: Stored): (list: seq<string>)
    ensures stored.Entries? ==> list == stored.list
    ensures stored.Scalar? ==> list == []
  {
    match stored
    case Entries(list) => list
    case Scalar => []
  }

  /** With that recovery a fresh project registers its modules in install
      order. */
  lemma FreshProjectRegisters(ids: seq<string>)
    requires NoDuplicates(ids)
    ensures RegisterAll(Recovered(StoredAfterConstruct(None)), ids) == ids
  {
    assert [] + ids == ids;
    RegisterAllAppends([], ids);
  }
}
