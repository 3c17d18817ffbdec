# pxb-composer module registry, modelled in Dafny

pxb-composer is a Composer installer plugin. Whenever Composer installs,
updates or uninstalls a package whose `extra` metadata carries a
`pxb-config` entry, the installer registers, unregisters or replaces that
module class name in `config/modules.php`, a PHP file that returns an
ordered list of class names. Every operation reads the list, and writes the
whole file back only when it changes the list.

The model has two modules:

- `Registry` (`registry.dfy`): the list itself. `Register` appends an
  identifier unless it is present. `Unregister` removes the first occurrence
  that `array_search` finds, as `FirstIndex`, with `ArraySearch` as the scan
  itself. `Replace` unregisters one identifier and then registers another.
  The lemmas state idempotence, inverse and ordering properties and the
  preservation of a duplicate-free registry.
- `Installer` (`installer.dfy`): the class `ModuleInstaller`. Its field
  `modules` is the list that `config/modules.php` holds between calls, and
  its methods are `loadModule`, `unloadModule`, `updateModule` and the three
  Composer entry points `install`, `update` and `uninstall`. The
  `pxb-config` gating is a pure decision, `InstallAction`, `UpdateAction` and
  `UninstallAction`, that the methods are proved to follow. The module also
  models what happens when the file does not hold a list (see Findings).

Identifiers are compared with exact string equality. PHP's `in_array` and
`array_search` compare loosely (`==`), so two distinct numeric-looking
strings such as `"1e1"` and `"10"` would count as equal in PHP and not here.
A package's `extra` block is a `map<string, string>`, because only the
string under `pxb-config` is ever read.

`unset` leaves the PHP array's keys as they are, and `var_export` writes them
out. The model keeps only the values in order, which is what reloading the
file yields as a list of values.

## Model

| member | source | states |
|---|---|---|
| Registry.FirstIndex | src/Installer/ModuleInstaller.php:147 | the index `array_search` finds holds the identifier and no earlier position does |
| Registry.ArraySearch | src/Installer/ModuleInstaller.php:147 | the linear scan finds nothing exactly when the identifier is absent, and otherwise returns its first index |
| Registry.Register | src/Installer/ModuleInstaller.php:120-129 | an identifier already present leaves the list unchanged; an absent one is appended at the end, so the list grows by exactly one and every earlier entry keeps its position; the identifiers present afterwards are the old ones plus the new one |
| Registry.Unregister | src/Installer/ModuleInstaller.php:142-152 | an absent identifier leaves the list unchanged; a present one shrinks it by one; exactly one copy of the identifier is removed from the multiset of entries |
| Registry.Replace | src/Installer/ModuleInstaller.php:156-160 | after unloading the old identifier and loading the new one, the new one is present, every other identifier except the old one is registered exactly when it was before, and the length changes by at most one |
| Registry.RegisterIdempotent | src/Installer/ModuleInstaller.php:120-125 | registering the same identifier twice gives the same list as registering it once |
| Registry.RegisterKeepsNoDuplicates | src/Installer/ModuleInstaller.php:120-125 | registering never adds a duplicate to a duplicate-free list |
| Registry.RegisterAllAppends | src/Installer/ModuleInstaller.php:124-129 | registering distinct new identifiers one after another appends them in registration order |
| Registry.RegisterAllPresent | src/Installer/ModuleInstaller.php:120-123 | registering identifiers that are all present already leaves the list unchanged |
| Registry.UnregisterRemovesFirst | src/Installer/ModuleInstaller.php:146-148 | unregistering removes exactly the first match; earlier entries keep their positions and later entries keep their relative order |
| Registry.UnregisterKeepsOthers | src/Installer/ModuleInstaller.php:146-148 | every identifier other than the removed one is registered afterwards exactly when it was before |
| Registry.UnregisterKeepsNoDuplicates | src/Installer/ModuleInstaller.php:142-148 | in a duplicate-free list, unregistering leaves the identifier absent and the list duplicate-free |
| Registry.UnregisterUndoesRegister | src/Installer/ModuleInstaller.php:111-154 | unregistering an identifier just registered from a list that lacked it restores the list |
| Registry.ReplaceSwaps | src/Installer/ModuleInstaller.php:156-160 | from a duplicate-free list with old different from new, the replace leaves new present exactly once, old absent, all other identifiers as they were, and no duplicates |
| Registry.ReplaceOnly | src/Installer/ModuleInstaller.php:156-160 | a registry holding only the old identifier holds only the new one after the replace |
| Installer.InstallAction | src/Installer/ModuleInstaller.php:58-64 | install loads a module exactly when `pxb-config` is in the package's extra, and loads that value |
| Installer.UpdateAction | src/Installer/ModuleInstaller.php:86-92 | update swaps exactly when both packages carry `pxb-config` and the two values differ, from the initial value to the target value; otherwise it does nothing |
| Installer.UninstallAction | src/Installer/ModuleInstaller.php:102-107 | uninstall unloads a module exactly when `pxb-config` is in the package's extra, and unloads that value |
| Installer.Apply | src/Installer/ModuleInstaller.php:58-109 | the registry effect of a lifecycle event: no action leaves it unchanged, a load leaves the module present after the unchanged old entries, an unload removes exactly one copy of the module, and a swap leaves the new module present and every unrelated module as it was |
| Installer.ActionKeepsNoDuplicates | src/Installer/ModuleInstaller.php:58-109 | every action, including a swap of an identifier with itself, keeps a duplicate-free registry duplicate-free |
| Installer.InstallThenUninstall | src/Installer/ModuleInstaller.php:58-109 | installing and then uninstalling a package restores a registry that did not hold its module |
| Installer.ModuleInstaller.constructor | src/Installer/ModuleInstaller.php:37-50 | the installer starts from the registry the file holds, with a file that holds no list read as the empty registry |
| Installer.ModuleInstaller.LoadModule | src/Installer/ModuleInstaller.php:111-131 | a present identifier leaves the registry unchanged; an absent one is appended at the end |
| Installer.ModuleInstaller.UnloadModule | src/Installer/ModuleInstaller.php:133-154 | an absent identifier leaves the registry unchanged; a present one loses its first occurrence |
| Installer.ModuleInstaller.UpdateModule | src/Installer/ModuleInstaller.php:156-160 | the registry becomes the replace of old by new; from a duplicate-free registry with old different from new, new is present, old is absent and there are no duplicates |
| Installer.ModuleInstaller.Install | src/Installer/ModuleInstaller.php:58-67 | without `pxb-config` the registry is untouched; with it, the declared module is registered and a duplicate-free registry stays duplicate-free |
| Installer.ModuleInstaller.Update | src/Installer/ModuleInstaller.php:78-94 | the registry is untouched when either package lacks `pxb-config` or the values are identical; otherwise the old module is replaced by the new one; no duplicates are introduced |
| Installer.ModuleInstaller.Uninstall | src/Installer/ModuleInstaller.php:102-109 | without `pxb-config` the registry is untouched; with it, the declared module is unregistered and, in a duplicate-free registry, is absent afterwards |
| Installer.StoredAfterConstruct | src/Installer/ModuleInstaller.php:44-47 | a missing registry file is created empty, so it holds the scalar 1 rather than a list; an existing file keeps its content |
| Installer.LoadModuleAsWritten | src/Installer/ModuleInstaller.php:111-131 | as written, a stored scalar (such as the 1 of an empty file) stays that scalar; a stored list gains the identifier |
| Installer.FreshProjectNeverRegisters | src/Installer/ModuleInstaller.php:44-47 | as written, no run of `loadModule` calls on a freshly created registry file ever yields a list |
| Installer.Recovered | src/Installer/ModuleInstaller.php:113-118 | a stored list is read as itself, and a stored scalar as the empty registry |
| Installer.FreshProjectRegisters | src/Installer/ModuleInstaller.php:44-47 | with that recovery, a fresh project registers distinct modules in install order |

## Findings

| source | as written | input that shows it | evidently intended | confidence | as-written member | corrected member |
|---|---|---|---|---|---|---|
| src/Installer/ModuleInstaller.php:44-47, 113-129 | the constructor creates a missing `config/modules.php` as an empty file; `include` of an empty file returns `1`, not an array; `loadModule` only warns and goes on with `1`, so `in_array` fails (a warning in PHP 7, a TypeError in PHP 8) and `$modulesList[] = …` cannot append to an integer | a project without `config/modules.php`, then installing any package that declares `pxb-config` | a missing or malformed registry is treated as the empty list, so the first install registers its module | medium; not executed | Installer.FreshProjectNeverRegisters | Installer.Recovered |

The rest of the model, from the `ModuleInstaller` constructor on, uses the
recovered registry.

Removal keeps the relative order of the remaining entries: `unset` (line
148) does not reindex, and `var_export` writes the entries in order.

## Left out

- Composer plumbing: the `parent::install`, `parent::update` and `parent::uninstall` calls, and `Plugin::activate`, which only registers the installer with Composer. These are calls into code outside this repository.
- All `io->write` and `writeError` status and warning messages. They are output only.
- File I/O: `realpath` and `Factory::getComposerFile`, the `touch` and `chmod 0775` of the registry file, and the `include`, `var_export` and `file_put_contents` round trip. The persisted state is the `modules` sequence itself, so a failed write or a crash between the two writes of `updateModule` is not modelled.
- The PHP array keys that `unset` leaves behind and `var_export` writes out. Only the order of the values is modelled.
- Loose `==` comparison in `in_array` and `array_search`. The model uses exact string equality.
- A `pxb-config` value that is not a string. Such a value would reach `in_array` as an array or a number.
- LoadModuleAsWritten: treats the PHP 7 outcome (the file is rewritten as `return 1`) and the PHP 8 outcome (a TypeError aborts the call) as one result, since neither yields a list.
- Stored values `null`, `false`, strings and objects. `Stored` covers only a list and a scalar (an integer, a float or `true`). For `null` or `false`, `$modulesList[] = …` creates a one-element array, so `loadModule` as written registers the module there under PHP 7; under PHP 8 `in_array` throws a TypeError first.
- `unloadModule` on a stored scalar. `in_array` fails there and nothing is removed, so the value stays as it was; the model does not state this separately.
- Concurrency between processes sharing the file. The system runs single-threaded.
