# FuzzumBuildTool build-graph generator, in Dafny

FuzzumBuildTool is the build tool of FuzzumEngine. It takes the module rule records (`ModuleRules`) and the
target record (`TargetRules`) that the `*.Build.cs` / `*.Target.cs` files produce. From them it writes one
Ninja build file per target. This project models that generator as the C# code has it:

- `Main` registers the modules (`loadedModules`); a module with no platform flag takes the target's flags.
- `GetAllDependencies` computes dependency closures, and the target's root modules are united into the
  module walk (`allModulesForNinja`).
- `GenerateNinjaFile` writes the file in four parts:
  - the head: variables and rules;
  - one compile edge per compilable source;
  - one link edge per module with object files, with its `libs =` line;
  - the phony `all` edge.
- The rule records come with their query methods (`GetOutputName`, `GetModuleAPI`, `GetLinkerFlags`,
  `IsPlatform`, …).
- `UClass::IsChildOf` from CoreUObject.h walks the superclass chain.

Files and modules:

| file | module | models |
|---|---|---|
| `text.dfy` | `Text` | the .NET string and list calls used: `Distinct`, `IsNullOrEmpty`, `ToLower`, `Replace`, `EndsWith`, `Contains`, `IndexOf(…, OrdinalIgnoreCase)`, `Path.GetFileName`/`GetExtension`/`GetFileNameWithoutExtension` |
| `targets.dfy` | `Targets` | TargetRules.cs |
| `rules.dfy` | `Rules` | ModuleRules.cs |
| `uobject.dfy` | `UObjects` | `UClass` of CoreUObject.h, as a class with a `SuperClass` field |
| `dependencies.dfy` | `Dependencies` | the registry loop, `GetAllDependencies`, the union over the target's modules |
| `ninja_flags.dfy` | `NinjaFlags` | the head of the Ninja file and the three per-platform helper tables |
| `ninja_compile.dfy` | `NinjaCompile` | the data-collection loop and the compile loop |
| `ninja_link.dfy` | `NinjaLink` | the link loop and the `all` edge |
| `ninja.dfy` | `Ninja` | `GenerateNinjaFile` as a whole |

How the model is built:

- The stream writer is a list of lines.
- Each loop of `GenerateNinjaFile` is a method with a `while` loop. It is proved equal to a specification
  function over the walk (`CompilePhaseLines`, `ObjectTable`, `LinkPhase`, …), and lemmas state what the
  source promises about those functions.
- Two things the code leaves unpredictable are parameters:
  - The order in which a `HashSet<string>` lists the walk is a duplicate-free sequence `order`, required to
    hold exactly the modules reachable from the target's roots.
  - `string.GetHashCode` is a function `hashCode: string -> int32`.
- `Math.Abs` throws for the least 32-bit integer. So the compile loop can fail, and the generator's result
  is `Generated(lines)` or `HashOverflow`.

The model follows the code in these behaviours:

- A source entry such as `Private/**/*.cpp` is not expanded. It is compiled as written, if its name ends in
  .cpp, .c or .cc.
- Include paths and definitions come from the module and its direct dependencies only. These include the
  dependencies' private ones, and nothing propagates further.
- An output-name collision is renamed once and not re-checked.
- Unregistered dependency names are listed by the closure and skipped later.
- An executable links only its own objects.
- There is no static-library build type. The link_lib branch of the link loop can never be taken (see
  `NinjaLink.LinkLibUnreachable`).

## Model

| member | source | states |
|---|---|---|
| `Targets.TargetRules.WithType` | Engine/Source/Programs/FuzzumBuildTool/TargetRules.cs:12-13 | setting `Type` keeps `Name` (which has no setter), `Platform`, `Modules` and the three global lists |
| `Targets.TargetRules.WithPlatform` | Engine/Source/Programs/FuzzumBuildTool/TargetRules.cs:12-14 | setting `Platform` keeps `Name`, `Type`, `Modules` and the three global lists |
| `Targets.TargetRules.WithModules` | Engine/Source/Programs/FuzzumBuildTool/TargetRules.cs:12-15 | setting `Modules` keeps `Name`, `Type`, `Platform` and the three global lists |
| `Targets.TargetRules.WithGlobals` | Engine/Source/Programs/FuzzumBuildTool/TargetRules.cs:12-21 | setting the three global lists keeps `Name`, `Type`, `Platform` and `Modules` |
| `Targets.NewTarget` | Engine/Source/Programs/FuzzumBuildTool/TargetRules.cs:13-27 | the constructor sets `Name`; the enums take their first values and the four lists start empty |
| `Targets.ExactlyOnePlatform` | Engine/Source/Programs/FuzzumBuildTool/TargetRules.cs:30-32 | exactly one of `IsPlatformWindows`, `IsPlatformLinux`, `IsPlatformMac` holds |
| `Targets.EditorGameExclusive` | Engine/Source/Programs/FuzzumBuildTool/TargetRules.cs:24-25 | `IsEditor` and `IsGame` never both hold, and neither holds for a Program target |
| `Targets.FuzzumEngineTarget` | Engine/Source/FuzzumEngine.Target.cs:1-33 | the engine's target is a Win64 program target named FuzzumEngine whose only root module is Engine, with the three global definitions, the global include path `Modules` and no global library |
| `Rules.ModuleRules.SetSourceFiles` | Engine/Source/Programs/FuzzumBuildTool/ModuleRules.cs:36-40 | writing `SourceFiles` writes `PrivateSourceFiles` and is read back through both |
| `Rules.ModuleRules.SetPublicDependencyModuleNames` | Engine/Source/Programs/FuzzumBuildTool/ModuleRules.cs:42-46 | writing `PublicDependencyModuleNames` writes `PublicDependencies` and nothing else |
| `Rules.ModuleRules.SetPrivateDependencyModuleNames` | Engine/Source/Programs/FuzzumBuildTool/ModuleRules.cs:48-52 | writing `PrivateDependencyModuleNames` writes `PrivateDependencies` and nothing else |
| `Rules.ModuleRules.IsExe` | Engine/Source/Programs/FuzzumBuildTool/ModuleRules.cs:97-98 | exactly one of `IsExe` and `IsDll` holds |
| `Rules.ModuleRules.IsEditor` | Engine/Source/Programs/FuzzumBuildTool/ModuleRules.cs:182-183 | exactly one of `IsEditor` and `IsRuntime` holds |
| `Rules.ModuleRules.GetOutputName` | Engine/Source/Programs/FuzzumBuildTool/ModuleRules.cs:100-116 | `<Name>.exe` or `<Name>` for an executable; `<Name>.dll`, `lib<Name>.so` or `lib<Name>.dylib` for a library, Windows tested before Linux |
| `Rules.ModuleRules.GetModuleAPI` | Engine/Source/Programs/FuzzumBuildTool/ModuleRules.cs:119-127 | empty exactly for a non-DLL; the dllexport attribute on Windows, default visibility elsewhere |
| `Rules.ModuleRules.GetLinkerFlags` | Engine/Source/Programs/FuzzumBuildTool/ModuleRules.cs:130-161 | the flags per build type with Windows, then Linux, then Mac tried; none without a platform flag |
| `Rules.ModuleRules.IsPlatform` | Engine/Source/Programs/FuzzumBuildTool/ModuleRules.cs:170-179 | the lower-cased name selects win64/windows, linux or mac; any other name gives false |
| `Rules.NewModule` | Engine/Source/Programs/FuzzumBuildTool/ModuleRules.cs:13-59 | the string constructor keeps the name; the category is Runtime, the build type DynamicLibrary, every one of the dependency, include, library, definition, module-name, system-library, framework and delay-load lists is empty, and no platform flag is set |
| `Rules.NewModuleFor` | Engine/Source/Programs/FuzzumBuildTool/ModuleRules.cs:63-89 | with a target, the name is the type name without "Module" and the flags are the target's |
| `Rules.NewModuleUntargeted` | Engine/Source/Programs/FuzzumBuildTool/ModuleRules.cs:90-93 | without a target, the same name and no platform flag |
| `Rules.ModuleSuffixRemoved` | Engine/Source/Programs/FuzzumBuildTool/ModuleRules.cs:68 | EngineModule and CoreUObjectModule are named Engine and CoreUObject |
| `Rules.RemoveTrailing` | Engine/Source/Programs/FuzzumBuildTool/ModuleRules.cs:68 | a type name `<x>Module` where `x` has no capital M is named `x` |
| `Rules.StringConstructorSetsNoPlatform` | Engine/Source/Programs/FuzzumBuildTool/ModuleRules.cs:164-169 | a module made by the string constructor has no platform flag, so the `if (IsPlatformWindows)` branches of the Build.cs files see false |
| `UObjects.UClass.constructor` | Engine/Source/Modules/CoreUObject/Public/CoreUObject.h:38-39 | the constructor stores the name and the superclass |
| `UObjects.UClass.IsChildOf` | Engine/Source/Modules/CoreUObject/Public/CoreUObject.h:41-50 | for an acyclic chain: true exactly when `other` is non-null and in the superclass chain of this class, so false for null |
| `UObjects.ChainSuffix` | Engine/Source/Modules/CoreUObject/Public/CoreUObject.h:44-48 | the chain of a class met in another chain is the rest of that chain |
| `UObjects.IsChildOfReflexive` | Engine/Source/Modules/CoreUObject/Public/CoreUObject.h:43-46 | every class is a child of itself |
| `UObjects.IsChildOfTransitive` | Engine/Source/Modules/CoreUObject/Public/CoreUObject.h:44-48 | a child of a child is a child |
| `UObjects.RootIsChildOnlyOfItself` | Engine/Source/Modules/CoreUObject/Public/CoreUObject.h:38-49 | a class with a null superclass is a child of itself only |
| `UObjects.ChainUnique` | Engine/Source/Modules/CoreUObject/Public/CoreUObject.h:36-47 | the superclass pointers determine the chain |
| `Text.Distinct` | Engine/Source/Programs/FuzzumBuildTool/Program.cs:126 | the result has no repeats and the same members as the input |
| `Text.DistinctOfNoDuplicates` | Engine/Source/Programs/FuzzumBuildTool/Program.cs:126 | a list without repeats is unchanged by `Distinct` |
| `Text.DistinctKeepsPrefix` | Engine/Source/Programs/FuzzumBuildTool/Program.cs:642-656 | `Distinct` keeps first occurrences: the distinct items of a prefix stay in front, in order |
| `Text.NonEmpty` | Engine/Source/Programs/FuzzumBuildTool/Program.cs:576-580 | the kept entries are exactly the non-empty ones |
| `Text.NonEmptyAppend` | Engine/Source/Programs/FuzzumBuildTool/Program.cs:588-598 | filtering distributes over concatenation |
| `Text.ToLower` | Engine/Source/Programs/FuzzumBuildTool/ModuleRules.cs:172 | lower-casing keeps the length and maps each character |
| `Text.ReplaceChar` | Engine/Source/Programs/FuzzumBuildTool/Program.cs:558-560 | `Replace(a, b)` changes exactly the `a` characters into `b` |
| `Text.RemoveAll` | Engine/Source/Programs/FuzzumBuildTool/ModuleRules.cs:68 | `Replace(pattern, "")` never lengthens and leaves a string without the pattern unchanged |
| `Text.FileName` | Engine/Source/Programs/FuzzumBuildTool/Program.cs:559 | the file name has no separator |
| `Text.FileNameIsSuffix` | Engine/Source/Programs/FuzzumBuildTool/Program.cs:559 | the file name ends the path |
| `Text.FileNameAppend` | Engine/Source/Programs/FuzzumBuildTool/Program.cs:559 | appending separator-free text to a path extends its file name by that text |
| `Text.StemAndExtension` | Engine/Source/Programs/FuzzumBuildTool/Program.cs:769-770 | for a separator-free name `base + ext` the stem is `base` and the extension `ext` |
| `Text.ExtensionOfSuffix` | Engine/Source/Programs/FuzzumBuildTool/Program.cs:769-770 | a path ending in an extension has that extension, and its stem is the file name before it |
| `Text.NotContainsIgnoreCase` | Engine/Source/Programs/FuzzumBuildTool/Program.cs:708-709 | text without the first letter of a word in either case does not contain the word |
| `Text.StartsWithIgnoreCase` | Engine/Source/Programs/FuzzumBuildTool/Program.cs:708-709 | text starting with a word, up to case, contains it |
| `Text.JoinedWritesEvery` | Engine/Source/Programs/FuzzumBuildTool/Program.cs:941-956 | a loop that writes each item in turn leaves every formatted item in the output |
| `Dependencies.AdoptPlatform` | Engine/Source/Programs/FuzzumBuildTool/Program.cs:278-283 | a module with no platform flag takes the target's flags, any other is kept; afterwards some flag is set |
| `Dependencies.RegistryOfKeys` | Engine/Source/Programs/FuzzumBuildTool/Program.cs:274-286 | the registry holds exactly the names of the created modules |
| `Dependencies.RegistryOfLastWins` | Engine/Source/Programs/FuzzumBuildTool/Program.cs:285 | under each name the registry holds the last module created with it |
| `Dependencies.BuildRegistry` | Engine/Source/Programs/FuzzumBuildTool/Program.cs:274-286 | the registry loop builds that registry |
| `Dependencies.ClosedContainsReachable` | Engine/Source/Programs/FuzzumBuildTool/Program.cs:101-124 | a name set closed under the dependency edges holds everything reachable from its members |
| `Dependencies.GetAllDependencies` | Engine/Source/Programs/FuzzumBuildTool/Program.cs:95-127 | with a visited set: the newly visited names other than the start, without repeats; a visited start gives nothing, an unregistered one only marks itself; the result is closed under the edges |
| `Dependencies.VisitDependencies` | Engine/Source/Programs/FuzzumBuildTool/Program.cs:99-126 | for a registered start not yet visited: the start is marked, and the same guarantees hold with the start's own edges followed |
| `Dependencies.VisitDependency` | Engine/Source/Programs/FuzzumBuildTool/Program.cs:107-111 | a dependency not yet visited is added, then what its walk adds, keeping the list repeat-free, closed and reachable |
| `Dependencies.AllDependencies` | Engine/Source/Programs/FuzzumBuildTool/Program.cs:95-127 | from scratch: exactly the names reachable over public and private edges other than the start, each once; unregistered names listed but not followed; an unregistered start gives nothing |
| `Dependencies.ModulesForNinja` | Engine/Source/Programs/FuzzumBuildTool/Program.cs:480-489 | the walk is exactly the names reachable from some root (the same union as 293-304) |
| `NinjaFlags.PlatformName` | Engine/Source/Programs/FuzzumBuildTool/Program.cs:383 | the platform word is windows, linux or macos |
| `NinjaFlags.GetPlatformCFlags` | Engine/Source/Programs/FuzzumBuildTool/Program.cs:995-1006 | an unknown platform gives nothing; Windows flags start with the Windows defines |
| `NinjaFlags.GetPlatformLdFlags` | Engine/Source/Programs/FuzzumBuildTool/Program.cs:1008-1023 | Windows gives the lld-link flags for every architecture; an unknown platform gives nothing |
| `NinjaFlags.GetTargetTriple` | Engine/Source/Programs/FuzzumBuildTool/Program.cs:1025-1051 | a known platform gives a `-target` flag, with the x86_64 triple for any other architecture; an unknown platform gives nothing |
| `NinjaFlags.TablesMatchInlineCompileFlags` | Engine/Source/Programs/FuzzumBuildTool/Program.cs:403-410 | for x86_64 the compile-flag and triple tables give what the generator writes inline |
| `NinjaFlags.TableDiffersFromInlineLdFlags` | Engine/Source/Programs/FuzzumBuildTool/Program.cs:412-415 | the linker-flag table differs from the inline linker flags on every platform |
| `NinjaFlags.GlobalIncludeLines` | Engine/Source/Programs/FuzzumBuildTool/Program.cs:472-475 | one `includes = $includes -I"<path>"` line per global include path, in order |
| `NinjaFlags.WritePreamble` | Engine/Source/Programs/FuzzumBuildTool/Program.cs:386-477 | writes the head, the rules, the global include lines and an empty line |
| `NinjaCompile.HexRoundTrip` | Engine/Source/Programs/FuzzumBuildTool/Program.cs:563 | `ToString("X8")` of a number below 16^8 reads back as that number |
| `NinjaCompile.HashText` | Engine/Source/Programs/FuzzumBuildTool/Program.cs:563 | the hash text is 8 hexadecimal digits denoting the absolute value of the hash |
| `NinjaCompile.HashTextInjective` | Engine/Source/Programs/FuzzumBuildTool/Program.cs:563 | equal hash texts come from hashes equal up to sign |
| `NinjaCompile.SafeName` | Engine/Source/Programs/FuzzumBuildTool/Program.cs:558-560 | '/', '\\' and ':' become '_', all else is kept |
| `NinjaCompile.SafeNameCollision` | Engine/Source/Programs/FuzzumBuildTool/Program.cs:558 | Core/Math, Core_Math and Core:Math have one safe name |
| `NinjaCompile.ObjectPath` | Engine/Source/Programs/FuzzumBuildTool/Program.cs:558-565 | the object path is `<temp>/<safe module>_<safe file stem>_<hash>.o`, where the safe names have `/`, `\` and `:` replaced by `_` |
| `NinjaCompile.ObjectPathInjective` | Engine/Source/Programs/FuzzumBuildTool/Program.cs:558-565 | within one module, two sources with equal-width hashes share an object path only when their safe stems and their hashes are equal |
| `NinjaCompile.SourceFallbackAddsNothing` | Engine/Source/Programs/FuzzumBuildTool/Program.cs:539-543 | the `SourceFiles` fallback adds nothing: the sources are the public then the private ones |
| `NinjaCompile.CollectModuleData` | Engine/Source/Programs/FuzzumBuildTool/Program.cs:504-529 | the first loop fills the include, library and definition tables for the registered modules of the walk |
| `NinjaCompile.GatherAppend` | Engine/Source/Programs/FuzzumBuildTool/Program.cs:588-598 | gathering over two name lists is the concatenation of gathering over each, so the module's own entries come before its dependencies' |
| `NinjaCompile.GatherMembers` | Engine/Source/Programs/FuzzumBuildTool/Program.cs:588-598 | a string is gathered exactly when it is a non-empty entry of a listed name the table has |
| `NinjaCompile.EdgeIncludesMembers` | Engine/Source/Programs/FuzzumBuildTool/Program.cs:571-598 | an edge's include list holds exactly the non-empty include paths of the module and its direct dependencies |
| `NinjaCompile.EdgeIncludesSound` | Engine/Source/Programs/FuzzumBuildTool/Program.cs:571-598 | every entry of an edge's include list is a non-empty include path of the module or of a direct dependency |
| `NinjaCompile.EdgeIncludesComplete` | Engine/Source/Programs/FuzzumBuildTool/Program.cs:571-598 | every non-empty include path of the module or of a direct dependency is in the edge's include list |
| `NinjaCompile.EdgeDefinesHaveGlobals` | Engine/Source/Programs/FuzzumBuildTool/Program.cs:626-634 | every non-empty global definition reaches every compile edge |
| `NinjaCompile.FlagsWriteEveryItem` | Engine/Source/Programs/FuzzumBuildTool/Program.cs:642-656 | every item is written as ` <before><item><after>` |
| `NinjaCompile.CompileEdgeLines` | Engine/Source/Programs/FuzzumBuildTool/Program.cs:637-661 | an edge is `build <obj>: cxx <src>`, an includes line only with includes, a defines line only with definitions, then an empty line |
| `NinjaCompile.CompileEdgeNamesEveryInclude` | Engine/Source/Programs/FuzzumBuildTool/Program.cs:640-648 | the includes line names each include path as ` -I"<path>"` |
| `NinjaCompile.CompileEdgeNamesEveryDefine` | Engine/Source/Programs/FuzzumBuildTool/Program.cs:650-659 | the defines line names each definition as ` -D<def>` |
| `NinjaCompile.ModuleObjectsAreCompilableSources` | Engine/Source/Programs/FuzzumBuildTool/Program.cs:545-566 | a module's object files are exactly the object paths of its compilable sources |
| `NinjaCompile.ModuleObjectsEmpty` | Engine/Source/Programs/FuzzumBuildTool/Program.cs:545-555 | a module has no object file exactly when none of its sources is compilable |
| `NinjaCompile.ObjectTableKeys` | Engine/Source/Programs/FuzzumBuildTool/Program.cs:664-671 | `moduleObjectFiles` has a module exactly when it is a registered module of the walk with a compilable source |
| `NinjaCompile.CompileModule` | Engine/Source/Programs/FuzzumBuildTool/Program.cs:535-671 | the loop over one module's sources fails exactly on a compilable source hashing to the least int32, else gives that module's objects and edges |
| `NinjaCompile.CompileAll` | Engine/Source/Programs/FuzzumBuildTool/Program.cs:533-672 | the compile loop fails exactly when some registered module of the walk overflows; otherwise it gives the object table and the compile edges |
| `NinjaLink.PlanForBuildType` | Engine/Source/Programs/FuzzumBuildTool/Program.cs:696-737 | Executable selects link_exe with `<m>.exe`/`<m>`; DynamicLibrary selects link_dll with `<m>.dll`, `lib<m>.so` or `lib<m>.dylib` |
| `NinjaLink.LinkLibUnreachable` | Engine/Source/Programs/FuzzumBuildTool/Program.cs:731-737 | no build type reaches link_lib |
| `NinjaLink.PlanAgreesWithOutputName` | Engine/Source/Programs/FuzzumBuildTool/Program.cs:712-728 | with the target's platform flags, the link loop's file name is the module's `GetOutputName()` |
| `NinjaLink.PlanOutputPath` | Engine/Source/Programs/FuzzumBuildTool/Program.cs:763-773 | the output path lies under `Binaries/` |
| `NinjaLink.RenameNotRechecked` | Engine/Source/Programs/FuzzumBuildTool/Program.cs:766-774 | when both the path and its renamed form are taken, the renamed, taken path is used |
| `NinjaLink.PlanOutputPathKeepsExtension` | Engine/Source/Programs/FuzzumBuildTool/Program.cs:763-773 | renamed or not, the path keeps the file name's extension |
| `NinjaLink.DepOutputsMembers` | Engine/Source/Programs/FuzzumBuildTool/Program.cs:816-823 | the `||` inputs are exactly the recorded outputs of direct dependencies |
| `NinjaLink.LinkEdgeNamesEveryInput` | Engine/Source/Programs/FuzzumBuildTool/Program.cs:778-834 | the link edge names every object file of the module and every dependency output |
| `NinjaLink.FormatLibCases` | Engine/Source/Programs/FuzzumBuildTool/Program.cs:944-955 | a library is quoted on Windows when it contains ".lib", written as is when it starts with "-", else as `-l<lib>` |
| `NinjaLink.FormatLibsWriteEveryLib` | Engine/Source/Programs/FuzzumBuildTool/Program.cs:941-956 | the written library list contains the formatted form of every library |
| `NinjaLink.LibsLinesNameEveryLib` | Engine/Source/Programs/FuzzumBuildTool/Program.cs:921-958 | the libs line is written exactly when there are libraries or dependencies, and it names every library in its formatted form |
| `NinjaLink.ImplibRefsEmpty` | Engine/Source/Programs/FuzzumBuildTool/Program.cs:926-939 | with no output ending in ".lib" the import-library references are empty |
| `NinjaLink.LinkPhaseModules` | Engine/Source/Programs/FuzzumBuildTool/Program.cs:676-693 | exactly the registered modules of the walk with object files are linked, each recorded once |
| `NinjaLink.LinkPhaseOutputsUnderBin` | Engine/Source/Programs/FuzzumBuildTool/Program.cs:763-774 | every output path lies under `Binaries/` |
| `NinjaLink.WindowsOutputsAreExeOrDll` | Engine/Source/Programs/FuzzumBuildTool/Program.cs:708-774 | on Windows every output ends in .exe or .dll |
| `NinjaLink.WindowsFileNamesInjective` | Engine/Source/Programs/FuzzumBuildTool/Program.cs:712-728 | on Windows different modules get different paths |
| `NinjaLink.WindowsOutputsNotRenamed` | Engine/Source/Programs/FuzzumBuildTool/Program.cs:763-774 | on Windows, with each module listed once, no output is renamed and the taken paths are the outputs |
| `NinjaLink.WindowsImplibRefsNeverWritten` | Engine/Source/Programs/FuzzumBuildTool/Program.cs:926-939 | so on Windows the import-library references are never written |
| `NinjaLink.OutputsInOrderMembers` | Engine/Source/Programs/FuzzumBuildTool/Program.cs:969-973 | the all edge lists the output of every linked module |
| `NinjaLink.AllEdgeNamesEveryOutput` | Engine/Source/Programs/FuzzumBuildTool/Program.cs:964-978 | after the link loop the all edge and `default all` are written and name every linked module's output |
| `NinjaLink.CollectLibraries` | Engine/Source/Programs/FuzzumBuildTool/Program.cs:837-918 | the libraries are the module's own as they are, then the non-empty dependency, system and global ones |
| `NinjaLink.WriteLibsLine` | Engine/Source/Programs/FuzzumBuildTool/Program.cs:921-958 | the libs line is written when there are libraries or dependencies, with each distinct library formatted once |
| `NinjaLink.LinkModule` | Engine/Source/Programs/FuzzumBuildTool/Program.cs:679-961 | one pass of the link loop |
| `NinjaLink.LinkAll` | Engine/Source/Programs/FuzzumBuildTool/Program.cs:675-962 | the link loop over the walk |
| `NinjaLink.WriteAllEdge` | Engine/Source/Programs/FuzzumBuildTool/Program.cs:964-978 | the all edge is written exactly when something was linked |
| `Ninja.GenerateNinjaFile` | Engine/Source/Programs/FuzzumBuildTool/Program.cs:372-990 | the whole file: head, compile edges, link edges, all edge, or the hash overflow |
| `Ninja.LinkedModulesOfTheWalk` | Engine/Source/Programs/FuzzumBuildTool/Program.cs:480-489 | a module is linked exactly when it is reachable from a root, registered and has a compilable source, whatever the walk's order |
| `Ninja.GeneratedFileFrame` | Engine/Source/Programs/FuzzumBuildTool/Program.cs:386-978 | the file opens with the banner and, when something was linked, ends with the all edge and `default all` |

## Left out

- The front end of `Main`: argument checks, finding and compiling the `*.Build.cs` files, and loading them by
  reflection (`CreateModule`). Module records are inputs. Reflection's null and exception fallbacks
  (the null `BuildType` defaulting and the Engine fallbacks of the link loop) cannot be reached, because
  `BuildType` is a non-nullable enum with a default.
- Console output, directory creation, opening the output file and writing it to disk. The file is the list
  of lines written.
- `string.GetHashCode` is randomised per process. It is the parameter `hashCode`.
- The order of `HashSet<string>` enumeration is the parameter `order`.
- The dictionary `moduleOutputs` lists its values in insertion order. That is what .NET does for a dictionary
  that never loses an entry, and the model records it as `linked`.
- `Ninja.GenerateNinjaFile`: when `Math.Abs` throws, the lines written up to then stay in the file. The model
  returns `HashOverflow` without them.
- `ToLower` and `IndexOf(…, OrdinalIgnoreCase)` are modelled for ASCII letters only. Culture-sensitive
  `EndsWith(".lib")`/`StartsWith("-")` are modelled as ordinal comparisons.
- `Path.GetFileName`/`GetExtension` treat '/' and '\\' as separators, as on a Windows host. Drive-root
  and volume-separator handling is not modelled.
- `NinjaFlags.HeadLines` and `NinjaFlags.RuleLines` are given without a contract of their own. They are
  exactly the fixed text of those lines, and `NinjaFlags.WritePreamble` is proved against them.
- ModuleManager.cpp/.h (dynamic library loading under a mutex), Engine.cpp, CoreUObject.cpp and Logging.cpp
  (console output, sleeping, floating-point ticking), and the macro headers are not part of this model:
  they are foreign calls, concurrency or configuration.
- Core.Build.cs, CoreUObject.Build.cs and Engine.Build.cs are configuration data. Only the target file is used, as
  `Targets.FuzzumEngineTarget`.
