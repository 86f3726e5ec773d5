/** ModuleRules.cs: the module record, its property aliases and its pure queries. */
module Rules {
  import opened Text
  import Targets

  datatype ModuleCategory = Runtime | Editor
  datatype ModuleBuildType = Executable | DynamicLibrary

  /** The name of a build type as `ToString()` writes it. */
  function BuildTypeName(b: ModuleBuildType): string {
    match b
    case Executable => "Executable"
    case DynamicLibrary => "DynamicLibrary"
  }

  /** The module record. `SourceFiles`, `PublicDependencyModuleNames` and `PrivateDependencyModuleNames`
      are not fields: they are the aliases below, which read and write the fields they stand for. */
  datatype ModuleRules = ModuleRules(
    Name: string,
    Category: ModuleCategory,
    BuildType: ModuleBuildType,
    PublicDependencies: seq<string>,
    PrivateDependencies: seq<string>,
    PublicIncludePaths: seq<string>,
    PrivateIncludePaths: seq<string>,
    PublicAdditionalLibraries: seq<string>,
    PrivateAdditionalLibraries: seq<string>,
    PublicSourceFiles: seq<string>,
    PrivateSourceFiles: seq<string>,
    PublicDefinitions: seq<string>,
    PrivateDefinitions: seq<string>,
    DynamicallyLoadedModuleNames: seq<string>,
    PublicIncludePathModuleNames: seq<string>,
    PrivateIncludePathModuleNames: seq<string>,
    PublicSystemLibraries: seq<string>,
    PublicFrameworks: seq<string>,
    PublicDelayLoadDLLs: seq<string>,
    IsPlatformWindows: bool,
    IsPlatformLinux: bool,
    IsPlatformMac: bool)
  {
    // ---- aliased list properties ----

    function SourceFiles(): seq<string> { PrivateSourceFiles }
    function PublicDependencyModuleNames(): seq<string> { PublicDependencies }
    function PrivateDependencyModuleNames(): seq<string> { PrivateDependencies }

    /** Writing `SourceFiles` writes `PrivateSourceFiles`, and nothing else. */
    function SetSourceFiles(v: seq<string>): (m: ModuleRules)
      ensures m.PrivateSourceFiles == v && m.SourceFiles() == v
      ensures m.PublicSourceFiles == PublicSourceFiles && m.Name == Name
      ensures m == this.(PrivateSourceFiles := v)
    {
      this.(PrivateSourceFiles := v)
    }

    /** Writing `PublicDependencyModuleNames` writes `PublicDependencies`, and nothing else. */
    function SetPublicDependencyModuleNames(v: seq<string>): (m: ModuleRules)
      ensures m.PublicDependencies == v && m.PublicDependencyModuleNames() == v
      ensures m.PrivateDependencies == PrivateDependencies && m.Name == Name
      ensures m == this.(PublicDependencies := v)
    {
      this.(PublicDependencies := v)
    }

    /** Writing `PrivateDependencyModuleNames` writes `PrivateDependencies`, and nothing else. */
    function SetPrivateDependencyModuleNames(v: seq<string>): (m: ModuleRules)
      ensures m.PrivateDependencies == v && m.PrivateDependencyModuleNames() == v
      ensures m.PublicDependencies == PublicDependencies && m.Name == Name
      ensures m == this.(PrivateDependencies := v)
    {
      this.(PrivateDependencies := v)
    }

    // ---- build kind and category ----

    function IsExe(): (b: bool)
      ensures b <==> !IsDll()
    {
      BuildType == Executable
    }

    function IsDll(): bool {
      BuildType == DynamicLibrary
    }

    function IsEditor(): (b: bool)
      ensures b <==> !IsRuntime()
    {
      Category == ModuleCategory.Editor
    }

    function IsRuntime(): bool {
      Category == Runtime
    }

    // ---- queries ----

    /** The artifact file name for this module's build type and platform flags. */
    function GetOutputName(): (r: string)
      ensures BuildType == Executable && IsPlatformWindows ==> r == Name + ".exe"
      ensures BuildType == Executable && !IsPlatformWindows ==> r == Name
      ensures BuildType == DynamicLibrary && IsPlatformWindows ==> r == Name + ".dll"
      ensures BuildType == DynamicLibrary && !IsPlatformWindows && IsPlatformLinux ==> r == "lib" + Name + ".so"
      ensures BuildType == DynamicLibrary && !IsPlatformWindows && !IsPlatformLinux ==> r == "lib" + Name + ".dylib"
    {
      match BuildType
      case Executable => if IsPlatformWindows then Name + ".exe" else Name
      case DynamicLibrary =>
        var prefix := if IsPlatformWindows then "" else "lib";
        var suffix := if IsPlatformWindows then ".dll" else if IsPlatformLinux then ".so" else ".dylib";
        prefix + Name + suffix
    }

    /** The export attribute for the module's API macro. */
    function GetModuleAPI(): (r: string)
      ensures !IsDll() ==> r == ""
      ensures IsDll() && IsPlatformWindows ==> r == "__declspec(dllexport)"
      ensures IsDll() && !IsPlatformWindows ==> r == "__attribute__((visibility(\"default\")))"
      ensures r == "" <==> IsExe()
    {
      if !IsDll() then ""
      else if IsPlatformWindows then "__declspec(dllexport)"
      else "__attribute__((visibility(\"default\")))"
    }

    /** The linker flags for the build type; the platform flags are tried Windows, then Linux, then Mac. */
    function GetLinkerFlags(): (flags: seq<string>)
      ensures IsDll() && IsPlatformWindows ==> flags == ["-shared", "-Wl,--export-all-symbols"]
      ensures IsDll() && !IsPlatformWindows && IsPlatformLinux ==> flags == ["-shared", "-fPIC"]
      ensures IsDll() && !IsPlatformWindows && !IsPlatformLinux && IsPlatformMac ==> flags == ["-dynamiclib", "-fPIC"]
      ensures IsDll() && !IsPlatformWindows && !IsPlatformLinux && !IsPlatformMac ==> flags == []
      ensures IsExe() ==> flags == (if IsPlatformWindows then ["-Wl,/subsystem:console"] else [])
    {
      var flags: seq<string> := [];
      if IsDll() then
        if IsPlatformWindows then flags + ["-shared", "-Wl,--export-all-symbols"]
        else if IsPlatformLinux then flags + ["-shared", "-fPIC"]
        else if IsPlatformMac then flags + ["-dynamiclib", "-fPIC"]
        else flags
      else if IsExe() then
        if IsPlatformWindows then flags + ["-Wl,/subsystem:console"] else flags
      else flags
    }

    /** `IsPlatform(name)`: the lower-cased name selects a flag; an unknown name gives false. */
    function IsPlatform(platform: string): (b: bool)
      ensures ToLower(platform) in {"win64", "windows"} ==> b == IsPlatformWindows
      ensures ToLower(platform) == "linux" ==> b == IsPlatformLinux
      ensures ToLower(platform) == "mac" ==> b == IsPlatformMac
      ensures ToLower(platform) !in {"win64", "windows", "linux", "mac"} ==> !b
    {
      match ToLower(platform)
      case "win64" => IsPlatformWindows
      case "windows" => IsPlatformWindows
      case "linux" => IsPlatformLinux
      case "mac" => IsPlatformMac
      case _ => false
    }
  }

  /** `protected ModuleRules(string name)`: the given name, the property defaults and no platform flag. */
  function NewModule(name: string): (m: ModuleRules)
    ensures m.Name == name
    ensures m.Category == Runtime && m.BuildType == DynamicLibrary
    ensures !m.IsPlatformWindows && !m.IsPlatformLinux && !m.IsPlatformMac
    ensures m.PublicDependencies == [] && m.PrivateDependencies == []
    ensures m.PublicSourceFiles == [] && m.PrivateSourceFiles == []
    ensures m.PublicIncludePaths == [] && m.PrivateIncludePaths == []
    ensures m.PublicAdditionalLibraries == [] && m.PrivateAdditionalLibraries == []
    ensures m.PublicDefinitions == [] && m.PrivateDefinitions == []
    ensures m.DynamicallyLoadedModuleNames == []
    ensures m.PublicIncludePathModuleNames == [] && m.PrivateIncludePathModuleNames == []
    ensures m.PublicSystemLibraries == [] && m.PublicFrameworks == [] && m.PublicDelayLoadDLLs == []
  {
    ModuleRules(name, Runtime, DynamicLibrary, [], [], [], [], [], [], [], [], [], [], [], [], [], [], [], [], false, false, false)
  }

  /** `protected ModuleRules(object target)`: the name is the class name with "Module" removed; a target
      (here always a TargetRules, which has the three properties the constructor looks up) gives the flags. */
  function NewModuleFor(typeName: string, target: Targets.TargetRules): (m: ModuleRules)
    ensures m.Name == RemoveAll(typeName, "Module")
    ensures m.IsPlatformWindows == target.IsPlatformWindows()
    ensures m.IsPlatformLinux == target.IsPlatformLinux()
    ensures m.IsPlatformMac == target.IsPlatformMac()
    ensures m.Category == Runtime && m.BuildType == DynamicLibrary
  {
    NewModule(RemoveAll(typeName, "Module")).(
      IsPlatformWindows := target.IsPlatformWindows(),
      IsPlatformLinux := target.IsPlatformLinux(),
      IsPlatformMac := target.IsPlatformMac())
  }

  /** The constructor without a target object: the same name derivation, no platform flag. */
  function NewModuleUntargeted(typeName: string): (m: ModuleRules)
    ensures m.Name == RemoveAll(typeName, "Module")
    ensures !m.IsPlatformWindows && !m.IsPlatformLinux && !m.IsPlatformMac
  {
    NewModule(RemoveAll(typeName, "Module"))
  }

  /** Type names of the usual shape lose their "Module" suffix. */
  lemma ModuleSuffixRemoved()
    ensures RemoveAll("EngineModule", "Module") == "Engine"
    ensures RemoveAll("CoreUObjectModule", "Module") == "CoreUObject"
  {
    EngineModuleSuffix();
    CoreUObjectModuleSuffix();
  }

  lemma EngineModuleSuffix()
    ensures RemoveAll("EngineModule", "Module") == "Engine"
  {
    RemoveTrailing("Engine", "Module");
    assert "Engine" + "Module" == "EngineModule";
  }

  lemma CoreUObjectModuleSuffix()
    ensures RemoveAll("CoreUObjectModule", "Module") == "CoreUObject"
  {
    RemoveTrailing("CoreUObject", "Module");
    assert "CoreUObject" + "Module" == "CoreUObjectModule";
  }

  /** A name that holds no letter of the pattern's first character loses only the trailing pattern. */
  lemma {:induction false} RemoveTrailing(x: string, pattern: string)
    requires |pattern| > 0
    requires forall j :: 0 <= j < |x| ==> x[j] != pattern[0]
    ensures RemoveAll(x + pattern, pattern) == x
    decreases |x|
  {
    var s := x + pattern;
    if |x| == 0 {
      assert s == pattern;
      assert StartsWith(s, pattern);
      assert s[|pattern|..] == "";
    } else {
      assert s[0] == x[0];
      assert !StartsWith(s, pattern);
      assert s[1..] == x[1..] + pattern;
      RemoveTrailing(x[1..], pattern);
      assert [x[0]] + x[1..] == x;
    }
  }

  /** The string constructor never sets a platform flag, so the `if (IsPlatformWindows)` branches of
      Engine.Build.cs see false: the Engine record built from it has no Windows libraries. */
  lemma StringConstructorSetsNoPlatform(name: string)
    ensures !NewModule(name).IsPlatform("Win64")
    ensures !NewModule(name).IsPlatform("linux") && !NewModule(name).IsPlatform("MAC")
  {
  }
}
