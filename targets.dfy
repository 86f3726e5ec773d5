/** TargetRules.cs: the build target record and its derived predicates. */
module Targets {

  datatype TargetType = Game | Editor | Program
  datatype TargetPlatform = Win64 | Linux | Mac

  /** The name of an enum value as `ToString()` writes it. */
  function TypeName(t: TargetType): string {
    match t
    case Game => "Game"
    case Editor => "Editor"
    case Program => "Program"
  }

  /** The target record. `Name` is fixed by the constructor: the update functions below leave it as it is. */
  datatype TargetRules = TargetRules(
    Name: string,
    Type: TargetType,
    Platform: TargetPlatform,
    Modules: seq<string>,
    GlobalDefinitions: seq<string>,
    GlobalIncludePaths: seq<string>,
    GlobalLibraries: seq<string>)
  {
    predicate IsEditor() { Type == Editor }
    predicate IsGame() { Type == Game }

    predicate IsPlatformWindows() { Platform == Win64 }
    predicate IsPlatformLinux() { Platform == Linux }
    predicate IsPlatformMac() { Platform == Mac }

    function WithType(t: TargetType): (r: TargetRules)
      ensures r.Name == Name && r.Type == t && r.Platform == Platform && r.Modules == Modules
      ensures r.GlobalDefinitions == GlobalDefinitions && r.GlobalIncludePaths == GlobalIncludePaths && r.GlobalLibraries == GlobalLibraries
    {
      this.(Type := t)
    }

    function WithPlatform(p: TargetPlatform): (r: TargetRules)
      ensures r.Name == Name && r.Platform == p && r.Type == Type && r.Modules == Modules
      ensures r.GlobalDefinitions == GlobalDefinitions && r.GlobalIncludePaths == GlobalIncludePaths && r.GlobalLibraries == GlobalLibraries
    {
      this.(Platform := p)
    }

    function WithModules(ms: seq<string>): (r: TargetRules)
      ensures r.Name == Name && r.Modules == ms && r.Type == Type && r.Platform == Platform
      ensures r.GlobalDefinitions == GlobalDefinitions && r.GlobalIncludePaths == GlobalIncludePaths && r.GlobalLibraries == GlobalLibraries
    {
      this.(Modules := ms)
    }

    function WithGlobals(defs: seq<string>, incs: seq<string>, libs: seq<string>): (r: TargetRules)
      ensures r.Name == Name && r.Modules == Modules && r.Type == Type && r.Platform == Platform
      ensures r.GlobalDefinitions == defs && r.GlobalIncludePaths == incs && r.GlobalLibraries == libs
    {
      this.(GlobalDefinitions := defs, GlobalIncludePaths := incs, GlobalLibraries := libs)
    }
  }

  /** `protected TargetRules(string name)`: the enum properties take their first values and the lists start empty. */
  function NewTarget(name: string): (t: TargetRules)
    ensures t.Name == name
    ensures t.Type == Game && t.Platform == Win64
    ensures t.Modules == [] && t.GlobalDefinitions == [] && t.GlobalIncludePaths == [] && t.GlobalLibraries == []
  {
    TargetRules(name, Game, Win64, [], [], [], [])
  }

  /** Exactly one platform predicate holds, the one named by `Platform`. */
  lemma ExactlyOnePlatform(t: TargetRules)
    ensures t.IsPlatformWindows() <==> (!t.IsPlatformLinux() && !t.IsPlatformMac())
    ensures t.IsPlatformLinux() ==> !t.IsPlatformMac()
    ensures t.IsPlatformWindows() || t.IsPlatformLinux() || t.IsPlatformMac()
  {
  }

  /** A target is never both an editor and a game target; a program target is neither. */
  lemma EditorGameExclusive(t: TargetRules)
    ensures !(t.IsEditor() && t.IsGame())
    ensures t.Type == Program ==> !t.IsEditor() && !t.IsGame()
  {
  }

  /** FuzzumEngine.Target.cs as a concrete instance: a Win64 program target whose root module is Engine. */
  function FuzzumEngineTarget(): (t: TargetRules)
    ensures t.Name == "FuzzumEngine" && t.Type == Program && t.IsPlatformWindows() && t.Modules == ["Engine"]
    ensures t.GlobalDefinitions == ["ENGINE_BUILD=1", "WITH_LOGGING=1", "DEBUG_ENABLED=1"]
    ensures t.GlobalIncludePaths == ["Modules"] && t.GlobalLibraries == []
  {
    NewTarget("FuzzumEngine")
      .WithType(Program)
      .WithPlatform(Win64)
      .WithModules(["Engine"])
      .WithGlobals(["ENGINE_BUILD=1", "WITH_LOGGING=1", "DEBUG_ENABLED=1"], ["Modules"], [])
  }
}
