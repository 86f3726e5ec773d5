/** Program.cs, `GenerateNinjaFile`: the link edges (one per registered module with object files) and the
    closing `all` edge. */
module NinjaLink {
  import opened Text
  import opened Rules
  import opened Dependencies
  import opened NinjaCompile
  import opened Targets
  import NinjaFlags

  datatype LinkRule = LinkExe | LinkDll | LinkLib

  function RuleName(r: LinkRule): string {
    match r
    case LinkExe => "link_exe"
    case LinkDll => "link_dll"
    case LinkLib => "link_lib"
  }

  // ---- rule and file name ----

  function ExeName(name: string, p: TargetPlatform): string {
    if p == Win64 then name + ".exe" else name
  }

  function DllName(name: string, p: TargetPlatform): string {
    if p == Win64 then name + ".dll" else if p == Linux then "lib" + name + ".so" else "lib" + name + ".dylib"
  }

  /** The rule and file name the link loop derives from the text of the build type, testing (ignoring case)
      for "executable" or "exe", then "dynamic" or "dll", then "static" or "lib"; text matching none keeps
      link_dll and the bare module name. The Engine module has its own, identical, executable names. */
  function PlanArtifact(buildType: string, name: string, p: TargetPlatform): (LinkRule, string) {
    if ContainsIgnoreCase(buildType, "executable") || ContainsIgnoreCase(buildType, "exe") then
      (LinkExe, if name == "Engine" then (if p == Win64 then "Engine.exe" else "Engine") else ExeName(name, p))
    else if ContainsIgnoreCase(buildType, "dynamic") || ContainsIgnoreCase(buildType, "dll") then
      (LinkDll, DllName(name, p))
    else if ContainsIgnoreCase(buildType, "static") || ContainsIgnoreCase(buildType, "lib") then
      (LinkLib, if p == Win64 then name + ".lib" else "lib" + name + ".a")
    else (LinkDll, name)
  }

  /** The two build types a module can have select link_exe and link_dll, with the platform's file names. */
  lemma PlanForBuildType(b: ModuleBuildType, name: string, p: TargetPlatform)
    ensures PlanArtifact(BuildTypeName(b), name, p) ==
      if b == Executable then (LinkExe, ExeName(name, p)) else (LinkDll, DllName(name, p))
  {
    if b == Executable {
      ExecutableReadsAsExecutable();
      assert "Engine" + ".exe" == "Engine.exe";
    } else {
      DynamicLibraryReadsAsDynamic();
    }
  }

  lemma ExecutableReadsAsExecutable()
    ensures ContainsIgnoreCase(BuildTypeName(Executable), "executable")
  {
    var s, sub := BuildTypeName(Executable), "executable";
    assert s == "Executable";
    forall i | 0 <= i < |sub|
      ensures ToLowerChar(s[i]) == ToLowerChar(sub[i])
    {
      if i > 0 {
        assert s[i] == sub[i];
      }
    }
    StartsWithIgnoreCase(s, sub);
  }

  lemma DynamicLibraryReadsAsDynamic()
    ensures !ContainsIgnoreCase(BuildTypeName(DynamicLibrary), "executable")
    ensures !ContainsIgnoreCase(BuildTypeName(DynamicLibrary), "exe")
    ensures ContainsIgnoreCase(BuildTypeName(DynamicLibrary), "dynamic")
  {
    DynamicLibraryIsNoExecutable();
    DynamicLibraryIsDynamic();
  }

  lemma DynamicLibraryIsNoExecutable()
    ensures !ContainsIgnoreCase(BuildTypeName(DynamicLibrary), "executable")
    ensures !ContainsIgnoreCase(BuildTypeName(DynamicLibrary), "exe")
  {
    var s := BuildTypeName(DynamicLibrary);
    assert s == "DynamicLibrary";
    NotContainsIgnoreCase(s, "executable");
    NotContainsIgnoreCase(s, "exe");
  }

  lemma DynamicLibraryIsDynamic()
    ensures ContainsIgnoreCase(BuildTypeName(DynamicLibrary), "dynamic")
  {
    var s, sub := BuildTypeName(DynamicLibrary), "dynamic";
    assert s == "DynamicLibrary";
    forall i | 0 <= i < |sub|
      ensures ToLowerChar(s[i]) == ToLowerChar(sub[i])
    {
      if i > 0 {
        assert s[i] == sub[i];
      }
    }
    StartsWithIgnoreCase(s, sub);
  }

  /** So the static-library rule is never chosen. */
  lemma LinkLibUnreachable(b: ModuleBuildType, name: string, p: TargetPlatform)
    ensures PlanArtifact(BuildTypeName(b), name, p).0 != LinkLib
  {
    PlanForBuildType(b, name, p);
  }

  /** When a module's platform flags are the target's, the link loop names its artifact as the module's own
      `GetOutputName` does. */
  lemma PlanAgreesWithOutputName(m: ModuleRules, p: TargetPlatform)
    requires m.IsPlatformWindows == (p == Win64) && m.IsPlatformLinux == (p == Linux)
    ensures PlanArtifact(BuildTypeName(m.BuildType), m.Name, p).1 == m.GetOutputName()
  {
    PlanForBuildType(m.BuildType, m.Name, p);
  }

  // ---- the output path ----

  /** `Binaries/<file name>`; when that path is taken, `Binaries/<stem>_<module><extension>` instead. The
      second path is not checked against the taken ones. */
  function PlanOutputPath(used: set<string>, fileName: string, name: string): (path: string)
    ensures StartsWith(path, NinjaFlags.BinPath + "/")
  {
    var dir := NinjaFlags.BinPath + "/";
    var first := dir + fileName;
    var renamed := dir + RenamedFileName(fileName, name);
    assert first[..|dir|] == dir && renamed[..|dir|] == dir;
    if first in used then renamed else first
  }

  /** `<stem>_<module><extension>`. */
  function RenamedFileName(fileName: string, name: string): string {
    Stem(fileName) + "_" + name + Extension(fileName)
  }

  lemma EndsWithAppend(a: string, b: string)
    ensures EndsWith(a + b, b)
  {
    assert (a + b)[|a + b| - |b|..] == b;
  }

  /** A file name `<base><ext>` whose two paths are both taken gets the second one again. So, for module A,
      `A.dll` becomes `Binaries/A_A.dll` even when that is taken; on Linux a module `libx.so` built as an
      executable and a module `x` built as a library give such a first clash. */
  lemma RenameNotRechecked(base: string, ext: string, name: string)
    requires |ext| >= 2 && ext[0] == '.'
    requires forall i :: 0 < i < |ext| ==> ext[i] != '.' && !IsSeparator(ext[i])
    requires forall i :: 0 <= i < |base| ==> !IsSeparator(base[i])
    ensures var dir := NinjaFlags.BinPath + "/";
      PlanOutputPath({dir + (base + ext), dir + (base + "_" + name + ext)}, base + ext, name)
      == dir + (base + "_" + name + ext)
  {
    ExtensionOfSuffix(base, ext);
    FileNameWithoutSeparator(base);
  }

  /** A file name ending in an extension keeps it when renamed. */
  lemma RenamedKeepsExtension(base: string, ext: string, name: string)
    requires |ext| >= 2 && ext[0] == '.'
    requires forall i :: 0 < i < |ext| ==> ext[i] != '.' && !IsSeparator(ext[i])
    ensures EndsWith(RenamedFileName(base + ext, name), ext)
  {
    ExtensionOfSuffix(base, ext);
    EndsWithAppend(Stem(base + ext) + "_" + name, ext);
  }

  lemma EndsWithPrepend(a: string, s: string, suffix: string)
    requires EndsWith(s, suffix)
    ensures EndsWith(a + s, suffix)
  {
    assert (a + s)[|a + s| - |suffix|..] == s[|s| - |suffix|..];
  }

  /** So the output path ends in the extension of the file name, renamed or not. */
  lemma PlanOutputPathKeepsExtension(used: set<string>, base: string, ext: string, name: string)
    requires |ext| >= 2 && ext[0] == '.'
    requires forall i :: 0 < i < |ext| ==> ext[i] != '.' && !IsSeparator(ext[i])
    ensures EndsWith(PlanOutputPath(used, base + ext, name), ext)
  {
    var dir := NinjaFlags.BinPath + "/";
    RenamedKeepsExtension(base, ext, name);
    EndsWithPrepend(dir, RenamedFileName(base + ext, name), ext);
    EndsWithAppend(base, ext);
    EndsWithPrepend(dir, base + ext, ext);
  }

  // ---- the link edge ----

  /** The outputs already recorded for the dependencies, in dependency order. */
  function DepOutputs(outputs: map<string, string>, deps: seq<string>): seq<string>
    decreases |deps|
  {
    if |deps| == 0 then []
    else
      var d := deps[|deps| - 1];
      DepOutputs(outputs, deps[..|deps| - 1]) + (if d in outputs then [outputs[d]] else [])
  }

  /** The order-only inputs are the recorded outputs of the dependencies, and nothing else. */
  lemma {:induction false} DepOutputsMembers(outputs: map<string, string>, deps: seq<string>, x: string)
    ensures x in DepOutputs(outputs, deps) <==> exists d :: d in deps && d in outputs && outputs[d] == x
    decreases |deps|
  {
    if |deps| > 0 {
      var init := deps[..|deps| - 1];
      DepOutputsMembers(outputs, init, x);
      if exists d :: d in deps && d in outputs && outputs[d] == x {
        var d :| d in deps && d in outputs && outputs[d] == x;
        if d != deps[|deps| - 1] {
          var j :| 0 <= j < |deps| && deps[j] == d;
          assert init[j] == d;
        }
      }
    }
  }

  /** `build <path>: <rule> <objects...>`, then ` || <dependency outputs...>` when there are any. */
  function LinkEdgeLine(path: string, rule: LinkRule, objs: seq<string>, depOuts: seq<string>): string {
    "build " + path + ": " + RuleName(rule) + Flags(objs, "", "")
    + (if |depOuts| > 0 then " ||" + Flags(depOuts, "", "") else "")
  }

  /** The link edge names every object file of the module and every dependency output given to it. */
  lemma LinkEdgeNamesEveryInput(path: string, rule: LinkRule, objs: seq<string>, depOuts: seq<string>, x: string)
    ensures x in objs ==> Contains(LinkEdgeLine(path, rule, objs, depOuts), " " + x)
    ensures x in depOuts ==> Contains(LinkEdgeLine(path, rule, objs, depOuts), " " + x)
  {
    var head := "build " + path + ": " + RuleName(rule);
    var tail := if |depOuts| > 0 then " ||" + Flags(depOuts, "", "") else "";
    assert LinkEdgeLine(path, rule, objs, depOuts) == head + Flags(objs, "", "") + tail;
    assert " " + "" + x + "" == " " + x;
    if x in objs {
      var k :| 0 <= k < |objs| && objs[k] == x;
      FlagsWriteEveryItem(objs, "", "", k);
      ContainsExtended(head, Flags(objs, "", ""), tail, " " + x);
    }
    if x in depOuts {
      var k :| 0 <= k < |depOuts| && depOuts[k] == x;
      FlagsWriteEveryItem(depOuts, "", "", k);
      ContainsExtended(head + Flags(objs, "", "") + " ||", Flags(depOuts, "", ""), "", " " + x);
      assert head + Flags(objs, "", "") + " ||" + Flags(depOuts, "", "") + "" == head + Flags(objs, "", "") + tail;
    }
  }

  // ---- the libs line ----

  /** The module's own libraries as they are, then the non-empty libraries of its dependencies, its system
      libraries and the target's. */
  function LinkLibraries(reg: Registry, name: string, libTable: Table, globals: seq<string>): seq<string>
    requires name in reg
  {
    var m := reg[name];
    m.PublicAdditionalLibraries + m.PrivateAdditionalLibraries + Gather(libTable, Successors(reg, name))
    + NonEmpty(m.PublicSystemLibraries) + NonEmpty(globals)
  }

  lemma EndsWithContains(s: string, suffix: string)
    ensures EndsWith(s, suffix) ==> Contains(s, suffix)
  {
    if EndsWith(s, suffix) {
      ContainsAt(s, suffix, |s| - |suffix|);
    }
  }

  /** One library: quoted on Windows when it mentions ".lib", as it is when it is a flag, `-l<lib>` otherwise.
      The test for a ".lib" ending adds nothing to the test for ".lib" anywhere. */
  function FormatLib(isWindows: bool, lib: string): string {
    if isWindows && (EndsWith(lib, ".lib") || Contains(lib, ".lib")) then " \"" + lib + "\""
    else if StartsWith(lib, "-") then " " + lib
    else " -l" + lib
  }

  /** The three cases of the formatting: since a name ending in ".lib" contains ".lib", on Windows a name
      containing ".lib" is quoted; otherwise a name starting with '-' is kept and any other gets "-l". */
  lemma FormatLibCases(isWindows: bool, lib: string)
    ensures isWindows && Contains(lib, ".lib") ==> FormatLib(isWindows, lib) == " \"" + lib + "\""
    ensures !(isWindows && Contains(lib, ".lib")) && StartsWith(lib, "-") ==> FormatLib(isWindows, lib) == " " + lib
    ensures !(isWindows && Contains(lib, ".lib")) && !StartsWith(lib, "-") ==> FormatLib(isWindows, lib) == " -l" + lib
  {
    EndsWithContains(lib, ".lib");
  }

  function FormatLibs(isWindows: bool, libs: seq<string>): string
    decreases |libs|
  {
    if |libs| == 0 then "" else FormatLibs(isWindows, libs[..|libs| - 1]) + FormatLib(isWindows, libs[|libs| - 1])
  }

  /** The import-library references written first on Windows: the recorded dependency outputs ending in ".lib". */
  function ImplibRefs(outputs: map<string, string>, deps: seq<string>): string
    decreases |deps|
  {
    if |deps| == 0 then ""
    else
      var d := deps[|deps| - 1];
      ImplibRefs(outputs, deps[..|deps| - 1])
      + (if d in outputs && EndsWith(outputs[d], ".lib") then " \"" + outputs[d] + "\"" else "")
  }

  /** With no recorded output ending in ".lib", nothing is written. */
  lemma {:induction false} ImplibRefsEmpty(outputs: map<string, string>, deps: seq<string>)
    requires forall n :: n in outputs ==> !EndsWith(outputs[n], ".lib")
    ensures ImplibRefs(outputs, deps) == ""
    decreases |deps|
  {
    if |deps| > 0 {
      ImplibRefsEmpty(outputs, deps[..|deps| - 1]);
    }
  }

  /** The libs line, written when there are libraries or dependencies. */
  function LibsLines(isWindows: bool, outputs: map<string, string>, deps: seq<string>, libs: seq<string>): seq<string> {
    if |libs| > 0 || |deps| > 0
    then ["  libs =" + (if isWindows then ImplibRefs(outputs, deps) else "") + FormatLibs(isWindows, Distinct(libs))]
    else []
  }

  /** The list is the join of the formatted libraries. */
  lemma {:induction false} FormatLibsJoined(isWindows: bool, libs: seq<string>)
    ensures FormatLibs(isWindows, libs) == Joined(libs, lib => FormatLib(isWindows, lib))
    decreases |libs|
  {
    if |libs| > 0 {
      FormatLibsJoined(isWindows, libs[..|libs| - 1]);
    }
  }

  /** Every library is formatted into the list. */
  lemma FormatLibsWriteEveryLib(isWindows: bool, libs: seq<string>, k: nat)
    requires k < |libs|
    ensures Contains(FormatLibs(isWindows, libs), FormatLib(isWindows, libs[k]))
  {
    var fmt := lib => FormatLib(isWindows, lib);
    FormatLibsJoined(isWindows, libs);
    JoinedWritesEvery(libs, fmt, k);
    assert fmt(libs[k]) == FormatLib(isWindows, libs[k]);
  }

  /** The libs line is written exactly when there are libraries or dependencies, and it names every library,
      formatted for the platform. */
  lemma LibsLinesNameEveryLib(isWindows: bool, outputs: map<string, string>, deps: seq<string>, libs: seq<string>,
                              lib: string)
    ensures |LibsLines(isWindows, outputs, deps, libs)| == (if |libs| > 0 || |deps| > 0 then 1 else 0)
    ensures lib in libs ==> Contains(LibsLines(isWindows, outputs, deps, libs)[0], FormatLib(isWindows, lib))
  {
    if lib in libs {
      var d := Distinct(libs);
      var k :| 0 <= k < |d| && d[k] == lib;
      FormatLibsWriteEveryLib(isWindows, d, k);
      var refs := if isWindows then ImplibRefs(outputs, deps) else "";
      ContainsExtended("  libs =" + refs, FormatLibs(isWindows, d), "", FormatLib(isWindows, lib));
      assert "  libs =" + refs + FormatLibs(isWindows, d) + "" == LibsLines(isWindows, outputs, deps, libs)[0];
    }
  }

  // ---- the link loop ----

  /** `moduleOutputs` (module to output path), the modules in the order they were first recorded (the order
      `moduleOutputs.Values` lists them in), `outputFiles`, and the lines written. */
  datatype LinkState = LinkState(outputs: map<string, string>, linked: seq<string>, files: set<string>, lines: seq<string>)

  /** One pass of the link loop. */
  function LinkStep(st: LinkState, reg: Registry, objTable: Table, libTable: Table, target: TargetRules, n: string): LinkState {
    if n !in reg || n !in objTable || |objTable[n]| == 0 then st
    else
      var plan := PlanArtifact(BuildTypeName(reg[n].BuildType), n, target.Platform);
      var path := PlanOutputPath(st.files, plan.1, n);
      var deps := Successors(reg, n);
      var libs := LinkLibraries(reg, n, libTable, target.GlobalLibraries);
      LinkState(st.outputs[n := path],
                if n in st.outputs then st.linked else st.linked + [n],
                st.files + {path},
                st.lines + [LinkEdgeLine(path, plan.0, objTable[n], DepOutputs(st.outputs, deps))]
                + LibsLines(target.Platform == Win64, st.outputs, deps, libs) + [""])
  }

  /** The link loop over the modules of the walk. */
  function LinkPhase(reg: Registry, order: seq<string>, objTable: Table, libTable: Table, target: TargetRules): LinkState
    decreases |order|
  {
    if |order| == 0 then LinkState(map[], [], {}, [])
    else LinkStep(LinkPhase(reg, order[..|order| - 1], objTable, libTable, target), reg, objTable, libTable, target,
                  order[|order| - 1])
  }

  /** The modules linked are listed once each, in the order they were linked. */
  ghost predicate Recorded(st: LinkState) {
    NoDuplicates(st.linked) && forall n :: n in st.outputs <==> n in st.linked
  }

  /** Exactly the registered modules of the walk that have object files are linked, each once. */
  lemma {:induction false} LinkPhaseModules(reg: Registry, order: seq<string>, objTable: Table, libTable: Table,
                                           target: TargetRules)
    ensures Recorded(LinkPhase(reg, order, objTable, libTable, target))
    ensures forall n :: n in LinkPhase(reg, order, objTable, libTable, target).outputs <==>
      n in order && n in reg && n in objTable && |objTable[n]| > 0
    decreases |order|
  {
    if |order| > 0 {
      var init := order[..|order| - 1];
      var n := order[|order| - 1];
      LinkPhaseModules(reg, init, objTable, libTable, target);
      var st := LinkPhase(reg, init, objTable, libTable, target);
      if !(n !in reg || n !in objTable || |objTable[n]| == 0) && n !in st.outputs {
        NoDuplicatesAppend(st.linked, [n]);
      }
      assert order == init + [n];
    }
  }

  /** Every output path lies under the binaries directory. */
  lemma {:induction false} LinkPhaseOutputsUnderBin(reg: Registry, order: seq<string>, objTable: Table,
                                                   libTable: Table, target: TargetRules)
    ensures forall n :: n in LinkPhase(reg, order, objTable, libTable, target).outputs ==>
      StartsWith(LinkPhase(reg, order, objTable, libTable, target).outputs[n], NinjaFlags.BinPath + "/")
    decreases |order|
  {
    if |order| > 0 {
      LinkPhaseOutputsUnderBin(reg, order[..|order| - 1], objTable, libTable, target);
    }
  }

  /** On Windows every output is an .exe or a .dll, renamed or not. */
  lemma {:induction false} WindowsOutputsAreExeOrDll(reg: Registry, order: seq<string>, objTable: Table,
                                                    libTable: Table, target: TargetRules)
    requires target.Platform == Win64
    ensures forall n :: n in LinkPhase(reg, order, objTable, libTable, target).outputs ==>
      EndsWith(LinkPhase(reg, order, objTable, libTable, target).outputs[n], ".exe") ||
      EndsWith(LinkPhase(reg, order, objTable, libTable, target).outputs[n], ".dll")
    decreases |order|
  {
    if |order| > 0 {
      var init := order[..|order| - 1];
      var n := order[|order| - 1];
      WindowsOutputsAreExeOrDll(reg, init, objTable, libTable, target);
      var st := LinkPhase(reg, init, objTable, libTable, target);
      if !(n !in reg || n !in objTable || |objTable[n]| == 0) {
        var b := reg[n].BuildType;
        PlanForBuildType(b, n, Win64);
        if b == Executable {
          PlanOutputPathKeepsExtension(st.files, n, ".exe", n);
        } else {
          PlanOutputPathKeepsExtension(st.files, n, ".dll", n);
        }
      }
    }
  }

  /** The file name the link loop picks for a registered module. */
  function PlannedFileName(reg: Registry, n: string, p: TargetPlatform): string
    requires n in reg
  {
    PlanArtifact(BuildTypeName(reg[n].BuildType), n, p).1
  }

  /** On Windows different modules get different file names. */
  lemma WindowsFileNamesInjective(reg: Registry, m: string, n: string)
    requires m in reg && n in reg
    ensures (NinjaFlags.BinPath + "/" + PlannedFileName(reg, m, Win64) ==
             NinjaFlags.BinPath + "/" + PlannedFileName(reg, n, Win64)) ==> m == n
  {
    PlanForBuildType(reg[m].BuildType, m, Win64);
    PlanForBuildType(reg[n].BuildType, n, Win64);
    var dir := NinjaFlags.BinPath + "/";
    var a := dir + PlannedFileName(reg, m, Win64);
    var b := dir + PlannedFileName(reg, n, Win64);
    if a == b {
      assert a[..|dir| + |m|] == dir + m;
      assert b[..|dir| + |n|] == dir + n;
      assert (dir + m)[|dir|..] == m;
      assert (dir + n)[|dir|..] == n;
    }
  }

  /** Every output is the module's planned path under the binaries directory, and every taken path is an
      output. */
  ghost predicate NotRenamed(st: LinkState, reg: Registry) {
    (forall n :: n in st.outputs ==> n in reg && st.outputs[n] == NinjaFlags.BinPath + "/" + PlannedFileName(reg, n, Win64))
    && (forall f :: f in st.files ==> exists n :: n in st.outputs && st.outputs[n] == f)
  }

  /** Linking a module not yet linked keeps the outputs unrenamed. */
  lemma WindowsStepNotRenamed(st: LinkState, reg: Registry, objTable: Table, libTable: Table, target: TargetRules,
                              n: string)
    requires target.Platform == Win64 && NotRenamed(st, reg) && n !in st.outputs
    ensures NotRenamed(LinkStep(st, reg, objTable, libTable, target, n), reg)
  {
    if !(n !in reg || n !in objTable || |objTable[n]| == 0) {
      var first := NinjaFlags.BinPath + "/" + PlannedFileName(reg, n, Win64);
      if first in st.files {
        var m :| m in st.outputs && st.outputs[m] == first;
        WindowsFileNamesInjective(reg, m, n);
      }
      assert PlanOutputPath(st.files, PlannedFileName(reg, n, Win64), n) == first;
      var st' := LinkStep(st, reg, objTable, libTable, target, n);
      assert st'.outputs == st.outputs[n := first];
      assert st'.files == st.files + {first};
      NotRenamedExtend(st, st', reg, n);
    }
  }

  /** Recording a new module under its planned path keeps the state unrenamed. */
  lemma NotRenamedExtend(st: LinkState, st': LinkState, reg: Registry, n: string)
    requires NotRenamed(st, reg) && n in reg && n !in st.outputs
    requires st'.outputs == st.outputs[n := NinjaFlags.BinPath + "/" + PlannedFileName(reg, n, Win64)]
    requires st'.files == st.files + {NinjaFlags.BinPath + "/" + PlannedFileName(reg, n, Win64)}
    ensures NotRenamed(st', reg)
  {
    var first := NinjaFlags.BinPath + "/" + PlannedFileName(reg, n, Win64);
    forall f | f in st'.files
      ensures exists k :: k in st'.outputs && st'.outputs[k] == f
    {
      if f != first {
        var k :| k in st.outputs && st.outputs[k] == f;
        assert k != n;
        assert k in st'.outputs && st'.outputs[k] == f;
      } else {
        assert n in st'.outputs && st'.outputs[n] == f;
      }
    }
  }

  /** On Windows, for a walk listing each module once, no output is ever renamed: each linked module's output
      is `Binaries/<module>.exe` or `Binaries/<module>.dll`, and the taken paths are exactly the outputs. */
  lemma {:induction false} WindowsOutputsNotRenamed(reg: Registry, order: seq<string>, objTable: Table,
                                                   libTable: Table, target: TargetRules)
    requires target.Platform == Win64 && NoDuplicates(order)
    ensures NotRenamed(LinkPhase(reg, order, objTable, libTable, target), reg)
    decreases |order|
  {
    if |order| > 0 {
      var init := order[..|order| - 1];
      var n := order[|order| - 1];
      assert NoDuplicates(init);
      WindowsOutputsNotRenamed(reg, init, objTable, libTable, target);
      LinkPhaseModules(reg, init, objTable, libTable, target);
      assert n !in init;
      WindowsStepNotRenamed(LinkPhase(reg, init, objTable, libTable, target), reg, objTable, libTable, target, n);
    }
  }

  /** So on Windows the import-library references of the libs line are never written. */
  lemma WindowsImplibRefsNeverWritten(reg: Registry, order: seq<string>, objTable: Table, libTable: Table,
                                      target: TargetRules, deps: seq<string>)
    requires target.Platform == Win64
    ensures ImplibRefs(LinkPhase(reg, order, objTable, libTable, target).outputs, deps) == ""
  {
    var outputs := LinkPhase(reg, order, objTable, libTable, target).outputs;
    WindowsOutputsAreExeOrDll(reg, order, objTable, libTable, target);
    forall n | n in outputs
      ensures !EndsWith(outputs[n], ".lib")
    {
      var o := outputs[n];
      if EndsWith(o, ".exe") {
        assert o[|o| - 4..] == ".exe";
      } else {
        assert o[|o| - 4..] == ".dll";
      }
    }
    ImplibRefsEmpty(outputs, deps);
  }

  // ---- the all edge ----

  /** The output paths in the order the modules were linked. */
  function OutputsInOrder(outputs: map<string, string>, linked: seq<string>): seq<string>
    decreases |linked|
  {
    if |linked| == 0 then []
    else
      var n := linked[|linked| - 1];
      OutputsInOrder(outputs, linked[..|linked| - 1]) + (if n in outputs then [outputs[n]] else [])
  }

  /** `build all: phony <outputs...>` and `default all`, when anything was linked. */
  function AllLines(st: LinkState): seq<string> {
    if |st.outputs| > 0
    then ["build all: phony" + Flags(OutputsInOrder(st.outputs, st.linked), "", ""), "default all"]
    else []
  }

  /** The all edge lists the output of every linked module. */
  lemma {:induction false} OutputsInOrderMembers(outputs: map<string, string>, linked: seq<string>, n: string)
    requires n in outputs && n in linked
    ensures outputs[n] in OutputsInOrder(outputs, linked)
    decreases |linked|
  {
    var init := linked[..|linked| - 1];
    if linked[|linked| - 1] != n {
      var j :| 0 <= j < |linked| && linked[j] == n;
      assert init[j] == n;
      OutputsInOrderMembers(outputs, init, n);
    }
  }

  /** After the link loop, the all edge is written exactly when some module was linked, and it names each. */
  lemma AllEdgeNamesEveryOutput(reg: Registry, order: seq<string>, objTable: Table, libTable: Table,
                                target: TargetRules, n: string)
    requires n in order && n in reg && n in objTable && |objTable[n]| > 0
    ensures n in LinkPhase(reg, order, objTable, libTable, target).outputs
    ensures |AllLines(LinkPhase(reg, order, objTable, libTable, target))| == 2
    ensures LinkPhase(reg, order, objTable, libTable, target).outputs[n]
      in OutputsInOrder(LinkPhase(reg, order, objTable, libTable, target).outputs,
                        LinkPhase(reg, order, objTable, libTable, target).linked)
  {
    var st := LinkPhase(reg, order, objTable, libTable, target);
    LinkPhaseModules(reg, order, objTable, libTable, target);
    assert n in st.outputs.Keys;
    OutputsInOrderMembers(st.outputs, st.linked, n);
  }

  // ---- the methods that write them ----

  /** Writes " <item>" for each item. */
  method WriteItems(items: seq<string>) returns (s: string)
    ensures s == Flags(items, "", "")
  {
    s := "";
    var i := 0;
    while i < |items|
      invariant 0 <= i <= |items|
      invariant s == Flags(items[..i], "", "")
    {
      assert items[..i + 1][..i] == items[..i];
      s := s + " " + "" + items[i] + "";
      i := i + 1;
    }
    assert items[..i] == items;
  }

  method CollectDepOutputs(outputs: map<string, string>, deps: seq<string>) returns (r: seq<string>)
    ensures r == DepOutputs(outputs, deps)
  {
    r := [];
    var i := 0;
    while i < |deps|
      invariant 0 <= i <= |deps|
      invariant r == DepOutputs(outputs, deps[..i])
    {
      assert deps[..i + 1][..i] == deps[..i];
      if deps[i] in outputs {
        r := r + [outputs[deps[i]]];
      }
      i := i + 1;
    }
    assert deps[..i] == deps;
  }

  method CollectLibraries(reg: Registry, name: string, libTable: Table, globals: seq<string>) returns (libs: seq<string>)
    requires name in reg
    ensures libs == LinkLibraries(reg, name, libTable, globals)
  {
    var m := reg[name];
    libs := m.PublicAdditionalLibraries + m.PrivateAdditionalLibraries;
    libs := AppendGathered(libs, libTable, m.PublicDependencyModuleNames() + m.PrivateDependencyModuleNames());
    libs := AppendNonEmpty(libs, m.PublicSystemLibraries);
    libs := AppendNonEmpty(libs, globals);
  }

  /** Writes the import-library references of the libs line. */
  method WriteImplibRefs(outputs: map<string, string>, deps: seq<string>) returns (s: string)
    ensures s == ImplibRefs(outputs, deps)
  {
    s := "";
    var i := 0;
    while i < |deps|
      invariant 0 <= i <= |deps|
      invariant s == ImplibRefs(outputs, deps[..i])
    {
      assert deps[..i + 1][..i] == deps[..i];
      if deps[i] in outputs {
        var depPath := outputs[deps[i]];
        if EndsWith(depPath, ".lib") {
          s := s + " \"" + depPath + "\"";
        }
      }
      i := i + 1;
    }
    assert deps[..i] == deps;
  }

  /** Writes each distinct library once. */
  method WriteLibraries(isWindows: bool, libs: seq<string>) returns (s: string)
    ensures s == FormatLibs(isWindows, Distinct(libs))
  {
    s := "";
    var d := Distinct(libs);
    var j := 0;
    while j < |d|
      invariant 0 <= j <= |d|
      invariant s == FormatLibs(isWindows, d[..j])
    {
      assert d[..j + 1][..j] == d[..j];
      var lib := d[j];
      var text;
      if isWindows && (EndsWith(lib, ".lib") || Contains(lib, ".lib")) {
        text := " \"" + lib + "\"";
      } else if StartsWith(lib, "-") {
        text := " " + lib;
      } else {
        text := " -l" + lib;
      }
      assert text == FormatLib(isWindows, lib);
      s := s + text;
      j := j + 1;
    }
    assert d[..j] == d;
  }

  /** Writes the libs line when there are libraries or dependencies. */
  method WriteLibsLine(isWindows: bool, outputs: map<string, string>, deps: seq<string>, libs: seq<string>)
    returns (lines: seq<string>)
    ensures lines == LibsLines(isWindows, outputs, deps, libs)
  {
    lines := [];
    if |libs| > 0 || |deps| > 0 {
      var refs := "";
      if isWindows {
        refs := WriteImplibRefs(outputs, deps);
      }
      var libText := WriteLibraries(isWindows, libs);
      lines := ["  libs =" + refs + libText];
    }
  }

  /** Writes the link edge line. */
  method WriteLinkEdge(path: string, rule: LinkRule, objs: seq<string>, depOuts: seq<string>) returns (line: string)
    ensures line == LinkEdgeLine(path, rule, objs, depOuts)
  {
    var objText := WriteItems(objs);
    line := "build " + path + ": " + RuleName(rule) + objText;
    if |depOuts| > 0 {
      var depText := WriteItems(depOuts);
      line := line + " ||" + depText;
    }
  }

  /** The link loop body for one module of the walk. */
  method LinkModule(st: LinkState, reg: Registry, objTable: Table, libTable: Table, target: TargetRules, n: string)
    returns (st': LinkState)
    ensures st' == LinkStep(st, reg, objTable, libTable, target, n)
  {
    if n !in reg || n !in objTable || |objTable[n]| == 0 {
      return st;
    }
    var plan := PlanArtifact(BuildTypeName(reg[n].BuildType), n, target.Platform);
    var outputPath := PlanOutputPath(st.files, plan.1, n);
    var rules := reg[n];
    var deps := rules.PublicDependencyModuleNames() + rules.PrivateDependencyModuleNames();
    assert deps == Successors(reg, n);
    var depOutputs := CollectDepOutputs(st.outputs, deps);
    var line := WriteLinkEdge(outputPath, plan.0, objTable[n], depOutputs);
    var libs := CollectLibraries(reg, n, libTable, target.GlobalLibraries);
    var libsLines := WriteLibsLine(target.Platform == Win64, st.outputs, deps, libs);
    var linked := if n in st.outputs then st.linked else st.linked + [n];
    st' := LinkState(st.outputs[n := outputPath], linked, st.files + {outputPath}, st.lines + [line] + libsLines + [""]);
  }

  /** The link loop over the modules of the walk. */
  method LinkAll(reg: Registry, order: seq<string>, objTable: Table, libTable: Table, target: TargetRules)
    returns (st: LinkState)
    ensures st == LinkPhase(reg, order, objTable, libTable, target)
  {
    st := LinkState(map[], [], {}, []);
    var i := 0;
    while i < |order|
      invariant 0 <= i <= |order|
      invariant st == LinkPhase(reg, order[..i], objTable, libTable, target)
    {
      assert order[..i + 1][..i] == order[..i];
      st := LinkModule(st, reg, objTable, libTable, target, order[i]);
      i := i + 1;
    }
    assert order[..i] == order;
  }

  /** Writes the all edge after the link loop. */
  method WriteAllEdge(st: LinkState) returns (lines: seq<string>)
    ensures lines == AllLines(st)
  {
    lines := [];
    if |st.outputs| > 0 {
      var outs: seq<string> := [];
      var i := 0;
      while i < |st.linked|
        invariant 0 <= i <= |st.linked|
        invariant outs == OutputsInOrder(st.outputs, st.linked[..i])
      {
        assert st.linked[..i + 1][..i] == st.linked[..i];
        if st.linked[i] in st.outputs {
          outs := outs + [st.outputs[st.linked[i]]];
        }
        i := i + 1;
      }
      assert st.linked[..i] == st.linked;
      var text := WriteItems(outs);
      lines := ["build all: phony" + text, "default all"];
    }
  }
}
