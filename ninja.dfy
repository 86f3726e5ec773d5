/** Program.cs, `GenerateNinjaFile`: the whole Ninja file for one target, as the list of its lines. */
module Ninja {
  import opened Text
  import opened Targets
  import opened Dependencies
  import opened NinjaFlags
  import opened NinjaCompile
  import opened NinjaLink

  /** The file's lines, or the exception `Math.Abs` throws when a source's hash code is the least 32-bit
      integer (the lines written up to that point are not modelled). */
  datatype Outcome = Generated(lines: seq<string>) | HashOverflow

  /** `temp_path_ninja` once `Main` has appended the target name. */
  function TempDir(targetName: string): string {
    TempPath + "/" + targetName
  }

  /** The walk the three module loops run over: the target's modules and everything they depend on. */
  ghost predicate IsWalk(reg: Registry, roots: seq<string>, order: seq<string>) {
    NoDuplicates(order) &&
    forall x :: x in order <==> exists k :: 0 <= k < |roots| && Reachable(reg, roots[k], x)
  }

  /** The file: head and global includes, the compile edges, the link edges, the all edge. */
  function NinjaFile(target: TargetRules, reg: Registry, targetName: string, order: seq<string>,
                     hashCode: string -> int32): Outcome
  {
    if PhaseOverflows(reg, order, hashCode) then HashOverflow
    else
      var tempDir := TempDir(targetName);
      var objTable := ObjectTable(reg, order, tempDir, hashCode);
      var st := LinkPhase(reg, order, objTable, LibraryTable(reg, order), target);
      Generated(HeadLines(target, targetName) + GlobalIncludeLines(target.GlobalIncludePaths) + [""]
                + CompilePhaseLines(reg, order, IncludeTable(reg, order), DefinitionTable(reg, order),
                                    target.GlobalDefinitions, tempDir, hashCode)
                + st.lines + AllLines(st))
  }

  /** `GenerateNinjaFile`, given the order in which the walk's hash set lists its modules. */
  method GenerateNinjaFile(target: TargetRules, reg: Registry, targetName: string, order: seq<string>,
                           hashCode: string -> int32)
    returns (outcome: Outcome)
    requires IsWalk(reg, target.Modules, order)
    ensures outcome == NinjaFile(target, reg, targetName, order, hashCode)
  {
    var lines := WritePreamble(target, targetName);
    var incs, libs, defs := CollectModuleData(reg, order);
    var tempDir := TempDir(targetName);
    var ok, objTable, compileLines := CompileAll(reg, order, incs, defs, target.GlobalDefinitions, tempDir, hashCode);
    if !ok {
      return HashOverflow;
    }
    var st := LinkAll(reg, order, objTable, libs, target);
    var allLines := WriteAllEdge(st);
    outcome := Generated(lines + compileLines + st.lines + allLines);
  }

  /** The modules that get a link edge (and an entry in the all edge) are exactly the registered modules of
      the walk with a compilable source, whatever order the walk is enumerated in. */
  lemma LinkedModulesOfTheWalk(target: TargetRules, reg: Registry, targetName: string, order: seq<string>,
                               hashCode: string -> int32, n: string)
    requires IsWalk(reg, target.Modules, order)
    requires !PhaseOverflows(reg, order, hashCode)
    ensures n in LinkPhase(reg, order, ObjectTable(reg, order, TempDir(targetName), hashCode),
                           LibraryTable(reg, order), target).outputs
      <==> (exists k :: 0 <= k < |target.Modules| && Reachable(reg, target.Modules[k], n)) && n in reg &&
           exists x :: x in ModuleSources(reg[n]) && IsCompilable(x)
  {
    var objTable := ObjectTable(reg, order, TempDir(targetName), hashCode);
    LinkPhaseModules(reg, order, objTable, LibraryTable(reg, order), target);
    ObjectTableKeys(reg, order, TempDir(targetName), hashCode, n);
  }

  /** A generated file opens with the generator's banner and, when some module was linked, closes with the
      default target. */
  lemma GeneratedFileFrame(target: TargetRules, reg: Registry, targetName: string, order: seq<string>,
                           hashCode: string -> int32)
    requires !PhaseOverflows(reg, order, hashCode)
    ensures var lines := NinjaFile(target, reg, targetName, order, hashCode).lines;
      |lines| > 0 && lines[0] == "# Generated by FuzzumBuildTool"
    ensures var st := LinkPhase(reg, order, ObjectTable(reg, order, TempDir(targetName), hashCode),
                                LibraryTable(reg, order), target);
      var lines := NinjaFile(target, reg, targetName, order, hashCode).lines;
      |st.outputs| > 0 ==> lines[|lines| - 2..] == ["build all: phony" + Flags(OutputsInOrder(st.outputs, st.linked), "", ""), "default all"]
  {
  }
}
