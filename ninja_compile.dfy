/** Program.cs, `GenerateNinjaFile`: the per-module data tables and the compile edges (one `cxx` edge per
    C/C++ source of every registered module). */
module NinjaCompile {
  import opened Text
  import opened Rules
  import opened Dependencies

  /** The range of `string.GetHashCode`. */
  newtype int32 = x: int | -0x8000_0000 <= x < 0x8000_0000
  const MinInt32: int32 := -0x8000_0000

  /** A `Dictionary<string, List<string>>` keyed by module name. */
  type Table = map<string, seq<string>>

  // ---- the source hash: Math.Abs(hash).ToString("X8") ----

  function Pow16(k: nat): (r: nat)
    ensures r >= 1
  {
    if k == 0 then 1 else 16 * Pow16(k - 1)
  }

  predicate IsHexDigit(c: char) {
    '0' <= c <= '9' || 'A' <= c <= 'F'
  }

  function HexDigit(d: nat): (c: char)
    requires d < 16
    ensures IsHexDigit(c)
  {
    if d < 10 then ('0' as int + d) as char else ('A' as int + d - 10) as char
  }

  function DigitValue(c: char): nat {
    if '0' <= c <= '9' then c as int - '0' as int
    else if 'A' <= c <= 'F' then c as int - 'A' as int + 10
    else 0
  }

  /** The `width` low hexadecimal digits of `n`, most significant first, in upper case. */
  function Hex(n: nat, width: nat): (r: string)
    ensures |r| == width
    ensures forall i :: 0 <= i < width ==> IsHexDigit(r[i])
  {
    if width == 0 then "" else Hex(n / 16, width - 1) + [HexDigit(n % 16)]
  }

  /** The number a string of hexadecimal digits denotes. */
  function HexValue(s: string): nat
    decreases |s|
  {
    if |s| == 0 then 0 else HexValue(s[..|s| - 1]) * 16 + DigitValue(s[|s| - 1])
  }

  /** A number below 16^width is written exactly: reading the digits back gives it. */
  lemma {:induction false} HexRoundTrip(n: nat, width: nat)
    requires n < Pow16(width)
    ensures HexValue(Hex(n, width)) == n
  {
    if width > 0 {
      var r := Hex(n, width);
      assert r[..|r| - 1] == Hex(n / 16, width - 1);
      assert n / 16 < Pow16(width - 1);
      HexRoundTrip(n / 16, width - 1);
      assert DigitValue(HexDigit(n % 16)) == n % 16;
    }
  }

  /** `Math.Abs(hash).ToString("X8")`. Math.Abs throws for the least int32, which has no positive counterpart. */
  function HashText(h: int32): (r: string)
    requires h != MinInt32
    ensures |r| == 8 && forall i :: 0 <= i < 8 ==> IsHexDigit(r[i])
    ensures HexValue(r) == if h < 0 then -(h as int) else h as int
  {
    var a := if h < 0 then -(h as int) else h as int;
    assert Pow16(8) == 0x1_0000_0000;
    HexRoundTrip(a, 8);
    Hex(a, 8)
  }

  /** Two hashes of different magnitude never share their text. */
  lemma HashTextInjective(h1: int32, h2: int32)
    requires h1 != MinInt32 && h2 != MinInt32
    requires HashText(h1) == HashText(h2)
    ensures h1 == h2 || h1 == -h2
  {
  }

  // ---- object paths ----

  /** `Replace('/', '_').Replace('\\', '_').Replace(':', '_')`. */
  function SafeName(s: string): (r: string)
    ensures |r| == |s|
    ensures forall i :: 0 <= i < |s| ==> r[i] == (if s[i] in "/\\:" then '_' else s[i])
  {
    ReplaceChar(ReplaceChar(ReplaceChar(s, '/', '_'), '\\', '_'), ':', '_')
  }

  /** Different module names can share their safe name, so their object files can share a path. */
  lemma SafeNameCollision()
    ensures SafeName("Core/Math") == SafeName("Core_Math") == SafeName("Core:Math")
  {
    assert SafeName("Core/Math") == "Core_Math";
    assert SafeName("Core:Math") == "Core_Math";
    assert SafeName("Core_Math") == "Core_Math";
  }

  /** A source file is compiled when it is not empty and ends, ignoring case, in .cpp, .c or .cc. */
  predicate IsCompilable(src: string) {
    src != "" && (EndsWithIgnoreCase(src, ".cpp") || EndsWithIgnoreCase(src, ".c") || EndsWithIgnoreCase(src, ".cc"))
  }

  /** `{temp}/{safeModuleName}_{safeFileName}_{sourceHash}.o`. */
  function ObjectPath(tempDir: string, name: string, src: string, hashText: string): (r: string)
    ensures r == tempDir + "/" + SafeName(name) + "_" + SafeName(Stem(src)) + "_" + hashText + ".o"
    ensures StartsWith(r, tempDir + "/" + SafeName(name) + "_")
    ensures EndsWith(r, "_" + hashText + ".o")
  {
    var prefix := tempDir + "/" + SafeName(name) + "_";
    var suffix := "_" + hashText + ".o";
    var r := prefix + SafeName(Stem(src)) + suffix;
    assert r[..|prefix|] == prefix;
    assert r[|r| - |suffix|..] == suffix;
    r
  }

  /** Within one module, object paths whose hash texts have the same length (eight digits, as `HashText`
      writes them) are equal only when both the safe source stem and the hash text are equal. */
  lemma ObjectPathInjective(tempDir: string, name: string, src1: string, src2: string, h1: string, h2: string)
    requires |h1| == |h2|
    ensures ObjectPath(tempDir, name, src1, h1) == ObjectPath(tempDir, name, src2, h2) ==>
      SafeName(Stem(src1)) == SafeName(Stem(src2)) && h1 == h2
  {
    var prefix := tempDir + "/" + SafeName(name) + "_";
    var m1, m2 := SafeName(Stem(src1)), SafeName(Stem(src2));
    var s1, s2 := "_" + h1 + ".o", "_" + h2 + ".o";
    var r1, r2 := prefix + m1 + s1, prefix + m2 + s2;
    assert ObjectPath(tempDir, name, src1, h1) == r1;
    assert ObjectPath(tempDir, name, src2, h2) == r2;
    if r1 == r2 {
      assert |m1| == |m2|;
      assert r1[|prefix|..|prefix| + |m1|] == m1;
      assert r2[|prefix|..|prefix| + |m2|] == m2;
      assert r1[|prefix| + |m1| + 1..|r1| - 2] == h1;
      assert r2[|prefix| + |m2| + 1..|r2| - 2] == h2;
    }
  }

  // ---- the per-module tables ----

  /** The public then the private sources, and `SourceFiles` when both are empty. */
  function ModuleSources(m: ModuleRules): seq<string> {
    var all := m.PublicSourceFiles + m.PrivateSourceFiles;
    if |all| == 0 then all + m.SourceFiles() else all
  }

  /** `SourceFiles` is `PrivateSourceFiles`, so the fallback adds nothing: the sources are public then private. */
  lemma SourceFallbackAddsNothing(m: ModuleRules)
    ensures ModuleSources(m) == m.PublicSourceFiles + m.PrivateSourceFiles
  {
  }

  /** `moduleIncludes`: public then private include paths of every registered module of the walk. */
  function IncludeTable(reg: Registry, order: seq<string>): Table {
    map n | n in order && n in reg :: reg[n].PublicIncludePaths + reg[n].PrivateIncludePaths
  }

  /** `moduleLibraries`: public then private additional libraries. */
  function LibraryTable(reg: Registry, order: seq<string>): Table {
    map n | n in order && n in reg :: reg[n].PublicAdditionalLibraries + reg[n].PrivateAdditionalLibraries
  }

  /** `moduleDefinitions`: public then private definitions. */
  function DefinitionTable(reg: Registry, order: seq<string>): Table {
    map n | n in order && n in reg :: reg[n].PublicDefinitions + reg[n].PrivateDefinitions
  }

  lemma IncludeTableStep(reg: Registry, order: seq<string>, i: nat)
    requires i < |order|
    ensures var n := order[i];
      IncludeTable(reg, order[..i + 1]) ==
        if n in reg then IncludeTable(reg, order[..i])[n := reg[n].PublicIncludePaths + reg[n].PrivateIncludePaths]
        else IncludeTable(reg, order[..i])
  {
    assert order[..i + 1] == order[..i] + [order[i]];
  }

  lemma LibraryTableStep(reg: Registry, order: seq<string>, i: nat)
    requires i < |order|
    ensures var n := order[i];
      LibraryTable(reg, order[..i + 1]) ==
        if n in reg then LibraryTable(reg, order[..i])[n := reg[n].PublicAdditionalLibraries + reg[n].PrivateAdditionalLibraries]
        else LibraryTable(reg, order[..i])
  {
    assert order[..i + 1] == order[..i] + [order[i]];
  }

  lemma DefinitionTableStep(reg: Registry, order: seq<string>, i: nat)
    requires i < |order|
    ensures var n := order[i];
      DefinitionTable(reg, order[..i + 1]) ==
        if n in reg then DefinitionTable(reg, order[..i])[n := reg[n].PublicDefinitions + reg[n].PrivateDefinitions]
        else DefinitionTable(reg, order[..i])
  {
    assert order[..i + 1] == order[..i] + [order[i]];
  }

  /** The first loop over the modules of the walk: it fills the three tables, skipping unregistered names. */
  method CollectModuleData(reg: Registry, order: seq<string>) returns (incs: Table, libs: Table, defs: Table)
    ensures incs == IncludeTable(reg, order)
    ensures libs == LibraryTable(reg, order)
    ensures defs == DefinitionTable(reg, order)
  {
    incs, libs, defs := map[], map[], map[];
    var i := 0;
    while i < |order|
      invariant 0 <= i <= |order|
      invariant incs == IncludeTable(reg, order[..i])
      invariant libs == LibraryTable(reg, order[..i])
      invariant defs == DefinitionTable(reg, order[..i])
    {
      var n := order[i];
      IncludeTableStep(reg, order, i);
      LibraryTableStep(reg, order, i);
      DefinitionTableStep(reg, order, i);
      if n in reg {
        var rules := reg[n];
        incs := incs[n := rules.PublicIncludePaths + rules.PrivateIncludePaths];
        libs := libs[n := rules.PublicAdditionalLibraries + rules.PrivateAdditionalLibraries];
        defs := defs[n := rules.PublicDefinitions + rules.PrivateDefinitions];
      }
      i := i + 1;
    }
    assert order[..i] == order;
  }

  // ---- include and define lists ----

  /** For each name the table has, in order, its non-empty entries. */
  function Gather(t: Table, names: seq<string>): seq<string>
    decreases |names|
  {
    if |names| == 0 then []
    else
      var last := names[|names| - 1];
      Gather(t, names[..|names| - 1]) + (if last in t then NonEmpty(t[last]) else [])
  }

  /** A string is gathered exactly when it is a non-empty entry of one of the names the table has. */
  lemma {:induction false} GatherMembers(t: Table, names: seq<string>, x: string)
    ensures x in Gather(t, names) <==> x != "" && exists k :: 0 <= k < |names| && names[k] in t && x in t[names[k]]
    decreases |names|
  {
    if |names| > 0 {
      var init := names[..|names| - 1];
      GatherMembers(t, init, x);
      if x != "" && (exists k :: 0 <= k < |names| && names[k] in t && x in t[names[k]]) {
        var k :| 0 <= k < |names| && names[k] in t && x in t[names[k]];
        if k < |init| {
          assert init[k] == names[k];
        }
      }
    }
  }

  /** The include paths of one compile edge: the module's own, then those of its direct dependencies. */
  function EdgeIncludes(incs: Table, reg: Registry, name: string): seq<string> {
    Gather(incs, [name] + Successors(reg, name))
  }

  /** The definitions of one compile edge: the module's own, its direct dependencies', then the target's. */
  function EdgeDefines(defs: Table, reg: Registry, name: string, globals: seq<string>): seq<string> {
    Gather(defs, [name] + Successors(reg, name)) + NonEmpty(globals)
  }

  /** `x` is a public or private include path of `n`, a registered module of the walk. */
  predicate IncludePathOf(reg: Registry, order: seq<string>, n: string, x: string) {
    n in order && n in reg && x in reg[n].PublicIncludePaths + reg[n].PrivateIncludePaths
  }

  /** The include table has an entry for `n` holding `x` exactly when `x` is an include path of `n`. */
  lemma IncludeTableEntry(reg: Registry, order: seq<string>, n: string, x: string)
    ensures (n in IncludeTable(reg, order) && x in IncludeTable(reg, order)[n]) <==> IncludePathOf(reg, order, n, x)
  {
  }

  /** Everything a compile edge's include list holds is a non-empty include path of the module or of
      one of its direct dependencies. */
  lemma EdgeIncludesSound(reg: Registry, order: seq<string>, name: string, x: string)
    requires x in EdgeIncludes(IncludeTable(reg, order), reg, name)
    ensures x != "" &&
      (IncludePathOf(reg, order, name, x) || exists d :: d in Successors(reg, name) && IncludePathOf(reg, order, d, x))
  {
    var names := [name] + Successors(reg, name);
    var t := IncludeTable(reg, order);
    GatherMembers(t, names, x);
    var k :| 0 <= k < |names| && names[k] in t && x in t[names[k]];
    IncludeTableEntry(reg, order, names[k], x);
    if k > 0 {
      assert names[k] == Successors(reg, name)[k - 1];
    }
  }

  /** Every non-empty include path of the module and of its direct dependencies is in the edge's list. */
  lemma EdgeIncludesComplete(reg: Registry, order: seq<string>, name: string, x: string)
    requires x != ""
    requires IncludePathOf(reg, order, name, x) || exists d :: d in Successors(reg, name) && IncludePathOf(reg, order, d, x)
    ensures x in EdgeIncludes(IncludeTable(reg, order), reg, name)
  {
    var names := [name] + Successors(reg, name);
    var t := IncludeTable(reg, order);
    var k: nat := 0;
    if !IncludePathOf(reg, order, name, x) {
      var d :| d in Successors(reg, name) && IncludePathOf(reg, order, d, x);
      var j :| 0 <= j < |Successors(reg, name)| && Successors(reg, name)[j] == d;
      k := j + 1;
    }
    assert k < |names| && IncludePathOf(reg, order, names[k], x);
    IncludeTableEntry(reg, order, names[k], x);
    GatherMembers(t, names, x);
  }

  /** A compile edge sees the non-empty public and private include paths of the module and of its direct
      dependencies that the walk registered, and no others: a dependency's dependency contributes nothing
      unless the module names it too. */
  lemma EdgeIncludesMembers(reg: Registry, order: seq<string>, name: string, x: string)
    requires name in order && name in reg
    ensures x in EdgeIncludes(IncludeTable(reg, order), reg, name) <==>
      x != "" &&
      (IncludePathOf(reg, order, name, x) || exists d :: d in Successors(reg, name) && IncludePathOf(reg, order, d, x))
  {
    if x in EdgeIncludes(IncludeTable(reg, order), reg, name) {
      EdgeIncludesSound(reg, order, name, x);
    }
    if x != "" &&
      (IncludePathOf(reg, order, name, x) || exists d :: d in Successors(reg, name) && IncludePathOf(reg, order, d, x))
    {
      EdgeIncludesComplete(reg, order, name, x);
    }
  }

  /** A compile edge sees the target's non-empty global definitions. */
  lemma EdgeDefinesHaveGlobals(defs: Table, reg: Registry, name: string, globals: seq<string>, g: string)
    requires g in globals && g != ""
    ensures g in EdgeDefines(defs, reg, name, globals)
  {
  }

  // ---- the lines of one compile edge ----

  /** The flags written after `  includes =` or `  defines =`: " <before><item><after>" for each item. */
  function Flags(items: seq<string>, before: string, after: string): string
    decreases |items|
  {
    if |items| == 0 then ""
    else Flags(items[..|items| - 1], before, after) + " " + before + items[|items| - 1] + after
  }

  /** Every item is written, as " <before><item><after>". */
  lemma {:induction false} FlagsWriteEveryItem(items: seq<string>, before: string, after: string, k: nat)
    requires k < |items|
    ensures Contains(Flags(items, before, after), " " + before + items[k] + after)
    decreases |items|
  {
    var init := items[..|items| - 1];
    var piece := " " + before + items[|items| - 1] + after;
    var f := Flags(items, before, after);
    assert f == Flags(init, before, after) + piece;
    if k == |items| - 1 {
      assert f[|f| - |piece|..] == piece;
      ContainsAt(f, piece, |f| - |piece|);
    } else {
      FlagsWriteEveryItem(init, before, after, k);
      assert init[k] == items[k];
      ContainsExtended("", Flags(init, before, after), piece, " " + before + items[k] + after);
      assert "" + Flags(init, before, after) + piece == f;
    }
  }

  /** `build <obj>: cxx <src>`, an includes line when there are include paths, a defines line when there are
      definitions (each list without repeats), and an empty line. */
  function CompileEdgeLines(obj: string, src: string, incs: seq<string>, defs: seq<string>): (lines: seq<string>)
    ensures |lines| == 2 + (if |incs| > 0 then 1 else 0) + (if |defs| > 0 then 1 else 0)
    ensures lines[0] == "build " + obj + ": cxx " + src && lines[|lines| - 1] == ""
  {
    ["build " + obj + ": cxx " + src]
    + (if |incs| > 0 then ["  includes =" + Flags(Distinct(incs), "-I\"", "\"")] else [])
    + (if |defs| > 0 then ["  defines =" + Flags(Distinct(defs), "-D", "")] else [])
    + [""]
  }

  /** The includes line names every include path of the edge once it is there at all. */
  lemma CompileEdgeNamesEveryInclude(obj: string, src: string, incs: seq<string>, defs: seq<string>, inc: string)
    requires inc in incs
    ensures Contains(CompileEdgeLines(obj, src, incs, defs)[1], " -I\"" + inc + "\"")
  {
    var d := Distinct(incs);
    var k :| 0 <= k < |d| && d[k] == inc;
    FlagsWriteEveryItem(d, "-I\"", "\"", k);
    assert " " + "-I\"" + inc + "\"" == " -I\"" + inc + "\"";
    ContainsExtended("  includes =", Flags(d, "-I\"", "\""), "", " -I\"" + inc + "\"");
    assert "  includes =" + Flags(d, "-I\"", "\"") + "" == CompileEdgeLines(obj, src, incs, defs)[1];
  }

  /** The defines line, the edge's last line but the empty one, names every definition of the edge. */
  lemma CompileEdgeNamesEveryDefine(obj: string, src: string, incs: seq<string>, defs: seq<string>, def: string)
    requires def in defs
    ensures var lines := CompileEdgeLines(obj, src, incs, defs);
      Contains(lines[|lines| - 2], " -D" + def)
  {
    var lines := CompileEdgeLines(obj, src, incs, defs);
    var d := Distinct(defs);
    var k :| 0 <= k < |d| && d[k] == def;
    FlagsWriteEveryItem(d, "-D", "", k);
    assert " " + "-D" + def + "" == " -D" + def;
    ContainsExtended("  defines =", Flags(d, "-D", ""), "", " -D" + def);
    assert "  defines =" + Flags(d, "-D", "") + "" == lines[|lines| - 2];
  }

  // ---- one module ----

  /** A compilable source of the list whose hash is the least int32. */
  predicate Overflows(srcs: seq<string>, hashCode: string -> int32) {
    exists i :: 0 <= i < |srcs| && IsCompilable(srcs[i]) && hashCode(srcs[i]) == MinInt32
  }

  lemma OverflowsAppend(srcs: seq<string>, src: string, hashCode: string -> int32)
    ensures Overflows(srcs + [src], hashCode) <==>
      Overflows(srcs, hashCode) || (IsCompilable(src) && hashCode(src) == MinInt32)
  {
    var s := srcs + [src];
    if Overflows(s, hashCode) {
      var i :| 0 <= i < |s| && IsCompilable(s[i]) && hashCode(s[i]) == MinInt32;
      if i < |srcs| {
        assert s[i] == srcs[i];
      }
    }
    if Overflows(srcs, hashCode) {
      var i :| 0 <= i < |srcs| && IsCompilable(srcs[i]) && hashCode(srcs[i]) == MinInt32;
      assert s[i] == srcs[i];
    }
    if IsCompilable(src) && hashCode(src) == MinInt32 {
      assert s[|srcs|] == src;
    }
  }

  /** The object files of a module's sources, one per compilable source, in order. */
  function ModuleObjects(tempDir: string, name: string, srcs: seq<string>, hashCode: string -> int32): seq<string>
    requires !Overflows(srcs, hashCode)
    decreases |srcs|
  {
    if |srcs| == 0 then []
    else
      var init := srcs[..|srcs| - 1];
      var src := srcs[|srcs| - 1];
      assert !Overflows(init, hashCode) by {
        assert forall i :: 0 <= i < |init| ==> init[i] == srcs[i];
      }
      ModuleObjects(tempDir, name, init, hashCode)
      + (if IsCompilable(src) then [ObjectPath(tempDir, name, src, HashText(hashCode(src)))] else [])
  }

  /** The compile edges of a module's sources, in order; every edge of a module has the same lists. */
  function ModuleCompileLines(tempDir: string, name: string, srcs: seq<string>, incs: seq<string>,
                              defs: seq<string>, hashCode: string -> int32): seq<string>
    requires !Overflows(srcs, hashCode)
    decreases |srcs|
  {
    if |srcs| == 0 then []
    else
      var init := srcs[..|srcs| - 1];
      var src := srcs[|srcs| - 1];
      assert !Overflows(init, hashCode) by {
        assert forall i :: 0 <= i < |init| ==> init[i] == srcs[i];
      }
      ModuleCompileLines(tempDir, name, init, incs, defs, hashCode)
      + (if IsCompilable(src)
         then CompileEdgeLines(ObjectPath(tempDir, name, src, HashText(hashCode(src))), src, incs, defs)
         else [])
  }

  lemma ModuleObjectsAppend(tempDir: string, name: string, srcs: seq<string>, src: string, hashCode: string -> int32)
    requires !Overflows(srcs + [src], hashCode)
    ensures !Overflows(srcs, hashCode) && (IsCompilable(src) ==> hashCode(src) != MinInt32)
    ensures ModuleObjects(tempDir, name, srcs + [src], hashCode) ==
      ModuleObjects(tempDir, name, srcs, hashCode)
      + (if IsCompilable(src) then [ObjectPath(tempDir, name, src, HashText(hashCode(src)))] else [])
  {
    OverflowsAppend(srcs, src, hashCode);
    assert (srcs + [src])[..|srcs|] == srcs;
  }

  lemma ModuleCompileLinesAppend(tempDir: string, name: string, srcs: seq<string>, src: string, incs: seq<string>,
                                 defs: seq<string>, hashCode: string -> int32)
    requires !Overflows(srcs + [src], hashCode)
    ensures !Overflows(srcs, hashCode) && (IsCompilable(src) ==> hashCode(src) != MinInt32)
    ensures ModuleCompileLines(tempDir, name, srcs + [src], incs, defs, hashCode) ==
      ModuleCompileLines(tempDir, name, srcs, incs, defs, hashCode)
      + (if IsCompilable(src)
         then CompileEdgeLines(ObjectPath(tempDir, name, src, HashText(hashCode(src))), src, incs, defs)
         else [])
  {
    OverflowsAppend(srcs, src, hashCode);
    assert (srcs + [src])[..|srcs|] == srcs;
  }

  /** Exactly the compilable sources get an object file, each its own path. */
  lemma {:induction false} ModuleObjectsAreCompilableSources(tempDir: string, name: string, srcs: seq<string>,
                                                           hashCode: string -> int32, obj: string)
    requires !Overflows(srcs, hashCode)
    ensures obj in ModuleObjects(tempDir, name, srcs, hashCode) <==>
      exists i :: 0 <= i < |srcs| && ObjectOf(tempDir, name, srcs[i], hashCode, obj)
    decreases |srcs|
  {
    if |srcs| > 0 {
      var init := srcs[..|srcs| - 1];
      var src := srcs[|srcs| - 1];
      assert init + [src] == srcs;
      ModuleObjectsAppend(tempDir, name, init, src, hashCode);
      ModuleObjectsAreCompilableSources(tempDir, name, init, hashCode, obj);
      if obj in ModuleObjects(tempDir, name, srcs, hashCode) {
        if obj in ModuleObjects(tempDir, name, init, hashCode) {
          var i :| 0 <= i < |init| && ObjectOf(tempDir, name, init[i], hashCode, obj);
          assert srcs[i] == init[i];
        } else {
          assert ObjectOf(tempDir, name, srcs[|srcs| - 1], hashCode, obj);
        }
      }
      if exists i :: 0 <= i < |srcs| && ObjectOf(tempDir, name, srcs[i], hashCode, obj) {
        var i :| 0 <= i < |srcs| && ObjectOf(tempDir, name, srcs[i], hashCode, obj);
        if i < |init| {
          assert init[i] == srcs[i];
        }
      }
    }
  }

  /** `obj` is the object file of the compilable source `src`. */
  predicate ObjectOf(tempDir: string, name: string, src: string, hashCode: string -> int32, obj: string) {
    IsCompilable(src) && hashCode(src) != MinInt32 && obj == ObjectPath(tempDir, name, src, HashText(hashCode(src)))
  }

  /** A module gets no object file exactly when none of its sources is compilable. */
  lemma {:induction false} ModuleObjectsEmpty(tempDir: string, name: string, srcs: seq<string>, hashCode: string -> int32)
    requires !Overflows(srcs, hashCode)
    ensures |ModuleObjects(tempDir, name, srcs, hashCode)| == 0 <==> forall i :: 0 <= i < |srcs| ==> !IsCompilable(srcs[i])
    decreases |srcs|
  {
    if |srcs| > 0 {
      var init := srcs[..|srcs| - 1];
      var src := srcs[|srcs| - 1];
      OverflowsAppend(init, src, hashCode);
      assert init + [src] == srcs;
      ModuleObjectsEmpty(tempDir, name, init, hashCode);
      assert forall i :: 0 <= i < |init| ==> init[i] == srcs[i];
    }
  }

  // ---- the compile loop ----

  /** A registered module of the walk has a compilable source hashing to the least int32. */
  predicate PhaseOverflows(reg: Registry, order: seq<string>, hashCode: string -> int32) {
    exists k :: 0 <= k < |order| && order[k] in reg && Overflows(ModuleSources(reg[order[k]]), hashCode)
  }

  lemma PhaseOverflowsAppend(reg: Registry, order: seq<string>, n: string, hashCode: string -> int32)
    ensures PhaseOverflows(reg, order + [n], hashCode) <==>
      PhaseOverflows(reg, order, hashCode) || (n in reg && Overflows(ModuleSources(reg[n]), hashCode))
  {
    var o := order + [n];
    if PhaseOverflows(reg, o, hashCode) {
      var k :| 0 <= k < |o| && o[k] in reg && Overflows(ModuleSources(reg[o[k]]), hashCode);
      if k < |order| {
        assert o[k] == order[k];
      }
    }
    if PhaseOverflows(reg, order, hashCode) {
      var k :| 0 <= k < |order| && order[k] in reg && Overflows(ModuleSources(reg[order[k]]), hashCode);
      assert o[k] == order[k];
    }
    if n in reg && Overflows(ModuleSources(reg[n]), hashCode) {
      assert o[|order|] == n;
    }
  }

  /** `moduleObjectFiles`: the object files of each registered module of the walk that has any. */
  function ObjectTable(reg: Registry, order: seq<string>, tempDir: string, hashCode: string -> int32): Table
    requires !PhaseOverflows(reg, order, hashCode)
  {
    map n | n in order && n in reg && |ModuleObjects(tempDir, n, ModuleSources(reg[n]), hashCode)| > 0
      :: ModuleObjects(tempDir, n, ModuleSources(reg[n]), hashCode)
  }

  lemma CompilePhaseLinesAppend(reg: Registry, order: seq<string>, n: string, incs: Table, defs: Table,
                                 globals: seq<string>, tempDir: string, hashCode: string -> int32)
    requires !PhaseOverflows(reg, order + [n], hashCode)
    ensures !PhaseOverflows(reg, order, hashCode)
    ensures n in reg ==> !Overflows(ModuleSources(reg[n]), hashCode)
    ensures CompilePhaseLines(reg, order + [n], incs, defs, globals, tempDir, hashCode) ==
      CompilePhaseLines(reg, order, incs, defs, globals, tempDir, hashCode)
      + (if n in reg
         then ModuleCompileLines(tempDir, n, ModuleSources(reg[n]), EdgeIncludes(incs, reg, n),
                                 EdgeDefines(defs, reg, n, globals), hashCode)
         else [])
  {
    PhaseOverflowsAppend(reg, order, n, hashCode);
    assert (order + [n])[..|order|] == order;
  }

  lemma PhaseOverflowsPrefix(reg: Registry, order: seq<string>, k: nat, hashCode: string -> int32)
    requires k <= |order| && PhaseOverflows(reg, order[..k], hashCode)
    ensures PhaseOverflows(reg, order, hashCode)
  {
    var i :| 0 <= i < k && order[..k][i] in reg && Overflows(ModuleSources(reg[order[..k][i]]), hashCode);
    assert order[..k][i] == order[i];
  }

  lemma ObjectTableAppend(reg: Registry, order: seq<string>, n: string, tempDir: string, hashCode: string -> int32)
    requires !PhaseOverflows(reg, order + [n], hashCode)
    ensures !PhaseOverflows(reg, order, hashCode)
    ensures n in reg ==> !Overflows(ModuleSources(reg[n]), hashCode)
    ensures ObjectTable(reg, order + [n], tempDir, hashCode) ==
      if n in reg && |ModuleObjects(tempDir, n, ModuleSources(reg[n]), hashCode)| > 0
      then ObjectTable(reg, order, tempDir, hashCode)[n := ModuleObjects(tempDir, n, ModuleSources(reg[n]), hashCode)]
      else ObjectTable(reg, order, tempDir, hashCode)
  {
    PhaseOverflowsAppend(reg, order, n, hashCode);
    assert forall x :: x in order + [n] <==> x in order || x == n;
  }

  /** All compile edges: for each registered module of the walk in order, the edges of its sources. */
  function CompilePhaseLines(reg: Registry, order: seq<string>, incs: Table, defs: Table, globals: seq<string>,
                             tempDir: string, hashCode: string -> int32): seq<string>
    requires !PhaseOverflows(reg, order, hashCode)
    decreases |order|
  {
    if |order| == 0 then []
    else
      var init := order[..|order| - 1];
      var n := order[|order| - 1];
      assert !PhaseOverflows(reg, init, hashCode) by {
        assert forall k :: 0 <= k < |init| ==> init[k] == order[k];
      }
      CompilePhaseLines(reg, init, incs, defs, globals, tempDir, hashCode)
      + (if n in reg
         then ModuleCompileLines(tempDir, n, ModuleSources(reg[n]), EdgeIncludes(incs, reg, n),
                                 EdgeDefines(defs, reg, n, globals), hashCode)
         else [])
  }

  /** A module has an entry in the object table exactly when it is registered and one of its sources is
      compilable; the modules the link loop then skips are the others. */
  lemma ObjectTableKeys(reg: Registry, order: seq<string>, tempDir: string, hashCode: string -> int32, n: string)
    requires !PhaseOverflows(reg, order, hashCode)
    ensures n in ObjectTable(reg, order, tempDir, hashCode) <==>
      n in order && n in reg && exists x :: x in ModuleSources(reg[n]) && IsCompilable(x)
  {
    if n in order && n in reg {
      var srcs := ModuleSources(reg[n]);
      ModuleObjectsEmpty(tempDir, n, srcs, hashCode);
      if exists x :: x in srcs && IsCompilable(x) {
        var x :| x in srcs && IsCompilable(x);
        var i :| 0 <= i < |srcs| && srcs[i] == x;
        assert IsCompilable(srcs[i]);
      }
    }
  }

  // ---- the methods that write them ----

  /** `foreach (x in items) if (!string.IsNullOrEmpty(x)) acc.Add(x)`. */
  method AppendNonEmpty(acc: seq<string>, items: seq<string>) returns (r: seq<string>)
    ensures r == acc + NonEmpty(items)
  {
    r := acc;
    var i := 0;
    while i < |items|
      invariant 0 <= i <= |items|
      invariant r == acc + NonEmpty(items[..i])
    {
      assert items[..i + 1][..i] == items[..i];
      if items[i] != "" {
        r := r + [items[i]];
      }
      i := i + 1;
    }
    assert items[..i] == items;
  }

  /** For each name the table has, its non-empty entries, appended to `acc`. */
  method AppendGathered(acc: seq<string>, t: Table, names: seq<string>) returns (r: seq<string>)
    ensures r == acc + Gather(t, names)
  {
    r := acc;
    var i := 0;
    while i < |names|
      invariant 0 <= i <= |names|
      invariant r == acc + Gather(t, names[..i])
    {
      assert names[..i + 1][..i] == names[..i];
      if names[i] in t {
        r := AppendNonEmpty(r, t[names[i]]);
      }
      i := i + 1;
    }
    assert names[..i] == names;
  }

  /** Writes " <before><item><after>" for each distinct item. */
  method WriteFlags(items: seq<string>, before: string, after: string) returns (s: string)
    ensures s == Flags(Distinct(items), before, after)
  {
    var d := Distinct(items);
    s := "";
    var i := 0;
    while i < |d|
      invariant 0 <= i <= |d|
      invariant s == Flags(d[..i], before, after)
    {
      assert d[..i + 1][..i] == d[..i];
      s := s + " " + before + d[i] + after;
      i := i + 1;
    }
    assert d[..i] == d;
  }

  /** The include and define lists of a compile edge, gathered as the loop body gathers them. */
  method EdgeLists(reg: Registry, name: string, incTable: Table, defTable: Table, globals: seq<string>)
    returns (allIncludes: seq<string>, allDefines: seq<string>)
    requires name in reg
    ensures allIncludes == EdgeIncludes(incTable, reg, name)
    ensures allDefines == EdgeDefines(defTable, reg, name, globals)
  {
    // the module itself, then its public and private dependencies
    var names := [name] + Successors(reg, name);
    allIncludes := AppendGathered([], incTable, names);
    allDefines := AppendGathered([], defTable, names);
    allDefines := AppendNonEmpty(allDefines, globals);
  }

  /** Writes one compile edge after `lines`. */
  method WriteCompileEdge(lines: seq<string>, objPath: string, src: string, incs: seq<string>, defs: seq<string>)
    returns (r: seq<string>)
    ensures r == lines + CompileEdgeLines(objPath, src, incs, defs)
  {
    r := lines + ["build " + objPath + ": cxx " + src];
    if |incs| > 0 {
      var f := WriteFlags(incs, "-I\"", "\"");
      r := r + ["  includes =" + f];
    }
    if |defs| > 0 {
      var f := WriteFlags(defs, "-D", "");
      r := r + ["  defines =" + f];
    }
    r := r + [""];
  }

  /** One pass of the loop over a module's sources: source `src` after the sources `done`. */
  method CompileSource(reg: Registry, name: string, incTable: Table, defTable: Table, globals: seq<string>,
                       tempDir: string, hashCode: string -> int32, ghost done: seq<string>, src: string,
                       objs: seq<string>, lines: seq<string>)
    returns (ok: bool, objs': seq<string>, lines': seq<string>)
    requires name in reg && !Overflows(done, hashCode)
    requires objs == ModuleObjects(tempDir, name, done, hashCode)
    requires lines == ModuleCompileLines(tempDir, name, done, EdgeIncludes(incTable, reg, name),
                                         EdgeDefines(defTable, reg, name, globals), hashCode)
    ensures ok <==> !Overflows(done + [src], hashCode)
    ensures ok ==> objs' == ModuleObjects(tempDir, name, done + [src], hashCode)
    ensures ok ==> lines' == ModuleCompileLines(tempDir, name, done + [src], EdgeIncludes(incTable, reg, name),
                                                EdgeDefines(defTable, reg, name, globals), hashCode)
  {
    OverflowsAppend(done, src, hashCode);
    objs', lines' := objs, lines;
    if IsCompilable(src) {
      var h := hashCode(src);
      if h == MinInt32 {
        return false, objs, lines;
      }
      var objPath := ObjectPath(tempDir, name, src, HashText(h));
      objs' := objs + [objPath];
      var allIncludes, allDefines := EdgeLists(reg, name, incTable, defTable, globals);
      lines' := WriteCompileEdge(lines, objPath, src, allIncludes, allDefines);
    }
    ok := true;
    ModuleObjectsAppend(tempDir, name, done, src, hashCode);
    ModuleCompileLinesAppend(tempDir, name, done, src, EdgeIncludes(incTable, reg, name),
                             EdgeDefines(defTable, reg, name, globals), hashCode);
  }

  /** The compile loop for one registered module. It stops with `ok` false at the first compilable source
      whose hash is the least int32, where Math.Abs throws. */
  method CompileModule(reg: Registry, name: string, incTable: Table, defTable: Table, globals: seq<string>,
                       tempDir: string, hashCode: string -> int32)
    returns (ok: bool, objs: seq<string>, lines: seq<string>)
    requires name in reg
    ensures ok <==> !Overflows(ModuleSources(reg[name]), hashCode)
    ensures ok ==> objs == ModuleObjects(tempDir, name, ModuleSources(reg[name]), hashCode)
    ensures ok ==> lines == ModuleCompileLines(tempDir, name, ModuleSources(reg[name]),
                                                EdgeIncludes(incTable, reg, name),
                                                EdgeDefines(defTable, reg, name, globals), hashCode)
  {
    var srcs := CollectSources(reg[name]);
    ghost var incs := EdgeIncludes(incTable, reg, name);
    ghost var defs := EdgeDefines(defTable, reg, name, globals);
    objs, lines := [], [];
    var i := 0;
    while i < |srcs|
      invariant 0 <= i <= |srcs|
      invariant !Overflows(srcs[..i], hashCode)
      invariant objs == ModuleObjects(tempDir, name, srcs[..i], hashCode)
      invariant lines == ModuleCompileLines(tempDir, name, srcs[..i], incs, defs, hashCode)
    {
      assert srcs[..i + 1] == srcs[..i] + [srcs[i]];
      ok, objs, lines := CompileSource(reg, name, incTable, defTable, globals, tempDir, hashCode, srcs[..i], srcs[i],
                                       objs, lines);
      if !ok {
        OverflowsPrefix(srcs, i + 1, hashCode);
        return;
      }
      i := i + 1;
    }
    assert srcs[..i] == srcs;
    ok := true;
  }

  /** The public then the private sources, and `SourceFiles` when there are none. */
  method CollectSources(rules: ModuleRules) returns (srcs: seq<string>)
    ensures srcs == ModuleSources(rules)
  {
    srcs := rules.PublicSourceFiles + rules.PrivateSourceFiles;
    if |srcs| == 0 {
      srcs := srcs + rules.SourceFiles();
    }
  }

  lemma OverflowsPrefix(srcs: seq<string>, k: nat, hashCode: string -> int32)
    requires k <= |srcs| && Overflows(srcs[..k], hashCode)
    ensures Overflows(srcs, hashCode)
  {
    var i :| 0 <= i < k && IsCompilable(srcs[..k][i]) && hashCode(srcs[..k][i]) == MinInt32;
    assert srcs[..k][i] == srcs[i];
  }

  /** Gathering over two name lists is gathering over each in turn: an edge lists the module's own entries
      before those of its dependencies, each dependency's in the order the dependencies are declared. */
  lemma {:induction false} GatherAppend(t: Table, a: seq<string>, b: seq<string>)
    ensures Gather(t, a + b) == Gather(t, a) + Gather(t, b)
    decreases |b|
  {
    if |b| > 0 {
      var b' := b[..|b| - 1];
      GatherAppend(t, a, b');
      assert (a + b)[..|a + b| - 1] == a + b';
    } else {
      assert a + b == a;
    }
  }

  /** One pass of the compile loop: module `n` after the modules `done`. */
  method CompileStep(reg: Registry, ghost done: seq<string>, n: string, objTable: Table, lines: seq<string>,
                     incTable: Table, defTable: Table, globals: seq<string>, tempDir: string,
                     hashCode: string -> int32)
    returns (ok: bool, objTable': Table, lines': seq<string>)
    requires !PhaseOverflows(reg, done, hashCode)
    requires objTable == ObjectTable(reg, done, tempDir, hashCode)
    requires lines == CompilePhaseLines(reg, done, incTable, defTable, globals, tempDir, hashCode)
    ensures ok <==> !PhaseOverflows(reg, done + [n], hashCode)
    ensures ok ==> objTable' == ObjectTable(reg, done + [n], tempDir, hashCode)
    ensures ok ==> lines' == CompilePhaseLines(reg, done + [n], incTable, defTable, globals, tempDir, hashCode)
  {
    PhaseOverflowsAppend(reg, done, n, hashCode);
    objTable', lines' := objTable, lines;
    if n in reg {
      var okModule, objs, moduleLines := CompileModule(reg, n, incTable, defTable, globals, tempDir, hashCode);
      if !okModule {
        return false, objTable', lines';
      }
      lines' := lines' + moduleLines;
      if |objs| > 0 {
        objTable' := objTable'[n := objs];
      }
    }
    ObjectTableAppend(reg, done, n, tempDir, hashCode);
    CompilePhaseLinesAppend(reg, done, n, incTable, defTable, globals, tempDir, hashCode);
    ok := true;
  }

  /** No module compiled yet: nothing has overflowed, no object recorded and no line written. */
  lemma EmptyPhase(reg: Registry, incs: Table, defs: Table, globals: seq<string>, tempDir: string,
                   hashCode: string -> int32)
    ensures !PhaseOverflows(reg, [], hashCode)
    ensures ObjectTable(reg, [], tempDir, hashCode) == map[]
    ensures CompilePhaseLines(reg, [], incs, defs, globals, tempDir, hashCode) == []
  {
  }

  /** The compile loop over the modules of the walk: unregistered names are skipped, and the object table
      records each module that produced object files. The loop stops when Math.Abs throws. */
  method CompileAll(reg: Registry, order: seq<string>, incTable: Table, defTable: Table, globals: seq<string>,
                    tempDir: string, hashCode: string -> int32)
    returns (ok: bool, objTable: Table, lines: seq<string>)
    ensures ok <==> !PhaseOverflows(reg, order, hashCode)
    ensures ok ==> objTable == ObjectTable(reg, order, tempDir, hashCode)
    ensures ok ==> lines == CompilePhaseLines(reg, order, incTable, defTable, globals, tempDir, hashCode)
  {
    objTable, lines := map[], [];
    var i := 0;
    ghost var done: seq<string> := [];
    EmptyPhase(reg, incTable, defTable, globals, tempDir, hashCode);
    while i < |order|
      invariant 0 <= i <= |order| && done == order[..i]
      invariant !PhaseOverflows(reg, done, hashCode)
      invariant objTable == ObjectTable(reg, done, tempDir, hashCode)
      invariant lines == CompilePhaseLines(reg, done, incTable, defTable, globals, tempDir, hashCode)
    {
      var okStep;
      okStep, objTable, lines := CompileStep(reg, done, order[i], objTable, lines,
                                             incTable, defTable, globals, tempDir, hashCode);
      if !okStep {
        assert order[..i + 1] == done + [order[i]];
        PhaseOverflowsPrefix(reg, order, i + 1, hashCode);
        return false, objTable, lines;
      }
      done := done + [order[i]];
      i := i + 1;
      assert done == order[..i];
    }
    assert done == order;
    ok := true;
  }
}
