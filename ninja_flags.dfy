/** Program.cs: the per-platform flag tables and the fixed head of the Ninja file (variables and rules). */
module NinjaFlags {
  import opened Text
  import opened Targets

  const CVersion := "c++20"
  const BinPath := "Binaries"
  const TempPath := "Temp"
  /** The architecture `GenerateNinjaFile` fixes. */
  const Arch := "x86_64"

  /** The platform word of the `# Platform:` line, also the key of the helper tables. */
  function PlatformName(p: TargetPlatform): (r: string)
    ensures r in {"windows", "linux", "macos"}
  {
    match p
    case Win64 => "windows"
    case Linux => "linux"
    case Mac => "macos"
  }

  // ---- the flags GenerateNinjaFile writes inline ----

  /** The two halves of the Windows compile flags, around the word-size flag; both tables spell them alike. */
  const WinDefines := "-DWIN32 -D_WINDOWS -DUNICODE -D_UNICODE"
  const MsCompat := "-fms-extensions -fms-compatibility-version=19.29"

  function InlineCFlags(p: TargetPlatform): string {
    match p
    case Win64 => WinDefines + " -m64 " + MsCompat
    case Linux => "-D_LINUX -D__LINUX__ -D_GNU_SOURCE"
    case Mac => "-D__APPLE__ -D__MACH__ -mmacosx-version-min=11.0"
  }

  function InlineTriple(p: TargetPlatform): string {
    match p
    case Win64 => "-target x86_64-pc-windows-msvc"
    case Linux => "-target x86_64-linux-gnu"
    case Mac => "-target x86_64-apple-macosx11.0"
  }

  function InlineLdFlags(p: TargetPlatform): string {
    match p
    case Win64 => "-Wl,/subsystem:console -Wl,/entry:mainCRTStartup"
    case Linux => "-Wl,--as-needed -Wl,--gc-sections"
    case Mac => "-Wl,-dead_strip"
  }

  // ---- the helper tables ----

  function GetPlatformCFlags(platform: string, arch: string): (r: string)
    ensures platform !in {"windows", "linux", "macos"} ==> r == ""
    ensures platform == "windows" ==> StartsWith(r, WinDefines)
  {
    match platform
    case "windows" =>
      WinDefines + " "
      + (if arch == "x86" then "-m32" else if arch == "x86_64" then "-m64" else "")
      + " " + MsCompat
    case "linux" => "-D_LINUX -D__LINUX__ -D_GNU_SOURCE"
    case "macos" => "-D__APPLE__ -D__MACH__ -mmacosx-version-min=11.0"
    case _ => ""
  }

  function GetPlatformLdFlags(platform: string, arch: string): (r: string)
    ensures platform == "windows" ==> r == "-fuse-ld=lld-link /subsystem:console"
    ensures platform !in {"windows", "linux", "macos"} ==> r == ""
  {
    match platform
    case "windows" =>
      (match arch
       case "x86" => "-fuse-ld=lld-link /subsystem:console"
       case "x86_64" => "-fuse-ld=lld-link /subsystem:console"
       case "arm64" => "-fuse-ld=lld-link /subsystem:console"
       case _ => "-fuse-ld=lld-link /subsystem:console")
    case "linux" => "-fuse-ld=lld -Wl,--as-needed -Wl,--gc-sections"
    case "macos" => "-fuse-ld=lld -dead_strip"
    case _ => ""
  }

  function GetTargetTriple(platform: string, arch: string): (r: string)
    ensures platform in {"windows", "linux", "macos"} ==> StartsWith(r, "-target ")
    ensures platform !in {"windows", "linux", "macos"} ==> r == ""
    ensures platform == "windows" && arch !in {"x86", "arm64"} ==> r == "-target x86_64-pc-windows-msvc"
    ensures platform == "linux" && arch !in {"x86", "aarch64"} ==> r == "-target x86_64-linux-gnu"
    ensures platform == "macos" && arch != "arm64" ==> r == "-target x86_64-apple-macosx11.0"
  {
    match platform
    case "windows" =>
      (match arch
       case "x86" => "-target i686-pc-windows-msvc"
       case "x86_64" => "-target x86_64-pc-windows-msvc"
       case "arm64" => "-target aarch64-pc-windows-msvc"
       case _ => "-target x86_64-pc-windows-msvc")
    case "linux" =>
      (match arch
       case "x86" => "-target i686-linux-gnu"
       case "x86_64" => "-target x86_64-linux-gnu"
       case "aarch64" => "-target aarch64-linux-gnu"
       case _ => "-target x86_64-linux-gnu")
    case "macos" =>
      (match arch
       case "x86_64" => "-target x86_64-apple-macosx11.0"
       case "arm64" => "-target arm64-apple-macosx11.0"
       case _ => "-target x86_64-apple-macosx11.0")
    case _ => ""
  }

  /** For the architecture the generator uses, the compile-flag and triple tables give what it writes. */
  lemma TablesMatchInlineCompileFlags(p: TargetPlatform)
    ensures GetPlatformCFlags(PlatformName(p), Arch) == InlineCFlags(p)
    ensures GetTargetTriple(PlatformName(p), Arch) == InlineTriple(p)
  {
    assert |Arch| != |"x86"| && Arch[0] != "arm64"[0] && Arch[0] != "aarch64"[0];
    match p
    case Win64 =>
      assert WinDefines + " " + "-m64" + " " + MsCompat == WinDefines + " -m64 " + MsCompat;
    case Linux =>
      assert "linux"[0] != "windows"[0];
    case Mac =>
      assert "macos"[0] != "windows"[0] && "macos"[0] != "linux"[0];
  }

  /** The linker-flag table does not: on every platform it differs from the flags the generator writes. */
  lemma TableDiffersFromInlineLdFlags(p: TargetPlatform)
    ensures GetPlatformLdFlags(PlatformName(p), Arch) != InlineLdFlags(p)
  {
    match p
    case Win64 =>
    case Linux =>
      assert "linux"[0] != "windows"[0];
    case Mac =>
      assert "macos"[0] != "windows"[0] && "macos"[0] != "linux"[0];
  }

  // ---- the head of the Ninja file ----

  /** The lines written before the global include lines, ending with the empty `includes =`. */
  function HeadLines(target: TargetRules, targetName: string): (lines: seq<string>)
  {
    var p := target.Platform;
    [ "# Generated by FuzzumBuildTool",
      "# Target: " + targetName,
      "# Platform: " + PlatformName(p),
      "# Arch: " + Arch,
      "# Type: " + TypeName(target.Type),
      "",
      "cxx = clang++",
      "link = clang++",
      "ar = ar",
      "cflags_base = -std=" + CVersion + " -Wall -Wextra -Werror" + (if p != Win64 then " -fPIC" else ""),
      "cflags_platform = " + InlineCFlags(p),
      "ldflags_platform = " + InlineLdFlags(p),
      "target_triple = " + InlineTriple(p),
      "cflags = $cflags_base $cflags_platform $target_triple",
      "ldflags = $ldflags_platform $target_triple",
      "" ]
    + RuleLines(p)
    + [ "includes =" ]
  }

  /** The command of the link_dll rule: Windows links against the triple and writes an import library. */
  function LinkDllCommand(p: TargetPlatform): string {
    match p
    case Win64 => "  command = $link $target_triple -shared $in -o $out -Wl,$implibout"
    case Linux => "  command = $link $ldflags -shared $libs $in -o $out"
    case Mac => "  command = $link $ldflags -dynamiclib $libs $in -o $out"
  }

  /** The rule blocks: cxx, link_exe, link_dll, create_implib on Windows only, and link_lib. */
  function RuleLines(p: TargetPlatform): (lines: seq<string>)
  {
    [ "rule cxx",
      "  command = $cxx $cflags $defines $includes -c $in -o $out",
      "  description = CC $in",
      "",
      "rule link_exe",
      "  command = $link $ldflags $libs $in -o $out",
      "  description = LINK EXE $out",
      "",
      "rule link_dll",
      LinkDllCommand(p),
      "  description = LINK DLL $out",
      "" ]
    + (if p == Win64 then
         [ "rule create_implib",
           "  command = echo EXPORTS > $defout && for %%f in ($in) do (echo %%~nf >> $defout) && llvm-lib /def:$defout /out:$out /machine:x64",
           "  description = CREATE IMPLIB $out",
           "" ]
       else [])
    + [ "rule link_lib",
        "  command = $ar rcs $out $in",
        "  description = LINK LIB $out",
        "" ]
  }

  /** One `includes = $includes -I"<path>"` line per global include path, in order, empty paths included. */
  function GlobalIncludeLines(paths: seq<string>): (lines: seq<string>)
    ensures |lines| == |paths|
    ensures forall i :: 0 <= i < |paths| ==> lines[i] == "includes = $includes -I\"" + paths[i] + "\""
    decreases |paths|
  {
    if |paths| == 0 then []
    else GlobalIncludeLines(paths[..|paths| - 1]) + ["includes = $includes -I\"" + paths[|paths| - 1] + "\""]
  }

  /** The loop over `GlobalIncludePaths`: one includes line per path, after `lines`. */
  method WriteGlobalIncludes(lines: seq<string>, paths: seq<string>) returns (r: seq<string>)
    ensures r == lines + GlobalIncludeLines(paths)
  {
    r := lines;
    var i := 0;
    while i < |paths|
      invariant 0 <= i <= |paths|
      invariant r == lines + GlobalIncludeLines(paths[..i])
    {
      r := r + ["includes = $includes -I\"" + paths[i] + "\""];
      i := i + 1;
      assert paths[..i][..i - 1] == paths[..i - 1];
    }
    assert paths[..i] == paths;
  }

  /** Writes the head, the global include lines and an empty line. */
  method WritePreamble(target: TargetRules, targetName: string) returns (lines: seq<string>)
    ensures lines == HeadLines(target, targetName) + GlobalIncludeLines(target.GlobalIncludePaths) + [""]
  {
    lines := HeadLines(target, targetName);
    lines := WriteGlobalIncludes(lines, target.GlobalIncludePaths);
    lines := lines + [""];
  }
}
