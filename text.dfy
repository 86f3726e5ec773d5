/** String and list helpers that stand for the .NET library calls the build tool makes:
    Enumerable.Distinct, string.IsNullOrEmpty filtering, ToLower, EndsWith/StartsWith/Contains,
    IndexOf with OrdinalIgnoreCase, string.Replace and the System.IO.Path name functions. */
module Text {

  predicate NoDuplicates<T(==)>(s: seq<T>) {
    forall i, j :: 0 <= i < j < |s| ==> s[i] != s[j]
  }

  lemma NoDuplicatesAppend<T>(a: seq<T>, b: seq<T>)
    requires NoDuplicates(a) && NoDuplicates(b)
    requires forall x :: x in a ==> x !in b
    ensures NoDuplicates(a + b)
  {
    forall i, j | 0 <= i < j < |a + b|
      ensures (a + b)[i] != (a + b)[j]
    {
      if j >= |a| && i < |a| {
        assert (a + b)[i] in a && (a + b)[j] in b;
      }
    }
  }

  /** Enumerable.Distinct: every element once, at the place of its first occurrence. */
  function Distinct(s: seq<string>): (r: seq<string>)
    ensures NoDuplicates(r)
    ensures forall x :: x in r <==> x in s
    ensures |r| <= |s|
    decreases |s|
  {
    if |s| == 0 then []
    else
      var d := Distinct(s[..|s| - 1]);
      if s[|s| - 1] in d then d else d + [s[|s| - 1]]
  }

  /** A list without repeated elements is left as it is by Distinct. */
  lemma {:induction false} DistinctOfNoDuplicates(s: seq<string>)
    requires NoDuplicates(s)
    ensures Distinct(s) == s
  {
    if |s| > 0 {
      var init := s[..|s| - 1];
      DistinctOfNoDuplicates(init);
      assert s[|s| - 1] !in init;
      assert init + [s[|s| - 1]] == s;
    }
  }

  /** Distinct keeps first occurrences: the distinct elements of a prefix stay in front, in the same order. */
  lemma {:induction false} DistinctKeepsPrefix(a: seq<string>, b: seq<string>)
    ensures |Distinct(a)| <= |Distinct(a + b)|
    ensures Distinct(a + b)[..|Distinct(a)|] == Distinct(a)
    decreases |b|
  {
    if |b| == 0 {
      assert a + b == a;
    } else {
      var b' := b[..|b| - 1];
      DistinctKeepsPrefix(a, b');
      assert (a + b)[..|a + b| - 1] == a + b';
    }
  }

  /** The entries of a list that are not the empty string (`!string.IsNullOrEmpty(x)`), in order. */
  function NonEmpty(s: seq<string>): (r: seq<string>)
    ensures forall x :: x in r <==> x in s && x != ""
    ensures |r| <= |s|
    decreases |s|
  {
    if |s| == 0 then []
    else NonEmpty(s[..|s| - 1]) + (if s[|s| - 1] != "" then [s[|s| - 1]] else [])
  }

  lemma {:induction false} NonEmptyAppend(a: seq<string>, b: seq<string>)
    ensures NonEmpty(a + b) == NonEmpty(a) + NonEmpty(b)
    decreases |b|
  {
    if |b| == 0 {
      assert a + b == a;
    } else {
      var b' := b[..|b| - 1];
      NonEmptyAppend(a, b');
      assert (a + b)[..|a + b| - 1] == a + b';
    }
  }

  /** Concatenation of a list of strings. */
  function Concat(parts: seq<string>): string
    decreases |parts|
  {
    if |parts| == 0 then "" else Concat(parts[..|parts| - 1]) + parts[|parts| - 1]
  }

  // ---- characters ----

  /** Invariant-culture lower-casing, restricted to ASCII letters. */
  function ToLowerChar(c: char): char {
    if 'A' <= c <= 'Z' then (c as int - 'A' as int + 'a' as int) as char else c
  }

  function ToLower(s: string): (r: string)
    ensures |r| == |s|
    ensures forall i :: 0 <= i < |s| ==> r[i] == ToLowerChar(s[i])
  {
    seq(|s|, i requires 0 <= i < |s| => ToLowerChar(s[i]))
  }

  /** `s.Replace(a, b)` for single characters. */
  function ReplaceChar(s: string, a: char, b: char): (r: string)
    ensures |r| == |s|
    ensures forall i :: 0 <= i < |s| ==> r[i] == (if s[i] == a then b else s[i])
  {
    seq(|s|, i requires 0 <= i < |s| => if s[i] == a then b else s[i])
  }

  // ---- prefixes, suffixes, substrings ----

  predicate StartsWith(s: string, prefix: string) {
    |prefix| <= |s| && s[..|prefix|] == prefix
  }

  predicate EndsWith(s: string, suffix: string) {
    |suffix| <= |s| && s[|s| - |suffix|..] == suffix
  }

  /** `s.EndsWith(suffix, StringComparison.OrdinalIgnoreCase)` for ASCII text. */
  predicate EndsWithIgnoreCase(s: string, suffix: string) {
    EndsWith(ToLower(s), ToLower(suffix))
  }

  /** Ordinal `s.Contains(sub)`. */
  predicate Contains(s: string, sub: string)
    decreases |s|
  {
    StartsWith(s, sub) || (|s| > 0 && Contains(s[1..], sub))
  }

  lemma {:induction false} ContainsAt(s: string, sub: string, k: nat)
    requires k + |sub| <= |s| && s[k..k + |sub|] == sub
    ensures Contains(s, sub)
    decreases k
  {
    if k > 0 {
      assert s[1..][k - 1..k - 1 + |sub|] == s[k..k + |sub|];
      ContainsAt(s[1..], sub, k - 1);
    }
  }

  /** `sub` occurs in `s` at position `k`. */
  predicate OccursAt(s: string, sub: string, k: nat) {
    k + |sub| <= |s| && s[k..k + |sub|] == sub
  }

  lemma {:induction false} ContainsWitness(s: string, sub: string)
    requires Contains(s, sub)
    ensures exists k: nat :: OccursAt(s, sub, k)
    decreases |s|
  {
    if StartsWith(s, sub) {
      assert OccursAt(s, sub, 0);
    } else {
      ContainsWitness(s[1..], sub);
      var k: nat :| OccursAt(s[1..], sub, k);
      assert s[k + 1..k + 1 + |sub|] == s[1..][k..k + |sub|];
      assert OccursAt(s, sub, k + 1);
    }
  }

  /** What a string contains, a longer string with it in front or behind contains too. */
  lemma ContainsExtended(a: string, s: string, b: string, sub: string)
    requires Contains(s, sub)
    ensures Contains(a + s + b, sub)
  {
    ContainsWitness(s, sub);
    var k: nat :| OccursAt(s, sub, k);
    assert (a + s + b)[|a| + k..|a| + k + |sub|] == s[k..k + |sub|];
    ContainsAt(a + s + b, sub, |a| + k);
  }

  /** Each item formatted and the results concatenated in order. */
  function Joined(items: seq<string>, fmt: string -> string): string
    decreases |items|
  {
    if |items| == 0 then "" else Joined(items[..|items| - 1], fmt) + fmt(items[|items| - 1])
  }

  /** The concatenation contains every formatted item. */
  lemma {:induction false} JoinedWritesEvery(items: seq<string>, fmt: string -> string, k: nat)
    requires k < |items|
    ensures Contains(Joined(items, fmt), fmt(items[k]))
    decreases |items|
  {
    var init := items[..|items| - 1];
    if k == |items| - 1 {
      ContainsTail(Joined(init, fmt), fmt(items[k]));
    } else {
      JoinedWritesEvery(init, fmt, k);
      assert init[k] == items[k];
      ContainsExtended("", Joined(init, fmt), fmt(items[|items| - 1]), fmt(items[k]));
      assert "" + Joined(init, fmt) + fmt(items[|items| - 1]) == Joined(items, fmt);
    }
  }

  /** A string contains its own tail. */
  lemma ContainsTail(s: string, tail: string)
    ensures Contains(s + tail, tail)
  {
    var f := s + tail;
    assert f[|s|..|s| + |tail|] == tail;
    ContainsAt(f, tail, |s|);
  }

  /** `s.IndexOf(sub, StringComparison.OrdinalIgnoreCase) >= 0` for ASCII text. */
  predicate ContainsIgnoreCase(s: string, sub: string) {
    Contains(ToLower(s), ToLower(sub))
  }

  lemma ContainsHasFirstChar(s: string, sub: string)
    requires |sub| > 0
    ensures Contains(s, sub) ==> sub[0] in s
  {
    if Contains(s, sub) {
      ContainsWitness(s, sub);
      var k: nat :| OccursAt(s, sub, k);
      assert s[k] == s[k..k + |sub|][0];
    }
  }

  /** A string with no letter of the first character of `sub`, in either case, does not contain `sub`. */
  lemma NotContainsIgnoreCase(s: string, sub: string)
    requires |sub| > 0
    requires forall i :: 0 <= i < |s| ==> ToLowerChar(s[i]) != ToLowerChar(sub[0])
    ensures !ContainsIgnoreCase(s, sub)
  {
    ContainsHasFirstChar(ToLower(s), ToLower(sub));
  }

  /** A string that starts with `sub`, up to case, contains it. */
  lemma StartsWithIgnoreCase(s: string, sub: string)
    requires |sub| <= |s|
    requires forall i :: 0 <= i < |sub| ==> ToLowerChar(s[i]) == ToLowerChar(sub[i])
    ensures ContainsIgnoreCase(s, sub)
  {
    assert ToLower(s)[..|sub|] == ToLower(sub);
  }

  /** `s.Replace(pattern, "")`: removes the non-overlapping occurrences found scanning left to right. */
  function RemoveAll(s: string, pattern: string): (r: string)
    requires |pattern| > 0
    ensures |r| <= |s|
    ensures !Contains(s, pattern) ==> r == s
    decreases |s|
  {
    if |s| == 0 then ""
    else if StartsWith(s, pattern) then RemoveAll(s[|pattern|..], pattern)
    else [s[0]] + RemoveAll(s[1..], pattern)
  }

  // ---- System.IO.Path ----

  predicate IsSeparator(c: char) {
    c == '/' || c == '\\'
  }

  /** Path.GetFileName: what follows the last directory separator. */
  function FileName(path: string): (r: string)
    ensures forall i :: 0 <= i < |r| ==> !IsSeparator(r[i])
    decreases |path|
  {
    if |path| == 0 then ""
    else if IsSeparator(path[|path| - 1]) then ""
    else FileName(path[..|path| - 1]) + [path[|path| - 1]]
  }

  /** The file name is a suffix of the path. */
  lemma {:induction false} FileNameIsSuffix(path: string)
    ensures EndsWith(path, FileName(path))
    decreases |path|
  {
    if |path| > 0 && !IsSeparator(path[|path| - 1]) {
      var init := path[..|path| - 1];
      var n := FileName(init);
      FileNameIsSuffix(init);
      assert init[|init| - |n|..] == n;
      assert path[|path| - |n| - 1..] == n + [path[|path| - 1]];
    }
  }

  /** Index of the last occurrence of `c`, or -1. */
  function LastIndexOf(s: string, c: char): (i: int)
    ensures -1 <= i < |s|
    ensures 0 <= i ==> s[i] == c
    ensures forall j :: i < j < |s| ==> s[j] != c
    decreases |s|
  {
    if |s| == 0 then -1
    else if s[|s| - 1] == c then |s| - 1
    else LastIndexOf(s[..|s| - 1], c)
  }

  /** Path.GetExtension: from the last '.' of the file name on, or "" when there is none or it ends the name. */
  function Extension(path: string): string {
    var name := FileName(path);
    var i := LastIndexOf(name, '.');
    if i < 0 || i == |name| - 1 then "" else name[i..]
  }

  /** Path.GetFileNameWithoutExtension: the file name up to its last '.'. */
  function Stem(path: string): string {
    var name := FileName(path);
    var i := LastIndexOf(name, '.');
    if i < 0 then name else name[..i]
  }

  /** A file name `base + ext`, where `ext` is a '.' followed by at least one character and no further
      '.' and `base` has no separator, splits back into `base` and `ext`. */
  lemma StemAndExtension(base: string, ext: string)
    requires forall i :: 0 <= i < |base| ==> !IsSeparator(base[i])
    requires |ext| >= 2 && ext[0] == '.'
    requires forall i :: 0 < i < |ext| ==> ext[i] != '.' && !IsSeparator(ext[i])
    ensures Stem(base + ext) == base
    ensures Extension(base + ext) == ext
  {
    var p := base + ext;
    FileNameWithoutSeparator(p);
    assert FileName(p) == p;
    LastDotOfSuffix(base, ext);
    assert p[..|base|] == base;
    assert p[|base|..] == ext;
  }

  /** Appending separator-free text extends the file name by it. */
  lemma {:induction false} FileNameAppend(p: string, q: string)
    requires forall i :: 0 <= i < |q| ==> !IsSeparator(q[i])
    ensures FileName(p + q) == FileName(p) + q
    decreases |q|
  {
    if |q| == 0 {
      assert p + q == p;
    } else {
      var c, r := q[0], q[1..];
      FileNameSnoc(p, c);
      FileNameAppend(p + [c], r);
      assert p + q == (p + [c]) + r;
      assert FileName(p) + q == (FileName(p) + [c]) + r;
    }
  }

  /** A character that is not a separator extends the file name. */
  lemma FileNameSnoc(p: string, c: char)
    requires !IsSeparator(c)
    ensures FileName(p + [c]) == FileName(p) + [c]
  {
    assert (p + [c])[..|p|] == p;
  }

  /** A path ending in an extension `ext` (a '.' then at least one character, with no further '.' and no
      separator) has that extension, and its stem is the file name of what precedes it. */
  lemma ExtensionOfSuffix(base: string, ext: string)
    requires |ext| >= 2 && ext[0] == '.'
    requires forall i :: 0 < i < |ext| ==> ext[i] != '.' && !IsSeparator(ext[i])
    ensures Extension(base + ext) == ext
    ensures Stem(base + ext) == FileName(base)
  {
    FileNameAppend(base, ext);
    var fb := FileName(base);
    LastDotOfSuffix(fb, ext);
    assert (fb + ext)[|fb|..] == ext;
    assert (fb + ext)[..|fb|] == fb;
  }

  /** The last '.' of `a + ext` is the one that opens `ext`. */
  lemma LastDotOfSuffix(a: string, ext: string)
    requires |ext| >= 1 && ext[0] == '.'
    requires forall i :: 0 < i < |ext| ==> ext[i] != '.'
    ensures LastIndexOf(a + ext, '.') == |a|
  {
    var s := a + ext;
    assert s[|a|] == '.';
    forall j | |a| < j < |s|
      ensures s[j] != '.'
    {
      assert s[j] == ext[j - |a|];
    }
    LastIndexOfIs(s, '.', |a|);
  }

  lemma {:induction false} FileNameWithoutSeparator(p: string)
    requires forall i :: 0 <= i < |p| ==> !IsSeparator(p[i])
    ensures FileName(p) == p
    decreases |p|
  {
    if |p| > 0 {
      FileNameWithoutSeparator(p[..|p| - 1]);
    }
  }

  lemma {:induction false} LastIndexOfIs(s: string, c: char, k: nat)
    requires k < |s| && s[k] == c
    requires forall j :: k < j < |s| ==> s[j] != c
    ensures LastIndexOf(s, c) == k
    decreases |s|
  {
    if k < |s| - 1 {
      LastIndexOfIs(s[..|s| - 1], c, k);
    }
  }
}
