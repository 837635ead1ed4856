/**
 * The two `os.path` operations the ingestion loop applies to a directory entry,
 * in their POSIX form: `splitext` (separator '/', extension separator '.')
 * and `join` of a folder with one entry name.
 */
module PosixPath {

  /** `s.rfind(c)`: the index of the last occurrence of `c`, or -1. */
  function RFind(s: string, c: char): int {
    if |s| == 0 then -1
    else if s[|s| - 1] == c then |s| - 1
    else RFind(s[..|s| - 1], c)
  }

  /** `rfind` finds the last occurrence: -1 exactly when there is none. */
  lemma {:induction false} RFindLast(s: string, c: char)
    ensures -1 <= RFind(s, c) < |s|
    ensures 0 <= RFind(s, c) ==> s[RFind(s, c)] == c
    ensures forall j :: RFind(s, c) < j < |s| ==> s[j] != c
  {
    if |s| > 0 && s[|s| - 1] != c {
      RFindLast(s[..|s| - 1], c);
    }
  }

  /** Some character of `p[lo..hi]` is not a dot. */
  predicate HasNonDot(p: string, lo: int, hi: int)
    requires 0 <= lo <= hi <= |p|
  {
    exists k :: lo <= k < hi && p[k] != '.'
  }

  /** `os.path.splitext(p)`: the extension is everything from the last dot of the
      last path component, unless that component has only dots before it (a
      leading-dot name such as ".bashrc" has no extension). */
  function SplitExt(p: string): (string, string) {
    var sepIndex := RFind(p, '/');
    var dotIndex := RFind(p, '.');
    RFindLast(p, '/');
    RFindLast(p, '.');
    if dotIndex > sepIndex && HasNonDot(p, sepIndex + 1, dotIndex) then
      (p[..dotIndex], p[dotIndex..])
    else
      (p, [])
  }

  /** `splitext` cuts its argument in two: the extension is empty, or one dot and
      then neither a dot nor a '/'. */
  lemma SplitExtShape(p: string)
    ensures SplitExt(p).0 + SplitExt(p).1 == p
    ensures SplitExt(p).1 == [] || (SplitExt(p).1[0] == '.' && '.' !in SplitExt(p).1[1..] && '/' !in SplitExt(p).1)
  {
    RFindLast(p, '/');
    RFindLast(p, '.');
    var dotIndex := RFind(p, '.');
    if SplitExt(p).1 != [] {
      assert p[..dotIndex] + p[dotIndex..] == p;
    } else {
      assert p + [] == p;
    }
  }

  /** The extension part of `os.path.splitext(p)`. */
  function Ext(p: string): string {
    SplitExt(p).1
  }

  /** A name with a non-dot character before its last dot has the suffix from that
      dot as its extension. */
  lemma ExtOfDottedName(stem: string, suffix: string)
    requires '/' !in stem && '/' !in suffix && '.' !in suffix
    requires exists k :: 0 <= k < |stem| && stem[k] != '.'
    ensures Ext(stem + "." + suffix) == "." + suffix
  {
    var p := stem + "." + suffix;
    var k :| 0 <= k < |stem| && stem[k] != '.';
    assert p[|stem|] == '.';
    assert forall j :: |stem| < j < |p| ==> p[j] == suffix[j - |stem| - 1];
    assert forall j :: 0 <= j < |p| ==> p[j] != '/';
    RFindLast(p, '.');
    RFindLast(p, '/');
    assert RFind(p, '.') == |stem|;
    assert RFind(p, '/') == -1;
    assert p[k] == stem[k];
    assert HasNonDot(p, 0, |stem|);
    assert p[|stem|..] == "." + suffix;
  }

  /** A name without a dot has no extension. */
  lemma ExtWithoutDot(p: string)
    requires '.' !in p
    ensures Ext(p) == []
  {
    RFindLast(p, '.');
    RFindLast(p, '/');
    assert RFind(p, '.') == -1;
  }

  /** A name whose last dot is preceded only by dots (`.bashrc`, `..pdf`) has no
      extension. */
  lemma ExtOfHiddenName(stem: string, suffix: string)
    requires '/' !in stem && '/' !in suffix && '.' !in suffix
    requires forall k :: 0 <= k < |stem| ==> stem[k] == '.'
    ensures Ext(stem + "." + suffix) == []
  {
    var p := stem + "." + suffix;
    assert p[|stem|] == '.';
    assert forall j :: |stem| < j < |p| ==> p[j] == suffix[j - |stem| - 1];
    assert forall j :: 0 <= j < |p| ==> p[j] != '/';
    RFindLast(p, '.');
    RFindLast(p, '/');
    assert RFind(p, '.') == |stem|;
    assert RFind(p, '/') == -1;
    assert forall k :: 0 <= k < |stem| ==> p[k] == stem[k];
    assert !HasNonDot(p, 0, |stem|);
  }

  /** `os.path.join(folder, name)` for a single second argument: an absolute
      `name` replaces the folder; otherwise a '/' is inserted unless the folder is
      empty or already ends with one. */
  function Join(folder: string, name: string): (r: string)
    ensures |name| > 0 && name[0] == '/' ==> r == name
    ensures |name| <= |r| && r[|r| - |name|..] == name
    ensures (|name| == 0 || name[0] != '/') && folder != [] && folder[|folder| - 1] != '/' ==>
              r == folder + "/" + name
  {
    if |name| > 0 && name[0] == '/' then name
    else if folder == [] || folder[|folder| - 1] == '/' then folder + name
    else folder + "/" + name
  }
}
