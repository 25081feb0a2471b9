/**
 * Node's POSIX `path.parse`, `path.format` and `path.extname`, as far as
 * generateNewPath and processFile rely on them. Strings are sequences of
 * Unicode scalar values; the separator is '/'.
 */
module NodePath {

  datatype ParsedPath = ParsedPath(root: string, dir: string, base: string, name: string, ext: string)

  predicate IsAbsolute(p: string) {
    |p| > 0 && p[0] == '/'
  }

  /** Index of the last `c` in s[lo..hi], or -1 when there is none. */
  function LastIndexOf(s: string, c: char, lo: nat, hi: nat): (r: int)
    requires lo <= hi <= |s|
    ensures -1 <= r < hi
    ensures r >= 0 ==> lo <= r && s[r] == c
    ensures forall i :: lo <= i < hi && r < i ==> s[i] != c
    decreases hi - lo
  {
    if lo == hi then -1
    else if s[hi - 1] == c then hi - 1
    else LastIndexOf(s, c, lo, hi - 1)
  }

  /** End of the last path segment of p[start..e]: trailing separators are skipped. */
  function SegmentEnd(p: string, start: nat, e: nat): (r: nat)
    requires start <= e <= |p|
    ensures start <= r <= e
    ensures r > start ==> p[r - 1] != '/'
    ensures forall i :: r <= i < e ==> p[i] == '/'
    decreases e
  {
    if e == start then start
    else if p[e - 1] == '/' then SegmentEnd(p, start, e - 1)
    else e
  }

  /**
   * Where the extension of a base name starts, or -1: the last dot, unless
   * it is the first character, and ".." has no extension.
   */
  function ExtStart(base: string): (k: int)
    ensures k == -1 || (0 < k < |base| && base[k] == '.')
    ensures k >= 0 ==> forall i :: k < i < |base| ==> base[i] != '.'
    ensures k == -1 <==> base == ".." || forall i :: 0 < i < |base| ==> base[i] != '.'
  {
    var d := LastIndexOf(base, '.', 0, |base|);
    if d <= 0 || base == ".." then -1 else d
  }

  /** First index that can belong to a segment: the leading '/' of an absolute path is the root. */
  function SegmentsStart(p: string): (s: nat)
    ensures s <= |p|
  {
    if IsAbsolute(p) then 1 else 0
  }

  /** Index of the separator before the last segment, or -1 when there is none after the root. */
  function SeparatorIndex(p: string): (r: int)
    ensures -1 <= r < SegmentEnd(p, SegmentsStart(p), |p|)
    ensures r >= 0 ==> SegmentsStart(p) <= r && p[r] == '/'
  {
    LastIndexOf(p, '/', SegmentsStart(p), SegmentEnd(p, SegmentsStart(p), |p|))
  }

  /** The last segment of p, trailing separators dropped. */
  function BaseOf(p: string): (b: string)
    ensures '/' !in b
  {
    var end := SegmentEnd(p, SegmentsStart(p), |p|);
    var slash := SeparatorIndex(p);
    var first := if slash >= 0 then slash + 1 else SegmentsStart(p);
    var b := p[first..end];
    assert forall j :: 0 <= j < |b| ==> b[j] == p[first + j] && b[j] != '/';
    b
  }

  /** Everything before the separator that precedes the last segment; the root when there is none. */
  function DirOf(p: string): string {
    var slash := SeparatorIndex(p);
    if slash >= 0 then p[..slash] else if IsAbsolute(p) then "/" else ""
  }

  /** The base name without its extension. */
  function NameOf(base: string): string {
    var k := ExtStart(base);
    if k < 0 then base else base[..k]
  }

  /** The extension of a base name, dot included, or "". */
  function ExtOf(base: string): (e: string)
    ensures e == "" || e[0] == '.'
    ensures NameOf(base) + e == base
  {
    var k := ExtStart(base);
    assert k >= 0 ==> base[..k] + base[k..] == base;
    if k < 0 then "" else base[k..]
  }

  /**
   * A dot at index k > 0 with no dot after it starts the extension of a base
   * name other than "..".
   */
  lemma {:induction false} ExtensionAtLastDot(base: string, k: nat)
    requires 0 < k < |base| && base[k] == '.' && base != ".."
    requires forall i :: k < i < |base| ==> base[i] != '.'
    ensures ExtOf(base) == base[k..]
  {
    assert ExtStart(base) != -1;
  }

  /** path.parse: root, directory, last segment, and its split into name and extension. */
  function Parse(p: string): (pp: ParsedPath)
    ensures pp.root == "" || pp.root == "/"
    ensures pp.name + pp.ext == pp.base
    ensures '/' !in pp.base
  {
    var b := BaseOf(p);
    ParsedPath(if IsAbsolute(p) then "/" else "", DirOf(p), b, NameOf(b), ExtOf(b))
  }

  /** path.extname */
  function Extname(p: string): string {
    Parse(p).ext
  }

  /** path.format: `dir || root`, then the base, with a separator unless the directory is the root. */
  function Format(pp: ParsedPath): (r: string)
    ensures var dir := if pp.dir != "" then pp.dir else pp.root;
      var base := if pp.base != "" then pp.base else pp.name + pp.ext;
      var sep := if dir == "" || dir == pp.root then 0 else 1;
      |r| == |dir| + sep + |base| && r[..|dir|] == dir && r[|dir| + sep..] == base &&
      (sep == 1 ==> r[|dir|] == '/')
  {
    var dir := if pp.dir != "" then pp.dir else pp.root;
    var base := if pp.base != "" then pp.base else pp.name + pp.ext;
    if dir == "" then base
    else if dir == pp.root then dir + base
    else dir + "/" + base
  }

  /** A path naming a file: non-empty, no trailing separator, not starting with "//". */
  predicate PlainFilePath(p: string) {
    |p| > 0 && p[|p| - 1] != '/' && !(|p| >= 2 && p[0] == '/' && p[1] == '/')
  }

  /** Formatting a parsed file path gives the path back. */
  lemma FormatParse(p: string)
    requires PlainFilePath(p)
    ensures Format(Parse(p)) == p
  {
    var b := PlainBase(p);
    if SeparatorIndex(p) >= 0 {
      FormatParseWithDir(p, b);
    } else if IsAbsolute(p) {
      assert p == "/" + b;
    } else {
      assert p == b;
    }
  }

  lemma FormatParseWithDir(p: string, b: string)
    requires PlainFilePath(p) && SeparatorIndex(p) >= 0
    requires b == Parse(p).base && b == p[SeparatorIndex(p) + 1..]
    ensures Format(Parse(p)) == p
  {
    var slash := SeparatorIndex(p);
    var pp := Parse(p);
    SeparatedDir(p);
    assert pp.dir == DirOf(p) && pp.root == (if IsAbsolute(p) then "/" else "");
    SplitAtSeparator(p, slash);
    FormatJoined(pp);
  }

  /** The directory of a file path with a separator after the root is neither empty nor the root. */
  lemma SeparatedDir(p: string)
    requires PlainFilePath(p) && SeparatorIndex(p) >= 0
    ensures DirOf(p) == p[..SeparatorIndex(p)] && DirOf(p) != ""
    ensures IsAbsolute(p) ==> DirOf(p) != "/"
  {
    var slash := SeparatorIndex(p);
    assert slash == 1 ==> p[1] == '/';
  }

  lemma SplitAtSeparator(p: string, i: nat)
    requires i < |p| && p[i] == '/'
    ensures p == p[..i] + "/" + p[i + 1..]
  {
  }

  lemma FormatJoined(pp: ParsedPath)
    requires pp.dir != "" && pp.dir != pp.root && pp.base != ""
    ensures Format(pp) == pp.dir + "/" + pp.base
  {
  }

  /** The base of a file path runs from just after its last separator to its end. */
  lemma PlainBase(p: string) returns (b: string)
    requires PlainFilePath(p)
    ensures b == Parse(p).base && b != ""
    ensures b == p[(if SeparatorIndex(p) >= 0 then SeparatorIndex(p) + 1 else SegmentsStart(p))..]
  {
    var start := SegmentsStart(p);
    assert SegmentEnd(p, start, |p|) == |p|;
    b := BaseOf(p);
  }

  /**
   * Parsing a formatted path gives back its base and its directory (the root
   * when the directory is empty), whatever the directory string is.
   */
  lemma ParseFormat(pp: ParsedPath)
    requires pp.root == "" || pp.root == "/"
    requires pp.base != "" && '/' !in pp.base
    ensures Parse(Format(pp)).base == pp.base
    ensures Parse(Format(pp)).dir == (if pp.dir == "" then pp.root else pp.dir)
  {
    var d := if pp.dir != "" then pp.dir else pp.root;
    if d == "" {
      ParseBare(pp.base);
    } else if d == pp.root {
      ParseRooted(pp.base);
    } else {
      ParseJoined(d, pp.base);
    }
  }

  lemma ParseBare(b: string)
    requires b != "" && '/' !in b
    ensures Parse(b).base == b && Parse(b).dir == ""
  {
    assert b[0] in b;
    NoSeparatorAfter("", b);
    assert "" + b == b;
    assert SegmentEnd(b, 0, |b|) == |b|;
    assert LastIndexOf(b, '/', 0, |b|) == -1;
    assert b[0..|b|] == b;
  }

  lemma ParseRooted(b: string)
    requires b != "" && '/' !in b
    ensures Parse("/" + b).base == b && Parse("/" + b).dir == "/"
  {
    var f := "/" + b;
    NoSeparatorAfter("/", b);
    assert SegmentEnd(f, 1, |f|) == |f|;
    assert LastIndexOf(f, '/', 1, |f|) == -1;
    assert f[1..|f|] == b;
  }

  lemma ParseJoined(d: string, b: string)
    requires d != "" && b != "" && '/' !in b
    ensures Parse(d + "/" + b).base == b && Parse(d + "/" + b).dir == d
  {
    var f := d + "/" + b;
    NoSeparatorAfter(d + "/", b);
    var start := SegmentsStart(f);
    assert SegmentEnd(f, start, |f|) == |f|;
    assert f[|d|] == '/';
    assert LastIndexOf(f, '/', start, |f|) == |d|;
    assert f[..|d|] == d;
    assert f[|d| + 1..|f|] == b;
  }

  /** In prefix + b, the characters of b are the last ones and none is a separator. */
  lemma NoSeparatorAfter(prefix: string, b: string)
    requires b != "" && '/' !in b
    ensures (prefix + b)[|prefix + b| - 1] != '/'
    ensures forall i :: |prefix| <= i < |prefix + b| ==> (prefix + b)[i] != '/'
  {
    forall i | |prefix| <= i < |prefix + b| ensures (prefix + b)[i] != '/' {
      assert (prefix + b)[i] == b[i - |prefix|];
      assert b[i - |prefix|] in b;
    }
  }
}
