/** The subset of Node's POSIX `path` module the document manager relies on:
    `dirname`, `basename`, `extname`, `isAbsolute`, `resolve` and
    `resolve(join(..))`. Paths are strings over '/'. Resolution canonicalises
    a path to its segments with "", "." and ".." removed. */
module Paths {

  /** Split `s` at every occurrence of `sep` (JavaScript `s.split(sep)`). */
  function SplitOn(s: string, sep: char): (parts: seq<string>)
    ensures |parts| >= 1
  {
    if s == [] then [""]
    else
      var rest := SplitOn(s[1..], sep);
      if s[0] == sep then [""] + rest else [[s[0]] + rest[0]] + rest[1..]
  }

  /** Join non-empty `parts` with `sep` between them (JavaScript `parts.join(sep)`). */
  function JoinWith(parts: seq<string>, sep: char): string
    requires |parts| >= 1
  {
    if |parts| == 1 then parts[0] else parts[0] + [sep] + JoinWith(parts[1..], sep)
  }

  /** No piece contains the separator. */
  lemma {:induction false} SplitOnPieces(s: string, sep: char)
    ensures forall i :: 0 <= i < |SplitOn(s, sep)| ==> sep !in SplitOn(s, sep)[i]
  {
    if s != [] {
      SplitOnPieces(s[1..], sep);
    }
  }

  /** Splitting and joining back gives the original string. */
  lemma {:induction false} JoinSplit(s: string, sep: char)
    ensures JoinWith(SplitOn(s, sep), sep) == s
  {
    if s != [] {
      var rest := SplitOn(s[1..], sep);
      JoinSplit(s[1..], sep);
      if s[0] != sep {
        if |rest| == 1 {
          assert JoinWith(SplitOn(s, sep), sep) == [s[0]] + rest[0];
        } else {
          assert JoinWith(SplitOn(s, sep), sep) == [s[0]] + rest[0] + [sep] + JoinWith(rest[1..], sep);
          assert JoinWith(rest, sep) == rest[0] + [sep] + JoinWith(rest[1..], sep);
        }
        assert [s[0]] + s[1..] == s;
      } else {
        assert [sep] + s[1..] == s;
      }
    }
  }

  /** A piece without the separator splits to itself, and a separator
      after it starts a new piece. */
  lemma {:induction false} SplitPiece(a: string, b: string, sep: char)
    requires sep !in a
    ensures SplitOn(a, sep) == [a]
    ensures SplitOn(a + [sep] + b, sep) == [a] + SplitOn(b, sep)
  {
    if a != [] {
      SplitPiece(a[1..], b, sep);
      assert (a + [sep] + b)[1..] == a[1..] + [sep] + b;
      assert [a[0]] + a[1..] == a;
    } else {
      assert a + [sep] + b == [sep] + b;
    }
  }

  /** Joining pieces that do not contain the separator and splitting again
      gives the pieces back. */
  lemma {:induction false} SplitJoin(parts: seq<string>, sep: char)
    requires |parts| >= 1
    requires forall i :: 0 <= i < |parts| ==> sep !in parts[i]
    ensures SplitOn(JoinWith(parts, sep), sep) == parts
  {
    if |parts| == 1 {
      SplitPiece(parts[0], "", sep);
    } else {
      SplitJoin(parts[1..], sep);
      SplitPiece(parts[0], JoinWith(parts[1..], sep), sep);
    }
  }

  /** Appending a separator and a last piece appends one part. */
  lemma {:induction false} SplitAppend(a: string, b: string, sep: char)
    requires sep !in b
    ensures SplitOn(a + [sep] + b, sep) == SplitOn(a, sep) + [b]
  {
    if a == [] {
      SplitPiece(b, "", sep);
      assert a + [sep] + b == [sep] + b;
    } else {
      SplitAppend(a[1..], b, sep);
      assert (a + [sep] + b)[1..] == a[1..] + [sep] + b;
    }
  }

  lemma {:induction false} JoinAppend(parts: seq<string>, b: string, sep: char)
    requires |parts| >= 1
    ensures JoinWith(parts + [b], sep) == JoinWith(parts, sep) + [sep] + b
  {
    if |parts| > 1 {
      JoinAppend(parts[1..], b, sep);
      assert (parts + [b])[1..] == parts[1..] + [b];
    }
  }

  /** A path segment that survives normalisation. */
  predicate CleanSegment(s: string) {
    s != "" && s != "." && s != ".." && '/' !in s
  }

  predicate Clean(segs: seq<string>) {
    forall i :: 0 <= i < |segs| ==> CleanSegment(segs[i])
  }

  /** Node's segment normalisation: "" and "." vanish, ".." drops the
      previous segment (and is ignored at the root). */
  function Normalize(acc: seq<string>, segs: seq<string>): seq<string>
    decreases |segs|
  {
    if segs == [] then acc
    else if segs[0] == "" || segs[0] == "." then Normalize(acc, segs[1..])
    else if segs[0] == ".." then Normalize(if acc == [] then [] else acc[..|acc| - 1], segs[1..])
    else Normalize(acc + [segs[0]], segs[1..])
  }

  /** Normalising pieces without separators leaves only clean segments. */
  lemma {:induction false} NormalizeIsClean(acc: seq<string>, segs: seq<string>)
    requires Clean(acc)
    requires forall i :: 0 <= i < |segs| ==> '/' !in segs[i]
    ensures Clean(Normalize(acc, segs))
    decreases |segs|
  {
    if segs != [] {
      var acc' := if segs[0] == "" || segs[0] == "." then acc
                  else if segs[0] == ".." then (if acc == [] then [] else acc[..|acc| - 1])
                  else acc + [segs[0]];
      NormalizeIsClean(acc', segs[1..]);
    }
  }

  /** Clean segments pass through normalisation unchanged. */
  lemma {:induction false} NormalizeClean(acc: seq<string>, segs: seq<string>)
    requires Clean(acc) && Clean(segs)
    ensures Normalize(acc, segs) == acc + segs
    decreases |segs|
  {
    if segs != [] {
      NormalizeClean(acc + [segs[0]], segs[1..]);
      assert acc + [segs[0]] + segs[1..] == acc + segs;
    }
  }

  lemma {:induction false} NormalizeAppend(acc: seq<string>, segs: seq<string>, b: string)
    requires CleanSegment(b)
    ensures Normalize(acc, segs + [b]) == Normalize(acc, segs) + [b]
    decreases |segs|
  {
    if segs == [] {
      assert Normalize(acc, [b]) == Normalize(acc + [b], []);
    } else {
      assert (segs + [b])[1..] == segs[1..] + [b];
      var acc' := if segs[0] == "" || segs[0] == "." then acc
                  else if segs[0] == ".." then (if acc == [] then [] else acc[..|acc| - 1])
                  else acc + [segs[0]];
      NormalizeAppend(acc', segs[1..], b);
    }
  }

  /** The string of a canonical absolute path with the given segments. */
  function FromSegments(segs: seq<string>): string {
    if segs == [] then "/" else "/" + JoinWith(segs, '/')
  }

  /** The segments of a path after normalisation. */
  function Segments(p: string): seq<string> {
    Normalize([], SplitOn(p, '/'))
  }

  lemma SegmentsClean(p: string)
    ensures Clean(Segments(p))
  {
    SplitOnPieces(p, '/');
    NormalizeIsClean([], SplitOn(p, '/'));
  }

  /** A canonical absolute path: what `path.resolve` returns. */
  function Canon(p: string): string {
    FromSegments(Segments(p))
  }

  /** A canonical path is the image of its own segments. */
  lemma SegmentsOfFromSegments(segs: seq<string>)
    requires Clean(segs)
    ensures Segments(FromSegments(segs)) == segs
  {
    if segs == [] {
      assert SplitOn("/", '/') == [""] + SplitOn("", '/');
    } else {
      var j := JoinWith(segs, '/');
      assert FromSegments(segs) == "/" + j;
      assert SplitOn("/" + j, '/') == [""] + SplitOn(j, '/');
      SplitJoin(segs, '/');
      NormalizeClean([], segs);
    }
  }

  /** Canonicalisation is idempotent: resolving an already resolved path
      gives it back. */
  lemma CanonIdempotent(p: string)
    ensures Canon(Canon(p)) == Canon(p)
  {
    SegmentsClean(p);
    SegmentsOfFromSegments(Segments(p));
  }

  /** `path.isAbsolute`. */
  predicate IsAbsolute(p: string) {
    |p| > 0 && p[0] == '/'
  }

  /** `path.resolve(base, p)`; `base` is taken to be absolute (a relative
      base would be resolved against the process working directory). */
  function Resolve(base: string, p: string): string {
    if IsAbsolute(p) then Canon(p) else Canon(base + "/" + p)
  }

  /** `path.resolve(path.join(dir, p))`: unlike `resolve`, `join` never
      lets an absolute `p` restart from the root. */
  function JoinResolve(dir: string, p: string): string {
    Canon(dir + "/" + p)
  }

  /** Resolving a plain file name inside a directory appends the name to the
      canonical directory. */
  lemma JoinResolveChild(dir: string, name: string)
    requires CleanSegment(name)
    ensures JoinResolve(dir, name) == if Canon(dir) == "/" then "/" + name else Canon(dir) + "/" + name
    ensures Segments(JoinResolve(dir, name)) == Segments(dir) + [name]
  {
    SplitAppend(dir, name, '/');
    assert dir + "/" + name == dir + ['/'] + name;
    NormalizeAppend([], SplitOn(dir, '/'), name);
    var c := Segments(dir);
    SegmentsClean(dir);
    assert Segments(dir + "/" + name) == c + [name];
    if c != [] {
      JoinAppend(c, name, '/');
    }
    SegmentsOfFromSegments(c + [name]);
  }

  /** `s.lastIndexOf(c)`. */
  function LastIndexOf(s: string, c: char): (i: int)
    ensures -1 <= i < |s|
    ensures i == -1 <==> c !in s
    ensures 0 <= i ==> s[i] == c && c !in s[i + 1..]
  {
    if s == [] then -1
    else if s[|s| - 1] == c then |s| - 1
    else
      var i := LastIndexOf(s[..|s| - 1], c);
      assert s[i + 1..] == s[..|s| - 1][i + 1..] + [s[|s| - 1]];
      i
  }

  lemma {:induction false} LastIndexOfAppend(s: string, t: string, c: char)
    ensures c !in t ==> LastIndexOf(s + t, c) == LastIndexOf(s, c)
    ensures c in t ==> LastIndexOf(s + t, c) == |s| + LastIndexOf(t, c)
  {
    if t == [] {
      assert s + t == s;
    } else if t[|t| - 1] != c {
      var t' := t[..|t| - 1];
      assert (s + t)[..|s + t| - 1] == s + t';
      assert c in t <==> c in t' by { assert t == t' + [t[|t| - 1]]; }
      LastIndexOfAppend(s, t', c);
    }
  }

  /** `path.basename(p)` for a path without a trailing '/'. */
  function Basename(p: string): (b: string)
    ensures '/' !in b
  {
    p[LastIndexOf(p, '/') + 1..]
  }

  /** `path.dirname(p)`: trailing separators are ignored; a name without a
      directory gives "."; a name directly under the root gives "/", and
      one under a leading "//" keeps it. */
  function Dirname(p: string): string {
    if |p| > 1 && p[|p| - 1] == '/' then Dirname(p[..|p| - 1])
    else
      var i := LastIndexOf(p, '/');
      if i < 0 then "."
      else if i == 0 then "/"
      else if i == 1 && p[0] == '/' then "//"
      else p[..i]
  }

  /** `dirname` never yields an empty path. */
  lemma {:induction false} DirnameNonEmpty(p: string)
    ensures Dirname(p) != ""
    decreases |p|
  {
    if |p| > 1 && p[|p| - 1] == '/' {
      DirnameNonEmpty(p[..|p| - 1]);
    }
  }

  /** The extension of a base name: from its last '.', unless that dot is
      its first character or the name is "..". */
  function ExtOfName(b: string): string {
    var i := LastIndexOf(b, '.');
    if i <= 0 || b == ".." then "" else b[i..]
  }

  /** `path.extname(p)`. */
  function Extname(p: string): string {
    if |p| > 0 && p[|p| - 1] == '/' then Extname(p[..|p| - 1])
    else ExtOfName(Basename(p))
  }

  lemma {:induction false} JoinWithHead(parts: seq<string>, sep: char)
    requires |parts| >= 1
    ensures |JoinWith(parts, sep)| >= |parts[0]|
    ensures JoinWith(parts, sep)[..|parts[0]|] == parts[0]
  {
  }

  /** A canonical path other than the root is "/" followed by at least one
      character, and it never ends in '/'. */
  lemma CanonShape(p: string)
    ensures var d := Canon(p); |d| >= 1 && d[0] == '/'
    ensures var d := Canon(p); d != "/" ==> |d| >= 2 && d[|d| - 1] != '/'
  {
    var segs := Segments(p);
    SegmentsClean(p);
    if segs != [] {
      JoinWithHead(segs, '/');
      assert CleanSegment(segs[0]);
      JoinWithLast(segs, '/');
    }
  }

  lemma {:induction false} JoinWithLast(parts: seq<string>, sep: char)
    requires |parts| >= 1 && Clean(parts)
    ensures var j := JoinWith(parts, sep); |j| >= 1 && j[|j| - 1] == parts[|parts| - 1][|parts[|parts| - 1]| - 1]
  {
    if |parts| > 1 {
      JoinWithLast(parts[1..], sep);
    }
  }

  /** In `x + "/" + name` the last separator is the one before `name`. */
  lemma LastSlashBeforeName(x: string, name: string)
    requires '/' !in name
    ensures LastIndexOf(x + "/" + name, '/') == |x|
  {
    LastIndexOfAppend(x + "/", name, '/');
  }

  /** A canonical path's directory is its parent, and its base name is its
      last segment. */
  lemma DirnameOfChild(dir: string, name: string)
    requires CleanSegment(name)
    ensures Dirname(JoinResolve(dir, name)) == Canon(dir)
    ensures Basename(JoinResolve(dir, name)) == name
  {
    JoinResolveChild(dir, name);
    CanonShape(dir);
    var d := Canon(dir);
    var p := JoinResolve(dir, name);
    var x := if d == "/" then "" else d;
    assert p == x + "/" + name;
    LastSlashBeforeName(x, name);
    assert p[|p| - 1] == name[|name| - 1];
    assert p[..|x|] == x;
    assert p[|x| + 1..] == name;
  }

  /** Appending an extension `e` ("." then a name without dots) to a path
      that does not end in '/' makes `e` its extension. */
  lemma BasenameAppend(p: string, e: string)
    requires '/' !in e
    ensures Basename(p + e) == Basename(p) + e
  {
    LastIndexOfAppend(p, e, '/');
    var k := LastIndexOf(p, '/');
    assert (p + e)[k + 1..] == p[k + 1..] + e;
  }

  lemma ExtOfNameAppend(b: string, e: string)
    requires |b| > 0
    requires |e| >= 2 && e[0] == '.' && '.' !in e[1..]
    ensures ExtOfName(b + e) == e
  {
    assert LastIndexOf(e, '.') == 0;
    LastIndexOfAppend(b, e, '.');
    assert (b + e)[|b|..] == e;
  }

  lemma ExtnameAppend(p: string, e: string)
    requires |p| > 0 && p[|p| - 1] != '/'
    requires |e| >= 2 && e[0] == '.' && '.' !in e[1..] && '/' !in e
    ensures Extname(p + e) == e
  {
    var q := p + e;
    assert q[|q| - 1] == e[|e| - 1];
    assert Extname(q) == ExtOfName(Basename(q));
    BasenameAppend(p, e);
    assert |Basename(p)| > 0 by {
      assert LastIndexOf(p, '/') != |p| - 1;
    }
    ExtOfNameAppend(Basename(p), e);
  }
}
