/**
 * The pieces of Node's POSIX `path` module and of `Array.prototype.join` that
 * the cache layer relies on to place its files.
 */
module NodePath {

  /** Largest index `j` in `[lo, hi)` with `s[j] != '/'`, or -1 when there is none. */
  function LastNonSlash(s: string, lo: nat, hi: nat): (j: int)
    requires lo <= hi <= |s|
    ensures j == -1 || (lo <= j < hi && s[j] != '/')
    ensures forall i :: j < i < hi && lo <= i ==> s[i] == '/'
    decreases hi
  {
    if hi == lo then -1 else if s[hi - 1] != '/' then hi - 1 else LastNonSlash(s, lo, hi - 1)
  }

  /** Largest index `j` in `[lo, hi)` with `s[j] == '/'`, or -1 when there is none. */
  function LastSlash(s: string, lo: nat, hi: nat): (j: int)
    requires lo <= hi <= |s|
    ensures j == -1 || (lo <= j < hi && s[j] == '/')
    ensures forall i :: j < i < hi && lo <= i ==> s[i] != '/'
    decreases hi
  {
    if hi == lo then -1 else if s[hi - 1] == '/' then hi - 1 else LastSlash(s, lo, hi - 1)
  }

  /**
   * `path.dirname(p)`: trailing separators are ignored, the last segment and
   * the separator before it are dropped; "." when nothing is left of a relative
   * path, "/" (or "//") for a path directly under the root.
   */
  function Dirname(p: string): (r: string)
    ensures r == "." || r == "/" || (|r| < |p| && r == p[..|r|])
  {
    if p == "" then "."
    else
      var k := LastNonSlash(p, 1, |p|);
      var end := if k < 0 then -1 else LastSlash(p, 1, k);
      if end < 0 then (if p[0] == '/' then "/" else ".")
      else if p[0] == '/' && end == 1 then "//"
      else p[..end]
  }

  /** `path.basename(p)`: the last segment, trailing separators ignored. */
  function Basename(p: string): (r: string)
    ensures '/' !in r
  {
    var k := LastNonSlash(p, 0, |p|);
    if k < 0 then ""
    else
      var start := LastSlash(p, 0, k) + 1;
      assert forall i :: start <= i <= k ==> p[i] != '/';
      p[start..k + 1]
  }


  /** `segments.join('/')`. */
  function JoinSegments(segs: seq<string>): (r: string)
    decreases |segs|
  {
    if |segs| == 0 then "" else if |segs| == 1 then segs[0] else segs[0] + "/" + JoinSegments(segs[1..])
  }

  /** `s.split('/')`: the maximal slash-free pieces of `s`, in order. */
  function SplitSegments(s: string): (r: seq<string>)
    ensures |r| >= 1
    decreases |s|
  {
    if s == "" then [""]
    else
      var rest := SplitSegments(s[1..]);
      if s[0] == '/' then [""] + rest else [[s[0]] + rest[0]] + rest[1..]
  }

  /** A segment that normalisation keeps as it is: non-empty, separator-free, neither `.` nor `..`. */
  predicate PlainSegment(s: string)
  {
    s != "" && '/' !in s && s != "." && s != ".."
  }

  predicate PlainSegments(segs: seq<string>)
  {
    forall i :: 0 <= i < |segs| ==> PlainSegment(segs[i])
  }

  /**
   * One step of `normalizeArray`: an empty segment and `.` are skipped; `..`
   * removes the last kept segment unless that is `..` itself, and is kept
   * only above the root of a relative path; anything else is kept.
   */
  function ResolveStep(kept: seq<string>, part: string, aboveRoot: bool): seq<string>
  {
    if part == "" || part == "." then kept
    else if part == ".." then
      if kept != [] && kept[|kept| - 1] != ".." then kept[..|kept| - 1]
      else if aboveRoot then kept + [".."]
      else kept
    else kept + [part]
  }

  /** `normalizeArray(parts, aboveRoot)`, continuing from the segments already kept. */
  function Resolve(kept: seq<string>, parts: seq<string>, aboveRoot: bool): seq<string>
    decreases |parts|
  {
    if parts == [] then kept else Resolve(ResolveStep(kept, parts[0], aboveRoot), parts[1..], aboveRoot)
  }

  /**
   * `path.normalize(p)` (POSIX): resolve the segments, keep a leading and a
   * trailing separator, and give "." for a relative path with nothing left.
   */
  function Normalize(p: string): (r: string)
    ensures r != ""
    ensures p != "" && p[0] == '/' ==> r[0] == '/'
    ensures p != "" && p[|p| - 1] == '/' ==> r[|r| - 1] == '/'
  {
    var absolute := p != "" && p[0] == '/';
    var trailing := p != "" && p[|p| - 1] == '/';
    var body := JoinSegments(Resolve([], SplitSegments(p), !absolute));
    var named := if body == "" && !absolute then "." else body;
    (if absolute then "/" else "") + (if named != "" && trailing then named + "/" else named)
  }

  /** `path.join(a, b)`: the non-empty operands joined by a separator, then normalised. */
  function JoinPath(a: string, b: string): (r: string)
    ensures r != ""
    ensures a != "" && a[0] == '/' ==> r[0] == '/'
  {
    Normalize(if a == "" then b else if b == "" then a else a + "/" + b)
  }

  /** Plain segments are kept one after the other. */
  lemma {:induction false} ResolvePlain(kept: seq<string>, parts: seq<string>, aboveRoot: bool)
    requires PlainSegments(parts)
    ensures Resolve(kept, parts, aboveRoot) == kept + parts
    decreases |parts|
  {
    if parts == [] {
      assert kept + parts == kept;
    } else {
      ResolvePlain(kept + [parts[0]], parts[1..], aboveRoot);
      assert kept + [parts[0]] + parts[1..] == kept + parts;
    }
  }

  /** Resolving a concatenation is resolving its second half from where the first left off. */
  lemma {:induction false} ResolveAppend(kept: seq<string>, a: seq<string>, b: seq<string>, aboveRoot: bool)
    ensures Resolve(kept, a + b, aboveRoot) == Resolve(Resolve(kept, a, aboveRoot), b, aboveRoot)
    decreases |a|
  {
    if a == [] {
      assert a + b == b;
    } else {
      assert (a + b)[0] == a[0] && (a + b)[1..] == a[1..] + b;
      ResolveAppend(ResolveStep(kept, a[0], aboveRoot), a[1..], b, aboveRoot);
    }
  }

  /** Splitting at a separator splits the two sides independently. */
  lemma {:induction false} SplitAppend(a: string, b: string)
    ensures SplitSegments(a + "/" + b) == SplitSegments(a) + SplitSegments(b)
    decreases |a|
  {
    var s := a + "/" + b;
    if a == "" {
      assert s[0] == '/' && s[1..] == b;
    } else {
      var t := a[1..] + "/" + b;
      assert s[0] == a[0] && s[1..] == t;
      SplitAppend(a[1..], b);
      var front := SplitSegments(a[1..]);
      var rest := SplitSegments(t);
      if a[0] == '/' {
        assert SplitSegments(s) == [""] + rest;
        assert SplitSegments(a) == [""] + front;
      } else {
        assert SplitSegments(s) == [[a[0]] + rest[0]] + rest[1..];
        assert SplitSegments(a) == [[a[0]] + front[0]] + front[1..];
        assert rest[0] == front[0];
        assert rest[1..] == front[1..] + SplitSegments(b);
        ConsAssoc([a[0]] + front[0], front[1..], SplitSegments(b));
      }
    }
  }


  lemma ConsAssoc(x: string, u: seq<string>, v: seq<string>)
    ensures ([x] + u) + v == [x] + (u + v)
  {
  }

  /** Joining two non-empty lists of segments is joining each and putting a separator between. */
  lemma {:induction false} JoinSegmentsAppend(a: seq<string>, b: seq<string>)
    requires |a| >= 1 && |b| >= 1
    ensures JoinSegments(a + b) == JoinSegments(a) + "/" + JoinSegments(b)
    decreases |a|
  {
    if |a| == 1 {
      assert (a + b)[0] == a[0] && (a + b)[1..] == b;
    } else {
      assert (a + b)[0] == a[0] && (a + b)[1..] == a[1..] + b;
      JoinSegmentsAppend(a[1..], b);
    }
  }

  /** Joining two or more segments is joining all but the last, a separator, and the last. */
  lemma JoinSegmentsSnoc(segs: seq<string>)
    requires |segs| >= 2
    ensures JoinSegments(segs) == JoinSegments(segs[..|segs| - 1]) + "/" + segs[|segs| - 1]
  {
    assert segs == segs[..|segs| - 1] + [segs[|segs| - 1]];
    JoinSegmentsAppend(segs[..|segs| - 1], [segs[|segs| - 1]]);
  }

  /** The last character of a join is that of its last segment, when that one is not empty. */
  lemma {:induction false} JoinSegmentsLast(segs: seq<string>)
    requires |segs| >= 1 && segs[|segs| - 1] != ""
    ensures JoinSegments(segs) != ""
    ensures JoinSegments(segs)[|JoinSegments(segs)| - 1] == segs[|segs| - 1][|segs[|segs| - 1]| - 1]
    decreases |segs|
  {
    if |segs| > 1 {
      JoinSegmentsLast(segs[1..]);
    }
  }

  /** A leading separator splits off an empty first piece. */
  lemma SplitAbsolute(j: string)
    ensures SplitSegments("/" + j) == [""] + SplitSegments(j)
  {
    var p := "/" + j;
    assert p[0] == '/' && p[1..] == j;
  }

  /** An empty piece, such as the one before a leading separator, is skipped. */
  lemma ResolveSkipsEmpty(kept: seq<string>, parts: seq<string>, aboveRoot: bool)
    ensures Resolve(kept, [""] + parts, aboveRoot) == Resolve(kept, parts, aboveRoot)
  {
    assert ([""] + parts)[0] == "" && ([""] + parts)[1..] == parts;
  }

  /** `path.normalize` of a path without a trailing separator whose segments resolve to something. */
  lemma NormalizeUntrailed(p: string)
    requires p != "" && p[|p| - 1] != '/'
    requires JoinSegments(Resolve([], SplitSegments(p), p[0] != '/')) != ""
    ensures Normalize(p) == (if p[0] == '/' then "/" else "") + JoinSegments(Resolve([], SplitSegments(p), p[0] != '/'))
  {
  }

  /** An absolute path made of plain segments is already normal. */
  lemma NormalizeAbsolutePlain(segs: seq<string>)
    requires |segs| >= 1 && PlainSegments(segs)
    ensures Normalize("/" + JoinSegments(segs)) == "/" + JoinSegments(segs)
  {
    var j := JoinSegments(segs);
    var p := "/" + j;
    SplitJoin(segs);
    SplitAbsolute(j);
    ResolveSkipsEmpty([], segs, false);
    ResolvePlain([], segs, false);
    assert [] + segs == segs;
    assert Resolve([], SplitSegments(p), false) == segs;
    JoinSegmentsLast(segs);
    var last := segs[|segs| - 1];
    assert p[|p| - 1] == last[|last| - 1] && last[|last| - 1] in last;
    NormalizeUntrailed(p);
  }

  /** Plain segments followed by plain segments are plain. */
  lemma PlainAppend(a: seq<string>, b: seq<string>)
    requires PlainSegments(a) && PlainSegments(b)
    ensures PlainSegments(a + b)
  {
    forall i | 0 <= i < |a + b| ensures PlainSegment((a + b)[i]) {
      if i < |a| {
        assert (a + b)[i] == a[i];
      } else {
        assert (a + b)[i] == b[i - |a|];
      }
    }
  }

  /** A name below an absolute path of segments is one more segment. */
  lemma AbsoluteSnoc(dirSegs: seq<string>, name: string)
    requires |dirSegs| >= 1
    ensures "/" + JoinSegments(dirSegs) + "/" + name == "/" + JoinSegments(dirSegs + [name])
  {
    JoinSegmentsAppend(dirSegs, [name]);
    assert JoinSegments([name]) == name;
  }

  /** Below an absolute plain path, normalisation carries on from its segments. */
  lemma ResolveBelowPlain(segs: seq<string>, tail: string)
    requires |segs| >= 1 && PlainSegments(segs)
    ensures Resolve([], SplitSegments("/" + JoinSegments(segs) + "/" + tail), false)
         == Resolve(segs, SplitSegments(tail), false)
  {
    var d := "/" + JoinSegments(segs);
    SplitAppend(d, tail);
    SplitJoin(segs);
    SplitAbsolute(JoinSegments(segs));
    ResolveAppend([], SplitSegments(d), SplitSegments(tail), false);
    ResolveSkipsEmpty([], segs, false);
    ResolvePlain([], segs, false);
    assert [] + segs == segs;
  }

  /** A trailing `.` segment is dropped. */
  lemma NormalizeDotSuffix(segs: seq<string>)
    requires |segs| >= 1 && PlainSegments(segs)
    ensures Normalize("/" + JoinSegments(segs) + "/" + ".") == "/" + JoinSegments(segs)
  {
    var p := "/" + JoinSegments(segs) + "/" + ".";
    ResolveBelowPlain(segs, ".");
    assert SplitSegments(".") == ["."];
    assert Resolve(segs, ["."], false) == segs;
    JoinSegmentsLast(segs);
    assert p[0] == '/' && p[|p| - 1] == '.';
    NormalizeUntrailed(p);
  }

  /** A trailing `..` segment removes the segment before it. */
  lemma NormalizeDotDotSuffix(segs: seq<string>)
    requires |segs| >= 2 && PlainSegments(segs)
    ensures Normalize("/" + JoinSegments(segs) + "/" + "..") == "/" + JoinSegments(segs[..|segs| - 1])
  {
    var p := "/" + JoinSegments(segs) + "/" + "..";
    ResolveBelowPlain(segs, "..");
    assert SplitSegments("..") == [".."];
    assert Resolve(segs, [".."], false) == segs[..|segs| - 1];
    JoinSegmentsLast(segs[..|segs| - 1]);
    assert p[0] == '/' && p[|p| - 1] == '.';
    NormalizeUntrailed(p);
  }

  /** `path.join` of an absolute plain directory and a plain name puts the name below the directory. */
  lemma JoinPathPlain(dirSegs: seq<string>, name: string)
    requires |dirSegs| >= 1 && PlainSegments(dirSegs) && PlainSegment(name)
    ensures JoinPath("/" + JoinSegments(dirSegs), name) == "/" + JoinSegments(dirSegs) + "/" + name
  {
    var dir := "/" + JoinSegments(dirSegs);
    AbsoluteSnoc(dirSegs, name);
    PlainAppend(dirSegs, [name]);
    NormalizeAbsolutePlain(dirSegs + [name]);
    JoinPathOperands(dir, name);
  }

  /** With two non-empty operands, `path.join` normalises their separator-join. */
  lemma JoinPathOperands(a: string, b: string)
    requires a != "" && b != ""
    ensures JoinPath(a, b) == Normalize(a + "/" + b)
  {
  }

  /** Splitting undoes joining when no segment contains the separator. */
  lemma {:induction false} SplitJoin(segs: seq<string>)
    requires |segs| >= 1
    requires forall i :: 0 <= i < |segs| ==> '/' !in segs[i]
    ensures SplitSegments(JoinSegments(segs)) == segs
    decreases |segs|
  {
    if |segs| == 1 {
      SplitSlashFree(segs[0], "");
      assert segs[0] + "" == segs[0];
    } else {
      var tail := JoinSegments(segs[1..]);
      SplitJoin(segs[1..]);
      var slashTail := "/" + tail;
      assert slashTail[1..] == tail;
      assert SplitSegments(slashTail) == [""] + segs[1..];
      SplitSlashFree(segs[0], slashTail);
      assert segs[0] + "/" + tail == segs[0] + slashTail;
      assert segs[0] + "" == segs[0];
      assert [segs[0]] + segs[1..] == segs;
    }
  }

  /** A slash-free prefix joins the first piece of what follows it. */
  lemma {:induction false} SplitSlashFree(a: string, t: string)
    requires '/' !in a
    ensures SplitSegments(a + t) == [a + SplitSegments(t)[0]] + SplitSegments(t)[1..]
    decreases |a|
  {
    if a != "" {
      assert (a + t)[1..] == a[1..] + t;
      assert '/' !in a[1..] by {
        forall i | 0 <= i < |a[1..]| ensures a[1..][i] != '/' { assert a[1..][i] == a[i + 1]; }
      }
      SplitSlashFree(a[1..], t);
      assert a[0] != '/' by { assert a[0] in a; }
      assert [a[0]] + (a[1..] + SplitSegments(t)[0]) == a + SplitSegments(t)[0];
    } else {
      assert a + t == t;
      var r := SplitSegments(t);
      assert a + r[0] == r[0];
      assert r == [r[0]] + r[1..];
    }
  }

  /** Only the indices below `hi` decide `LastSlash(s, lo, hi)`. */
  lemma {:induction false} LastSlashAgrees(s: string, t: string, lo: nat, hi: nat)
    requires lo <= hi <= |s| && hi <= |t|
    requires s[..hi] == t[..hi]
    ensures LastSlash(s, lo, hi) == LastSlash(t, lo, hi)
    decreases hi
  {
    if hi > lo {
      assert s[hi - 1] == s[..hi][hi - 1] == t[..hi][hi - 1] == t[hi - 1];
      assert s[..hi - 1] == s[..hi][..hi - 1];
      assert t[..hi - 1] == t[..hi][..hi - 1];
      LastSlashAgrees(s, t, lo, hi - 1);
    }
  }

  /** Slash-free stretches at the end of the range do not move `LastSlash`. */
  lemma {:induction false} LastSlashSkips(s: string, lo: nat, m: nat, hi: nat)
    requires lo <= m <= hi <= |s|
    requires forall i :: m <= i < hi ==> s[i] != '/'
    ensures LastSlash(s, lo, hi) == LastSlash(s, lo, m)
    decreases hi
  {
    if hi > m {
      LastSlashSkips(s, lo, m, hi - 1);
    }
  }

  /**
   * Extending a path that does not end in a separator by slash-free text keeps
   * its directory: the extended file lies beside the original one.
   */
  lemma DirnameOfExtension(p: string, ext: string)
    requires p != "" && p[|p| - 1] != '/'
    requires ext != "" && '/' !in ext
    ensures Dirname(p + ext) == Dirname(p)
  {
    var q := p + ext;
    assert q[|q| - 1] == ext[|ext| - 1] && ext[|ext| - 1] in ext;
    assert LastNonSlash(q, 1, |q|) == |q| - 1;
    forall i | |p| <= i < |q| ensures q[i] != '/' {
      assert q[i] == ext[i - |p|] && ext[i - |p|] in ext;
    }
    if |p| == 1 {
      assert LastNonSlash(p, 1, |p|) == -1;
      LastSlashSkips(q, 1, 1, |q| - 1);
      assert LastSlash(q, 1, 1) == -1;
    } else {
      LastSlashSkips(q, 1, |p| - 1, |q| - 1);
      DirnameOfLongerExtension(p, q);
    }
  }

  /** `DirnameOfExtension` for a `p` of two or more characters, once the extension is seen to be slash-free. */
  lemma DirnameOfLongerExtension(p: string, q: string)
    requires |p| >= 2 && p[|p| - 1] != '/' && |q| > |p| && q[..|p|] == p
    requires LastNonSlash(q, 1, |q|) == |q| - 1
    requires LastSlash(q, 1, |q| - 1) == LastSlash(q, 1, |p| - 1)
    ensures Dirname(q) == Dirname(p)
  {
    assert LastNonSlash(p, 1, |p|) == |p| - 1;
    assert p[..|p| - 1] == q[..|p| - 1];
    LastSlashAgrees(p, q, 1, |p| - 1);
    var end := LastSlash(p, 1, |p| - 1);
    if end >= 0 {
      assert q[..end] == p[..end];
    }
  }


  /** A slash-free name below a directory that does not end in a separator has that directory. */
  lemma DirnameOfChild(dir: string, name: string)
    requires dir != "" && dir[|dir| - 1] != '/'
    requires name != "" && '/' !in name
    ensures Dirname(dir + "/" + name) == dir
  {
    var q := dir + "/" + name;
    assert q[|q| - 1] == name[|name| - 1] && name[|name| - 1] in name;
    assert LastNonSlash(q, 1, |q|) == |q| - 1;
    assert q[|dir|] == '/';
    assert forall i :: |dir| < i < |q| ==> q[i] == name[i - |dir| - 1];
    assert LastSlash(q, 1, |q| - 1) == |dir|;
    assert q[..|dir|] == dir;
  }

  /** The base name of a slash-free name below any directory is that name. */
  lemma BasenameOfChild(dir: string, name: string)
    requires name != "" && '/' !in name
    ensures Basename(dir + "/" + name) == name
  {
    var q := dir + "/" + name;
    assert q[|q| - 1] == name[|name| - 1] && name[|name| - 1] in name;
    assert LastNonSlash(q, 0, |q|) == |q| - 1;
    assert q[|dir|] == '/';
    assert forall i :: |dir| < i < |q| ==> q[i] == name[i - |dir| - 1];
    assert LastSlash(q, 0, |q| - 1) == |dir|;
    assert q[|dir| + 1..] == name;
  }

  /** A non-empty slash-free name is its own base name. */
  lemma BasenameSelf(name: string)
    requires name != "" && '/' !in name
    ensures Basename(name) == name
  {
    assert name[|name| - 1] in name;
    assert LastNonSlash(name, 0, |name|) == |name| - 1;
    assert forall i :: 0 <= i < |name| ==> name[i] != '/';
    assert name[0..|name|] == name;
  }

  /** A plain name after a separator is kept after whatever the rest resolves to. */
  lemma ResolveChild(dir: string, name: string, aboveRoot: bool)
    requires PlainSegment(name)
    ensures Resolve([], SplitSegments(dir + "/" + name), aboveRoot) == Resolve([], SplitSegments(dir), aboveRoot) + [name]
  {
    SplitAppend(dir, name);
    SplitJoin([name]);
    assert JoinSegments([name]) == name;
    ResolveAppend([], SplitSegments(dir), [name], aboveRoot);
    ResolvePlain(Resolve([], SplitSegments(dir), aboveRoot), [name], aboveRoot);
  }

  /** Normalising a plain name after a separator: what the rest resolves to, then the name. */
  lemma NormalizeChild(dir: string, name: string)
    requires dir != "" && PlainSegment(name)
    ensures Normalize(dir + "/" + name) ==
      (if dir[0] == '/' then "/" else "") + JoinSegments(Resolve([], SplitSegments(dir), dir[0] != '/') + [name])
  {
    var s := dir + "/" + name;
    var kept := Resolve([], SplitSegments(dir), dir[0] != '/');
    assert s[0] == dir[0];
    assert s[|s| - 1] == name[|name| - 1] && name[|name| - 1] in name;
    ResolveChild(dir, name, dir[0] != '/');
    JoinSegmentsLast(kept + [name]);
    NormalizeUntrailed(s);
  }

  /** A root prefix and joined segments ending in a plain name have that name as base name. */
  lemma BasenameOfKept(prefix: string, kept: seq<string>, name: string)
    requires prefix == "" || prefix == "/"
    requires PlainSegment(name)
    ensures Basename(prefix + JoinSegments(kept + [name])) == name
  {
    if kept == [] {
      assert kept + [name] == [name];
      assert JoinSegments([name]) == name;
      if prefix == "" {
        BasenameSelf(name);
        assert prefix + name == name;
      } else {
        BasenameOfChild("", name);
        assert "" + "/" + name == prefix + name;
      }
    } else {
      JoinSegmentsAppend(kept, [name]);
      assert JoinSegments([name]) == name;
      assert prefix + JoinSegments(kept + [name]) == (prefix + JoinSegments(kept)) + "/" + name;
      BasenameOfChild(prefix + JoinSegments(kept), name);
    }
  }

  /**
   * `path.join(dir, name)` with a plain name ends in that name, whatever
   * `dir` is: normalisation never removes a trailing plain segment.
   */
  lemma BasenameOfJoinPath(dir: string, name: string)
    requires dir != "" && PlainSegment(name)
    ensures Basename(JoinPath(dir, name)) == name
  {
    JoinPathOperands(dir, name);
    NormalizeChild(dir, name);
    BasenameOfKept(if dir[0] == '/' then "/" else "", Resolve([], SplitSegments(dir), dir[0] != '/'), name);
  }

  /** The directory of an absolute path of two or more plain segments drops the last segment. */
  lemma DirnameOfPlain(segs: seq<string>)
    requires |segs| >= 2 && PlainSegments(segs)
    ensures Dirname("/" + JoinSegments(segs)) == "/" + JoinSegments(segs[..|segs| - 1])
  {
    var init := segs[..|segs| - 1];
    var last := segs[|segs| - 1];
    JoinSegmentsSnoc(segs);
    PlainInit(segs);
    PlainEndsUnslashed(init);
    SlashAssoc("/", JoinSegments(init), last);
    DirnameOfChild("/" + JoinSegments(init), last);
  }

  /** All but the last of plain segments are plain. */
  lemma PlainInit(segs: seq<string>)
    requires |segs| >= 1 && PlainSegments(segs)
    ensures PlainSegments(segs[..|segs| - 1])
  {
    var init := segs[..|segs| - 1];
    forall i | 0 <= i < |init| ensures PlainSegment(init[i]) {
      assert init[i] == segs[i];
    }
  }


  /** `p` is the absolute path made of the plain segments `segs`, such as `/home/u`. */
  predicate AbsolutePlain(p: string, segs: seq<string>)
  {
    |segs| >= 1 && PlainSegments(segs) && p == "/" + JoinSegments(segs)
  }

  /** Plain segments joined below an absolute plain directory need no normalising. */
  lemma JoinBelowPlain(dir: string, dirSegs: seq<string>, segs: seq<string>)
    requires AbsolutePlain(dir, dirSegs) && |segs| >= 1 && PlainSegments(segs)
    ensures JoinPath(dir, JoinSegments(segs)) == dir + "/" + JoinSegments(segs)
    ensures JoinPath(dir, JoinSegments(segs)) == "/" + JoinSegments(dirSegs + segs)
    ensures AbsolutePlain(JoinPath(dir, JoinSegments(segs)), dirSegs + segs)
  {
    var j := JoinSegments(segs);
    var all := JoinSegments(dirSegs + segs);
    JoinSegmentsAppend(dirSegs, segs);
    assert dir + "/" + j == "/" + all;
    PlainAppend(dirSegs, segs);
    NormalizeAbsolutePlain(dirSegs + segs);
    JoinSegmentsLast(segs);
    JoinPathOperands(dir, j);
  }

  /** A separator-join may be grouped either way. */
  lemma SlashAssoc(a: string, b: string, c: string)
    ensures a + (b + "/" + c) == (a + b) + "/" + c
  {
  }

  /** What `path.join` normalises when one more segment follows the segments below a directory. */
  lemma JoinOneMore(dir: string, dirSegs: seq<string>, segs: seq<string>, x: string)
    requires |dirSegs| >= 1 && dir == "/" + JoinSegments(dirSegs) && |segs| >= 1 && x != ""
    ensures JoinPath(dir, JoinSegments(segs + [x])) == Normalize("/" + JoinSegments(dirSegs + segs) + "/" + x)
  {
    var j := JoinSegments(segs);
    var jd := JoinSegments(segs + [x]);
    JoinSegmentsAppend(segs, [x]);
    assert JoinSegments([x]) == x;
    assert jd == j + "/" + x;
    JoinSegmentsAppend(dirSegs, segs);
    assert dir + "/" + j == "/" + JoinSegments(dirSegs + segs);
    SlashAssoc(dir + "/", j, x);
    JoinPathOperands(dir, jd);
  }

  /** Below an absolute plain directory, a last segment `.` resolves away. */
  lemma JoinBelowPlainDot(dir: string, dirSegs: seq<string>, segs: seq<string>)
    requires AbsolutePlain(dir, dirSegs) && |segs| >= 1 && PlainSegments(segs)
    ensures JoinPath(dir, JoinSegments(segs + ["."])) == JoinPath(dir, JoinSegments(segs))
  {
    JoinBelowPlain(dir, dirSegs, segs);
    JoinOneMore(dir, dirSegs, segs, ".");
    PlainAppend(dirSegs, segs);
    NormalizeDotSuffix(dirSegs + segs);
  }

  /** After an absolute plain path of two or more segments, `..` normalises to its directory. */
  lemma DotDotIsDirname(segs: seq<string>)
    requires |segs| >= 2 && PlainSegments(segs)
    ensures Normalize("/" + JoinSegments(segs) + "/" + "..") == Dirname("/" + JoinSegments(segs))
  {
    NormalizeDotDotSuffix(segs);
    DirnameOfPlain(segs);
  }

  /** Below an absolute plain directory, a last segment `..` gives the directory of the path without it. */
  lemma JoinBelowPlainDotDot(dir: string, dirSegs: seq<string>, segs: seq<string>)
    requires AbsolutePlain(dir, dirSegs) && |segs| >= 1 && PlainSegments(segs)
    ensures JoinPath(dir, JoinSegments(segs + [".."])) == Dirname(JoinPath(dir, JoinSegments(segs)))
  {
    JoinBelowPlain(dir, dirSegs, segs);
    JoinOneMore(dir, dirSegs, segs, "..");
    PlainAppend(dirSegs, segs);
    DotDotIsDirname(dirSegs + segs);
  }

  /** `DirnameOfPlain` for a path given as a directory and the segments below it. */
  lemma DirnameOfPlainBelow(dir: string, dirSegs: seq<string>, segs: seq<string>)
    requires AbsolutePlain(dir, dirSegs) && |segs| >= 2 && PlainSegments(segs)
    ensures Dirname("/" + JoinSegments(dirSegs + segs)) == dir + "/" + JoinSegments(segs[..|segs| - 1])
  {
    var all := dirSegs + segs;
    var init := segs[..|segs| - 1];
    PlainAppend(dirSegs, segs);
    DirnameOfPlain(all);
    InitOfAppend(dirSegs, segs);
    JoinSegmentsAppend(dirSegs, init);
    SlashAssoc("/", JoinSegments(dirSegs), JoinSegments(init));
  }

  /** All but the last entry of `a + b`, for a non-empty `b`. */
  lemma InitOfAppend<T>(a: seq<T>, b: seq<T>)
    requires |b| >= 1
    ensures (a + b)[..|a + b| - 1] == a + b[..|b| - 1]
  {
  }

  /** An absolute path of plain segments does not end in a separator. */
  lemma PlainEndsUnslashed(segs: seq<string>)
    requires |segs| >= 1 && PlainSegments(segs)
    ensures var p := "/" + JoinSegments(segs); p[|p| - 1] != '/'
  {
    JoinSegmentsLast(segs);
    var last := segs[|segs| - 1];
    assert last[|last| - 1] in last;
  }

  /**
   * Below an absolute plain directory, the directory of two or more plain
   * segments is the directory followed by all but the last of them, and the
   * path does not end in a separator.
   */
  lemma DirnameBelowPlain(dir: string, dirSegs: seq<string>, segs: seq<string>)
    requires AbsolutePlain(dir, dirSegs) && |segs| >= 2 && PlainSegments(segs)
    ensures Dirname(JoinPath(dir, JoinSegments(segs))) == dir + "/" + JoinSegments(segs[..|segs| - 1])
    ensures var p := JoinPath(dir, JoinSegments(segs)); p[|p| - 1] != '/'
  {
    JoinBelowPlain(dir, dirSegs, segs);
    DirnameOfPlainBelow(dir, dirSegs, segs);
    PlainEndsUnslashed(dirSegs + segs);
  }


}
