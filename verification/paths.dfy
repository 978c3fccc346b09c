/** The one piece of Node's `path` module the service and its deploy script
    rely on: `path.extname` (POSIX flavour), which both the upload initialiser
    and the static-site uploader use to pick a file's extension. */
module Paths {
  import opened Strings

  /** The path without the '/' characters it ends with. */
  function StripTrailingSlashes(p: string): (r: string)
    ensures r <= p
    ensures |r| > 0 ==> r[|r| - 1] != '/'
    decreases |p|
  {
    if |p| > 0 && p[|p| - 1] == '/' then StripTrailingSlashes(p[..|p| - 1]) else p
  }

  /** The last path segment: what follows the last '/' once trailing ones are gone. */
  function LastSegment(p: string): (seg: string)
    ensures '/' !in seg
  {
    var s := StripTrailingSlashes(p);
    s[LastIndexOf(s, '/') + 1..]
  }

  /** `path.extname(p)`: from the last '.' of the last segment to its end; empty
      when the segment has no '.', when its only '.' is its first character (a
      dot-file), and for the segment "..". */
  function ExtName(p: string): (ext: string)
    ensures ext == "" || (ext[0] == '.' && '.' !in ext[1..] && '/' !in ext)
    ensures '.' !in LastSegment(p) ==> ext == ""
  {
    var seg := LastSegment(p);
    var d := LastIndexOf(seg, '.');
    if d <= 0 || seg == ".." then "" else seg[d..]
  }

  /** The last `c` of `a + [c] + b` is the separator itself when `b` has none. */
  lemma {:induction false} LastIndexOfAfter(a: string, c: char, b: string)
    requires c !in b
    ensures LastIndexOf(a + [c] + b, c) == |a|
    decreases |b|
  {
    if |b| > 0 {
      var s := a + [c] + b;
      assert s[|s| - 1] == b[|b| - 1];
      assert s[..|s| - 1] == a + [c] + b[..|b| - 1];
      LastIndexOfAfter(a, c, b[..|b| - 1]);
    }
  }

  /** A name with a non-empty stem is given the part after its last dot. */
  lemma ExtNameOf(stem: string, ext: string)
    requires stem != "" && '/' !in stem
    requires '.' !in ext && '/' !in ext
    requires !(stem == "." && ext == "")
    ensures ExtName(stem + "." + ext) == "." + ext
  {
    var p := stem + ['.'] + ext;
    assert p == stem + "." + ext;
    assert p[|p| - 1] != '/' by {
      if ext == "" { assert p[|p| - 1] == '.'; } else { assert p[|p| - 1] == ext[|ext| - 1]; }
    }
    assert StripTrailingSlashes(p) == p;
    assert '/' !in p;
    assert LastSegment(p) == p;
    LastIndexOfAfter(stem, '.', ext);
    assert p != ".." by {
      if |p| == 2 {
        assert ext == "" && |stem| == 1;
        assert stem == [stem[0]] && stem != ".";
        assert p[0] == stem[0];
      }
    }
    assert p[|stem|..] == "." + ext;
  }

  /** A dot-file has no extension. */
  lemma DotFileHasNoExt(dir: string, name: string)
    requires '.' !in name && '/' !in name && name != ""
    ensures ExtName(dir + "/." + name) == ""
  {
    var p := dir + "/." + name;
    assert p[|p| - 1] == name[|name| - 1];
    assert StripTrailingSlashes(p) == p;
    var slash := LastIndexOf(p, '/');
    assert p[|dir|] == '/';
    assert slash == |dir|;
    var seg := LastSegment(p);
    assert seg == "." + name;
    var d := LastIndexOf(seg, '.');
    assert d == 0;
  }

  /** Inside a directory, the last segment of a path is the file's own name. */
  lemma LastSegmentInDir(dir: string, name: string)
    requires name != "" && '/' !in name
    ensures LastSegment(dir + "/" + name) == name
    ensures LastSegment(name) == name
  {
    var p := dir + "/" + name;
    assert p == dir + ['/'] + name;
    assert p[|p| - 1] == name[|name| - 1];
    assert StripTrailingSlashes(p) == p;
    assert StripTrailingSlashes(name) == name;
    LastIndexOfAfter(dir, '/', name);
    assert p[|dir| + 1..] == name;
  }

  /** The extension of a file does not depend on the directory it sits in. */
  lemma ExtNameInDir(dir: string, name: string)
    requires name != "" && '/' !in name
    ensures ExtName(dir + "/" + name) == ExtName(name)
  {
    LastSegmentInDir(dir, name);
  }

  /** No '/' from just before position `d` to the end. */
  lemma NoSlashFrom(p: string, d: int)
    requires 0 < d < |p| && p[d - 1] != '/' && p[d] != '/' && '/' !in p[d + 1..]
    ensures forall k :: d - 1 <= k < |p| ==> p[k] != '/'
  {
    forall k | d - 1 <= k < |p| ensures p[k] != '/' {
      if k > d { assert p[k] == p[d + 1..][k - d - 1]; }
    }
  }

  /** The last '/' of a path ending in a slash-free tail lies before that tail. */
  lemma SegmentHolds(p: string, d: int)
    requires 0 < d < |p| && p[d - 1] != '/' && p[d] != '/' && '/' !in p[d + 1..]
    ensures StripTrailingSlashes(p) == p
    ensures LastIndexOf(p, '/') < d - 1
    ensures LastSegment(p) == p[LastIndexOf(p, '/') + 1..]
  {
    assert StripTrailingSlashes(p) == p by {
      NoSlashFrom(p, d);
      assert p[|p| - 1] != '/';
    }
    assert LastIndexOf(p, '/') < d - 1 by {
      NoSlashFrom(p, d);
      var s := LastIndexOf(p, '/');
      assert s >= 0 ==> p[s] == '/';
    }
  }

  /** A dot preceded by a character other than a dot, with no dot after it,
      is the segment's last dot, and the segment is not "..". */
  lemma LastDotAt(seg: string, at: int)
    requires 0 < at < |seg| && seg[at] == '.' && seg[at - 1] != '.' && '.' !in seg[at + 1..]
    ensures LastIndexOf(seg, '.') == at && seg != ".."
  {
    assert seg == seg[..at] + ['.'] + seg[at + 1..];
    LastIndexOfAfter(seg[..at], '.', seg[at + 1..]);
  }

  /** A dot that follows an ordinary character and is followed by neither dot
      nor slash up to the end starts the extension. */
  lemma ExtNameAt(p: string, d: int)
    requires 0 < d < |p| && p[d] == '.' && p[d - 1] != '/' && p[d - 1] != '.'
    requires '.' !in p[d + 1..] && '/' !in p[d + 1..]
    ensures ExtName(p) == p[d..]
  {
    SegmentHolds(p, d);
    var s := LastIndexOf(p, '/');
    var seg := p[s + 1..];
    var at := d - s - 1;
    assert seg[at] == '.' && seg[at - 1] == p[d - 1];
    assert seg[at + 1..] == p[d + 1..];
    LastDotAt(seg, at);
    assert seg[at..] == p[d..];
  }
}
