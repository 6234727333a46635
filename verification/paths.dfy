/**
 POSIX path arithmetic as Python's `os.path.join` and `os.path.splitext`
 perform it on the paths the driver builds.
 */
module Paths {
  import opened Strings

  type Path = string

  predicate IsAbsolute(p: Path) { |p| > 0 && p[0] == '/' }

  /** `os.path.join(a, b)`: an absolute `b` replaces `a`; otherwise one `/` separates them. */
  function Join(a: Path, b: string): (r: Path)
    ensures IsAbsolute(b) ==> r == b
    ensures !IsAbsolute(b) ==> EndsWith(r, b) && StartsWith(r, a)
    ensures !IsAbsolute(b) ==> |r| == |a| + |b| + (if |a| == 0 || a[|a| - 1] == '/' then 0 else 1)
    ensures !IsAbsolute(b) && |a| > 0 && a[|a| - 1] != '/' ==> r[|a|] == '/'
  {
    if IsAbsolute(b) then b
    else if |a| == 0 || a[|a| - 1] == '/' then a + b
    else a + "/" + b
  }

  /** Position of the last `c` in `s`, or -1 (Python `s.rfind(c)`). */
  function LastIndex(s: string, c: char): (i: int)
    ensures -1 <= i < |s|
    ensures i >= 0 ==> s[i] == c
    ensures forall j :: i < j < |s| ==> s[j] != c
  {
    if |s| == 0 then -1
    else if s[|s| - 1] == c then |s| - 1
    else LastIndex(s[..|s| - 1], c)
  }

  /**
   `os.path.splitext(p)`: the extension runs from the last `.` of the last
   path component, unless everything before that dot in the component is dots.
   */
  function SplitExt(p: Path): (Path, string) {
    var sep := LastIndex(p, '/');
    var dot := LastIndex(p, '.');
    if dot > sep && exists j :: sep < j < dot && p[j] != '.' then (p[..dot], p[dot..])
    else (p, "")
  }

  /** The two parts make up the path, and a non-empty extension is a dot followed by neither `/` nor `.`. */
  lemma SplitExtParts(p: Path)
    ensures SplitExt(p).0 + SplitExt(p).1 == p
    ensures var ext := SplitExt(p).1; ext == "" || (ext[0] == '.' && '/' !in ext && '.' !in ext[1..])
  {
    var sep := LastIndex(p, '/');
    var dot := LastIndex(p, '.');
    if SplitExt(p).1 != "" {
      var ext := p[dot..];
      assert SplitExt(p) == (p[..dot], ext);
      forall k | 0 <= k < |ext| ensures ext[k] == p[dot + k] { }
      assert '/' !in ext;
      forall k | 0 <= k < |ext[1..]| ensures ext[1..][k] != '.' {
        assert ext[1..][k] == p[dot + 1 + k];
      }
    }
  }

  /** The extension of a path, as `os.path.splitext(p)[1]`. */
  function Ext(p: Path): string { SplitExt(p).1 }

  /** Splitting `dir/base.ext` where the base holds neither `/` nor `.`. */
  lemma SplitExtOfFile(dir: Path, base: string, ext: string)
    requires |dir| > 0 && dir[|dir| - 1] == '/'
    requires |base| > 0 && '/' !in base && '.' !in base
    requires |ext| > 0 && ext[0] == '.' && '/' !in ext && '.' !in ext[1..]
    ensures SplitExt(dir + base + ext) == (dir + base, ext)
  {
    var p := dir + base + ext;
    var sep := LastIndex(p, '/');
    var dot := LastIndex(p, '.');
    assert p[|dir| + |base|] == '.';
    assert dot == |dir| + |base| by {
      forall j | |dir| + |base| < j < |p| ensures p[j] != '.' {
        assert p[j] == ext[j - |dir| - |base|];
      }
    }
    assert p[|dir| - 1] == '/';
    assert sep == |dir| - 1 by {
      forall j | |dir| - 1 < j < |p| ensures p[j] != '/' {
        if j < |dir| + |base| {
          assert p[j] == base[j - |dir|];
        } else {
          assert p[j] == ext[j - |dir| - |base|];
        }
      }
    }
    assert p[|dir|] == base[0] && base[0] != '.';
    assert p[..dot] == dir + base;
  }

  /** A name that starts with its only run of dots, such as `dir/.fq`, has no extension. */
  lemma SplitExtLeadingDots(dir: Path, dots: string, rest: string)
    requires |dir| > 0 && dir[|dir| - 1] == '/'
    requires |dots| > 0 && forall i :: 0 <= i < |dots| ==> dots[i] == '.'
    requires '/' !in rest && '.' !in rest
    ensures SplitExt(dir + dots + rest) == (dir + dots + rest, "")
  {
    var p := dir + dots + rest;
    var sep := LastIndex(p, '/');
    var dot := LastIndex(p, '.');
    assert p[|dir| + |dots| - 1] == '.';
    assert dot == |dir| + |dots| - 1 by {
      forall j | |dir| + |dots| <= j < |p| ensures p[j] != '.' {
        assert p[j] == rest[j - |dir| - |dots|];
      }
    }
    assert p[|dir| - 1] == '/';
    assert sep == |dir| - 1 by {
      forall j | |dir| <= j < |p| ensures p[j] != '/' {
        if j < |dir| + |dots| {
          assert p[j] == dots[j - |dir|];
        } else {
          assert p[j] == rest[j - |dir| - |dots|];
        }
      }
    }
    forall j | sep < j < dot ensures p[j] == '.' {
      assert p[j] == dots[j - |dir|];
    }
  }
}
