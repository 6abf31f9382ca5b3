/**
  How the hooks derive file names: the live file from the rendered pattern, the archive key
  from the pattern, and `GetFrontFileName`.
*/
module Naming {
  import opened GoStrings
  import opened FileArchive

  /**
    `GetFrontFileName`: drops the last extension of the base name when the base name holds at
    least two dots; otherwise returns the name unchanged.
  */
  function GetFrontFileName(fileName: string): (r: string)
    ensures Count(Base(fileName), '.') < 2 ==> r == fileName
    ensures Count(Base(fileName), '.') >= 2 && !HasSuffix(fileName, "/") ==>
      && Ext(fileName) != ""
      && r + Ext(fileName) == fileName
    // A name ending in a slash is kept whole, and its base name without the extension is appended.
    ensures Count(Base(fileName), '.') >= 2 && HasSuffix(fileName, "/") ==>
      r == fileName + TrimSuffix(Base(fileName), Ext(Base(fileName)))
  {
    var base := Base(fileName);
    if '.' !in base then fileName
    else if Count(base, '.') < 2 then fileName
    else
      var suffix := Ext(base);
      var nameOnly := TrimSuffix(base, suffix);
      var (dir, _) := Split(fileName);
      if !HasSuffix(fileName, "/") then
        FrontOfSplit(fileName);
        dir + nameOnly
      else
        SlashEndedIsDir(fileName);
        dir + nameOnly
  }

  /** A name that ends in a slash is its own directory part. */
  lemma SlashEndedIsDir(p: string)
    requires HasSuffix(p, "/")
    ensures Split(p).0 == p
  {
    assert p[|p| - 1] == '/' by {
      assert p[|p| - 1..] == [p[|p| - 1]];
    }
  }

  /** A name that does not end in a slash is its directory part followed by its base name. */
  lemma BaseIsLastElement(p: string)
    requires p != "" && !HasSuffix(p, "/")
    ensures Split(p).1 == Base(p)
  {
    var t := TrimTrailingSlashes(p);
    assert p[|p| - 1..] != "/";
    assert p[|p| - 1] != '/' by {
      assert p[|p| - 1..] == [p[|p| - 1]];
    }
    assert t == p;
  }

  /** The extension of a path without a trailing slash is the extension of its base name. */
  lemma FrontOfSplit(p: string)
    requires !HasSuffix(p, "/") && Count(Base(p), '.') >= 2
    ensures Ext(p) == Ext(Base(p)) != ""
    ensures Split(p).0 + TrimSuffix(Base(p), Ext(Base(p))) + Ext(p) == p
  {
    assert p != "" by {
      if p == "" {
        BaseOfEmpty();
      }
    }
    BaseIsLastElement(p);
    var dir := Split(p).0;
    var file := Split(p).1;
    ExtOfAppend(dir, file);
    ExtOfDotted(file);
    Reassemble(dir, file);
  }

  /** Cutting the extension off the last element and putting it back gives the whole path. */
  lemma Reassemble(dir: string, file: string)
    ensures dir + TrimSuffix(file, Ext(file)) + Ext(file) == dir + file
  {
    var t := TrimSuffix(file, Ext(file));
    assert t + Ext(file) == file;
    assert dir + t + Ext(file) == dir + (t + Ext(file));
  }

  /** `path.Base("")` is ".", which holds a single dot. */
  lemma BaseOfEmpty()
    ensures Count(Base(""), '.') == 1
  {
    assert Base("") == ".";
    assert "."[..0] == "";
  }

  /** A name without slashes that holds a dot has an extension. */
  lemma ExtOfDotted(file: string)
    requires '/' !in file && '.' in file
    ensures Ext(file) != ""
  {
    NoSlashNoIndex(file);
    var j :| 0 <= j < |file| && file[j] == '.';
    assert LastIndex(file, '/') < j;
  }

  lemma NoSlashNoIndex(s: string)
    requires '/' !in s
    ensures LastIndex(s, '/') == -1
  {
  }

  /** The extension of `dir + file`, where `file` holds no slash, is the extension of `file`. */
  lemma {:induction false} ExtOfAppend(dir: string, file: string)
    requires '/' !in file && (dir == "" || dir[|dir| - 1] == '/')
    ensures Ext(dir + file) == Ext(file)
  {
    ExtFromOfAppend(dir, file, |file| - 1);
    assert (dir + file)[..|dir + file|] == dir + file;
  }

  lemma {:induction false} ExtFromOfAppend(dir: string, file: string, i: int)
    requires '/' !in file && (dir == "" || dir[|dir| - 1] == '/')
    requires -1 <= i < |file|
    requires forall k :: i < k < |file| ==> file[k] != '.' && file[k] != '/'
    ensures ExtFrom(dir + file, |dir| + i) == ExtFrom(file, i)
    decreases i + 1
  {
    var p := dir + file;
    if i < 0 {
      if dir != "" {
        assert p[|dir| - 1] == '/';
      }
    } else {
      assert p[|dir| + i] == file[i];
      if file[i] != '.' {
        ExtFromOfAppend(dir, file, i - 1);
      } else {
        assert p[|dir| + i..] == file[i..];
      }
    }
  }

  /**
    The documented example, for every name of its shape: `GetFrontFileName("06.log.2djiDwOoiNNs")`
    is "06.log".
  */
  lemma FrontFileNameDropsLastSuffix(front: string, suffix: string)
    requires '/' !in front && '.' in front
    requires '/' !in suffix && '.' !in suffix
    ensures GetFrontFileName(front + "." + suffix) == front
  {
    var f := front + "." + suffix;
    var g := "." + suffix;
    assert f == front + g;
    assert '/' !in f;
    ExtOfDottedName(front, suffix);
    PlainBase(f);
    assert Count(f, '.') >= 2 by {
      assert g[0] == '.';
      assert Count(front, '.') > 0 && Count(g, '.') > 0;
      CountAppend(front, g, '.');
    }
    var r := GetFrontFileName(f);
    assert r + g == front + g;
    CancelSuffix(r, front, g);
  }

  /** The extension of `front + "." + suffix` is `"." + suffix` when the suffix has no dot or slash. */
  lemma ExtOfDottedName(front: string, suffix: string)
    requires '/' !in suffix && '.' !in suffix
    ensures Ext(front + "." + suffix) == "." + suffix
  {
    var f := front + "." + suffix;
    var i := |front|;
    assert f[i] == '.';
    assert forall k :: i < k < |f| ==> f[k] == suffix[k - i - 1];
    ExtIsLastDot(f, i);
    assert f[i..] == "." + suffix;
  }

  /** A non-empty name without slashes is its own base name. */
  lemma PlainBase(f: string)
    requires f != "" && '/' !in f
    ensures !HasSuffix(f, "/") && Base(f) == f
  {
    assert f[|f| - 1] != '/';
    assert f[|f| - 1..] == [f[|f| - 1]];
    assert TrimTrailingSlashes(f) == f;
    NoSlashNoIndex(f);
  }

  lemma CancelSuffix(a: string, b: string, c: string)
    requires a + c == b + c
    ensures a == b
  {
    assert a == (a + c)[..|a|];
    assert b == (b + c)[..|b|];
  }

  /** Occurrences add up over concatenation. */
  lemma {:induction false} CountAppend(a: string, b: string, c: char)
    ensures Count(a + b, c) == Count(a, c) + Count(b, c)
    decreases |b|
  {
    if b == [] {
      assert a + b == a;
    } else {
      assert (a + b)[..|a + b| - 1] == a + b[..|b| - 1];
      CountAppend(a, b[..|b| - 1], c);
    }
  }

  /** When `p[i]` is the last dot and no slash follows it, the extension starts at `i`. */
  lemma {:induction false} ExtIsLastDot(p: string, i: nat)
    requires i < |p| && p[i] == '.'
    requires forall k :: i < k < |p| ==> p[k] != '.' && p[k] != '/'
    ensures Ext(p) == p[i..]
  {
    ExtFromReaches(p, i, |p| - 1);
  }

  lemma {:induction false} ExtFromReaches(p: string, i: nat, j: int)
    requires i <= j < |p| && p[i] == '.'
    requires forall k :: i < k < |p| ==> p[k] != '.' && p[k] != '/'
    ensures ExtFrom(p, j) == p[i..]
    decreases j - i
  {
    if j > i {
      ExtFromReaches(p, i, j - 1);
    }
  }

  /**
    The live file name, as the hooks compute it: when the lower-cased extension of the rendered
    name is ".gz", the suffix ".gz" is trimmed, but only in lower case.
  */
  function LiveFileNameAsWritten(rendered: string): (r: string)
    ensures r == TrimSuffix(rendered, GzipSuffix)
  {
    if ToLower(Ext(rendered)) == GzipSuffix then
      ExtOfGzName(rendered);
      TrimSuffix(rendered, GzipSuffix)
    else
      ExtOfGzName(rendered);
      rendered
  }

  /** A name ending in ".gz" has the extension ".gz". */
  lemma ExtOfGzName(name: string)
    ensures HasSuffix(name, GzipSuffix) ==> Ext(name) == GzipSuffix
  {
    if HasSuffix(name, GzipSuffix) {
      var i := |name| - 3;
      assert name[i..] == ".gz";
      assert name[i] == '.' && name[i + 1] == 'g' && name[i + 2] == 'z';
      ExtIsLastDot(name, i);
    }
  }

  /** The last three characters of `name` lower-case to ".gz". */
  predicate EndsInGz(name: string) {
    && |name| >= 3
    && LowerChar(name[|name| - 3]) == '.'
    && LowerChar(name[|name| - 2]) == 'g'
    && LowerChar(name[|name| - 1]) == 'z'
  }

  /** The hooks' test, "the lower-cased extension is .gz", looks only at the last three characters. */
  lemma {:induction false} GzExtensionIsEnding(name: string)
    ensures ToLower(Ext(name)) == GzipSuffix <==> EndsInGz(name)
  {
    var e := Ext(name);
    if ToLower(e) == GzipSuffix {
      assert |e| == 3;
      assert name[|name| - 3..] == e;
      assert name[|name| - 3] == e[0] && name[|name| - 2] == e[1] && name[|name| - 1] == e[2];
      assert ToLower(e)[0] == '.' && ToLower(e)[1] == 'g' && ToLower(e)[2] == 'z';
    }
    if EndsInGz(name) {
      var i := |name| - 3;
      assert name[i] == '.';
      assert name[i + 1] != '.' && name[i + 1] != '/';
      assert name[i + 2] != '.' && name[i + 2] != '/';
      ExtIsLastDot(name, i);
      assert e == name[i..];
      assert ToLower(e) == [LowerChar(e[0]), LowerChar(e[1]), LowerChar(e[2])];
    }
  }

  /**
    The live file name with the evident intent: the ".gz" extension that the case-insensitive
    test found is removed whatever its case.
  */
  function LiveFileName(rendered: string): (r: string)
    ensures |r| <= |rendered| && r == rendered[..|r|]
  {
    if EndsInGz(rendered) then rendered[..|rendered| - 3] else rendered
  }

  /** A rendered name with a ".gz" extension, in any letter case, loses exactly that extension. */
  lemma LiveFileNameDropsGz(rendered: string)
    ensures ToLower(Ext(rendered)) == GzipSuffix ==>
      LiveFileName(rendered) + Ext(rendered) == rendered && |Ext(rendered)| == 3
    ensures ToLower(Ext(rendered)) != GzipSuffix ==> LiveFileName(rendered) == rendered
  {
    GzExtensionIsEnding(rendered);
    if EndsInGz(rendered) {
      var e := Ext(rendered);
      assert |e| == |ToLower(e)| == 3;
      assert rendered[..|rendered| - 3] + rendered[|rendered| - 3..] == rendered;
    }
  }

  /** `LiveFileNameAsWritten` keeps an upper-case ".GZ" that `LiveFileName` removes. */
  lemma UpperCaseGzKept(stem: string)
    ensures LiveFileNameAsWritten(stem + ".GZ") == stem + ".GZ"
    ensures LiveFileName(stem + ".GZ") == stem
    ensures ArchiverKey(stem + ".GZ") in Archivers
  {
    var name := stem + ".GZ";
    var i := |stem|;
    assert name[i] == '.' && name[i + 1] == 'G' && name[i + 2] == 'Z';
    ExtIsLastDot(name, i);
    assert name[i..] == ".GZ";
    assert ToLower(".GZ") == ".gz";
    assert !HasSuffix(name, GzipSuffix) by {
      assert name[|name| - 3..] == ".GZ";
    }
    assert name[..|name| - 3] == stem;
  }

  /** The key under which `archiveOldFile` looks up the archive function: the pattern's lower-cased extension. */
  function ArchiverKey(pattern: string): (k: string)
    ensures k == "" || k[0] == '.'
    ensures |k| == |Ext(pattern)|
  {
    ToLower(Ext(pattern))
  }

  /** Old files are archived exactly when the pattern ends in ".gz", in any letter case. */
  lemma ArchivesExactlyGzPatterns(pattern: string)
    ensures ArchiverKey(pattern) in Archivers <==> EndsInGz(pattern)
  {
    GzExtensionIsEnding(pattern);
  }
}
