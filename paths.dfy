/**
 * Path arithmetic the file store relies on: `os.path.join` onto the static
 * directory, `os.path.normpath` (posix flavour, '/' separators), the
 * containment test that guards every file access, and the final-component
 * suffix `pathlib.PurePath.suffix` that picks a content type.
 */
module Paths {
  import opened Wrappers
  import opened Text

  /** The directory every served and uploaded file must stay under. */
  const StaticDir: string := "static"

  /** `os.path.join(StaticDir, rel)` for a `rel` with no leading '/'. */
  function JoinStatic(rel: string): string
  {
    StaticDir + "/" + rel
  }

  /** One step of `normpath`'s component loop: fold component `c` into the
      already normalised components `acc`. */
  function ResolveStep(acc: seq<string>, c: string, rooted: bool): seq<string>
  {
    if c == "" || c == "." then acc
    else if c != ".." || (!rooted && acc == []) || (acc != [] && acc[|acc| - 1] == "..") then acc + [c]
    else if acc != [] then acc[..|acc| - 1]
    else acc
  }

  function Resolve(acc: seq<string>, comps: seq<string>, rooted: bool): seq<string>
    decreases |comps|
  {
    if comps == [] then acc else Resolve(ResolveStep(acc, comps[0], rooted), comps[1..], rooted)
  }

  /** Number of leading slashes `normpath` keeps: two exactly, else at most one. */
  function InitialSlashes(p: string): nat
  {
    if !StartsWith(p, "/") then 0
    else if StartsWith(p, "//") && !StartsWith(p, "///") then 2
    else 1
  }

  /** `os.path.normpath(p)`: collapse empty and '.' components and resolve
      '..' lexically. */
  function NormPath(p: string): string
  {
    if p == "" then "."
    else
      var slashes := InitialSlashes(p);
      var body := Join(Resolve([], Split(p, "/"), slashes > 0), "/");
      var r := seq(slashes, _ => '/') + body;
      if r == "" then "." else r
  }

  /** Normalised components: none empty, '.', or holding a separator, and
      '..' only in a leading run (and not at all under a root). */
  predicate NormalForm(cs: seq<string>, rooted: bool)
  {
    && (forall i :: 0 <= i < |cs| ==> cs[i] != "" && cs[i] != "." && !Contains(cs[i], "/"))
    && (forall i, j :: 0 <= i < j < |cs| && cs[j] == ".." ==> cs[i] == "..")
    && (rooted ==> forall i :: 0 <= i < |cs| ==> cs[i] != "..")
  }

  lemma {:induction false} ResolveNormal(acc: seq<string>, comps: seq<string>, rooted: bool)
    requires NormalForm(acc, rooted)
    requires forall i :: 0 <= i < |comps| ==> !Contains(comps[i], "/")
    ensures NormalForm(Resolve(acc, comps, rooted), rooted)
    decreases |comps|
  {
    if comps != [] {
      var next := ResolveStep(acc, comps[0], rooted);
      assert NormalForm(next, rooted);
      ResolveNormal(next, comps[1..], rooted);
    }
  }

  /** The containment test as the source writes it: a plain string prefix. */
  predicate WithinAsWritten(path: string, root: string)
  {
    StartsWith(path, root)
  }

  /** The containment test as intended: `path` is `root` itself or lies below
      it, so the prefix must end at a component boundary. */
  predicate Within(path: string, root: string)
  {
    path == root || StartsWith(path, root + "/")
  }

  /** A request path leaves the static directory once its normalised
      components do not start with that directory or climb out with '..'. */
  predicate Inside(cs: seq<string>)
  {
    |cs| > 0 && cs[0] == StaticDir && forall i :: 0 <= i < |cs| ==> cs[i] != ".."
  }

  /** Splitting a join on a one-character separator recovers the pieces. */
  lemma {:induction false} SplitJoin<T>(pieces: seq<seq<T>>, sep: seq<T>)
    requires |sep| == 1 && |pieces| >= 1
    requires forall i :: 0 <= i < |pieces| ==> !Contains(pieces[i], sep)
    ensures Split(Join(pieces, sep), sep) == pieces
    decreases |pieces|
  {
    var s := Join(pieces, sep);
    if |pieces| == 1 {
      assert s == pieces[0];
    } else {
      var rest := Join(pieces[1..], sep);
      assert s == pieces[0] + sep + rest;
      var k := |pieces[0]|;
      assert OccursAt(s, sep, k);
      forall j: nat | j < k
        ensures !OccursAt(s, sep, j)
      {
        assert !OccursAt(pieces[0], sep, j);
        assert s[j..j + 1] == pieces[0][j..j + 1];
      }
      assert SplitOnce(s, sep) == Some((pieces[0], rest));
      SplitJoin(pieces[1..], sep);
    }
  }

  /** The normalised form of a path under the static directory, as components. */
  function NormComponents(rel: string): seq<string>
  {
    Resolve([], Split(JoinStatic(rel), "/"), false)
  }

  lemma NormPathOfStatic(rel: string)
    ensures InitialSlashes(JoinStatic(rel)) == 0
    ensures NormalForm(NormComponents(rel), false)
    ensures NormPath(JoinStatic(rel)) == if NormComponents(rel) == [] then "." else Join(NormComponents(rel), "/")
  {
    assert JoinStatic(rel)[0] == 's';
    ResolveNormal([], Split(JoinStatic(rel), "/"), false);
  }

  /** A path at or below a directory without a separator in its name has
      that directory as its first component. */
  lemma WithinFirst(n: string, root: string)
    requires Within(n, root) && forall j :: 0 <= j < |root| ==> root[j] != '/'
    ensures Split(n, "/")[0] == root
  {
    SplitFirst(n, "/");
    if n == root {
      NoOccurrence(root, "/");
    } else {
      var k := |root|;
      assert n[..k + 1] == root + "/";
      assert OccursAt(n, "/", k) by {
        assert n[k..k + 1] == n[..k + 1][k..k + 1];
      }
      forall j: nat | j < k
        ensures !OccursAt(n, "/", j)
      {
        assert n[j] == n[..k + 1][j] == root[j];
        assert n[j..j + 1][0] == n[j];
      }
      assert IndexOf(n, "/") == Some(k);
      assert n[..k] == root;
    }
  }

  /** A path joined from separator-free components lies at or below a
      directory whose name holds no separator exactly when its first
      component is that directory. */
  lemma FirstComponentOf(cs: seq<string>, root: string)
    requires |cs| >= 1 && forall i :: 0 <= i < |cs| ==> !Contains(cs[i], "/")
    requires forall j :: 0 <= j < |root| ==> root[j] != '/'
    ensures Within(Join(cs, "/"), root) <==> cs[0] == root
  {
    var n := Join(cs, "/");
    SplitJoin(cs, "/");
    if Within(n, root) {
      WithinFirst(n, root);
    }
    if cs[0] == root && |cs| > 1 {
      assert n == root + "/" + Join(cs[1..], "/");
      assert n[..|root| + 1] == root + "/";
    }
  }

  /** A path joined from separator-free components starts with the
      static directory as a whole component exactly when its first
      component is that directory. */
  lemma FirstComponent(cs: seq<string>)
    requires |cs| >= 1 && forall i :: 0 <= i < |cs| ==> !Contains(cs[i], "/")
    ensures Within(Join(cs, "/"), StaticDir) <==> cs[0] == StaticDir
  {
    StaticDirPlain();
    FirstComponentOf(cs, StaticDir);
  }

  /** The name of the static directory holds no separator. */
  lemma StaticDirPlain()
    ensures forall j :: 0 <= j < |StaticDir| ==> StaticDir[j] != '/'
  {
  }

  /** The corrected containment test accepts exactly the requests whose
      normalised path stays inside the static directory. */
  lemma WithinMeansInside(rel: string)
    ensures Within(NormPath(JoinStatic(rel)), StaticDir) <==> Inside(NormComponents(rel))
  {
    NormPathOfStatic(rel);
    var cs := NormComponents(rel);
    if cs != [] {
      FirstComponent(cs);
    }
  }

  lemma SplitEscapePath(p: string, parts: seq<string>)
    requires p == "static/../static2" && parts == ["static", "..", "static2"]
    ensures Split(p, "/") == parts
  {
    assert Join(parts[2..], "/") == "static2";
    assert Join(parts[1..], "/") == ".." + "/" + "static2";
    assert Join(parts, "/") == "static" + "/" + (".." + "/" + "static2");
    assert p == Join(parts, "/");
    ContainsOne(parts[0], '/');
    ContainsOne(parts[1], '/');
    ContainsOne(parts[2], '/');
    SplitJoin(parts, "/");
  }

  /** The string-prefix test lets a sibling through: a GET of `/../static2`
      normalises to `static2`, which starts with the characters `static` but
      is not inside the static directory. */
  lemma PrefixTestEscapes(rel: string)
    requires rel == "../static2"
    ensures WithinAsWritten(NormPath(JoinStatic(rel)), StaticDir)
    ensures !Within(NormPath(JoinStatic(rel)), StaticDir)
    ensures !Inside(NormComponents(rel))
  {
    var p := JoinStatic(rel);
    EscapeComponents(rel);
    NormPathOfStatic(rel);
    var n := NormPath(p);
    assert n == StaticDir + "2";
    SiblingPassesPrefixTest(StaticDir, "2");
  }

  /** `static/../static2` normalises to the single component `static2`. */
  lemma EscapeComponents(rel: string)
    requires rel == "../static2"
    ensures NormComponents(rel) == ["static2"]
  {
    SplitEscapePath(JoinStatic(rel), ["static", "..", "static2"]);
    UpAndAcross("static", "static2");
  }

  /** A name, `..`, then another name: the second name replaces the first. */
  lemma UpAndAcross(a: string, b: string)
    requires |a| > 2 && |b| > 2
    ensures Resolve([], [a, "..", b], false) == [b]
  {
    assert ResolveStep([], a, false) == [a];
    assert ResolveStep([a], "..", false) == [];
    assert ResolveStep([], b, false) == [b];
    assert [a, "..", b][1..] == ["..", b] && ["..", b][1..] == [b] && [b][1..] == [];
    assert Resolve([], [b], false) == Resolve([b], [], false) == [b];
    assert Resolve([a], ["..", b], false) == Resolve([], [b], false);
  }

  /** The literal prefix test accepts any name that merely begins with the
      characters of the root, such as a sibling `static2` of `static`. */
  lemma SiblingPassesPrefixTest(root: string, t: string)
    requires t != [] && t[0] != '/'
    ensures WithinAsWritten(root + t, root)
    ensures !Within(root + t, root)
  {
    assert (root + t)[..|root|] == root;
    assert (root + t)[|root|] == t[0];
  }

  /** `normpath` leaves the name of the static directory as it is. */
  lemma NormPathStaticDir()
    ensures NormPath(StaticDir) == StaticDir
  {
    ContainsOne(StaticDir, '/');
    var parts := Split(StaticDir, "/");
    assert parts == [StaticDir];
    assert InitialSlashes(StaticDir) == 0;
    assert Resolve([], parts, false) == [StaticDir] by {
      assert ResolveStep([], StaticDir, false) == [StaticDir];
      assert parts[1..] == [];
    }
    assert Join([StaticDir], "/") == StaticDir;
  }

  /** A plain file name directly under the static directory is already in
      normal form. */
  lemma NormPathOfName(name: string)
    requires name != "" && name != "." && name != ".." && !Contains(name, "/")
    ensures NormPath(JoinStatic(name)) == JoinStatic(name)
    ensures Within(JoinStatic(name), StaticDir)
  {
    var parts := [StaticDir, name];
    assert Join(parts[1..], "/") == name;
    assert Join(parts, "/") == JoinStatic(name);
    ContainsOne(StaticDir, '/');
    SplitJoin(parts, "/");
    NormPathOfStatic(name);
    var r1 := ResolveStep([], StaticDir, false);
    assert r1 == [StaticDir];
    assert ResolveStep(r1, name, false) == parts;
    assert NormComponents(name) == Resolve(r1, parts[1..], false);
    assert parts[1..][1..] == [];
    assert NormComponents(name) == parts;
    assert JoinStatic(name)[..|StaticDir| + 1] == StaticDir + "/";
  }

  /** The index of the last occurrence of `c` in `s`, as `str.rfind`. */
  function LastIndexOf(s: string, c: char): (r: Option<nat>)
    ensures r.Some? ==> r.value < |s| && s[r.value] == c
    ensures r.Some? ==> forall j :: r.value < j < |s| ==> s[j] != c
    ensures r.None? ==> forall j :: 0 <= j < |s| ==> s[j] != c
  {
    if s == [] then None
    else if s[|s| - 1] == c then Some(|s| - 1)
    else LastIndexOf(s[..|s| - 1], c)
  }

  /** `PurePath(name).suffix` for a final component `name`: from the last
      '.' on, unless that dot starts or ends the name. */
  function Suffix(name: string): (r: string)
    ensures r != [] ==> r[0] == '.' && |r| >= 2 && |r| < |name| && name[|name| - |r|..] == r
    ensures r != [] ==> forall j :: 1 <= j < |r| ==> r[j] != '.'
  {
    match LastIndexOf(name, '.')
    case Some(i) => if 0 < i < |name| - 1 then name[i..] else ""
    case None => ""
  }

  /** The last component pathlib keeps when splitting on '/': empty and '.'
      components are dropped. */
  function LastPart(parts: seq<string>): Option<string>
  {
    if parts == [] then None
    else if parts[|parts| - 1] != "" && parts[|parts| - 1] != "." then Some(parts[|parts| - 1])
    else LastPart(parts[..|parts| - 1])
  }

  /** `(Path(StaticDir) / rel).name`: the last proper component of `rel`;
      with none, the static directory itself, or the empty name of the
      filesystem root when `rel` is absolute. */
  function FinalName(rel: string): string
  {
    match LastPart(Split(rel, "/"))
    case Some(n) => n
    case None => if StartsWith(rel, "/") then "" else StaticDir
  }
}
