/**
 * `std::path` as the shell uses it. A path is the sequence of its normal components
 * below the filesystem root: `/a/b` is `["a", "b"]` and `/` is `[]`. Joining a user argument
 * keeps `..` components, exactly as `Path::join` does; the filesystem resolves them later.
 */
module Paths {
  import opened Wrappers
  import opened Text

  type Path = seq<string>

  /** A component as `Path::components` yields it from an absolute path. */
  predicate IsComp(c: string) {
    c != "" && c != "." && '/' !in c
  }

  /** Every component is one `Path::components` could produce (`..` allowed). */
  predicate WellFormed(p: Path) {
    forall i :: 0 <= i < |p| ==> IsComp(p[i])
  }

  /** A well-formed path without `..`: a name the filesystem stores. */
  predicate Plain(p: Path) {
    forall i :: 0 <= i < |p| ==> IsComp(p[i]) && p[i] != ".."
  }

  // ---------------------------------------------------------------------------
  // From text to components
  // ---------------------------------------------------------------------------

  /** `str::split('/')`: the pieces between slashes, empty ones included. */
  function Split(s: string): (r: seq<string>)
    ensures |r| >= 1
    ensures forall i :: 0 <= i < |r| ==> '/' !in r[i]
  {
    if s == [] then [[]]
    else
      var rest := Split(s[1..]);
      if s[0] == '/' then [[]] + rest
      else [[s[0]] + rest[0]] + rest[1..]
  }

  /** The pieces `Path::components` keeps: no empty piece and no `.`. */
  function Keep(pieces: seq<string>): (r: seq<string>)
    requires forall i :: 0 <= i < |pieces| ==> '/' !in pieces[i]
    ensures WellFormed(r)
    ensures |r| <= |pieces|
  {
    if pieces == [] then []
    else if pieces[0] == "" || pieces[0] == "." then Keep(pieces[1..])
    else [pieces[0]] + Keep(pieces[1..])
  }

  /** The normal components of a path written as text. */
  function Comps(s: string): (r: Path)
    ensures WellFormed(r)
  {
    Keep(Split(s))
  }

  /** `base.join(arg)`: an absolute argument replaces the base. */
  function Join(base: Path, arg: string): (r: Path)
    ensures WellFormed(base) ==> WellFormed(r)
    ensures StartsWith(arg, "/") ==> r == Comps(arg)
    ensures !StartsWith(arg, "/") ==> r == base + Comps(arg)
  {
    if |arg| > 0 && arg[0] == '/' then Comps(arg) else base + Comps(arg)
  }

  /** Joins one plain name onto a path (`path.join(name)` for a name without `/`). */
  function Child(p: Path, name: string): Path {
    p + [name]
  }

  // ---------------------------------------------------------------------------
  // Lexical queries
  // ---------------------------------------------------------------------------

  /** `Path::parent`: `None` for the root. */
  function Parent(p: Path): (r: Option<Path>)
    ensures r.None? <==> p == []
    ensures r.Some? ==> r.value + [p[|p| - 1]] == p
  {
    if p == [] then None else Some(p[..|p| - 1])
  }

  /** `Path::file_name`: `None` for the root and for a path ending in `..`. */
  function FileName(p: Path): (r: Option<string>)
    ensures r.Some? <==> (p != [] && p[|p| - 1] != "..")
    ensures r.Some? ==> r.value == p[|p| - 1]
  {
    if p == [] || p[|p| - 1] == ".." then None else Some(p[|p| - 1])
  }

  /** `Path::starts_with`: a component-wise prefix. */
  predicate IsPrefix(a: Path, b: Path) {
    |a| <= |b| && b[..|a|] == a
  }

  /** `Path::strip_prefix` */
  function StripPrefix(p: Path, base: Path): (r: Option<Path>)
    ensures r.Some? <==> IsPrefix(base, p)
    ensures r.Some? ==> base + r.value == p
  {
    if IsPrefix(base, p) then Some(p[|base|..]) else None
  }

  // ---------------------------------------------------------------------------
  // Display
  // ---------------------------------------------------------------------------

  /** `Path::display` of an absolute path. */
  function Display(p: Path): (r: string)
    ensures StartsWith(r, "/")
  {
    "/" + JoinWith(p, "/")
  }

  /**
   * `display_relative_path(path, root)` (and `relative_deemak_path(path)` with the world
   * directory as `root`): `HOME` for the root itself, `HOME/<rest>` below it, and the plain
   * display of the path elsewhere.
   */
  function RelativeDisplay(path: Path, root: Path): (r: string)
    ensures IsPrefix(root, path) ==> StartsWith(r, "HOME")
    ensures !IsPrefix(root, path) ==> r == Display(path)
  {
    match StripPrefix(path, root)
    case Some(rel) => if rel == [] then "HOME" else "HOME/" + JoinWith(rel, "/")
    case None => Display(path)
  }

  /**
   * `whereami`: the current directory as seen from the world root; it reads `HOME` exactly
   * at the root.
   */
  function Whereami(current: Path, root: Path): (r: string)
    ensures IsPrefix(root, current) ==> StartsWith(r, "HOME")
    ensures r == "HOME" <==> current == root
  {
    var r := RelativeDisplay(current, root);
    if current == root then
      assert root[..|root|] == root;
      r
    else if IsPrefix(root, current) then
      assert current[|root|..] != [];
      assert |r| >= |"HOME/"|;
      r
    else
      assert r[0] == '/';
      r
  }

  // ---------------------------------------------------------------------------
  // Lemmas
  // ---------------------------------------------------------------------------

  /** Splitting distributes over a slash. */
  lemma {:induction false} SplitSlash(x: string, y: string)
    ensures Split(x + "/" + y) == Split(x) + Split(y)
  {
    if x == [] {
      assert x + "/" + y == ['/'] + y;
      assert (['/'] + y)[1..] == y;
    } else {
      assert (x + "/" + y)[1..] == x[1..] + "/" + y;
      assert (x + "/" + y)[0] == x[0];
      SplitSlash(x[1..], y);
    }
  }

  /** A piece without a slash splits into itself. */
  lemma {:induction false} SplitNoSlash(x: string)
    requires '/' !in x
    ensures Split(x) == [x]
  {
    if x != [] {
      assert '/' !in x[1..] by {
        forall k | 0 <= k < |x[1..]| ensures x[1..][k] != '/' {
          assert x[1..][k] == x[k + 1];
        }
      }
      SplitNoSlash(x[1..]);
      assert [x[0]] + x[1..] == x;
    }
  }

  lemma {:induction false} KeepAppend(a: seq<string>, b: seq<string>)
    requires forall i :: 0 <= i < |a| ==> '/' !in a[i]
    requires forall i :: 0 <= i < |b| ==> '/' !in b[i]
    ensures Keep(a + b) == Keep(a) + Keep(b)
  {
    if a == [] {
      assert a + b == b;
    } else {
      assert (a + b)[1..] == a[1..] + b;
      assert (a + b)[0] == a[0];
      KeepAppend(a[1..], b);
    }
  }

  lemma {:induction false} KeepWellFormed(p: Path)
    requires WellFormed(p)
    ensures Keep(p) == p
  {
    if p != [] {
      assert IsComp(p[0]);
      assert WellFormed(p[1..]) by {
        forall k | 0 <= k < |p[1..]| ensures IsComp(p[1..][k]) {
          assert p[1..][k] == p[k + 1];
        }
      }
      KeepWellFormed(p[1..]);
      assert [p[0]] + p[1..] == p;
    }
  }

  /** Joining non-empty pieces with `/` and splitting again gives the pieces back. */
  lemma {:induction false} SplitJoin(parts: seq<string>)
    requires parts != []
    requires forall i :: 0 <= i < |parts| ==> '/' !in parts[i]
    ensures Split(JoinWith(parts, "/")) == parts
  {
    if |parts| == 1 {
      SplitNoSlash(parts[0]);
    } else {
      var init := parts[..|parts| - 1];
      SplitJoin(init);
      SplitSlash(JoinWith(init, "/"), parts[|parts| - 1]);
      SplitNoSlash(parts[|parts| - 1]);
      assert init + [parts[|parts| - 1]] == parts;
    }
  }

  /** Reading back a displayed path yields its components. */
  lemma DisplayRoundTrip(p: Path)
    requires WellFormed(p)
    ensures Comps(Display(p)) == p
  {
    if p == [] {
      assert Display(p) == "/";
      assert Split("/") == [[], []];
    } else {
      assert Display(p) == [] + "/" + JoinWith(p, "/");
      SplitSlash([], JoinWith(p, "/"));
      SplitJoin(p);
      KeepAppend([[]], p);
      KeepWellFormed(p);
    }
  }

  /**
   * What `display_relative_path` prints reads back as `HOME` followed by the components
   * below the root, or as the absolute path when the path is not below the root.
   */
  lemma RelativeDisplayRoundTrip(path: Path, root: Path)
    requires WellFormed(path)
    ensures IsPrefix(root, path) ==> Comps(RelativeDisplay(path, root)) == ["HOME"] + path[|root|..]
    ensures !IsPrefix(root, path) ==> Comps(RelativeDisplay(path, root)) == path
  {
    if IsPrefix(root, path) {
      var rel := path[|root|..];
      assert WellFormed(rel) by {
        forall k | 0 <= k < |rel| ensures IsComp(rel[k]) {
          assert rel[k] == path[|root| + k];
        }
      }
      if rel == [] {
        SplitNoSlash("HOME");
        assert Keep([]) == [];
      } else {
        assert "HOME/" + JoinWith(rel, "/") == "HOME" + "/" + JoinWith(rel, "/");
        SplitSlash("HOME", JoinWith(rel, "/"));
        SplitNoSlash("HOME");
        SplitJoin(rel);
        KeepAppend(["HOME"], rel);
        KeepWellFormed(rel);
      }
    } else {
      DisplayRoundTrip(path);
    }
  }

  /** A stored path extended by a stored name is stored. */
  lemma PlainSnoc(p: Path, c: string)
    requires Plain(p) && IsComp(c) && c != ".."
    ensures Plain(p + [c]) && WellFormed(p + [c])
  {
    assert forall i :: 0 <= i < |p| ==> (p + [c])[i] == p[i];
  }

  /** `..` is one component. */
  lemma CompsUp()
    ensures Comps("..") == [".."]
  {
    var one: string := ".";
    var two: string := "..";
    assert one == ['.'] && two == ['.', '.'];
    assert two[1..] == one && one[1..] == [];
    assert Split([]) == [[]];
    assert Split(one) == [['.'] + []] + [];
    assert (['.'] + []) == one;
    assert Split(one) == [one];
    assert Split(two[1..]) == [one];
    assert Split(two) == [[two[0]] + one] + [one][1..];
    assert [two[0]] + one == two;
    assert Keep([two]) == [two] + Keep([]);
    assert Comps(two) == Keep(Split(two));
  }

  /** `../name` is the parent component followed by the name. */
  lemma CompsUpName(name: string)
    requires IsComp(name)
    ensures Comps("../" + name) == ["..", name]
  {
    CompsUp();
    assert "../" + name == ".." + "/" + name;
    SplitSlash("..", name);
    SplitNoSlash(name);
    KeepAppend(Split(".."), [name]);
    assert Keep([name]) == [name] + Keep([]);
  }
}
