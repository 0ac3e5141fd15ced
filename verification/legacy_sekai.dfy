/**
 * The older tree check `utils::valid_sekai::validate_sekai`: the sekai path must be a
 * directory, and every directory below it that is reached without passing through a hidden
 * name (one starting with `.`) must hold an `info.json`. Nothing is written.
 */
module LegacySekai {
  import opened Wrappers
  import opened Text
  import opened Paths
  import opened Fs
  import InfoReader

  /** `check_directory_exists`: the path exists and is a directory; the first test adds nothing. */
  function CheckDirectoryExists(w: World, p: Path): (r: bool)
    ensures r <==> IsDir(w, p)
  {
    Exists(w, p) && IsDir(w, p)
  }

  /**
   * `check_infojson_exists`: something named `info.json` exists directly in `dir`; a
   * directory of that name passes as well as a file.
   */
  function CheckInfoJsonExists(w: World, dir: Path): (r: bool)
    ensures r <==> IsFile(w, dir + [InfoReader.INFO_JSON]) || IsDir(w, dir + [InfoReader.INFO_JSON])
  {
    Exists(w, dir + [InfoReader.INFO_JSON])
  }

  /** A name the walk skips, such as `.git` or `.dir_info`. */
  predicate Hidden(n: string) {
    StartsWith(n, ".")
  }

  // ---------------------------------------------------------------------------
  // Termination measure
  // ---------------------------------------------------------------------------

  lemma {:induction false} SubsetCard<T>(a: set<T>, b: set<T>)
    requires a <= b
    ensures |a| <= |b|
    decreases |a|
  {
    if a != {} {
      var y :| y in a;
      SubsetCard(a - {y}, b - {y});
    }
  }

  /** A stored child has fewer stored paths at or below it than its parent. */
  lemma BelowShrinks(w: World, q: Path, n: string)
    requires q in w && q + [n] in w
    ensures |Below(w, q + [n])| < |Below(w, q)|
  {
    var c := q + [n];
    forall k | k in Below(w, c) ensures k in Below(w, q) - {q} {
      assert k[..|q|] == c[..|c|][..|q|];
    }
    SubsetCard(Below(w, c), Below(w, q) - {q});
  }

  /** In a well-formed world a stored child of a stored directory resolves to itself. */
  lemma ChildLocates(w: World, q: Path, n: string)
    requires WF(w) && q in w && w[q].Dir? && q + [n] in w
    ensures Locate(w, q + [n]) == Ok(q + [n])
    ensures IsDir(w, q + [n]) <==> w[q + [n]].Dir?
  {
    assert (q + [n])[..|q|] == q;
    LocateStored(w, q + [n]);
  }

  /** The listing of a stored directory names exactly its stored children. */
  lemma ListedChildren(w: World, q: Path)
    requires WF(w) && q in w && w[q].Dir?
    ensures ReadDir(w, q).Ok?
    ensures forall i :: 0 <= i < |ReadDir(w, q).value| ==> q + [ReadDir(w, q).value[i]] in w
    ensures forall n :: q + [n] in w ==> n in ReadDir(w, q).value
  {
    LocateStored(w, q);
    forall n ensures n in ReadDir(w, q).value <==> q + [n] in w {
      ChildrenMember(w, q, n);
    }
  }

  // ---------------------------------------------------------------------------
  // The walk
  // ---------------------------------------------------------------------------

  /**
   * `check_subdirs(path)` on the stored directory `q` that `path` resolves to: false when
   * the listing fails, otherwise the conjunction over the visible subdirectories of
   * "has `info.json`" and "passes the check itself". Every entry is examined even after a
   * failure.
   */
  function CheckSubdirs(w: World, q: Path): (r: bool)
    requires WF(w) && q in w && w[q].Dir?
    ensures r ==> forall n :: q + [n] in w && w[q + [n]].Dir? && !Hidden(n) ==> CheckInfoJsonExists(w, q + [n])
    decreases |Below(w, q)|, 1
  {
    match ReadDir(w, q)
    case Err(_) => false
    case Ok(names) =>
      ListedChildren(w, q);
      CheckEntries(w, q, names)
  }

  /** The `for entry in entries` loop of `check_subdirs`. */
  function CheckEntries(w: World, q: Path, names: seq<string>): (r: bool)
    requires WF(w) && q in w && w[q].Dir?
    requires forall i :: 0 <= i < |names| ==> q + [names[i]] in w
    ensures r ==> forall i :: 0 <= i < |names| && w[q + [names[i]]].Dir? && !Hidden(names[i]) ==>
      CheckInfoJsonExists(w, q + [names[i]])
    decreases |Below(w, q)|, 0, |names|
  {
    if names == [] then true
    else
      var e := q + [names[0]];
      ChildLocates(w, q, names[0]);
      var here :=
        if IsDir(w, e) && !Hidden(names[0]) then
          BelowShrinks(w, q, names[0]);
          var hasInfo := CheckInfoJsonExists(w, e);
          var below := CheckSubdirs(w, e);
          hasInfo && below
        else true;
      var rest := CheckEntries(w, q, names[1..]);
      assert forall i :: 1 <= i < |names| ==> names[i] == names[1..][i - 1];
      here && rest
  }

  /** `validate_sekai(sekai_path)` */
  function ValidateSekai(w: World, p: Path): (r: bool)
    requires WF(w)
    ensures r <==> IsDir(w, p) && AllHaveInfo(w, Locate(w, p).value)
  {
    if !CheckDirectoryExists(w, p) then false
    else
      var q := Locate(w, p).value;
      CheckSubdirsIff(w, q);
      CheckSubdirs(w, q)
  }

  // ---------------------------------------------------------------------------
  // What the walk checks, stated over the whole tree
  // ---------------------------------------------------------------------------

  /** A stored directory strictly below `q` reached through names none of which is hidden. */
  ghost predicate Visible(w: World, q: Path, k: Path) {
    k in w && w[k].Dir? && StrictlyBelow(q, k) && forall i :: |q| <= i < |k| ==> !Hidden(k[i])
  }

  /** Every visible directory below `q` holds an `info.json`. */
  ghost predicate AllHaveInfo(w: World, q: Path) {
    forall k :: Visible(w, q, k) ==> CheckInfoJsonExists(w, k)
  }

  /** The condition the loop checks for one name of `q`. */
  ghost predicate ChildOk(w: World, q: Path, n: string) {
    q + [n] in w && w[q + [n]].Dir? && !Hidden(n) ==> CheckInfoJsonExists(w, q + [n]) && AllHaveInfo(w, q + [n])
  }

  /** Every proper prefix of a stored path is a stored directory. */
  lemma {:induction false} AncestorStored(w: World, k: Path, j: nat)
    requires WF(w) && k in w && j < |k|
    ensures k[..j] in w && w[k[..j]].Dir?
    decreases |k| - j
  {
    if j + 1 < |k| {
      AncestorStored(w, k, j + 1);
      var a := k[..j + 1];
      assert a[..|a| - 1] == k[..j];
      ParentStored(w, a);
    } else {
      ParentStored(w, k);
    }
  }

  /** What holds below `q` holds below each visible child of `q`. */
  lemma VisibleFromChild(w: World, q: Path, n: string, k: Path)
    requires Visible(w, q + [n], k) && !Hidden(n)
    ensures Visible(w, q, k)
  {
    var c := q + [n];
    assert k[..|q|] == k[..|c|][..|q|];
    assert k[|q|] == n;
  }

  /** A path visible from `q` and deeper than its first step is visible from that step. */
  lemma VisibleThroughChild(w: World, q: Path, k: Path)
    requires WF(w) && Visible(w, q, k) && |k| > |q| + 1
    ensures Visible(w, q + [k[|q|]], k)
  {
    var c := q + [k[|q|]];
    assert k[..|c|] == c;
  }

  lemma AllHaveInfoToChildren(w: World, q: Path)
    requires WF(w) && AllHaveInfo(w, q)
    ensures forall n :: ChildOk(w, q, n)
  {
    forall n ensures ChildOk(w, q, n) {
      var c := q + [n];
      if c in w && w[c].Dir? && !Hidden(n) {
        assert Visible(w, q, c);
        forall k | Visible(w, c, k) ensures CheckInfoJsonExists(w, k) {
          VisibleFromChild(w, q, n, k);
        }
      }
    }
  }

  lemma ChildrenToAllHaveInfo(w: World, q: Path)
    requires WF(w) && forall n :: ChildOk(w, q, n)
    ensures AllHaveInfo(w, q)
  {
    forall k | Visible(w, q, k) ensures CheckInfoJsonExists(w, k) {
      var n := k[|q|];
      assert ChildOk(w, q, n);
      if |k| == |q| + 1 {
        assert k == q + [n];
      } else {
        VisibleThroughChild(w, q, k);
        AncestorStored(w, k, |q| + 1);
        assert k[..|q| + 1] == q + [n];
      }
    }
  }

  /** The tree condition at `q` is the condition at each visible child and below it. */
  lemma AllHaveInfoSplit(w: World, q: Path)
    requires WF(w)
    ensures AllHaveInfo(w, q) <==> forall n :: ChildOk(w, q, n)
  {
    if AllHaveInfo(w, q) {
      AllHaveInfoToChildren(w, q);
    }
    if forall n :: ChildOk(w, q, n) {
      ChildrenToAllHaveInfo(w, q);
    }
  }

  /** The walk from `q` succeeds exactly when every visible directory below `q` holds `info.json`. */
  lemma {:induction false} CheckSubdirsIff(w: World, q: Path)
    requires WF(w) && q in w && w[q].Dir?
    ensures CheckSubdirs(w, q) <==> AllHaveInfo(w, q)
    decreases |Below(w, q)|, 1
  {
    ListedChildren(w, q);
    var names := ReadDir(w, q).value;
    CheckEntriesIff(w, q, names);
    AllHaveInfoSplit(w, q);
  }

  /** The loop succeeds exactly when each listed name satisfies the condition. */
  lemma {:induction false} CheckEntriesIff(w: World, q: Path, names: seq<string>)
    requires WF(w) && q in w && w[q].Dir?
    requires forall i :: 0 <= i < |names| ==> q + [names[i]] in w
    ensures CheckEntries(w, q, names) <==> forall i :: 0 <= i < |names| ==> ChildOk(w, q, names[i])
    decreases |Below(w, q)|, 0, |names|
  {
    if names != [] {
      var n := names[0];
      ChildLocates(w, q, n);
      if w[q + [n]].Dir? && !Hidden(n) {
        BelowShrinks(w, q, n);
        CheckSubdirsIff(w, q + [n]);
      }
      CheckEntriesIff(w, q, names[1..]);
      assert forall i :: 1 <= i < |names| ==> names[i] == names[1..][i - 1];
    }
  }
}
