/**
 * `find_home`: the directory of a sekai whose record says `HOME`. It looks at the start
 * directory's record, then at the records of the start directory's subdirectories in
 * listing order. The enclosing loop is written to climb towards the filesystem root, but
 * it stops after its first pass because the directory it compares against is the one it
 * started from.
 */
module FindRoot {
  import opened Wrappers
  import opened Paths
  import opened Fs
  import opened InfoReader

  /** The loop bound of `find_home`. */
  const MAX_DEPTH := 100

  /** The directory's record reads and validates, with location `HOME` (after trimming). */
  predicate IsHome(w: World, dir: Path) {
    ReadValidateInfo(w, InfoPath(dir)).Ok? && ReadValidateInfo(w, InfoPath(dir)).value.location == "HOME"
  }

  /** A listed name of `dir` that is a subdirectory other than `.dir_info` with a home record. */
  predicate HomeChild(w: World, dir: Path, n: string) {
    IsDir(w, dir + [n]) && n != DIR_INFO && IsHome(w, dir + [n])
  }

  /** The position of the first `true` in `b`, or `|b|` when there is none. */
  function FirstTrue(b: seq<bool>): (i: nat)
    ensures i <= |b|
    ensures forall j :: 0 <= j < i ==> !b[j]
    ensures i < |b| ==> b[i]
  {
    if b == [] then 0
    else if b[0] then 0
    else 1 + FirstTrue(b[1..])
  }

  /** Which listed names are home subdirectories. */
  function HomeMarks(w: World, dir: Path, names: seq<string>): (m: seq<bool>)
    ensures |m| == |names|
    ensures forall i :: 0 <= i < |names| ==> m[i] == HomeChild(w, dir, names[i])
  {
    seq(|names|, i requires 0 <= i < |names| => HomeChild(w, dir, names[i]))
  }

  /** The loop over the listing: the first entry that is a home subdirectory. */
  function FirstHomeChild(w: World, dir: Path, names: seq<string>): (r: Option<Path>)
    ensures r.None? <==> forall i :: 0 <= i < |names| ==> !HomeChild(w, dir, names[i])
    ensures r.Some? ==> exists i :: (0 <= i < |names| && HomeChild(w, dir, names[i])
      && r.value == dir + [names[i]]
      && forall j :: 0 <= j < i ==> !HomeChild(w, dir, names[j]))
  {
    var i := FirstTrue(HomeMarks(w, dir, names));
    if i < |names| then Some(dir + [names[i]]) else None
  }

  /** One pass of the loop: the directory's own record, then its subdirectories' records. */
  function Pass(w: World, current: Path): Option<Path> {
    if IsHome(w, current) then Some(current)
    else match ReadDir(w, current)
      case Ok(names) => FirstHomeChild(w, current, names)
      case Err(_) => None
  }

  /**
   * The loop of `find_home` from `current` at `depth`: a pass, then a stop when `current`
   * is the start directory, otherwise a step to the parent (`PathBuf::pop`, which fails at
   * the filesystem root).
   */
  function Search(w: World, sekai: Path, current: Path, depth: nat): Option<Path>
    decreases MAX_DEPTH - depth
  {
    if depth >= MAX_DEPTH then None
    else match Pass(w, current)
      case Some(p) => Some(p)
      case None =>
        if current == sekai then None
        else if current == [] then None
        else Search(w, sekai, current[..|current| - 1], depth + 1)
  }

  /**
   * `find_home(sekai_path)`: the start directory if its record says `HOME`; otherwise the
   * first subdirectory in listing order whose record does; otherwise nothing. It never
   * looks above the start directory or more than one level below it.
   */
  function FindHome(w: World, sekai: Path): (r: Option<Path>)
    ensures IsHome(w, sekai) ==> r == Some(sekai)
    ensures !IsHome(w, sekai) ==>
      (r.Some? <==> IsDir(w, sekai) && exists n :: n in ReadDir(w, sekai).value && HomeChild(w, sekai, n))
    ensures r.Some? && r.value != sekai ==> IsDir(w, sekai) && var names := ReadDir(w, sekai).value;
      exists i :: (0 <= i < |names| && HomeChild(w, sekai, names[i])
        && r.value == sekai + [names[i]]
        && forall j :: 0 <= j < i ==> !HomeChild(w, sekai, names[j]))
  {
    Search(w, sekai, sekai, 0)
  }
}
