/**
 * The path-resolution layer of src/CloudDrive/CloudDrive.php, built on the
 * node cache: rebuilding a node's remote path from its parents[0] chain,
 * resolving a path back to a node, finding the root, the existence check used
 * before uploads, the upload decision itself, and creating a directory path
 * folder by folder. Remote calls (creating a folder, uploading, overwriting)
 * are oracles passed in as functions; the local file's MD5 is an input.
 */
module Drive {
  import opened Wrappers
  import Php
  import Counting
  import opened NodeStore

  /** The exceptions the resolver throws, plus the model's own `Unterminated`. */
  datatype Error =
    | NoParentNode      // buildNodePath: "No parent node found with ID ..."
    | NoRootByName      // getRootNode: no node named ROOT at all
    | NoRootNode        // getRootNode: "Unable to find root node."
    | Unterminated      // the parents[0] chain never reaches a root: the source loops forever

  // -----------------------------------------------------------------------
  // buildNodePath

  /** The node findNodeById returns for `n.parents[0]` (none when n has no parents). */
  function ParentOf(rows: map<string, Row>, n: Node): Option<Node>
  {
    if |n.parents| > 0 && n.parents[0] in rows then Some(rows[n.parents[0]].raw) else None
  }

  /** Puts names in front of a successful walk. */
  function Prepend(names: seq<string>, w: Result<seq<string>, Error>): Result<seq<string>, Error>
  {
    match w
    case Ok(ns) => Ok(names + ns)
    case Err(e) => Err(e)
  }

  /**
   * The names buildNodePath collects for a node that is not itself the root:
   * its own name, then the names of its parents[0] ancestors, stopping below
   * the first root. At most `fuel` ancestors beyond the first are visited.
   */
  function Climb(rows: map<string, Row>, n: Node, fuel: nat): Result<seq<string>, Error>
    decreases fuel
  {
    match ParentOf(rows, n)
    case None => Err(NoParentNode)
    case Some(p) =>
      if p.isRoot then Ok([n.name])
      else if fuel == 0 then Err(Unterminated)
      else Prepend([n.name], Climb(rows, p, fuel - 1))
  }

  /** buildNodePath: a root's own name; otherwise the collected names, root side first, joined with '/'. */
  function PathOf(rows: map<string, Row>, n: Node, fuel: nat): Result<string, Error>
  {
    if n.isRoot then Ok(n.name)
    else
      match Climb(rows, n, fuel)
      case Ok(ns) => Ok(Php.Implode("/", Php.Reverse(ns)))
      case Err(e) => Err(e)
  }

  /** The fuel the model gives every walk: one step per stored node. */
  function Fuel(rows: map<string, Row>): nat
  {
    |rows|
  }

  /** Prepending nothing changes nothing. */
  lemma PrependNothing(w: Result<seq<string>, Error>)
    ensures Prepend([], w) == w
  {
    if w.Ok? {
      assert [] + w.value == w.value;
    }
  }

  /** Prepending twice is prepending the concatenation. */
  lemma PrependPrepend(a: seq<string>, b: seq<string>, w: Result<seq<string>, Error>)
    ensures Prepend(a, Prepend(b, w)) == Prepend(a + b, w)
  {
    if w.Ok? {
      assert a + (b + w.value) == (a + b) + w.value;
    }
  }

  /** The node k steps up the parents[0] chain of n, if every step on the way is stored. */
  function Ancestor(rows: map<string, Row>, n: Node, k: nat): Option<Node>
  {
    if k == 0 then Some(n)
    else
      match Ancestor(rows, n, k - 1)
      case None => None
      case Some(a) => ParentOf(rows, a)
  }

  /** Starting one step higher shifts the chain by one. */
  lemma {:induction false} AncestorShift(rows: map<string, Row>, n: Node, p: Node, k: nat)
    requires ParentOf(rows, n) == Some(p)
    ensures Ancestor(rows, n, k + 1) == Ancestor(rows, p, k)
  {
    if k > 0 {
      AncestorShift(rows, n, p, k - 1);
    }
  }

  /**
   * The walk runs out of fuel exactly when the first fuel + 1 ancestors are
   * all stored and none of them is a root.
   */
  lemma {:induction false} ClimbUnterminated(rows: map<string, Row>, n: Node, fuel: nat)
    ensures Climb(rows, n, fuel) == Err(Unterminated) <==>
            forall k :: 1 <= k <= fuel + 1 ==>
              Ancestor(rows, n, k).Some? && !Ancestor(rows, n, k).value.isRoot
    decreases fuel
  {
    assert Ancestor(rows, n, 1) == ParentOf(rows, n);
    match ParentOf(rows, n)
    case None =>
    case Some(p) =>
      if !p.isRoot && fuel > 0 {
        ClimbUnterminated(rows, p, fuel - 1);
        forall k | 1 <= k <= fuel + 1
          ensures Ancestor(rows, n, k) == Ancestor(rows, p, k - 1)
        {
          AncestorShift(rows, n, p, k - 1);
        }
        if Climb(rows, p, fuel - 1) == Err(Unterminated) {
          forall k | 1 <= k <= fuel + 1
            ensures Ancestor(rows, n, k).Some? && !Ancestor(rows, n, k).value.isRoot
          {
            if k > 1 {
              assert 1 <= k - 1 <= fuel;
              assert Ancestor(rows, p, k - 1).Some? && !Ancestor(rows, p, k - 1).value.isRoot;
            }
          }
        } else {
          var k :| 1 <= k <= fuel && !(Ancestor(rows, p, k).Some? && !Ancestor(rows, p, k).value.isRoot);
          assert Ancestor(rows, n, k + 1) == Ancestor(rows, p, k);
          assert !(Ancestor(rows, n, k + 1).Some? && !Ancestor(rows, n, k + 1).value.isRoot);
          match Climb(rows, p, fuel - 1)
          case Ok(ns) =>
          case Err(e) => assert e != Unterminated;
        }
      }
  }

  /** Once a walk ends within some fuel, more fuel gives the same answer. */
  lemma {:induction false} ClimbFuelMonotone(rows: map<string, Row>, n: Node, fuel: nat, more: nat)
    requires fuel <= more
    requires Climb(rows, n, fuel) != Err(Unterminated)
    ensures Climb(rows, n, more) == Climb(rows, n, fuel)
    decreases fuel
  {
    match ParentOf(rows, n)
    case None =>
    case Some(p) =>
      if !p.isRoot {
        ClimbFuelMonotone(rows, p, fuel - 1, more - 1);
      }
  }

  /** Two equal points on a chain continue identically. */
  lemma {:induction false} AncestorPeriodic(rows: map<string, Row>, n: Node, a: nat, b: nat, t: nat)
    requires Ancestor(rows, n, a) == Ancestor(rows, n, b)
    ensures Ancestor(rows, n, a + t) == Ancestor(rows, n, b + t)
  {
    if t > 0 {
      AncestorPeriodic(rows, n, a, b, t - 1);
    }
  }

  /** Every ancestor after the start is a stored node, found under its own id. */
  lemma AncestorStored(rows: map<string, Row>, n: Node, k: nat)
    requires RowsValid(rows)
    requires k >= 1 && Ancestor(rows, n, k).Some?
    ensures Ancestor(rows, n, k).value.id in rows
    ensures rows[Ancestor(rows, n, k).value.id].raw == Ancestor(rows, n, k).value
  {
  }

  /** More stored ancestors than stored nodes: two of the steps land on the same node. */
  lemma {:induction false} RepeatedAncestor(rows: map<string, Row>, n: Node)
    requires RowsValid(rows)
    requires forall k :: 1 <= k <= Fuel(rows) + 1 ==> Ancestor(rows, n, k).Some?
    ensures exists a, b :: 1 <= a < b <= Fuel(rows) + 1 && Ancestor(rows, n, a) == Ancestor(rows, n, b)
  {
    var r := Fuel(rows);
    var ids := seq(r + 1, i requires 0 <= i < r + 1 => AncestorId(rows, n, i + 1));
    forall i | 0 <= i < r + 1
      ensures ids[i] in rows.Keys
    {
      AncestorStored(rows, n, i + 1);
    }
    assert |rows.Keys| == r;
    var i, j := Counting.RepeatedPair(ids, rows.Keys);
    SameIdSameAncestor(rows, n, i + 1, j + 1);
  }

  /** Two stored ancestors with the same id are the same node. */
  lemma SameIdSameAncestor(rows: map<string, Row>, n: Node, a: nat, b: nat)
    requires RowsValid(rows)
    requires a >= 1 && b >= 1 && Ancestor(rows, n, a).Some? && Ancestor(rows, n, b).Some?
    requires AncestorId(rows, n, a) == AncestorId(rows, n, b)
    ensures Ancestor(rows, n, a) == Ancestor(rows, n, b)
  {
    AncestorStored(rows, n, a);
    AncestorStored(rows, n, b);
  }

  /** The id of the k-th ancestor, when there is one. */
  function AncestorId(rows: map<string, Row>, n: Node, k: nat): string
  {
    match Ancestor(rows, n, k)
    case Some(a) => a.id
    case None => ""
  }

  /**
   * The fuel of one step per stored node loses nothing. When the model's walk
   * runs out of it, the parents[0] chain is cyclic and never meets a root or a
   * missing parent, so the source's `while (true)` loop never ends.
   */
  lemma {:induction false} UnterminatedMeansCycle(rows: map<string, Row>, n: Node)
    requires RowsValid(rows)
    requires Climb(rows, n, Fuel(rows)) == Err(Unterminated)
    ensures forall k :: k >= 1 ==> Ancestor(rows, n, k).Some? && !Ancestor(rows, n, k).value.isRoot
  {
    var r := Fuel(rows);
    ClimbUnterminated(rows, n, r);
    RepeatedAncestor(rows, n);
    var a, b :| 1 <= a < b <= r + 1 && Ancestor(rows, n, a) == Ancestor(rows, n, b);
    forall k | k >= 1
      ensures Ancestor(rows, n, k).Some? && !Ancestor(rows, n, k).value.isRoot
    {
      CyclicChainNeverEnds(rows, n, r, a, b, k);
    }
  }

  /** When the walk ends within the model's fuel, no amount of extra fuel changes its answer. */
  lemma TerminatedIsFinal(rows: map<string, Row>, n: Node, more: nat)
    requires Climb(rows, n, Fuel(rows)) != Err(Unterminated)
    requires more >= Fuel(rows)
    ensures Climb(rows, n, more) == Climb(rows, n, Fuel(rows))
  {
    ClimbFuelMonotone(rows, n, Fuel(rows), more);
  }

  /** On a chain that repeats between steps a < b, every later step repeats an earlier one. */
  lemma {:induction false} CyclicChainNeverEnds(rows: map<string, Row>, n: Node, r: nat, a: nat, b: nat, k: nat)
    requires 1 <= a < b <= r + 1
    requires forall m :: 1 <= m <= r + 1 ==> Ancestor(rows, n, m).Some? && !Ancestor(rows, n, m).value.isRoot
    requires Ancestor(rows, n, a) == Ancestor(rows, n, b)
    requires k >= 1
    ensures Ancestor(rows, n, k).Some? && !Ancestor(rows, n, k).value.isRoot
    decreases k
  {
    if k > r + 1 {
      var t := k - b;
      AncestorPeriodic(rows, n, a, b, t);
      CyclicChainNeverEnds(rows, n, r, a, b, a + t);
    }
  }

  // -----------------------------------------------------------------------
  // getPathArray, getPathString

  /** The characters `trim($path, '/')` strips. */
  const Slash: set<char> := {'/'}

  /** The array getPathArray builds from a string: `array_filter(explode('/', $path))`, keys kept. */
  function PathEntries(path: string): seq<Php.Entry>
  {
    Php.ArrayFilter(Php.Enumerate(Php.Explode('/', path), 0), (x: string) => !Php.Falsy(x))
  }

  /** getPathArray: an array is returned as it is; a string is split on '/' without its falsy pieces. */
  function GetPathArray(path: Php.PathArg): (r: seq<string>)
    ensures path.PathList? ==> r == path.items
    ensures path.PathText? ==> r == Php.FilterSeq(Php.Explode('/', path.text), (x: string) => !Php.Falsy(x))
  {
    match path
    case PathList(items) => items
    case PathText(text) =>
      Php.ValuesOfFilter(Php.Explode('/', text), 0, (x: string) => !Php.Falsy(x));
      Php.Values(PathEntries(text))
  }

  /** getPathString: a string loses its leading and trailing '/'; an array is joined and trimmed of white space. */
  function GetPathString(path: Php.PathArg): (r: string)
    ensures path.PathText? ==> |r| > 0 ==> r[0] != '/' && r[|r| - 1] != '/'
    ensures path.PathList? ==> |r| > 0 ==> r[0] !in Php.DefaultTrimChars && r[|r| - 1] !in Php.DefaultTrimChars
  {
    match path
    case PathText(text) =>
      TrimmedEnds(text, Slash);
      Php.Trim(text, Slash)
    case PathList(items) =>
      var joined := Php.Implode("/", items);
      TrimmedEnds(joined, Php.DefaultTrimChars);
      Php.Trim(joined, Php.DefaultTrimChars)
  }

  /**
   * getPathString cuts only at the two ends, and only the characters it
   * trims: '/' from a string, white space from a joined array.
   */
  lemma GetPathStringCut(path: Php.PathArg)
    ensures path.PathText? ==> exists i :: Php.CutAt(path.text, GetPathString(path), i, Slash)
    ensures path.PathList? ==>
              exists i :: Php.CutAt(Php.Implode("/", path.items), GetPathString(path), i, Php.DefaultTrimChars)
  {
    match path
    case PathText(text) =>
      Php.TrimCut(text, Slash);
      assert GetPathString(path) == Php.Trim(text, Slash);
      assert Php.CutAt(text, GetPathString(path), |text| - |Php.TrimLeft(text, Slash)|, Slash);
    case PathList(items) =>
      var joined := Php.Implode("/", items);
      Php.TrimCut(joined, Php.DefaultTrimChars);
      assert GetPathString(path) == Php.Trim(joined, Php.DefaultTrimChars);
      assert Php.CutAt(joined, GetPathString(path), |joined| - |Php.TrimLeft(joined, Php.DefaultTrimChars)|,
                       Php.DefaultTrimChars);
  }

  /** Nothing `trim($s, $chars)` would strip is left at either end. */
  lemma TrimmedEnds(s: string, chars: set<char>)
    ensures var r := Php.Trim(s, chars); |r| > 0 ==> r[0] !in chars && r[|r| - 1] !in chars
  {
    Php.TrimEnds(s, chars);
  }

  /** The folder path uploadFile works with: `getPathString(getPathArray($remotePath))`. */
  function UploadTarget(remotePath: string): string
  {
    GetPathString(Php.PathList(GetPathArray(Php.PathText(remotePath))))
  }

  /** Every element of a string's path array is truthy and holds no '/'. */
  lemma PathEntriesClean(path: string)
    ensures forall e :: e in PathEntries(path) ==> !Php.Falsy(e.value) && '/' !in e.value
  {
    var pieces := Php.Explode('/', path);
    Php.ExplodePiecesFree('/', path);
    forall e | e in PathEntries(path)
      ensures !Php.Falsy(e.value) && '/' !in e.value
    {
      var all := Php.Enumerate(pieces, 0);
      assert e in all;
      var i :| 0 <= i < |all| && all[i] == e;
      assert e.value == pieces[i];
    }
  }

  // -----------------------------------------------------------------------
  // findNodeByPath, getRootNode

  /** `pathinfo($path)['basename']`: what follows the last '/'. */
  function Basename(path: string): string
  {
    var parts := Php.Explode('/', path);
    parts[|parts| - 1]
  }

  /** The root findNodeByPath and getRootNode may return: a stored node named ROOT flagged as root. */
  ghost predicate IsRootIn(rows: map<string, Row>, x: Node)
  {
    x in Stored(rows) && x.name == RootName && x.isRoot
  }

  /** findNodeByPath's loop: the first candidate whose rebuilt path is `path`; a failing rebuild throws. */
  function FirstPathMatch(rows: map<string, Row>, candidates: seq<Node>, path: string): Result<Option<Node>, Error>
  {
    if |candidates| == 0 then Ok(None)
    else
      match PathOf(rows, candidates[0], Fuel(rows))
      case Err(e) => Err(e)
      case Ok(q) => if q == path then Ok(Some(candidates[0])) else FirstPathMatch(rows, candidates[1..], path)
  }

  /**
   * What the first-match search returns: a candidate whose path is `path` and
   * before which every candidate rebuilt to another path; nothing exactly when
   * every candidate rebuilds to another path; an error some candidate raised.
   */
  lemma {:induction false} FirstPathMatchMeaning(rows: map<string, Row>, candidates: seq<Node>, path: string)
    ensures var r := FirstPathMatch(rows, candidates, path);
            (r == Ok(None) <==>
               forall x :: x in candidates ==> PathOf(rows, x, Fuel(rows)).Ok? && PathOf(rows, x, Fuel(rows)).value != path) &&
            (r.Ok? && r.value.Some? ==>
               exists i :: 0 <= i < |candidates| && candidates[i] == r.value.value &&
                 PathOf(rows, candidates[i], Fuel(rows)) == Ok(path) &&
                 forall j :: 0 <= j < i ==> PathOf(rows, candidates[j], Fuel(rows)).Ok? && PathOf(rows, candidates[j], Fuel(rows)).value != path) &&
            (r.Err? ==> exists x :: x in candidates && PathOf(rows, x, Fuel(rows)) == Err(r.error))
  {
    if |candidates| > 0 {
      var rest := candidates[1..];
      FirstPathMatchMeaning(rows, rest, path);
      assert forall x :: x in candidates <==> x == candidates[0] || x in rest;
      var r := FirstPathMatch(rows, rest, path);
      if PathOf(rows, candidates[0], Fuel(rows)).Ok? && PathOf(rows, candidates[0], Fuel(rows)).value != path && r.Ok? && r.value.Some? {
        var i :| 0 <= i < |rest| && rest[i] == r.value.value &&
                 PathOf(rows, rest[i], Fuel(rows)) == Ok(path) &&
                 forall j :: 0 <= j < i ==> PathOf(rows, rest[j], Fuel(rows)).Ok? && PathOf(rows, rest[j], Fuel(rows)).value != path;
        assert candidates[i + 1] == rest[i];
        forall j | 0 <= j < i + 1
          ensures PathOf(rows, candidates[j], Fuel(rows)).Ok? && PathOf(rows, candidates[j], Fuel(rows)).value != path
        {
          if j > 0 {
            assert candidates[j] == rest[j - 1];
          }
        }
      }
    }
  }

  /** findNodeByPath(path) returns null: the trimmed path is truthy and no same-named stored node rebuilds to it. */
  ghost predicate PathAbsent(rows: map<string, Row>, path: string)
  {
    !Php.Falsy(Php.Trim(path, Slash)) && Unmatched(rows, Php.Trim(path, Slash))
  }

  /** No stored node named like the last segment of p rebuilds to p. */
  ghost predicate Unmatched(rows: map<string, Row>, p: string)
  {
    forall x :: x in Stored(rows) && x.name == Basename(p) ==> RebuildsElsewhere(rows, x, p)
  }

  /** buildNodePath(x) succeeds with a path other than p. */
  ghost predicate RebuildsElsewhere(rows: map<string, Row>, x: Node, p: string)
  {
    PathOf(rows, x, Fuel(rows)).Ok? && PathOf(rows, x, Fuel(rows)).value != p
  }

  /** buildNodePath of a stored node named like the last segment of p throws e, as findNodeByPath(p) then may. */
  ghost predicate RebuildFails(rows: map<string, Row>, p: string, e: Error)
  {
    exists x :: x in Stored(rows) && x.name == Basename(p) && PathOf(rows, x, Fuel(rows)) == Err(e)
  }

  /** n is what findNodeByPath finds for the trimmed path p: the root for a falsy p, else a stored node at p. */
  ghost predicate FoundAt(rows: map<string, Row>, p: string, n: Node)
  {
    if Php.Falsy(p) then IsRootIn(rows, n)
    else n in Stored(rows) && n.name == Basename(p) && PathOf(rows, n, Fuel(rows)) == Ok(p)
  }

  /**
   * What nodeExists(path) reports in the cache `rows`: a path match exactly
   * when findNodeByPath finds a node, which is then the node reported (an MD5
   * match when the checksums agree); otherwise an MD5 match, and success,
   * exactly when a stored node has the local checksum.
   */
  ghost predicate ExistenceAt(rows: map<string, Row>, path: string, localMd5: Option<string>, e: Existence)
  {
    (e.pathMatch <==> !PathAbsent(rows, path)) &&
    (e.pathMatch ==>
       e.success && e.node.Some? && FoundAt(rows, Php.Trim(path, Slash), e.node.value) &&
       (e.md5Match <==> localMd5.Some? && e.node.value.md5 == localMd5)) &&
    (!e.pathMatch ==>
       e.node.None? && e.success == e.md5Match &&
       (e.md5Match <==> localMd5.Some? && exists x :: x in Stored(rows) && x.md5 == localMd5))
  }

  /**
   * Where an exception of nodeExists(path) comes from: getRootNode for a
   * falsy trimmed path, a failing rebuild of a same-named node, or the
   * rebuild of the node found by checksum when nothing is at the path.
   */
  ghost predicate ExistenceFailed(rows: map<string, Row>, path: string, localMd5: Option<string>, e: Error)
  {
    var p := Php.Trim(path, Slash);
    (Php.Falsy(p) && (forall x :: !IsRootIn(rows, x)) && (e == NoRootByName || e == NoRootNode)) ||
    (!Php.Falsy(p) && RebuildFails(rows, p, e)) ||
    (PathAbsent(rows, path) && localMd5.Some? &&
     exists x :: x in Stored(rows) && x.md5 == localMd5 && PathOf(rows, x, Fuel(rows)) == Err(e))
  }

  /** The first-match search over the same-named stored nodes, read as facts about the cache. */
  lemma ResolvedMeaning(rows: map<string, Row>, path: string, candidates: seq<Node>)
    requires !Php.Falsy(Php.Trim(path, Slash))
    requires Lists(candidates, set x | x in Stored(rows) && x.name == Basename(Php.Trim(path, Slash)))
    ensures var p := Php.Trim(path, Slash);
            var r := FirstPathMatch(rows, candidates, p);
            (r == Ok(None) <==> PathAbsent(rows, path)) &&
            (r.Ok? && r.value.Some? ==>
               r.value.value in Stored(rows) && r.value.value.name == Basename(p) &&
               PathOf(rows, r.value.value, Fuel(rows)) == Ok(p)) &&
            (r.Err? ==> RebuildFails(rows, p, r.error))
  {
    var p := Php.Trim(path, Slash);
    FirstPathMatchMeaning(rows, candidates, p);
    var r := FirstPathMatch(rows, candidates, p);
    if r.Err? {
      var x :| x in candidates && PathOf(rows, x, Fuel(rows)) == Err(r.error);
      assert x in Stored(rows) && x.name == Basename(p);
    }
    if r.Ok? && r.value.Some? {
      var i :| 0 <= i < |candidates| && candidates[i] == r.value.value && PathOf(rows, candidates[i], Fuel(rows)) == Ok(p);
      assert candidates[i] in candidates;
    }
  }

  // -----------------------------------------------------------------------
  // createDirectoryPath

  /** The folders are what getPathArray keeps of a string: truthy names without '/'. */
  predicate CleanSegments(segments: seq<Php.Entry>)
  {
    forall e :: e in segments ==> !Php.Falsy(e.value) && '/' !in e.value
  }

  /** The first n folders, joined with '/'. */
  function Prefix(segments: seq<Php.Entry>, n: nat): string
    requires n <= |segments|
  {
    Php.Implode("/", Php.Values(segments[..n]))
  }

  /** The prefix createDirectoryPath evidently means to look up at position i: the first i + 1 folders. */
  function Probe(segments: seq<Php.Entry>, i: nat): (r: string)
    requires i < |segments|
    ensures CleanSegments(segments) ==> Php.Explode('/', r) == Php.Values(segments[..i + 1])
  {
    if CleanSegments(segments) then
      PrefixFacts(segments, i + 1);
      Prefix(segments, i + 1)
    else Prefix(segments, i + 1)
  }

  /**
   * `array_slice($path, 0, $index + 1)`: the slice length is the foreach key,
   * which array_filter left as the position in the unfiltered split, while
   * array_slice counts positions and stops at the end of the array.
   */
  function SliceLength(segments: seq<Php.Entry>, i: nat): (n: nat)
    requires i < |segments|
    ensures 1 <= n <= |segments|
    ensures n == |segments| || n == segments[i].key + 1
  {
    if segments[i].key + 1 <= |segments| then segments[i].key + 1 else |segments|
  }

  /**
   * The prefix createDirectoryPath looks up at position i as written: it
   * splits back into the first folders of the path, and it is the intended
   * prefix whenever the keys are the positions.
   */
  function ProbeAsWritten(segments: seq<Php.Entry>, i: nat): (r: string)
    requires i < |segments|
    ensures CleanSegments(segments) ==>
              Php.Explode('/', r) == Php.Values(segments[..SliceLength(segments, i)])
    ensures Php.IsList(segments) ==> r == Probe(segments, i)
  {
    SliceFacts(segments, i);
    Prefix(segments, SliceLength(segments, i))
  }

  lemma SliceFacts(segments: seq<Php.Entry>, i: nat)
    requires i < |segments|
    ensures CleanSegments(segments) ==>
              Php.Explode('/', Prefix(segments, SliceLength(segments, i))) == Php.Values(segments[..SliceLength(segments, i)])
    ensures Php.IsList(segments) ==> Prefix(segments, SliceLength(segments, i)) == Probe(segments, i)
  {
    var n := SliceLength(segments, i);
    if CleanSegments(segments) {
      PrefixFacts(segments, n);
    }
    if Php.IsList(segments) {
      SliceOnList(segments, i);
      assert Probe(segments, i) == Prefix(segments, i + 1);
    }
  }

  /** On a list the slice at position i holds the first i + 1 folders. */
  lemma SliceOnList(segments: seq<Php.Entry>, i: nat)
    requires i < |segments|
    ensures Php.IsList(segments) ==> SliceLength(segments, i) == i + 1
  {
  }

  /** When the keys are the positions (no piece was dropped) both probes agree. */
  lemma ProbeAsWrittenOnList(segments: seq<Php.Entry>, i: nat)
    requires i < |segments| && Php.IsList(segments)
    ensures ProbeAsWritten(segments, i) == Probe(segments, i)
  {
  }

  /** A leading '/' shifts the keys: the first probe of "/a/b" is "a/b" instead of "a". */
  lemma LeadingSlashProbe()
    ensures PathEntries("/a/b") == [Php.Entry(1, "a"), Php.Entry(2, "b")]
    ensures ProbeAsWritten(PathEntries("/a/b"), 0) == "a/b"
    ensures Probe(PathEntries("/a/b"), 0) == "a"
  {
    SplitLeadingSlash();
    var all := Php.Enumerate(["", "a", "b"], 0);
    assert all == [Php.Entry(0, ""), Php.Entry(1, "a"), Php.Entry(2, "b")];
    FilterLeadingSlash(all);
    var segments := [Php.Entry(1, "a"), Php.Entry(2, "b")];
    assert PathEntries("/a/b") == segments;
    JoinTwo(segments);
  }

  lemma JoinTwo(segments: seq<Php.Entry>)
    requires segments == [Php.Entry(1, "a"), Php.Entry(2, "b")]
    ensures ProbeAsWritten(segments, 0) == "a/b"
    ensures Probe(segments, 0) == "a"
  {
    assert SliceLength(segments, 0) == 2;
    assert segments[..2] == segments;
    assert Php.Values(segments) == ["a", "b"];
    assert Php.Values(segments[..1]) == ["a"];
    var two := ["a", "b"];
    assert two[..1] == ["a"];
    assert Php.Implode("/", two) == "a" + "/" + "b";
  }

  lemma SplitLeadingSlash()
    ensures Php.Explode('/', "/a/b") == ["", "a", "b"]
  {
    var parts := ["", "a", "b"];
    assert parts[..2] == ["", "a"] && parts[..2][..1] == [""];
    assert Php.Implode("/", parts) == "" + "/" + "a" + "/" + "b" == "/a/b";
    assert ['/'] == "/";
    assert forall i :: 0 <= i < |parts| ==> '/' !in parts[i];
    Php.ExplodeImplode('/', parts);
  }

  lemma FilterLeadingSlash(all: seq<Php.Entry>)
    requires all == [Php.Entry(0, ""), Php.Entry(1, "a"), Php.Entry(2, "b")]
    ensures Php.ArrayFilter(all, (x: string) => !Php.Falsy(x)) == [Php.Entry(1, "a"), Php.Entry(2, "b")]
  {
    var keep := (x: string) => !Php.Falsy(x);
    assert all[1..][1..][1..] == [];
    assert Php.ArrayFilter(all[1..][1..], keep) == [Php.Entry(2, "b")];
    assert Php.ArrayFilter(all[1..], keep) == [Php.Entry(1, "a"), Php.Entry(2, "b")];
  }

  /** The lookup a remote folder request answers: a node on success, an error body otherwise. */
  datatype Response = Success(node: Node) | Failure(body: string)

  /** What nodeExists reports: its success flag, the two match flags and the node at the path. */
  datatype Existence = Existence(success: bool, pathMatch: bool, md5Match: bool, node: Option<Node>)

  /** How uploadFile ended. */
  datatype UploadAction =
    | DirectoryFailed   // createDirectoryPath's failure response is returned
    | AlreadyExists     // nodeExists succeeded and overwriting was not asked for
    | IdenticalExists   // overwriting was asked for, but the checksums agree
    | Overwrote         // the existing node's content was replaced
    | Uploaded          // nothing existed: the file was posted under the folder

  /** uploadFile's success flag and what it did. */
  datatype Upload = Upload(success: bool, action: UploadAction)

  /** One createFolder request made by createDirectoryPath: the folder's position and name, the parent's id, the answer. */
  datatype FolderCall = FolderCall(position: nat, name: string, parentId: string, answer: Response)

  /** What createDirectoryPath did for one folder: reused the cached node at the prefix, or asked the server. */
  datatype Step = Reused(node: Node) | Requested(call: FolderCall)

  /** A request the server refused: the loop returns its answer. */
  predicate Refused(s: Step)
  {
    s.Requested? && s.call.answer.Failure?
  }

  /** The nodes the successful requests answered with, in order. */
  function Created(steps: seq<Step>): seq<Node>
    decreases |steps|
  {
    if |steps| == 0 then []
    else
      var last := steps[|steps| - 1];
      Created(steps[..|steps| - 1]) + (if last.Requested? && last.call.answer.Success? then [last.call.answer.node] else [])
  }

  /** `$previousNode` after the steps: `start` at first, then the node the last step reused or was answered with. */
  function Reached(start: Node, steps: seq<Step>): Node
    decreases |steps|
  {
    if |steps| == 0 then start
    else
      match steps[|steps| - 1]
      case Reused(n) => n
      case Requested(c) => if c.answer.Success? then c.answer.node else Reached(start, steps[..|steps| - 1])
  }

  /** The cache after saving each of `nodes` in turn. */
  function SaveAll(rows: map<string, Row>, nodes: seq<Node>): map<string, Row>
    decreases |nodes|
  {
    if |nodes| == 0 then rows else Saved(SaveAll(rows, nodes[..|nodes| - 1]), nodes[|nodes| - 1])
  }

  /**
   * Step i in the cache `rows`, with `previous` reached before it: a reused
   * node is a stored node named like the probed prefix that rebuilds to it; a
   * request is made only when the prefix is absent, for the folder at i under
   * `previous`.
   */
  ghost predicate StepFits(rows: map<string, Row>, segments: seq<Php.Entry>, server: (string, string) -> Response,
                           i: nat, previous: Node, step: Step)
    requires i < |segments|
  {
    var probe := ProbeAsWritten(segments, i);
    match step
    case Reused(n) => n in Stored(rows) && n.name == Basename(probe) && PathOf(rows, n, Fuel(rows)) == Ok(probe)
    case Requested(c) =>
      c == FolderCall(i, segments[i].value, previous.id, server(segments[i].value, previous.id)) &&
      PathAbsent(rows, probe)
  }

  /**
   * The steps are createDirectoryPath's, from the cache `rows0` and the node
   * `start`: one per folder in order, each fitting the cache and the node the
   * earlier steps left, and only the last one refused.
   */
  ghost predicate Walked(rows0: map<string, Row>, segments: seq<Php.Entry>, server: (string, string) -> Response,
                         start: Node, steps: seq<Step>)
  {
    |steps| <= |segments| &&
    (forall k | 0 <= k < |steps| :: FitsAt(rows0, segments, server, start, steps, k)) &&
    (forall k | 0 <= k < |steps| - 1 :: !Refused(steps[k]))
  }

  /** Step k of the steps fits the cache the earlier steps left and the node they reached. */
  ghost predicate FitsAt(rows0: map<string, Row>, segments: seq<Php.Entry>, server: (string, string) -> Response,
                         start: Node, steps: seq<Step>, k: nat)
    requires k < |steps| <= |segments|
  {
    StepFits(SaveAll(rows0, Created(steps[..k])), segments, server, k, Reached(start, steps[..k]), steps[k])
  }

  /** Whether step k fits depends only on the steps up to k. */
  lemma SameFit(rows0: map<string, Row>, segments: seq<Php.Entry>, server: (string, string) -> Response,
                start: Node, short: seq<Step>, steps: seq<Step>, k: nat)
    requires k < |short| <= |steps| <= |segments| && short == steps[..|short|]
    ensures FitsAt(rows0, segments, server, start, short, k) <==> FitsAt(rows0, segments, server, start, steps, k)
  {
    assert short[..k] == steps[..k] && short[k] == steps[k];
  }

  /** A walk's first steps are a walk. */
  lemma WalkedPrefix(rows0: map<string, Row>, segments: seq<Php.Entry>,
                     server: (string, string) -> Response, start: Node, steps: seq<Step>, n: nat)
    requires Walked(rows0, segments, server, start, steps) && n <= |steps|
    ensures Walked(rows0, segments, server, start, steps[..n])
  {
    var upTo := steps[..n];
    forall k | 0 <= k < n
      ensures FitsAt(rows0, segments, server, start, upTo, k)
    {
      SameFit(rows0, segments, server, start, upTo, steps, k);
    }
    forall k | 0 <= k < n - 1
      ensures !Refused(upTo[k])
    {
      assert upTo[k] == steps[k];
    }
  }

  /**
   * What createDirectoryPath does at each position k of a walk, in the cache
   * as the earlier steps left it: it asks the server exactly when the prefix
   * is absent, for the folder at k under the node reached at k - 1 (the start
   * node at 0); otherwise it goes on from a node that rebuilds to the prefix.
   * Every request but the last was answered with a node.
   */
  lemma StepMeaning(rows0: map<string, Row>, segments: seq<Php.Entry>, server: (string, string) -> Response,
                    start: Node, steps: seq<Step>, k: nat)
    requires Walked(rows0, segments, server, start, steps) && k < |steps|
    requires CleanSegments(segments)
    ensures var rows := SaveAll(rows0, Created(steps[..k]));
            var probe := ProbeAsWritten(segments, k);
            k < |segments| &&
            (steps[k].Requested? <==> PathAbsent(rows, probe)) &&
            (steps[k].Requested? ==>
               steps[k].call.name == segments[k].value &&
               steps[k].call.parentId == Reached(start, steps[..k]).id &&
               steps[k].call.answer == server(segments[k].value, Reached(start, steps[..k]).id)) &&
            (steps[k].Reused? ==>
               steps[k].node in Stored(rows) && PathOf(rows, steps[k].node, Fuel(rows)) == Ok(probe))
    ensures k < |steps| - 1 ==> !Refused(steps[k])
  {
    var rows := SaveAll(rows0, Created(steps[..k]));
    var probe := ProbeAsWritten(segments, k);
    assert FitsAt(rows0, segments, server, start, steps, k);
    if steps[k].Reused? {
      assert !PathAbsent(rows, probe) by {
        PrefixFacts(segments, SliceLength(segments, k));
        assert !RebuildsElsewhere(rows, steps[k].node, probe);
      }
    }
  }

  /** Step k of a walk fits the cache the earlier steps left and the node they reached. */
  /**
   * Where a complete walk ends: at a node that rebuilds to the last probed
   * prefix, or at the node the server created for the last folder.
   */
  lemma WalkEnds(rows0: map<string, Row>, segments: seq<Php.Entry>, server: (string, string) -> Response,
                 start: Node, steps: seq<Step>)
    requires Walked(rows0, segments, server, start, steps)
    requires |steps| == |segments| > 0 && !Refused(steps[|steps| - 1])
    ensures var rows := SaveAll(rows0, Created(steps));
            var last := steps[|steps| - 1];
            var n := Reached(start, steps);
            (last.Reused? && n in Stored(rows) &&
             PathOf(rows, n, Fuel(rows)) == Ok(ProbeAsWritten(segments, |segments| - 1))) ||
            (last.Requested? && last.call.answer == Success(n) && last.call.name == segments[|segments| - 1].value)
  {
    var k := |steps| - 1;
    var init := steps[..k];
    assert FitsAt(rows0, segments, server, start, steps, k);
    if steps[k].Reused? {
      assert Created(steps) == Created(init) + [];
      assert Created(init) + [] == Created(init);
    }
  }

  /**
   * createDirectoryPath(path) succeeded with `node`: a complete walk over the
   * folders of the path from the root, no request refused, ending at `node`.
   */
  ghost predicate DirectoryMade(rows0: map<string, Row>, path: string, server: (string, string) -> Response,
                                steps: seq<Step>, root: Node, node: Node)
  {
    IsRootIn(rows0, root) &&
    Walked(rows0, PathEntries(path), server, root, steps) &&
    |steps| == |PathEntries(path)| && (|steps| > 0 ==> !Refused(steps[|steps| - 1])) &&
    node == Reached(root, steps)
  }

  /**
   * createDirectoryPath(path) threw e: there is no root, and no step was
   * taken, or the walk from the root stopped at a failing lookup.
   */
  ghost predicate DirectoryStopped(rows0: map<string, Row>, path: string, server: (string, string) -> Response,
                                   steps: seq<Step>, e: Error)
  {
    (steps == [] && (forall x :: !IsRootIn(rows0, x)) && (e == NoRootByName || e == NoRootNode)) ||
    exists root :: IsRootIn(rows0, root) && Walked(rows0, PathEntries(path), server, root, steps) &&
                   StoppedAt(rows0, PathEntries(path), steps, e)
  }

  /** createDirectoryPath(path) returned the refusal of its last request. */
  ghost predicate DirectoryRefused(rows0: map<string, Row>, path: string, server: (string, string) -> Response,
                                   steps: seq<Step>)
  {
    |steps| > 0 && Refused(steps[|steps| - 1]) &&
    exists root :: IsRootIn(rows0, root) && Walked(rows0, PathEntries(path), server, root, steps)
  }

  /**
   * The walk stopped at position |steps| with exception e: no request before
   * was refused, and rebuilding a node named like the folder probed there, in
   * the cache the steps left, throws e.
   */
  ghost predicate StoppedAt(rows0: map<string, Row>, segments: seq<Php.Entry>, steps: seq<Step>, e: Error)
  {
    |steps| < |segments| && (|steps| > 0 ==> !Refused(steps[|steps| - 1])) &&
    RebuildFails(SaveAll(rows0, Created(steps)), ProbeAsWritten(segments, |steps|), e)
  }

  /**
   * What holds after the first `i` folders of createDirectoryPath: the cache
   * holds every node created so far, the steps taken are a walk, a failure is
   * the last answer or a failed lookup, and otherwise the previous node is
   * the one the walk reached.
   */
  ghost predicate Progress(rows0: map<string, Row>, rows: map<string, Row>, segments: seq<Php.Entry>,
                           server: (string, string) -> Response, start: Node, i: nat, steps: seq<Step>,
                           failure: Option<Result<Response, Error>>, previous: Node, matched: Option<Node>)
  {
    i <= |segments| &&
    rows == SaveAll(rows0, Created(steps)) &&
    Walked(rows0, segments, server, start, steps) &&
    (failure.None? ==>
       |steps| == i && (i > 0 ==> !Refused(steps[i - 1])) && previous == Reached(start, steps) &&
       matched == (if i == 0 then None else Some(previous))) &&
    (failure.Some? && failure.value.Ok? ==>
       |steps| == i && i > 0 && Refused(steps[i - 1]) && failure.value.value == steps[i - 1].call.answer) &&
    (failure.Some? && failure.value.Err? ==>
       |steps| + 1 == i && previous == Reached(start, steps) && StoppedAt(rows0, segments, steps, failure.value.error))
  }

  /** A failed lookup ends the loop with the steps taken so far. */
  lemma ProgressStopped(rows0: map<string, Row>, rows: map<string, Row>, segments: seq<Php.Entry>,
                        server: (string, string) -> Response, start: Node, i: nat, steps: seq<Step>,
                        previous: Node, matched: Option<Node>, failure: Option<Result<Response, Error>>)
    requires i < |segments| && Progress(rows0, rows, segments, server, start, i, steps, None, previous, matched)
    requires failure.Some? && failure.value.Err?
    requires RebuildFails(rows, ProbeAsWritten(segments, i), failure.value.error)
    ensures Progress(rows0, rows, segments, server, start, i + 1, steps, failure, previous, matched)
  {
  }

  /** Appending a step that fits keeps a walk. */
  lemma WalkedAppend(rows0: map<string, Row>, segments: seq<Php.Entry>, server: (string, string) -> Response,
                     start: Node, steps: seq<Step>, step: Step)
    requires Walked(rows0, segments, server, start, steps) && |steps| < |segments|
    requires |steps| > 0 ==> !Refused(steps[|steps| - 1])
    requires StepFits(SaveAll(rows0, Created(steps)), segments, server, |steps|, Reached(start, steps), step)
    ensures Walked(rows0, segments, server, start, steps + [step])
  {
    var after := steps + [step];
    forall k | 0 <= k < |after|
      ensures FitsAt(rows0, segments, server, start, after, k)
    {
      if k < |steps| {
        assert after[..|steps|] == steps;
        SameFit(rows0, segments, server, start, steps, after, k);
      } else {
        assert after[..k] == steps;
      }
    }
    forall k | 0 <= k < |after| - 1
      ensures !Refused(after[k])
    {
      assert after[k] == steps[k];
    }
  }

  /**
   * A prefix found in the cache: its node, which rebuilds to the prefix,
   * becomes the previous node, without a request.
   */
  lemma ProgressFound(rows0: map<string, Row>, rows: map<string, Row>, segments: seq<Php.Entry>,
                      server: (string, string) -> Response, start: Node, i: nat, steps: seq<Step>,
                      previous: Node, matched: Option<Node>, n: Node)
    requires i < |segments| && Progress(rows0, rows, segments, server, start, i, steps, None, previous, matched)
    requires n in Stored(rows) && n.name == Basename(ProbeAsWritten(segments, i))
    requires PathOf(rows, n, Fuel(rows)) == Ok(ProbeAsWritten(segments, i))
    ensures Progress(rows0, rows, segments, server, start, i + 1, steps + [Reused(n)], None, n, Some(n))
  {
    var after := steps + [Reused(n)];
    assert Walked(rows0, segments, server, start, after) by {
      WalkedAppend(rows0, segments, server, start, steps, Reused(n));
    }
    assert Created(after) == Created(steps) by {
      assert after[..|after| - 1] == steps;
      assert Created(after) == Created(steps) + [];
    }
    assert Reached(start, after) == n && !Refused(after[i]) by {
      assert after[|after| - 1] == Reused(n);
    }
    Going(rows0, rows, segments, server, start, i + 1, after, n, Some(n));
  }

  /** The loop invariant after a step that was not refused. */
  lemma Going(rows0: map<string, Row>, rows: map<string, Row>, segments: seq<Php.Entry>,
              server: (string, string) -> Response, start: Node, i: nat, steps: seq<Step>,
              previous: Node, matched: Option<Node>)
    requires 0 < i <= |segments| && rows == SaveAll(rows0, Created(steps))
    requires Walked(rows0, segments, server, start, steps)
    requires |steps| == i && !Refused(steps[i - 1]) && previous == Reached(start, steps) && matched == Some(previous)
    ensures Progress(rows0, rows, segments, server, start, i, steps, None, previous, matched)
  {
  }

  /** A folder the server created under the previous node is cached and becomes the previous node. */
  lemma ProgressCreated(rows0: map<string, Row>, rows: map<string, Row>, segments: seq<Php.Entry>,
                        server: (string, string) -> Response, start: Node, i: nat, steps: seq<Step>,
                        previous: Node, matched: Option<Node>, call: FolderCall)
    requires i < |segments| && Progress(rows0, rows, segments, server, start, i, steps, None, previous, matched)
    requires call == FolderCall(i, segments[i].value, previous.id, server(segments[i].value, previous.id))
    requires PathAbsent(rows, ProbeAsWritten(segments, i))
    requires call.answer.Success?
    ensures Progress(rows0, Saved(rows, call.answer.node), segments, server, start, i + 1, steps + [Requested(call)],
                     None, call.answer.node, Some(call.answer.node))
  {
    var n := call.answer.node;
    var after := steps + [Requested(call)];
    assert Walked(rows0, segments, server, start, after) by {
      WalkedAppend(rows0, segments, server, start, steps, Requested(call));
    }
    assert Created(after) == Created(steps) + [n] by {
      assert after[..|after| - 1] == steps;
    }
    assert Saved(rows, n) == SaveAll(rows0, Created(after)) by {
      SaveAllSnoc(rows0, Created(steps), n);
    }
    assert Reached(start, after) == n && !Refused(after[i]) by {
      assert after[|after| - 1] == Requested(call);
    }
    Going(rows0, Saved(rows, n), segments, server, start, i + 1, after, n, Some(n));
  }

  /** A refused request ends the loop with that answer. */
  lemma ProgressRefused(rows0: map<string, Row>, rows: map<string, Row>, segments: seq<Php.Entry>,
                        server: (string, string) -> Response, start: Node, i: nat, steps: seq<Step>,
                        previous: Node, matched: Option<Node>, call: FolderCall)
    requires i < |segments| && Progress(rows0, rows, segments, server, start, i, steps, None, previous, matched)
    requires call == FolderCall(i, segments[i].value, previous.id, server(segments[i].value, previous.id))
    requires PathAbsent(rows, ProbeAsWritten(segments, i))
    requires call.answer.Failure?
    ensures Progress(rows0, rows, segments, server, start, i + 1, steps + [Requested(call)], Some(Ok(call.answer)),
                     previous, matched)
  {
    var after := steps + [Requested(call)];
    assert Walked(rows0, segments, server, start, after) by {
      WalkedAppend(rows0, segments, server, start, steps, Requested(call));
    }
    assert Created(after) == Created(steps) by {
      assert after[..|after| - 1] == steps;
      assert Created(after) == Created(steps) + [];
    }
    assert Refused(after[i]) && after[i].call.answer == call.answer;
    Halted(rows0, rows, segments, server, start, i + 1, after, Some(Ok(call.answer)), previous, matched);
  }

  /** The loop invariant after a refused request. */
  lemma Halted(rows0: map<string, Row>, rows: map<string, Row>, segments: seq<Php.Entry>,
               server: (string, string) -> Response, start: Node, i: nat, steps: seq<Step>,
               failure: Option<Result<Response, Error>>, previous: Node, matched: Option<Node>)
    requires 0 < i <= |segments| && rows == SaveAll(rows0, Created(steps))
    requires Walked(rows0, segments, server, start, steps)
    requires |steps| == i && Refused(steps[i - 1]) && failure == Some(Ok(steps[i - 1].call.answer))
    ensures Progress(rows0, rows, segments, server, start, i, steps, failure, previous, matched)
  {
  }

  lemma SaveAllSnoc(rows: map<string, Row>, nodes: seq<Node>, n: Node)
    ensures SaveAll(rows, nodes + [n]) == Saved(SaveAll(rows, nodes), n)
  {
    assert (nodes + [n])[..|nodes|] == nodes;
  }

  /** Each intended probe is its own trim, truthy, and its basename is the folder at that position. */
  lemma ProbeFacts(segments: seq<Php.Entry>, i: nat)
    requires i < |segments| && CleanSegments(segments)
    ensures Php.Trim(Probe(segments, i), Slash) == Probe(segments, i)
    ensures !Php.Falsy(Probe(segments, i))
    ensures Basename(Probe(segments, i)) == segments[i].value
  {
    PrefixFacts(segments, i + 1);
  }

  /** A prefix of clean folders is its own trim, truthy, splits back into the folders and ends with the last one. */
  lemma PrefixFacts(segments: seq<Php.Entry>, n: nat)
    requires 1 <= n <= |segments| && CleanSegments(segments)
    ensures Php.Trim(Prefix(segments, n), Slash) == Prefix(segments, n)
    ensures !Php.Falsy(Prefix(segments, n))
    ensures Basename(Prefix(segments, n)) == segments[n - 1].value
    ensures Php.Explode('/', Prefix(segments, n)) == Php.Values(segments[..n])
  {
    var vs := Php.Values(segments[..n]);
    assert forall j :: 0 <= j < |vs| ==> vs[j] == segments[j].value && segments[j] in segments;
    JoinedFacts(vs);
    Php.ExplodeImplode('/', vs);
  }

  /** Joining truthy folder names without slashes gives a truthy path with nothing to trim. */
  lemma JoinedFacts(vs: seq<string>)
    requires |vs| >= 1
    requires forall j :: 0 <= j < |vs| ==> !Php.Falsy(vs[j]) && '/' !in vs[j]
    ensures Php.Trim(Php.Implode("/", vs), Slash) == Php.Implode("/", vs)
    ensures !Php.Falsy(Php.Implode("/", vs))
    ensures Basename(Php.Implode("/", vs)) == vs[|vs| - 1]
  {
    JoinedUntrimmed(vs);
    Php.ExplodeImplode('/', vs);
    JoinedTruthy(vs);
    BasenameOfSplit(Php.Implode("/", vs), vs);
  }

  /** The base name is the last piece the path splits into. */
  lemma BasenameOfSplit(p: string, vs: seq<string>)
    requires Php.Explode('/', p) == vs
    ensures Basename(p) == vs[|vs| - 1]
  {
  }

  lemma JoinedUntrimmed(vs: seq<string>)
    requires |vs| >= 1
    requires forall j :: 0 <= j < |vs| ==> !Php.Falsy(vs[j]) && '/' !in vs[j]
    ensures Php.Trim(Php.Implode("/", vs), Slash) == Php.Implode("/", vs)
  {
    JoinedEnds(vs);
    Php.TrimNothing(Php.Implode("/", vs), Slash);
  }

  /** The path splits back into the names, so it is neither "" nor "0". */
  lemma JoinedTruthy(vs: seq<string>)
    requires |vs| >= 1 && !Php.Falsy(vs[0])
    requires Php.Explode('/', Php.Implode("/", vs)) == vs
    ensures !Php.Falsy(Php.Implode("/", vs))
  {
  }

  /** The joined path starts with the first name's first character and ends with the last name's last. */
  lemma JoinedEnds(vs: seq<string>)
    requires |vs| >= 1
    requires forall j :: 0 <= j < |vs| ==> !Php.Falsy(vs[j])
    ensures var p := Php.Implode("/", vs);
      |vs[0]| > 0 && |vs[|vs| - 1]| > 0 && |p| > 0 && p[0] == vs[0][0] && p[|p| - 1] == vs[|vs| - 1][|vs[|vs| - 1]| - 1]
  {
    Php.ImplodeStartsWithFirst("/", vs);
    Php.ImplodeEndsWithLast("/", vs);
    assert |vs[0]| > 0 && |vs[|vs| - 1]| > 0;
  }


  class CloudDrive {
    const cache: NodeStore

    constructor (cache: NodeStore)
      ensures this.cache == cache
    {
      this.cache := cache;
    }

    /** buildNodePath: walks parents[0] up to a root, without the root's name, and joins the names. */
    method BuildNodePath(node: Node) returns (r: Result<string, Error>)
      requires cache.Valid()
      ensures r == PathOf(cache.rows, node, Fuel(cache.rows))
      ensures node.isRoot ==> r == Ok(node.name)
    {
      var rows := cache.rows;
      var path: seq<string> := [];
      var n := node;
      var fuel := Fuel(rows);
      while true
        invariant (path == [] && n == node && fuel == Fuel(rows)) ||
                  (path != [] && !node.isRoot && !n.isRoot &&
                   Climb(rows, node, Fuel(rows)) == Prepend(path, Climb(rows, n, fuel)))
        decreases fuel
      {
        ghost var before := path;
        ghost var child := n;
        path := path + [n.name];
        if n.isRoot {
          break;
        }
        PrependNothing(Climb(rows, n, fuel));
        assert Climb(rows, node, Fuel(rows)) == Prepend(before, Climb(rows, child, fuel));
        if |n.parents| == 0 {
          r := Err(NoParentNode);
          return;
        }
        var parent := cache.FindNodeById(n.parents[0]);
        if parent.None? {
          r := Err(NoParentNode);
          return;
        }
        n := parent.value;
        assert ParentOf(rows, child) == Some(n);
        if n.isRoot {
          break;
        }
        if fuel == 0 {
          r := Err(Unterminated);
          return;
        }
        fuel := fuel - 1;
        PrependPrepend(before, [child.name], Climb(rows, n, fuel));
      }
      r := Ok(Php.Implode("/", Php.Reverse(path)));
    }

    /** getRootNode: a stored node named ROOT whose isRoot flag is set; two distinct failures. */
    method GetRootNode() returns (r: Result<Node, Error>)
      requires cache.Valid()
      ensures r.Ok? <==> exists x :: IsRootIn(cache.rows, x)
      ensures r == Err(NoRootByName) <==> forall x :: x in Stored(cache.rows) ==> x.name != RootName
      ensures r == Err(NoRootNode) <==>
              (exists x :: x in Stored(cache.rows) && x.name == RootName) &&
              (forall x :: x in Stored(cache.rows) && x.name == RootName ==> !x.isRoot)
      ensures r.Ok? ==> IsRootIn(cache.rows, r.value)
      ensures r.Err? ==> r.error == NoRootByName || r.error == NoRootNode
    {
      var results := cache.FindNodesByName(RootName);
      assert forall x :: x in Stored(cache.rows) && x.name == RootName ==> x in results;
      if |results| == 0 {
        r := Err(NoRootByName);
        return;
      }
      assert results[0] in results;
      for i := 0 to |results|
        invariant forall j :: 0 <= j < i ==> !results[j].isRoot
      {
        assert results[i] in results;
        if results[i].isRoot {
          assert IsRootIn(cache.rows, results[i]);
          r := Ok(results[i]);
          return;
        }
      }
      r := Err(NoRootNode);
    }

    /**
     * findNodeByPath: a falsy trimmed path is the root; otherwise the first
     * stored node named like the last segment whose rebuilt path is the
     * trimmed input, in the order the cache lists them.
     */
    method FindNodeByPath(path: string) returns (r: Result<Option<Node>, Error>, ghost candidates: seq<Node>)
      requires cache.Valid()
      ensures r == Ok(None) <==> PathAbsent(cache.rows, path)
      ensures var p := Php.Trim(path, Slash);
              Php.Falsy(p) ==> (r.Ok? <==> exists x :: IsRootIn(cache.rows, x)) &&
                               (r.Ok? ==> r.value.Some? && IsRootIn(cache.rows, r.value.value)) &&
                               (r.Err? ==> r.error == NoRootByName || r.error == NoRootNode)
      ensures var p := Php.Trim(path, Slash);
              !Php.Falsy(p) ==>
                Lists(candidates, set x | x in Stored(cache.rows) && x.name == Basename(p)) &&
                r == FirstPathMatch(cache.rows, candidates, p)
      ensures var p := Php.Trim(path, Slash);
              !Php.Falsy(p) && r.Ok? && r.value.Some? ==>
                r.value.value in Stored(cache.rows) && r.value.value.name == Basename(p) &&
                PathOf(cache.rows, r.value.value, Fuel(cache.rows)) == Ok(p)
      ensures var p := Php.Trim(path, Slash);
              !Php.Falsy(p) && r.Err? ==> RebuildFails(cache.rows, p, r.error)
    {
      var p := Php.Trim(path, Slash);
      candidates := [];
      if Php.Falsy(p) {
        var root := GetRootNode();
        if root.Ok? {
          r := Ok(Some(root.value));
        } else {
          r := Err(root.error);
        }
        return;
      }
      var name := Basename(p);
      var nodes := cache.FindNodesByName(name);
      candidates := nodes;
      ResolvedMeaning(cache.rows, path, nodes);
      if |nodes| == 0 {
        r := Ok(None);
        return;
      }
      var i := 0;
      while i < |nodes|
        invariant 0 <= i <= |nodes|
        invariant FirstPathMatch(cache.rows, nodes, p) == FirstPathMatch(cache.rows, nodes[i..], p)
      {
        var q := BuildNodePath(nodes[i]);
        assert nodes[i..][1..] == nodes[i + 1..];
        if q.Err? {
          r := Err(q.error);
          return;
        }
        if q.value == p {
          assert nodes[i] in nodes;
          r := Ok(Some(nodes[i]));
          return;
        }
        i := i + 1;
      }
      r := Ok(None);
    }

    /**
     * nodeExists: a node at the path is a path match (and an MD5 match when
     * the checksums agree); otherwise any stored node with the local MD5 is an
     * MD5 match; otherwise nothing exists.
     */
    method NodeExists(remotePath: string, localMd5: Option<string>) returns (r: Result<Existence, Error>)
      requires cache.Valid()
      ensures r.Ok? ==> ExistenceAt(cache.rows, remotePath, localMd5, r.value)
      ensures r.Err? ==> ExistenceFailed(cache.rows, remotePath, localMd5, r.error)
    {
      var file, _ := FindNodeByPath(remotePath);
      if file.Err? {
        r := Err(file.error);
        return;
      }
      if file.value.None? {
        if localMd5.Some? {
          var same := cache.FindNodeByMd5(localMd5.value);
          if same.Some? {
            // the path only goes into the message, but rebuilding it can fail
            var path := BuildNodePath(same.value);
            if path.Err? {
              r := Err(path.error);
              return;
            }
            r := Ok(Existence(true, false, true, None));
            return;
          }
        }
        r := Ok(Existence(false, false, false, None));
        return;
      }
      var n := file.value.value;
      var md5Match := localMd5.Some? && n.md5.Some? && n.md5.value == localMd5.value;
      r := Ok(Existence(true, true, md5Match, Some(n)));
    }

    /** createFolder: asks the server for a folder under the parent and caches the node it answers with. */
    method CreateFolder(name: string, parentId: string, server: (string, string) -> Response) returns (r: Response)
      requires cache.Valid()
      modifies cache
      ensures cache.Valid() && cache.configs == old(cache.configs)
      ensures r == server(name, parentId)
      ensures cache.rows == if r.Success? then Saved(old(cache.rows), r.node) else old(cache.rows)
    {
      r := server(name, parentId);
      if r.Success? {
        cache.SaveNode(r.node);
      }
    }

    /**
     * One step of createDirectoryPath: reuse the node at the prefix probed at
     * position i, or, when that prefix is absent, ask for the folder under
     * `previous` (and cache the node the server answers with).
     */
    method FindOrCreate(segments: seq<Php.Entry>, i: nat, previous: Node, server: (string, string) -> Response)
      returns (r: Result<Response, Error>, asked: bool, ghost step: Step)
      requires cache.Valid()
      requires i < |segments| && CleanSegments(segments)
      modifies cache
      ensures cache.Valid() && cache.configs == old(cache.configs)
      ensures r.Err? ==> cache.rows == old(cache.rows) && !asked &&
                         RebuildFails(old(cache.rows), ProbeAsWritten(segments, i), r.error)
      ensures r.Ok? ==> StepFits(old(cache.rows), segments, server, i, previous, step) && (asked <==> step.Requested?)
      ensures r.Ok? && step.Reused? ==> r == Ok(Success(step.node)) && cache.rows == old(cache.rows)
      ensures r.Ok? && step.Requested? ==>
                r == Ok(step.call.answer) &&
                cache.rows == (if r.value.Success? then Saved(old(cache.rows), r.value.node) else old(cache.rows))
    {
      var probe := ProbeAsWritten(segments, i);
      PrefixFacts(segments, SliceLength(segments, i));
      asked := false;
      step := Reused(previous);
      var found, _ := FindNodeByPath(probe);
      if found.Err? {
        r := Err(found.error);
        return;
      }
      if found.value.Some? {
        step := Reused(found.value.value);
        r := Ok(Success(found.value.value));
        return;
      }
      asked := true;
      var response := CreateFolder(segments[i].value, previous.id, server);
      step := Requested(FolderCall(i, segments[i].value, previous.id, response));
      r := Ok(response);
    }

    /**
     * createDirectoryPath: walks the folders of the path from the root (see
     * Walked); the first failed creation is returned as it is, and otherwise
     * the node the walk reached. `steps` records what was done per folder and
     * `root` the root the walk started from.
     */
    method CreateDirectoryPath(path: string, server: (string, string) -> Response)
      returns (r: Result<Response, Error>, ghost steps: seq<Step>, ghost root: Option<Node>)
      requires cache.Valid()
      modifies cache
      ensures cache.Valid() && cache.configs == old(cache.configs)
      ensures cache.rows == SaveAll(old(cache.rows), Created(steps))
      ensures root.None? ==> steps == [] && r.Err? && forall x :: !IsRootIn(old(cache.rows), x)
      ensures r.Err? ==> DirectoryStopped(old(cache.rows), path, server, steps, r.error)
      ensures r.Err? && root.Some? ==> StoppedAt(old(cache.rows), PathEntries(path), steps, r.error)
      ensures root.Some? ==> IsRootIn(old(cache.rows), root.value) &&
                             Walked(old(cache.rows), PathEntries(path), server, root.value, steps)
      ensures r.Ok? ==> root.Some?
      ensures r.Ok? && r.value.Failure? ==>
                |steps| > 0 && Refused(steps[|steps| - 1]) && r.value == steps[|steps| - 1].call.answer
      ensures r.Ok? && r.value.Success? ==> DirectoryMade(old(cache.rows), path, server, steps, root.value, r.value.node)
    {
      var segments := PathEntries(path);
      PathEntriesClean(path);
      steps := [];
      root := None;
      var start := GetRootNode();
      if start.Err? {
        r := Err(start.error);
        assert Created(steps) == [];
        return;
      }
      root := Some(start.value);
      r, steps := CreateSegments(segments, start.value, server);
      assert r.Ok? && r.value.Success? ==>
               DirectoryMade(old(cache.rows), path, server, steps, start.value, r.value.node);
    }

    /** The loop of createDirectoryPath over the folders of the path, starting from `start`. */
    method CreateSegments(segments: seq<Php.Entry>, start: Node, server: (string, string) -> Response)
      returns (r: Result<Response, Error>, ghost steps: seq<Step>)
      requires cache.Valid() && CleanSegments(segments)
      modifies cache
      ensures cache.Valid() && cache.configs == old(cache.configs)
      ensures cache.rows == SaveAll(old(cache.rows), Created(steps))
      ensures Walked(old(cache.rows), segments, server, start, steps)
      ensures r.Ok? && r.value.Failure? ==>
                |steps| > 0 && Refused(steps[|steps| - 1]) && r.value == steps[|steps| - 1].call.answer
      ensures r.Ok? && r.value.Success? ==>
                |steps| == |segments| && (|steps| > 0 ==> !Refused(steps[|steps| - 1])) &&
                r.value.node == Reached(start, steps)
      ensures r.Err? ==> StoppedAt(old(cache.rows), segments, steps, r.error)
    {
      steps := [];
      var previous := start;
      var matched: Option<Node> := None;
      var failure: Option<Result<Response, Error>> := None;
      var i := 0;
      while i < |segments| && failure.None?
        invariant cache.Valid() && cache.configs == old(cache.configs)
        invariant Progress(old(cache.rows), cache.rows, segments, server, start, i, steps, failure, previous, matched)
      {
        failure, previous, matched, steps := Advance(segments, server, old(cache.rows), start, i, steps, previous, matched);
        i := i + 1;
      }
      if failure.Some? {
        r := failure.value;
      } else {
        r := Ok(Success(if matched.None? then previous else matched.value));
      }
    }

    /** One pass of the loop of createDirectoryPath: the walk grows by the step FindOrCreate took. */
    method Advance(segments: seq<Php.Entry>, server: (string, string) -> Response, ghost rows0: map<string, Row>,
                   ghost start: Node, i: nat, ghost steps: seq<Step>, previous: Node, matched: Option<Node>)
      returns (failure: Option<Result<Response, Error>>, next: Node, nextMatch: Option<Node>,
               ghost nextSteps: seq<Step>)
      requires cache.Valid() && i < |segments| && CleanSegments(segments)
      requires Progress(rows0, cache.rows, segments, server, start, i, steps, None, previous, matched)
      modifies cache
      ensures cache.Valid() && cache.configs == old(cache.configs)
      ensures Progress(rows0, cache.rows, segments, server, start, i + 1, nextSteps, failure, next, nextMatch)
    {
      ghost var rows := cache.rows;
      var r, asked, step := FindOrCreate(segments, i, previous, server);
      nextSteps, next, nextMatch := steps, previous, matched;
      if r.Err? {
        failure := Some(r);
        ProgressStopped(rows0, rows, segments, server, start, i, steps, previous, matched, failure);
      } else if !asked {
        failure := None;
        next := r.value.node;
        nextMatch := Some(next);
        nextSteps := steps + [step];
        ProgressFound(rows0, rows, segments, server, start, i, steps, previous, matched, next);
      } else {
        nextSteps := steps + [step];
        if r.value.Success? {
          failure := None;
          next := r.value.node;
          nextMatch := Some(next);
          ProgressCreated(rows0, rows, segments, server, start, i, steps, previous, matched, step.call);
        } else {
          failure := Some(r);
          ProgressRefused(rows0, rows, segments, server, start, i, steps, previous, matched, step.call);
        }
      }
    }

    /**
     * The decision part of uploadFile: create the remote folder, then decide
     * from nodeExists on the target path whether to stop, overwrite or upload.
     * `server` answers createFolder, `overwriteOk` says whether the server
     * accepts new content for a node id, and `upload` answers the upload POST.
     * `steps` is what createDirectoryPath did, `folder` the node it returned.
     */
    method UploadFile(localName: string, localMd5: string, remotePath: string, overwrite: bool,
                      server: (string, string) -> Response, overwriteOk: string -> bool,
                      upload: (string, string) -> Response)
      returns (r: Result<Upload, Error>, ghost steps: seq<Step>, ghost folder: Option<Node>,
               ghost existence: Option<Existence>)
      requires cache.Valid()
      modifies cache
      ensures cache.Valid() && cache.configs == old(cache.configs)
      ensures var made := SaveAll(old(cache.rows), Created(steps));
              var reply := upload(localName, if folder.Some? then folder.value.id else "");
              if r == Ok(Upload(true, Uploaded)) then reply.Success? && cache.rows == Saved(made, reply.node)
              else cache.rows == made
      ensures folder.Some? ==>
                exists root :: DirectoryMade(old(cache.rows), UploadTarget(remotePath), server, steps, root, folder.value)
      ensures existence.Some? ==>
                folder.Some? &&
                ExistenceAt(SaveAll(old(cache.rows), Created(steps)), UploadTarget(remotePath) + "/" + localName,
                            Some(localMd5), existence.value)
      ensures r.Err? && folder.None? ==> DirectoryStopped(old(cache.rows), UploadTarget(remotePath), server, steps, r.error)
      ensures r.Err? && folder.Some? ==>
                existence.None? &&
                ExistenceFailed(SaveAll(old(cache.rows), Created(steps)), UploadTarget(remotePath) + "/" + localName,
                                Some(localMd5), r.error)
      ensures r.Ok? && r.value.action == DirectoryFailed ==>
                folder.None? && DirectoryRefused(old(cache.rows), UploadTarget(remotePath), server, steps)
      ensures r.Ok? && r.value.action == DirectoryFailed ==> !r.value.success && existence.None?
      ensures r.Ok? && r.value.action != DirectoryFailed ==> existence.Some?
      ensures existence.Some? && existence.value.success && !overwrite ==> r == Ok(Upload(false, AlreadyExists))
      ensures existence.Some? && existence.value.success && overwrite && existence.value.md5Match ==>
                r == Ok(Upload(false, IdenticalExists))
      ensures existence.Some? && existence.value.success && overwrite && !existence.value.md5Match ==>
                existence.value.pathMatch && existence.value.node.Some? &&
                r == Ok(Upload(overwriteOk(existence.value.node.value.id), Overwrote))
      ensures existence.Some? && !existence.value.success ==>
                r == Ok(Upload(upload(localName, folder.value.id).Success?, Uploaded))
      ensures var reply := upload(localName, if folder.Some? then folder.value.id else "");
              r == Ok(Upload(true, Uploaded)) ==>
                reply.Success? && Get(cache.rows, reply.node.id) == Some(Normalize(reply.node))
    {
      folder := None;
      existence := None;
      var target := UploadTarget(remotePath);
      var directory, made, root := CreateDirectoryPath(target, server);
      steps := made;
      if directory.Err? {
        r := Err(directory.error);
        return;
      }
      if directory.value.Failure? {
        r := Ok(Upload(false, DirectoryFailed));
        assert DirectoryRefused(old(cache.rows), target, server, steps) by {
          assert IsRootIn(old(cache.rows), root.value) && Walked(old(cache.rows), PathEntries(target), server, root.value, steps);
        }
        return;
      }
      var remoteFolder := directory.value.node;
      folder := Some(remoteFolder);
      assert DirectoryMade(old(cache.rows), target, server, steps, root.value, remoteFolder);
      var response := NodeExists(target + "/" + localName, Some(localMd5));
      if response.Err? {
        r := Err(response.error);
        return;
      }
      existence := Some(response.value);
      if response.value.success {
        if !overwrite {
          r := Ok(Upload(false, AlreadyExists));
          return;
        }
        if response.value.md5Match {
          r := Ok(Upload(false, IdenticalExists));
          return;
        }
        r := Ok(Upload(overwriteOk(response.value.node.value.id), Overwrote));
        return;
      }
      ghost var before := cache.rows;
      var reply := upload(localName, remoteFolder.id);
      if reply.Success? {
        cache.SaveNode(reply.node);
        SaveThenGet(before, reply.node);
      }
      r := Ok(Upload(reply.Success?, Uploaded));
    }
  }
}
