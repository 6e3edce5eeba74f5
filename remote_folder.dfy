/**
 * Remote lineage matching of src/CloudDrive/Node/Folder.php. The remote
 * metadata service is a map from folder id to the folder's metadata: an id
 * outside the map is a lookup that fails. The folder listing is a function
 * from the query string the Filter builds to the folders the service lists.
 */
module RemoteFolder {
  import opened Wrappers
  import Php
  import NodePaths
  import QueryFilter
  import Counting

  /** A folder's metadata as getMetadataById decodes it; `parents` may be missing. */
  datatype FolderInfo = FolderInfo(id: string, name: string, parents: Option<seq<string>>)

  /** `isset($folder['parents']) && count($folder['parents']) > 0`. */
  predicate HasParents(f: FolderInfo)
  {
    f.parents.Some? && |f.parents.value| > 0
  }

  /** The id getLineageById looks up next. */
  function ParentId(f: FolderInfo): string
    requires HasParents(f)
  {
    f.parents.value[0]
  }

  /**
   * What getLineageById returns: the chain of folders, or the failure response
   * of the lookup that failed (named by its id). `Endless` marks a walk still
   * going after one lookup per known folder, where the source never returns.
   */
  datatype Lineage = Chain(folders: seq<FolderInfo>) | LookupFailed(id: string) | Endless

  /** The folders above `f` and `f` itself, root side first, with at most `fuel` more lookups. */
  function Walk(meta: map<string, FolderInfo>, f: FolderInfo, fuel: nat): Lineage
    decreases fuel
  {
    if !HasParents(f) then Chain([])
    else if ParentId(f) !in meta then LookupFailed(ParentId(f))
    else if fuel == 0 then Endless
    else Below(Walk(meta, meta[ParentId(f)], fuel - 1), [f])
  }

  /** Appends folders below a successful walk. */
  function Below(w: Lineage, folders: seq<FolderInfo>): Lineage
  {
    match w
    case Chain(up) => Chain(up + folders)
    case _ => w
  }

  /** getLineageById(id), with one lookup per known folder as the bound on the walk. */
  function LineageOf(meta: map<string, FolderInfo>, id: string): Lineage
  {
    if id !in meta then LookupFailed(id) else Walk(meta, meta[id], |meta|)
  }

  lemma BelowNothing(w: Lineage)
    ensures Below(w, []) == w
  {
    if w.Chain? {
      assert w.folders + [] == w.folders;
    }
  }

  lemma BelowBelow(w: Lineage, a: seq<FolderInfo>, b: seq<FolderInfo>)
    ensures Below(Below(w, a), b) == Below(w, a + b)
  {
    if w.Chain? {
      assert w.folders + a + b == w.folders + (a + b);
    }
  }

  /**
   * The shape of a lineage: every folder in it has a parent, each one's first
   * parent is the folder before it, the last one is the start folder, and the
   * first one's parent is a folder without parents (which is left out).
   */
  lemma {:induction false} WalkShape(meta: map<string, FolderInfo>, f: FolderInfo, fuel: nat)
    ensures Walk(meta, f, fuel).Chain? ==>
      var l := Walk(meta, f, fuel).folders;
      (|l| == 0 <==> !HasParents(f)) &&
      (|l| > 0 ==> l[|l| - 1] == f) &&
      (forall i :: 0 <= i < |l| ==> HasParents(l[i]) && ParentId(l[i]) in meta) &&
      (forall i :: 0 < i < |l| ==> meta[ParentId(l[i])] == l[i - 1]) &&
      (|l| > 0 ==> !HasParents(meta[ParentId(l[0])]))
    ensures Walk(meta, f, fuel).LookupFailed? ==> Walk(meta, f, fuel).id !in meta
    decreases fuel
  {
    if HasParents(f) && ParentId(f) in meta && fuel > 0 {
      var p := meta[ParentId(f)];
      WalkShape(meta, p, fuel - 1);
      var w := Walk(meta, p, fuel - 1);
      if w.Chain? {
        var up := w.folders;
        var l := up + [f];
        assert Walk(meta, f, fuel).folders == l;
        assert forall i :: 0 <= i < |up| ==> l[i] == up[i];
        if |up| > 0 {
          assert l[|up| - 1] == p;
        }
      }
    }
  }

  /** The ids a walk looks up, in order, until it stops. */
  function Climbed(meta: map<string, FolderInfo>, f: FolderInfo, fuel: nat): seq<string>
    decreases fuel
  {
    if !HasParents(f) then []
    else if ParentId(f) !in meta || fuel == 0 then [ParentId(f)]
    else [ParentId(f)] + Climbed(meta, meta[ParentId(f)], fuel - 1)
  }

  /** A walk cut off by the bound has made fuel + 1 lookups, all answered. */
  lemma {:induction false} EndlessClimbs(meta: map<string, FolderInfo>, f: FolderInfo, fuel: nat)
    requires Walk(meta, f, fuel).Endless?
    ensures |Climbed(meta, f, fuel)| == fuel + 1
    ensures forall i :: 0 <= i < |Climbed(meta, f, fuel)| ==> Climbed(meta, f, fuel)[i] in meta
    decreases fuel
  {
    if fuel > 0 {
      var p := meta[ParentId(f)];
      assert Walk(meta, p, fuel - 1).Endless?;
      EndlessClimbs(meta, p, fuel - 1);
      var c := Climbed(meta, f, fuel);
      assert forall i :: 0 < i < |c| ==> c[i] == Climbed(meta, p, fuel - 1)[i - 1];
    }
  }

  /** The bound only cuts off a walk that looks up some folder twice: a cycle, on which the source never returns. */
  lemma EndlessMeansCycle(meta: map<string, FolderInfo>, id: string)
    requires LineageOf(meta, id).Endless?
    ensures var c := Climbed(meta, meta[id], |meta|);
      exists i, j :: 0 <= i < j < |c| && c[i] == c[j]
  {
    EndlessClimbs(meta, meta[id], |meta|);
    Counting.Pigeonhole(Climbed(meta, meta[id], |meta|), meta.Keys);
  }

  /** getLineageById: walks parents[0] upwards, unshifting each folder that has a parent. */
  method GetLineageById(meta: map<string, FolderInfo>, id: string) returns (r: Lineage)
    ensures r == LineageOf(meta, id)
  {
    if id !in meta {
      return LookupFailed(id);
    }
    var folder := meta[id];
    var lineage: seq<FolderInfo> := [];
    var fuel: nat := |meta|;
    BelowNothing(Walk(meta, folder, fuel));
    while HasParents(folder)
      invariant Below(Walk(meta, folder, fuel), lineage) == LineageOf(meta, id)
      decreases fuel
    {
      ghost var before := lineage;
      ghost var child := folder;
      lineage := [folder] + lineage;
      var parentId := folder.parents.value[0];
      if parentId !in meta {
        return LookupFailed(parentId);
      }
      if fuel == 0 {
        return Endless;
      }
      folder := meta[parentId];
      fuel := fuel - 1;
      BelowBelow(Walk(meta, folder, fuel), [child], before);
    }
    r := Chain(lineage);
  }

  /**
   * lineageMatchesPath as written: the lineage is compared with the path by
   * the path's keys, and the failure response of a lookup is itself an array
   * of two entries (`success`, `data`) whose members have no `name`, so it
   * compares equal to any path of two folders.
   */
  function LineageMatchesPathAsWritten(lineage: Lineage, path: seq<Php.Entry>): (r: bool)
    ensures r && lineage.Chain? ==>
              |path| == |lineage.folders| &&
              forall i :: 0 <= i < |lineage.folders| ==> Php.Entry(i, lineage.folders[i].name) in path
    ensures lineage.LookupFailed? ==> (r <==> |path| == 2)
    ensures lineage.Endless? ==> !r
  {
    match lineage
    case Chain(folders) =>
      |folders| == |path| && forall i :: 0 <= i < |folders| ==> Php.Lookup(path, i) == Some(folders[i].name)
    case LookupFailed(_) => |path| == 2
    case Endless => false
  }

  /** The comparison lineageMatchesPath evidently means: same length, same names position by position. */
  function LineageMatchesPath(lineage: seq<FolderInfo>, path: seq<string>): (r: bool)
    ensures r <==> Names(lineage) == path
  {
    |lineage| == |path| && forall i :: 0 <= i < |lineage| ==> lineage[i].name == path[i]
  }

  /** The folders' names, in order. */
  function Names(folders: seq<FolderInfo>): (r: seq<string>)
    ensures |r| == |folders|
    ensures forall i :: 0 <= i < |folders| ==> r[i] == folders[i].name
  {
    if |folders| == 0 then [] else [folders[0].name] + Names(folders[1..])
  }

  /** On a path whose keys are its positions, both readings agree for a lineage that was found. */
  lemma MatchAgreesOnLists(folders: seq<FolderInfo>, path: seq<Php.Entry>)
    requires Php.IsList(path)
    ensures LineageMatchesPathAsWritten(Chain(folders), path) == LineageMatchesPath(folders, Php.Values(path))
  {
    if |folders| == |path| {
      forall i | 0 <= i < |folders|
        ensures Php.Lookup(path, i) == Some(Php.Values(path)[i])
      {
        LookupOnList(path, i);
      }
    }
  }

  lemma LookupOnList(path: seq<Php.Entry>, i: nat)
    requires Php.IsList(path) && i < |path|
    ensures Php.Lookup(path, i) == Some(path[i].value)
  {
    assert path[i] in path && path[i].key == i;
    var v := Php.Lookup(path, i).value;
    assert Php.Entry(i, v) in path;
    var j :| 0 <= j < |path| && path[j] == Php.Entry(i, v);
    assert path[j].key == j;
  }

  /** A folder name split by an empty piece: "a//b" keeps the key 2 for b, so the found lineage a, b fails to match. */
  lemma DoubleSlashMismatch(a: FolderInfo, b: FolderInfo)
    requires a.name == "a" && b.name == "b"
    ensures NodePaths.PathArray(Php.PathText("a//b")) == [Php.Entry(0, "a"), Php.Entry(2, "b")]
    ensures !LineageMatchesPathAsWritten(Chain([a, b]), NodePaths.PathArray(Php.PathText("a//b")))
    ensures LineageMatchesPath([a, b], Php.Values(NodePaths.PathArray(Php.PathText("a//b"))))
  {
    DoubleSlashEntries();
    KeyGap(a, b, [Php.Entry(0, "a"), Php.Entry(2, "b")]);
  }

  lemma DoubleSlashEntries()
    ensures NodePaths.PathArray(Php.PathText("a//b")) == [Php.Entry(0, "a"), Php.Entry(2, "b")]
  {
    SplitDoubleSlash();
    var all := Php.Enumerate(["a", "", "b"], 0);
    assert all == [Php.Entry(0, "a"), Php.Entry(1, ""), Php.Entry(2, "b")];
    KeepNonEmpty(all);
  }

  lemma KeyGap(a: FolderInfo, b: FolderInfo, path: seq<Php.Entry>)
    requires a.name == "a" && b.name == "b"
    requires path == [Php.Entry(0, "a"), Php.Entry(2, "b")]
    ensures !LineageMatchesPathAsWritten(Chain([a, b]), path)
    ensures LineageMatchesPath([a, b], Php.Values(path))
  {
    assert path[1..][1..] == [];
    assert Php.Lookup(path, 1).None?;
    assert Php.Values(path) == ["a", "b"];
  }

  lemma SplitDoubleSlash()
    ensures Php.Explode('/', "a//b") == ["a", "", "b"]
  {
    var parts := ["a", "", "b"];
    assert parts[..2] == ["a", ""] && parts[..2][..1] == ["a"];
    assert Php.Implode("/", parts) == "a" + "/" + "" + "/" + "b" == "a//b";
    assert ['/'] == "/";
    assert forall i :: 0 <= i < |parts| ==> '/' !in parts[i];
    Php.ExplodeImplode('/', parts);
  }

  lemma KeepNonEmpty(all: seq<Php.Entry>)
    requires all == [Php.Entry(0, "a"), Php.Entry(1, ""), Php.Entry(2, "b")]
    ensures Php.ArrayFilter(all, (x: string) => x != "") == [Php.Entry(0, "a"), Php.Entry(2, "b")]
  {
    var keep := (x: string) => x != "";
    assert all[1..][1..][1..] == [];
    assert Php.ArrayFilter(all[1..][1..], keep) == [Php.Entry(2, "b")];
    assert Php.ArrayFilter(all[1..], keep) == [Php.Entry(2, "b")];
  }


  /**
   * A candidate whose lineage lookup fails matches any two-folder path as
   * written; with the comparison corrected it is passed over.
   */
  lemma FailedLookupMatches(meta: map<string, FolderInfo>, candidate: FolderInfo, path: seq<Php.Entry>)
    requires LineageOf(meta, candidate.id).LookupFailed? && |path| == 2
    ensures Matches(AsWritten, LineageOf(meta, candidate.id), path)
    ensures Passes(meta, candidate, path, Intended)
  {
  }

  /** What getRemoteByPath answers. */
  datatype Remote =
    | NoCandidates        // success with empty data: nothing of that name is listed
    | Found(folder: FolderInfo)
    | NotFound            // success false: no candidate's lineage matches
    | Stuck               // a lineage walk that does not end

  /** The query listFolders sends for a name: the escaped name, then kind FOLDER. */
  function NameQuery(name: string): (r: string)
    ensures r == "name:" + QueryFilter.Escape(name) + " AND kind:FOLDER"
  {
    NameQueryText(name);
    Php.Implode(" AND ", QueryFilter.Terms(
      QueryFilter.Put(QueryFilter.Put([], "name", QueryFilter.Escape(name)), "kind", QueryFilter.Escape("FOLDER"))))
  }

  lemma NameQueryText(name: string)
    ensures Php.Implode(" AND ", QueryFilter.Terms(
              QueryFilter.Put(QueryFilter.Put([], "name", QueryFilter.Escape(name)), "kind", QueryFilter.Escape("FOLDER"))))
            == "name:" + QueryFilter.Escape(name) + " AND kind:FOLDER"
  {
    var e := QueryFilter.Escape(name);
    NameThenKind(e);
    JoinTwoTerms("name" + ":" + e, "kind" + ":" + "FOLDER");
    QueryLiterals(e);
  }

  /** The filter of listFolders holds two clauses: the name, then kind FOLDER. */
  lemma NameThenKind(e: string)
    ensures QueryFilter.Terms(QueryFilter.Put(QueryFilter.Put([], "name", e), "kind", QueryFilter.Escape("FOLDER")))
            == ["name" + ":" + e, "kind" + ":" + "FOLDER"]
  {
    var first := QueryFilter.Clause("name", e);
    var second := QueryFilter.Clause("kind", "FOLDER");
    FolderPlain();
    PutTwo(e);
    TermsTwo(first, second);
  }

  lemma FolderPlain()
    ensures QueryFilter.Escape("FOLDER") == "FOLDER"
  {
    assert forall c :: c in "FOLDER" ==> c !in QueryFilter.Special;
  }

  lemma PutTwo(e: string)
    ensures QueryFilter.Put(QueryFilter.Put([], "name", e), "kind", "FOLDER")
            == [QueryFilter.Clause("name", e), QueryFilter.Clause("kind", "FOLDER")]
  {
    var first := QueryFilter.Clause("name", e);
    assert QueryFilter.Put([], "name", e) == [first];
    assert QueryFilter.IndexOf([first], "kind").None?;
  }

  lemma TermsTwo(first: QueryFilter.Clause, second: QueryFilter.Clause)
    ensures QueryFilter.Terms([first, second]) == [first.field + ":" + first.condition, second.field + ":" + second.condition]
  {
  }

  lemma JoinTwoTerms(x: string, y: string)
    ensures Php.Implode(" AND ", [x, y]) == x + " AND " + y
  {
    assert [x, y][..1] == [x];
  }

  lemma QueryLiterals(e: string)
    ensures "name" + ":" + e + " AND " + ("kind" + ":" + "FOLDER") == "name:" + e + " AND kind:FOLDER"
  {
    assert "name" + ":" == "name:";
    assert " AND " + ("kind" + ":" + "FOLDER") == " AND kind:FOLDER";
  }

  /** `end($path)`, and escapeValue(false) == "" for an empty path. */
  function LastName(segments: seq<string>): (r: string)
    ensures |segments| > 0 ==> r == segments[|segments| - 1]
    ensures |segments| == 0 ==> r == ""
  {
    if |segments| == 0 then "" else segments[|segments| - 1]
  }

  /** How a candidate's lineage is compared with the path. */
  datatype Comparison =
    | AsWritten   // lineageMatchesPath as written: by the path's keys, a failed lookup's response included
    | Intended    // what it evidently means: a found lineage, name by name in path order

  /** Whether the lineage matches the path under the comparison. */
  predicate Matches(cmp: Comparison, lineage: Lineage, path: seq<Php.Entry>)
  {
    match cmp
    case AsWritten => LineageMatchesPathAsWritten(lineage, path)
    case Intended => lineage.Chain? && LineageMatchesPath(lineage.folders, Php.Values(path))
  }

  /** The foreach of getRemoteByPath: the first candidate whose lineage matches; a walk that does not end is Stuck. */
  function FirstMatch(meta: map<string, FolderInfo>, candidates: seq<FolderInfo>, path: seq<Php.Entry>,
                      cmp: Comparison): Remote
    decreases |candidates|
  {
    if |candidates| == 0 then NotFound
    else
      var l := LineageOf(meta, candidates[0].id);
      if l.Endless? then Stuck
      else if Matches(cmp, l, path) then Found(candidates[0])
      else FirstMatch(meta, candidates[1..], path, cmp)
  }

  /** getRemoteByPath, as a function of the metadata, the listing and the comparison. */
  function RemoteByPath(meta: map<string, FolderInfo>, listFolders: string -> seq<FolderInfo>, path: Php.PathArg,
                        cmp: Comparison): Remote
  {
    var entries := NodePaths.PathArray(path);
    var candidates := listFolders(NameQuery(LastName(Php.Values(entries))));
    if |candidates| == 0 then NoCandidates else FirstMatch(meta, candidates, entries, cmp)
  }

  /** Which candidate FirstMatch picks, and why the others were passed over. */
  lemma {:induction false} FirstMatchMeaning(meta: map<string, FolderInfo>, candidates: seq<FolderInfo>,
                                             path: seq<Php.Entry>, cmp: Comparison)
    ensures var r := FirstMatch(meta, candidates, path, cmp);
      r != NoCandidates &&
      (r.Found? ==> exists i :: 0 <= i < |candidates| && candidates[i] == r.folder && Picks(meta, candidates, path, cmp, i)) &&
      (r == NotFound <==> forall i :: 0 <= i < |candidates| ==> Passes(meta, candidates[i], path, cmp))
    decreases |candidates|
  {
    if |candidates| > 0 {
      var rest := candidates[1..];
      FirstMatchMeaning(meta, rest, path, cmp);
      assert forall i :: 0 <= i < |rest| ==> rest[i] == candidates[i + 1];
      var r := FirstMatch(meta, candidates, path, cmp);
      var l := LineageOf(meta, candidates[0].id);
      if !l.Endless? && !Matches(cmp, l, path) {
        assert Passes(meta, candidates[0], path, cmp);
        if r.Found? {
          var i :| 0 <= i < |rest| && rest[i] == r.folder && Picks(meta, rest, path, cmp, i);
          assert Picks(meta, candidates, path, cmp, i + 1);
        }
        if forall i :: 0 <= i < |rest| ==> Passes(meta, rest[i], path, cmp) {
          assert forall i :: 0 <= i < |candidates| ==> Passes(meta, candidates[i], path, cmp) by {
            forall i | 0 <= i < |candidates|
              ensures Passes(meta, candidates[i], path, cmp)
            {
              if i > 0 {
                assert candidates[i] == rest[i - 1];
              }
            }
          }
        }
      } else if !l.Endless? {
        assert Picks(meta, candidates, path, cmp, 0);
      }
    }
  }

  /** A candidate that is passed over: its lineage walk ended and does not match. */
  ghost predicate Passes(meta: map<string, FolderInfo>, candidate: FolderInfo, path: seq<Php.Entry>, cmp: Comparison)
  {
    var l := LineageOf(meta, candidate.id);
    !l.Endless? && !Matches(cmp, l, path)
  }

  /** Candidate i is picked: its lineage matches and every earlier one was passed over. */
  ghost predicate Picks(meta: map<string, FolderInfo>, candidates: seq<FolderInfo>, path: seq<Php.Entry>,
                        cmp: Comparison, i: nat)
    requires i < |candidates|
  {
    var l := LineageOf(meta, candidates[i].id);
    !l.Endless? && Matches(cmp, l, path) &&
    forall j :: 0 <= j < i ==> Passes(meta, candidates[j], path, cmp)
  }

  /** getRemoteByPath: the name of the last folder is looked up, then the candidates' lineages are compared. */
  method GetRemoteByPath(meta: map<string, FolderInfo>, listFolders: string -> seq<FolderInfo>, path: Php.PathArg)
    returns (r: Remote)
    ensures r == RemoteByPath(meta, listFolders, path, AsWritten)
  {
    var entries := NodePaths.PathArray(path);
    var segments := Php.Values(entries);
    var folder := if |segments| == 0 then "" else segments[|segments| - 1];
    var candidates := ListByName(listFolders, folder);
    if |candidates| == 0 {
      return NoCandidates;
    }
    r := FirstMatching(meta, candidates, entries);
  }

  /** listFolders with a name filter: the query string built by a fresh Filter. */
  method ListByName(listFolders: string -> seq<FolderInfo>, name: string) returns (r: seq<FolderInfo>)
    ensures r == listFolders(NameQuery(name))
  {
    var filter := new QueryFilter.Filter();
    filter.AddEqualityFilter("name", name);
    filter.AddEqualityFilter("kind", "FOLDER");
    var query := filter.BuildString();
    r := listFolders(query);
  }

  /** The foreach of getRemoteByPath, comparing each lineage with the keyed path as lineageMatchesPath does. */
  method FirstMatching(meta: map<string, FolderInfo>, candidates: seq<FolderInfo>, path: seq<Php.Entry>)
    returns (r: Remote)
    ensures r == FirstMatch(meta, candidates, path, AsWritten)
  {
    var i := 0;
    while i < |candidates|
      invariant i <= |candidates|
      invariant FirstMatch(meta, candidates, path, AsWritten) == FirstMatch(meta, candidates[i..], path, AsWritten)
    {
      var lineage := GetLineageById(meta, candidates[i].id);
      assert candidates[i..][1..] == candidates[i + 1..];
      if lineage.Endless? {
        return Stuck;
      }
      if LineageMatchesPathAsWritten(lineage, path) {
        return Found(candidates[i]);
      }
      i := i + 1;
    }
    r := NotFound;
  }

  /**
   * remoteFolderExists: an empty path (after trimming, and "0" is empty to
   * PHP) always exists; otherwise the path exists iff getRemoteByPath finds a
   * folder. None when a lineage walk does not end.
   */
  function RemoteFolderExists(meta: map<string, FolderInfo>, listFolders: string -> seq<FolderInfo>,
                              path: Php.PathArg, cmp: Comparison): (r: Option<bool>)
    ensures Php.Falsy(NodePaths.PathString(path)) ==> r == Some(true)
  {
    var p := NodePaths.PathString(path);
    if Php.Falsy(p) then Some(true)
    else
      var found := RemoteByPath(meta, listFolders, Php.PathText(p), cmp);
      if found.Stuck? then None else Some(found.Found?)
  }

  /** A picked candidate is the one FirstMatch returns. */
  lemma {:induction false} PicksFound(meta: map<string, FolderInfo>, candidates: seq<FolderInfo>, path: seq<Php.Entry>,
                                      cmp: Comparison, i: nat)
    requires i < |candidates| && Picks(meta, candidates, path, cmp, i)
    ensures FirstMatch(meta, candidates, path, cmp) == Found(candidates[i])
    decreases i
  {
    if i > 0 {
      assert Passes(meta, candidates[0], path, cmp);
      var rest := candidates[1..];
      assert forall j :: 0 <= j < i - 1 ==> rest[j] == candidates[j + 1];
      assert Picks(meta, rest, path, cmp, i - 1);
      PicksFound(meta, rest, path, cmp, i - 1);
    }
  }

  /** FirstMatch finds a folder exactly when one is picked, and finds none exactly when all are passed over. */
  lemma FirstMatchOutcome(meta: map<string, FolderInfo>, candidates: seq<FolderInfo>, path: seq<Php.Entry>,
                          cmp: Comparison)
    ensures FirstMatch(meta, candidates, path, cmp).Found? <==>
              exists i :: 0 <= i < |candidates| && Picks(meta, candidates, path, cmp, i)
    ensures FirstMatch(meta, candidates, path, cmp) == NotFound <==>
              forall i :: 0 <= i < |candidates| ==> Passes(meta, candidates[i], path, cmp)
  {
    FirstMatchMeaning(meta, candidates, path, cmp);
    if exists i :: 0 <= i < |candidates| && Picks(meta, candidates, path, cmp, i) {
      var i :| 0 <= i < |candidates| && Picks(meta, candidates, path, cmp, i);
      PicksFound(meta, candidates, path, cmp, i);
    }
  }

  /**
   * A non-empty path exists exactly when some listed candidate of its last
   * name has a matching lineage and every candidate before it was passed over.
   */
  lemma RemoteFolderExistsMeaning(meta: map<string, FolderInfo>, listFolders: string -> seq<FolderInfo>,
                                  path: Php.PathArg, cmp: Comparison)
    requires !Php.Falsy(NodePaths.PathString(path))
    ensures var entries := NodePaths.PathArray(Php.PathText(NodePaths.PathString(path)));
      var candidates := listFolders(NameQuery(LastName(Php.Values(entries))));
      (RemoteFolderExists(meta, listFolders, path, cmp) == Some(true) <==>
         exists i :: 0 <= i < |candidates| && Picks(meta, candidates, entries, cmp, i)) &&
      (RemoteFolderExists(meta, listFolders, path, cmp) == Some(false) <==>
         forall i :: 0 <= i < |candidates| ==> Passes(meta, candidates[i], entries, cmp))
  {
    var q := Php.PathText(NodePaths.PathString(path));
    var entries := NodePaths.PathArray(q);
    var candidates := listFolders(NameQuery(LastName(Php.Values(entries))));
    var r := RemoteByPath(meta, listFolders, q, cmp);
    assert RemoteFolderExists(meta, listFolders, path, cmp) == (if r.Stuck? then None else Some(r.Found?));
    if |candidates| == 0 {
      assert r == NoCandidates;
    } else {
      assert r == FirstMatch(meta, candidates, entries, cmp);
      FirstMatchMeaning(meta, candidates, entries, cmp);
      FirstMatchOutcome(meta, candidates, entries, cmp);
    }
  }

  /**
   * Where both comparisons give the same answer: on a path whose keys are its
   * positions, as long as no candidate's lineage lookup fails.
   */
  lemma {:induction false} ComparisonsAgreeOnLists(meta: map<string, FolderInfo>, candidates: seq<FolderInfo>,
                                                   path: seq<Php.Entry>)
    requires Php.IsList(path)
    requires forall k :: 0 <= k < |candidates| ==> !LineageOf(meta, candidates[k].id).LookupFailed?
    ensures FirstMatch(meta, candidates, path, AsWritten) == FirstMatch(meta, candidates, path, Intended)
    decreases |candidates|
  {
    if |candidates| > 0 {
      var l := LineageOf(meta, candidates[0].id);
      if l.Chain? {
        MatchAgreesOnLists(l.folders, path);
      }
      assert forall k :: 0 <= k < |candidates| - 1 ==> candidates[1..][k] == candidates[k + 1];
      ComparisonsAgreeOnLists(meta, candidates[1..], path);
    }
  }

  /**
   * The folder b below a below the root, looked up as "a//b": found with the
   * comparison corrected, not found as written.
   */
  lemma DoubleSlashNotFound(meta: map<string, FolderInfo>, root: FolderInfo, a: FolderInfo, b: FolderInfo)
    requires root == FolderInfo("r", "ROOT", None)
    requires a == FolderInfo("ia", "a", Some(["r"])) && b == FolderInfo("ib", "b", Some(["ia"]))
    requires meta == map["r" := root, "ia" := a, "ib" := b]
    ensures LineageOf(meta, "ib") == Chain([a, b])
    ensures FirstMatch(meta, [b], NodePaths.PathArray(Php.PathText("a//b")), AsWritten) == NotFound
    ensures FirstMatch(meta, [b], NodePaths.PathArray(Php.PathText("a//b")), Intended) == Found(b)
  {
    FixtureLineage(meta, root, a, b);
    DoubleSlashMismatch(a, b);
    var path := NodePaths.PathArray(Php.PathText("a//b"));
    OneCandidate(meta, b, path, AsWritten);
    OneCandidate(meta, b, path, Intended);
  }

  /** With a single candidate whose walk ended, FirstMatch is that candidate's comparison. */
  lemma OneCandidate(meta: map<string, FolderInfo>, b: FolderInfo, path: seq<Php.Entry>, cmp: Comparison)
    requires !LineageOf(meta, b.id).Endless?
    ensures FirstMatch(meta, [b], path, cmp) == if Matches(cmp, LineageOf(meta, b.id), path) then Found(b) else NotFound
  {
    assert [b][1..] == [];
  }

  lemma FixtureLineage(meta: map<string, FolderInfo>, root: FolderInfo, a: FolderInfo, b: FolderInfo)
    requires root == FolderInfo("r", "ROOT", None)
    requires a == FolderInfo("ia", "a", Some(["r"])) && b == FolderInfo("ib", "b", Some(["ia"]))
    requires meta == map["r" := root, "ia" := a, "ib" := b]
    ensures LineageOf(meta, "ib") == Chain([a, b])
  {
    assert |meta| == 3 by {
      assert meta.Keys == {"r", "ia", "ib"};
    }
    assert Walk(meta, root, 1) == Chain([]);
    assert Walk(meta, a, 2) == Chain([a]);
    assert Walk(meta, b, 3) == Chain([a] + [b]);
  }
}
