/**
 * The local node cache of src/CloudDrive/Cache/SQL.php: a `nodes` table keyed
 * by node id and a `configs` table keyed by account e-mail, modelled as two
 * maps owned by one object. Every lookup reads the `raw_data` column back, so a
 * stored node comes back exactly as it was saved (after the root rename).
 */
module NodeStore {
  import opened Wrappers
  import Php

  /** A node record as the remote API returns it (what `raw_data` holds). */
  datatype Node = Node(
    id: string,
    name: string,
    kind: string,
    md5: Option<string>,       // contentProperties.md5; null for folders
    status: string,
    parents: seq<string>,
    isRoot: bool,              // `isRoot === true`; a missing flag is false
    createdDate: string,
    modifiedDate: string)

  /** One row of the `nodes` table: the indexed columns and the raw record. */
  datatype Row = Row(
    id: string,
    name: string,
    kind: string,
    md5: Option<string>,
    status: string,
    parents: string,           // implode(',', parents)
    created: string,
    modified: string,
    raw: Node)

  /** One row of the `configs` table, as saveAccountConfig writes it. */
  datatype AccountConfig = AccountConfig(
    email: string,
    tokenType: string,
    expiresIn: int,
    refreshToken: string,
    accessToken: string,
    lastAuthorized: int,
    contentUrl: string,
    metadataUrl: string,
    checkpoint: Option<string>)

  /** The name saveNode gives a root node that has none. */
  const RootName: string := "ROOT"

  /** The node saveNode actually stores: a root with a falsy name is renamed. */
  function Normalize(n: Node): (r: Node)
    ensures r.isRoot ==> !Php.Falsy(r.name)
    ensures r.(name := n.name) == n
    ensures !(n.isRoot && Php.Falsy(n.name)) ==> r == n
  {
    if Php.Falsy(n.name) && n.isRoot then n.(name := RootName) else n
  }

  /** The columns saveNode writes for a node. */
  function RowOf(n: Node): Row
  {
    Row(n.id, n.name, n.kind, n.md5, n.status, Php.Implode(",", n.parents),
        n.createdDate, n.modifiedDate, n)
  }

  /** Each row sits under its own id and its columns agree with its raw record. */
  ghost predicate RowsValid(rows: map<string, Row>)
  {
    forall k :: k in rows ==> rows[k] == RowOf(rows[k].raw) && rows[k].raw.id == k
  }

  /** The nodes the table holds. */
  ghost function Stored(rows: map<string, Row>): set<Node>
  {
    set k | k in rows :: rows[k].raw
  }

  /** The table after saveNode(n): an upsert keyed on the id. */
  function Saved(rows: map<string, Row>, n: Node): map<string, Row>
  {
    rows[n.id := RowOf(Normalize(n))]
  }

  /** The node findNodeById returns. */
  function Get(rows: map<string, Row>, id: string): Option<Node>
  {
    if id in rows then Some(rows[id].raw) else None
  }

  /** Whether getNodeChildren(p) returns a row: `parents LIKE '%<id>'`, a suffix match. */
  predicate IsChildRow(row: Row, parentId: string)
  {
    Php.EndsWith(row.parents, parentId)
  }

  /** The stored nodes a query keeps, the query being a condition on rows. */
  ghost function Selected(rows: map<string, Row>, keys: set<string>, keep: Row -> bool): set<Node>
  {
    set k | k in keys && k in rows && keep(rows[k]) :: rows[k].raw
  }

  /** `r` lists the elements of `s`, each once, in some order. */
  ghost predicate Lists(r: seq<Node>, s: set<Node>)
  {
    (forall x :: x in r <==> x in s) &&
    (forall i, j :: 0 <= i < j < |r| ==> r[i] != r[j])
  }

  class NodeStore {
    var rows: map<string, Row>
    var configs: map<string, AccountConfig>

    ghost predicate Valid()
      reads this
    {
      RowsValid(rows)
    }

    /** An empty cache. */
    constructor ()
      ensures Valid()
      ensures rows == map[] && configs == map[]
    {
      rows := map[];
      configs := map[];
    }

    /** deleteAllNodes: empties the node table and leaves the configs alone. */
    method DeleteAllNodes()
      requires Valid()
      modifies this
      ensures Valid()
      ensures rows == map[] && configs == old(configs)
    {
      rows := map[];
    }

    /** deleteNodeById: idempotent; succeeds whether or not the row exists. */
    method DeleteNodeById(id: string) returns (ok: bool)
      requires Valid()
      modifies this
      ensures Valid()
      ensures ok
      ensures rows == old(rows) - {id} && configs == old(configs)
    {
      if id in rows {
        rows := rows - {id};
      }
      ok := true;
    }

    /** findNodeById. */
    method FindNodeById(id: string) returns (r: Option<Node>)
      requires Valid()
      ensures r.Some? <==> id in rows
      ensures r.Some? ==> r.value == rows[id].raw && r.value.id == id
    {
      if id in rows {
        r := Some(rows[id].raw);
      } else {
        r := None;
      }
    }

    /** findNodeByMd5: some row with that checksum (`find_one`, no order), or null. */
    method FindNodeByMd5(md5: string) returns (r: Option<Node>)
      requires Valid()
      ensures r.None? <==> forall x :: x in Stored(rows) ==> x.md5 != Some(md5)
      ensures r.Some? ==> r.value in Stored(rows) && r.value.md5 == Some(md5)
    {
      if k :| k in rows && rows[k].md5 == Some(md5) {
        r := Some(rows[k].raw);
      } else {
        r := None;
      }
    }

    /** The rows a `where` clause keeps, read back through `raw_data`, in no particular order. */
    method Select(keep: Row -> bool) returns (r: seq<Node>)
      requires Valid()
      ensures Lists(r, Selected(rows, rows.Keys, keep))
    {
      var todo := rows.Keys;
      r := [];
      while todo != {}
        invariant todo <= rows.Keys
        invariant Lists(r, Selected(rows, rows.Keys - todo, keep))
        invariant forall x :: x in r ==> x.id in rows && x.id !in todo
        decreases todo
      {
        var k :| k in todo;
        ghost var before := Selected(rows, rows.Keys - todo, keep);
        if keep(rows[k]) {
          assert rows[k].raw.id == k;
          r := r + [rows[k].raw];
        }
        todo := todo - {k};
        assert Selected(rows, rows.Keys - todo, keep)
            == before + (if keep(rows[k]) then {rows[k].raw} else {});
      }
    }

    /** findNodesByName: exactly the stored nodes with that name (an exact match). */
    method FindNodesByName(name: string) returns (r: seq<Node>)
      requires Valid()
      ensures Lists(r, set x | x in Stored(rows) && x.name == name)
    {
      r := Select((row: Row) => row.name == name);
    }

    /** getNodeChildren: the stored nodes whose joined `parents` column ends with the id. */
    method GetNodeChildren(node: Node) returns (r: seq<Node>)
      requires Valid()
      ensures Lists(r, set x | x in Stored(rows) && Php.EndsWith(Php.Implode(",", x.parents), node.id))
    {
      r := Select((row: Row) => IsChildRow(row, node.id));
    }

    /** The children getNodeChildren evidently means: the stored nodes that list the id among their parents. */
    method GetNodeChildrenByParent(node: Node) returns (r: seq<Node>)
      requires Valid()
      ensures Lists(r, set x | x in Stored(rows) && node.id in x.parents)
    {
      r := Select((row: Row) => node.id in row.raw.parents);
      assert Selected(rows, rows.Keys, (row: Row) => node.id in row.raw.parents)
          == set x | x in Stored(rows) && node.id in x.parents;
    }

    /** saveNode: renames a nameless root, then upserts the row by id. */
    method SaveNode(node: Node)
      requires Valid()
      modifies this
      ensures Valid()
      ensures rows == Saved(old(rows), node) && configs == old(configs)
    {
      var n := node;
      if Php.Falsy(n.name) && n.isRoot {
        n := n.(name := RootName);
      }
      rows := rows[n.id := RowOf(n)];
    }

    /** loadAccountConfig: the row for that e-mail, or null. */
    method LoadAccountConfig(email: string) returns (r: Option<AccountConfig>)
      ensures r.Some? <==> email in configs
      ensures r.Some? ==> r.value == configs[email]
    {
      if email in configs {
        r := Some(configs[email]);
      } else {
        r := None;
      }
    }

    /** saveAccountConfig: upserts the row for the account's e-mail. */
    method SaveAccountConfig(config: AccountConfig) returns (ok: bool)
      modifies this
      ensures ok
      ensures configs == old(configs)[config.email := config] && rows == old(rows)
    {
      configs := configs[config.email := config];
      ok := true;
    }
  }

  // -----------------------------------------------------------------------
  // Properties of the table operations

  /** saveNode then findNodeById returns the node, renamed only if it is a nameless root. */
  lemma SaveThenGet(rows: map<string, Row>, n: Node)
    requires RowsValid(rows)
    ensures RowsValid(Saved(rows, n))
    ensures Get(Saved(rows, n), n.id) == Some(Normalize(n))
    ensures Normalize(n) == n || (n.isRoot && Php.Falsy(n.name) && Normalize(n) == n.(name := RootName))
  {
  }

  /** saveNode is an upsert: one row per id, other rows untouched, saving twice is saving once. */
  lemma SaveUpsert(rows: map<string, Row>, n: Node)
    ensures Saved(rows, n).Keys == rows.Keys + {n.id}
    ensures forall k :: k in rows && k != n.id ==> Saved(rows, n)[k] == rows[k]
    ensures Saved(Saved(rows, n), n) == Saved(rows, n)
    ensures Saved(rows, Normalize(n)) == Saved(rows, n)
  {
  }

  /** deleteNodeById: the id is gone afterwards, nothing else changes, twice is once. */
  lemma DeleteProperties(rows: map<string, Row>, id: string)
    ensures Get(rows - {id}, id) == None
    ensures forall k :: k != id ==> Get(rows - {id}, k) == Get(rows, k)
    ensures id !in rows ==> rows - {id} == rows
    ensures (rows - {id}) - {id} == rows - {id}
  {
  }

  /** A node whose last parent is `p` is one of p's children. */
  lemma {:induction false} LastParentIsChild(n: Node, parentId: string)
    requires |n.parents| >= 1 && n.parents[|n.parents| - 1] == parentId
    ensures IsChildRow(RowOf(n), parentId)
  {
    Php.ImplodeEndsWithLast(",", n.parents);
  }

  /**
   * The suffix match both misses and admits children: a node whose parents
   * are p and q is not a child of p, and a node whose only parent is xp is.
   */
  lemma SuffixMatchIsNotMembership(n: Node)
    requires n.parents == ["p", "q"]
    ensures "p" in n.parents && !IsChildRow(RowOf(n), "p")
    ensures var m := n.(parents := ["xp"]); "p" !in m.parents && IsChildRow(RowOf(m), "p")
  {
    assert Php.Implode(",", ["p", "q"]) == "p,q" by {
      assert ["p", "q"][..1] == ["p"];
    }
    assert "p,q"[2..] == "q";
    assert Php.Implode(",", ["xp"]) == "xp";
    assert "xp"[1..] == "p";
  }

  /** Checksums are looked up through the md5 column, which agrees with the raw record. */
  lemma Md5ColumnAgrees(rows: map<string, Row>, md5: string)
    requires RowsValid(rows)
    ensures (exists k :: k in rows && rows[k].md5 == Some(md5)) <==>
            (exists x :: x in Stored(rows) && x.md5 == Some(md5))
  {
    if exists x :: x in Stored(rows) && x.md5 == Some(md5) {
      var x :| x in Stored(rows) && x.md5 == Some(md5);
      assert rows[x.id].md5 == Some(md5);
    }
  }
}
