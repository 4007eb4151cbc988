/**
 * Building the dataset: each file's tree is walked with an explicit stack,
 * every object node that yields a record is stored under its id (a node
 * visited later overwrites an earlier one), and the per-file maps are merged
 * in the fixed order of the target files, the later file winning.
 */
module Extract {
  import opened Wrappers
  import opened Syntax
  import opened Normalize

  type Dataset = map<string, Record>

  /** The files scanned, in merge order. */
  const TargetFiles: seq<string> := ["data.ts", "data1.ts", "data2.ts", "data3.ts", "data4.ts"]

  /** The record that visiting `n` stores, if any: only object nodes are considered. */
  ghost function NodeRecord(n: Node, fileName: string): (r: Option<Record>)
    ensures r.Some? ==> r.value.id != "" && r.value.file == fileName
  {
    if IsObject(n) then ObjectRecord(n, fileName) else None
  }

  /** Visiting `n` stores a record under key `k`. */
  ghost predicate Yields(n: Node, fileName: string, k: string)
  {
    NodeRecord(n, fileName).Some? && NodeRecord(n, fileName).value.id == k
  }

  /** The records the nodes yield, position by position. */
  ghost function NodeRecords(nodes: seq<Node>, fileName: string): (r: seq<Option<Record>>)
    ensures |r| == |nodes|
  {
    if nodes == [] then []
    else NodeRecords(nodes[..|nodes| - 1], fileName) + [NodeRecord(nodes[|nodes| - 1], fileName)]
  }

  lemma NodeRecordsSnoc(nodes: seq<Node>, n: Node, fileName: string)
    ensures NodeRecords(nodes + [n], fileName) == NodeRecords(nodes, fileName) + [NodeRecord(n, fileName)]
  {
    assert (nodes + [n])[..|nodes|] == nodes;
  }

  /** Position `i` of the records is what the node at position `i` yields. */
  lemma {:induction false} NodeRecordsAt(nodes: seq<Node>, fileName: string, i: nat)
    requires i < |nodes|
    ensures NodeRecords(nodes, fileName)[i] == NodeRecord(nodes[i], fileName)
  {
    if i < |nodes| - 1 {
      NodeRecordsAt(nodes[..|nodes| - 1], fileName, i);
    }
  }

  /** Storing a sequence of optional records in order under their ids: a later record overwrites. */
  function Store(recs: seq<Option<Record>>): (r: Dataset)
    ensures forall k :: k in r ==> r[k].id == k
  {
    if recs == [] then map[]
    else
      var before := Store(recs[..|recs| - 1]);
      match recs[|recs| - 1]
      case None => before
      case Some(rec) => before[rec.id := rec]
  }

  predicate HasId(o: Option<Record>, k: string)
  {
    o.Some? && o.value.id == k
  }

  /** Storing one more record: absent, nothing changes; present, it is stored under its id. */
  lemma StoreSnoc(recs: seq<Option<Record>>, o: Option<Record>)
    ensures Store(recs + [o]) == if o.Some? then Store(recs)[o.value.id := o.value] else Store(recs)
  {
    assert (recs + [o])[..|recs|] == recs;
  }

  /** A key is stored exactly when some record carries it. */
  lemma {:induction false} StoreKeys(recs: seq<Option<Record>>, k: string)
    ensures k in Store(recs) <==> exists i :: 0 <= i < |recs| && HasId(recs[i], k)
  {
    if recs != [] {
      var init := recs[..|recs| - 1];
      StoreKeys(init, k);
      if exists i :: 0 <= i < |recs| && HasId(recs[i], k) {
        var i :| 0 <= i < |recs| && HasId(recs[i], k);
        if i < |init| { assert HasId(init[i], k); }
      }
      if exists i :: 0 <= i < |init| && HasId(init[i], k) {
        var i :| 0 <= i < |init| && HasId(init[i], k);
        assert HasId(recs[i], k);
      }
    }
  }

  /** The stored value is the last record carrying the key. */
  lemma {:induction false} StoreLastWins(recs: seq<Option<Record>>, i: nat, k: string)
    requires i < |recs| && HasId(recs[i], k)
    requires forall j :: i < j < |recs| ==> !HasId(recs[j], k)
    ensures k in Store(recs) && Store(recs)[k] == recs[i].value
  {
    if i < |recs| - 1 {
      assert !HasId(recs[|recs| - 1], k);
      StoreLastWins(recs[..|recs| - 1], i, k);
    }
  }

  /** Every stored record is one of the records, unchanged. */
  lemma {:induction false} StoreFrom(recs: seq<Option<Record>>, k: string)
    requires k in Store(recs)
    ensures exists i :: 0 <= i < |recs| && recs[i] == Some(Store(recs)[k])
  {
    var init, last := recs[..|recs| - 1], recs[|recs| - 1];
    if HasId(last, k) {
      assert recs[|recs| - 1] == Some(Store(recs)[k]);
    } else {
      StoreFrom(init, k);
      var i :| 0 <= i < |init| && init[i] == Some(Store(init)[k]);
      assert recs[i] == init[i];
    }
  }

  /** `parse_file_ts` on a parsed tree: the records of the file, keyed by id, in walk order. */
  ghost function FileRecords(root: Node, fileName: string): Dataset
  {
    Store(NodeRecords(Preorder(root), fileName))
  }

  /** Every record of a file's map sits under its own id and names that file. */
  lemma FileRecordsIds(root: Node, fileName: string, k: string)
    requires k in FileRecords(root, fileName)
    ensures FileRecords(root, fileName)[k].id == k && FileRecords(root, fileName)[k].file == fileName
  {
    var order := Preorder(root);
    var recs := NodeRecords(order, fileName);
    StoreFrom(recs, k);
    var i :| 0 <= i < |recs| && recs[i] == Some(Store(recs)[k]);
    NodeRecordsAt(order, fileName, i);
  }

  /** Within one file, the record under an id is the one from the last node the walk visits that yields it. */
  lemma FileRecordsLastWins(root: Node, fileName: string, i: nat, k: string)
    requires i < |Preorder(root)| && Yields(Preorder(root)[i], fileName, k)
    requires forall j :: i < j < |Preorder(root)| ==> !Yields(Preorder(root)[j], fileName, k)
    ensures k in FileRecords(root, fileName)
    ensures FileRecords(root, fileName)[k] == NodeRecord(Preorder(root)[i], fileName).value
  {
    var order := Preorder(root);
    var recs := NodeRecords(order, fileName);
    forall j | i < j < |recs| ensures !HasId(recs[j], k) {
      assert !Yields(order[j], fileName, k);
      NodeRecordsAt(order, fileName, j);
    }
    NodeRecordsAt(order, fileName, i);
    StoreLastWins(recs, i, k);
  }

  /**
   * The keys of a file's map are the ids of the object nodes anywhere in
   * its tree, nested objects included.
   */
  lemma FileRecordsFromTree(root: Node, fileName: string, k: string)
    ensures k in FileRecords(root, fileName) <==> exists x :: InTree(x, root) && Yields(x, fileName, k)
  {
    var order := Preorder(root);
    var recs := NodeRecords(order, fileName);
    StoreKeys(recs, k);
    if k in FileRecords(root, fileName) {
      var i :| 0 <= i < |recs| && HasId(recs[i], k);
      NodeRecordsAt(order, fileName, i);
      assert Yields(order[i], fileName, k);
      PreorderVisitsTree(root, order[i]);
    }
    if exists x :: InTree(x, root) && Yields(x, fileName, k) {
      var x :| InTree(x, root) && Yields(x, fileName, k);
      PreorderVisitsTree(root, x);
      var i :| 0 <= i < |order| && order[i] == x;
      NodeRecordsAt(order, fileName, i);
      assert HasId(recs[i], k);
    }
  }

  /** `parse_file_ts`: pops a node, records it if it is an object with a record, pushes its children. */
  method ParseFileTs(root: Node, fileName: string) returns (byId: Dataset)
    ensures byId == FileRecords(root, fileName)
  {
    byId := map[];
    var stack := [root];
    ghost var visited: seq<Node> := [];
    assert PreorderStack(stack) == Preorder(root) by {
      assert stack[..0] == [];
    }
    while stack != []
      invariant visited + PreorderStack(stack) == Preorder(root)
      invariant byId == Store(NodeRecords(visited, fileName))
      decreases |PreorderStack(stack)|
    {
      var node := stack[|stack| - 1];
      assert stack == stack[..|stack| - 1] + [node];
      stack := stack[..|stack| - 1];
      PreorderStackPop(stack, node);
      assert visited + [node] + PreorderStack(stack + node.children) == Preorder(root);
      NodeRecordsSnoc(visited, node, fileName);
      StoreSnoc(NodeRecords(visited, fileName), NodeRecord(node, fileName));
      var found: Option<Record> := None;
      if IsObject(node) {
        found := ObjectToProtocolMin(node, fileName);
        if found.Some? && found.value.id != "" {
          byId := byId[found.value.id := found.value];
        }
      }
      assert found == NodeRecord(node, fileName);
      stack := stack + node.children;
      visited := visited + [node];
    }
    assert visited + [] == visited;
  }

  /** `dataset.update(m)` for each map in turn, starting from an empty dataset. */
  function Overlay(maps: seq<Dataset>): (r: Dataset)
    ensures r.Keys <= UnionKeys(maps)
  {
    if maps == [] then map[]
    else Overlay(maps[..|maps| - 1]) + maps[|maps| - 1]
  }

  function UnionKeys(maps: seq<Dataset>): set<string>
  {
    if maps == [] then {} else UnionKeys(maps[..|maps| - 1]) + maps[|maps| - 1].Keys
  }

  /** Every value in the overlay is the value some map holds under that key. */
  lemma {:induction false} OverlayFrom(maps: seq<Dataset>, k: string)
    requires k in Overlay(maps)
    ensures exists i :: 0 <= i < |maps| && k in maps[i] && Overlay(maps)[k] == maps[i][k]
  {
    var init, last := maps[..|maps| - 1], maps[|maps| - 1];
    if k in last {
      assert Overlay(maps)[k] == maps[|maps| - 1][k];
    } else {
      OverlayFrom(init, k);
      var i :| 0 <= i < |init| && k in init[i] && Overlay(init)[k] == init[i][k];
      assert maps[i] == init[i];
    }
  }

  /** A key is in the overlay exactly when some map holds it. */
  lemma {:induction false} OverlayKeys(maps: seq<Dataset>, k: string)
    ensures k in Overlay(maps) <==> exists i :: 0 <= i < |maps| && k in maps[i]
  {
    if maps != [] {
      var init := maps[..|maps| - 1];
      OverlayKeys(init, k);
      if exists i :: 0 <= i < |init| && k in init[i] {
        var i :| 0 <= i < |init| && k in init[i];
        assert k in maps[i];
      }
    }
  }

  /** The value under a key comes from the last map that holds the key. */
  lemma {:induction false} OverlayLastWins(maps: seq<Dataset>, i: nat, k: string)
    requires i < |maps| && k in maps[i]
    requires forall j :: i < j < |maps| ==> k !in maps[j]
    ensures k in Overlay(maps) && Overlay(maps)[k] == maps[i][k]
  {
    if i < |maps| - 1 {
      assert k !in maps[|maps| - 1];
      OverlayLastWins(maps[..|maps| - 1], i, k);
    }
  }

  /** The map file `f` contributes: its records if it has a tree, nothing if it is missing. */
  ghost function FileMap(trees: map<string, Node>, f: string): Dataset
  {
    if f in trees then FileRecords(trees[f], f) else map[]
  }

  /** The per-file maps of `files`, in order. */
  ghost function FileMaps(files: seq<string>, trees: map<string, Node>): (r: seq<Dataset>)
    ensures |r| == |files|
  {
    if files == [] then []
    else FileMaps(files[..|files| - 1], trees) + [FileMap(trees, files[|files| - 1])]
  }

  lemma {:induction false} FileMapsAt(files: seq<string>, trees: map<string, Node>, i: nat)
    requires i < |files|
    ensures FileMaps(files, trees)[i] == FileMap(trees, files[i])
  {
    if i < |files| - 1 {
      FileMapsAt(files[..|files| - 1], trees, i);
    }
  }

  /** The dataset built from `files` in order, the later file winning on a shared id. */
  ghost function MergeFiles(files: seq<string>, trees: map<string, Node>): Dataset
  {
    Overlay(FileMaps(files, trees))
  }

  /** Every record in the dataset sits under its own id and comes from one of the listed files. */
  lemma MergeFilesIds(files: seq<string>, trees: map<string, Node>, k: string)
    requires k in MergeFiles(files, trees)
    ensures MergeFiles(files, trees)[k].id == k && MergeFiles(files, trees)[k].file in files
  {
    var maps := FileMaps(files, trees);
    OverlayFrom(maps, k);
    var i :| 0 <= i < |maps| && k in maps[i] && Overlay(maps)[k] == maps[i][k];
    FileMapsAt(files, trees, i);
    FileRecordsIds(trees[files[i]], files[i], k);
  }

  /** File `f` contributes key `k`. */
  ghost predicate Contributes(trees: map<string, Node>, f: string, k: string)
  {
    k in FileMap(trees, f)
  }

  /** A key is in the dataset exactly when some listed file contributes it. */
  lemma MergeKeys(files: seq<string>, trees: map<string, Node>, k: string)
    ensures k in MergeFiles(files, trees) <==> exists i :: 0 <= i < |files| && Contributes(trees, files[i], k)
  {
    var maps := FileMaps(files, trees);
    OverlayKeys(maps, k);
    if exists i :: 0 <= i < |files| && Contributes(trees, files[i], k) {
      var i :| 0 <= i < |files| && Contributes(trees, files[i], k);
      FileMapsAt(files, trees, i);
      assert k in maps[i];
    }
    if exists i :: 0 <= i < |maps| && k in maps[i] {
      var i :| 0 <= i < |maps| && k in maps[i];
      FileMapsAt(files, trees, i);
      assert Contributes(trees, files[i], k);
    }
  }

  /** On an id collision the last listed file that holds the id wins. */
  lemma MergeLastWins(files: seq<string>, trees: map<string, Node>, i: nat, k: string)
    requires i < |files| && Contributes(trees, files[i], k)
    requires forall j :: i < j < |files| ==> !Contributes(trees, files[j], k)
    ensures k in MergeFiles(files, trees)
    ensures MergeFiles(files, trees)[k] == FileMap(trees, files[i])[k]
  {
    var maps := FileMaps(files, trees);
    forall j | i < j < |maps| ensures k !in maps[j] {
      assert !Contributes(trees, files[j], k);
      FileMapsAt(files, trees, j);
    }
    FileMapsAt(files, trees, i);
    OverlayLastWins(maps, i, k);
  }

  lemma MergeStep(files: seq<string>, trees: map<string, Node>, i: nat)
    requires i < |files|
    ensures files[i] in trees ==>
      MergeFiles(files[..i + 1], trees) == MergeFiles(files[..i], trees) + FileRecords(trees[files[i]], files[i])
    ensures files[i] !in trees ==> MergeFiles(files[..i + 1], trees) == MergeFiles(files[..i], trees)
  {
    var maps := FileMaps(files[..i + 1], trees);
    assert files[..i + 1][..i] == files[..i];
    assert maps[..i] == FileMaps(files[..i], trees);
    var before := MergeFiles(files[..i], trees);
    assert before + map[] == before;
  }

  /**
   * The merge loop of the entry point, which runs it over `TargetFiles`:
   * parse each file present and overwrite the dataset with its records.
   */
  method BuildDataset(files: seq<string>, trees: map<string, Node>) returns (dataset: Dataset)
    ensures dataset == MergeFiles(files, trees)
  {
    dataset := map[];
    for i := 0 to |files|
      invariant dataset == MergeFiles(files[..i], trees)
    {
      var fname := files[i];
      MergeStep(files, trees, i);
      if fname in trees {
        var perFile := ParseFileTs(trees[fname], fname);
        dataset := dataset + perFile;
      }
    }
    assert files[..|files|] == files;
  }

  /** The dataset of one run: the five data files, later files winning. */
  method BuildTargetDataset(trees: map<string, Node>) returns (dataset: Dataset)
    ensures dataset == MergeFiles(TargetFiles, trees)
  {
    dataset := BuildDataset(TargetFiles, trees);
  }
}
