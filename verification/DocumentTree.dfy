/** The sidebar tree: documents as leaves under the folders of their paths, with file counts. */
module DocumentTree {
  import opened Results
  import opened Paths
  import opened DocumentFolders

  /** A file leaf names its document by number. */
  datatype Node =
    | File(name: string, document: nat)
    | FolderNode(name: string, path: string, children: seq<Node>, fileCount: nat)

  datatype Document = Document(path: string, title: string)

  // ---- building ----

  function Under(prefix: string, segment: string): string {
    if prefix != "" then prefix + "/" + segment else segment
  }

  /** The child folder with a path. */
  function FindFolder(children: seq<Node>, path: string): Option<nat> {
    if |children| == 0 then None
    else if children[0].FolderNode? && children[0].path == path then Some(0)
    else match FindFolder(children[1..], path)
      case None => None
      case Some(i) => Some(i + 1)
  }

  lemma {:induction false} FoundFolder(children: seq<Node>, path: string)
    ensures match FindFolder(children, path)
            case Some(i) => i < |children| && children[i].FolderNode? && children[i].path == path
            case None => forall i | 0 <= i < |children| && children[i].FolderNode? :: children[i].path != path
  {
    if |children| > 0 { FoundFolder(children[1..], path); }
  }

  /** Walking down to a document's folder, making folders on the way, and adding the leaf. */
  function Insert(children: seq<Node>, prefix: string, segments: seq<string>, leaf: Node): seq<Node>
    decreases |segments|
  {
    if |segments| == 0 then children + [leaf]
    else
      var path := Under(prefix, segments[0]);
      match FindFolder(children, path)
      case Some(i) =>
        FoundFolder(children, path);
        var folder := children[i];
        children[i := folder.(children := Insert(folder.children, path, segments[1..], leaf))]
      case None => children + [FolderNode(segments[0], path, Insert([], path, segments[1..], leaf), 0)]
  }

  function LeafOf(document: Document, number: nat): Node {
    var segments := Segments(document.path);
    File(if |segments| > 0 then segments[|segments| - 1] else if document.title != "" then document.title else "Untitled", number)
  }

  /** The tree of the first n documents, before sorting. */
  function Build(documents: seq<Document>, n: nat): seq<Node>
    requires n <= |documents|
  {
    if n == 0 then []
    else Insert(Build(documents, n - 1), "", FolderSegments(documents[n - 1].path), LeafOf(documents[n - 1], n - 1))
  }

  /** The loop over the documents. */
  method BuildUnsorted(documents: seq<Document>) returns (root: seq<Node>)
    ensures root == Build(documents, |documents|)
  {
    root := [];
    for i := 0 to |documents|
      invariant root == Build(documents, i)
    {
      root := Insert(root, "", FolderSegments(documents[i].path), LeafOf(documents[i], i));
    }
  }

  // ---- where the documents are ----

  /** A leaf: the names of the folders above it, the name it shows, and its document. */
  datatype Leaf = Leaf(trail: seq<string>, name: string, document: nat)

  ghost function Leaves(nodes: seq<Node>, trail: seq<string>): multiset<Leaf>
    decreases nodes, 1
  {
    if |nodes| == 0 then multiset{} else LeavesOf(nodes[0], trail) + Leaves(nodes[1..], trail)
  }

  ghost function LeavesOf(node: Node, trail: seq<string>): multiset<Leaf>
    decreases node, 0
  {
    match node
    case File(name, d) => multiset{Leaf(trail, name, d)}
    case FolderNode(name, _, children, _) => Leaves(children, trail + [name])
  }

  /** Folders carry the path of where they are, and siblings have different ones. */
  ghost predicate Placed(nodes: seq<Node>, prefix: string)
    decreases nodes, 1
  {
    (forall i, j | 0 <= i < j < |nodes| && nodes[i].FolderNode? && nodes[j].FolderNode? :: nodes[i].path != nodes[j].path)
    && forall i | 0 <= i < |nodes| :: PlacedNode(nodes[i], prefix)
  }

  ghost predicate PlacedNode(node: Node, prefix: string)
    decreases node, 0
  {
    node.FolderNode? ==>
      node.name != "" && '/' !in node.name && node.path == Under(prefix, node.name) && Placed(node.children, node.path)
  }

  lemma {:induction false} LeavesConcat(a: seq<Node>, b: seq<Node>, trail: seq<string>)
    ensures Leaves(a + b, trail) == Leaves(a, trail) + Leaves(b, trail)
    decreases |a|
  {
    if |a| == 0 {
      assert a + b == b;
    } else {
      assert (a + b)[1..] == a[1..] + b;
      LeavesConcat(a[1..], b, trail);
    }
  }

  lemma LeavesOfOne(node: Node, trail: seq<string>)
    ensures Leaves([node], trail) == LeavesOf(node, trail)
  {
    assert [node][1..] == [];
  }

  lemma LeavesAfterUpdate(nodes: seq<Node>, i: nat, node: Node, extra: multiset<Leaf>, trail: seq<string>)
    requires i < |nodes| && LeavesOf(node, trail) == LeavesOf(nodes[i], trail) + extra
    ensures Leaves(nodes[i := node], trail) == Leaves(nodes, trail) + extra
  {
    hide Leaves, LeavesOf;
    assert nodes == nodes[..i] + [nodes[i]] + nodes[i + 1..];
    assert nodes[i := node] == nodes[..i] + [node] + nodes[i + 1..];
    LeavesConcat(nodes[..i] + [nodes[i]], nodes[i + 1..], trail);
    LeavesConcat(nodes[..i] + [node], nodes[i + 1..], trail);
    LeavesConcat(nodes[..i], [nodes[i]], trail);
    LeavesConcat(nodes[..i], [node], trail);
    LeavesOfOne(nodes[i], trail);
    LeavesOfOne(node, trail);
  }

  lemma UnderIsInjective(prefix: string, a: string, b: string)
    requires a != "" && b != ""
    ensures Under(prefix, a) == Under(prefix, b) ==> a == b
    ensures Under(prefix, a) != ""
  {
    var p := prefix + "/";
    assert (p + a)[|p|..] == a && (p + b)[|p|..] == b;
  }

  /** Inserting never makes a second folder for the same path, and names every folder rightly. */
  lemma {:induction false} InsertKeepsPlaced(children: seq<Node>, prefix: string, segments: seq<string>, leaf: Node)
    requires leaf.File? && Trail(segments) && Placed(children, prefix)
    ensures Placed(Insert(children, prefix, segments, leaf), prefix)
    decreases |segments|
  {
    if |segments| > 0 {
      var path, rest := Under(prefix, segments[0]), segments[1..];
      FoundFolder(children, path);
      match FindFolder(children, path)
      case Some(i) =>
        assert PlacedNode(children[i], prefix);
        InsertKeepsPlaced(children[i].children, path, rest, leaf);
      case None =>
        InsertKeepsPlaced([], path, rest, leaf);
    }
  }

  /** Inserting a document adds exactly one leaf, below exactly the folders of its path, and
      moves no other leaf. */
  lemma {:induction false} InsertAddsOneLeaf(
    children: seq<Node>, prefix: string, segments: seq<string>, leaf: Node, trail: seq<string>)
    requires leaf.File? && Trail(segments) && Placed(children, prefix)
    ensures Leaves(Insert(children, prefix, segments, leaf), trail) ==
            Leaves(children, trail) + multiset{Leaf(trail + segments, leaf.name, leaf.document)}
    decreases |segments|
  {
    hide Leaves;
    if |segments| == 0 {
      LeavesConcat(children, [leaf], trail);
      LeavesOfOne(leaf, trail);
      assert trail + segments == trail;
    } else {
      var path, rest := Under(prefix, segments[0]), segments[1..];
      FoundFolder(children, path);
      assert trail + [segments[0]] + rest == trail + segments;
      match FindFolder(children, path)
      case Some(i) =>
        var folder := children[i];
        assert PlacedNode(folder, prefix);
        UnderIsInjective(prefix, folder.name, segments[0]);
        InsertAddsOneLeaf(folder.children, path, rest, leaf, trail + [segments[0]]);
        LeavesAfterUpdate(children, i, folder.(children := Insert(folder.children, path, rest, leaf)),
                          multiset{Leaf(trail + segments, leaf.name, leaf.document)}, trail);
      case None =>
        NoLeaves(trail + [segments[0]], path);
        InsertAddsOneLeaf([], path, rest, leaf, trail + [segments[0]]);
        var folder := FolderNode(segments[0], path, Insert([], path, rest, leaf), 0);
        LeavesConcat(children, [folder], trail);
        LeavesOfOne(folder, trail);
    }
  }

  // ---- the index of folders ----

  /** A folder anywhere below, by the names on the way to it. */
  ghost predicate Within(nodes: seq<Node>, trail: seq<string>, folder: Node)
    decreases |trail|
  {
    |trail| > 0 && exists i :: 0 <= i < |nodes| && nodes[i].FolderNode? && nodes[i].name == trail[0]
                               && if |trail| == 1 then nodes[i] == folder else Within(nodes[i].children, trail[1..], folder)
  }

  /** The folder that the program's index, keyed by path and filled with every folder of the tree,
      holds for a path. */
  function Indexed(nodes: seq<Node>, path: string): Option<Node>
    decreases nodes
  {
    if |nodes| == 0 then None
    else if nodes[0].FolderNode? && nodes[0].path == path then Some(nodes[0])
    else
      var inside := if nodes[0].FolderNode? then Indexed(nodes[0].children, path) else None;
      if inside.Some? then inside else Indexed(nodes[1..], path)
  }

  /** The children of the folder reached by names from the root. */
  function Reached(nodes: seq<Node>, prefix: string, trail: seq<string>): Option<seq<Node>>
    decreases |trail|
  {
    if |trail| == 0 then Some(nodes)
    else match FindFolder(nodes, Under(prefix, trail[0]))
      case None => None
      case Some(i) =>
        FoundFolder(nodes, Under(prefix, trail[0]));
        Reached(nodes[i].children, Under(prefix, trail[0]), trail[1..])
  }

  function PathUnder(prefix: string, trail: seq<string>): string
    decreases |trail|
  {
    if |trail| == 0 then prefix else PathUnder(Under(prefix, trail[0]), trail[1..])
  }

  lemma {:induction false} PathUnderJoins(prefix: string, trail: seq<string>)
    requires Trail(trail)
    ensures PathUnder(prefix, trail) ==
            if prefix == "" then Join(trail) else if trail == [] then prefix else prefix + "/" + Join(trail)
    decreases |trail|
  {
    if |trail| > 0 {
      UnderIsInjective(prefix, trail[0], trail[0]);
      PathUnderJoins(Under(prefix, trail[0]), trail[1..]);
      if |trail| == 1 {
        assert trail[1..] == [];
      }
    }
  }

  /** The path of a folder is made of the names on the way to it. */
  lemma {:induction false} WithinPath(nodes: seq<Node>, prefix: string, trail: seq<string>, folder: Node)
    requires Placed(nodes, prefix) && Within(nodes, trail, folder)
    ensures folder.FolderNode? && folder.path == PathUnder(prefix, trail) && Trail(trail)
    decreases |trail|
  {
    var i :| 0 <= i < |nodes| && nodes[i].FolderNode? && nodes[i].name == trail[0]
             && if |trail| == 1 then nodes[i] == folder else Within(nodes[i].children, trail[1..], folder);
    assert PlacedNode(nodes[i], prefix);
    if |trail| == 1 {
      assert trail[1..] == [];
    } else {
      WithinPath(nodes[i].children, Under(prefix, trail[0]), trail[1..], folder);
      assert trail == [trail[0]] + trail[1..];
    }
  }

  /** The names lead to one folder only. */
  lemma {:induction false} WithinOnce(nodes: seq<Node>, prefix: string, trail: seq<string>, a: Node, b: Node)
    requires Placed(nodes, prefix) && Within(nodes, trail, a) && Within(nodes, trail, b)
    ensures a == b
    decreases |trail|
  {
    var i :| 0 <= i < |nodes| && nodes[i].FolderNode? && nodes[i].name == trail[0]
             && if |trail| == 1 then nodes[i] == a else Within(nodes[i].children, trail[1..], a);
    var j :| 0 <= j < |nodes| && nodes[j].FolderNode? && nodes[j].name == trail[0]
             && if |trail| == 1 then nodes[j] == b else Within(nodes[j].children, trail[1..], b);
    assert PlacedNode(nodes[i], prefix) && PlacedNode(nodes[j], prefix);
    assert i == j;
    if |trail| > 1 { WithinOnce(nodes[i].children, nodes[i].path, trail[1..], a, b); }
  }

  lemma {:induction false} IndexedMeaning(nodes: seq<Node>, path: string) returns (trail: seq<string>)
    ensures match Indexed(nodes, path)
            case Some(folder) => Within(nodes, trail, folder) && folder.FolderNode? && folder.path == path
            case None => forall t, folder | Within(nodes, t, folder) && folder.FolderNode? :: folder.path != path
    decreases nodes
  {
    trail := [];
    if |nodes| > 0 {
      var first, rest := nodes[0], nodes[1..];
      trail := IndexedMeaning(rest, path);
      var inner := trail;
      if first.FolderNode? { inner := IndexedMeaning(first.children, path); }
      if first.FolderNode? && first.path == path {
        trail := [first.name];
      } else if first.FolderNode? && Indexed(first.children, path).Some? {
        trail := [first.name] + inner;
        assert trail[1..] == inner;
      } else {
        IndexedRest(nodes, path, trail);
      }
    }
  }

  lemma IndexedRest(nodes: seq<Node>, path: string, trail: seq<string>)
    requires |nodes| > 0 && !(nodes[0].FolderNode? && nodes[0].path == path)
    requires nodes[0].FolderNode? ==> forall t, folder | Within(nodes[0].children, t, folder) && folder.FolderNode? :: folder.path != path
    requires match Indexed(nodes[1..], path)
             case Some(folder) => Within(nodes[1..], trail, folder)
             case None => forall t, folder | Within(nodes[1..], t, folder) && folder.FolderNode? :: folder.path != path
    ensures match Indexed(nodes[1..], path)
            case Some(folder) => Within(nodes, trail, folder)
            case None => forall t, folder | Within(nodes, t, folder) && folder.FolderNode? :: folder.path != path
  {
    forall t, folder | Within(nodes, t, folder) && folder.FolderNode? && Indexed(nodes[1..], path).None? ensures folder.path != path {
      var i :| 0 <= i < |nodes| && nodes[i].FolderNode? && nodes[i].name == t[0]
               && if |t| == 1 then nodes[i] == folder else Within(nodes[i].children, t[1..], folder);
      if i > 0 {
        assert nodes[1..][i - 1] == nodes[i];
        assert Within(nodes[1..], t, folder);
      }
    }
    if Indexed(nodes[1..], path).Some? {
      var folder := Indexed(nodes[1..], path).value;
      var i :| 0 <= i < |nodes[1..]| && nodes[1..][i].FolderNode? && nodes[1..][i].name == trail[0]
               && if |trail| == 1 then nodes[1..][i] == folder else Within(nodes[1..][i].children, trail[1..], folder);
      assert nodes[i + 1] == nodes[1..][i];
    }
  }

  /** A child of a reached folder is within the tree, by one more name. */
  lemma {:induction false} ReachedWithin(nodes: seq<Node>, prefix: string, trail: seq<string>, folder: Node)
    requires Placed(nodes, prefix) && Trail(trail) && Reached(nodes, prefix, trail).Some?
    requires folder.FolderNode?
    ensures folder in Reached(nodes, prefix, trail).value <==> Within(nodes, trail + [folder.name], folder)
    ensures Placed(Reached(nodes, prefix, trail).value, PathUnder(prefix, trail))
    decreases |trail|
  {
    if |trail| == 0 {
      assert trail + [folder.name] == [folder.name];
    } else {
      var path := Under(prefix, trail[0]);
      FoundFolder(nodes, path);
      var i := FindFolder(nodes, path).value;
      assert PlacedNode(nodes[i], prefix);
      UnderIsInjective(prefix, nodes[i].name, trail[0]);
      ReachedWithin(nodes[i].children, path, trail[1..], folder);
      assert (trail + [folder.name])[1..] == trail[1..] + [folder.name];
      forall j: nat | j < |nodes| && nodes[j].FolderNode? && nodes[j].name == trail[0] ensures j == i {
        assert PlacedNode(nodes[j], prefix);
      }
    }
  }

  /** Looking a folder up in the index, as the program does, finds the very child that looking among
      the children of the current folder finds, or neither finds any. */
  lemma IndexYieldsChild(tree: seq<Node>, trail: seq<string>, segment: string)
    requires Placed(tree, "") && Trail(trail + [segment]) && Reached(tree, "", trail).Some?
    ensures var children, path := Reached(tree, "", trail).value, Join(trail + [segment]);
            Indexed(tree, path) ==
            match FindFolder(children, path)
            case Some(i) => (FoundFolder(children, path); Some(children[i]))
            case None => None
  {
    hide Placed, Within, Trail, Reached, FindFolder, Indexed, PathUnder, Join;
    var children, path, full := Reached(tree, "", trail).value, Join(trail + [segment]), trail + [segment];
    TrailParts(trail, segment);
    FoundFolder(children, path);
    var found := IndexedMeaning(tree, path);
    PathUnderJoins("", full);
    if FindFolder(children, path).Some? {
      var folder := children[FindFolder(children, path).value];
      ReachedWithin(tree, "", trail, folder);
      WithinPath(tree, "", trail + [folder.name], folder);
      PathUnderJoins("", trail + [folder.name]);
      JoinIsInjective(trail + [folder.name], full);
      if Indexed(tree, path).Some? {
        WithinPath(tree, "", found, Indexed(tree, path).value);
        PathUnderJoins("", found);
        JoinIsInjective(found, full);
        WithinOnce(tree, "", full, folder, Indexed(tree, path).value);
      }
    } else if Indexed(tree, path).Some? {
      var folder := Indexed(tree, path).value;
      WithinPath(tree, "", found, folder);
      PathUnderJoins("", found);
      JoinIsInjective(found, full);
      WithinName(tree, full, folder, "");
      ReachedWithin(tree, "", trail, folder);
    }
  }

  lemma TrailParts(trail: seq<string>, segment: string)
    requires Trail(trail + [segment])
    ensures Trail(trail) && segment != "" && '/' !in segment
  {
    var all := trail + [segment];
    assert all[|trail|] == segment && forall i | 0 <= i < |trail| :: all[i] == trail[i];
  }

  lemma {:induction false} WithinName(nodes: seq<Node>, trail: seq<string>, folder: Node, prefix: string)
    requires Placed(nodes, prefix) && Within(nodes, trail, folder)
    ensures |trail| > 0 && folder.FolderNode? && folder.name == trail[|trail| - 1]
    decreases |trail|
  {
    var i :| 0 <= i < |nodes| && nodes[i].FolderNode? && nodes[i].name == trail[0]
             && if |trail| == 1 then nodes[i] == folder else Within(nodes[i].children, trail[1..], folder);
    if |trail| > 1 {
      assert PlacedNode(nodes[i], prefix);
      WithinName(nodes[i].children, trail[1..], folder, nodes[i].path);
    }
  }

  lemma NoLeaves(trail: seq<string>, prefix: string)
    ensures Leaves([], trail) == multiset{} && Placed([], prefix)
  {
  }

  /** The leaves there should be: every document once, under the folders of its path. */
  ghost function Expected(documents: seq<Document>, n: nat): multiset<Leaf>
    requires n <= |documents|
  {
    if n == 0 then multiset{}
    else Expected(documents, n - 1) + multiset{ExpectedLeaf(documents[n - 1], n - 1)}
  }

  ghost function ExpectedLeaf(document: Document, position: nat): Leaf {
    Leaf(FolderSegments(document.path), LeafOf(document, position).name, position)
  }

  /** A leaf stands for a document: its folders and its name are the parts of the document's path, or,
      without a path, it lies outside all folders under the document's title. */
  ghost predicate StandsFor(leaf: Leaf, document: Document) {
    if Segments(document.path) != [] then leaf.trail + [leaf.name] == Segments(document.path)
    else leaf.trail == [] && leaf.name == if document.title != "" then document.title else "Untitled"
  }

  lemma ExpectedStandsFor(document: Document, position: nat)
    ensures StandsFor(ExpectedLeaf(document, position), document)
  {
    hide Segments;
  }

  lemma {:induction false} BuildPlacesEveryDocument(documents: seq<Document>, n: nat)
    requires n <= |documents|
    ensures Placed(Build(documents, n), "")
    ensures Leaves(Build(documents, n), []) == Expected(documents, n)
  {
    hide Leaves, Insert, Placed, FolderSegments;
    if n == 0 {
      NoLeaves([], "");
    } else {
      BuildPlacesEveryDocument(documents, n - 1);
      InsertPlacesDocument(Build(documents, n - 1), documents[n - 1], n - 1);
    }
  }

  lemma InsertPlacesDocument(tree: seq<Node>, document: Document, position: nat)
    requires Placed(tree, "")
    ensures var next := Insert(tree, "", FolderSegments(document.path), LeafOf(document, position));
            Placed(next, "") && Leaves(next, []) == Leaves(tree, []) + multiset{ExpectedLeaf(document, position)}
  {
    hide Leaves, Insert, Placed, FolderSegments;
    var segments := FolderSegments(document.path);
    FolderSegmentsIsTrail(document.path);
    InsertKeepsPlaced(tree, "", segments, LeafOf(document, position));
    InsertAddsOneLeaf(tree, "", segments, LeafOf(document, position), []);
    assert [] + segments == segments;
  }

  lemma {:induction false} ExpectedOnce(documents: seq<Document>, n: nat, d: nat)
    requires n <= |documents|
    ensures d < n ==> Expected(documents, n)[ExpectedLeaf(documents[d], d)] == 1
    ensures forall leaf | leaf in Expected(documents, n) ::
              leaf.document < n && leaf == ExpectedLeaf(documents[leaf.document], leaf.document)
  {
    hide FolderSegments, LeafOf;
    if n > 0 {
      ExpectedOnce(documents, n - 1, d);
      if d == n - 1 && ExpectedLeaf(documents[d], d) in Expected(documents, n - 1) {
        assert false;
      }
    }
  }

  // ---- sorting and counting ----

  /** The foreign sort under the sibling comparator; only that it permutes matters here. */
  type Sort = seq<Node> -> seq<Node>

  ghost predicate Permutes(sort: Sort) {
    forall nodes: seq<Node> :: multiset(sort(nodes)) == multiset(nodes)
  }

  function Count(nodes: seq<Node>): nat {
    if |nodes| == 0 then 0
    else (if nodes[0].File? then 1 else nodes[0].fileCount) + Count(nodes[1..])
  }

  function SortDocNodes(nodes: seq<Node>, sort: Sort): seq<Node>
    decreases nodes, 2
  {
    sort(SortBelow(nodes, sort))
  }

  function SortBelow(nodes: seq<Node>, sort: Sort): seq<Node>
    decreases nodes, 1
  {
    if |nodes| == 0 then [] else [SortNode(nodes[0], sort)] + SortBelow(nodes[1..], sort)
  }

  function SortNode(node: Node, sort: Sort): Node
    decreases node, 0
  {
    match node
    case File(_, _) => node
    case FolderNode(name, path, children, _) =>
      var sorted := SortDocNodes(children, sort);
      FolderNode(name, path, sorted, Count(sorted))
  }

  /** Every folder's count is the number of leaves below it. */
  ghost predicate Counted(nodes: seq<Node>)
    decreases nodes, 1
  {
    forall i | 0 <= i < |nodes| :: CountedNode(nodes[i])
  }

  ghost predicate CountedNode(node: Node)
    decreases node, 0
  {
    node.FolderNode? ==> Counted(node.children) && forall trail :: node.fileCount == |Leaves(node.children, trail)|
  }

  lemma {:induction false} LeavesOfPermutation(a: seq<Node>, b: seq<Node>, trail: seq<string>)
    requires multiset(a) == multiset(b)
    ensures Leaves(a, trail) == Leaves(b, trail)
    decreases |a|
  {
    hide LeavesOf;
    assert |a| == |multiset(a)| == |multiset(b)| == |b|;
    if |a| > 0 {
      assert a[0] in multiset(b);
      var i :| 0 <= i < |b| && b[i] == a[0];
      var rest := b[..i] + b[i + 1..];
      SameRest(a, b, i);
      LeavesOfPermutation(a[1..], rest, trail);
      MiddleNode(b, i, trail);
    }
  }

  lemma SameRest(a: seq<Node>, b: seq<Node>, i: nat)
    requires |a| > 0 && i < |b| && a[0] == b[i] && multiset(a) == multiset(b)
    ensures multiset(a[1..]) == multiset(b[..i] + b[i + 1..])
  {
    assert a == [a[0]] + a[1..];
    assert b == b[..i] + [b[i]] + b[i + 1..];
    assert multiset(a) == multiset([a[0]]) + multiset(a[1..]);
    assert multiset(b) == multiset(b[..i]) + multiset([b[i]]) + multiset(b[i + 1..]);
    assert multiset(b[..i] + b[i + 1..]) == multiset(b[..i]) + multiset(b[i + 1..]);
    assert multiset(a[1..]) == multiset(a) - multiset([a[0]]);
  }

  lemma MiddleNode(b: seq<Node>, i: nat, trail: seq<string>)
    requires i < |b|
    ensures Leaves(b, trail) == LeavesOf(b[i], trail) + Leaves(b[..i] + b[i + 1..], trail)
  {
    hide Leaves, LeavesOf;
    assert b == b[..i] + ([b[i]] + b[i + 1..]);
    LeavesConcat(b[..i], [b[i]] + b[i + 1..], trail);
    LeavesConcat([b[i]], b[i + 1..], trail);
    LeavesConcat(b[..i], b[i + 1..], trail);
    LeavesOfOne(b[i], trail);
  }

  lemma {:induction false} CountIsLeaves(nodes: seq<Node>, trail: seq<string>)
    requires Counted(nodes)
    ensures Count(nodes) == |Leaves(nodes, trail)|
    decreases |nodes|
  {
    if |nodes| > 0 {
      assert CountedNode(nodes[0]);
      assert Counted(nodes[1..]) by {
        forall i | 0 <= i < |nodes[1..]|
          ensures CountedNode(nodes[1..][i])
        {
          assert CountedNode(nodes[i + 1]);
        }
      }
      CountIsLeaves(nodes[1..], trail);
      if nodes[0].FolderNode? { assert nodes[0].fileCount == |Leaves(nodes[0].children, trail + [nodes[0].name])|; }
    }
  }

  lemma {:induction false} SortKeepsLeaves(nodes: seq<Node>, sort: Sort, trail: seq<string>)
    requires Permutes(sort)
    ensures Leaves(SortDocNodes(nodes, sort), trail) == Leaves(nodes, trail)
    ensures Counted(SortDocNodes(nodes, sort))
    decreases nodes, 2
  {
    SortBelowKeepsLeaves(nodes, sort, trail);
    var below := SortBelow(nodes, sort);
    assert multiset(sort(below)) == multiset(below);
    LeavesOfPermutation(sort(below), below, trail);
    forall i | 0 <= i < |sort(below)|
      ensures CountedNode(sort(below)[i])
    {
      assert sort(below)[i] in multiset(below);
      var j :| 0 <= j < |below| && below[j] == sort(below)[i];
      assert CountedNode(below[j]);
    }
  }

  lemma {:induction false} SortBelowKeepsLeaves(nodes: seq<Node>, sort: Sort, trail: seq<string>)
    requires Permutes(sort)
    ensures Leaves(SortBelow(nodes, sort), trail) == Leaves(nodes, trail)
    ensures Counted(SortBelow(nodes, sort))
    decreases nodes, 1
  {
    if |nodes| > 0 {
      SortNodeKeepsLeaves(nodes[0], sort, trail);
      SortBelowKeepsLeaves(nodes[1..], sort, trail);
      var first, rest := SortNode(nodes[0], sort), SortBelow(nodes[1..], sort);
      LeavesConcat([first], rest, trail);
      LeavesOfOne(first, trail);
      forall i | 0 <= i < |[first] + rest|
        ensures CountedNode(([first] + rest)[i])
      {
        if i > 0 { assert ([first] + rest)[i] == rest[i - 1]; }
      }
    }
  }

  lemma {:induction false} SortNodeKeepsLeaves(node: Node, sort: Sort, trail: seq<string>)
    requires Permutes(sort)
    ensures LeavesOf(SortNode(node, sort), trail) == LeavesOf(node, trail)
    ensures CountedNode(SortNode(node, sort))
    decreases node, 0
  {
    if node.FolderNode? {
      SortKeepsLeaves(node.children, sort, trail + [node.name]);
      var sorted := SortDocNodes(node.children, sort);
      forall t
        ensures Count(sorted) == |Leaves(sorted, t)|
      {
        CountIsLeaves(sorted, t);
      }
    }
  }

  lemma ExpectedNumber(document: Document, position: nat)
    ensures ExpectedLeaf(document, position).document == position
  {
  }

  /** The finished tree has every document at exactly one leaf and nothing else; folders and name of
      the leaf are the parts of the document's path; and every folder's file count is the number of
      files below it. */
  lemma TreeHoldsEveryDocumentOnce(documents: seq<Document>, sort: Sort, d: nat)
    requires Permutes(sort)
    ensures var tree := SortDocNodes(Build(documents, |documents|), sort);
            && Counted(tree)
            && (d < |documents| ==> exists leaf :: Leaves(tree, [])[leaf] == 1 && leaf.document == d)
            && (forall leaf | leaf in Leaves(tree, []) ::
                  leaf.document < |documents| && StandsFor(leaf, documents[leaf.document]))
            && (forall leaf, other | leaf in Leaves(tree, []) && other in Leaves(tree, []) && leaf.document == other.document ::
                  leaf == other)
            && |Leaves(tree, [])| == |documents|
  {
    hide Leaves, SortDocNodes, Build, Expected, ExpectedLeaf, StandsFor;
    BuildPlacesEveryDocument(documents, |documents|);
    SortKeepsLeaves(Build(documents, |documents|), sort, []);
    ExpectedOnce(documents, |documents|, d);
    ExpectedSize(documents, |documents|);
    var tree := SortDocNodes(Build(documents, |documents|), sort);
    forall leaf | leaf in Leaves(tree, [])
      ensures leaf.document < |documents| && StandsFor(leaf, documents[leaf.document])
    {
      ExpectedStandsFor(documents[leaf.document], leaf.document);
    }
    if d < |documents| { ExpectedNumber(documents[d], d); }
  }

  lemma {:induction false} ExpectedSize(documents: seq<Document>, n: nat)
    requires n <= |documents|
    ensures |Expected(documents, n)| == n
  {
    if n > 0 { ExpectedSize(documents, n - 1); }
  }
}
